# fig: layered configuration with secret resolution, in Dafny

This project models the core of `fig`, a Go package that serves process-wide
configuration. At start-up it computes a list of eight candidate files from the
`FG_CONFIG_ENV` environment variable. It merges the files that read successfully
into one namespace, in which an earlier candidate wins over a later one. Typed
getters then read that namespace. Strict getters panic on a missing key; the
`*Or` getters return a default instead. The namespace is built again lazily once
it has been cleared. A string value written `ssm@<name>` is looked up in the AWS
parameter store (SSM), and the result is kept in a cache (`ssmMap`). `Struct`
fills the fields of a flat struct by trying four spellings of each field name.

Modules, one concept each:

- `Wrappers` (wrappers.dfy): `Option`, and `Outcome` (`Ok(value)` or
  `Panic(message)`). A Go panic becomes a `Panic` result that carries the
  package's exact message.
- `Text` (text.dfy): the `strings` functions the package calls (`Join`,
  `Index`, `HasPrefix` as the sequence-prefix operator, ASCII `ToLower`,
  `Replace`, `Contains`).
- `Layers` (layers.dfy): configuration values, the start-up file order,
  jumpstart's reverse walk (`FoundFiles`, specified by `Found`), and the merge
  (`Merged`, `Build`). Precedence is defined independently by
  `FirstDefining`, the first readable candidate that defines the key.
- `Secrets` (secrets.dfy): the look-up key of `FetchFromSSM`, and `Resolve`.
  `Resolve` is the resolution step that the bodies of `String` and
  `StringOr` share, for a raw value read at a dotted key.
- `Populator` (populator.dfy): the specification of `Struct`. `ReadField`
  is the inner loop over one field's candidate keys. `Populate` is the outer
  loop over the fields.
- `Fig` (fig.dfy): class `Fig`, which holds the package variables
  `fileOrder`, `configuration` and `ssmMap`. Its constructor is the package's
  `init`. Its methods are `jumpstart`, the accessors and `Struct`, written as
  loops and branches like the Go code. Each method's `ensures` ties the
  result and the new state to the functions above.

External behaviour is passed in as a `Host` value:

- `parses(path)`: confer's `ReadPaths` succeeds on that one path.
- `overlay(path)`: the keys that file defines.
- `fetch(name)`: the parameter store's answer, or `None` on an error.
- `snake(name)`: snaker's `CamelToSnake`.

Assumptions stated in the model:

- confer's merge of the found files (`ReadPaths(filesOk...)`) is a left fold of
  map overrides, so a file later in the found list overrides an earlier one.
  `Layers.Merged` is this assumption. Under it, `FirstDefiningWins` proves that
  the first entry of `FileOrder` that reads and defines a key supplies that
  key's value.
- `filepath.Abs` is the identity, so the found list holds the candidate paths
  themselves.
- The namespace is flat: a nested tree is written as its dotted keys.

Behaviours of the code that the model keeps, though a reader might expect otherwise:

- A plain (non-`ssm@`) string is cached under its dotted key, `ssmMap[key] =
  val` (fig.go:189, fig.go:215), not under the value itself. So a later value
  that is spelled like an earlier key is answered from the cache with that
  key's value. `Secrets.PlainValueCachedUnderKey` proves this.
- `Struct` assigns every spelling that is present, so the last present
  spelling decides the field. It does not stop at the first match.
- `Struct` panics on an absent field unless the field's `fig` tag contains
  `optional`. An optional absent field keeps its value.
- When the parameter-store fetch fails, `StringOr` returns its default and
  `String` returns the raw `ssm@` string. Neither caches anything.

## Model

| member | source | states |
|---|---|---|
| `Layers.InitialFileOrder` | fig.go:54-83 | the order always has 8 entries and always ends with the four `config` paths; it starts with the four `dev` paths when FG_CONFIG_ENV is empty or `dev`, otherwise with `./config/<env>.yaml`, `./config/<env>.json`, `<env>.yaml`, `<env>.json` |
| `Layers.Found` | fig.go:91-102 | definition of the found list, lowest precedence first; its entries all read, and it is no longer than the order; properties in `FoundIsReversedReadable` and `FoundMembers` |
| `Layers.FoundReadable` | fig.go:94-101 | every candidate that reads is in the found list |
| `Layers.Merged` | fig.go:104-105 | definition of the assumed merge (a left fold of overrides): every key of every found file is in the result, and the last file's values win |
| `Layers.Build` | fig.go:89-105 | definition of the namespace jumpstart builds: every key of every readable candidate is in it; precedence in `FirstDefiningWins` |
| `Layers.AsInt` | fig.go:137 | definition of the integer read: the integer payload, or 0 for a value of another kind |
| `Layers.AsString` | fig.go:175 | definition of the string read: the string payload, or "" for a value of another kind |
| `Layers.AsBool` | fig.go:227 | definition of the boolean read: the boolean payload, or false for a value of another kind |
| `Layers.FoundFiles` | fig.go:89-102 | the reverse loop collects exactly `Found(order)`: the entries that read, lowest precedence first |
| `Layers.FoundIsReversedReadable` | fig.go:93-101 | the found list is the reverse of the readable entries taken in precedence order |
| `Layers.FoundMembers` | fig.go:94-101 | a path is found iff it is in the order and reads; an entry that fails is skipped and never causes an error |
| `Layers.FirstDefiningWins` | fig.go:89-105 | if the merge overrides left to right, the built namespace holds a key iff some readable candidate defines it, and its value comes from the first such candidate |
| `Text.Join` | fig.go:118 | definition of strings.Join: no parts give "", two parts give the first, the separator and the second; property in `JoinSnoc` |
| `Text.JoinSnoc` | fig.go:269-295 | when there is at least one part, joining the container and then one more name gives the same key as joining all the parts with dots (with no parts the container is "" and the key starts with a dot) |
| `Text.IndexOf` | fig.go:324 | the result is never below -1; it is -1 iff the character is absent, so a present character gives a non-negative result, which is the position of its first occurrence |
| `Text.ToLower` | fig.go:291 | the result has the same length and no upper-case letter; each upper-case ASCII letter becomes its lower-case letter, and every other character is kept |
| `Text.ReplaceAll` | fig.go:291 | the result has the same length; each `from` character becomes `to`, and every other character is kept |
| `Text.ContainsIff` | fig.go:312 | `Contains` holds iff the substring occurs at some position |
| `Secrets.SsmLookupKey` | fig.go:322-324 | the look-up key is what follows the first `@`; a string without `@` is its own key |
| `Secrets.PrefixedLookupKey` | fig.go:180-181 | for an `ssm@` string, the look-up key is everything after the prefix, including any further `@` |
| `Secrets.Resolve` | fig.go:175-190 | a cache hit on the value returns the cached text and makes no fetch; an `ssm@` value is fetched and cached under the value on success; a failed fetch gives no text and leaves the cache unchanged; a plain value passes through and is cached under the key; no entry is ever removed, and no entry other than the key's changes |
| `Secrets.ResolveIdempotent` | fig.go:199-216 | once a resolution has produced a text, resolving the same value at the same key again returns the same text and leaves the same cache, whatever the store answers then |
| `Secrets.FailedFetchRetried` | fig.go:180-184 | a failed fetch caches nothing, so the next resolution of the same value asks the store again and gets its new answer |
| `Secrets.ResolveMemoizes` | fig.go:176-186 | after a successful fetch, resolving the same indirection string again, from any key, answers from the cache whatever the store would say, so the store is consulted once |
| `Secrets.PlainValueCachedUnderKey` | fig.go:189-190 | after a plain value is resolved at key k, a later value spelled k resolves to that plain value |
| `Populator.LookupVariants` | fig.go:291 | four spellings: the exact name, the lower-cased name, `snake(name)`, and `snake(name)` with each `_` replaced by `-` |
| `Populator.FixtureSpellings` | fig_test.go:71-93 | the test struct's `IntValue` is looked up as `IntValue`, `intvalue`, `int_value` and `int-value` |
| `Populator.Candidates` | fig.go:295 | key i is the container, a dot and spelling i: the key `Exists(container, amatch)` checks |
| `Populator.ReadField` | fig.go:293-309 | definition of the inner loop over one field's keys: a field found stays found, the cache only grows and changes only for string fields, and a failure happens only for a field of another type and leaves its value alone; properties in the `ReadField*` lemmas |
| `Populator.Populate` | fig.go:281-316 | definition of the outer loop over the fields: one value per field, and the cache only grows; properties in the `Populate*` lemmas and `PopulateOkIff` |
| `Populator.ReadFieldFlags` | fig.go:292-309 | a field is found iff one of its keys is present; reading it fails iff it is present and of a type other than string or int; neither depends on the cache |
| `Populator.ReadFieldAbsent` | fig.go:293-309 | a field with no present key keeps its value, and the cache is unchanged |
| `Populator.ReadFieldLastIntWins` | fig.go:293-307 | an int field receives the integer at the last present key |
| `Populator.ReadFieldLastStringWins` | fig.go:293-307 | a string field receives the resolution of the last present key's raw string, under the cache that the earlier keys left |
| `Populator.PopulateOkIff` | fig.go:281-316 | `Struct` succeeds iff every field either has a present spelling and is a string or int field, or has none and is tagged `optional` |
| `Populator.PopulateAbsentKeeps` | fig.go:310-315 | a field with no present spelling keeps its prior value, whether or not the call panics |
| `Populator.PopulateUntouchedBefore` | fig.go:281-316 | once the loop has moved past a field, that field is not written again |
| `Populator.PopulateIntField` | fig.go:301-303 | after a successful call, an int field holds the integer at the last of its spellings that is present |
| `Fig.Fig.constructor` | fig.go:54-86 | init sets the 8-entry file order for the environment, builds the namespace from it, and starts with an empty cache |
| `Fig.Fig.Jumpstart` | fig.go:89-105 | the namespace becomes the merge of the found files of the current order |
| `Fig.Fig.Exists` | fig.go:113-120 | the result is whether the dot-joined key is in the namespace; the namespace is built only if it was absent, and nothing else changes |
| `Fig.Fig.MustExist` | fig.go:123-127 | panics with `configuration key missing:<key>` iff the key is absent |
| `Fig.Fig.IntOr` | fig.go:131-138 | returns exactly the default when the key is absent, otherwise the integer at the key |
| `Fig.Fig.Int` | fig.go:142-146 | panics iff the key is absent, otherwise returns the integer at the key |
| `Fig.Fig.BoolOr` | fig.go:221-228 | returns exactly the default when the key is absent, otherwise the boolean at the key |
| `Fig.Fig.Bool` | fig.go:232-236 | panics iff the key is absent, otherwise returns the boolean at the key |
| `Fig.Fig.FetchFromSsm` | fig.go:320-324 | the answer is the parameter store's answer for the part after the first `@` |
| `Fig.Fig.StringOr` | fig.go:169-191 | an absent key gives exactly the default with the cache unchanged; otherwise the result and the new cache are those of `Resolve`, with the default standing in for a failed fetch |
| `Fig.Fig.String` | fig.go:195-217 | an absent key panics with the cache unchanged; otherwise the result and the new cache are those of `Resolve`, with the raw value standing in for a failed fetch |
| `Fig.Fig.ReadFieldInto` | fig.go:292-309 | the inner loop of `Struct` for one field: its flags, the field's new value and the new cache are those of `ReadField`, and no other field changes |
| `Fig.Fig.Struct` | fig.go:267-317 | the outcome, the new field values and the new cache are those of `Populate`; the namespace is built on the first lookup, so a struct with no fields does not build it |

## Left out

- ResolveIdempotent: holds only once a resolution has produced a text. The parameter store is a fixed function of the look-up key, but a failed fetch is not cached and is retried on the next read, which may then succeed (see `FailedFetchRetried`). So a failed resolution is not idempotent in general.

- The AWS session and parameter-store client (fig.go:326-359): they become the
  `fetch` parameter. Also left out: the panic when no session can be created,
  and the nil dereference after an error that is not an AWS error. Each of
  these counts as a failed fetch here.
- confer's parsing of YAML and JSON, and the internals of its merge: a file is
  a `parses` flag plus an `overlay` map, and the merge is the assumed fold.
- Typed coercion (`GetInt`, `GetBool`, `GetString`, via the cast library): a
  value of the requested kind gives its payload. Any other value gives the
  kind's zero value. Cross-kind conversions such as the string "123" to 123 are
  not modelled.
- `Float`/`FloatOr` (fig.go:150-165): these work on floating point, which is not
  modelled. They follow the same absent-key pattern as `Int`/`IntOr`.
- `Map`, `StringSlice` and `StringSliceOr` (fig.go:240-262): these are not part
  of this model. They differ from `Int`/`IntOr` only in confer's map and list
  coercions.
- The `ShowFiles` trace (fig.go:106-108) and the `Printf` in `String`
  (fig.go:207): these are output only.
- `os.Getenv` becomes the constructor's `env` parameter. `filepath.Abs` is the
  identity.
- `Struct`'s panic when `addr` is not a pointer to a struct (fig.go:273-275):
  in the model the destination is always a record, an array of field values
  with one declaration per field.
- Reflection, and the parsing of struct tags: each field declares its name, its
  kind (string, int or other) and the value of its `fig` tag. `snaker`'s
  `CamelToSnake` is the `snake` parameter. `strings.ToLower` is modelled on
  ASCII letters only.
- Concurrency: the package has none, and its unguarded globals are modelled
  as the state of one object.
