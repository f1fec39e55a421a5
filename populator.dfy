/** Specification of the struct populator: which configuration keys a field
    is looked up under, what it receives, and when population panics. */
module Populator {
  import opened Wrappers
  import opened Layers
  import Text
  import Secrets

  /** The declared type of a destination field, as the populator tells it apart. */
  datatype Kind = KString | KInt | KOther

  /** One field of the destination struct: its name, its type and the value
      of its `fig` struct tag. */
  datatype FieldDecl = FieldDecl(name: string, kind: Kind, tag: string)

  /** The value held by one field of the destination struct. */
  datatype FieldValue = StrField(s: string) | IntField(i: int) | OtherField

  const OtherKindMessage: string := "Can not read any value other than string|int"

  function NotFoundMessage(container: string, lookup: seq<string>): string
  {
    "Can not find value for: " + container + ".(" + Text.Join(lookup, "|") + ")"
  }

  /** The four spellings a field name is looked up under: exact, lower case,
      snake case, and snake case with hyphens. */
  function LookupVariants(name: string, snake: string -> string): (lookup: seq<string>)
    ensures |lookup| == 4 && lookup[0] == name
    ensures lookup[1] == Text.ToLower(name) && lookup[2] == snake(name)
    ensures forall i :: 0 <= i < |lookup[2]| && i < |lookup[3]| ==> lookup[3][i] == (if lookup[2][i] == '_' then '-' else lookup[2][i])
    ensures forall i :: 0 <= i < |lookup[1]| ==> !Text.IsUpper(lookup[1][i])
    ensures '_' !in lookup[3] && |lookup[3]| == |lookup[2]|
  {
    [name, Text.ToLower(name), snake(name), Text.ReplaceAll(snake(name), '_', '-')]
  }

  /** The spellings of the test fixture's IntValue field, with snaker
      mapping it to int_value: one per fixture (exact, lower, snake, url). */
  lemma FixtureSpellings(snake: string -> string)
    requires snake("IntValue") == "int_value"
    ensures LookupVariants("IntValue", snake) == ["IntValue", "intvalue", "int_value", "int-value"]
  {
    assert Text.ToLower("IntValue") == "intvalue";
    assert Text.ReplaceAll("int_value", '_', '-') == "int-value";
  }

  /** The dotted keys under `container` that the variants name. */
  function Candidates(container: string, lookup: seq<string>): (keys: seq<string>)
    ensures |keys| == |lookup|
    ensures forall i :: 0 <= i < |keys| ==> keys[i] == container + "." + lookup[i]
  {
    seq(|lookup|, i requires 0 <= i < |lookup| => Text.Join([container, lookup[i]], "."))
  }

  /** The state of one field while its candidate keys are tried. */
  datatype FieldRead = FieldRead(ok: bool, found: bool, value: FieldValue, cache: map<string, string>)

  /** The inner loop of Struct over the candidate `keys` of a field of type
      `kind`: every key present in `cfg` is read (strings through the secret
      resolver, falling back to the raw value) and assigned, so a later key
      overrides an earlier one; a present key for a field of another type
      stops the field with ok = false. */
  function ReadField(cfg: Namespace, fetch: string -> Option<string>, kind: Kind, keys: seq<string>,
                     value: FieldValue, cache: map<string, string>, found: bool): (r: FieldRead)
    ensures found ==> r.found
    ensures cache.Keys <= r.cache.Keys
    ensures kind != KString ==> r.cache == cache
    ensures !r.ok ==> kind == KOther && r.value == value
  {
    if keys == [] then FieldRead(true, found, value, cache)
    else if keys[0] !in cfg then ReadField(cfg, fetch, kind, keys[1..], value, cache, found)
    else match kind
      case KString =>
        var val := AsString(cfg[keys[0]]);
        var r := Secrets.Resolve(cache, keys[0], val, fetch);
        ReadField(cfg, fetch, kind, keys[1..], StrField(r.text.GetOr(val)), r.cache, true)
      case KInt => ReadField(cfg, fetch, kind, keys[1..], IntField(AsInt(cfg[keys[0]])), cache, true)
      case KOther => FieldRead(false, true, value, cache)
  }

  predicate AnyPresent(cfg: Namespace, keys: seq<string>)
  {
    exists i :: 0 <= i < |keys| && keys[i] in cfg
  }

  /** Whether the field is found and whether reading it succeeds depend only
      on which keys are present, never on the cache or the earlier value. */
  lemma {:induction false} ReadFieldFlags(cfg: Namespace, fetch: string -> Option<string>, kind: Kind, keys: seq<string>,
                                          value: FieldValue, cache: map<string, string>, found: bool)
    ensures var r := ReadField(cfg, fetch, kind, keys, value, cache, found);
            && r.found == (found || AnyPresent(cfg, keys))
            && r.ok == !(kind == KOther && AnyPresent(cfg, keys))
  {
    if keys != [] {
      assert AnyPresent(cfg, keys) <==> keys[0] in cfg || AnyPresent(cfg, keys[1..]) by {
        if AnyPresent(cfg, keys[1..]) {
          var i :| 0 <= i < |keys[1..]| && keys[1..][i] in cfg;
          assert keys[i + 1] in cfg;
        }
        if AnyPresent(cfg, keys) && keys[0] !in cfg {
          var i :| 0 <= i < |keys| && keys[i] in cfg;
          assert keys[1..][i - 1] in cfg;
        }
      }
      if keys[0] !in cfg {
        ReadFieldFlags(cfg, fetch, kind, keys[1..], value, cache, found);
      } else if kind == KString {
        var val := AsString(cfg[keys[0]]);
        var r := Secrets.Resolve(cache, keys[0], val, fetch);
        ReadFieldFlags(cfg, fetch, kind, keys[1..], StrField(r.text.GetOr(val)), r.cache, true);
      } else if kind == KInt {
        ReadFieldFlags(cfg, fetch, kind, keys[1..], IntField(AsInt(cfg[keys[0]])), cache, true);
      }
    }
  }

  /** A field none of whose keys is present keeps its value, and the cache is
      untouched. */
  lemma {:induction false} ReadFieldAbsent(cfg: Namespace, fetch: string -> Option<string>, kind: Kind, keys: seq<string>,
                                           value: FieldValue, cache: map<string, string>, found: bool)
    requires forall i :: 0 <= i < |keys| ==> keys[i] !in cfg
    ensures ReadField(cfg, fetch, kind, keys, value, cache, found) == FieldRead(true, found, value, cache)
  {
    if keys != [] {
      ReadFieldAbsent(cfg, fetch, kind, keys[1..], value, cache, found);
    }
  }

  /** The last present key decides an int field: it receives the integer at
      that key, whatever the earlier keys held. */
  lemma {:induction false} ReadFieldLastIntWins(cfg: Namespace, fetch: string -> Option<string>, keys: seq<string>,
                                                value: FieldValue, cache: map<string, string>, found: bool, p: nat)
    requires p < |keys| && keys[p] in cfg
    requires forall i :: p < i < |keys| ==> keys[i] !in cfg
    ensures ReadField(cfg, fetch, KInt, keys, value, cache, found).value == IntField(AsInt(cfg[keys[p]]))
  {
    if p == 0 {
      ReadFieldAbsent(cfg, fetch, KInt, keys[1..], IntField(AsInt(cfg[keys[0]])), cache, true);
    } else {
      var v' := if keys[0] in cfg then IntField(AsInt(cfg[keys[0]])) else value;
      ReadFieldLastIntWins(cfg, fetch, keys[1..], v', cache, found || keys[0] in cfg, p - 1);
    }
  }

  /** The last present key decides a string field: it receives that key's raw
      string resolved against the cache left by the earlier keys, or the raw
      string itself when the parameter store has no answer. */
  lemma {:induction false} ReadFieldLastStringWins(cfg: Namespace, fetch: string -> Option<string>, keys: seq<string>,
                                                   value: FieldValue, cache: map<string, string>, found: bool, p: nat)
    requires p < |keys| && keys[p] in cfg
    requires forall i :: p < i < |keys| ==> keys[i] !in cfg
    ensures var before := ReadField(cfg, fetch, KString, keys[..p], value, cache, found);
            var val := AsString(cfg[keys[p]]);
            ReadField(cfg, fetch, KString, keys, value, cache, found).value
              == StrField(Secrets.Resolve(before.cache, keys[p], val, fetch).text.GetOr(val))
  {
    if p == 0 {
      var val := AsString(cfg[keys[0]]);
      var r := Secrets.Resolve(cache, keys[0], val, fetch);
      ReadFieldAbsent(cfg, fetch, KString, keys[1..], StrField(r.text.GetOr(val)), r.cache, true);
    } else {
      assert keys[1..][..p - 1] == keys[..p][1..];
      if keys[0] in cfg {
        var val := AsString(cfg[keys[0]]);
        var r := Secrets.Resolve(cache, keys[0], val, fetch);
        ReadFieldLastStringWins(cfg, fetch, keys[1..], StrField(r.text.GetOr(val)), r.cache, true, p - 1);
      } else {
        ReadFieldLastStringWins(cfg, fetch, keys[1..], value, cache, found, p - 1);
      }
    }
  }

  /** The result of populating: the outcome, the field values and the cache. */
  datatype Population = Population(outcome: Outcome<()>, values: seq<FieldValue>, cache: map<string, string>)

  /** The outer loop of Struct from field `i` on: each field is read through
      its candidate keys; a field of another type that is present, or a field
      that is absent and not tagged optional, stops population with a panic. */
  function Populate(cfg: Namespace, fetch: string -> Option<string>, snake: string -> string, container: string,
                    fields: seq<FieldDecl>, values: seq<FieldValue>, cache: map<string, string>, i: nat): (r: Population)
    requires |values| == |fields| && i <= |fields|
    ensures |r.values| == |fields|
    ensures cache.Keys <= r.cache.Keys
    decreases |fields| - i
  {
    if i == |fields| then Population(Ok(()), values, cache)
    else
      var f := fields[i];
      var lookup := LookupVariants(f.name, snake);
      var rf := ReadField(cfg, fetch, f.kind, Candidates(container, lookup), values[i], cache, false);
      if !rf.ok then Population(Panic(OtherKindMessage), values[i := rf.value], rf.cache)
      else if !rf.found && !Text.Contains(f.tag, "optional") then
        Population(Panic(NotFoundMessage(container, lookup)), values[i := rf.value], rf.cache)
      else Populate(cfg, fetch, snake, container, fields, values[i := rf.value], rf.cache, i + 1)
  }

  /** A field can be populated when some spelling of its name is present and
      it is a string or int field, or when none is present and it is tagged
      optional. */
  predicate Acceptable(cfg: Namespace, snake: string -> string, container: string, f: FieldDecl)
  {
    if AnyPresent(cfg, Candidates(container, LookupVariants(f.name, snake))) then f.kind != KOther
    else Text.Contains(f.tag, "optional")
  }

  /** Population succeeds exactly when every remaining field is acceptable. */
  lemma {:induction false} PopulateOkIff(cfg: Namespace, fetch: string -> Option<string>, snake: string -> string, container: string,
                                         fields: seq<FieldDecl>, values: seq<FieldValue>, cache: map<string, string>, i: nat)
    requires |values| == |fields| && i <= |fields|
    ensures (Populate(cfg, fetch, snake, container, fields, values, cache, i).outcome.Ok?
             <==> forall j :: i <= j < |fields| ==> Acceptable(cfg, snake, container, fields[j]))
    decreases |fields| - i
  {
    if i < |fields| {
      var f := fields[i];
      var keys := Candidates(container, LookupVariants(f.name, snake));
      var rf := ReadField(cfg, fetch, f.kind, keys, values[i], cache, false);
      PopulateStepOk(cfg, fetch, snake, container, fields, values, cache, i);
      if Acceptable(cfg, snake, container, f) {
        PopulateOkIff(cfg, fetch, snake, container, fields, values[i := rf.value], rf.cache, i + 1);
      }
    }
  }

  /** One step of Populate: the field's read either stops population with
      the panic Struct raises, or goes on with the next field. */
  lemma PopulateStep(cfg: Namespace, fetch: string -> Option<string>, snake: string -> string, container: string,
                     fields: seq<FieldDecl>, values: seq<FieldValue>, cache: map<string, string>, i: nat,
                     rf: FieldRead)
    requires |values| == |fields| && i < |fields|
    requires rf == ReadField(cfg, fetch, fields[i].kind, Candidates(container, LookupVariants(fields[i].name, snake)), values[i], cache, false)
    ensures var p := Populate(cfg, fetch, snake, container, fields, values, cache, i);
            && (!rf.ok ==> p == Population(Panic(OtherKindMessage), values[i := rf.value], rf.cache))
            && (rf.ok && !rf.found && !Text.Contains(fields[i].tag, "optional") ==>
                  p == Population(Panic(NotFoundMessage(container, LookupVariants(fields[i].name, snake))), values[i := rf.value], rf.cache))
            && (rf.ok && (rf.found || Text.Contains(fields[i].tag, "optional")) ==>
                  p == Populate(cfg, fetch, snake, container, fields, values[i := rf.value], rf.cache, i + 1))
  {
  }

  /** One step of PopulateOkIff: the current field is acceptable exactly when
      population goes on to the next field. */
  lemma PopulateStepOk(cfg: Namespace, fetch: string -> Option<string>, snake: string -> string, container: string,
                       fields: seq<FieldDecl>, values: seq<FieldValue>, cache: map<string, string>, i: nat)
    requires |values| == |fields| && i < |fields|
    ensures var keys := Candidates(container, LookupVariants(fields[i].name, snake));
            var rf := ReadField(cfg, fetch, fields[i].kind, keys, values[i], cache, false);
            var p := Populate(cfg, fetch, snake, container, fields, values, cache, i);
            if Acceptable(cfg, snake, container, fields[i])
            then p == Populate(cfg, fetch, snake, container, fields, values[i := rf.value], rf.cache, i + 1)
            else p.outcome.Panic?
  {
    var f := fields[i];
    var keys := Candidates(container, LookupVariants(f.name, snake));
    ReadFieldFlags(cfg, fetch, f.kind, keys, values[i], cache, false);
  }

  /** A field none of whose spellings is present keeps its prior value,
      whether or not population panics. */
  lemma {:induction false} PopulateAbsentKeeps(cfg: Namespace, fetch: string -> Option<string>, snake: string -> string, container: string,
                                               fields: seq<FieldDecl>, values: seq<FieldValue>, cache: map<string, string>, i: nat, j: nat)
    requires |values| == |fields| && i <= j < |fields|
    requires !AnyPresent(cfg, Candidates(container, LookupVariants(fields[j].name, snake)))
    ensures var p := Populate(cfg, fetch, snake, container, fields, values, cache, i);
            |p.values| == |fields| && p.values[j] == values[j]
    decreases |fields| - i
  {
    var f := fields[i];
    var keys := Candidates(container, LookupVariants(f.name, snake));
    var rf := ReadField(cfg, fetch, f.kind, keys, values[i], cache, false);
    if i == j {
      ReadFieldAbsent(cfg, fetch, f.kind, keys, values[i], cache, false);
      if rf.ok && (rf.found || Text.Contains(f.tag, "optional")) {
        PopulateUntouchedBefore(cfg, fetch, snake, container, fields, values[i := rf.value], rf.cache, i + 1, j);
      }
    } else if rf.ok && (rf.found || Text.Contains(f.tag, "optional")) {
      PopulateAbsentKeeps(cfg, fetch, snake, container, fields, values[i := rf.value], rf.cache, i + 1, j);
    }
  }

  /** Fields before the current one are no longer written. */
  lemma {:induction false} PopulateUntouchedBefore(cfg: Namespace, fetch: string -> Option<string>, snake: string -> string, container: string,
                                                   fields: seq<FieldDecl>, values: seq<FieldValue>, cache: map<string, string>, i: nat, j: nat)
    requires |values| == |fields| && j < i <= |fields|
    ensures var p := Populate(cfg, fetch, snake, container, fields, values, cache, i);
            |p.values| == |fields| && p.values[j] == values[j]
    decreases |fields| - i
  {
    if i < |fields| {
      var f := fields[i];
      var rf := ReadField(cfg, fetch, f.kind, Candidates(container, LookupVariants(f.name, snake)), values[i], cache, false);
      if rf.ok && (rf.found || Text.Contains(f.tag, "optional")) {
        PopulateUntouchedBefore(cfg, fetch, snake, container, fields, values[i := rf.value], rf.cache, i + 1, j);
      }
    }
  }

  /** When population succeeds, an int field holds the integer at the last of
      its spellings that is present. */
  lemma {:induction false} PopulateIntField(cfg: Namespace, fetch: string -> Option<string>, snake: string -> string, container: string,
                                            fields: seq<FieldDecl>, values: seq<FieldValue>, cache: map<string, string>, i: nat, j: nat, p: nat)
    requires |values| == |fields| && i <= j < |fields| && fields[j].kind == KInt
    requires var keys := Candidates(container, LookupVariants(fields[j].name, snake));
             p < |keys| && keys[p] in cfg && forall q :: p < q < |keys| ==> keys[q] !in cfg
    requires Populate(cfg, fetch, snake, container, fields, values, cache, i).outcome.Ok?
    ensures var keys := Candidates(container, LookupVariants(fields[j].name, snake));
            var r := Populate(cfg, fetch, snake, container, fields, values, cache, i);
            |r.values| == |fields| && r.values[j] == IntField(AsInt(cfg[keys[p]]))
    decreases |fields| - i
  {
    var f := fields[i];
    var keys := Candidates(container, LookupVariants(f.name, snake));
    var rf := ReadField(cfg, fetch, f.kind, keys, values[i], cache, false);
    if i == j {
      ReadFieldLastIntWins(cfg, fetch, keys, values[i], cache, false, p);
      PopulateUntouchedBefore(cfg, fetch, snake, container, fields, values[i := rf.value], rf.cache, i + 1, j);
    } else {
      PopulateIntField(cfg, fetch, snake, container, fields, values[i := rf.value], rf.cache, i + 1, j, p);
    }
  }
}
