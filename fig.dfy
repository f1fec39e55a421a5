/** The package-level state of fig and its public operations: the candidate
    file order, the lazily built configuration namespace, the secret cache,
    the typed accessors and the struct populator. */
module Fig {
  import opened Wrappers
  import opened Layers
  import Text
  import Secrets
  import opened Populator

  /** What the package reaches outside itself for: whether confer reads one
      path successfully, the keys that one file defines, the parameter
      store's answer for a look-up key, and snaker's CamelToSnake. */
  datatype Host = Host(
    parses: string -> bool,
    overlay: string -> Namespace,
    fetch: string -> Option<string>,
    snake: string -> string)

  function MissingKeyMessage(key: string): string
  {
    "configuration key missing:" + key
  }

  class Fig {
    /** FileOrder: candidate files, highest precedence first. */
    var fileOrder: seq<string>
    /** The merged namespace; None until (re)built. */
    var configuration: Option<Namespace>
    /** The secret cache. */
    var ssmMap: map<string, string>
    const host: Host

    /** The namespace an accessor reads: the built one, or the one the lazy
        build would produce from the current file order. */
    ghost function Loaded(): Namespace
      reads this
    {
      if configuration.Some? then configuration.value else Build(fileOrder, host.parses, host.overlay)
    }

    /** Package initialisation with FG_CONFIG_ENV set to `env`. */
    constructor (env: string, host: Host)
      ensures this.host == host
      ensures |fileOrder| == 8 && fileOrder[4..] == ConfigPaths
      ensures fileOrder[..4] == if env == "" || env == "dev" then DevPaths else EnvPaths(env)
      ensures configuration == Some(Build(fileOrder, host.parses, host.overlay))
      ensures ssmMap == map[]
    {
      this.host := host;
      var files := InitialFileOrder(env);
      fileOrder := files;
      configuration := None;
      ssmMap := map[];
      new;
      Jumpstart();
    }

    /** Build the namespace from the files of the current order that read. */
    method Jumpstart()
      modifies this`configuration
      ensures configuration == Some(Build(fileOrder, host.parses, host.overlay))
    {
      var filesOk := FoundFiles(fileOrder, host.parses);
      configuration := Some(Merged(filesOk, host.overlay));
    }

    /** Whether the key formed by joining `keys` with dots is present; builds
        the namespace first when it has not been built. */
    method Exists(keys: seq<string>) returns (b: bool)
      modifies this`configuration
      ensures configuration == Some(old(Loaded()))
      ensures b == (Text.Join(keys, ".") in old(Loaded()))
    {
      if configuration.None? {
        Jumpstart();
      }
      var key := Text.Join(keys, ".");
      b := key in configuration.value;
    }

    method MustExist(key: string) returns (r: Outcome<()>)
      modifies this`configuration
      ensures configuration == Some(old(Loaded()))
      ensures r == if key in old(Loaded()) then Ok(()) else Panic(MissingKeyMessage(key))
    {
      var present := Exists([key]);
      if !present {
        return Panic(MissingKeyMessage(key));
      }
      return Ok(());
    }

    method IntOr(defaultVal: int, keys: seq<string>) returns (r: int)
      modifies this`configuration
      ensures configuration == Some(old(Loaded()))
      ensures Text.Join(keys, ".") !in old(Loaded()) ==> r == defaultVal
      ensures Text.Join(keys, ".") in old(Loaded()) ==> r == AsInt(old(Loaded())[Text.Join(keys, ".")])
    {
      var key := Text.Join(keys, ".");
      var present := Exists([key]);
      if !present {
        return defaultVal;
      }
      return AsInt(configuration.value[key]);
    }

    method Int(keys: seq<string>) returns (r: Outcome<int>)
      modifies this`configuration
      ensures configuration == Some(old(Loaded()))
      ensures Text.Join(keys, ".") !in old(Loaded()) ==> r == Panic(MissingKeyMessage(Text.Join(keys, ".")))
      ensures Text.Join(keys, ".") in old(Loaded()) ==> r == Ok(AsInt(old(Loaded())[Text.Join(keys, ".")]))
    {
      var key := Text.Join(keys, ".");
      var m := MustExist(key);
      if m.Panic? {
        return Panic(m.message);
      }
      return Ok(AsInt(configuration.value[key]));
    }

    method BoolOr(defaultVal: bool, keys: seq<string>) returns (r: bool)
      modifies this`configuration
      ensures configuration == Some(old(Loaded()))
      ensures Text.Join(keys, ".") !in old(Loaded()) ==> r == defaultVal
      ensures Text.Join(keys, ".") in old(Loaded()) ==> r == AsBool(old(Loaded())[Text.Join(keys, ".")])
    {
      var key := Text.Join(keys, ".");
      var present := Exists([key]);
      if !present {
        return defaultVal;
      }
      return AsBool(configuration.value[key]);
    }

    method Bool(keys: seq<string>) returns (r: Outcome<bool>)
      modifies this`configuration
      ensures configuration == Some(old(Loaded()))
      ensures Text.Join(keys, ".") !in old(Loaded()) ==> r == Panic(MissingKeyMessage(Text.Join(keys, ".")))
      ensures Text.Join(keys, ".") in old(Loaded()) ==> r == Ok(AsBool(old(Loaded())[Text.Join(keys, ".")]))
    {
      var key := Text.Join(keys, ".");
      var m := MustExist(key);
      if m.Panic? {
        return Panic(m.message);
      }
      return Ok(AsBool(configuration.value[key]));
    }

    /** FetchFromSSM with the parameter store abstracted: the store's answer
        for the part of `ssmString` after its first '@'. */
    method FetchFromSsm(ssmString: string) returns (r: Option<string>)
      ensures r == host.fetch(Secrets.SsmLookupKey(ssmString))
    {
      var key := Secrets.SsmLookupKey(ssmString);
      r := host.fetch(key);
    }

    /** The string at the joined key, resolved through the secret cache; the
        default when the key is absent or the parameter store fails. */
    method StringOr(defaultVal: string, keys: seq<string>) returns (r: string)
      modifies this`configuration, this`ssmMap
      ensures configuration == Some(old(Loaded()))
      ensures Text.Join(keys, ".") !in old(Loaded()) ==> r == defaultVal && ssmMap == old(ssmMap)
      ensures Text.Join(keys, ".") in old(Loaded()) ==>
                var key := Text.Join(keys, ".");
                var res := Secrets.Resolve(old(ssmMap), key, AsString(old(Loaded())[key]), host.fetch);
                r == res.text.GetOr(defaultVal) && ssmMap == res.cache
    {
      var key := Text.Join(keys, ".");
      var present := Exists([key]);
      if !present {
        return defaultVal;
      }
      var val := AsString(configuration.value[key]);
      if val in ssmMap {
        return ssmMap[val];
      }
      if Secrets.SupportedProtocolPrefix <= val {
        var ssmVal := FetchFromSsm(val);
        if ssmVal.None? {
          return defaultVal;
        }
        ssmMap := ssmMap[val := ssmVal.value];
        return ssmMap[val];
      }
      ssmMap := ssmMap[key := val];
      return ssmMap[key];
    }

    /** The string at the joined key, resolved through the secret cache; the
        raw value when the parameter store fails; a panic when absent. */
    method String(keys: seq<string>) returns (r: Outcome<string>)
      modifies this`configuration, this`ssmMap
      ensures configuration == Some(old(Loaded()))
      ensures Text.Join(keys, ".") !in old(Loaded()) ==>
                r == Panic(MissingKeyMessage(Text.Join(keys, "."))) && ssmMap == old(ssmMap)
      ensures Text.Join(keys, ".") in old(Loaded()) ==>
                var key := Text.Join(keys, ".");
                var val := AsString(old(Loaded())[key]);
                var res := Secrets.Resolve(old(ssmMap), key, val, host.fetch);
                r == Ok(res.text.GetOr(val)) && ssmMap == res.cache
    {
      var key := Text.Join(keys, ".");
      var m := MustExist(key);
      if m.Panic? {
        return Panic(m.message);
      }
      var val := AsString(configuration.value[key]);
      if val in ssmMap {
        return Ok(ssmMap[val]);
      }
      if Secrets.SupportedProtocolPrefix <= val {
        var ssmVal := FetchFromSsm(val);
        if ssmVal.None? {
          return Ok(val);
        }
        ssmMap := ssmMap[val := ssmVal.value];
        return Ok(ssmMap[val]);
      }
      ssmMap := ssmMap[key := val];
      return Ok(ssmMap[key]);
    }

    /** The inner loop of Struct for field `i` of `dest`, of type `kind`:
        every spelling in `lookup` present under `container` is read and
        assigned; a present spelling for a field of another type stops the
        loop with ok = false, where Struct panics. */
    method ReadFieldInto(dest: array<FieldValue>, i: nat, kind: Kind, container: string, lookup: seq<string>)
      returns (ok: bool, found: bool)
      requires i < dest.Length
      modifies this`configuration, this`ssmMap, dest
      ensures configuration == if |lookup| == 0 then old(configuration) else Some(old(Loaded()))
      ensures var rf := ReadField(old(Loaded()), host.fetch, kind, Candidates(container, lookup), old(dest[i]), old(ssmMap), false);
              ok == rf.ok && found == rf.found && dest[i] == rf.value && ssmMap == rf.cache
      ensures forall k :: 0 <= k < dest.Length && k != i ==> dest[k] == old(dest[k])
    {
      ghost var cfg := Loaded();
      ghost var candidates := Candidates(container, lookup);
      ghost var field := ReadField(cfg, host.fetch, kind, candidates, dest[i], ssmMap, false);
      found := false;
      var j := 0;
      while j < |lookup|
        invariant 0 <= j <= |lookup|
        invariant Loaded() == cfg
        invariant configuration == if j == 0 then old(configuration) else Some(cfg)
        invariant forall k :: 0 <= k < dest.Length && k != i ==> dest[k] == old(dest[k])
        invariant field == ReadField(cfg, host.fetch, kind, candidates[j..], dest[i], ssmMap, found)
      {
        var amatch := lookup[j];
        assert Text.Join([container, amatch], ".") == candidates[j];
        assert candidates[j..][1..] == candidates[j + 1..];
        var present := Exists([container, amatch]);
        if present {
          found := true;
          match kind {
            case KString =>
              var s := String([container, amatch]);
              dest[i] := StrField(s.value);
            case KInt =>
              var n := Int([container, amatch]);
              dest[i] := IntField(n.value);
            case KOther =>
              return false, found;
          }
        }
        j := j + 1;
      }
      ok := true;
    }

    /** Struct: fill the fields of `dest` (declared by `fields`) from the keys
        under the container formed by joining `keys`. */
    method Struct(dest: array<FieldValue>, fields: seq<FieldDecl>, keys: seq<string>) returns (r: Outcome<()>)
      requires dest.Length == |fields|
      modifies this`configuration, this`ssmMap, dest
      ensures configuration == if |fields| == 0 then old(configuration) else Some(old(Loaded()))
      ensures var p := Populate(old(Loaded()), host.fetch, host.snake, Text.Join(keys, "."), fields, old(dest[..]), old(ssmMap), 0);
              r == p.outcome && dest[..] == p.values && ssmMap == p.cache
    {
      var container := Text.Join(keys, ".");
      ghost var cfg := Loaded();
      ghost var goal := Populate(cfg, host.fetch, host.snake, container, fields, dest[..], ssmMap, 0);
      var i := 0;
      while i < |fields|
        invariant 0 <= i <= |fields|
        invariant Loaded() == cfg
        invariant configuration == if i == 0 then old(configuration) else Some(cfg)
        invariant goal == Populate(cfg, host.fetch, host.snake, container, fields, dest[..], ssmMap, i)
      {
        var f := fields[i];
        var lookup := LookupVariants(f.name, host.snake);
        ghost var before := dest[..];
        ghost var cache := ssmMap;
        ghost var rf := ReadField(cfg, host.fetch, f.kind, Candidates(container, lookup), before[i], cache, false);
        PopulateStep(cfg, host.fetch, host.snake, container, fields, before, cache, i, rf);
        var ok, found := ReadFieldInto(dest, i, f.kind, container, lookup);
        assert dest[..] == before[i := rf.value];
        if !ok {
          return Panic(OtherKindMessage);
        }
        if !found && !Text.Contains(f.tag, "optional") {
          return Panic(NotFoundMessage(container, lookup));
        }
        i := i + 1;
      }
      r := Ok(());
    }
  }
}
