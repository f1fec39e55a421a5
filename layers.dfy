/** The layer merger: the candidate file order computed at start-up from the
    FG_CONFIG_ENV selector, the walk that keeps the candidates that read
    successfully, and the merge of those files into one namespace. */
module Layers {
  import opened Wrappers

  /** A configuration value as stored in the merged namespace. */
  datatype Value = VString(s: string) | VInt(i: int) | VBool(b: bool) | VOther

  type Namespace = map<string, Value>

  /** The typed reads of the namespace (GetInt, GetString, GetBool): the value
      of the requested kind, otherwise the kind's zero value. */
  function AsInt(v: Value): (r: int)
    ensures v.VInt? ==> r == v.i
    ensures !v.VInt? ==> r == 0
  {
    if v.VInt? then v.i else 0
  }

  function AsString(v: Value): (r: string)
    ensures v.VString? ==> r == v.s
    ensures !v.VString? ==> r == ""
  {
    if v.VString? then v.s else ""
  }

  function AsBool(v: Value): (r: bool)
    ensures v.VBool? ==> r == v.b
    ensures !v.VBool? ==> !r
  {
    v.VBool? && v.b
  }

  /** The four environment-specific candidates for environment `env`. */
  function EnvPaths(env: string): seq<string>
  {
    ["./config/" + env + ".yaml", "./config/" + env + ".json", env + ".yaml", env + ".json"]
  }

  const DevPaths: seq<string> := ["./config/dev.yaml", "./config/dev.json", "dev.yaml", "dev.json"]
  const ConfigPaths: seq<string> := ["./config/config.yaml", "./config/config.json", "config.yaml", "config.json"]

  /** The start-up computation of FileOrder from the value of FG_CONFIG_ENV
      (highest precedence first). */
  method InitialFileOrder(env: string) returns (files: seq<string>)
    ensures |files| == 8
    ensures files[4..] == ConfigPaths
    ensures files[..4] == if env == "" || env == "dev" then DevPaths else EnvPaths(env)
  {
    files := [];
    if env != "" && env != "dev" {
      files := files + EnvPaths(env);
    } else {
      files := files + DevPaths;
    }
    files := files + ConfigPaths;
  }

  /** The candidates of `order` that read successfully, lowest precedence
      first: the list jumpstart collects, walking `order` from its end. */
  function Found(order: seq<string>, parses: string -> bool): (r: seq<string>)
    ensures |r| <= |order|
    ensures forall i :: 0 <= i < |r| ==> r[i] in order && parses(r[i])
  {
    if order == [] then []
    else Found(order[1..], parses) + (if parses(order[0]) then [order[0]] else [])
  }

  /** Reference definitions: the readable candidates in precedence order, and
      sequence reversal. */
  function Readable(order: seq<string>, parses: string -> bool): seq<string>
  {
    if order == [] then []
    else (if parses(order[0]) then [order[0]] else []) + Readable(order[1..], parses)
  }

  function Reverse<T>(s: seq<T>): seq<T>
  {
    if s == [] then [] else Reverse(s[1..]) + [s[0]]
  }

  /** jumpstart's loop: walk `order` from its last entry to its first and keep
      the entries that read successfully. */
  method FoundFiles(order: seq<string>, parses: string -> bool) returns (filesOk: seq<string>)
    ensures filesOk == Found(order, parses)
  {
    filesOk := [];
    var i := |order| - 1;
    while i >= 0
      invariant -1 <= i < |order|
      invariant filesOk == Found(order[i + 1..], parses)
    {
      assert order[i..][1..] == order[i + 1..];
      if parses(order[i]) {
        filesOk := filesOk + [order[i]];
      }
      i := i - 1;
    }
    assert order[0..] == order;
  }

  /** The found list is the readable candidates in reverse precedence order. */
  lemma {:induction false} FoundIsReversedReadable(order: seq<string>, parses: string -> bool)
    ensures Found(order, parses) == Reverse(Readable(order, parses))
  {
    if order != [] {
      FoundIsReversedReadable(order[1..], parses);
      var head := if parses(order[0]) then [order[0]] else [];
      var t := head + Readable(order[1..], parses);
      if parses(order[0]) {
        assert t[1..] == Readable(order[1..], parses);
      } else {
        assert t == Readable(order[1..], parses);
      }
    }
  }

  /** A candidate is found exactly when it is in the order and reads
      successfully: a failing candidate is skipped, never an error. */
  lemma {:induction false} FoundMembers(order: seq<string>, parses: string -> bool, path: string)
    ensures path in Found(order, parses) <==> path in order && parses(path)
  {
    if order != [] {
      FoundMembers(order[1..], parses, path);
      assert order == [order[0]] + order[1..];
    }
  }

  /** The merge of the found files (confer's ReadPaths), assumed to be a left
      fold of overrides: a file later in `files` overrides earlier ones. */
  function Merged(files: seq<string>, overlay: string -> Namespace): (r: Namespace)
    ensures forall f :: f in files ==> overlay(f).Keys <= r.Keys
    ensures |files| > 0 ==> forall k :: k in overlay(files[|files| - 1]) ==> k in r && r[k] == overlay(files[|files| - 1])[k]
  {
    if files == [] then map[]
    else Merged(files[..|files| - 1], overlay) + overlay(files[|files| - 1])
  }

  /** The namespace jumpstart builds from a candidate order. */
  function Build(order: seq<string>, parses: string -> bool, overlay: string -> Namespace): (r: Namespace)
    ensures forall i :: 0 <= i < |order| && parses(order[i]) ==> overlay(order[i]).Keys <= r.Keys
  {
    FoundReadable(order, parses);
    Merged(Found(order, parses), overlay)
  }

  /** Every candidate that reads is in the found list. */
  lemma FoundReadable(order: seq<string>, parses: string -> bool)
    ensures forall i :: 0 <= i < |order| && parses(order[i]) ==> order[i] in Found(order, parses)
  {
    forall i | 0 <= i < |order| && parses(order[i]) ensures order[i] in Found(order, parses) {
      FoundMembers(order, parses, order[i]);
    }
  }

  /** Reference definition of precedence: the value of `key` in the first
      candidate of `order` that reads successfully and defines it. */
  function FirstDefining(order: seq<string>, parses: string -> bool, overlay: string -> Namespace, key: string): Option<Value>
  {
    if order == [] then None
    else if parses(order[0]) && key in overlay(order[0]) then Some(overlay(order[0])[key])
    else FirstDefining(order[1..], parses, overlay, key)
  }

  /** Under the override-fold assumption the built namespace holds `key`
      exactly when some readable candidate defines it, and then holds the
      value of the first (highest-precedence) such candidate. */
  lemma {:induction false} FirstDefiningWins(order: seq<string>, parses: string -> bool, overlay: string -> Namespace, key: string)
    ensures key in Build(order, parses, overlay) <==> FirstDefining(order, parses, overlay, key).Some?
    ensures key in Build(order, parses, overlay) ==>
              Build(order, parses, overlay)[key] == FirstDefining(order, parses, overlay, key).value
  {
    if order != [] {
      FirstDefiningWins(order[1..], parses, overlay, key);
      var rest := Found(order[1..], parses);
      if parses(order[0]) {
        var files := rest + [order[0]];
        assert files[..|files| - 1] == rest;
        assert Build(order, parses, overlay) == Build(order[1..], parses, overlay) + overlay(order[0]);
      } else {
        assert Found(order, parses) == rest;
      }
    }
  }
}
