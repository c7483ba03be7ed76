// A parsed `serde_json::Value`. Parsing itself is not modelled: scanners
// receive the value that `serde_json::from_str` produced, or `None`. An object
// keeps its members in the order in which the map iterates them.
module Json {
  import opened Options

  datatype Value =
    | Null
    | Bool(b: bool)
    | Number(n: int)
    | Str(s: string)
    | Array(items: seq<Value>)
    | Object(members: seq<(string, Value)>)

  /** `Map::get`: the value stored under `key`. */
  function Lookup(members: seq<(string, Value)>, key: string): (r: Option<Value>)
    ensures r.Some? <==> exists i :: 0 <= i < |members| && members[i].0 == key
    ensures r.Some? ==> exists i :: 0 <= i < |members| && members[i] == (key, r.value)
  {
    if members == [] then None
    else if members[0].0 == key then Some(members[0].1)
    else
      var r := Lookup(members[1..], key);
      assert forall i :: 1 <= i < |members| ==> members[i] == members[1..][i - 1];
      r
  }

  /** A lookup looks at the first member, then at the rest. */
  lemma LookupStep(k: string, v: Value, rest: seq<(string, Value)>, key: string)
    ensures Lookup([(k, v)] + rest, key) == if k == key then Some(v) else Lookup(rest, key)
  {
    assert ([(k, v)] + rest)[1..] == rest;
  }

  /** `Value::get(key)`: `None` unless the value is an object holding `key`. */
  function Get(v: Value, key: string): Option<Value>
  {
    if v.Object? then Lookup(v.members, key) else None
  }

  /** `Value::as_str`. */
  function AsStr(v: Value): Option<string>
  {
    if v.Str? then Some(v.s) else None
  }

  /** `Value::as_bool`. */
  function AsBool(v: Value): Option<bool>
  {
    if v.Bool? then Some(v.b) else None
  }

  /** `obj.get(key).and_then(as_str)`. */
  function GetStr(members: seq<(string, Value)>, key: string): Option<string>
  {
    match Lookup(members, key)
    case None => None
    case Some(v) => AsStr(v)
  }
}
