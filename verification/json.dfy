/**
 * The parsed input document: the values `json.load` produces. An object
 * keeps its members in document order, duplicate keys included; looking a
 * key up and iterating over the keys then behave like the Python `dict`
 * the decoder builds from those members.
 */
module Json {
  import opened Wrappers

  datatype Json =
    | JNull
    | JBool(b: bool)
    | JInt(i: int)
    | JFloat(f: real)
    | JString(s: string)
    | JArray(items: seq<Json>)
    | JObject(members: seq<(string, Json)>)

  /** `d.get(key)`: the value of the LAST member named `key`, since a later duplicate replaces an earlier one. */
  function Lookup(members: seq<(string, Json)>, key: string): (r: Option<Json>)
    ensures r.None? <==> forall i :: 0 <= i < |members| ==> members[i].0 != key
    ensures r.Some? ==>
      exists i :: 0 <= i < |members| && members[i] == (key, r.value) &&
                  (forall j :: i < j < |members| ==> members[j].0 != key)
    decreases |members|
  {
    if members == [] then None
    else if members[|members| - 1].0 == key then Some(members[|members| - 1].1)
    else Lookup(members[..|members| - 1], key)
  }

  /** `dict.get(key, default)`: the value `Lookup` finds, or `default` when the key is absent. */
  function Get(members: seq<(string, Json)>, key: string, default: Json): (r: Json)
    ensures Lookup(members, key).Some? ==> r == Lookup(members, key).value
    ensures (forall i :: 0 <= i < |members| ==> members[i].0 != key) ==> r == default
  {
    match Lookup(members, key)
    case Some(v) => v
    case None => default
  }

  /** The dict's keys as iteration yields them: each distinct key once, in order of first appearance. */
  function Keys(members: seq<(string, Json)>): (ks: seq<string>)
    ensures forall k :: k in ks <==> exists i :: 0 <= i < |members| && members[i].0 == k
    ensures forall a, b :: 0 <= a < b < |ks| ==> ks[a] != ks[b]
    decreases |members|
  {
    if members == [] then []
    else
      var init := members[..|members| - 1];
      var k := members[|members| - 1].0;
      var ks := Keys(init);
      assert forall i :: 0 <= i < |init| ==> init[i] == members[i];
      if k in ks then ks else ks + [k]
  }
}
