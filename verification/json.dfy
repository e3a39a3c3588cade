/** The JSON trees the extractors build (Gson's `JsonElement`): objects keep
    their members in insertion order. */
module Json {
  import opened Options

  /** A JSON number as Gson keeps it: an integral value, or a floating-point
      value (rounding is not modelled; values are passed through unchanged). */
  datatype Num = IntNum(i: int) | FloatNum(f: real)

  datatype Json =
    | JNull
    | JBool(b: bool)
    | JNumber(n: Num)
    | JString(s: string)
    | JArray(items: seq<Json>)
    | JObject(members: seq<Member>)

  datatype Member = Member(key: string, value: Json)

  /** The keys of an object, in insertion order. */
  function Keys(ms: seq<Member>): (ks: seq<string>)
    ensures |ks| == |ms|
    ensures forall i :: 0 <= i < |ms| ==> ks[i] == ms[i].key
  {
    seq(|ms|, i requires 0 <= i < |ms| => ms[i].key)
  }

  /** `obj.get(key)`: the value stored under `key`, if any. */
  function Get(ms: seq<Member>, key: string): (r: Option<Json>)
    ensures r.Some? <==> key in Keys(ms)
    ensures r.Some? ==> exists i :: 0 <= i < |ms| && ms[i] == Member(key, r.value)
  {
    if ms == [] then None
    else if ms[0].key == key then Some(ms[0].value)
    else
      assert forall k :: k in Keys(ms) <==> k == ms[0].key || k in Keys(ms[1..]);
      var r := Get(ms[1..], key);
      assert r.Some? ==> exists i :: 0 <= i < |ms| && ms[i] == Member(key, r.value) by {
        if r.Some? {
          var i :| 0 <= i < |ms| - 1 && ms[1..][i] == Member(key, r.value);
          assert ms[i + 1] == Member(key, r.value);
        }
      }
      r
  }

  predicate DistinctKeys(ms: seq<Member>)
  {
    forall i, j :: 0 <= i < j < |ms| ==> ms[i].key != ms[j].key
  }

  /** Every object in the tree has pairwise distinct keys, as Gson's
      `JsonObject` (a map) guarantees. */
  predicate WellFormed(j: Json)
  {
    match j
    case JArray(items) => forall i :: 0 <= i < |items| ==> WellFormed(items[i])
    case JObject(ms) => DistinctKeys(ms) && forall i :: 0 <= i < |ms| ==> WellFormed(ms[i].value)
    case _ => true
  }
}
