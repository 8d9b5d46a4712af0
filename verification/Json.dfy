/**
 JSON values as `serde_json` keeps them with insertion-ordered maps: an object is
 the sequence of its fields, in the order in which they were inserted.

 The number type is a parameter: graph evaluation computes with reals, while the
 canonical printer only needs to know how a number is written.
 */
module Json {
  import opened Wrappers

  datatype Json<+N> =
    | Null
    | Bool(b: bool)
    | Number(n: N)
    | String(s: string)
    | Array(items: seq<Json<N>>)
    | Object(fields: seq<Field<N>>)

  datatype Field<+N> = Field(key: string, value: Json<N>)

  function Keys<N>(fields: seq<Field<N>>): seq<string> {
    seq(|fields|, i requires 0 <= i < |fields| => fields[i].key)
  }

  predicate Distinct<T(==)>(s: seq<T>) {
    forall i, j :: 0 <= i < j < |s| ==> s[i] != s[j]
  }

  /** Map lookup: the value stored under `key`, if any. */
  function Get<N>(fields: seq<Field<N>>, key: string): (r: Option<Json<N>>)
    ensures r.Some? <==> key in Keys(fields)
    ensures r.Some? ==> exists i :: 0 <= i < |fields| && fields[i] == Field(key, r.value)
  {
    if fields == [] then None
    else if fields[0].key == key then
      assert Keys(fields)[0] == key;
      assert fields[0] == Field(key, fields[0].value);
      Some(fields[0].value)
    else
      assert Keys(fields) == [fields[0].key] + Keys(fields[1..]);
      var r := Get(fields[1..], key);
      assert forall i :: 0 <= i < |fields[1..]| ==> fields[1..][i] == fields[i + 1];
      r
  }
}
