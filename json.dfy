/** The values json.loads produces, and the dict operations the ingestor applies
    to a decoded detection: d.get(k), k in d, d[k] and d[k] = v. */
module Json {
  import opened Wrappers

  /** A decoded JSON value. Integers and decimals stay apart as Python's int and
      float do; a float is modelled as an exact real. An object is a Python dict:
      its members in insertion order. The datatype allows a key to repeat; a dict
      built by json.loads never repeats one (DistinctKeys), and on such members
      Get reads exactly the stored value (GetDistinct). */
  datatype Json =
    | Null
    | Bool(b: bool)
    | Int(i: int)
    | Float(f: real)
    | Str(s: string)
    | Arr(elems: seq<Json>)
    | Obj(members: seq<(string, Json)>)

  /** What json.loads returns: a value, or a JSONDecodeError. */
  datatype Loaded = DecodeError | Decoded(value: Json)

  /** True iff key k is present in the members. */
  predicate Has(members: seq<(string, Json)>, k: string)
  {
    exists i :: 0 <= i < |members| && members[i].0 == k
  }

  /** d.get(k): the value stored under k, or None when k is absent. */
  function Get(members: seq<(string, Json)>, k: string): (r: Option<Json>)
    ensures r.None? <==> !Has(members, k)
    ensures r.Some? ==> exists i :: 0 <= i < |members| && members[i] == (k, r.value)
  {
    if |members| == 0 then None
    else if members[0].0 == k then Some(members[0].1)
    else Get(members[1..], k)
  }

  /** Looking k up in a dict whose first member is (k0, v0). */
  lemma GetCons(k0: string, v0: Json, rest: seq<(string, Json)>, k: string)
    ensures Get([(k0, v0)] + rest, k) == if k0 == k then Some(v0) else Get(rest, k)
  {
    assert ([(k0, v0)] + rest)[1..] == rest;
  }

  /** No key occurs twice among the members, as in a Python dict. */
  predicate DistinctKeys(members: seq<(string, Json)>)
  {
    forall i, j :: 0 <= i < j < |members| ==> members[i].0 != members[j].0
  }

  /** In a dict without repeated keys, d.get(k) of a member's key is that member's value. */
  lemma {:induction false} GetDistinct(members: seq<(string, Json)>, i: nat)
    requires DistinctKeys(members) && i < |members|
    ensures Get(members, members[i].0) == Some(members[i].1)
  {
    if i > 0 {
      assert members[0].0 != members[i].0;
      assert members[1..][i - 1] == members[i];
      assert DistinctKeys(members[1..]) by {
        forall a, c | 0 <= a < c < |members[1..]| ensures members[1..][a].0 != members[1..][c].0 {
          assert members[1..][a] == members[a + 1] && members[1..][c] == members[c + 1];
        }
      }
      GetDistinct(members[1..], i - 1);
    }
  }

  /** d[k] = v: the member k gets value v in place, or is appended when absent. */
  function Put(members: seq<(string, Json)>, k: string, v: Json): (r: seq<(string, Json)>)
  {
    if |members| == 0 then [(k, v)]
    else if members[0].0 == k then [(k, v)] + members[1..]
    else [members[0]] + Put(members[1..], k, v)
  }

  /** After d[k] = v, d.get(k) is v and every other key reads as before. */
  lemma {:induction false} GetPut(members: seq<(string, Json)>, k: string, v: Json, k': string)
    ensures Get(Put(members, k, v), k') == if k' == k then Some(v) else Get(members, k')
  {
    if |members| > 0 && members[0].0 != k {
      GetPut(members[1..], k, v, k');
      var r := Put(members, k, v);
      assert r[0] == members[0] && r[1..] == Put(members[1..], k, v);
    }
  }
}
