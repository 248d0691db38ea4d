/** The plain JavaScript object `{}` the rewriter collects a tag's attributes in,
    as its own string-valued properties in creation order, which is the order
    `Object.keys` lists them in when no key is an array index. */
module JsObject {
  import opened Results

  type Entries = seq<(string, string)>

  /** The one key an assignment on a plain object does not create: its setter,
      inherited from `Object.prototype`, ignores a value that is not an object. */
  const ProtoKey: string := "__proto__"

  /** `Object.keys(obj)` */
  function Keys(e: Entries): (r: seq<string>)
    ensures |r| == |e|
    ensures forall i :: 0 <= i < |e| ==> r[i] == e[i].0
  {
    if |e| == 0 then [] else [e[0].0] + Keys(e[1..])
  }

  predicate DistinctKeys(e: Entries) {
    forall i, j :: 0 <= i < j < |e| ==> e[i].0 != e[j].0
  }

  /** `obj[k]` on an own property: the first entry with that key. */
  function Lookup(e: Entries, k: string): (r: Option<string>)
    ensures r.None? <==> k !in Keys(e)
    ensures r.Some? ==> exists i :: 0 <= i < |e| && e[i] == (k, r.value)
  {
    if |e| == 0 then None
    else if e[0].0 == k then Some(e[0].1)
    else
      Lookup(e[1..], k)
  }

  /** Creates or overwrites the own property `k`: an existing entry keeps its
      place, a new one goes last. */
  function SetOwn(e: Entries, k: string, v: string): (r: Entries)
    ensures Lookup(r, k) == Some(v)
    ensures Keys(r) == if k in Keys(e) then Keys(e) else Keys(e) + [k]
  {
    if |e| == 0 then [(k, v)]
    else if e[0].0 == k then [(k, v)] + e[1..]
    else
      var rest := SetOwn(e[1..], k, v);
      SetOwnStep(e, k, v, rest);
      [e[0]] + rest
  }

  /** Setting `k` behind a first entry with another key. */
  lemma SetOwnStep(e: Entries, k: string, v: string, rest: Entries)
    requires |e| > 0 && e[0].0 != k
    requires Lookup(rest, k) == Some(v)
    requires Keys(rest) == if k in Keys(e[1..]) then Keys(e[1..]) else Keys(e[1..]) + [k]
    ensures Lookup([e[0]] + rest, k) == Some(v)
    ensures Keys([e[0]] + rest) == if k in Keys(e) then Keys(e) else Keys(e) + [k]
  {
    var r := [e[0]] + rest;
    assert r[1..] == rest;
    assert Keys(r) == [e[0].0] + Keys(rest);
    assert Keys(e) == [e[0].0] + Keys(e[1..]);
    assert k in Keys(e) <==> k in Keys(e[1..]);
    if k !in Keys(e[1..]) {
      assert [e[0].0] + (Keys(e[1..]) + [k]) == [e[0].0] + Keys(e[1..]) + [k];
    }
  }

  /** Setting `k` leaves every other property as it was. */
  lemma {:induction false} SetOwnKeepsOthers(e: Entries, k: string, v: string, k': string)
    requires k' != k
    ensures Lookup(SetOwn(e, k, v), k') == Lookup(e, k')
    decreases |e|
  {
    if |e| > 0 && e[0].0 != k {
      SetOwnKeepsOthers(e[1..], k, v, k');
      assert SetOwn(e, k, v)[1..] == SetOwn(e[1..], k, v);
    }
  }

  /** `obj[k] = v` for a string `v`. */
  function Assign(e: Entries, k: string, v: string): (r: Entries)
    ensures k == ProtoKey ==> r == e
    ensures k != ProtoKey ==> Lookup(r, k) == Some(v)
    ensures forall k' :: k' != k ==> Lookup(r, k') == Lookup(e, k')
    ensures Keys(r) == if k == ProtoKey || k in Keys(e) then Keys(e) else Keys(e) + [k]
  {
    if k == ProtoKey then e
    else
      forall k' | k' != k
        ensures Lookup(SetOwn(e, k, v), k') == Lookup(e, k')
      {
        SetOwnKeepsOthers(e, k, v, k');
      }
      SetOwn(e, k, v)
  }

  /** Keys stay distinct under assignment. */
  lemma AssignKeepsKeysDistinct(e: Entries, k: string, v: string)
    requires DistinctKeys(e)
    ensures DistinctKeys(Assign(e, k, v))
  {
    var r := Assign(e, k, v);
    var ks, ks' := Keys(e), Keys(r);
    forall i, j | 0 <= i < j < |r|
      ensures r[i].0 != r[j].0
    {
      assert ks'[i] == r[i].0 && ks'[j] == r[j].0;
      if k != ProtoKey && k !in ks {
        assert ks' == ks + [k];
        if j == |ks| {
          assert ks'[i] == ks[i];
        } else {
          assert ks'[i] == ks[i] && ks'[j] == ks[j];
        }
      } else {
        assert ks' == ks;
      }
    }
  }

  /** Every key and every value of the entries avoids the character `c`. */
  predicate Avoids(e: Entries, c: char) {
    forall i :: 0 <= i < |e| ==> c !in e[i].0 && c !in e[i].1
  }

  lemma {:induction false} SetOwnAvoids(e: Entries, k: string, v: string, c: char)
    requires Avoids(e, c) && c !in k && c !in v
    ensures Avoids(SetOwn(e, k, v), c)
    decreases |e|
  {
    if |e| > 0 && e[0].0 != k {
      SetOwnAvoids(e[1..], k, v, c);
    }
  }
}
