/**
 Python dictionaries from direction names to integers, as the interest scorer
 builds them: an insertion-ordered list of (key, value) entries. Iteration
 order matters downstream, because the stable sort breaks ties by it.
 */
module Pairs {

  type Entry = (string, int)

  /** The keys in insertion order. */
  function Keys(t: seq<Entry>): (ks: seq<string>)
    ensures |ks| == |t|
    ensures forall i :: 0 <= i < |t| ==> ks[i] == t[i].0
  {
    if |t| == 0 then [] else [t[0].0] + Keys(t[1..])
  }

  /** No key appears twice, as in a real dictionary. */
  predicate Distinct(t: seq<Entry>)
  {
    forall i, j :: 0 <= i < j < |t| ==> t[i].0 != t[j].0
  }

  /** `d.get(k, 0)`. */
  function Get(t: seq<Entry>, k: string): int
  {
    if |t| == 0 then 0 else if t[0].0 == k then t[0].1 else Get(t[1..], k)
  }

  /** The sum of every value stored under `k`; for a dictionary this is its one value, or 0. */
  function Total(t: seq<Entry>, k: string): int
  {
    if |t| == 0 then 0 else (if t[0].0 == k then t[0].1 else 0) + Total(t[1..], k)
  }

  lemma {:induction false} TotalAppend(a: seq<Entry>, b: seq<Entry>, k: string)
    ensures Total(a + b, k) == Total(a, k) + Total(b, k)
  {
    if |a| == 0 {
      assert a + b == b;
    } else {
      assert (a + b)[1..] == a[1..] + b;
      TotalAppend(a[1..], b, k);
    }
  }

  lemma {:induction false} AbsentKey(t: seq<Entry>, k: string)
    requires k !in Keys(t)
    ensures Get(t, k) == 0 && Total(t, k) == 0
  {
    if |t| > 0 {
      assert Keys(t)[1..] == Keys(t[1..]);
      AbsentKey(t[1..], k);
    }
  }

  /** In a dictionary, reading a key and summing the entries under it agree. */
  lemma {:induction false} GetIsTotal(t: seq<Entry>, k: string)
    requires Distinct(t)
    ensures Get(t, k) == Total(t, k)
  {
    if |t| > 0 {
      if t[0].0 == k {
        assert k !in Keys(t[1..]);
        AbsentKey(t[1..], k);
      } else {
        GetIsTotal(t[1..], k);
      }
    }
  }

  /** `d[k] = d.get(k, 0) + w`: updates the entry in place, or appends a new one at the end. */
  function Add(t: seq<Entry>, k: string, w: int): (r: seq<Entry>)
    ensures Get(r, k) == Get(t, k) + w
    ensures forall k' :: k' != k ==> Get(r, k') == Get(t, k')
    ensures k in Keys(t) ==> Keys(r) == Keys(t)
    ensures k !in Keys(t) ==> Keys(r) == Keys(t) + [k]
  {
    if |t| == 0 then [(k, w)]
    else if t[0].0 == k then [(k, t[0].1 + w)] + t[1..]
    else
      var r := [t[0]] + Add(t[1..], k, w);
      assert Keys(t)[1..] == Keys(t[1..]);
      assert r[1..] == Add(t[1..], k, w);
      assert Keys(r)[1..] == Keys(r[1..]);
      r
  }

  /** An update keeps a dictionary a dictionary: its keys are the old ones, plus `k` at the end if it was new. */
  lemma {:induction false} AddDistinct(t: seq<Entry>, k: string, w: int)
    requires Distinct(t)
    ensures Distinct(Add(t, k, w))
  {
    var r := Add(t, k, w);
    var kt, kr := Keys(t), Keys(r);
    forall i, j | 0 <= i < j < |r|
      ensures r[i].0 != r[j].0
    {
      assert kr[i] == r[i].0 && kr[j] == r[j].0;
      if k !in kt && j == |t| {
        assert kr[i] == kt[i] && kt[i] == t[i].0;
      } else {
        assert kr[i] == kt[i] && kr[j] == kt[j];
      }
    }
  }

  /** `for k, w in entries: d[k] = d.get(k, 0) + w`. */
  function AddAll(t: seq<Entry>, entries: seq<Entry>): seq<Entry>
    decreases |entries|
  {
    if |entries| == 0 then t else AddAll(Add(t, entries[0].0, entries[0].1), entries[1..])
  }

  /** The keys of `xs` not in `seen`, in order of first appearance. */
  function NewKeys(seen: seq<string>, xs: seq<string>): seq<string>
    decreases |xs|
  {
    if |xs| == 0 then []
    else if xs[0] in seen then NewKeys(seen, xs[1..])
    else [xs[0]] + NewKeys(seen + [xs[0]], xs[1..])
  }

  /** Accumulation keeps a dictionary a dictionary. */
  lemma {:induction false} AddAllDistinct(t: seq<Entry>, entries: seq<Entry>)
    requires Distinct(t)
    ensures Distinct(AddAll(t, entries))
    decreases |entries|
  {
    if |entries| > 0 {
      AddDistinct(t, entries[0].0, entries[0].1);
      AddAllDistinct(Add(t, entries[0].0, entries[0].1), entries[1..]);
    }
  }

  /** Each key ends up holding its old value plus every weight added under it. */
  lemma {:induction false} AddAllGet(t: seq<Entry>, entries: seq<Entry>, k: string)
    ensures Get(AddAll(t, entries), k) == Get(t, k) + Total(entries, k)
    decreases |entries|
  {
    if |entries| > 0 {
      AddAllGet(Add(t, entries[0].0, entries[0].1), entries[1..], k);
    }
  }

  /** Existing keys keep their places; new keys follow in order of first appearance. */
  lemma {:induction false} AddAllKeys(t: seq<Entry>, entries: seq<Entry>)
    ensures Keys(AddAll(t, entries)) == Keys(t) + NewKeys(Keys(t), Keys(entries))
    decreases |entries|
  {
    if |entries| > 0 {
      var k := entries[0].0;
      var rest := entries[1..];
      var t' := Add(t, k, entries[0].1);
      AddAllKeys(t', rest);
      assert Keys(entries) == [k] + Keys(rest);
      NewKeysStep(Keys(t), k, Keys(rest));
    } else {
      assert Keys(t) + [] == Keys(t);
    }
  }

  /** One step of NewKeys, seen from the accumulated prefix. */
  lemma {:induction false} NewKeysStep(seen: seq<string>, k: string, xs: seq<string>)
    ensures k in seen ==> seen + NewKeys(seen, [k] + xs) == seen + NewKeys(seen, xs)
    ensures k !in seen ==> seen + NewKeys(seen, [k] + xs) == (seen + [k]) + NewKeys(seen + [k], xs)
  {
    assert ([k] + xs)[1..] == xs;
  }

  lemma {:induction false} NewKeysMembership(seen: seq<string>, xs: seq<string>, k: string)
    ensures k in NewKeys(seen, xs) <==> k in xs && k !in seen
    decreases |xs|
  {
    if |xs| > 0 {
      if xs[0] in seen {
        NewKeysMembership(seen, xs[1..], k);
      } else {
        NewKeysMembership(seen + [xs[0]], xs[1..], k);
      }
    }
  }

  /** The keys after accumulation are the old keys together with every key added. */
  lemma {:induction false} AddAllKeySet(t: seq<Entry>, entries: seq<Entry>, k: string)
    ensures k in Keys(AddAll(t, entries)) <==> k in Keys(t) || k in Keys(entries)
  {
    AddAllKeys(t, entries);
    NewKeysMembership(Keys(t), Keys(entries), k);
  }
}
