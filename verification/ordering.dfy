/**
 `order_scores`: the (direction, score) entries sorted by score, highest
 first, by a stable sort, so entries with equal scores keep their input order.
 */
module Ordering {
  import Pairs

  /** Non-increasing by score. */
  predicate SortedDesc(s: seq<Pairs.Entry>)
  {
    forall i, j :: 0 <= i < j < |s| ==> s[i].1 >= s[j].1
  }

  /** The entries of `s` that carry score `v`, in their order in `s`. */
  function WithScore(s: seq<Pairs.Entry>, v: int): (r: seq<Pairs.Entry>)
    ensures |r| <= |s|
  {
    if |s| == 0 then []
    else if s[0].1 == v then [s[0]] + WithScore(s[1..], v)
    else WithScore(s[1..], v)
  }

  /** Puts `e` into `s` after every strictly higher score and before every equal or lower one. */
  function Insert(e: Pairs.Entry, s: seq<Pairs.Entry>): (r: seq<Pairs.Entry>)
    ensures |r| == |s| + 1
  {
    if |s| == 0 || s[0].1 <= e.1 then [e] + s else [s[0]] + Insert(e, s[1..])
  }

  lemma {:induction false} InsertMultiset(e: Pairs.Entry, s: seq<Pairs.Entry>)
    ensures multiset(Insert(e, s)) == multiset(s) + multiset{e}
  {
    if |s| > 0 && s[0].1 > e.1 {
      InsertMultiset(e, s[1..]);
      assert s == [s[0]] + s[1..];
    }
  }

  lemma {:induction false} InsertSorted(e: Pairs.Entry, s: seq<Pairs.Entry>)
    requires SortedDesc(s)
    ensures SortedDesc(Insert(e, s))
  {
    if |s| > 0 && s[0].1 > e.1 {
      var rest := Insert(e, s[1..]);
      InsertSorted(e, s[1..]);
      InsertMultiset(e, s[1..]);
      forall k | 0 <= k < |rest|
        ensures rest[k].1 <= s[0].1
      {
        assert rest[k] in multiset(rest);
        if rest[k] != e {
          assert rest[k] in multiset(s[1..]);
          var m :| 0 <= m < |s[1..]| && s[1..][m] == rest[k];
        }
      }
      var r := Insert(e, s);
      assert r == [s[0]] + rest;
    }
  }

  /** `e` joins its own score class at the front; every other class is untouched. */
  lemma {:induction false} InsertClasses(e: Pairs.Entry, s: seq<Pairs.Entry>, v: int)
    requires SortedDesc(s)
    ensures WithScore(Insert(e, s), v) == if v == e.1 then [e] + WithScore(s, v) else WithScore(s, v)
  {
    if |s| == 0 || s[0].1 <= e.1 {
      InsertFrontFilter(e, s);
    } else {
      var rest := Insert(e, s[1..]);
      InsertClasses(e, s[1..], v);
      var r := [s[0]] + rest;
      assert r[1..] == rest;
      if v == e.1 {
        assert s[0].1 != v;
      }
    }
  }

  /** Placing `e` in front of entries scoring no more than it: only `e` joins its own score class. */
  lemma {:induction false} InsertFrontFilter(e: Pairs.Entry, s: seq<Pairs.Entry>)
    ensures forall v :: WithScore([e] + s, v) == if v == e.1 then [e] + WithScore(s, v) else WithScore(s, v)
  {
    assert ([e] + s)[1..] == s;
  }

  /** `order_scores`: sorts by score, highest first, inserting from the back. */
  function OrderScores(s: seq<Pairs.Entry>): (r: seq<Pairs.Entry>)
    ensures |r| == |s|
  {
    if |s| == 0 then [] else Insert(s[0], OrderScores(s[1..]))
  }

  /**
   OrderScores is a stable descending sort: its result is sorted by score,
   highest first, is a permutation of the input, and lists the entries of each
   score in their input order.
   */
  lemma {:induction false} OrderScoresSpec(s: seq<Pairs.Entry>)
    ensures SortedDesc(OrderScores(s))
    ensures multiset(OrderScores(s)) == multiset(s)
    ensures forall v :: WithScore(OrderScores(s), v) == WithScore(s, v)
  {
    if |s| > 0 {
      var rest := OrderScores(s[1..]);
      OrderScoresSpec(s[1..]);
      assert s == [s[0]] + s[1..];
      InsertSorted(s[0], rest);
      InsertMultiset(s[0], rest);
      forall v
        ensures WithScore(OrderScores(s), v) == WithScore(s, v)
      {
        InsertClasses(s[0], rest, v);
        InsertFrontFilter(s[0], s[1..]);
      }
    }
  }

  /**
   The three properties pin the result down: any sorted list whose per-score
   classes agree with the input's is the one OrderScores returns.
   */
  lemma {:induction false} StableSortUnique(t: seq<Pairs.Entry>, u: seq<Pairs.Entry>)
    requires SortedDesc(t) && SortedDesc(u)
    requires forall v :: WithScore(t, v) == WithScore(u, v)
    ensures t == u
    decreases |t|
  {
    if |t| == 0 || |u| == 0 {
      // An entry on one side would have to show up in its score class on the other.
      if |u| > 0 {
        WithScoreMember(u, 0);
      }
      if |t| > 0 {
        WithScoreMember(t, 0);
      }
    } else {
      // The two heads carry the same, maximal, score.
      assert t[0].1 == u[0].1 by {
        WithScoreMember(u, 0);
        assert u[0] in WithScore(t, u[0].1);
        WithScoreMemberBack(t, u[0].1, u[0]);
        WithScoreMember(t, 0);
        assert t[0] in WithScore(u, t[0].1);
        WithScoreMemberBack(u, t[0].1, t[0]);
      }
      var m := t[0].1;
      assert WithScore(t, m) == WithScore(u, m);
      assert WithScore(t, m) == [t[0]] + WithScore(t[1..], m);
      assert WithScore(u, m) == [u[0]] + WithScore(u[1..], m);
      assert t[0] == WithScore(t, m)[0];
      assert u[0] == WithScore(u, m)[0];
      forall v
        ensures WithScore(t[1..], v) == WithScore(u[1..], v)
      {
        assert WithScore(t, v) == WithScore(u, v);
        if v != m {
          assert WithScore(t, v) == WithScore(t[1..], v);
          assert WithScore(u, v) == WithScore(u[1..], v);
        } else {
          assert WithScore(t[1..], m) == WithScore(t, m)[1..];
          assert WithScore(u[1..], m) == WithScore(u, m)[1..];
        }
      }
      StableSortUnique(t[1..], u[1..]);
      assert t == [t[0]] + t[1..];
      assert u == [u[0]] + u[1..];
    }
  }

  lemma {:induction false} WithScoreMember(s: seq<Pairs.Entry>, i: int)
    requires 0 <= i < |s|
    ensures s[i] in WithScore(s, s[i].1)
    decreases |s|
  {
    if i > 0 {
      WithScoreMember(s[1..], i - 1);
    }
  }

  /** Anything in a score class of a sorted list scores no more than its head. */
  lemma {:induction false} WithScoreMemberBack(s: seq<Pairs.Entry>, v: int, e: Pairs.Entry)
    requires SortedDesc(s)
    requires e in WithScore(s, v)
    ensures e in s && e.1 == v && |s| > 0 && s[0].1 >= v
    decreases |s|
  {
    if s[0].1 != v || e != s[0] {
      assert e in WithScore(s[1..], v);
      WithScoreMemberBack(s[1..], v, e);
      assert s[1..][0] == s[1];
    }
  }

  /** Hence OrderScores is THE stable descending sort. */
  lemma {:induction false} OrderScoresCharacterized(s: seq<Pairs.Entry>, t: seq<Pairs.Entry>)
    requires SortedDesc(t)
    requires forall v :: WithScore(t, v) == WithScore(s, v)
    ensures t == OrderScores(s)
  {
    OrderScoresSpec(s);
    StableSortUnique(t, OrderScores(s));
  }

  /** The first entry has a maximal score. */
  lemma {:induction false} OrderScoresHeadIsMax(s: seq<Pairs.Entry>, i: int)
    requires 0 <= i < |s|
    ensures |OrderScores(s)| > 0 && OrderScores(s)[0].1 >= s[i].1
  {
    var r := OrderScores(s);
    OrderScoresSpec(s);
    assert s[i] in multiset(r);
    var j :| 0 <= j < |r| && r[j] == s[i];
  }

  /** The example from the test suite: A:1, B:3, C:2 orders as B, C, A. */
  lemma {:induction false} OrderExample()
    ensures OrderScores([("A", 1), ("B", 3), ("C", 2)]) == [("B", 3), ("C", 2), ("A", 1)]
  {
    var s := [("A", 1), ("B", 3), ("C", 2)];
    assert s[1..][1..] == [("C", 2)];
    assert OrderScores([("C", 2)]) == [("C", 2)];
    assert OrderScores(s[1..]) == [("B", 3), ("C", 2)];
    assert Insert(("A", 1), [("B", 3), ("C", 2)]) == [("B", 3), ("C", 2), ("A", 1)];
  }
}
