/** Ranking of `(score, move)` pairs: a stable sort by score, descending
    when `desc` and ascending otherwise; pairs with equal scores keep their
    original order in both directions. */
module Ordering {

  /** A score `x` may stand before a score `y` in the requested order. */
  predicate AtLeast(desc: bool, x: real, y: real)
  {
    if desc then x >= y else x <= y
  }

  ghost predicate Sorted<M>(s: seq<(real, M)>, desc: bool)
  {
    forall i, j :: 0 <= i < j < |s| ==> AtLeast(desc, s[i].0, s[j].0)
  }

  /** The pairs of `s` whose score is `x`, in their order in `s`. */
  function WithScore<M>(s: seq<(real, M)>, x: real): seq<(real, M)>
  {
    if s == [] then []
    else (if s[0].0 == x then [s[0]] else []) + WithScore(s[1..], x)
  }

  /** Places `e` in front of the first pair of `r` it may precede, that is,
      after every pair whose score is strictly better. */
  function Insert<M>(e: (real, M), r: seq<(real, M)>, desc: bool): seq<(real, M)>
  {
    if r == [] then [e]
    else if AtLeast(desc, e.0, r[0].0) then [e] + r
    else [r[0]] + Insert(e, r[1..], desc)
  }

  /** The stable sort by score. */
  function SortByScore<M>(s: seq<(real, M)>, desc: bool): seq<(real, M)>
  {
    if s == [] then [] else Insert(s[0], SortByScore(s[1..], desc), desc)
  }

  lemma {:induction false} InsertPermutes<M>(e: (real, M), r: seq<(real, M)>, desc: bool)
    ensures multiset(Insert(e, r, desc)) == multiset(r) + multiset{e}
  {
    if r != [] && !AtLeast(desc, e.0, r[0].0) {
      InsertPermutes(e, r[1..], desc);
      assert r == [r[0]] + r[1..];
    }
  }

  lemma {:induction false} InsertSorted<M>(e: (real, M), r: seq<(real, M)>, desc: bool)
    requires Sorted(r, desc)
    ensures Sorted(Insert(e, r, desc), desc)
  {
    if r == [] {
    } else if AtLeast(desc, e.0, r[0].0) {
      var t := Insert(e, r, desc);
      forall i, j | 0 <= i < j < |t| ensures AtLeast(desc, t[i].0, t[j].0) {
        if i > 0 {
          assert t[i] == r[i - 1] && t[j] == r[j - 1];
        } else if j > 1 {
          assert AtLeast(desc, r[0].0, r[j - 1].0);
        }
      }
    } else {
      var rest := Insert(e, r[1..], desc);
      assert Sorted(r[1..], desc) by {
        forall i, j | 0 <= i < j < |r[1..]| ensures AtLeast(desc, r[1..][i].0, r[1..][j].0) {
          assert r[1..][i] == r[i + 1] && r[1..][j] == r[j + 1];
        }
      }
      InsertSorted(e, r[1..], desc);
      InsertPermutes(e, r[1..], desc);
      var t := [r[0]] + rest;
      forall j | 0 <= j < |rest| ensures AtLeast(desc, r[0].0, rest[j].0) {
        assert rest[j] in multiset(r[1..]) + multiset{e};
        if rest[j] == e {
        } else {
          assert rest[j] in r[1..];
          var k :| 0 <= k < |r[1..]| && r[1..][k] == rest[j];
          assert r[k + 1] == rest[j];
        }
      }
      forall i, j | 0 <= i < j < |t| ensures AtLeast(desc, t[i].0, t[j].0) {
        if i > 0 {
          assert t[i] == rest[i - 1] && t[j] == rest[j - 1];
        } else {
          assert t[j] == rest[j - 1];
        }
      }
    }
  }

  lemma WithScoreCons<M>(a: (real, M), t: seq<(real, M)>, x: real)
    ensures WithScore([a] + t, x) == (if a.0 == x then [a] else []) + WithScore(t, x)
  {
    assert ([a] + t)[0] == a && ([a] + t)[1..] == t;
  }

  lemma {:induction false} InsertKeepsTies<M>(e: (real, M), r: seq<(real, M)>, desc: bool, x: real)
    ensures WithScore(Insert(e, r, desc), x) == (if e.0 == x then [e] else []) + WithScore(r, x)
  {
    if r == [] {
      assert Insert(e, r, desc) == [e] + r;
      WithScoreCons(e, r, x);
    } else if AtLeast(desc, e.0, r[0].0) {
      WithScoreCons(e, r, x);
    } else {
      var rest := Insert(e, r[1..], desc);
      InsertKeepsTies(e, r[1..], desc, x);
      WithScoreCons(r[0], rest, x);
      WithScoreCons(r[0], r[1..], x);
      assert r == [r[0]] + r[1..];
      assert r[0].0 != e.0;
    }
  }

  /** The sort returns the same pairs, ordered by score. */
  lemma {:induction false} SortSortsAndPermutes<M>(s: seq<(real, M)>, desc: bool)
    ensures multiset(SortByScore(s, desc)) == multiset(s)
    ensures Sorted(SortByScore(s, desc), desc)
  {
    if s != [] {
      SortSortsAndPermutes(s[1..], desc);
      InsertPermutes(s[0], SortByScore(s[1..], desc), desc);
      InsertSorted(s[0], SortByScore(s[1..], desc), desc);
      assert s == [s[0]] + s[1..];
    }
  }

  /** The sort is stable: for every score, the pairs with that score appear
      in the result in the order they had in the input. */
  lemma {:induction false} SortIsStable<M>(s: seq<(real, M)>, desc: bool, x: real)
    ensures WithScore(SortByScore(s, desc), x) == WithScore(s, x)
  {
    if s != [] {
      SortIsStable(s[1..], desc, x);
      InsertKeepsTies(s[0], SortByScore(s[1..], desc), desc, x);
    }
  }

  /** The first pair after sorting has the best score of all, and is the
      earliest pair of the input with that score. */
  lemma SortedHead<M>(s: seq<(real, M)>, desc: bool)
    requires |s| > 0
    ensures |SortByScore(s, desc)| == |s|
    ensures SortByScore(s, desc)[0] in s
    ensures forall i :: 0 <= i < |s| ==> AtLeast(desc, SortByScore(s, desc)[0].0, s[i].0)
    ensures |WithScore(s, SortByScore(s, desc)[0].0)| > 0
    ensures WithScore(s, SortByScore(s, desc)[0].0)[0] == SortByScore(s, desc)[0]
  {
    var t := SortByScore(s, desc);
    SortSortsAndPermutes(s, desc);
    assert |t| == |multiset(t)| == |s|;
    assert t[0] in multiset(s);
    forall i | 0 <= i < |s| ensures AtLeast(desc, t[0].0, s[i].0) {
      assert s[i] in multiset(t);
      var k :| 0 <= k < |t| && t[k] == s[i];
    }
    SortIsStable(s, desc, t[0].0);
    assert t == [t[0]] + t[1..];
  }
}
