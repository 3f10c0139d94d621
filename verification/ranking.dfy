/**
  The ranking used by every ordered view in the keyboard: Kotlin's
  `sortedByDescending { score }`, a STABLE sort on descending score.
  Elements with equal scores keep their insertion order.

  The sort is written as an insertion sort: an element is inserted in front
  of the first element that does not score strictly higher, so earlier
  elements precede later ones of equal score.
 */
module Ranking {
  import opened Common

  /** Higher scores first. */
  ghost predicate Descending<T>(s: seq<T>, score: T -> int) {
    forall i, j :: 0 <= i < j < |s| ==> score(s[i]) >= score(s[j])
  }

  /** The elements of `s` whose score is `k`, in their order in `s`. */
  function ScoreClass<T>(s: seq<T>, score: T -> int, k: int): seq<T> {
    if s == [] then []
    else (if score(s[0]) == k then [s[0]] else []) + ScoreClass(s[1..], score, k)
  }

  function Insert<T>(x: T, s: seq<T>, score: T -> int): seq<T> {
    if s == [] || score(s[0]) <= score(x) then [x] + s
    else [s[0]] + Insert(x, s[1..], score)
  }

  /** Kotlin's `s.sortedByDescending(score)`. */
  function SortDesc<T>(s: seq<T>, score: T -> int): seq<T> {
    if s == [] then [] else Insert(s[0], SortDesc(s[1..], score), score)
  }

  lemma {:induction false} InsertPermutes<T>(x: T, s: seq<T>, score: T -> int)
    ensures multiset(Insert(x, s, score)) == multiset(s) + multiset{x}
    ensures |Insert(x, s, score)| == |s| + 1
  {
    if s == [] || score(s[0]) <= score(x) {
    } else {
      InsertPermutes(x, s[1..], score);
      assert s == [s[0]] + s[1..];
    }
  }

  lemma {:induction false} InsertDescending<T>(x: T, s: seq<T>, score: T -> int)
    requires Descending(s, score)
    ensures Descending(Insert(x, s, score), score)
    ensures Insert(x, s, score) != [] && (score(Insert(x, s, score)[0]) == score(x) || (s != [] && score(Insert(x, s, score)[0]) == score(s[0])))
  {
    if s == [] || score(s[0]) <= score(x) {
    } else {
      var t := Insert(x, s[1..], score);
      InsertDescending(x, s[1..], score);
      InsertBounded(x, s[1..], score, score(s[0]));
      var r := [s[0]] + t;
      assert Insert(x, s, score) == r;
      forall i, j | 0 <= i < j < |r| ensures score(r[i]) >= score(r[j]) {
        assert r[j] == t[j - 1];
        if i > 0 {
          assert r[i] == t[i - 1];
        }
      }
    }
  }

  /** Inserting an element no higher than a bound into a list bounded by it keeps the bound. */
  lemma {:induction false} InsertBounded<T>(x: T, s: seq<T>, score: T -> int, b: int)
    requires score(x) <= b && forall k :: 0 <= k < |s| ==> score(s[k]) <= b
    ensures forall j :: 0 <= j < |Insert(x, s, score)| ==> score(Insert(x, s, score)[j]) <= b
  {
    if s == [] || score(s[0]) <= score(x) {
      assert forall j :: 0 < j < |s| + 1 ==> ([x] + s)[j] == s[j - 1];
    } else {
      InsertBounded(x, s[1..], score, b);
      var t := Insert(x, s[1..], score);
      assert forall j :: 0 < j < |t| + 1 ==> ([s[0]] + t)[j] == t[j - 1];
    }
  }

  /** Inserting one element adds exactly one to the length. */
  lemma {:induction false} InsertLength<T>(x: T, s: seq<T>, score: T -> int)
    ensures |Insert(x, s, score)| == |s| + 1
  {
    if s != [] && score(s[0]) > score(x) {
      InsertLength(x, s[1..], score);
    }
  }

  /** Sorting keeps the length. */
  lemma {:induction false} SortDescLength<T>(s: seq<T>, score: T -> int)
    ensures |SortDesc(s, score)| == |s|
  {
    if s != [] {
      SortDescLength(s[1..], score);
      InsertLength(s[0], SortDesc(s[1..], score), score);
    }
  }

  /** The sorted view is a permutation of the input, ordered by descending score. */
  lemma {:induction false} SortDescSpec<T>(s: seq<T>, score: T -> int)
    ensures multiset(SortDesc(s, score)) == multiset(s)
    ensures |SortDesc(s, score)| == |s|
    ensures Descending(SortDesc(s, score), score)
  {
    if s != [] {
      SortDescSpec(s[1..], score);
      InsertPermutes(s[0], SortDesc(s[1..], score), score);
      InsertDescending(s[0], SortDesc(s[1..], score), score);
      assert s == [s[0]] + s[1..];
    }
  }

  lemma {:induction false} ScoreClassAppend<T>(a: seq<T>, b: seq<T>, score: T -> int, k: int)
    ensures ScoreClass(a + b, score, k) == ScoreClass(a, score, k) + ScoreClass(b, score, k)
  {
    if a == [] {
      assert a + b == b;
    } else {
      var h := if score(a[0]) == k then [a[0]] else [];
      assert (a + b)[0] == a[0] && (a + b)[1..] == a[1..] + b;
      assert ScoreClass(a + b, score, k) == h + ScoreClass(a[1..] + b, score, k);
      ScoreClassAppend(a[1..], b, score, k);
      AppendAssoc(h, ScoreClass(a[1..], score, k), ScoreClass(b, score, k));
    }
  }

  lemma {:induction false} InsertScoreClass<T>(x: T, s: seq<T>, score: T -> int, k: int)
    ensures ScoreClass(Insert(x, s, score), score, k) ==
      (if score(x) == k then [x] else []) + ScoreClass(s, score, k)
  {
    if s == [] || score(s[0]) <= score(x) {
      assert ([x] + s)[1..] == s;
    } else {
      var t := Insert(x, s[1..], score);
      InsertScoreClass(x, s[1..], score, k);
      assert ([s[0]] + t)[0] == s[0] && ([s[0]] + t)[1..] == t;
      var rest := ScoreClass(s[1..], score, k);
      assert ScoreClass(s, score, k) == (if score(s[0]) == k then [s[0]] else []) + rest;
      if score(s[0]) == k {
        assert ScoreClass(Insert(x, s, score), score, k) == [s[0]] + ([] + rest);
      } else {
        assert ScoreClass(Insert(x, s, score), score, k) == [] + ScoreClass(t, score, k);
      }
    }
  }

  /** Stability: among elements of equal score the input order is kept. */
  lemma {:induction false} SortDescStable<T>(s: seq<T>, score: T -> int, k: int)
    ensures ScoreClass(SortDesc(s, score), score, k) == ScoreClass(s, score, k)
  {
    if s != [] {
      SortDescStable(s[1..], score, k);
      InsertScoreClass(s[0], SortDesc(s[1..], score), score, k);
    }
  }

  /**
    When an element heads the score class of its own score, no element
    before it (other than a copy of it) shares that score.
   */
  lemma {:induction false} ScoreClassFirst<T>(s: seq<T>, score: T -> int, i: nat)
    requires i < |s| && ScoreClass(s, score, score(s[i])) != []
    requires ScoreClass(s, score, score(s[i]))[0] == s[i]
    requires forall j :: 0 <= j < i ==> s[j] != s[i]
    ensures forall j :: 0 <= j < i ==> score(s[j]) != score(s[i])
  {
    if i > 0 {
      assert s[0] != s[i];
      var k := score(s[i]);
      assert score(s[0]) != k;
      assert ScoreClass(s, score, k) == ScoreClass(s[1..], score, k);
      ScoreClassFirst(s[1..], score, i - 1);
    }
  }

  /**
    Stability at the head: an element of the input that sorts first is
    preceded in the input only by elements scoring strictly lower, so a tie
    at the top goes to the earliest element.
   */
  lemma SortDescHeadFirst<T>(s: seq<T>, score: T -> int, i: nat)
    requires i < |s| && SortDesc(s, score) != [] && s[i] == SortDesc(s, score)[0]
    requires forall j :: 0 <= j < i ==> s[j] != s[i]
    ensures forall j :: 0 <= j < i ==> score(s[j]) < score(s[i])
  {
    var t := SortDesc(s, score);
    var k := score(t[0]);
    SortDescSpec(s, score);
    SortDescStable(s, score, k);
    assert ScoreClass(t, score, k)[0] == t[0];
    ScoreClassFirst(s, score, i);
    forall j | 0 <= j < i ensures score(s[j]) < score(s[i]) {
      assert s[j] in multiset(t);
      var m :| 0 <= m < |t| && t[m] == s[j];
      if m > 0 {
        assert score(t[0]) >= score(t[m]);
      }
    }
  }

  /** Scores given to values outside the list never influence the order. */
  lemma {:induction false} SortDescIgnoresOutsiders<T>(s: seq<T>, f: T -> int, g: T -> int)
    requires forall x :: x in s ==> f(x) == g(x)
    ensures SortDesc(s, f) == SortDesc(s, g)
  {
    if s != [] {
      SortDescIgnoresOutsiders(s[1..], f, g);
      SortDescSpec(s[1..], f);
      forall y | y in SortDesc(s[1..], f) ensures f(y) == g(y) {
        assert y in multiset(SortDesc(s[1..], f));
        assert y in s[1..];
      }
      InsertAgrees(s[0], SortDesc(s[1..], f), f, g);
    }
  }

  lemma {:induction false} InsertAgrees<T>(x: T, s: seq<T>, f: T -> int, g: T -> int)
    requires f(x) == g(x)
    requires forall y :: y in s ==> f(y) == g(y)
    ensures Insert(x, s, f) == Insert(x, s, g)
  {
    if s != [] {
      assert s[0] in s;
      InsertAgrees(x, s[1..], f, g);
    }
  }

  /** Two elements: the first stays in front unless the second scores strictly higher. */
  lemma SortPair<T>(x: T, y: T, score: T -> int)
    ensures SortDesc([x, y], score) == if score(x) >= score(y) then [x, y] else [y, x]
  {
    assert [x, y][1..] == [y];
    assert SortDesc([y], score) == [y] by {
      assert [y][1..] == [];
    }
    assert SortDesc([x, y], score) == Insert(x, [y], score);
    if score(x) < score(y) {
      assert [y][1..] == [];
      assert Insert(x, [y], score) == [y] + Insert(x, [], score);
    }
  }

  /** Three elements: the first is inserted into the sorted other two. */
  lemma SortTriple<T>(x: T, y: T, z: T, score: T -> int)
    ensures SortDesc([x, y, z], score) == Insert(x, SortDesc([y, z], score), score)
  {
    assert [x, y, z][1..] == [y, z];
  }
}
