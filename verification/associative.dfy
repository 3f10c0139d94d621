/**
  The associative-word tree (`AssociativeWordNode`): a trie of Chinese
  characters built from trigram counts, where each node carries a score
  and the children of a node are ranked by their scores to suggest the
  next character.

  Children are kept in insertion order (Kotlin's `mutableMapOf` is a
  linked hash map). Unlike the candidate trie, the sorted key list IS
  modelled as a cache field: it is filled by the first read and emptied
  only by `clearCache`, so later edits of scores or children are not
  reflected until then.
 */
module Associative {
  import opened Common
  import opened Ranking

  datatype ANode = ANode(
    key: char,                      // the character of this node
    children: seq<ANode>,           // childrenMap, in insertion order
    score: int,
    sortedCache: Option<seq<char>>) // sortedChildrenKeysCache: null until first read

  /** The default character `'|'`, which marks the root. */
  const RootChar: char := '|'

  /** `AssociativeWordNode(c)`: no children, score 0, no cached order. */
  function NewNode(c: char): (r: ANode)
    ensures r.key == c && IsFinal(r) && r.score == 0 && r.sortedCache == None
    ensures IsRoot(r) <==> c == RootChar
  {
    ANode(c, [], 0, None)
  }

  /** `childrenMap.keys`, in insertion order. */
  function Keys(n: ANode): seq<char> {
    seq(|n.children|, i requires 0 <= i < |n.children| => n.children[i].key)
  }

  /** The keys of a map are distinct, at every level. */
  ghost predicate Valid(n: ANode) {
    && Distinct(Keys(n))
    && (forall i :: 0 <= i < |n.children| ==> Valid(n.children[i]))
  }

  /** `isRoot()`. */
  predicate IsRoot(n: ANode) { n.key == RootChar }

  /** `isFinal()`: the child map is empty. */
  predicate IsFinal(n: ANode) { n.children == [] }

  /** Index of the child with key `c`, or `|cs|` when there is none. */
  function Index(cs: seq<ANode>, c: char): (i: nat)
    ensures i <= |cs|
    ensures i < |cs| ==> cs[i].key == c
    ensures forall j :: 0 <= j < i ==> cs[j].key != c
  {
    if cs == [] then 0 else if cs[0].key == c then 0 else 1 + Index(cs[1..], c)
  }

  lemma IndexFound(n: ANode, c: char)
    ensures c in Keys(n) <==> Index(n.children, c) < |n.children|
  {
    var i := Index(n.children, c);
    if c in Keys(n) {
      var j :| 0 <= j < |Keys(n)| && Keys(n)[j] == c;
      assert n.children[j].key == c;
    }
    if i < |n.children| {
      assert Keys(n)[i] == c;
    }
  }

  lemma {:induction false} IndexSameKeys(a: seq<ANode>, b: seq<ANode>, c: char)
    requires |a| == |b| && forall j :: 0 <= j < |a| ==> a[j].key == b[j].key
    ensures Index(a, c) == Index(b, c)
  {
    if a != [] {
      IndexSameKeys(a[1..], b[1..], c);
    }
  }

  /** `getChild(c)`: the child with key `c`, or null. */
  function GetChild(n: ANode, c: char): (r: Option<ANode>)
    ensures r.Some? <==> c in Keys(n)
    ensures r.Some? ==> r.value in n.children && r.value.key == c
  {
    IndexFound(n, c);
    var i := Index(n.children, c);
    if i < |n.children| then Some(n.children[i]) else None
  }

  function ReplaceChild(n: ANode, i: nat, m: ANode): ANode
    requires i < |n.children|
  {
    n.(children := n.children[i := m])
  }

  /**
    `addChild(c)`: returns the updated parent (the child is `GetChild(r, c)`).
    A known char changes nothing; a new one is appended. The sorted cache
    is left as it was.
   */
  function AddChild(n: ANode, c: char): (r: ANode)
    ensures c in Keys(n) ==> r == n
    ensures c !in Keys(n) ==> Keys(r) == Keys(n) + [c] && r.children == n.children + [NewNode(c)]
    ensures GetChild(r, c).Some?
    ensures r.(children := []) == n.(children := [])
    ensures Valid(n) ==> Valid(r)
  {
    if c in Keys(n) then n
    else
      var r := n.(children := n.children + [NewNode(c)]);
      assert Keys(r) == Keys(n) + [c];
      r
  }

  /** Adding the same char twice is adding it once; the result is never final. */
  lemma AddChildIdempotent(n: ANode, c: char)
    ensures AddChild(AddChild(n, c), c) == AddChild(n, c)
    ensures !IsFinal(AddChild(n, c))
  {
    assert GetChild(AddChild(n, c), c).Some?;
  }

  /** The score a child is ranked by: `childrenMap[it]?.getScore() ?: 0`. */
  function ChildScore(n: ANode): char -> int {
    c => match GetChild(n, c) case Some(m) => m.score case None => 0
  }

  /** The ranking the cache is built from: child keys by descending child score. */
  function SortedKeys(n: ANode): seq<char> {
    SortDesc(Keys(n), ChildScore(n))
  }

  /**
    `getSortedChildrenKeys()`: returns the node with its cache filled, and
    the keys. A filled cache is returned as it is, whatever changed since.
   */
  function GetSortedChildrenKeys(n: ANode): (r: (ANode, seq<char>))
    ensures r.0.sortedCache == Some(r.1)
    ensures r.0.(sortedCache := None) == n.(sortedCache := None)
    ensures n.sortedCache.Some? ==> r.1 == n.sortedCache.value
    ensures n.sortedCache.None? ==>
      multiset(r.1) == multiset(Keys(n)) && Descending(r.1, ChildScore(n))
  {
    match n.sortedCache
    case Some(ks) => (n, ks)
    case None =>
      SortDescSpec(Keys(n), ChildScore(n));
      var ks := SortedKeys(n);
      (n.(sortedCache := Some(ks)), ks)
  }

  /** The order is computed once: reading again returns the same keys and changes nothing. */
  lemma SortedKeysBuiltOnce(n: ANode)
    ensures GetSortedChildrenKeys(GetSortedChildrenKeys(n).0) == GetSortedChildrenKeys(n)
  {
  }

  /** `clearCache()`: forgets the cached order and nothing else. */
  function ClearCache(n: ANode): (r: ANode)
    ensures r.sortedCache == None && r.(sortedCache := n.sortedCache) == n
  {
    n.(sortedCache := None)
  }

  /** After `clearCache` the next read ranks the current children. */
  lemma {:induction false} ClearedCacheRanksCurrentChildren(n: ANode)
    requires Valid(n)
    ensures GetSortedChildrenKeys(ClearCache(n)).1 == SortedKeys(n)
    ensures multiset(SortedKeys(n)) == multiset(Keys(n)) && Distinct(SortedKeys(n))
    ensures forall k :: ScoreClass(SortedKeys(n), ChildScore(n), k) == ScoreClass(Keys(n), ChildScore(n), k)
  {
    var ks := Keys(n);
    var f := ChildScore(n);
    SameChildrenSameOrder(ClearCache(n), n);
    assert multiset(SortedKeys(n)) == multiset(ks) by {
      SortDescSpec(ks, f);
    }
    DistinctPermutation(SortedKeys(n), ks);
    forall k ensures ScoreClass(SortDesc(ks, f), f, k) == ScoreClass(ks, f, k) {
      SortDescStable(ks, f, k);
    }
  }

  /** The cache holds the current order, or nothing yet. */
  ghost predicate Fresh(n: ANode) {
    n.sortedCache.None? || n.sortedCache == Some(SortedKeys(n))
  }

  /** Every cache in the subtree is fresh. */
  ghost predicate AllFresh(n: ANode) {
    Fresh(n) && forall i :: 0 <= i < |n.children| ==> AllFresh(n.children[i])
  }

  /** A fresh node's read is the ranked child keys. */
  lemma FreshReadIsRanked(n: ANode)
    requires Fresh(n)
    ensures GetSortedChildrenKeys(n).1 == SortedKeys(n)
    ensures Fresh(GetSortedChildrenKeys(n).0)
  {
    var m := GetSortedChildrenKeys(n).0;
    assert m.children == n.children;
    assert Keys(m) == Keys(n);
    SameChildrenSameOrder(m, n);
  }

  /** Two nodes whose children agree in key and score rank them alike. */
  lemma SameChildrenSameOrder(a: ANode, b: ANode)
    requires |a.children| == |b.children|
    requires forall j :: 0 <= j < |a.children| ==>
      a.children[j].key == b.children[j].key && a.children[j].score == b.children[j].score
    ensures SortedKeys(a) == SortedKeys(b)
  {
    assert Keys(a) == Keys(b);
    forall c | c in Keys(a) ensures ChildScore(a)(c) == ChildScore(b)(c) {
      IndexSameKeys(a.children, b.children, c);
    }
    SortDescIgnoresOutsiders(Keys(a), ChildScore(a), ChildScore(b));
  }

  /**
    A counterexample to freshness: ranking `a`(1) below `b`(2), then
    raising `a` to 5, still reads `[b, a]`; after `clearCache` it reads `[a, b]`.
   */
  lemma StaleCacheAfterScoreChange()
    ensures var n0 := ANode(RootChar, [ANode('a', [], 1, None), ANode('b', [], 2, None)], 0, None);
      var (n1, ks1) := GetSortedChildrenKeys(n0);
      var n2 := n1.(children := [ANode('a', [], 5, None), ANode('b', [], 2, None)]);
      && ks1 == ['b', 'a']
      && GetSortedChildrenKeys(n2).1 == ['b', 'a']
      && GetSortedChildrenKeys(ClearCache(n2)).1 == ['a', 'b']
  {
    var n0 := ANode(RootChar, [ANode('a', [], 1, None), ANode('b', [], 2, None)], 0, None);
    var n2 := ANode(RootChar, [ANode('a', [], 5, None), ANode('b', [], 2, None)], 0, None);
    assert Keys(n0) == ['a', 'b'] && Keys(n2) == ['a', 'b'];
    assert ChildScore(n0)('a') == 1 && ChildScore(n0)('b') == 2;
    assert ChildScore(n2)('a') == 5 && ChildScore(n2)('b') == 2;
    SortPair('a', 'b', ChildScore(n0));
    SortPair('a', 'b', ChildScore(n2));
  }

  // ---------------------------------------------------------------------
  // Following a path.

  /** The node reached by following `path` one child per char, or null. */
  function Walk(n: ANode, path: seq<char>): (r: Option<ANode>)
    ensures path == [] ==> r == Some(n)
    ensures Valid(n) && r.Some? ==> Valid(r.value)
    decreases path
  {
    if path == [] then Some(n)
    else match GetChild(n, path[0])
      case None => None
      case Some(c) => Walk(c, path[1..])
  }

  /** The tree without its caches: what a read must leave alone. */
  function Erase(n: ANode): ANode
    decreases n
  {
    ANode(n.key, seq(|n.children|, i requires 0 <= i < |n.children| => Erase(n.children[i])), n.score, None)
  }

  /**
    `getCandidateWords(path)`: the sorted keys of the node the path leads
    to, or the empty list at the first missing char. The read fills that
    node's cache and changes nothing else.
   */
  function GetCandidateWords(n: ANode, path: seq<char>): (r: (ANode, seq<char>))
    ensures Walk(n, path).None? ==> r == (n, [])
    ensures Walk(n, path).Some? ==> r.1 == GetSortedChildrenKeys(Walk(n, path).value).1
    ensures Erase(r.0) == Erase(n)
    ensures r.0.key == n.key && r.0.score == n.score
    ensures Keys(r.0) == Keys(n)
    ensures Valid(n) ==> Valid(r.0)
    ensures AllFresh(n) ==> AllFresh(r.0)
    decreases path
  {
    if path == [] then
      ReadKeeps(n);
      GetSortedChildrenKeys(n)
    else
      IndexFound(n, path[0]);
      var i := Index(n.children, path[0]);
      if i == |n.children| then (n, [])
      else
        var (c, ks) := GetCandidateWords(n.children[i], path[1..]);
        var m := ReplaceChild(n, i, c);
        ReplaceChildKeeps(n, i, c);
        assert GetChild(n, path[0]) == Some(n.children[i]);
        assert Walk(n, path).None? ==> m == n by {
          if Walk(n, path).None? {
            assert c == n.children[i];
            assert n.children[i := c] == n.children;
          }
        }
        (m, ks)
  }

  /** A read changes the node's cache only. */
  lemma ReadKeeps(n: ANode)
    ensures var m := GetSortedChildrenKeys(n).0;
      && Erase(m) == Erase(n) && Keys(m) == Keys(n) && m.key == n.key && m.score == n.score
      && (Valid(n) ==> Valid(m))
      && (AllFresh(n) ==> AllFresh(m))
  {
    var m := GetSortedChildrenKeys(n).0;
    assert m.children == n.children;
    assert Keys(m) == Keys(n);
    if AllFresh(n) {
      FreshReadIsRanked(n);
    }
  }

  /** Replacing a child by a cache-only variant of it keeps everything a read can see. */
  lemma ReplaceChildKeeps(n: ANode, i: nat, c: ANode)
    requires i < |n.children|
    requires Erase(c) == Erase(n.children[i]) && c.key == n.children[i].key && c.score == n.children[i].score
    requires Keys(c) == Keys(n.children[i])
    requires Valid(n.children[i]) ==> Valid(c)
    requires AllFresh(n.children[i]) ==> AllFresh(c)
    ensures var m := ReplaceChild(n, i, c);
      && Erase(m) == Erase(n) && Keys(m) == Keys(n)
      && (Valid(n) ==> Valid(m))
      && (AllFresh(n) ==> AllFresh(m))
  {
    var m := ReplaceChild(n, i, c);
    assert Keys(m) == Keys(n);
    assert Erase(m).children == Erase(n).children;
    if AllFresh(n) {
      SameChildrenSameOrder(m, n);
    }
  }

  /** With fresh caches, the words for a path are the reached node's child keys, best first, ties in insertion order. */
  lemma {:induction false} CandidateWordsRanked(n: ANode, path: seq<char>)
    requires Valid(n) && AllFresh(n) && Walk(n, path).Some?
    ensures var m := Walk(n, path).value;
      var ks := GetCandidateWords(n, path).1;
      && ks == SortedKeys(m)
      && multiset(ks) == multiset(Keys(m)) && Distinct(ks)
      && Descending(ks, ChildScore(m))
    decreases path
  {
    var m := Walk(n, path).value;
    WalkKeepsFresh(n, path);
    FreshReadIsRanked(m);
    ClearedCacheRanksCurrentChildren(m);
    SortDescSpec(Keys(m), ChildScore(m));
  }

  lemma {:induction false} WalkKeepsFresh(n: ANode, path: seq<char>)
    requires AllFresh(n) && Walk(n, path).Some?
    ensures AllFresh(Walk(n, path).value)
    decreases path
  {
    if path != [] {
      var c := GetChild(n, path[0]).value;
      var j :| 0 <= j < |n.children| && n.children[j] == c;
      WalkKeepsFresh(c, path[1..]);
    }
  }

  /** Asking twice gives the same words: the second read comes from the cache. */
  lemma {:induction false} CandidateWordsRepeatable(n: ANode, path: seq<char>)
    ensures GetCandidateWords(GetCandidateWords(n, path).0, path).1 == GetCandidateWords(n, path).1
    decreases path
  {
    if path != [] {
      IndexFound(n, path[0]);
      var i := Index(n.children, path[0]);
      if i < |n.children| {
        var r := GetCandidateWords(n, path).0;
        var c := GetCandidateWords(n.children[i], path[1..]).0;
        assert r == ReplaceChild(n, i, c);
        IndexSameKeys(r.children, n.children, path[0]);
        assert Index(r.children, path[0]) == i;
        CandidateWordsRepeatable(n.children[i], path[1..]);
      }
    }
  }
}
