/**
  The prefix tree of the keyboard (`UniformTrieNode`): one node per input
  symbol, children kept in insertion order, a list of candidate words per
  node, an integer score per node (used by its parent to rank it) and a
  score map for the node's candidate words.

  The tree is an immutable value here: every mutator of the original
  returns the updated node. A node's identity is its full path from the
  root, which is computed once when the node is created; the root made by
  the primary constructor has the empty path.

  The original caches the sorted views and does not invalidate them on
  `addChild`/`addCandidate`; here the ordered views are functions of the
  current state, i.e. the cache is assumed fresh (see the README).
 */
module Trie {
  import opened Common
  import opened Ranking

  datatype Node = Node(
    key: char,                        // the input symbol of this node
    path: seq<char>,                  // full path from the root (cached at creation)
    children: seq<Node>,              // in insertion order; childrenKeys are their keys
    candidates: seq<string>,          // terminal candidate words, in insertion order
    candidateScores: map<string, int>,
    selfScore: int)

  /** The default root character `'|'` of `UniformTrieNode()`. */
  const RootKey: char := '|'

  /** `UniformTrieNode()`: the primary constructor, whose full path is empty. */
  function NewRoot(): (r: Node)
    ensures Valid(r) && r.path == [] && r.key == RootKey
    ensures !IsFinal(r) && r.children == []
  {
    Node(RootKey, [], [], [], map[], 0)
  }

  /** `UniformTrieNode(c, parentChars)`: a child's full path is the parent's plus its own char. */
  function NewChild(parentPath: seq<char>, c: char): (r: Node)
    ensures Valid(r) && r.key == c && r.path == parentPath + [c]
    ensures !IsFinal(r) && r.children == [] && r.selfScore == 0
  {
    Node(c, parentPath + [c], [], [], map[], 0)
  }

  /** `childrenKeys`: the keys of the children in insertion order. */
  function ChildKeys(n: Node): seq<char> {
    seq(|n.children|, i requires 0 <= i < |n.children| => n.children[i].key)
  }

  /**
    Structural well-formedness kept by every operation: each child's path
    extends its parent's by the child's key, sibling keys are distinct,
    and the candidate list has neither duplicates nor empty words.
   */
  ghost predicate Valid(n: Node) {
    && Distinct(ChildKeys(n))
    && Distinct(n.candidates)
    && (forall i :: 0 <= i < |n.candidates| ==> n.candidates[i] != "")
    && (forall i :: 0 <= i < |n.children| ==>
          n.children[i].path == n.path + [n.children[i].key] && Valid(n.children[i]))
  }

  /** Index of the first child whose key is `c`, or `|cs|` when there is none. */
  function ChildIndex(cs: seq<Node>, c: char): (i: nat)
    ensures i <= |cs|
    ensures i < |cs| ==> cs[i].key == c
    ensures forall j :: 0 <= j < i ==> cs[j].key != c
  {
    if cs == [] then 0 else if cs[0].key == c then 0 else 1 + ChildIndex(cs[1..], c)
  }

  lemma ChildIndexFound(n: Node, c: char)
    ensures c in ChildKeys(n) <==> ChildIndex(n.children, c) < |n.children|
  {
    var i := ChildIndex(n.children, c);
    if c in ChildKeys(n) {
      var j :| 0 <= j < |ChildKeys(n)| && ChildKeys(n)[j] == c;
      assert n.children[j].key == c;
    }
    if i < |n.children| {
      assert ChildKeys(n)[i] == c;
    }
  }

  /** `getChildNode(c)`: the child with key `c`, or null. */
  function GetChildNode(n: Node, c: char): (r: Option<Node>)
    ensures r.Some? <==> c in ChildKeys(n)
    ensures r.Some? ==> r.value in n.children && r.value.key == c
  {
    ChildIndexFound(n, c);
    var i := ChildIndex(n.children, c);
    if i < |n.children| then Some(n.children[i]) else None
  }

  /** Replaces the `i`-th child (a helper for the pure deep updates). */
  function ReplaceChild(n: Node, i: nat, m: Node): Node
    requires i < |n.children|
  {
    n.(children := n.children[i := m])
  }

  /** `addChild(c)`: returns the updated parent; the child is `GetChildNode(r, c)`. */
  function AddChild(n: Node, c: char): (r: Node)
    ensures c in ChildKeys(n) ==> r == n
    ensures c !in ChildKeys(n) ==>
      ChildKeys(r) == ChildKeys(n) + [c] && r.children[..|n.children|] == n.children
    ensures GetChildNode(r, c).Some?
    ensures c !in ChildKeys(n) ==> GetChildNode(r, c) == Some(NewChild(n.path, c))
    ensures r.(children := []) == n.(children := [])
    ensures Valid(n) ==> Valid(r)
  {
    if c in ChildKeys(n) then n
    else
      var r := n.(children := n.children + [NewChild(n.path, c)]);
      assert ChildKeys(r) == ChildKeys(n) + [c];
      assert forall j :: 0 <= j < |n.children| ==> r.children[j].key != c by {
        forall j | 0 <= j < |n.children| ensures r.children[j].key != c {
          assert ChildKeys(n)[j] == n.children[j].key;
        }
      }
      r
  }

  /** Calling `addChild` twice with the same char is the same as calling it once. */
  lemma AddChildIdempotent(n: Node, c: char)
    ensures AddChild(AddChild(n, c), c) == AddChild(n, c)
  {
  }

  /** `addCandidate(w)`: ignores the empty word and words already present. */
  function AddCandidate(n: Node, w: string): (r: Node)
    ensures w != "" ==> w in r.candidates
    ensures forall v :: v in r.candidates <==> v in n.candidates || (v == w && w != "")
    ensures |r.candidates| >= |n.candidates| && r.candidates[..|n.candidates|] == n.candidates
    ensures r.(candidates := []) == n.(candidates := [])
    ensures Valid(n) ==> Valid(r)
  {
    if w != "" && w !in n.candidates then n.(candidates := n.candidates + [w]) else n
  }

  /** `isFinalNode()`: a node is terminal when it holds at least one candidate. */
  predicate IsFinal(n: Node) { |n.candidates| > 0 }

  /** `isNotFinalNode()`. */
  predicate IsNotFinal(n: Node) { |n.candidates| == 0 }

  /** The two terminal tests are exact negations of each other. */
  lemma FinalTestsComplementary(n: Node)
    ensures IsNotFinal(n) <==> !IsFinal(n)
    ensures IsFinal(n) <==> exists w :: w in n.candidates
  {
    if IsFinal(n) {
      assert n.candidates[0] in n.candidates;
    }
  }

  /** `getChildrenScore(c)`: the child's own score, 0 when there is no such child. */
  function GetChildrenScore(n: Node, c: char): (r: int)
    ensures c !in ChildKeys(n) ==> r == 0
    ensures c in ChildKeys(n) ==> ChildIndex(n.children, c) < |n.children| && r == n.children[ChildIndex(n.children, c)].selfScore
  {
    match GetChildNode(n, c)
    case Some(ch) => ch.selfScore
    case None => 0
  }

  /** `setChildrenScore(c, s)`: sets the child's own score; a no-op without such a child. */
  function SetChildrenScore(n: Node, c: char, s: int): (r: Node)
    ensures c !in ChildKeys(n) ==> r == n
    ensures c in ChildKeys(n) ==> GetChildrenScore(r, c) == s
    ensures forall d :: d != c ==> GetChildrenScore(r, d) == GetChildrenScore(n, d)
    ensures ChildKeys(r) == ChildKeys(n)
    ensures r.(children := []) == n.(children := [])
    ensures |r.children| == |n.children| &&
      forall j :: 0 <= j < |n.children| ==> r.children[j].(selfScore := 0) == n.children[j].(selfScore := 0)
    ensures Valid(n) ==> Valid(r)
  {
    ChildIndexFound(n, c);
    var i := ChildIndex(n.children, c);
    if i < |n.children| then
      RescoreKeeps(n, i, s);
      ReplaceChild(n, i, n.children[i].(selfScore := s))
    else n
  }

  /** A child given a new own score keeps every key, every index and validity. */
  lemma RescoreKeeps(n: Node, i: nat, s: int)
    requires i < |n.children|
    ensures var r := ReplaceChild(n, i, n.children[i].(selfScore := s));
      && ChildKeys(r) == ChildKeys(n)
      && (forall d :: ChildIndex(r.children, d) == ChildIndex(n.children, d))
      && (Valid(n) ==> Valid(r))
  {
    var r := ReplaceChild(n, i, n.children[i].(selfScore := s));
    assert ChildKeys(r) == ChildKeys(n);
    if Valid(n) {
      assert Valid(n.children[i]);
      assert Valid(n.children[i].(selfScore := s));
    }
    forall d ensures ChildIndex(r.children, d) == ChildIndex(n.children, d) {
      ChildIndexSameKeys(r.children, n.children, d);
    }
  }

  lemma {:induction false} ChildIndexSameKeys(a: seq<Node>, b: seq<Node>, d: char)
    requires |a| == |b| && forall j :: 0 <= j < |a| ==> a[j].key == b[j].key
    ensures ChildIndex(a, d) == ChildIndex(b, d)
  {
    if a != [] {
      ChildIndexSameKeys(a[1..], b[1..], d);
    }
  }

  /** `setSelfScore(s)`. */
  function SetSelfScore(n: Node, s: int): (r: Node)
    ensures r.selfScore == s && r.(selfScore := 0) == n.(selfScore := 0)
  {
    n.(selfScore := s)
  }

  /** `getCandidateScore(w)`: 0 for a word never scored. */
  function GetCandidateScore(n: Node, w: string): int {
    if w in n.candidateScores then n.candidateScores[w] else 0
  }

  /** `setCandidateScore(w, s)`: ignored for the empty word. */
  function SetCandidateScore(n: Node, w: string, s: int): (r: Node)
    ensures w == "" ==> r == n
    ensures w != "" ==> GetCandidateScore(r, w) == s
    ensures forall v :: v != w ==> GetCandidateScore(r, v) == GetCandidateScore(n, v)
    ensures r.(candidateScores := map[]) == n.(candidateScores := map[])
  {
    if w != "" then n.(candidateScores := n.candidateScores[w := s]) else n
  }

  /** `promoteChild(c)`: adds one to the score of child `c`; a no-op when it is absent. */
  function PromoteChild(n: Node, c: char): (r: Node)
    ensures c !in ChildKeys(n) ==> r == n
    ensures c in ChildKeys(n) ==> GetChildrenScore(r, c) == GetChildrenScore(n, c) + 1
    ensures forall d :: d != c ==> GetChildrenScore(r, d) == GetChildrenScore(n, d)
    ensures ChildKeys(r) == ChildKeys(n)
    ensures r.(children := []) == n.(children := [])
    ensures |r.children| == |n.children| &&
      forall j :: 0 <= j < |n.children| ==> r.children[j].(selfScore := 0) == n.children[j].(selfScore := 0)
    ensures Valid(n) ==> Valid(r)
  {
    if c !in ChildKeys(n) then n else SetChildrenScore(n, c, GetChildrenScore(n, c) + 1)
  }

  /** `promoteCandidate(w)`: adds one to `w`'s score unless `w` is empty. */
  function PromoteCandidate(n: Node, w: string): (r: Node)
    ensures w == "" ==> r == n
    ensures w != "" ==> GetCandidateScore(r, w) == GetCandidateScore(n, w) + 1
    ensures forall v :: v != w ==> GetCandidateScore(r, v) == GetCandidateScore(n, v)
    ensures r.(candidateScores := map[]) == n.(candidateScores := map[])
    ensures Valid(n) ==> Valid(r)
  {
    if w == "" then n else SetCandidateScore(n, w, GetCandidateScore(n, w) + 1)
  }

  /** The ranking key of a child symbol: its child's score. */
  function ChildRank(n: Node): char -> int {
    c => GetChildrenScore(n, c)
  }

  /** The ranking key of a candidate word: its score, 0 if unscored. */
  function CandidateRank(n: Node): string -> int {
    w => GetCandidateScore(n, w)
  }

  /** `getOrderedChildrenKeys()`. */
  function OrderedChildrenKeys(n: Node): (r: seq<char>)
    ensures |r| == |n.children|
  {
    SortDescLength(ChildKeys(n), ChildRank(n));
    SortDesc(ChildKeys(n), ChildRank(n))
  }

  /** `getOrderedCandidates()`. */
  function OrderedCandidates(n: Node): (r: seq<string>)
    ensures |r| == |n.candidates|
  {
    SortDescLength(n.candidates, CandidateRank(n));
    SortDesc(n.candidates, CandidateRank(n))
  }

  /**
    The ordered child keys are a permutation of `childrenKeys`, sorted by
    descending child score, with ties kept in insertion order.
   */
  lemma OrderedChildrenKeysSpec(n: Node)
    ensures multiset(OrderedChildrenKeys(n)) == multiset(ChildKeys(n))
    ensures |OrderedChildrenKeys(n)| == |n.children|
    ensures forall i, j :: 0 <= i < j < |OrderedChildrenKeys(n)| ==>
      GetChildrenScore(n, OrderedChildrenKeys(n)[i]) >= GetChildrenScore(n, OrderedChildrenKeys(n)[j])
    ensures forall k :: ScoreClass(OrderedChildrenKeys(n), ChildRank(n), k) == ScoreClass(ChildKeys(n), ChildRank(n), k)
    ensures Valid(n) ==> Distinct(OrderedChildrenKeys(n))
  {
    var r := OrderedChildrenKeys(n);
    SortDescSpec(ChildKeys(n), ChildRank(n));
    forall k ensures ScoreClass(r, ChildRank(n), k) == ScoreClass(ChildKeys(n), ChildRank(n), k) {
      SortDescStable(ChildKeys(n), ChildRank(n), k);
    }
    forall i, j | 0 <= i < j < |r| ensures GetChildrenScore(n, r[i]) >= GetChildrenScore(n, r[j]) {
      assert ChildRank(n)(r[i]) >= ChildRank(n)(r[j]);
    }
    if Valid(n) {
      DistinctPermutation(r, ChildKeys(n));
    }
  }

  /**
    The ordered candidates are a permutation of the candidate list, sorted by
    descending candidate score, with ties kept in insertion order.
   */
  lemma OrderedCandidatesSpec(n: Node)
    ensures multiset(OrderedCandidates(n)) == multiset(n.candidates)
    ensures |OrderedCandidates(n)| == |n.candidates|
    ensures forall i, j :: 0 <= i < j < |OrderedCandidates(n)| ==>
      GetCandidateScore(n, OrderedCandidates(n)[i]) >= GetCandidateScore(n, OrderedCandidates(n)[j])
    ensures forall k :: ScoreClass(OrderedCandidates(n), CandidateRank(n), k) == ScoreClass(n.candidates, CandidateRank(n), k)
    ensures Valid(n) ==> Distinct(OrderedCandidates(n))
  {
    var r := OrderedCandidates(n);
    SortDescSpec(n.candidates, CandidateRank(n));
    forall k ensures ScoreClass(r, CandidateRank(n), k) == ScoreClass(n.candidates, CandidateRank(n), k) {
      SortDescStable(n.candidates, CandidateRank(n), k);
    }
    forall i, j | 0 <= i < j < |r| ensures GetCandidateScore(n, r[i]) >= GetCandidateScore(n, r[j]) {
      assert CandidateRank(n)(r[i]) >= CandidateRank(n)(r[j]);
    }
    if Valid(n) {
      DistinctPermutation(r, n.candidates);
    }
  }

  /** Scores recorded for words that are not candidates never change the candidate order. */
  lemma OutsiderScoreIrrelevant(n: Node, w: string, s: int)
    requires w !in n.candidates
    ensures OrderedCandidates(SetCandidateScore(n, w, s)) == OrderedCandidates(n)
  {
    var m := SetCandidateScore(n, w, s);
    assert m.candidates == n.candidates;
    forall v | v in n.candidates ensures CandidateRank(m)(v) == CandidateRank(n)(v) {
      assert v != w;
    }
    SortDescIgnoresOutsiders(n.candidates, CandidateRank(m), CandidateRank(n));
  }

  /** `mapNotNull { childrenMap[it] }`: the children named by `ks`, in that order. */
  function NodesFor(n: Node, ks: seq<char>): (r: seq<Node>)
    ensures forall i :: 0 <= i < |r| ==> r[i] in n.children
    ensures (forall k :: k in ks ==> k in ChildKeys(n)) ==>
      |r| == |ks| && forall i :: 0 <= i < |r| ==> r[i].key == ks[i]
  {
    if ks == [] then []
    else
      var rest := NodesFor(n, ks[1..]);
      match GetChildNode(n, ks[0])
      case Some(c) => [c] + rest
      case None => rest
  }

  /** `getChildrenNodes()`: the children, ordered by descending score. */
  function OrderedChildNodes(n: Node): (r: seq<Node>)
    ensures forall i :: 0 <= i < |r| ==> r[i] in n.children
    ensures |r| == |n.children|
    ensures forall i :: 0 <= i < |r| ==> r[i].key == OrderedChildrenKeys(n)[i]
    ensures Valid(n) ==> forall i, j :: 0 <= i < j < |r| ==> r[i].key != r[j].key
  {
    var ks := OrderedChildrenKeys(n);
    OrderedChildrenKeysSpec(n);
    forall k | k in ks ensures k in ChildKeys(n) {
      assert k in multiset(ks);
    }
    NodesFor(n, ks)
  }

  /** `getFirstNode()`: the highest-ranked child, or null for a node without children. */
  function GetFirstNode(n: Node): (r: Option<Node>)
    ensures r.None? <==> n.children == []
    ensures r.Some? ==> r.value in n.children
    ensures Valid(n) && r.Some? ==> forall c :: c in n.children ==> c.selfScore <= r.value.selfScore
    ensures Valid(n) && r.Some? ==>
      forall j :: 0 <= j < ChildIndex(n.children, r.value.key) ==> n.children[j].selfScore < r.value.selfScore
  {
    var kids := OrderedChildNodes(n);
    if kids == [] then None
    else
      FirstChildIsBest(n);
      FirstNodeTieBreak(n);
      Some(kids[0])
  }

  /**
    The sort is stable, so a tie at the top goes to the earliest-inserted
    child: every child inserted before the first node scores strictly lower.
   */
  lemma FirstNodeTieBreak(n: Node)
    requires n.children != []
    ensures Valid(n) ==> forall j :: 0 <= j < ChildIndex(n.children, OrderedChildNodes(n)[0].key) ==>
      n.children[j].selfScore < OrderedChildNodes(n)[0].selfScore
  {
    if !Valid(n) { return; }
    var kids := OrderedChildNodes(n);
    var ks := OrderedChildrenKeys(n);
    var keys := ChildKeys(n);
    OrderedChildrenKeysSpec(n);
    assert ks[0] in multiset(keys);
    ChildIndexFound(n, ks[0]);
    var i := ChildIndex(n.children, ks[0]);
    assert keys[i] == ks[0];
    SortDescHeadFirst(keys, ChildRank(n), i);
    var q :| 0 <= q < |n.children| && n.children[q] == kids[0];
    assert keys[q] == keys[i];
    ChildScoreIsOwn(n, i);
    forall j | 0 <= j < i ensures n.children[j].selfScore < kids[0].selfScore {
      ChildScoreIsOwn(n, j);
      assert keys[j] == n.children[j].key;
    }
  }

  lemma FirstChildIsBest(n: Node)
    requires n.children != []
    ensures Valid(n) ==> forall c :: c in n.children ==> c.selfScore <= OrderedChildNodes(n)[0].selfScore
  {
    if !Valid(n) { return; }
    var kids := OrderedChildNodes(n);
    var ks := OrderedChildrenKeys(n);
    OrderedChildrenKeysSpec(n);
    var j0 :| 0 <= j0 < |n.children| && n.children[j0] == kids[0];
    ChildScoreIsOwn(n, j0);
    forall c | c in n.children ensures c.selfScore <= kids[0].selfScore {
      var j :| 0 <= j < |n.children| && n.children[j] == c;
      ChildScoreIsOwn(n, j);
      assert ChildKeys(n)[j] == c.key;
      assert c.key in multiset(ks);
      var i :| 0 <= i < |ks| && ks[i] == c.key;
      if i > 0 {
        assert GetChildrenScore(n, ks[0]) >= GetChildrenScore(n, ks[i]);
      }
    }
  }

  /** With distinct sibling keys, the score filed under a child's key is that child's own score. */
  lemma ChildScoreIsOwn(n: Node, j: nat)
    requires Distinct(ChildKeys(n)) && j < |n.children|
    ensures GetChildrenScore(n, n.children[j].key) == n.children[j].selfScore
  {
    var k := n.children[j].key;
    assert ChildKeys(n)[j] == k;
    ChildIndexFound(n, k);
    var f := ChildIndex(n.children, k);
    assert ChildKeys(n)[f] == k;
  }

  /**
    `filterList(list, index, limit)`: empty when the list is empty or `index`
    is past its end; the whole suffix from `index` when `limit <= 0`;
    otherwise at most `limit` elements starting at `index`.
   */
  function FilterList<T>(list: seq<T>, index: int, limit: int): (r: seq<T>)
    requires |list| > 0 && index < |list| ==> 0 <= index
    ensures |list| == 0 || index >= |list| ==> r == []
    ensures 0 <= index < |list| ==>
      |r| == (if limit <= 0 then |list| - index else Min(limit, |list| - index)) &&
      forall i :: 0 <= i < |r| ==> r[i] == list[index + i]
  {
    if |list| == 0 || index >= |list| then []
    else if limit <= 0 then list[index..]
    else list[index..Min(index + limit, |list|)]
  }

  /**
    `r` is the window of `n`'s ordered candidates that starts at `index`:
    all the rest when `limit <= 0`, otherwise at most `limit` of them, and
    nothing when `index` is past the end.
   */
  predicate WindowOf(n: Node, index: int, limit: int, r: seq<string>) {
    && (0 <= index < |n.candidates| ==>
          |r| == (if limit <= 0 then |n.candidates| - index else Min(limit, |n.candidates| - index)) &&
          forall i :: 0 <= i < |r| ==> r[i] == OrderedCandidates(n)[index + i])
    && (index >= |n.candidates| ==> r == [])
  }

  /** `getPromoteCandidates(index, limit)`: a window of the ordered candidates. */
  function GetPromoteCandidates(n: Node, index: int, limit: int): (r: seq<string>)
    requires |n.candidates| > 0 && index < |n.candidates| ==> 0 <= index
    ensures n.candidates == [] ==> r == []
    ensures WindowOf(n, index, limit, r)
    ensures forall w :: w in r ==> w in n.candidates
  {
    if n.candidates == [] then []
    else
      var r := FilterList(OrderedCandidates(n), index, limit);
      FilterIsWindow(n, index, limit);
      FilterListMembers(OrderedCandidates(n), index, limit);
      OrderedCandidatesMembers(n);
      r
  }

  lemma FilterIsWindow(n: Node, index: int, limit: int)
    requires |n.candidates| > 0 && index < |n.candidates| ==> 0 <= index
    ensures WindowOf(n, index, limit, FilterList(OrderedCandidates(n), index, limit))
  {
  }

  lemma FilterListMembers<T>(list: seq<T>, index: int, limit: int)
    requires |list| > 0 && index < |list| ==> 0 <= index
    ensures forall w :: w in FilterList(list, index, limit) ==> w in list
  {
    var r := FilterList(list, index, limit);
    forall w | w in r ensures w in list {
      var i :| 0 <= i < |r| && r[i] == w;
      assert r[i] == list[index + i];
    }
  }

  /** The ordered candidates are candidates of the node. */
  lemma OrderedCandidatesMembers(n: Node)
    ensures forall w :: w in OrderedCandidates(n) ==> w in n.candidates
  {
    OrderedCandidatesSpec(n);
    assert forall w :: w in OrderedCandidates(n) ==> w in multiset(n.candidates);
  }

  /** `getFullPath()`. */
  function GetFullPath(n: Node): seq<char> { n.path }

  /**
    The node reached from `n` by following `input` one child per symbol,
    or null at the first missing symbol (`findNodeByInput`).
   */
  function Lookup(n: Node, input: seq<char>): (r: Option<Node>)
    ensures input == [] ==> r == Some(n)
    ensures Valid(n) && r.Some? ==> Valid(r.value) && r.value.path == n.path + input
  {
    if input == [] then Some(n)
    else match GetChildNode(n, input[0])
      case None => None
      case Some(c) =>
        assert Valid(n) ==> c.path == n.path + [c.key] && Valid(c) by {
          var j :| 0 <= j < |n.children| && n.children[j] == c;
        }
        assert n.path + [input[0]] + input[1..] == n.path + input;
        Lookup(c, input[1..])
  }

  /** A non-empty lookup takes the child for the first symbol and goes on from there. */
  lemma LookupCons(n: Node, p: seq<char>)
    requires p != []
    ensures Lookup(n, p) == (match GetChildNode(n, p[0]) case None => None case Some(c) => Lookup(c, p[1..]))
  {
  }

  /** Looking up `p + q` is looking up `p` and then `q` from there. */
  lemma {:induction false} LookupAppend(n: Node, p: seq<char>, q: seq<char>)
    ensures Lookup(n, p + q) == (match Lookup(n, p) case None => None case Some(m) => Lookup(m, q))
  {
    if p == [] {
      assert p + q == q;
    } else {
      assert (p + q)[0] == p[0] && (p + q)[1..] == p[1..] + q;
      match GetChildNode(n, p[0])
      case None =>
      case Some(c) => LookupAppend(c, p[1..], q);
    }
  }

  // ---------------------------------------------------------------------
  // Node sets of a subtree, used to state what the searches return.

  /** Every node of the subtree rooted at `n`, `n` included. */
  ghost function Nodes(n: Node): set<Node> {
    {n} + (set i, m | 0 <= i < |n.children| && m in Nodes(n.children[i]) :: m)
  }

  /** The full paths (identities) of the nodes of the subtree. */
  ghost function Paths(n: Node): set<seq<char>> {
    set m | m in Nodes(n) :: m.path
  }

  lemma ChildNodesIncluded(n: Node, i: nat)
    requires i < |n.children|
    ensures Nodes(n.children[i]) <= Nodes(n)
    ensures Paths(n.children[i]) <= Paths(n)
  {
  }

  lemma {:induction false} NodesTransitive(root: Node, m: Node)
    requires m in Nodes(root)
    ensures Nodes(m) <= Nodes(root)
    decreases root
  {
    if m != root {
      var i :| 0 <= i < |root.children| && m in Nodes(root.children[i]);
      NodesTransitive(root.children[i], m);
      ChildNodesIncluded(root, i);
    }
  }

  lemma {:induction false} ValidDescendant(root: Node, m: Node)
    requires Valid(root) && m in Nodes(root)
    ensures Valid(m)
    decreases root
  {
    if m != root {
      var i :| 0 <= i < |root.children| && m in Nodes(root.children[i]);
      ValidDescendant(root.children[i], m);
    }
  }

  /** Every node below `n` has `n`'s path as a prefix, and is no shorter. */
  lemma {:induction false} PathsExtend(n: Node)
    requires Valid(n)
    ensures forall p :: p in Paths(n) ==> |n.path| <= |p| && p[..|n.path|] == n.path
    decreases n
  {
    forall p | p in Paths(n) ensures |n.path| <= |p| && p[..|n.path|] == n.path {
      var m :| m in Nodes(n) && m.path == p;
      if m != n {
        var i :| 0 <= i < |n.children| && m in Nodes(n.children[i]);
        var c := n.children[i];
        PathsExtend(c);
        assert p in Paths(c);
        assert p[..|c.path|] == c.path;
        assert c.path[..|n.path|] == n.path;
        assert p[..|n.path|] == p[..|c.path|][..|n.path|];
      }
    }
  }

  /** Two children with different keys have disjoint subtrees, neither containing the parent. */
  lemma ChildrenDisjoint(n: Node, a: Node, b: Node)
    requires Valid(n) && a in n.children && b in n.children && a.key != b.key
    ensures Paths(a) !! Paths(b)
    ensures n.path !in Paths(a)
  {
    ChildPathsMarked(n, a);
    ChildPathsMarked(n, b);
  }

  /** Every path below child `a` has `a`'s key right after the parent's path. */
  lemma ChildPathsMarked(n: Node, a: Node)
    requires Valid(n) && a in n.children
    ensures forall p :: p in Paths(a) ==> |p| > |n.path| && p[|n.path|] == a.key
  {
    PathsExtend(a);
    assert a.path == n.path + [a.key];
    forall p | p in Paths(a) ensures |p| > |n.path| && p[|n.path|] == a.key {
      assert p[..|a.path|] == a.path;
      assert p[..|a.path|][|n.path|] == a.key;
    }
  }

  lemma ChildPathsBelow(n: Node, a: Node)
    requires Valid(n) && a in n.children
    ensures Paths(a) <= Paths(n) - {n.path}
    ensures Nodes(a) <= Nodes(n)
  {
    var i :| 0 <= i < |n.children| && n.children[i] == a;
    ChildNodesIncluded(n, i);
    PathsExtend(a);
  }
}
