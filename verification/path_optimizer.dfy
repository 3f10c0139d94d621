/**
  Short-term reinforcement of a chosen candidate (`InputMethodPathOptimizer`).

  `promoteUsedPath` walks the chosen word's path from the root, adds one
  to the word's score at the deepest node reached if that node is
  terminal, and adds one to the score of every edge taken from a
  non-terminal node along the way. The tree is a value here, so the walk
  is a recursion that rebuilds the nodes on the path.
 */
module PathOptimizer {
  import opened Common
  import opened Trie
  import opened CandidateClass

  /** The promotion below node `n` for the rest of the path `path`. */
  function Promote(n: Node, path: seq<char>, word: string): (r: Node)
    ensures r.key == n.key && r.path == n.path && r.selfScore == n.selfScore
    ensures r.candidates == n.candidates && ChildKeys(r) == ChildKeys(n)
    ensures Valid(n) ==> Valid(r)
  {
    if path == [] then PromoteIfFinal(n, word)
    else
      ChildIndexFound(n, path[0]);
      var i := ChildIndex(n.children, path[0]);
      if i == |n.children| then PromoteIfFinal(n, word)
      else
        var c := Promote(n.children[i], path[1..], word);
        var m := ReplaceChild(n, i, c);
        assert ChildKeys(m) == ChildKeys(n);
        assert Valid(n) ==> Valid(m) by {
          if Valid(n) {
            assert Valid(n.children[i]);
          }
        }
        if IsNotFinal(n) then PromoteChild(m, path[0]) else m
  }

  /** The word promotion at the deepest node reached, done only when it is terminal. */
  function PromoteIfFinal(n: Node, word: string): (r: Node)
    ensures r.(candidateScores := map[]) == n.(candidateScores := map[])
    ensures IsFinal(n) && word != "" ==> GetCandidateScore(r, word) == GetCandidateScore(n, word) + 1
    ensures !(IsFinal(n) && word != "") ==> r == n
    ensures forall v :: v != word ==> GetCandidateScore(r, v) == GetCandidateScore(n, v)
    ensures Valid(n) ==> Valid(r)
  {
    if IsFinal(n) then PromoteCandidate(n, word) else n
  }

  /**
    `promoteUsedPath(path, root, wordIndex, word)`: an empty path or a
    negative word index leaves the tree untouched.
   */
  function PromoteUsedPath(path: seq<char>, root: Node, wordIndex: int, word: string): (r: Node)
    ensures path == [] || wordIndex < 0 ==> r == root
    ensures path != [] && wordIndex >= 0 ==> r == Promote(root, path, word)
    ensures Valid(root) ==> Valid(r)
  {
    if path == [] || wordIndex < 0 then root else Promote(root, path, word)
  }

  // ---------------------------------------------------------------------
  // What the promotion changes.

  /** The tree with every score erased: what promotion must leave alone. */
  function Skeleton(n: Node): Node
    decreases n
  {
    Node(n.key, n.path,
         seq(|n.children|, i requires 0 <= i < |n.children| => Skeleton(n.children[i])),
         n.candidates, map[], 0)
  }

  /** Promotion changes scores only: the keys, paths, children and candidates are kept. */
  lemma {:induction false} PromoteKeepsSkeleton(n: Node, path: seq<char>, word: string)
    ensures Skeleton(Promote(n, path, word)) == Skeleton(n)
    decreases n
  {
    var r := Promote(n, path, word);
    if path != [] {
      ChildIndexFound(n, path[0]);
      var i := ChildIndex(n.children, path[0]);
      if i < |n.children| {
        var c := Promote(n.children[i], path[1..], word);
        PromoteKeepsSkeleton(n.children[i], path[1..], word);
        var m := ReplaceChild(n, i, c);
        assert Skeleton(m) == Skeleton(n) by {
          forall j | 0 <= j < |n.children| ensures Skeleton(m.children[j]) == Skeleton(n.children[j]) {
          }
        }
        if IsNotFinal(n) {
          assert |r.children| == |m.children|;
          forall j | 0 <= j < |m.children| ensures Skeleton(r.children[j]) == Skeleton(m.children[j]) {
            SkeletonIgnoresSelfScore(m.children[j], r.children[j]);
          }
          assert Skeleton(r) == Skeleton(m);
        }
      }
    }
  }

  lemma SkeletonIgnoresSelfScore(a: Node, b: Node)
    requires a.(selfScore := 0) == b.(selfScore := 0)
    ensures Skeleton(a) == Skeleton(b)
  {
  }

  /** A lookup of a non-empty path does not depend on the scores of the node it starts from. */
  lemma LookupIgnoresOwnScores(a: Node, b: Node, p: seq<char>)
    requires a.children == b.children && p != []
    ensures Lookup(a, p) == Lookup(b, p)
  {
    assert ChildKeys(a) == ChildKeys(b);
  }

  /** Replacing child `i` by a node with the same key leaves the other children where they were. */
  lemma ReplaceChildOthers(n: Node, i: nat, m: Node, c: char)
    requires i < |n.children| && m.key == n.children[i].key && c != m.key
    ensures GetChildNode(ReplaceChild(n, i, m), c) == GetChildNode(n, c)
  {
    var r := ReplaceChild(n, i, m);
    ChildIndexSameKeys(r.children, n.children, c);
    ChildIndexFound(n, c);
    ChildIndexFound(r, c);
  }

  /** Promoting child `c` leaves every other child where it was. */
  lemma PromoteChildOthers(n: Node, c: char, d: char)
    requires c != d
    ensures GetChildNode(PromoteChild(n, c), d) == GetChildNode(n, d)
  {
    if c in ChildKeys(n) {
      ChildIndexFound(n, c);
      var i := ChildIndex(n.children, c);
      var m := n.children[i].(selfScore := GetChildrenScore(n, c) + 1);
      assert PromoteChild(n, c) == SetChildrenScore(n, c, m.selfScore) == ReplaceChild(n, i, m);
      ReplaceChildOthers(n, i, m, d);
    }
  }

  /** Promotion leaves every child off the path where it was. */
  lemma PromoteOtherChild(n: Node, path: seq<char>, word: string, c: char)
    requires path != [] && c != path[0]
    ensures GetChildNode(Promote(n, path, word), c) == GetChildNode(n, c)
  {
    ChildIndexFound(n, path[0]);
    var i := ChildIndex(n.children, path[0]);
    if i < |n.children| {
      var m := ReplaceChild(n, i, Promote(n.children[i], path[1..], word));
      ReplaceChildOthers(n, i, m.children[i], c);
      if IsNotFinal(n) {
        PromoteChildOthers(m, path[0], c);
      }
    }
  }

  /** The child on the path is the promoted child, up to its own score. */
  lemma PromotePathChild(n: Node, path: seq<char>, word: string)
    requires path != [] && path[0] in ChildKeys(n)
    ensures GetChildNode(Promote(n, path, word), path[0]).Some?
    ensures GetChildNode(Promote(n, path, word), path[0]).value ==
      Promote(GetChildNode(n, path[0]).value, path[1..], word).(selfScore := GetChildNode(Promote(n, path, word), path[0]).value.selfScore)
  {
    ChildIndexFound(n, path[0]);
    var i := ChildIndex(n.children, path[0]);
    var c := Promote(n.children[i], path[1..], word);
    var m := ReplaceChild(n, i, c);
    var r := Promote(n, path, word);
    ChildIndexSameKeys(m.children, n.children, path[0]);
    ChildIndexSameKeys(r.children, n.children, path[0]);
  }

  /**
    Every node whose path is not a prefix of the promoted path is left
    exactly as it was (the subtree below the deepest node included).
   */
  lemma {:induction false} PromoteOffPath(n: Node, path: seq<char>, word: string, p: seq<char>)
    requires !(|p| <= |path| && p == path[..|p|])
    ensures Lookup(Promote(n, path, word), p) == Lookup(n, p)
    decreases n
  {
    var r := Promote(n, path, word);
    assert p != [];
    if path == [] {
      LookupIgnoresOwnScores(r, n, p);
    } else if path[0] !in ChildKeys(n) {
      ChildIndexFound(n, path[0]);
      LookupIgnoresOwnScores(r, n, p);
    } else if p[0] != path[0] {
      PromoteOtherChild(n, path, word, p[0]);
    } else {
      var child := GetChildNode(n, path[0]).value;
      assert !(|p[1..]| <= |path[1..]| && p[1..] == path[1..][..|p[1..]|]);
      PromoteOffPath(child, path[1..], word, p[1..]);
      PromotePathChild(n, path, word);
      var cr := GetChildNode(r, p[0]).value;
      LookupIgnoresOwnScores(cr, Promote(child, path[1..], word), p[1..]);
    }
  }

  /** The number of leading path symbols that resolve from `n`. */
  function Reach(n: Node, path: seq<char>): (k: nat)
    ensures k <= |path| && Lookup(n, path[..k]).Some?
    ensures k < |path| ==> path[k] !in ChildKeys(Lookup(n, path[..k]).value)
  {
    if path == [] then 0
    else match GetChildNode(n, path[0])
      case None => 0
      case Some(c) =>
        var k := Reach(c, path[1..]);
        var q := path[..k + 1];
        assert q[0] == path[0] && q[1..] == path[1..][..k];
        LookupCons(n, q);
        k + 1
  }

  /**
    `after` is `before` with the word promotion applied: the word's score
    is one higher if `before` is terminal and the word is not empty, and
    every other word keeps its score.
   */
  ghost predicate WordPromoted(before: Node, after: Node, word: string) {
    && GetCandidateScore(after, word) ==
         GetCandidateScore(before, word) + (if IsFinal(before) && word != "" then 1 else 0)
    && (forall v :: v != word ==> GetCandidateScore(after, v) == GetCandidateScore(before, v))
  }

  /**
    At the deepest node reached, the chosen word's score rises by one if
    the node is terminal and the word is not empty; no other word score
    of that node changes.
   */
  lemma {:induction false} PromoteWord(n: Node, path: seq<char>, word: string)
    ensures
      var k := Reach(n, path);
      var after := Lookup(Promote(n, path, word), path[..k]);
      && after.Some?
      && WordPromoted(Lookup(n, path[..k]).value, after.value, word)
    decreases n
  {
    var k := Reach(n, path);
    var r := Promote(n, path, word);
    if path != [] && path[0] in ChildKeys(n) {
      var child := GetChildNode(n, path[0]).value;
      var q := path[1..][..k - 1];
      PromoteWord(child, path[1..], word);
      assert path[..k][0] == path[0] && path[..k][1..] == q;
      LookupCons(n, path[..k]);
      LookupCons(r, path[..k]);
      PromotePathChild(n, path, word);
      var cr := GetChildNode(r, path[0]).value;
      var pc := Promote(child, path[1..], word);
      LookupIgnoresOwnScoresOrEmpty(cr, pc, q);
      WordPromotedSameScores(Lookup(child, q).value, Lookup(pc, q).value, Lookup(cr, q).value, word);
    } else {
      assert k == 0 && path[..k] == [];
      if path != [] {
        ChildIndexFound(n, path[0]);
      }
      assert r == PromoteIfFinal(n, word);
    }
  }

  /** Only the word scores and the candidate list matter to `WordPromoted`. */
  lemma WordPromotedSameScores(before: Node, a: Node, b: Node, word: string)
    requires WordPromoted(before, a, word)
    requires a.candidateScores == b.candidateScores
    ensures WordPromoted(before, b, word)
  {
  }

  /** Looking up from two nodes that differ in their own score only. */
  lemma LookupIgnoresOwnScoresOrEmpty(a: Node, b: Node, p: seq<char>)
    requires a == b.(selfScore := a.selfScore)
    ensures Lookup(a, p).Some? <==> Lookup(b, p).Some?
    ensures Lookup(a, p).Some? ==> Lookup(a, p).value.candidateScores == Lookup(b, p).value.candidateScores
    ensures Lookup(a, p).Some? ==> Lookup(a, p).value.candidates == Lookup(b, p).value.candidates
  {
    if p != [] {
      LookupIgnoresOwnScores(a, b, p);
    }
  }

  /**
    Every edge taken along the path from a non-terminal node gains one
    point; an edge leaving a terminal node keeps its score.
   */
  lemma {:induction false} PromoteEdge(n: Node, path: seq<char>, word: string, i: nat)
    requires i < |path| && Lookup(n, path[..i]).Some? && path[i] in ChildKeys(Lookup(n, path[..i]).value)
    ensures
      var before := Lookup(n, path[..i]).value;
      var after := Lookup(Promote(n, path, word), path[..i]);
      && after.Some?
      && GetChildrenScore(after.value, path[i]) ==
           GetChildrenScore(before, path[i]) + (if IsNotFinal(before) then 1 else 0)
    decreases n
  {
    var r := Promote(n, path, word);
    if i == 0 {
      assert path[..i] == [];
      PromoteFirstEdge(n, path, word);
    } else {
      var q := path[1..][..i - 1];
      assert path[..i][0] == path[0] && path[..i][1..] == q;
      assert path[i] == path[1..][i - 1];
      LookupCons(n, path[..i]);
      LookupCons(r, path[..i]);
      var child := GetChildNode(n, path[0]).value;
      PromoteEdge(child, path[1..], word, i - 1);
      PromotePathChild(n, path, word);
      var cr := GetChildNode(r, path[0]).value;
      LookupChildScores(cr, Promote(child, path[1..], word), q);
    }
  }

  /** The first edge of the path gains one point exactly when its source is not terminal. */
  lemma PromoteFirstEdge(n: Node, path: seq<char>, word: string)
    requires path != [] && path[0] in ChildKeys(n)
    ensures GetChildrenScore(Promote(n, path, word), path[0]) ==
      GetChildrenScore(n, path[0]) + (if IsNotFinal(n) then 1 else 0)
  {
    ChildIndexFound(n, path[0]);
    var j := ChildIndex(n.children, path[0]);
    var m := ReplaceChild(n, j, Promote(n.children[j], path[1..], word));
    ChildIndexSameKeys(m.children, n.children, path[0]);
    assert GetChildrenScore(m, path[0]) == GetChildrenScore(n, path[0]);
  }

  /** Two nodes that differ in their own score only reach nodes with the same child scores. */
  lemma LookupChildScores(a: Node, b: Node, p: seq<char>)
    requires a == b.(selfScore := a.selfScore)
    ensures Lookup(a, p).Some? <==> Lookup(b, p).Some?
    ensures Lookup(a, p).Some? ==> Lookup(a, p).value.children == Lookup(b, p).value.children
  {
    if p != [] {
      LookupIgnoresOwnScores(a, b, p);
    }
  }

  // ---------------------------------------------------------------------
  // The optimizer object and its two entry points.

  datatype Optimizer = Optimizer(dictionaryRoot: Option<Node>)

  /** `optimizePath(path, wordIndex, word)`: a no-op without a dictionary. */
  function OptimizePath(o: Optimizer, path: seq<char>, wordIndex: int, word: string): (r: Optimizer)
    ensures o.dictionaryRoot.None? ==> r == o
    ensures o.dictionaryRoot.Some? ==> r.dictionaryRoot == Some(PromoteUsedPath(path, o.dictionaryRoot.value, wordIndex, word))
  {
    match o.dictionaryRoot
    case None => o
    case Some(root) => Optimizer(Some(PromoteUsedPath(path, root, wordIndex, word)))
  }

  /** `optimizePath(candidatePair)` as written: it passes word index -1. */
  function OptimizePairAsWritten(o: Optimizer, pair: CandidatePair): (r: Optimizer)
    ensures r == OptimizePath(o, pair.fullPath, -1, pair.candidateString)
  {
    OptimizePath(o, pair.fullPath, -1, pair.candidateString)
  }

  /** As written, promoting a chosen pair never changes the dictionary. */
  lemma OptimizePairAsWrittenIsNoOp(o: Optimizer, pair: CandidatePair)
    ensures OptimizePairAsWritten(o, pair) == o
  {
  }

  /** `optimizePath(candidatePair)` with a valid word index: the pair's path is promoted. */
  function OptimizePair(o: Optimizer, pair: CandidatePair): (r: Optimizer)
    ensures o.dictionaryRoot.None? ==> r == o
    ensures o.dictionaryRoot.Some? && pair.fullPath != [] ==>
      r.dictionaryRoot == Some(Promote(o.dictionaryRoot.value, pair.fullPath, pair.candidateString))
    ensures o.dictionaryRoot.Some? && pair.fullPath == [] ==> r == o
  {
    OptimizePath(o, pair.fullPath, 0, pair.candidateString)
  }
}
