/**
  The candidate searcher of non-leaf nodes (`UltraEfficientPathSearcher`).

  `BestFirstSearch` enumerates the terminal nodes of a subtree, expanding
  the frontier entry with the highest normalised score `total / length`
  first; the enumeration is cached per root path. Pages are then cut from
  the enumeration by `SearchForCandidatesForward`, each visited node
  contributing a few of its best candidates, and cached by
  `GetCurrentPageResult`.

  Normalised scores are compared exactly, as rationals (`real`); comparing
  `a/l1` with `b/l2` this way is the cross-multiplication `a*l2` vs `b*l1`.
 */
module PathSearcher {
  import opened Common
  import opened Trie
  import opened CandidateClass

  /** The three caches of the searcher. */
  datatype Searcher = Searcher(
    bfsCachePath: string,                   // key of the cached enumeration
    bfsResultCache: Option<seq<Node>>,      // the cached enumeration, null when absent
    pageResultCache: seq<CandidateResult>)  // materialised pages, page i at index i

  function NewSearcher(): Searcher {
    Searcher("", None, [])
  }

  /** `clearCache()`: forgets the enumeration, its key and every page. */
  function ClearCache(s: Searcher): (r: Searcher)
    ensures r.bfsCachePath == "" && r.bfsResultCache.None? && r.pageResultCache == []
  {
    NewSearcher()
  }

  // ---------------------------------------------------------------------
  // The cache key: `fullPath.joinToString()`, chars separated by ", ".

  function CacheKey(p: seq<char>): (r: string)
    ensures p == [] ==> r == ""
    ensures p != [] ==> |r| == 3 * |p| - 2 && r[0] == p[0]
  {
    if p == [] then ""
    else if |p| == 1 then [p[0]]
    else [p[0]] + ", " + CacheKey(p[1..])
  }

  /** Distinct paths have distinct cache keys, so the cache is keyed by path. */
  lemma {:induction false} CacheKeyInjective(p: seq<char>, q: seq<char>)
    requires CacheKey(p) == CacheKey(q)
    ensures p == q
  {
    if p != [] && q != [] && |p| > 1 {
      assert |q| > 1;
      var kp := CacheKey(p);
      assert kp[3..] == CacheKey(p[1..]);
      assert CacheKey(q)[3..] == CacheKey(q[1..]);
      CacheKeyInjective(p[1..], q[1..]);
      assert p == [p[0]] + p[1..] && q == [q[0]] + q[1..];
    }
  }

  // ---------------------------------------------------------------------
  // Best-first enumeration.

  /** A frontier entry: a node, the score sum along the path to it and the path length. */
  datatype ScoredNode = ScoredNode(node: Node, totalScore: int, pathLength: int)

  /** `normalizedScore`, exact. */
  function Normalized(e: ScoredNode): real
    requires e.pathLength > 0
  {
    e.totalScore as real / e.pathLength as real
  }

  predicate WellScored(q: seq<ScoredNode>) {
    forall i :: 0 <= i < |q| ==> q[i].pathLength > 0
  }

  /**
    `queue.poll()`: an entry of highest normalised score. Java's priority
    queue leaves ties unspecified; here the earliest-offered entry wins.
   */
  function PickBest(q: seq<ScoredNode>): (b: nat)
    requires q != [] && WellScored(q)
    ensures b < |q|
    ensures forall i :: 0 <= i < |q| ==> Normalized(q[i]) <= Normalized(q[b])
    ensures forall i :: 0 <= i < b ==> Normalized(q[i]) < Normalized(q[b])
  {
    if |q| == 1 then 0
    else
      var b := PickBest(q[..|q| - 1]);
      assert forall i :: 0 <= i < |q| - 1 ==> q[..|q| - 1][i] == q[i];
      if Normalized(q[|q| - 1]) > Normalized(q[b]) then |q| - 1 else b
  }

  /** The entry a child `c` gets from a parent entry with `total` and `len`. */
  function Offer(c: Node, total: int, len: nat): ScoredNode {
    ScoredNode(c, total + c.selfScore, len + 1)
  }

  /**
    The enqueue test: nothing recorded under the child's key yet, or a
    strictly greater normalised score. The record is keyed by the node's
    char, because the node's equality covers only its char.
   */
  predicate Improves(best: map<char, real>, e: ScoredNode)
    requires e.pathLength > 0
  {
    e.node.key !in best || Normalized(e) > best[e.node.key]
  }

  predicate DistinctKeys(kids: seq<Node>) {
    forall i, j :: 0 <= i < j < |kids| ==> kids[i].key != kids[j].key
  }

  predicate DistinctEntryKeys(q: seq<ScoredNode>) {
    forall x, y :: 0 <= x < y < |q| ==> q[x].node.key != q[y].node.key
  }

  /**
    The inner `for (child in getChildrenNodes())` loop: the updated record
    and the entries offered to the queue, in the order of the children.
   */
  function Relax(kids: seq<Node>, total: int, len: nat, best: map<char, real>)
    : (r: (map<char, real>, seq<ScoredNode>))
    ensures forall x :: 0 <= x < |r.1| ==> r.1[x].node in kids && r.1[x] == Offer(r.1[x].node, total, len)
    ensures forall c :: c in best ==> c in r.0 && r.0[c] >= best[c]
    ensures DistinctKeys(kids) ==> DistinctEntryKeys(r.1)
    ensures DistinctKeys(kids) ==> forall i :: 0 <= i < |kids| ==>
      (Improves(best, Offer(kids[i], total, len)) <==> Offer(kids[i], total, len) in r.1)
  {
    if kids == [] then (best, [])
    else
      var e := Offer(kids[0], total, len);
      var taken := Improves(best, e);
      var best' := if taken then best[kids[0].key := Normalized(e)] else best;
      var rec := Relax(kids[1..], total, len, best');
      RelaxStep(kids, total, len, best, best', rec.1);
      if taken then (rec.0, [e] + rec.1) else rec
  }

  /** How one child's test extends the relaxation of the remaining children. */
  lemma RelaxStep(kids: seq<Node>, total: int, len: nat, best: map<char, real>, best': map<char, real>,
                  added: seq<ScoredNode>)
    requires kids != []
    requires best' == if Improves(best, Offer(kids[0], total, len))
      then best[kids[0].key := Normalized(Offer(kids[0], total, len))] else best
    requires forall x :: 0 <= x < |added| ==> added[x].node in kids[1..]
    requires DistinctKeys(kids[1..]) ==> DistinctEntryKeys(added)
    requires DistinctKeys(kids[1..]) ==> forall i :: 0 <= i < |kids[1..]| ==>
      (Improves(best', Offer(kids[1..][i], total, len)) <==> Offer(kids[1..][i], total, len) in added)
    ensures
      var e := Offer(kids[0], total, len);
      var r := if Improves(best, e) then [e] + added else added;
      && (DistinctKeys(kids) ==> DistinctEntryKeys(r))
      && (DistinctKeys(kids) ==> forall i :: 0 <= i < |kids| ==>
            (Improves(best, Offer(kids[i], total, len)) <==> Offer(kids[i], total, len) in r))
  {
    if DistinctKeys(kids) {
      var e := Offer(kids[0], total, len);
      assert DistinctKeys(kids[1..]);
      forall x | 0 <= x < |added| ensures added[x].node.key != kids[0].key {
        var j :| 0 <= j < |kids[1..]| && kids[1..][j] == added[x].node;
        assert kids[j + 1] == added[x].node;
      }
      forall i | 0 < i < |kids|
        ensures Improves(best, Offer(kids[i], total, len)) <==> Improves(best', Offer(kids[i], total, len))
        ensures Offer(kids[i], total, len) in added <==> Offer(kids[i], total, len) in ([e] + added)
      {
        assert kids[i].key != kids[0].key;
      }
      forall i | 0 < i < |kids|
        ensures Improves(best', Offer(kids[i], total, len)) <==> Offer(kids[i], total, len) in added
      {
        assert kids[i] == kids[1..][i - 1];
      }
      assert e !in added;
    }
  }

  /** The paths of every subtree hanging from a frontier entry. */
  ghost function FrontierPaths(q: seq<ScoredNode>): set<seq<char>> {
    set i, p | 0 <= i < |q| && p in Paths(q[i].node) :: p
  }

  lemma InFrontier(q: seq<ScoredNode>, i: nat, p: seq<char>)
    requires i < |q| && p in Paths(q[i].node)
    ensures p in FrontierPaths(q)
  {
  }

  ghost predicate DisjointSubtrees(q: seq<ScoredNode>) {
    forall i, j :: 0 <= i < j < |q| ==> Paths(q[i].node) !! Paths(q[j].node)
  }

  /**
    The loop invariant: frontier entries are nodes of the tree whose
    subtrees do not overlap, and every collected node is terminal, was
    collected once, and is no longer below any frontier entry.
   */
  ghost predicate SearchInv(root: Node, q: seq<ScoredNode>, result: seq<Node>) {
    && Valid(root)
    && (forall i :: 0 <= i < |q| ==> q[i].pathLength > 0 && q[i].node in Nodes(root))
    && DisjointSubtrees(q)
    && (forall k :: 0 <= k < |result| ==>
          result[k] in Nodes(root) && IsFinal(result[k]) && result[k].path !in FrontierPaths(q))
    && (forall k, l :: 0 <= k < l < |result| ==> result[k].path != result[l].path)
  }

  /** `q` without its `b`-th entry. */
  function Without(q: seq<ScoredNode>, b: nat): (r: seq<ScoredNode>)
    requires b < |q|
    ensures |r| == |q| - 1
    ensures forall i :: 0 <= i < |r| ==> r[i] == q[if i < b then i else i + 1]
  {
    q[..b] + q[b + 1..]
  }

  /** One iteration of the `while` loop: poll, collect if terminal, relax the children. */
  function Step(q: seq<ScoredNode>, best: map<char, real>, result: seq<Node>)
    : (r: (seq<ScoredNode>, map<char, real>, seq<Node>))
    requires q != [] && WellScored(q)
  {
    var e := q[PickBest(q)];
    var collected := if IsFinal(e.node) then result + [e.node] else result;
    var relaxed := Relax(OrderedChildNodes(e.node), e.totalScore, e.pathLength, best);
    (Without(q, PickBest(q)) + relaxed.1, relaxed.0, collected)
  }

  /** The entries offered for the children of `n` lie strictly below `n`, in disjoint subtrees. */
  lemma OfferedBelow(root: Node, n: Node, added: seq<ScoredNode>)
    requires Valid(root) && n in Nodes(root)
    requires forall x :: 0 <= x < |added| ==> added[x].node in n.children
    requires DistinctEntryKeys(added)
    ensures forall x :: 0 <= x < |added| ==>
      added[x].node in Nodes(root) && Paths(added[x].node) <= Paths(n) - {n.path}
    ensures DisjointSubtrees(added)
  {
    ValidDescendant(root, n);
    NodesTransitive(root, n);
    forall x | 0 <= x < |added|
      ensures added[x].node in Nodes(root) && Paths(added[x].node) <= Paths(n) - {n.path}
    {
      ChildPathsBelow(n, added[x].node);
    }
    forall x, y | 0 <= x < y < |added| ensures Paths(added[x].node) !! Paths(added[y].node) {
      ChildrenDisjoint(n, added[x].node, added[y].node);
    }
  }

  /** Polling entry `b` and offering entries below it removes exactly `b`'s path from the frontier. */
  lemma FrontierAfterPoll(q: seq<ScoredNode>, b: nat, added: seq<ScoredNode>)
    requires b < |q| && DisjointSubtrees(q) && DisjointSubtrees(added)
    requires forall x :: 0 <= x < |added| ==> Paths(added[x].node) <= Paths(q[b].node) - {q[b].node.path}
    ensures DisjointSubtrees(Without(q, b) + added)
    ensures FrontierPaths(Without(q, b) + added) <= FrontierPaths(q) - {q[b].node.path}
  {
    var rest := Without(q, b);
    var q' := rest + added;
    var n := q[b].node;
    forall p | p in FrontierPaths(q') ensures p in FrontierPaths(q) && p != n.path {
      var i :| 0 <= i < |q'| && p in Paths(q'[i].node);
      if i < |rest| {
        var j := if i < b then i else i + 1;
        assert q'[i] == q[j];
        InFrontier(q, j, p);
        if j < b {
          assert Paths(q[j].node) !! Paths(q[b].node);
        } else {
          assert Paths(q[b].node) !! Paths(q[j].node);
        }
        assert n.path in Paths(n);
      } else {
        assert q'[i] == added[i - |rest|];
        InFrontier(q, b, p);
      }
    }
    forall i, j | 0 <= i < j < |q'| ensures Paths(q'[i].node) !! Paths(q'[j].node) {
      if j < |rest| {
        var i0 := if i < b then i else i + 1;
        var j0 := if j < b then j else j + 1;
        assert q'[i] == q[i0] && q'[j] == q[j0];
      } else if i < |rest| {
        var i0 := if i < b then i else i + 1;
        assert q'[i] == q[i0];
        assert q'[j] == added[j - |rest|];
        if i0 < b {
          assert Paths(q[i0].node) !! Paths(q[b].node);
        } else {
          assert Paths(q[b].node) !! Paths(q[i0].node);
        }
      } else {
        assert q'[i] == added[i - |rest|] && q'[j] == added[j - |rest|];
      }
    }
  }

  lemma StepKeepsInv(root: Node, q: seq<ScoredNode>, best: map<char, real>, result: seq<Node>)
    requires q != [] && SearchInv(root, q, result)
    ensures WellScored(q)
    ensures SearchInv(root, Step(q, best, result).0, Step(q, best, result).2)
    ensures FrontierPaths(Step(q, best, result).0) < FrontierPaths(q)
    ensures |Step(q, best, result).2| >= |result| && Step(q, best, result).2[..|result|] == result
  {
    var b := PickBest(q);
    var n := q[b].node;
    var kids := OrderedChildNodes(n);
    var added := Relax(kids, q[b].totalScore, q[b].pathLength, best).1;
    var q' := Without(q, b) + added;
    var res := Step(q, best, result).2;
    assert q' == Step(q, best, result).0;
    ValidDescendant(root, n);
    assert DistinctKeys(kids);
    OfferedBelow(root, n, added);
    FrontierAfterPoll(q, b, added);
    assert n.path in Paths(n);
    InFrontier(q, b, n.path);
    assert forall x :: 0 <= x < |added| ==> added[x].pathLength > 0 && added[x].node in Nodes(root);
    EntriesAfterPoll(root, q, b, added);
    CollectKeepsResult(root, q, q', result, n, res);
  }

  /** Polling entry `b` and appending entries inside the tree keeps every entry inside the tree. */
  lemma EntriesAfterPoll(root: Node, q: seq<ScoredNode>, b: nat, added: seq<ScoredNode>)
    requires b < |q|
    requires forall i :: 0 <= i < |q| ==> q[i].pathLength > 0 && q[i].node in Nodes(root)
    requires forall x :: 0 <= x < |added| ==> added[x].pathLength > 0 && added[x].node in Nodes(root)
    ensures var q' := Without(q, b) + added;
      forall i :: 0 <= i < |q'| ==> q'[i].pathLength > 0 && q'[i].node in Nodes(root)
  {
    var q' := Without(q, b) + added;
    forall i | 0 <= i < |q'| ensures q'[i].pathLength > 0 && q'[i].node in Nodes(root) {
      if i < |Without(q, b)| {
        assert q'[i] == Without(q, b)[i];
      } else {
        assert q'[i] == added[i - |Without(q, b)|];
      }
    }
  }

  /**
    Collecting the polled node `n` (when terminal) keeps the collected
    nodes terminal, inside the tree, out of the shrunk frontier and with
    distinct paths.
   */
  lemma CollectKeepsResult(root: Node, q: seq<ScoredNode>, q': seq<ScoredNode>, result: seq<Node>, n: Node,
                           res: seq<Node>)
    requires forall k :: 0 <= k < |result| ==>
      result[k] in Nodes(root) && IsFinal(result[k]) && result[k].path !in FrontierPaths(q)
    requires forall k, l :: 0 <= k < l < |result| ==> result[k].path != result[l].path
    requires FrontierPaths(q') <= FrontierPaths(q) - {n.path}
    requires n.path in FrontierPaths(q) && n in Nodes(root)
    requires res == if IsFinal(n) then result + [n] else result
    ensures forall k :: 0 <= k < |res| ==>
      res[k] in Nodes(root) && IsFinal(res[k]) && res[k].path !in FrontierPaths(q')
    ensures forall k, l :: 0 <= k < l < |res| ==> res[k].path != res[l].path
    ensures |res| >= |result| && res[..|result|] == result
  {
    forall k | 0 <= k < |res| ensures res[k] in Nodes(root) && IsFinal(res[k]) && res[k].path !in FrontierPaths(q') {
      if k < |result| {
        assert res[k] == result[k];
      }
    }
    forall k, l | 0 <= k < l < |res| ensures res[k].path != res[l].path {
      if l >= |result| {
        assert res[k] == result[k];
      }
    }
  }

  /** The queue holding just the root, with nothing collected, satisfies the search invariant. */
  lemma InitialInv(root: Node)
    requires Valid(root)
    ensures SearchInv(root, [ScoredNode(root, root.selfScore, 1)], [])
  {
    assert root in Nodes(root);
  }

  /** The `while (queue.isNotEmpty())` loop. */
  function Explore(root: Node, q: seq<ScoredNode>, best: map<char, real>, result: seq<Node>): (r: seq<Node>)
    requires SearchInv(root, q, result)
    ensures |r| >= |result| && r[..|result|] == result
    ensures forall k :: 0 <= k < |r| ==> r[k] in Nodes(root) && IsFinal(r[k])
    ensures forall k, l :: 0 <= k < l < |r| ==> r[k].path != r[l].path
    decreases FrontierPaths(q)
  {
    if q == [] then result
    else
      StepKeepsInv(root, q, best, result);
      var s := Step(q, best, result);
      Explore(root, s.0, s.1, s.2)
  }

  /**
    `bestFirstSearch(root)`: the cached enumeration when the root's full
    path is the cached one, otherwise a fresh enumeration of terminal nodes
    of the root's subtree, each at most once, which becomes the new cache.
   */
  function BestFirstSearch(s: Searcher, root: Node): (r: (seq<Node>, Searcher))
    requires Valid(root)
    ensures s.bfsCachePath == CacheKey(root.path) && s.bfsResultCache.Some? ==>
      r.0 == s.bfsResultCache.value && r.1 == s
    ensures !(s.bfsCachePath == CacheKey(root.path) && s.bfsResultCache.Some?) ==>
      && r.1 == s.(bfsCachePath := CacheKey(root.path), bfsResultCache := Some(r.0))
      && (forall k :: 0 <= k < |r.0| ==> r.0[k] in Nodes(root) && IsFinal(r.0[k]))
      && (forall k, l :: 0 <= k < l < |r.0| ==> r.0[k].path != r.0[l].path)
      && (IsFinal(root) ==> r.0 != [] && r.0[0] == root)
  {
    var key := CacheKey(root.path);
    if s.bfsCachePath == key && s.bfsResultCache.Some? then (s.bfsResultCache.value, s)
    else
      var q := [ScoredNode(root, root.selfScore, 1)];
      var best := map[root.key := root.selfScore as real];
      InitialInv(root);
      StepKeepsInv(root, q, best, []);
      var st := Step(q, best, []);
      var result := Explore(root, st.0, st.1, st.2);
      (result, s.(bfsCachePath := key, bfsResultCache := Some(result)))
  }

  // ---------------------------------------------------------------------
  // Forward pages.

  /** `clamp(floor(0.3 * size), 1, 5)`: how many candidates one node contributes. */
  function TargetCount(size: int): int {
    Max(Min((3 * size) / 10, 5), 1)
  }

  /** `findCandidateByNodeWithLimit(node)`: the node's best few candidates. */
  function FindCandidateByNodeWithLimit(n: Node): (r: seq<string>)
    ensures |r| == Min(|n.candidates|, TargetCount(|n.candidates|))
    ensures forall i :: 0 <= i < |r| ==> r[i] == OrderedCandidates(n)[i]
    ensures IsFinal(n) <==> 1 <= |r| && |r| <= 5
  {
    GetPromoteCandidates(n, 0, TargetCount(|n.candidates|))
  }

  /** The details node `ni` contributes once its first `e` candidates are skipped. */
  function NodeDetails(nodes: seq<Node>, ni: nat, e: nat): (r: seq<CandidateDetail>)
    requires ni < |nodes|
    ensures |r| == Max(|FindCandidateByNodeWithLimit(nodes[ni])| - e, 0)
    ensures forall k :: 0 <= k < |r| ==>
      r[k] == CandidateDetail(FindCandidateByNodeWithLimit(nodes[ni])[e + k], nodes[ni].path, e + k, ni)
  {
    var cands := FindCandidateByNodeWithLimit(nodes[ni]);
    if e >= |cands| then []
    else seq(|cands| - e, k requires 0 <= k < |cands| - e => CandidateDetail(cands[e + k], nodes[ni].path, e + k, ni))
  }

  lemma NodeDetailsCons(nodes: seq<Node>, ni: nat, e: nat)
    requires ni < |nodes| && e < |FindCandidateByNodeWithLimit(nodes[ni])|
    ensures NodeDetails(nodes, ni, e) ==
      [CandidateDetail(FindCandidateByNodeWithLimit(nodes[ni])[e], nodes[ni].path, e, ni)] + NodeDetails(nodes, ni, e + 1)
  {
    var a := NodeDetails(nodes, ni, e);
    var b := NodeDetails(nodes, ni, e + 1);
    assert |a| == |b| + 1;
    forall k | 1 <= k < |a| ensures a[k] == b[k - 1] {
    }
  }

  /**
    The candidate stream a forward search reads from node `ni` on: each
    node's limited candidates from index `e` on, in enumeration order.
   */
  function Stream(nodes: seq<Node>, ni: nat, e: nat): seq<CandidateDetail>
    decreases |nodes| - ni
  {
    if ni >= |nodes| then [] else NodeDetails(nodes, ni, e) + Stream(nodes, ni + 1, e)
  }

  /** The inner `for (wi in extractedCandidate until size)` loop. */
  function Inner(nodes: seq<Node>, ni: nat, wi: nat, perPage: int, acc: seq<CandidateDetail>, hasNext: bool)
    : (r: (bool, seq<CandidateDetail>))
    requires ni < |nodes| && wi < |FindCandidateByNodeWithLimit(nodes[ni])|
    requires hasNext ==> |acc| >= perPage
    ensures var nd := NodeDetails(nodes, ni, wi);
      r.1 == acc + nd[..Min(Max(perPage - |acc|, 1), |nd|)]
    ensures r.0 <==> hasNext || |acc| + |NodeDetails(nodes, ni, wi)| >= perPage || |acc| >= perPage
    decreases |FindCandidateByNodeWithLimit(nodes[ni])| - wi
  {
    var cands := FindCandidateByNodeWithLimit(nodes[ni]);
    var d := CandidateDetail(cands[wi], nodes[ni].path, wi, ni);
    NodeDetailsCons(nodes, ni, wi);
    var rest := NodeDetails(nodes, ni, wi + 1);
    assert NodeDetails(nodes, ni, wi) == [d] + rest;
    if |acc| + 1 >= perPage then
      assert ([d] + rest)[..1] == [d];
      (true, acc + [d])
    else if wi + 1 < |cands| then
      var r := Inner(nodes, ni, wi + 1, perPage, acc + [d], hasNext);
      InnerCons(acc, d, rest, perPage, hasNext, r);
      r
    else
      assert rest == [];
      assert ([d] + rest)[..1] == [d];
      (hasNext, acc + [d])
  }

  /**
    One more entry `d` taken by the inner loop: a result for `acc + [d]`
    and the rest `nd` is the result for `acc` and `[d] + nd`.
   */
  lemma InnerCons<T>(acc: seq<T>, d: T, nd: seq<T>, perPage: int, hasNext: bool, r: (bool, seq<T>))
    requires |acc| + 1 < perPage && nd != []
    requires r.1 == (acc + [d]) + nd[..Min(Max(perPage - |acc + [d]|, 1), |nd|)]
    requires r.0 <==> hasNext || |acc + [d]| + |nd| >= perPage || |acc + [d]| >= perPage
    ensures r.1 == acc + ([d] + nd)[..Min(Max(perPage - |acc|, 1), |[d] + nd|)]
    ensures r.0 <==> hasNext || |acc| + |[d] + nd| >= perPage || |acc| >= perPage
  {
    var m := Min(perPage - |acc| - 1, |nd|);
    assert acc + ([d] + nd)[..m + 1] == (acc + [d]) + nd[..m];
  }

  /** The outer `for (ni in startNodeIndex until endNodeIndex)` loop. */
  function Outer(nodes: seq<Node>, ni: nat, e: int, perPage: int, acc: seq<CandidateDetail>, hasNext: bool)
    : (r: (bool, seq<CandidateDetail>))
    requires ni < |nodes| && |acc| < perPage ==> 0 <= e
    requires hasNext ==> |acc| >= perPage
    ensures 0 <= e ==>
      var st := Stream(nodes, ni, e);
      && r.1 == acc + st[..Min(Max(perPage - |acc|, 0), |st|)]
      && (r.0 <==> hasNext || (ni < |nodes| && |acc| + |st| >= perPage))
    ensures e < 0 ==> r == (hasNext || ni < |nodes|, acc)
    decreases |nodes| - ni
  {
    if ni >= |nodes| then (hasNext, acc)
    else
      var cands := FindCandidateByNodeWithLimit(nodes[ni]);
      if |acc| >= perPage then
        assert 0 <= e ==> acc + Stream(nodes, ni, e)[..0] == acc;
        (true, acc)
      else if e >= |cands| then
        var r := Outer(nodes, ni + 1, e, perPage, acc, hasNext);
        StreamSkipsExhausted(nodes, ni, e);
        r
      else
        var inner := Inner(nodes, ni, e, perPage, acc, hasNext);
        var r := Outer(nodes, ni + 1, e, perPage, inner.1, inner.0);
        OuterStep(nodes, ni, e, perPage, acc, hasNext, inner, r);
        r
  }

  /** A node with no candidates left from index `e` adds nothing to the stream. */
  lemma StreamSkipsExhausted(nodes: seq<Node>, ni: nat, e: nat)
    requires ni < |nodes| && e >= |FindCandidateByNodeWithLimit(nodes[ni])|
    ensures Stream(nodes, ni, e) == Stream(nodes, ni + 1, e)
  {
    assert NodeDetails(nodes, ni, e) == [];
  }

  lemma OuterStep(nodes: seq<Node>, ni: nat, e: nat, perPage: int, acc: seq<CandidateDetail>, hasNext: bool,
                  inner: (bool, seq<CandidateDetail>), r: (bool, seq<CandidateDetail>))
    requires ni < |nodes| && |acc| < perPage && e < |FindCandidateByNodeWithLimit(nodes[ni])|
    requires !hasNext
    requires inner.1 == acc + NodeDetails(nodes, ni, e)[..Min(Max(perPage - |acc|, 1), |NodeDetails(nodes, ni, e)|)]
    requires inner.0 <==> |acc| + |NodeDetails(nodes, ni, e)| >= perPage
    requires inner.0 ==> |inner.1| >= perPage
    requires
      var st := Stream(nodes, ni + 1, e);
      && r.1 == inner.1 + st[..Min(Max(perPage - |inner.1|, 0), |st|)]
      && (r.0 <==> inner.0 || (ni + 1 < |nodes| && |inner.1| + |st| >= perPage))
    ensures
      var st := Stream(nodes, ni, e);
      && r.1 == acc + st[..Min(Max(perPage - |acc|, 0), |st|)]
      && (r.0 <==> ni < |nodes| && |acc| + |st| >= perPage)
  {
    var nd := NodeDetails(nodes, ni, e);
    var tail := Stream(nodes, ni + 1, e);
    assert Stream(nodes, ni, e) == nd + tail;
    TakeAcross(acc, nd, tail, perPage, ni + 1 < |nodes|, inner, r);
  }

  /**
    Taking what fits of `nd` after `acc`, then what still fits of `tail`,
    takes what fits of `nd + tail` after `acc`; the page is full exactly
    when `acc`, `nd` and `tail` together reach the page size.
   */
  lemma TakeAcross<T>(acc: seq<T>, nd: seq<T>, tail: seq<T>, perPage: int, more: bool,
                      inner: (bool, seq<T>), r: (bool, seq<T>))
    requires |acc| < perPage
    requires inner.1 == acc + nd[..Min(Max(perPage - |acc|, 1), |nd|)]
    requires inner.0 <==> |acc| + |nd| >= perPage
    requires inner.0 ==> |inner.1| >= perPage
    requires !more ==> tail == []
    requires r.1 == inner.1 + tail[..Min(Max(perPage - |inner.1|, 0), |tail|)]
    requires r.0 <==> inner.0 || (more && |inner.1| + |tail| >= perPage)
    ensures r.1 == acc + (nd + tail)[..Min(Max(perPage - |acc|, 0), |nd + tail|)]
    ensures r.0 <==> |acc| + |nd + tail| >= perPage
  {
    var st := nd + tail;
    var room := perPage - |acc|;
    if room <= |nd| {
      assert inner.1 == acc + nd[..room];
      assert st[..room] == nd[..room];
    } else {
      assert inner.1 == acc + nd;
      var m := Min(room - |nd|, |tail|);
      assert st[..|nd| + m] == nd + tail[..m];
    }
  }

  /**
    `searchForCandidatesForward(start, nodes.size, extracted, perPage)`:
    the first `perPage` entries of the candidate stream from node `start`,
    and whether the page filled up (an exact fit counts as full).
   */
  function SearchForCandidatesForward(nodes: seq<Node>, start: int, extracted: int, perPage: int)
    : (r: (bool, seq<CandidateDetail>))
    requires 0 <= start
    requires start < |nodes| && perPage > 0 ==> 0 <= extracted
    ensures 0 <= extracted ==>
      var st := Stream(nodes, start, extracted);
      && r.1 == st[..Min(Max(perPage, 0), |st|)]
      && (r.0 <==> start < |nodes| && |st| >= perPage)
    ensures extracted < 0 ==> r == (start < |nodes|, [])
  {
    Outer(nodes, start, extracted, perPage, [], false)
  }

  /** What every detail of the stream is: the node, the index and the word it names. */
  lemma {:induction false} StreamShape(nodes: seq<Node>, ni: nat, e: nat)
    ensures forall k :: 0 <= k < |Stream(nodes, ni, e)| ==>
      var d := Stream(nodes, ni, e)[k];
      && ni <= d.nodeIndex < |nodes| && e <= d.wordIndex < |FindCandidateByNodeWithLimit(nodes[d.nodeIndex])|
      && d.word == FindCandidateByNodeWithLimit(nodes[d.nodeIndex])[d.wordIndex]
      && d.fullPath == nodes[d.nodeIndex].path
    ensures forall k, l :: 0 <= k < l < |Stream(nodes, ni, e)| ==>
      Before(Stream(nodes, ni, e)[k], Stream(nodes, ni, e)[l])
    decreases |nodes| - ni
  {
    if ni < |nodes| {
      StreamShape(nodes, ni + 1, e);
      var nd := NodeDetails(nodes, ni, e);
      var tail := Stream(nodes, ni + 1, e);
      assert Stream(nodes, ni, e) == nd + tail;
    }
  }

  /** Strictly earlier in `(nodeIndex, wordIndex)` order. */
  predicate Before(a: CandidateDetail, b: CandidateDetail) {
    a.nodeIndex < b.nodeIndex || (a.nodeIndex == b.nodeIndex && a.wordIndex < b.wordIndex)
  }

  /**
    A forward page holds at most `perPage` details; `hasNextPage` holds
    exactly when the page is full, an exact fit included.
   */
  lemma ForwardPageSize(nodes: seq<Node>, start: int, extracted: int, perPage: int)
    requires 0 <= start && 0 <= extracted
    ensures
      var r := SearchForCandidatesForward(nodes, start, extracted, perPage);
      && |r.1| <= Max(perPage, 0)
      && (r.0 <==> start < |nodes| && |r.1| == Max(perPage, 0))
  {
  }

  /**
    Every detail of a forward page names a node in `[start, nodes.size)`, a
    word index at least `extracted`, and the word and path found there.
   */
  lemma ForwardPageEntries(nodes: seq<Node>, start: int, extracted: int, perPage: int)
    requires 0 <= start && 0 <= extracted
    ensures
      var r := SearchForCandidatesForward(nodes, start, extracted, perPage);
      forall k :: 0 <= k < |r.1| ==>
        && start <= r.1[k].nodeIndex < |nodes|
        && extracted <= r.1[k].wordIndex < |FindCandidateByNodeWithLimit(nodes[r.1[k].nodeIndex])|
        && r.1[k].word == FindCandidateByNodeWithLimit(nodes[r.1[k].nodeIndex])[r.1[k].wordIndex]
        && r.1[k].fullPath == nodes[r.1[k].nodeIndex].path
  {
    StreamShape(nodes, start, extracted);
    var st := Stream(nodes, start, extracted);
    var r := SearchForCandidatesForward(nodes, start, extracted, perPage);
    assert r.1 == st[..Min(Max(perPage, 0), |st|)];
    forall k | 0 <= k < |r.1|
      ensures start <= r.1[k].nodeIndex < |nodes|
      ensures extracted <= r.1[k].wordIndex < |FindCandidateByNodeWithLimit(nodes[r.1[k].nodeIndex])|
      ensures r.1[k].word == FindCandidateByNodeWithLimit(nodes[r.1[k].nodeIndex])[r.1[k].wordIndex]
      ensures r.1[k].fullPath == nodes[r.1[k].nodeIndex].path
    {
      assert r.1[k] == st[k];
    }
  }

  /** The details of a forward page are ordered by `(nodeIndex, wordIndex)`. */
  lemma ForwardPageOrdered(nodes: seq<Node>, start: int, extracted: int, perPage: int)
    requires 0 <= start && 0 <= extracted
    ensures
      var r := SearchForCandidatesForward(nodes, start, extracted, perPage);
      forall k, l :: 0 <= k < l < |r.1| ==> Before(r.1[k], r.1[l])
  {
    StreamShape(nodes, start, extracted);
    var st := Stream(nodes, start, extracted);
    var r := SearchForCandidatesForward(nodes, start, extracted, perPage);
    assert r.1 == st[..Min(Max(perPage, 0), |st|)];
    forall k, l | 0 <= k < l < |r.1| ensures Before(r.1[k], r.1[l]) {
      assert r.1[k] == st[k] && r.1[l] == st[l];
    }
  }

  // ---------------------------------------------------------------------
  // Page cache.

  /**
    `getCurrentPageResult(state, perPage)`: a page not materialised yet is
    computed forward from the cursor and appended to the page cache;
    otherwise the cached page is replayed (a negative page reads page 0)
    or, if absent, the empty result is returned.
   */
  function GetCurrentPageResult(s: Searcher, state: NodeSearchState, perPage: int): (r: (CandidateResult, Searcher))
    requires state.currentSearchPage + 1 > |s.pageResultCache| ==>
      && s.bfsResultCache.Some?
      && 0 <= state.startNodeIndex
      && (state.startNodeIndex < |s.bfsResultCache.value| && perPage > 0 ==> 0 <= state.extractedCandidate)
    ensures state.currentSearchPage + 1 > |s.pageResultCache| ==>
      var fwd := SearchForCandidatesForward(s.bfsResultCache.value, state.startNodeIndex, state.extractedCandidate, perPage);
      && r.0 == CandidateResult(fwd.1, fwd.0, state.currentSearchPage)
      && r.1 == s.(pageResultCache := s.pageResultCache + [r.0])
    ensures state.currentSearchPage + 1 <= |s.pageResultCache| ==>
      var p := Max(state.currentSearchPage, 0);
      && r.1 == s
      && r.0 == (if p < |s.pageResultCache| then s.pageResultCache[p] else EmptyResult())
  {
    if state.currentSearchPage + 1 > |s.pageResultCache| then
      var fwd := SearchForCandidatesForward(s.bfsResultCache.value, state.startNodeIndex, state.extractedCandidate, perPage);
      var page := CandidateResult(fwd.1, fwd.0, state.currentSearchPage);
      (page, s.(pageResultCache := s.pageResultCache + [page]))
    else
      var p := Max(state.currentSearchPage, 0);
      (if |s.pageResultCache| > p then s.pageResultCache[p] else EmptyResult(), s)
  }

  /** Replaying a page never changes the searcher; requesting the next page grows the cache by one. */
  lemma PageCacheGrowsByOne(s: Searcher, state: NodeSearchState, perPage: int)
    requires state.currentSearchPage == |s.pageResultCache|
    requires s.bfsResultCache.Some? && 0 <= state.startNodeIndex && 0 <= state.extractedCandidate
    ensures
      var r := GetCurrentPageResult(s, state, perPage);
      && |r.1.pageResultCache| == |s.pageResultCache| + 1
      && r.1.pageResultCache[state.currentSearchPage] == r.0
      && GetCurrentPageResult(r.1, state, perPage) == r
  {
  }
}
