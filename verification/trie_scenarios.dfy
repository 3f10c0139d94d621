/**
  The seven-word tree of the trie tests and what the descent oracle reads
  from it before and after a promotion.

      root - 1 - 2 - 4 {a, b, c}
               |   \ 5 {d, e}
               \ 3 - 6 {f}
                   \ 7 {g}

  Every test starts from a fresh copy of this tree.
 */
module TrieScenarios {
  import opened Common
  import opened Ranking
  import opened Trie
  import opened TrieHelper
  import opened PathOptimizer

  // ---------------------------------------------------------------------
  // Reading the first child of a node with one or two children.

  /** A single child is the first node. */
  lemma FirstOfOne(n: Node)
    requires |n.children| == 1
    ensures GetFirstNode(n) == Some(n.children[0])
  {
    assert ChildKeys(n) == [n.children[0].key];
    assert GetChildNode(n, n.children[0].key) == Some(n.children[0]);
  }

  /** Of two children, the first stays first unless the second scores strictly higher. */
  lemma FirstOfTwo(n: Node)
    requires |n.children| == 2 && n.children[0].key != n.children[1].key
    ensures GetFirstNode(n) ==
      Some(if n.children[0].selfScore >= n.children[1].selfScore then n.children[0] else n.children[1])
  {
    var c0, c1 := n.children[0], n.children[1];
    assert ChildKeys(n) == [c0.key, c1.key];
    assert ChildIndex(n.children, c0.key) == 0;
    assert ChildIndex(n.children, c1.key) == 1 by {
      assert n.children[1..] == [c1];
    }
    assert GetChildrenScore(n, c0.key) == c0.selfScore;
    assert GetChildrenScore(n, c1.key) == c1.selfScore;
    SortPair(c0.key, c1.key, ChildRank(n));
    var ks := OrderedChildrenKeys(n);
    assert ks[0] == (if c0.selfScore >= c1.selfScore then c0.key else c1.key);
    var kids := OrderedChildNodes(n);
    assert kids[0] in n.children && kids[0].key == ks[0];
  }

  // ---------------------------------------------------------------------
  // The tree of the tests.

  function Leaf(key: char, path: seq<char>, words: seq<string>): Node {
    Node(key, path, [], words, map[], 0)
  }

  function Inner(key: char, path: seq<char>, kids: seq<Node>): Node {
    Node(key, path, kids, [], map[], 0)
  }

  function N124(): Node { Leaf('4', "124", ["a", "b", "c"]) }
  function N125(): Node { Leaf('5', "125", ["d", "e"]) }
  function N136(): Node { Leaf('6', "136", ["f"]) }
  function N137(): Node { Leaf('7', "137", ["g"]) }
  function N12(): Node { Inner('2', "12", [N124(), N125()]) }
  function N13(): Node { Inner('3', "13", [N136(), N137()]) }
  function N1(): Node { Inner('1', "1", [N12(), N13()]) }

  /** The tree of the test set-up: children and candidates in insertion order, all scores 0. */
  function TestTree(): Node {
    Node(RootKey, [], [N1()], [], map[], 0)
  }

  lemma LeavesValid()
    ensures Valid(N124()) && Valid(N125()) && Valid(N136()) && Valid(N137())
  {
    assert ChildKeys(N124()) == [];
    assert ChildKeys(N125()) == [];
    assert ChildKeys(N136()) == [];
    assert ChildKeys(N137()) == [];
  }

  /** An inner node over two well-formed children with distinct keys and extended paths is well-formed. */
  lemma InnerValid(key: char, path: seq<char>, a: Node, b: Node)
    requires Valid(a) && Valid(b) && a.key != b.key
    requires a.path == path + [a.key] && b.path == path + [b.key]
    ensures Valid(Inner(key, path, [a, b]))
  {
    assert ChildKeys(Inner(key, path, [a, b])) == [a.key, b.key];
  }

  lemma TestTreeValid()
    ensures Valid(TestTree())
  {
    LeavesValid();
    InnerValid('2', "12", N124(), N125());
    InnerValid('3', "13", N136(), N137());
    InnerValid('1', "1", N12(), N13());
    assert ChildKeys(TestTree()) == ['1'];
  }

  lemma LookupsBefore()
    ensures Lookup(TestTree(), "1") == Some(N1())
    ensures Lookup(TestTree(), "12") == Some(N12())
    ensures Lookup(TestTree(), "124") == Some(N124())
    ensures Lookup(TestTree(), "13") == Some(N13())
    ensures Lookup(TestTree(), "137") == Some(N137())
  {
    assert GetChildNode(TestTree(), '1') == Some(N1());
    assert GetChildNode(N1(), '2') == Some(N12());
    assert GetChildNode(N1(), '3') == Some(N13()) by {
      assert ChildIndex(N1().children, '3') == 1 by {
        assert N1().children[1..] == [N13()];
      }
    }
    assert GetChildNode(N12(), '4') == Some(N124());
    assert GetChildNode(N13(), '7') == Some(N137()) by {
      assert ChildIndex(N13().children, '7') == 1 by {
        assert N13().children[1..] == [N137()];
      }
    }
    assert Lookup(N124(), "") == Some(N124());
    assert Lookup(N137(), "") == Some(N137());
    assert "124"[1..] == "24" && "24"[1..] == "4" && "4"[1..] == "";
    assert "137"[1..] == "37" && "37"[1..] == "7" && "7"[1..] == "";
    assert "12"[1..] == "2" && "2"[1..] == "";
    assert "13"[1..] == "3" && "3"[1..] == "";
    assert "1"[1..] == "";
  }

  /** The descents of the unpromoted tree: `1` and `12` both end at `124`. */
  lemma DescentsBefore()
    ensures DescentOk(N1()) && Descend(N1()) == N124()
    ensures DescentOk(N12()) && Descend(N12()) == N124()
    ensures DescentOk(N124()) && Descend(N124()) == N124()
  {
    FirstOfTwo(N12());
    FirstOfTwo(N1());
  }

  /** With every score 0, ties keep insertion order: `[a, b, c]`. */
  lemma OrderedBefore()
    ensures OrderedCandidates(N124()) == ["a", "b", "c"]
  {
    var f := CandidateRank(N124());
    SortTriple("a", "b", "c", f);
    SortPair("b", "c", f);
    assert Insert("a", ["b", "c"], f) == ["a", "b", "c"];
  }

  /** Before any promotion, "1", "12" and "124" all list `[a, b, c]` (`testGetCandidateList`). */
  lemma CandidateListsBeforePromotion()
    ensures ListOk("1", TestTree(), 0) && GetCandidateList("1", TestTree(), 0, 20) == ["a", "b", "c"]
    ensures ListOk("12", TestTree(), 0) && GetCandidateList("12", TestTree(), 0, 20) == ["a", "b", "c"]
    ensures ListOk("124", TestTree(), 0) && GetCandidateList("124", TestTree(), 0, 20) == ["a", "b", "c"]
  {
    LookupsBefore();
    DescentsBefore();
    OrderedBefore();
    CandidateListAt("1", TestTree(), N1(), N124());
    CandidateListAt("12", TestTree(), N12(), N124());
    CandidateListAt("124", TestTree(), N124(), N124());
  }

  /** The list for a resolved path whose descent ends at a terminal node with at most 20 words. */
  lemma CandidateListAt(path: seq<char>, root: Node, n: Node, d: Node)
    requires path != [] && Lookup(root, path) == Some(n)
    requires DescentOk(n) && Descend(n) == d && IsFinal(d) && |d.candidates| <= 20
    ensures ListOk(path, root, 0) && GetCandidateList(path, root, 0, 20) == OrderedCandidates(d)
  {
    var r := GetCandidateList(path, root, 0, 20);
    assert |r| == |OrderedCandidates(d)|;
  }

  // ---------------------------------------------------------------------
  // `promoteUsedPath("124", root, "b")`.

  function N124B(): Node { N124().(candidateScores := map["b" := 1], selfScore := 1) }
  function N12B(): Node { N12().(children := [N124B(), N125()], selfScore := 1) }
  function N1B(): Node { N1().(children := [N12B(), N13()], selfScore := 1) }
  function TreeAfterB(): Node { TestTree().(children := [N1B()]) }

  lemma PromoteBLevels()
    ensures Promote(N124(), "", "b") == N124B().(selfScore := 0)
    ensures Promote(N12(), "4", "b") == N12B().(selfScore := 0)
    ensures Promote(N1(), "24", "b") == N1B().(selfScore := 0)
    ensures Promote(TestTree(), "124", "b") == TreeAfterB()
  {
    assert Promote(N124(), "", "b") == N124B().(selfScore := 0);
    PromoteStep(N12(), "4", "b", 0, N124B().(selfScore := 0));
    assert N12().children[0 := N124B()] == N12B().children;
    PromoteStep(N1(), "24", "b", 0, N12B().(selfScore := 0));
    assert N1().children[0 := N12B()] == N1B().children;
    PromoteStep(TestTree(), "124", "b", 0, N1B().(selfScore := 0));
  }

  /**
    One level of the promotion when the path's first symbol names child
    `i` of a non-terminal node: that child is replaced by its promotion,
    with its own score raised by one.
   */
  lemma PromoteStep(n: Node, path: seq<char>, word: string, i: nat, c: Node)
    requires path != [] && i < |n.children| && n.children[i].key == path[0] && IsNotFinal(n)
    requires forall j :: 0 <= j < i ==> n.children[j].key != path[0]
    requires Promote(n.children[i], path[1..], word) == c
    ensures Promote(n, path, word) == n.(children := n.children[i := c.(selfScore := c.selfScore + 1)])
  {
    assert c.key == path[0];
    ChildIndexAt(n.children, path[0], i);
    PromoteUnfold(n, path, word, i, c);
    ReplacePromoted(n, i, c);
  }

  /** Replacing child `i` by `c` and promoting the edge to it raises `c`'s own score by one. */
  lemma ReplacePromoted(n: Node, i: nat, c: Node)
    requires i < |n.children| && c.key == n.children[i].key && ChildIndex(n.children, c.key) == i
    ensures PromoteChild(ReplaceChild(n, i, c), c.key) ==
      n.(children := n.children[i := c.(selfScore := c.selfScore + 1)])
  {
    var m := ReplaceChild(n, i, c);
    assert m.children[i] == c;
    ChildIndexSameKeys(m.children, n.children, c.key);
    PromoteChildAt(m, i);
    var c' := c.(selfScore := c.selfScore + 1);
    assert m.children[i := c'] == n.children[i := c'];
  }

  /** Promoting the edge to the first child with its key raises exactly that child's own score. */
  lemma PromoteChildAt(m: Node, i: nat)
    requires i < |m.children| && ChildIndex(m.children, m.children[i].key) == i
    ensures PromoteChild(m, m.children[i].key) ==
      ReplaceChild(m, i, m.children[i].(selfScore := m.children[i].selfScore + 1))
  {
    var k := m.children[i].key;
    ChildIndexFound(m, k);
    assert GetChildrenScore(m, k) == m.children[i].selfScore;
  }

  /** The first child with key `c` sits at `i`. */
  lemma {:induction false} ChildIndexAt(cs: seq<Node>, c: char, i: nat)
    requires i < |cs| && cs[i].key == c && forall j :: 0 <= j < i ==> cs[j].key != c
    ensures ChildIndex(cs, c) == i
  {
    if i > 0 {
      ChildIndexAt(cs[1..], c, i - 1);
    }
  }

  /** One unfolding of the promotion through a non-terminal node. */
  lemma PromoteUnfold(n: Node, path: seq<char>, word: string, i: nat, c: Node)
    requires path != [] && i < |n.children| && ChildIndex(n.children, path[0]) == i && IsNotFinal(n)
    requires Promote(n.children[i], path[1..], word) == c
    ensures Promote(n, path, word) == PromoteChild(ReplaceChild(n, i, c), path[0])
  {
  }

  lemma LookupsAfterB()
    ensures Lookup(TreeAfterB(), "1") == Some(N1B())
    ensures Lookup(TreeAfterB(), "12") == Some(N12B())
    ensures Lookup(TreeAfterB(), "124") == Some(N124B())
  {
    assert GetChildNode(TreeAfterB(), '1') == Some(N1B());
    assert GetChildNode(N1B(), '2') == Some(N12B());
    assert GetChildNode(N12B(), '4') == Some(N124B());
    assert Lookup(N124B(), "") == Some(N124B());
    assert "124"[1..] == "24" && "24"[1..] == "4" && "4"[1..] == "";
    assert "12"[1..] == "2" && "2"[1..] == "";
    assert "1"[1..] == "";
  }

  lemma DescentsAfterB()
    ensures DescentOk(N1B()) && Descend(N1B()) == N124B()
    ensures DescentOk(N12B()) && Descend(N12B()) == N124B()
    ensures DescentOk(N124B()) && Descend(N124B()) == N124B()
  {
    FirstOfTwo(N12B());
    FirstOfTwo(N1B());
  }

  /** `b` now scores 1 and the others 0: `[b, a, c]`. */
  lemma OrderedAfterB()
    ensures OrderedCandidates(N124B()) == ["b", "a", "c"]
  {
    var f := CandidateRank(N124B());
    assert f("a") == 0 && f("b") == 1 && f("c") == 0;
    SortTriple("a", "b", "c", f);
    SortPair("b", "c", f);
    assert Insert("a", ["c"], f) == ["a", "c"];
    assert Insert("a", ["b", "c"], f) == ["b", "a", "c"];
  }

  /**
    After promoting `b` on path "124", "124", "12" and "1" all list
    `[b, a, c]` (`testPromoteUsedPath`).
   */
  lemma CandidateListsAfterPromotingB()
    ensures PromoteUsedPath("124", TestTree(), 0, "b") == TreeAfterB()
    ensures var t := TreeAfterB();
      && ListOk("124", t, 0) && GetCandidateList("124", t, 0, 20) == ["b", "a", "c"]
      && ListOk("12", t, 0) && GetCandidateList("12", t, 0, 20) == ["b", "a", "c"]
      && ListOk("1", t, 0) && GetCandidateList("1", t, 0, 20) == ["b", "a", "c"]
  {
    PromoteBLevels();
    LookupsAfterB();
    DescentsAfterB();
    OrderedAfterB();
    CandidateListAt("124", TreeAfterB(), N124B(), N124B());
    CandidateListAt("12", TreeAfterB(), N12B(), N124B());
    CandidateListAt("1", TreeAfterB(), N1B(), N124B());
  }

  // ---------------------------------------------------------------------
  // `promoteUsedPath("137", root, "g")`.

  function N137G(): Node { N137().(candidateScores := map["g" := 1], selfScore := 1) }
  function N13G(): Node { N13().(children := [N136(), N137G()], selfScore := 1) }
  function N1G(): Node { N1().(children := [N12(), N13G()], selfScore := 1) }
  function TreeAfterG(): Node { TestTree().(children := [N1G()]) }

  /** Putting the promoted child back into each level gives the expected node. */
  lemma ReplacedLevels()
    ensures N13().(children := N13().children[1 := N137G()]) == N13G().(selfScore := 0)
    ensures N1().(children := N1().children[1 := N13G()]) == N1G().(selfScore := 0)
    ensures TestTree().(children := TestTree().children[0 := N1G()]) == TreeAfterG()
  {
  }

  // The levels take the tree as a parameter equal to the literal one, so
  // that the solver does not unfold `Promote` on constant arguments.

  lemma PromoteG13(n: Node)
    requires n == N13()
    ensures Promote(n, "7", "g") == N13G().(selfScore := 0)
  {
    var c := N137G().(selfScore := 0);
    assert Promote(N137(), "", "g") == c;
    assert "7"[1..] == "" && n.children[1] == N137();
    PromoteStep(n, "7", "g", 1, c);
    assert c.(selfScore := c.selfScore + 1) == N137G();
    ReplacedLevels();
  }

  lemma PromoteG1(n: Node)
    requires n == N1()
    ensures Promote(n, "37", "g") == N1G().(selfScore := 0)
  {
    var c := N13G().(selfScore := 0);
    PromoteG13(n.children[1]);
    assert "37"[1..] == "7";
    PromoteStep(n, "37", "g", 1, c);
    assert c.(selfScore := c.selfScore + 1) == N13G();
    ReplacedLevels();
  }

  lemma PromoteGLevels()
    ensures Promote(TestTree(), "137", "g") == TreeAfterG()
  {
    var t := TestTree();
    var c := N1G().(selfScore := 0);
    PromoteG1(t.children[0]);
    assert "137"[1..] == "37";
    PromoteStep(t, "137", "g", 0, c);
    assert c.(selfScore := c.selfScore + 1) == N1G();
    ReplacedLevels();
  }

  lemma LookupsAfterG()
    ensures Lookup(TreeAfterG(), "1") == Some(N1G())
    ensures Lookup(TreeAfterG(), "13") == Some(N13G())
    ensures Lookup(TreeAfterG(), "137") == Some(N137G())
  {
    assert GetChildNode(TreeAfterG(), '1') == Some(N1G());
    assert GetChildNode(N1G(), '3') == Some(N13G()) by {
      assert ChildIndex(N1G().children, '3') == 1 by {
        assert N1G().children[1..] == [N13G()];
      }
    }
    assert GetChildNode(N13G(), '7') == Some(N137G()) by {
      assert ChildIndex(N13G().children, '7') == 1 by {
        assert N13G().children[1..] == [N137G()];
      }
    }
    assert Lookup(N137G(), "") == Some(N137G());
    assert "137"[1..] == "37" && "37"[1..] == "7" && "7"[1..] == "";
    assert "13"[1..] == "3" && "3"[1..] == "";
    assert "1"[1..] == "";
  }

  /** The promoted edges now outrank their earlier siblings: `1` and `13` descend to `137`. */
  lemma DescentsAfterG()
    ensures DescentOk(N1G()) && Descend(N1G()) == N137G()
    ensures DescentOk(N13G()) && Descend(N13G()) == N137G()
    ensures DescentOk(N137G()) && Descend(N137G()) == N137G()
  {
    FirstOfTwo(N13G());
    FirstOfTwo(N1G());
  }

  lemma OrderedAfterG()
    ensures OrderedCandidates(N137G()) == ["g"]
  {
    assert ["g"][1..] == [];
  }

  /**
    After promoting `g` on path "137" in a fresh tree, "137", "13" and "1"
    all list `[g]` (`testPromotePath`).
   */
  lemma CandidateListsAfterPromotingG()
    ensures PromoteUsedPath("137", TestTree(), 0, "g") == TreeAfterG()
    ensures var t := TreeAfterG();
      && ListOk("137", t, 0) && GetCandidateList("137", t, 0, 20) == ["g"]
      && ListOk("13", t, 0) && GetCandidateList("13", t, 0, 20) == ["g"]
      && ListOk("1", t, 0) && GetCandidateList("1", t, 0, 20) == ["g"]
  {
    PromoteGLevels();
    LookupsAfterG();
    DescentsAfterG();
    OrderedAfterG();
    CandidateListAt("137", TreeAfterG(), N137G(), N137G());
    CandidateListAt("13", TreeAfterG(), N13G(), N137G());
    CandidateListAt("1", TreeAfterG(), N1G(), N137G());
  }
}
