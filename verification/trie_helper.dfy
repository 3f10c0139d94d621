/**
  The test oracle of the trie tests (`TrieHelper.getCandidateList`):
  resolve a path, then keep stepping to the top-ranked child until a
  terminal node is reached, and list a window of its ordered candidates.
 */
module TrieHelper {
  import opened Common
  import opened Trie

  /**
    The descent from `n` reaches a terminal node: no non-terminal node on
    the way lacks a child (the original would dereference null there).
   */
  predicate DescentOk(n: Node)
    decreases n
  {
    IsFinal(n) ||
    match GetFirstNode(n)
    case None => false
    case Some(c) => DescentOk(c)
  }

  /** `while (node.isNotFinalNode()) node = node.getFirstNode()`. */
  function Descend(n: Node): (r: Node)
    requires DescentOk(n)
    ensures IsFinal(r) && r in Nodes(n)
    ensures IsFinal(n) ==> r == n
    decreases n
  {
    if IsFinal(n) then n
    else
      var c := GetFirstNode(n).value;
      ChildInNodes(n, c);
      Descend(c)
  }

  lemma ChildInNodes(n: Node, c: Node)
    requires c in n.children
    ensures Nodes(c) <= Nodes(n)
  {
    var i :| 0 <= i < |n.children| && n.children[i] == c;
    ChildNodesIncluded(n, i);
  }

  /** Every step of the descent goes to a child of maximal score. */
  lemma {:induction false} DescentFollowsBestChild(n: Node)
    requires Valid(n) && DescentOk(n) && !IsFinal(n)
    ensures GetFirstNode(n).Some?
    ensures forall c :: c in n.children ==> c.selfScore <= GetFirstNode(n).value.selfScore
    ensures Descend(n) == Descend(GetFirstNode(n).value)
  {
  }

  /** What `getPromoteCandidates(index, ...)` needs at the terminal node reached. */
  predicate ListOk(path: seq<char>, node: Node, index: int) {
    path != [] && Lookup(node, path).Some? ==>
      DescentOk(Lookup(node, path).value) &&
      (index < |Descend(Lookup(node, path).value).candidates| ==> 0 <= index)
  }

  /**
    `getCandidateList(path, node, index, limit)`: empty for an empty or
    unresolved path; otherwise a window of the ordered candidates of the
    terminal node the descent reaches, which lies in the resolved subtree.
   */
  function GetCandidateList(path: seq<char>, node: Node, index: int, limit: int): (r: seq<string>)
    requires ListOk(path, node, index)
    ensures path == [] || Lookup(node, path).None? ==> r == []
    ensures path != [] && Lookup(node, path).Some? ==>
      var d := Descend(Lookup(node, path).value);
      d in Nodes(Lookup(node, path).value) && IsFinal(d) && WindowOf(d, index, limit, r)
  {
    if path == [] then []
    else match Lookup(node, path)
      case None => []
      case Some(n) => GetPromoteCandidates(Descend(n), index, limit)
  }

  /** With the default window `(0, 20)`, a terminal node's own ordered candidates come back. */
  lemma TerminalListsItself(path: seq<char>, node: Node)
    requires path != [] && Lookup(node, path).Some? && IsFinal(Lookup(node, path).value)
    requires |Lookup(node, path).value.candidates| <= 20
    ensures ListOk(path, node, 0)
    ensures GetCandidateList(path, node, 0, 20) == OrderedCandidates(Lookup(node, path).value)
  {
    var n := Lookup(node, path).value;
    var r := GetCandidateList(path, node, 0, 20);
    assert |r| == |OrderedCandidates(n)|;
  }
}
