/**
  The query wrapper around the associative tree
  (`InputMethodAssociativeWordManager`): after the trigram tree has been
  loaded, the last one or two typed characters are looked up and the
  ranked next characters are returned.

  Loading runs in the background in the original; here its outcome is a
  parameter, and readiness is the `isReady` flag.
 */
module AssociativeManager {
  import opened Common
  import opened Ranking
  import opened Associative

  datatype Manager = Manager(trigramRoot: Option<ANode>, isReady: bool)

  /** A freshly constructed manager, before the background load has finished. */
  function NewManager(): (m: Manager)
    ensures !IsManagerReady(m) && Ready(m)
  {
    Manager(None, false)
  }

  /** `isManagerReady()`. */
  predicate IsManagerReady(m: Manager) { m.isReady }

  /** The flag is only raised together with a loaded tree. */
  predicate Ready(m: Manager) { m.isReady ==> m.trigramRoot.Some? }

  /**
    The end of `loadTrigramDataInBackground`: a manager that is already
    ready is left alone; otherwise the loaded tree (or null) is stored and
    the manager becomes ready exactly when a tree was loaded.
   */
  function FinishLoading(m: Manager, loaded: Option<ANode>): (r: Manager)
    ensures IsManagerReady(m) ==> r == m
    ensures !IsManagerReady(m) ==> r.trigramRoot == loaded && (IsManagerReady(r) <==> loaded.Some?)
    ensures Ready(m) ==> Ready(r)
  {
    if m.isReady then m else Manager(loaded, loaded.Some?)
  }

  /** `inputString.takeLast(2)` when the input is longer than two chars. */
  function LastTwo(input: seq<char>): (r: seq<char>)
    ensures |input| <= 2 ==> r == input
    ensures |input| > 2 ==> |r| == 2 && input == input[..|input| - 2] + r
  {
    if |input| > 2 then input[|input| - 2..] else input
  }

  /**
    `getAssociativeWords(input)`: empty while not ready, for empty input or
    without a tree; otherwise the tree's candidate words for the last (at
    most) two chars. The read may fill a cache in the tree, which is kept.
   */
  function GetAssociativeWords(m: Manager, input: seq<char>): (r: (Manager, seq<char>))
    ensures !IsManagerReady(m) || input == [] || m.trigramRoot.None? ==> r == (m, [])
    ensures IsManagerReady(m) && input != [] && m.trigramRoot.Some? ==>
      var root := m.trigramRoot.value;
      && r.0.isReady && r.0.trigramRoot.Some?
      && Erase(r.0.trigramRoot.value) == Erase(root)
      && (Walk(root, LastTwo(input)).None? ==> r.1 == [])
      && (Walk(root, LastTwo(input)).Some? ==>
            r.1 == GetSortedChildrenKeys(Walk(root, LastTwo(input)).value).1)
    ensures Ready(m) ==> Ready(r.0)
  {
    if !m.isReady || input == [] then (m, [])
    else match m.trigramRoot
      case None => (m, [])
      case Some(root) =>
        var (root', ks) := GetCandidateWords(root, LastTwo(input));
        (m.(trigramRoot := Some(root')), ks)
  }

  /** Only the last two chars of a longer input matter. */
  lemma LongInputUsesLastTwo(m: Manager, input: seq<char>)
    requires |input| > 2
    ensures GetAssociativeWords(m, input) == GetAssociativeWords(m, input[|input| - 2..])
  {
  }

  /**
    With a well-formed tree whose caches are fresh, the suggestions are the
    child keys of the node reached, each once, best score first.
   */
  lemma SuggestionsRanked(m: Manager, input: seq<char>)
    requires IsManagerReady(m) && input != [] && m.trigramRoot.Some?
    requires Valid(m.trigramRoot.value) && AllFresh(m.trigramRoot.value)
    ensures var root := m.trigramRoot.value;
      var ks := GetAssociativeWords(m, input).1;
      match Walk(root, LastTwo(input))
      case None => ks == []
      case Some(node) =>
        && multiset(ks) == multiset(Keys(node)) && Distinct(ks)
        && Descending(ks, ChildScore(node))
  {
    var root := m.trigramRoot.value;
    if Walk(root, LastTwo(input)).Some? {
      CandidateWordsRanked(root, LastTwo(input));
    }
  }
}
