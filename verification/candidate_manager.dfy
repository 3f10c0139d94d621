/**
  The session cursor of the main input method
  (`InputMethodCandidateManager`): it resolves the typed code to a node,
  reports the symbols that may follow, and pages through that node's
  candidates with a current and a next cursor.

  The manager is a mutable object in the original; here it is a record and
  every operation returns the updated record.
 */
module CandidateManager {
  import opened Common
  import opened Trie
  import opened CandidateClass
  import opened PathSearcher
  import opened CandidateProvider

  datatype Session = Session(
    root: Node,
    config: PageConfigure,
    provider: Provider,
    currentNode: Option<Node>,
    currentState: NodeSearchState,
    nextState: NodeSearchState,
    hasNextPage: bool)

  /** A manager over `root`: no node resolved yet, both cursors reset. */
  function NewSession(root: Node, config: PageConfigure): (s: Session)
    requires Valid(root) && config.perPageSize >= 0
    ensures SessionInv(s) && s.currentNode.None?
  {
    Session(root, config, NewProvider(), None, DefaultSearchState(), DefaultSearchState(), false)
  }

  // ---------------------------------------------------------------------
  // The invariant the cursor keeps.

  /** A cursor with no negative field. */
  predicate StateOk(st: NodeSearchState) {
    st.startNodeIndex >= 0 && st.extractedCandidate >= 0 && st.currentSearchPage >= 0
  }

  /** Every detail of a page carries a non-negative word index. */
  predicate IndicesOk(ds: seq<CandidateDetail>) {
    forall k :: 0 <= k < |ds| ==> ds[k].wordIndex >= 0
  }

  /** Cached pages have non-negative numbers and word indices. */
  predicate CacheOk(cache: seq<CandidateResult>) {
    forall i :: 0 <= i < |cache| ==> cache[i].currentPage >= 0 && IndicesOk(cache[i].candidates)
  }

  /**
    What holds between any two calls: the tree and the resolved node are
    well formed, the page size is not negative, and neither cursor nor any
    cached page holds a negative field.
   */
  ghost predicate SessionInv(s: Session) {
    && Valid(s.root)
    && s.config.perPageSize >= 0
    && (s.currentNode.Some? ==> Valid(s.currentNode.value))
    && StateOk(s.currentState) && StateOk(s.nextState)
    && CacheOk(s.provider.searcher.pageResultCache)
  }

  /**
    The page cache lines up with page numbers: cached page `i` is page `i`
    and, for a searched node, the cursor points at a cached page or at the
    first one not cached yet. `setInput` establishes it and reading the
    current page keeps it; a next page requested straight after
    `setInput`, from the cursor left by the previous input, does not.
   */
  ghost predicate Aligned(s: Session) {
    && (forall i :: 0 <= i < |s.provider.searcher.pageResultCache| ==>
          s.provider.searcher.pageResultCache[i].currentPage == i)
    && (s.currentNode.Some? && !IsPureLeaf(s.currentNode.value) ==>
          s.currentState.currentSearchPage <= |s.provider.searcher.pageResultCache|)
  }

  // ---------------------------------------------------------------------
  // Input.

  /**
    `setInput(input)`: resolves the input, resets the cursor and clears the
    provider; reports `['*']` for a terminal node (children or not), the
    ranked child symbols for a non-terminal node, and nothing for an
    unresolved input.
   */
  function SetInput(s: Session, input: seq<char>): (r: (Option<seq<char>>, Session))
    requires SessionInv(s)
    ensures SessionInv(r.1)
    ensures r.1.currentNode == Lookup(s.root, input)
    ensures r.1.currentState == DefaultSearchState()
    ensures r.1.provider == CandidateProvider.ClearCache(s.provider)
    ensures r.1.root == s.root && r.1.config == s.config
    ensures r.0.None? <==> Lookup(s.root, input).None?
    ensures Lookup(s.root, input).Some? && IsFinal(Lookup(s.root, input).value) ==> r.0 == Some(['*'])
    ensures Lookup(s.root, input).Some? && !IsFinal(Lookup(s.root, input).value) ==>
      r.0 == Some(OrderedChildrenKeys(Lookup(s.root, input).value))
  {
    var node := Lookup(s.root, input);
    var s' := s.(currentNode := node, currentState := DefaultSearchState(),
                 provider := CandidateProvider.ClearCache(s.provider));
    match node
    case None => (None, s')
    case Some(n) => (if IsFinal(n) then Some(['*']) else Some(OrderedChildrenKeys(n)), s')
  }

  /** `getCurrentNodeFullPath()`: the resolved node's full path, empty when nothing is resolved. */
  function CurrentNodeFullPath(s: Session): (r: seq<char>)
    requires SessionInv(s)
    ensures s.currentNode.None? ==> r == []
    ensures s.currentNode.Some? ==> r == s.currentNode.value.path
  {
    match s.currentNode
    case None => []
    case Some(n) => GetFullPath(n)
  }

  /** After `setInput(input)` resolves, the full path is the root's path followed by the input. */
  lemma SetInputFullPath(s: Session, input: seq<char>)
    requires SessionInv(s) && Lookup(s.root, input).Some?
    ensures CurrentNodeFullPath(SetInput(s, input).1) == s.root.path + input
  {
  }

  // ---------------------------------------------------------------------
  // Paging.

  /**
    `getCurrentPageCandidatesFullInformation()`: the page under the current
    cursor, from the provider; the next cursor keeps the start node,
    resumes one past the last word index shown (1 after an empty page),
    and points at the following page. With nothing resolved the empty
    result comes back and nothing changes.
   */
  function CurrentPageFull(s: Session): (r: (CandidateResult, Session))
    requires SessionInv(s)
    ensures SessionInv(r.1)
    ensures s.currentNode.None? ==> r == (EmptyResult(), s)
    ensures s.currentNode.Some? ==>
      var res := GetCandidates(s.provider, s.currentNode.value, s.currentState, s.config);
      && r.0 == res.0
      && r.1 == s.(provider := res.1, hasNextPage := res.0.hasNextPage,
                   nextState := NextCursor(s.currentState, res.0))
  {
    match s.currentNode
    case None => (EmptyResult(), s)
    case Some(node) =>
      CallOk(s);
      PageShape(s);
      var res := GetCandidates(s.provider, node, s.currentState, s.config);
      AfterPageInv(s, res.0, res.1);
      var s' := s.(provider := res.1, hasNextPage := res.0.hasNextPage,
                   nextState := NextCursor(s.currentState, res.0));
      (res.0, s')
  }

  /** Under the invariant the provider may be asked for the cursor's page. */
  lemma CallOk(s: Session)
    requires SessionInv(s) && s.currentNode.Some?
    ensures DirectPageOk(s.currentNode.value, s.currentState.currentSearchPage, s.config.perPageSize)
    ensures 0 <= s.currentState.startNodeIndex && 0 <= s.currentState.extractedCandidate
  {
    var page, pp := s.currentState.currentSearchPage, s.config.perPageSize;
    assert 0 <= page * pp by {
      if 0 < pp {
        assert page * pp >= page * 0;
      }
    }
  }

  /** Storing a well-formed page and provider keeps the invariant. */
  lemma AfterPageInv(s: Session, page: CandidateResult, p: Provider)
    requires SessionInv(s)
    requires page.currentPage >= 0 && IndicesOk(page.candidates) && CacheOk(p.searcher.pageResultCache)
    ensures SessionInv(s.(provider := p, hasNextPage := page.hasNextPage,
                          nextState := NextCursor(s.currentState, page)))
  {
  }

  /**
    The next cursor after showing `page` from cursor `st`: the same start
    node, one past the last word index shown (1 after an empty page), and
    the following page number; never negative when its inputs are not.
   */
  function NextCursor(st: NodeSearchState, page: CandidateResult): (r: NodeSearchState)
    ensures r.startNodeIndex == st.startNodeIndex && r.currentSearchPage == page.currentPage + 1
    ensures page.candidates == [] ==> r.extractedCandidate == 1
    ensures page.candidates != [] ==> r.extractedCandidate == page.candidates[|page.candidates| - 1].wordIndex + 1
    ensures StateOk(st) && page.currentPage >= 0 && IndicesOk(page.candidates) ==> StateOk(r)
  {
    var last := if page.candidates == [] then 0 else page.candidates[|page.candidates| - 1].wordIndex;
    NodeSearchState(st.startNodeIndex, last + 1, page.currentPage + 1)
  }

  /**
    The page the provider hands back under the invariant: neither its number
    nor its word indices are negative; a pure leaf leaves the provider
    alone.
   */
  lemma PageShape(s: Session)
    requires SessionInv(s) && s.currentNode.Some?
    ensures
      var res := GetCandidates(s.provider, s.currentNode.value, s.currentState, s.config);
      && res.0.currentPage >= 0
      && IndicesOk(res.0.candidates)
      && CacheOk(res.1.searcher.pageResultCache)
      && (IsPureLeaf(s.currentNode.value) ==> res.1 == s.provider)
  {
    var node := s.currentNode.value;
    var st := s.currentState;
    var res := GetCandidates(s.provider, node, st, s.config);
    var cache := s.provider.searcher.pageResultCache;
    if !IsPureLeaf(node) {
      if st.currentSearchPage + 1 > |cache| {
        var nodes := BestFirstSearch(s.provider.searcher, node).0;
        ForwardPageEntries(nodes, st.startNodeIndex, st.extractedCandidate, s.config.perPageSize);
        assert res.1.searcher.pageResultCache == cache + [res.0];
      } else {
        assert res.0 == cache[st.currentSearchPage];
      }
    }
  }

  /**
    With the cache aligned, a searched node's page lands in the cache at
    its own number, and the cache only ever grows by that one page.
   */
  lemma PageAligned(s: Session)
    requires SessionInv(s) && Aligned(s) && s.currentNode.Some? && !IsPureLeaf(s.currentNode.value)
    ensures
      var p := s.currentState.currentSearchPage;
      var res := GetCandidates(s.provider, s.currentNode.value, s.currentState, s.config);
      var cache := s.provider.searcher.pageResultCache;
      var cache' := res.1.searcher.pageResultCache;
      && p < |cache'| && cache'[p] == res.0
      && |cache| <= |cache'| && cache'[..|cache|] == cache
      && forall i :: 0 <= i < |cache'| ==> cache'[i].currentPage == i
  {
    CallOk(s);
    var st := s.currentState;
    var res := GetCandidates(s.provider, s.currentNode.value, st, s.config);
    var cache := s.provider.searcher.pageResultCache;
    if st.currentSearchPage + 1 > |cache| {
      assert res.1.searcher.pageResultCache == cache + [res.0];
    } else {
      assert res.0 == cache[st.currentSearchPage];
    }
  }

  /** `getCurrentPageCandidates()`: the current page reduced to word/path pairs. */
  function CurrentPage(s: Session): (r: (seq<CandidatePair>, Session))
    requires SessionInv(s)
    ensures SessionInv(r.1)
    ensures r.1 == CurrentPageFull(s).1
    ensures |r.0| == |CurrentPageFull(s).0.candidates|
    ensures forall k :: 0 <= k < |r.0| ==> r.0[k] == PairFrom(CurrentPageFull(s).0.candidates[k])
  {
    var res := CurrentPageFull(s);
    (Pairs(res.0.candidates), res.1)
  }

  function Pairs(ds: seq<CandidateDetail>): (r: seq<CandidatePair>)
    ensures |r| == |ds| && forall k :: 0 <= k < |ds| ==> r[k] == PairFrom(ds[k])
  {
    seq(|ds|, k requires 0 <= k < |ds| => PairFrom(ds[k]))
  }

  /** The cursor move of `getNextPageCandidates()`: the stored next cursor if there is a next page, else the reset one. */
  function AdvanceCursor(s: Session): (r: Session)
    requires SessionInv(s)
    ensures SessionInv(r)
    ensures s.currentNode.None? ==> r == s
    ensures s.currentNode.Some? && s.hasNextPage ==> r == s.(currentState := s.nextState)
    ensures s.currentNode.Some? && !s.hasNextPage ==> r == s.(currentState := DefaultSearchState())
  {
    if s.currentNode.None? then s
    else s.(currentState := if s.hasNextPage then s.nextState else DefaultSearchState())
  }

  /** `getNextPageCandidates()`: empty with nothing resolved, otherwise the page under the advanced cursor. */
  function NextPage(s: Session): (r: (seq<CandidatePair>, Session))
    requires SessionInv(s)
    ensures SessionInv(r.1)
    ensures s.currentNode.None? ==> r == ([], s)
    ensures s.currentNode.Some? ==> r == CurrentPage(AdvanceCursor(s))
  {
    if s.currentNode.None? then ([], s) else CurrentPage(AdvanceCursor(s))
  }

  /**
    The cursor move of `getPrevPageCandidates()`: from page 0 (or below)
    back to the reset cursor, otherwise one page back with the other
    fields kept.
   */
  function RetreatCursor(s: Session): (r: Session)
    requires SessionInv(s)
    ensures SessionInv(r)
    ensures s.currentNode.None? ==> r == s
    ensures s.currentNode.Some? && s.currentState.currentSearchPage <= 0 ==>
      r == s.(currentState := DefaultSearchState())
    ensures s.currentNode.Some? && s.currentState.currentSearchPage > 0 ==>
      r == s.(currentState := s.currentState.(currentSearchPage := s.currentState.currentSearchPage - 1))
  {
    if s.currentNode.None? then s
    else if s.currentState.currentSearchPage <= 0 then s.(currentState := DefaultSearchState())
    else s.(currentState := s.currentState.(currentSearchPage := s.currentState.currentSearchPage - 1))
  }

  /** `getPrevPageCandidates()`: empty with nothing resolved, otherwise the page under the retreated cursor. */
  function PrevPage(s: Session): (r: (seq<CandidatePair>, Session))
    requires SessionInv(s)
    ensures SessionInv(r.1)
    ensures s.currentNode.None? ==> r == ([], s)
    ensures s.currentNode.Some? ==> r == CurrentPage(RetreatCursor(s))
  {
    if s.currentNode.None? then ([], s) else CurrentPage(RetreatCursor(s))
  }

  // ---------------------------------------------------------------------
  // What paging through a session yields.

  /**
    Going forward one page and back again shows the same page: for a
    searched node it is replayed from the page cache, for a pure leaf it
    is recomputed from the same page number.
   */
  lemma NextThenPrevShowsSamePage(s: Session)
    requires SessionInv(s) && Aligned(s) && s.currentNode.Some?
    ensures
      var (page, s1) := CurrentPage(s);
      var s2 := NextPage(s1).1;
      s1.hasNextPage ==> PrevPage(s2).0 == page
  {
    var node := s.currentNode.value;
    var (full, s1) := CurrentPageFull(s);
    if !s1.hasNextPage { return; }
    var s2 := CurrentPageFull(AdvanceCursor(s1)).1;
    var s3a := RetreatCursor(s2);
    ForwardBackCursor(s);
    var full3 := CurrentPageFull(s3a).0;
    if IsPureLeaf(node) {
      CallOk(s);
      CallOk(s3a);
      DirectPageIgnoresResume(node, s.currentState, s3a.currentState, s.config.perPageSize);
    } else {
      ReplayedPage(s);
    }
    assert full3 == full;
  }

  /** Forward then back returns to the cursor's page number, resuming at the next cursor's word. */
  lemma ForwardBackCursor(s: Session)
    requires SessionInv(s) && Aligned(s) && s.currentNode.Some? && CurrentPageFull(s).1.hasNextPage
    ensures var s1 := CurrentPageFull(s).1;
      var s2 := CurrentPageFull(AdvanceCursor(s1)).1;
      && s2.currentNode == s.currentNode && s2.config == s.config
      && AdvanceCursor(s1).currentState.currentSearchPage == s.currentState.currentSearchPage + 1
      && RetreatCursor(s2) == s2.(currentState := s.currentState.(extractedCandidate := s1.nextState.extractedCandidate))
  {
    var full := CurrentPageFull(s).0;
    if IsPureLeaf(s.currentNode.value) {
      CallOk(s);
    } else {
      PageAligned(s);
    }
    assert full.currentPage == s.currentState.currentSearchPage;
  }

  /** A direct page depends on the cursor's page number only. */
  lemma DirectPageIgnoresResume(n: Node, st: NodeSearchState, st': NodeSearchState, pp: int)
    requires DirectPageOk(n, st.currentSearchPage, pp) && st'.currentSearchPage == st.currentSearchPage
    ensures GetDirectCandidates(n, st', pp) == GetDirectCandidates(n, st, pp)
  {
  }

  /** For a searched node, the page shown after forward and back is replayed from the cache. */
  lemma ReplayedPage(s: Session)
    requires SessionInv(s) && Aligned(s) && s.currentNode.Some? && !IsPureLeaf(s.currentNode.value)
    requires CurrentPageFull(s).1.hasNextPage
    ensures var s1 := CurrentPageFull(s).1;
      var s2 := CurrentPageFull(AdvanceCursor(s1)).1;
      CurrentPageFull(RetreatCursor(s2)).0 == CurrentPageFull(s).0
  {
    var (full, s1) := CurrentPageFull(s);
    var s2a := AdvanceCursor(s1);
    var s2 := CurrentPageFull(s2a).1;
    var s3a := RetreatCursor(s2);
    var p := s.currentState.currentSearchPage;
    ForwardBackCursor(s);
    PageAligned(s);
    var cache1 := s1.provider.searcher.pageResultCache;
    assert Aligned(s2a);
    PageAligned(s2a);
    var cache2 := s2.provider.searcher.pageResultCache;
    assert cache2[p] == cache1[p];
    assert CurrentPageFull(s3a).0 == cache2[p];
  }

  /** `setInput` lines the cache up with page numbers: it is empty and the cursor is on page 0. */
  lemma SetInputAligns(s: Session, input: seq<char>)
    requires SessionInv(s)
    ensures Aligned(SetInput(s, input).1)
  {
  }

  /** Reading the current page keeps the cache lined up, and the next cursor points at most one page past it. */
  lemma CurrentPageKeepsAligned(s: Session)
    requires SessionInv(s) && Aligned(s)
    ensures Aligned(CurrentPageFull(s).1)
    ensures var s1 := CurrentPageFull(s).1;
      s1.currentNode.Some? && !IsPureLeaf(s1.currentNode.value) ==>
        s1.nextState.currentSearchPage <= |s1.provider.searcher.pageResultCache|
  {
    if s.currentNode.Some? && !IsPureLeaf(s.currentNode.value) {
      PageAligned(s);
    }
  }

  /** The words of a list of pairs, in order. */
  function PairWords(ps: seq<CandidatePair>): (r: seq<string>)
    ensures |r| == |ps| && forall k :: 0 <= k < |ps| ==> r[k] == ps[k].candidateString
  {
    seq(|ps|, k requires 0 <= k < |ps| => ps[k].candidateString)
  }

  /** The session is on a pure leaf, paged directly with a positive page size. */
  ghost predicate OnLeaf(s: Session) {
    SessionInv(s) && s.currentNode.Some? && IsPureLeaf(s.currentNode.value) && s.config.perPageSize > 0
  }

  /** How many candidates of the leaf lie at or after the cursor's page. */
  function LeafRemaining(s: Session): int
    requires s.currentNode.Some?
  {
    |s.currentNode.value.candidates| - s.currentState.currentSearchPage * s.config.perPageSize
  }

  /**
    The words a user sees on a pure leaf by reading the current page and
    then pressing "next" for as long as the last page reported a next page.
   */
  ghost function LeafWalk(s: Session): seq<string>
    requires OnLeaf(s)
    decreases LeafRemaining(s)
  {
    var (page, s1) := CurrentPage(s);
    LeafPage(s);
    PairWords(page) + (if s1.hasNextPage then LeafWalk(AdvanceCursor(s1)) else [])
  }

  /**
    One page on a pure leaf: the direct page of the cursor's number; a next
    page is reported only while candidates remain past it, and "next" then
    moves the cursor to the following page number.
   */
  lemma LeafPage(s: Session)
    requires OnLeaf(s)
    ensures
      var node := s.currentNode.value;
      var st := s.currentState;
      var pp := s.config.perPageSize;
      var (full, s1) := CurrentPageFull(s);
      && full == GetDirectCandidates(node, st, pp)
      && s1.currentNode == s.currentNode && s1.config == s.config
      && (s1.hasNextPage ==>
            && (st.currentSearchPage + 1) * pp < |node.candidates|
            && OnLeaf(AdvanceCursor(s1))
            && AdvanceCursor(s1).currentState.currentSearchPage == st.currentSearchPage + 1
            && 0 <= LeafRemaining(AdvanceCursor(s1)) < LeafRemaining(s))
  {
    var node := s.currentNode.value;
    var st := s.currentState;
    var pp := s.config.perPageSize;
    CallOk(s);
    LeafPageUnfold(s);
    var full := GetDirectCandidates(node, st, pp);
    var s1 := s.(hasNextPage := full.hasNextPage, nextState := NextCursor(st, full));
    if s1.hasNextPage {
      LeafNext(s, full);
      assert AdvanceCursor(s1) == s1.(currentState := s1.nextState);
    }
  }

  /** A reported next page on a pure leaf lies within the candidates, and its cursor keeps the invariant. */
  lemma LeafNext(s: Session, full: CandidateResult)
    requires OnLeaf(s)
    requires full == GetDirectCandidates(s.currentNode.value, s.currentState, s.config.perPageSize)
    requires full.hasNextPage
    ensures var st := s.currentState;
      var pp := s.config.perPageSize;
      var next := NextCursor(st, full);
      && (st.currentSearchPage + 1) * pp < |s.currentNode.value.candidates|
      && next.currentSearchPage == st.currentSearchPage + 1
      && OnLeaf(s.(hasNextPage := true, nextState := next, currentState := next))
      && 0 <= LeafRemaining(s.(currentState := next)) < LeafRemaining(s)
  {
    var st := s.currentState;
    var pp := s.config.perPageSize;
    PageShape(s);
    assert StateOk(NextCursor(st, full));
    NextPageStart(st.currentSearchPage, pp, |s.currentNode.value.candidates|);
  }

  /** The start of page `page + 1` is one page size past the start of page `page`. */
  lemma NextPageStart(page: int, pp: int, n: int)
    requires page * pp + pp < n
    ensures (page + 1) * pp < n && (page + 1) * pp == page * pp + pp
  {
    assert (page + 1) * pp == page * pp + pp;
  }

  /** On a pure leaf the full page is the direct page and only the paging fields change. */
  lemma LeafPageUnfold(s: Session)
    requires OnLeaf(s)
    ensures
      var full := GetDirectCandidates(s.currentNode.value, s.currentState, s.config.perPageSize);
      CurrentPageFull(s) == (full, s.(hasNextPage := full.hasNextPage, nextState := NextCursor(s.currentState, full)))
  {
    PageShape(s);
  }

  /** On a pure leaf, the walk from page `p` reads the direct pages from `p` on. */
  lemma {:induction false} LeafWalkIsDirectPages(s: Session)
    requires OnLeaf(s)
    ensures LeafWalk(s) == DirectPagesFrom(s.currentNode.value, s.config.perPageSize, s.currentState.currentSearchPage)
    decreases LeafRemaining(s)
  {
    var (page, s1) := CurrentPage(s);
    var node := s.currentNode.value;
    var st := s.currentState;
    var pp := s.config.perPageSize;
    CallOk(s);
    LeafPage(s);
    var direct := GetDirectCandidates(node, NodeSearchState(0, 0, st.currentSearchPage), pp);
    assert GetDirectCandidates(node, st, pp) == direct;
    assert PairWords(page) == Words(direct.candidates);
    if s1.hasNextPage {
      LeafWalkIsDirectPages(AdvanceCursor(s1));
    }
  }

  /**
    After `setInput` resolves a pure leaf, reading the first page and
    pressing "next" until no next page is reported shows the leaf's
    ordered candidates, each exactly once.
   */
  lemma ReadingALeafShowsEveryCandidateOnce(s: Session, input: seq<char>)
    requires SessionInv(s) && s.config.perPageSize > 0
    requires Lookup(s.root, input).Some? && IsPureLeaf(Lookup(s.root, input).value)
    ensures OnLeaf(SetInput(s, input).1)
    ensures LeafWalk(SetInput(s, input).1) == OrderedCandidates(Lookup(s.root, input).value)
  {
    var s1 := SetInput(s, input).1;
    LeafWalkIsDirectPages(s1);
    DirectPagesCoverAll(Lookup(s.root, input).value, s.config.perPageSize);
  }
}
