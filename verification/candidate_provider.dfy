/**
  The strategy switch in front of the searcher
  (`UltraEfficientCandidateProvider`): a terminal node without children is
  paged directly over its own ordered candidates, every other node goes
  through the best-first searcher and its page cache.
 */
module CandidateProvider {
  import opened Common
  import opened Trie
  import opened CandidateClass
  import opened PathSearcher

  datatype Provider = Provider(searcher: Searcher, currentSearchState: NodeSearchState)

  function NewProvider(): Provider {
    Provider(NewSearcher(), DefaultSearchState())
  }

  /** A terminal node without children: the direct strategy applies. */
  predicate IsPureLeaf(n: Node) {
    IsFinal(n) && OrderedChildNodes(n) == []
  }

  /** What direct pagination needs to take a sub-list: a non-negative start and page size. */
  predicate DirectPageOk(n: Node, page: int, perPage: int) {
    page * perPage < |n.candidates| ==> 0 <= page * perPage && 0 <= perPage
  }

  /** `getDirectCandidates(node, state, perPage)`. */
  function GetDirectCandidates(n: Node, state: NodeSearchState, perPage: int): (r: CandidateResult)
    requires DirectPageOk(n, state.currentSearchPage, perPage)
    ensures r.currentPage == state.currentSearchPage
    ensures var start := state.currentSearchPage * perPage;
      start >= |n.candidates| ==> r.candidates == [] && !r.hasNextPage
    ensures var start := state.currentSearchPage * perPage;
      start < |n.candidates| ==>
        && |r.candidates| == Min(perPage, |n.candidates| - start)
        && (forall k :: 0 <= k < |r.candidates| ==>
              r.candidates[k] == CandidateDetail(OrderedCandidates(n)[start + k], n.path, k, 0))
        && (r.hasNextPage <==> start + perPage < |n.candidates|)
  {
    var all := GetPromoteCandidates(n, 0, 0);
    var start := state.currentSearchPage * perPage;
    var end := Min(start + perPage, |all|);
    if start >= |all| then CandidateResult([], false, state.currentSearchPage)
    else
      var page := all[start..end];
      CandidateResult(
        seq(|page|, k requires 0 <= k < |page| => CandidateDetail(page[k], n.path, k, 0)),
        end < |all|,
        state.currentSearchPage)
  }

  /** The words of a page, in order. */
  function Words(ds: seq<CandidateDetail>): (r: seq<string>)
    ensures |r| == |ds| && forall k :: 0 <= k < |ds| ==> r[k] == ds[k].word
  {
    seq(|ds|, k requires 0 <= k < |ds| => ds[k].word)
  }

  /** The words of direct pages `page`, `page + 1`, … up to the first page without a next page. */
  function DirectPagesFrom(n: Node, perPage: int, page: nat): seq<string>
    requires perPage > 0
    decreases |n.candidates| - page * perPage
  {
    var r := GetDirectCandidates(n, NodeSearchState(0, 0, page), perPage);
    Words(r.candidates) + (if r.hasNextPage then DirectPagesFrom(n, perPage, page + 1) else [])
  }

  /**
    Reading the direct pages of a node from page 0 until `hasNextPage` is
    false yields its ordered candidate list, each word exactly once.
   */
  lemma DirectPagesCoverAll(n: Node, perPage: int)
    requires perPage > 0
    ensures DirectPagesFrom(n, perPage, 0) == OrderedCandidates(n)
  {
    DirectPagesSuffix(n, perPage, 0);
  }

  lemma {:induction false} DirectPagesSuffix(n: Node, perPage: int, page: nat)
    requires perPage > 0
    ensures DirectPagesFrom(n, perPage, page) == OrderedCandidates(n)[Min(page * perPage, |n.candidates|)..]
    decreases |n.candidates| - page * perPage
  {
    var all := OrderedCandidates(n);
    var start := page * perPage;
    var r := GetDirectCandidates(n, NodeSearchState(0, 0, page), perPage);
    var rest := if r.hasNextPage then DirectPagesFrom(n, perPage, page + 1) else [];
    assert DirectPagesFrom(n, perPage, page) == Words(r.candidates) + rest;
    DirectPageWords(n, perPage, page);
    PageStarts(page, perPage);
    if r.hasNextPage {
      DirectPagesSuffix(n, perPage, page + 1);
    }
    PagesJoin(all, start, perPage, Words(r.candidates), rest, r.hasNextPage);
  }

  /** A page of `all` from `start`, followed by everything after it when there is more, is the suffix from `start`. */
  lemma PagesJoin<T>(all: seq<T>, start: int, pp: int, w: seq<T>, rest: seq<T>, more: bool)
    requires 0 <= start && pp > 0
    requires w == all[Min(start, |all|)..Min(start + pp, |all|)]
    requires more <==> start + pp < |all|
    requires more ==> rest == all[start + pp..]
    requires !more ==> rest == []
    ensures w + rest == all[Min(start, |all|)..]
  {
    if more {
      SuffixSplit(all, start, start + pp);
    }
  }

  /** Page starts are not negative and consecutive ones lie one page size apart. */
  lemma PageStarts(page: nat, perPage: int)
    requires perPage > 0
    ensures 0 <= page * perPage && (page + 1) * perPage == page * perPage + perPage
  {
  }

  /** Direct page `page` holds the ordered candidates from `page * perPage` on, at most `perPage` of them. */
  lemma DirectPageWords(n: Node, perPage: int, page: nat)
    requires perPage > 0
    ensures
      var start := page * perPage;
      var r := GetDirectCandidates(n, NodeSearchState(0, 0, page), perPage);
      && 0 <= start
      && Words(r.candidates) == OrderedCandidates(n)[Min(start, |n.candidates|)..Min(start + perPage, |n.candidates|)]
      && (r.hasNextPage <==> start + perPage < |n.candidates|)
  {
    var start := page * perPage;
    var r := GetDirectCandidates(n, NodeSearchState(0, 0, page), perPage);
    var all := OrderedCandidates(n);
    if start < |all| {
      var w := Words(r.candidates);
      var e := all[start..Min(start + perPage, |all|)];
      assert |w| == |e|;
      forall k | 0 <= k < |w| ensures w[k] == e[k] {
        assert r.candidates[k].word == all[start + k];
      }
    }
  }

  /**
    `getCandidates(node, state, config)`: a pure leaf is paged directly and
    leaves the provider untouched; any other node is enumerated by the
    searcher (cached per root path) and the page requested by `state` is
    computed forward or replayed from the page cache.
   */
  function GetCandidates(p: Provider, node: Node, state: NodeSearchState, config: PageConfigure)
    : (r: (CandidateResult, Provider))
    requires Valid(node)
    requires IsPureLeaf(node) ==> DirectPageOk(node, state.currentSearchPage, config.perPageSize)
    requires !IsPureLeaf(node) && state.currentSearchPage + 1 > |p.searcher.pageResultCache| ==>
      && 0 <= state.startNodeIndex
      && (state.startNodeIndex < |BestFirstSearch(p.searcher, node).0| && config.perPageSize > 0 ==>
            0 <= state.extractedCandidate)
    ensures IsPureLeaf(node) ==> r.0 == GetDirectCandidates(node, state, config.perPageSize) && r.1 == p
    ensures r.1.currentSearchState == p.currentSearchState
    ensures !IsPureLeaf(node) && state.currentSearchPage + 1 > |p.searcher.pageResultCache| ==>
      var nodes := BestFirstSearch(p.searcher, node).0;
      var fwd := SearchForCandidatesForward(nodes, state.startNodeIndex, state.extractedCandidate, config.perPageSize);
      && r.0 == CandidateResult(fwd.1, fwd.0, state.currentSearchPage)
      && r.1.searcher.pageResultCache == p.searcher.pageResultCache + [r.0]
      && r.1.searcher.bfsResultCache == Some(nodes)
    ensures !IsPureLeaf(node) && state.currentSearchPage + 1 <= |p.searcher.pageResultCache| ==>
      var page := Max(state.currentSearchPage, 0);
      && r.0 == (if page < |p.searcher.pageResultCache| then p.searcher.pageResultCache[page] else EmptyResult())
      && r.1.searcher.pageResultCache == p.searcher.pageResultCache
  {
    if IsPureLeaf(node) then (GetDirectCandidates(node, state, config.perPageSize), p)
    else
      var bfs := BestFirstSearch(p.searcher, node);
      var res := GetCurrentPageResult(bfs.1, state, config.perPageSize);
      (res.0, p.(searcher := res.1))
  }

  /**
    `getCandidates` as written: the searcher branch reads the provider's
    own cursor, which nothing but `clearCache` ever assigns, instead of
    the requested `searchState`.
   */
  function GetCandidatesAsWritten(p: Provider, node: Node, state: NodeSearchState, config: PageConfigure)
    : (r: (CandidateResult, Provider))
    requires Valid(node)
    requires IsPureLeaf(node) ==> DirectPageOk(node, state.currentSearchPage, config.perPageSize)
    requires !IsPureLeaf(node) && p.currentSearchState.currentSearchPage + 1 > |p.searcher.pageResultCache| ==>
      && 0 <= p.currentSearchState.startNodeIndex
      && (p.currentSearchState.startNodeIndex < |BestFirstSearch(p.searcher, node).0| && config.perPageSize > 0 ==>
            0 <= p.currentSearchState.extractedCandidate)
    ensures IsPureLeaf(node) ==> r == GetCandidates(p, node, state, config)
    ensures !IsPureLeaf(node) ==> r == GetCandidates(p, node, p.currentSearchState, config)
  {
    if IsPureLeaf(node) then (GetDirectCandidates(node, state, config.perPageSize), p)
    else
      var bfs := BestFirstSearch(p.searcher, node);
      var res := GetCurrentPageResult(bfs.1, p.currentSearchState, config.perPageSize);
      (res.0, p.(searcher := res.1))
  }

  /**
    As written, asking a fresh provider for page 0 and then for page 1 of a
    non-leaf node returns page 0 again; the corrected provider returns
    page 1.
   */
  lemma AsWrittenNeverLeavesPageZero(node: Node, config: PageConfigure, next: NodeSearchState)
    requires Valid(node) && !IsPureLeaf(node)
    requires next.currentSearchPage == 1 && 0 <= next.startNodeIndex && 0 <= next.extractedCandidate
    ensures
      var first := GetCandidatesAsWritten(NewProvider(), node, DefaultSearchState(), config);
      var second := GetCandidatesAsWritten(first.1, node, next, config);
      && first.0.currentPage == 0
      && second.0 == first.0
    ensures
      var first := GetCandidates(NewProvider(), node, DefaultSearchState(), config);
      var second := GetCandidates(first.1, node, next, config);
      && first.0.currentPage == 0
      && second.0.currentPage == 1
  {
  }

  /** `clearCache()`: resets the searcher's caches and the provider's own cursor. */
  function ClearCache(p: Provider): (r: Provider)
    ensures r.searcher.bfsCachePath == "" && r.searcher.bfsResultCache.None?
    ensures r.searcher.pageResultCache == []
    ensures r.currentSearchState == DefaultSearchState()
  {
    Provider(PathSearcher.ClearCache(p.searcher), DefaultSearchState())
  }
}
