/**
  The records exchanged between the tree, the searcher, the provider and the
  session cursor (`CandidateClass`).
 */
module CandidateClass {

  /** A candidate word together with where it was found. */
  datatype CandidateDetail = CandidateDetail(
    word: string,
    fullPath: seq<char>,   // full path of the node holding the word
    wordIndex: int,        // index of the word in that node's (limited) ordered list
    nodeIndex: int)        // index of the node in the search's node enumeration

  /** The minimal form handed to the user interface: word and full path. */
  datatype CandidatePair = CandidatePair(candidateString: string, fullPath: seq<char>)

  /** `CandidatePair.from(detail)`: keeps the word and the path and drops both indices. */
  function PairFrom(d: CandidateDetail): (p: CandidatePair)
    ensures p.candidateString == d.word && p.fullPath == d.fullPath
  {
    CandidatePair(d.word, d.fullPath)
  }

  /** Two details that differ only in their indices give the same pair. */
  lemma PairFromForgetsIndices(d: CandidateDetail, wordIndex: int, nodeIndex: int)
    ensures PairFrom(d.(wordIndex := wordIndex, nodeIndex := nodeIndex)) == PairFrom(d)
  {
  }

  /** The resumable pagination cursor. */
  datatype NodeSearchState = NodeSearchState(
    startNodeIndex: int,       // first node of the enumeration to scan
    extractedCandidate: int,   // candidates of a node already emitted
    currentSearchPage: int)    // page number, from 0

  /** `NodeSearchState()`: the reset cursor, all fields zero. */
  function DefaultSearchState(): (s: NodeSearchState)
    ensures s.startNodeIndex == 0 && s.extractedCandidate == 0 && s.currentSearchPage == 0
  {
    NodeSearchState(0, 0, 0)
  }

  datatype PageConfigure = PageConfigure(perPageSize: int, maxCandidatesPerPath: int)

  /** `PageConfigure()`: nine candidates per page, two per path. */
  function DefaultPageConfigure(): (c: PageConfigure)
    ensures c.perPageSize == 9 && c.maxCandidatesPerPath == 2
  {
    PageConfigure(9, 2)
  }

  /** One page of candidates. */
  datatype CandidateResult = CandidateResult(
    candidates: seq<CandidateDetail>,
    hasNextPage: bool,
    currentPage: int)

  /** `CandidateResult()`: the "no result" value. */
  function EmptyResult(): (r: CandidateResult)
    ensures r.candidates == [] && !r.hasNextPage && r.currentPage == 0
  {
    CandidateResult([], false, 0)
  }
}
