# Candidate engine of the Chinese input keyboard, modelled in Dafny

This project models the candidate-resolution engine of the ChineseInputKeyboardVRApp input method.

The user types phonetic symbols, and each symbol moves one step down a prefix trie (`UniformTrieNode`). Each trie node holds:

- its children, in insertion order;
- a list of candidate words;
- integer scores, which rank both children and words.

The node a typed input reaches is either a terminal with no children, or any other node:

- **Terminal with no children.** Its words are paged directly.
- **Any other node.** A best-first enumeration lists terminal descendants in order of `total score / path length`. Each terminal contributes its best few words, and forward pages with a page cache are built from that stream.

A session cursor (`InputMethodCandidateManager`) drives current, next and previous pages. Choosing a word promotes it: the word gains one point, and so does every non-terminal ancestor edge (`promoteUsedPath`).

Around that core the model also covers:

- the personalised score store, a 2000-entry access-ordered LRU map;
- the associative (next-character) trie and its query wrapper;
- the offline builders' pure parts: dictionary line parsing, code normalisation, trigram threshold insertion, the post-order score sum and node counting;
- the hand-written JSON printer and the regular-expression pair reader.

Every tree is an immutable datatype, and each operation is a pure function that returns the updated value. Mutation in the original becomes "return the new node/store/session".

Modules follow the original files:

| module | file | models |
|---|---|---|
| `Common` | common.dfy | `Option`, `Min`/`Max`, `Distinct`, sequence helpers |
| `Ranking` | ranking.dfy | the stable descending sort used by every ordered view |
| `CandidateClass` | candidate_class.dfy | `CandidateDetail`, `CandidatePair`, `NodeSearchState`, `PageConfigure`, `CandidateResult` |
| `Trie` | trie.dfy | `UniformTrieNode` |
| `PathSearcher` | path_searcher.dfy | `UltraEfficientPathSearcher` |
| `CandidateProvider` | candidate_provider.dfy | `UltraEfficientCandidateProvider` |
| `CandidateManager` | candidate_manager.dfy | `InputMethodCandidateManager` |
| `PathOptimizer` | path_optimizer.dfy | `InputMethodPathOptimizer` |
| `ScoreStore` | score_store.dfy | `PersonalizedScoreManager` |
| `Associative` | associative.dfy | `AssociativeWordNode` |
| `AssociativeManager` | associative_manager.dfy | `InputMethodAssociativeWordManager` |
| `JsonConverter` | json_converter.dfy | `JsonConverter` |
| `DictionaryBuilder` | dictionary_builder.dfy | `DictionaryBuilder` (pure parts) |
| `TrigramBuilder` | trigram_builder.dfy | `TrigramBuilder` (pure parts) |
| `TrieHelper` | trie_helper.dfy | the instrumented-test helper `TrieHelper.getCandidateList` |
| `TrieScenarios` | trie_scenarios.dfy | the trie test tree and its promotion scenarios |

Several calls in the sources do not match any declared signature. The model resolves each one as follows:

- **Provider search call.** The provider's `bfsSearch` call is taken to mean `bestFirstSearch`.
- **Search-state field.** The manager's `.nodeIndex` reads are taken to mean `startNodeIndex`.
- **`promoteCandidate` arity.** The optimizer's two-argument `promoteCandidate` is the one-argument form.
- **`promoteUsedPath` arity.** The trie tests call a three-argument `promoteUsedPath`. The model reads it as the four-argument form with `wordIndex = 0`.

## Model

Paths below are relative to the repository root.

| member | source | states |
|---|---|---|
| CandidateClass.PairFrom | app/src/main/java/org/wbftw/weil/chinese_keyboard/input/utils/CandidateClass.kt:26-31 | `CandidatePair.from` keeps the detail's word and full path |
| CandidateClass.PairFromForgetsIndices | app/src/main/java/org/wbftw/weil/chinese_keyboard/input/utils/CandidateClass.kt:26-31 | the pair does not depend on the detail's word index or node index |
| CandidateClass.DefaultSearchState | app/src/main/java/org/wbftw/weil/chinese_keyboard/input/utils/CandidateClass.kt:42-46 | the reset cursor is start node 0, extracted 0, page 0 |
| CandidateClass.DefaultPageConfigure | app/src/main/java/org/wbftw/weil/chinese_keyboard/input/utils/CandidateClass.kt:48-51 | default page size 9 and at most 2 candidates per path |
| CandidateClass.EmptyResult | app/src/main/java/org/wbftw/weil/chinese_keyboard/input/utils/CandidateClass.kt:56-60 | the "no result" value: no candidates, no next page, page 0 |
| Ranking.SortDescSpec | app/src/main/java/org/wbftw/weil/chinese_keyboard/input/utils/UniformTrieNode.kt:170-177 | the descending sort is a permutation of its input, of the same length, ordered by non-increasing score |
| Ranking.SortDescStable | app/src/main/java/org/wbftw/weil/chinese_keyboard/input/utils/UniformTrieNode.kt:216-223 | elements of equal score keep their input order (stability of `sortedByDescending`) |
| Ranking.ScoreClassFirst | app/src/main/java/org/wbftw/weil/chinese_keyboard/input/utils/UniformTrieNode.kt:170-177 | an element that heads its own score class has no earlier element of the same score |
| Ranking.SortDescHeadFirst | app/src/main/java/org/wbftw/weil/chinese_keyboard/input/utils/UniformTrieNode.kt:170-177 | an element that sorts first is preceded in the input only by elements of strictly lower score (stability at the head) |
| Ranking.SortDescIgnoresOutsiders | app/src/main/java/org/wbftw/weil/chinese_keyboard/input/utils/UniformTrieNode.kt:219 | two score functions that agree on the list's elements sort it identically |
| Ranking.InsertPermutes | app/src/main/java/org/wbftw/weil/chinese_keyboard/input/utils/UniformTrieNode.kt:170-177 | inserting one element adds exactly that element to the multiset |
| Ranking.InsertDescending | app/src/main/java/org/wbftw/weil/chinese_keyboard/input/utils/UniformTrieNode.kt:170-177 | inserting into a descending list keeps it descending |
| Ranking.SortPair | app/src/main/java/org/wbftw/weil/chinese_keyboard/input/utils/UniformTrieNode.kt:170-177 | two elements are swapped only when the second scores strictly higher |
| Trie.NewRoot | app/src/main/java/org/wbftw/weil/chinese_keyboard/input/utils/UniformTrieNode.kt:6-16 | a fresh root is well formed, has an empty full path, no children and no candidates |
| Trie.NewChild | app/src/main/java/org/wbftw/weil/chinese_keyboard/input/utils/UniformTrieNode.kt:31-35 | a new child's full path is the parent's path plus its own char, and it starts empty with score 0 |
| Trie.ChildIndexFound | app/src/main/java/org/wbftw/weil/chinese_keyboard/input/utils/UniformTrieNode.kt:192-194 | the child search succeeds exactly when the char is among the child keys |
| Trie.GetChildNode | app/src/main/java/org/wbftw/weil/chinese_keyboard/input/utils/UniformTrieNode.kt:192-194 | a child is found iff its char is a child key, and the child found carries that char |
| Trie.AddChild | app/src/main/java/org/wbftw/weil/chinese_keyboard/input/utils/UniformTrieNode.kt:42-49 | an existing char changes nothing; a new char is appended to the keys with a fresh child; nothing else of the node changes; well-formedness is kept |
| Trie.AddChildIdempotent | app/src/main/java/org/wbftw/weil/chinese_keyboard/input/utils/UniformTrieNode.kt:42-49 | adding the same child twice is the same as adding it once |
| Trie.AddCandidate | app/src/main/java/org/wbftw/weil/chinese_keyboard/input/utils/UniformTrieNode.kt:56-61 | the candidate set grows by the word exactly when it is non-empty; existing order is a prefix; duplicates and `""` never enter, so a well-formed node stays well formed |
| Trie.FinalTestsComplementary | app/src/main/java/org/wbftw/weil/chinese_keyboard/input/utils/UniformTrieNode.kt:67-77 | `isNotFinalNode` is the exact negation of `isFinalNode`, which holds iff some candidate exists |
| Trie.GetChildrenScore | app/src/main/java/org/wbftw/weil/chinese_keyboard/input/utils/UniformTrieNode.kt:83-85 | 0 when no child has the char; otherwise the own score of the first child with that char |
| Trie.SetChildrenScore | app/src/main/java/org/wbftw/weil/chinese_keyboard/input/utils/UniformTrieNode.kt:93-100 | an absent child is a no-op; otherwise only that child's score becomes the new value, and keys, structure and every other score are unchanged |
| Trie.SetSelfScore | app/src/main/java/org/wbftw/weil/chinese_keyboard/input/utils/UniformTrieNode.kt:106-109 | only the node's own score changes |
| Trie.SetCandidateScore | app/src/main/java/org/wbftw/weil/chinese_keyboard/input/utils/UniformTrieNode.kt:134-141 | `""` is ignored; otherwise that word's score becomes the value and every other word's score is unchanged |
| Trie.PromoteChild | app/src/main/java/org/wbftw/weil/chinese_keyboard/input/utils/UniformTrieNode.kt:147-152 | an absent child is a no-op; otherwise exactly that child's score rises by 1 and nothing else changes |
| Trie.PromoteCandidate | app/src/main/java/org/wbftw/weil/chinese_keyboard/input/utils/UniformTrieNode.kt:159-164 | `""` is ignored; otherwise exactly that word's score rises by 1 |
| Trie.OrderedChildrenKeysSpec | app/src/main/java/org/wbftw/weil/chinese_keyboard/input/utils/UniformTrieNode.kt:170-177 | the ordered keys are a permutation of the child keys, by non-increasing child score, ties in insertion order, without duplicates in a well-formed node |
| Trie.OrderedCandidatesSpec | app/src/main/java/org/wbftw/weil/chinese_keyboard/input/utils/UniformTrieNode.kt:216-223 | the ordered candidates are a permutation of the candidates, by non-increasing score, ties in insertion order, without duplicates in a well-formed node |
| Trie.OutsiderScoreIrrelevant | app/src/main/java/org/wbftw/weil/chinese_keyboard/input/utils/UniformTrieNode.kt:134-141 | a score stored for a word that is not a candidate never changes the candidate order |
| Trie.OrderedChildNodes | app/src/main/java/org/wbftw/weil/chinese_keyboard/input/utils/UniformTrieNode.kt:183-185 | the ordered child nodes are the node's children, one per ordered key, in key order |
| Trie.GetFirstNode | app/src/main/java/org/wbftw/weil/chinese_keyboard/input/utils/UniformTrieNode.kt:208-210 | null iff there are no children; otherwise a child whose score no other child exceeds, and every child inserted before it scores strictly lower, so a tie at the top goes to the earliest-inserted child |
| Trie.FirstChildIsBest | app/src/main/java/org/wbftw/weil/chinese_keyboard/input/utils/UniformTrieNode.kt:208-210 | the first ordered child has the highest score among the children |
| Trie.FirstNodeTieBreak | app/src/main/java/org/wbftw/weil/chinese_keyboard/input/utils/UniformTrieNode.kt:170-177 | the first ordered child is preceded, in insertion order, only by children of strictly lower score |
| Trie.FilterList | app/src/main/java/org/wbftw/weil/chinese_keyboard/input/utils/UniformTrieNode.kt:232-246 | empty for an empty list or an index past the end; the whole suffix from the index when the limit is not positive; otherwise at most `limit` elements from the index, element by element |
| Trie.GetPromoteCandidates | app/src/main/java/org/wbftw/weil/chinese_keyboard/input/utils/UniformTrieNode.kt:252-258 | the result is the requested window of the ordered candidates and holds only candidates of the node |
| Trie.FilterIsWindow | app/src/main/java/org/wbftw/weil/chinese_keyboard/input/utils/UniformTrieNode.kt:232-258 | filtering the ordered candidates yields exactly the window `WindowOf` describes |
| Trie.Lookup | app/src/main/java/org/wbftw/weil/chinese_keyboard/input/ime/InputMethodCandidateManager.kt:35-44 | the empty input resolves to the node itself; a resolved node of a well-formed tree is well formed and its full path is the start path plus the input |
| Trie.LookupAppend | app/src/main/java/org/wbftw/weil/chinese_keyboard/input/ime/InputMethodCandidateManager.kt:35-44 | resolving `p + q` is resolving `p` and then `q`; a missing char anywhere gives null |
| Trie.PathsExtend | app/src/main/java/org/wbftw/weil/chinese_keyboard/input/utils/UniformTrieNode.kt:272-274 | every full path below a node starts with that node's full path |
| Trie.ChildrenDisjoint | app/src/main/java/org/wbftw/weil/chinese_keyboard/input/utils/UniformTrieNode.kt:42-49 | the subtrees of two different children hold disjoint paths, and neither holds the parent's path |
| PathSearcher.ClearCache | app/src/main/java/org/wbftw/weil/chinese_keyboard/input/utils/UltraEfficientPathSearcher.kt:196-200 | clearing resets the cached path, the node list and the page cache |
| PathSearcher.CacheKeyInjective | app/src/main/java/org/wbftw/weil/chinese_keyboard/input/utils/UltraEfficientPathSearcher.kt:28-31 | the cache key `fullPath.joinToString()` determines the path, so a cache hit is for the same root path |
| PathSearcher.PickBest | app/src/main/java/org/wbftw/weil/chinese_keyboard/input/utils/UltraEfficientPathSearcher.kt:42-50 | the polled entry has the highest normalised score, and no earlier entry ties it |
| PathSearcher.Relax | app/src/main/java/org/wbftw/weil/chinese_keyboard/input/utils/UltraEfficientPathSearcher.kt:61-71 | for distinct child keys, a child is enqueued iff nothing is recorded under its char or its normalised score is strictly greater; recorded scores never decrease |
| PathSearcher.StepKeepsInv | app/src/main/java/org/wbftw/weil/chinese_keyboard/input/utils/UltraEfficientPathSearcher.kt:47-72 | one poll-and-expand step keeps the search invariant, strictly shrinks the frontier's paths and only appends to the result |
| PathSearcher.Explore | app/src/main/java/org/wbftw/weil/chinese_keyboard/input/utils/UltraEfficientPathSearcher.kt:47-72 | the loop only appends, and every node it emits is a terminal of the root's subtree, each path at most once |
| PathSearcher.BestFirstSearch | app/src/main/java/org/wbftw/weil/chinese_keyboard/input/utils/UltraEfficientPathSearcher.kt:27-77 | a cache hit returns the cached list unchanged; otherwise the list holds only terminals of the subtree, each once, starting with the root when it is terminal, and is cached under the root path |
| PathSearcher.FindCandidateByNodeWithLimit | app/src/main/java/org/wbftw/weil/chinese_keyboard/input/utils/UltraEfficientPathSearcher.kt:84-90 | the first `min(size, clamp(floor(0.3*size), 1, 5))` ordered candidates; a node contributes 1 to 5 words iff it is terminal |
| PathSearcher.SearchForCandidatesForward | app/src/main/java/org/wbftw/weil/chinese_keyboard/input/utils/UltraEfficientPathSearcher.kt:157-189 | for a non-negative `extracted`, the page is the first `perPage` entries of the stream of (node, word) details from the start cursor, and the next-page flag is set iff the start node is in range and the page is full; a negative `extracted` yields no details and is admitted only when no node is in range or `perPage <= 0`, where the loop ends before any word is indexed |
| PathSearcher.StreamShape | app/src/main/java/org/wbftw/weil/chinese_keyboard/input/utils/UltraEfficientPathSearcher.kt:160-181 | every streamed detail names an existing node from the start index, a word index from the cursor within that node's limited list, the right word and path, in strictly increasing (node, word) order |
| PathSearcher.ForwardPageSize | app/src/main/java/org/wbftw/weil/chinese_keyboard/input/utils/UltraEfficientPathSearcher.kt:157-189 | a page has at most `perPage` details, and `hasNextPage` holds exactly when it is full (an exact fit included) |
| PathSearcher.ForwardPageEntries | app/src/main/java/org/wbftw/weil/chinese_keyboard/input/utils/UltraEfficientPathSearcher.kt:160-181 | each detail has node index in `[start, end)`, word index at least the cursor, and the node's word and full path |
| PathSearcher.ForwardPageOrdered | app/src/main/java/org/wbftw/weil/chinese_keyboard/input/utils/UltraEfficientPathSearcher.kt:160-181 | details are ordered by (node index, word index) |
| PathSearcher.GetCurrentPageResult | app/src/main/java/org/wbftw/weil/chinese_keyboard/input/utils/UltraEfficientPathSearcher.kt:98-147 | a page beyond the cache is computed forward and appended as exactly one page with the requested page number; otherwise the cached page (negative page clamped to 0) or the empty result, cache unchanged |
| PathSearcher.PageCacheGrowsByOne | app/src/main/java/org/wbftw/weil/chinese_keyboard/input/utils/UltraEfficientPathSearcher.kt:107-143 | asking for the next uncached page appends it at its own index, and asking again returns the same page from the cache |
| CandidateProvider.GetDirectCandidates | app/src/main/java/org/wbftw/weil/chinese_keyboard/input/utils/UltraEfficientCandidateProvider.kt:39-78 | start is `page*perPage`; past the end the page is empty without next page; otherwise the ordered window up to `start+perPage`, with path, node index 0 and in-page word index, and a next page iff words remain |
| CandidateProvider.DirectPageWords | app/src/main/java/org/wbftw/weil/chinese_keyboard/input/utils/UltraEfficientCandidateProvider.kt:48-76 | a direct page's words are the ordered-candidate slice `[start, min(start+perPage, total))` |
| CandidateProvider.DirectPagesCoverAll | app/src/main/java/org/wbftw/weil/chinese_keyboard/input/utils/UltraEfficientCandidateProvider.kt:48-76 | concatenating direct pages from 0 until no next page yields the ordered candidates exactly once |
| CandidateProvider.GetCandidates | app/src/main/java/org/wbftw/weil/chinese_keyboard/input/utils/UltraEfficientCandidateProvider.kt:21-34 | a terminal node without children is paged directly and the provider is unchanged; every other node goes through best-first search and the page cache with the caller's cursor |
| CandidateProvider.GetCandidatesAsWritten | app/src/main/java/org/wbftw/weil/chinese_keyboard/input/utils/UltraEfficientCandidateProvider.kt:83-93 | as written, the searcher path ignores the caller's cursor and uses the provider's own state |
| CandidateProvider.AsWrittenNeverLeavesPageZero | app/src/main/java/org/wbftw/weil/chinese_keyboard/input/utils/UltraEfficientCandidateProvider.kt:91 | as written, requesting page 1 after page 0 returns page 0 again; the corrected dispatch returns page 1 |
| CandidateProvider.ClearCache | app/src/main/java/org/wbftw/weil/chinese_keyboard/input/utils/UltraEfficientCandidateProvider.kt:98-101 | searcher caches are emptied and the provider state is the default cursor |
| CandidateManager.NewSession | app/src/main/java/org/wbftw/weil/chinese_keyboard/input/ime/InputMethodCandidateManager.kt:16-28 | a new session satisfies the session invariant and has no resolved node |
| CandidateManager.SetInput | app/src/main/java/org/wbftw/weil/chinese_keyboard/input/ime/InputMethodCandidateManager.kt:51-63 | the node is the input's lookup; the cursor resets and the provider cache is cleared; the result is null iff unresolved, `['*']` for a terminal, else the ordered child keys |
| CandidateManager.SetInputFullPath | app/src/main/java/org/wbftw/weil/chinese_keyboard/input/ime/InputMethodCandidateManager.kt:141-143 | after a resolved `setInput`, the current full path is the root path plus the input |
| CandidateManager.CurrentNodeFullPath | app/src/main/java/org/wbftw/weil/chinese_keyboard/input/ime/InputMethodCandidateManager.kt:141-143 | empty without a node, otherwise the resolved node's full path |
| CandidateManager.CurrentPageFull | app/src/main/java/org/wbftw/weil/chinese_keyboard/input/ime/InputMethodCandidateManager.kt:78-98 | without a node the empty result; otherwise the provider's page for the cursor, with `hasNextPage` and the next cursor stored and the invariant kept (through the corrected provider; see "## Left out") |
| CandidateManager.NextCursor | app/src/main/java/org/wbftw/weil/chinese_keyboard/input/ime/InputMethodCandidateManager.kt:90-96 | the next cursor has page `currentPage + 1` and resumes after the last word index, or at 1 after an empty page |
| CandidateManager.CurrentPage | app/src/main/java/org/wbftw/weil/chinese_keyboard/input/ime/InputMethodCandidateManager.kt:68-72 | the current page's pairs are the full page's details with indices dropped, one for one |
| CandidateManager.AdvanceCursor | app/src/main/java/org/wbftw/weil/chinese_keyboard/input/ime/InputMethodCandidateManager.kt:106-112 | with a next page the stored next cursor is used, otherwise the default cursor |
| CandidateManager.NextPage | app/src/main/java/org/wbftw/weil/chinese_keyboard/input/ime/InputMethodCandidateManager.kt:103-115 | no node gives an empty list; otherwise the current page after advancing the cursor (through the corrected provider; see "## Left out") |
| CandidateManager.RetreatCursor | app/src/main/java/org/wbftw/weil/chinese_keyboard/input/ime/InputMethodCandidateManager.kt:124-133 | at page 0 or below the cursor resets; otherwise only the page number drops by 1 |
| CandidateManager.PrevPage | app/src/main/java/org/wbftw/weil/chinese_keyboard/input/ime/InputMethodCandidateManager.kt:120-136 | no node gives an empty list; otherwise the current page after retreating the cursor (through the corrected provider; see "## Left out") |
| CandidateManager.PageAligned | app/src/main/java/org/wbftw/weil/chinese_keyboard/input/utils/UltraEfficientPathSearcher.kt:107-143 | in a session whose cursor never skips ahead of the page cache, the page shown is stored at its own index and the cache only grows |
| CandidateManager.NextThenPrevShowsSamePage | app/src/main/java/org/wbftw/weil/chinese_keyboard/input/ime/InputMethodCandidateManager.kt:103-136 | showing a page, going to the next page and back shows the same page again |
| CandidateManager.ForwardBackCursor | app/src/main/java/org/wbftw/weil/chinese_keyboard/input/ime/InputMethodCandidateManager.kt:103-136 | next then prev restores the page number and start node of the cursor; only the resume index differs |
| CandidateManager.SetInputAligns | app/src/main/java/org/wbftw/weil/chinese_keyboard/input/ime/InputMethodCandidateManager.kt:51-63 | a fresh input starts a session whose cursor is aligned with the (emptied) page cache |
| CandidateManager.CurrentPageKeepsAligned | app/src/main/java/org/wbftw/weil/chinese_keyboard/input/ime/InputMethodCandidateManager.kt:78-98 | fetching the current page keeps the cursor aligned with the page cache |
| CandidateManager.LeafPage | app/src/main/java/org/wbftw/weil/chinese_keyboard/input/ime/InputMethodCandidateManager.kt:78-115 | on a terminal leaf each shown page is the direct page for the cursor, and a next page advances to the following page number |
| CandidateManager.ReadingALeafShowsEveryCandidateOnce | app/src/main/java/org/wbftw/weil/chinese_keyboard/input/ime/InputMethodCandidateManager.kt:51-115 | after `setInput` on a terminal leaf, reading pages forward until no next page shows the ordered candidates exactly once |
| PathOptimizer.Promote | app/src/main/java/org/wbftw/weil/chinese_keyboard/input/ime/InputMethodPathOptimizer.kt:31-52 | the promotion walk never changes the node's own key, path, score, candidates or child keys, and keeps the tree well formed |
| PathOptimizer.PromoteIfFinal | app/src/main/java/org/wbftw/weil/chinese_keyboard/input/ime/InputMethodPathOptimizer.kt:41-43 | at a terminal node exactly the chosen word's score rises by 1; elsewhere nothing changes |
| PathOptimizer.PromoteUsedPath | app/src/main/java/org/wbftw/weil/chinese_keyboard/input/ime/InputMethodPathOptimizer.kt:26-53 | an empty path or a negative word index leaves the tree untouched; otherwise the path is promoted |
| PathOptimizer.PromoteKeepsSkeleton | app/src/main/java/org/wbftw/weil/chinese_keyboard/input/ime/InputMethodPathOptimizer.kt:26-53 | promotion changes scores only: the tree with all scores erased is unchanged |
| PathOptimizer.PromoteOffPath | app/src/main/java/org/wbftw/weil/chinese_keyboard/input/ime/InputMethodPathOptimizer.kt:46-52 | every node whose path is not a prefix of the promoted path is unchanged |
| PathOptimizer.Reach | app/src/main/java/org/wbftw/weil/chinese_keyboard/input/ime/InputMethodPathOptimizer.kt:31-38 | the walk stops at the deepest existing node along the path, just before the first missing char |
| PathOptimizer.PromoteWord | app/src/main/java/org/wbftw/weil/chinese_keyboard/input/ime/InputMethodPathOptimizer.kt:41-43 | at the deepest reached node, the chosen word gains 1 if the node is terminal, and nothing else there changes |
| PathOptimizer.PromoteEdge | app/src/main/java/org/wbftw/weil/chinese_keyboard/input/ime/InputMethodPathOptimizer.kt:46-52 | each recorded edge's child score rises by 1 if the node before it is non-terminal, and by 0 if it is terminal |
| PathOptimizer.OptimizePath | app/src/main/java/org/wbftw/weil/chinese_keyboard/input/ime/InputMethodPathOptimizer.kt:57-61 | without a dictionary nothing happens; otherwise the dictionary is the promoted one |
| PathOptimizer.OptimizePairAsWritten | app/src/main/java/org/wbftw/weil/chinese_keyboard/input/ime/InputMethodPathOptimizer.kt:63-68 | as written, the pair overload forwards word index -1 |
| PathOptimizer.OptimizePairAsWrittenIsNoOp | app/src/main/java/org/wbftw/weil/chinese_keyboard/input/ime/InputMethodPathOptimizer.kt:66 | as written, optimising a chosen pair never changes the dictionary |
| PathOptimizer.OptimizePair | app/src/main/java/org/wbftw/weil/chinese_keyboard/input/ime/InputMethodPathOptimizer.kt:63-68 | corrected: a chosen pair with a non-empty path promotes that path and word |
| TrieHelper.Descend | app/src/androidTest/java/org/wbftw/weil/chinese_keyboard/utils/TrieHelper.kt:33-36 | the descent ends at a terminal node inside the subtree, and a terminal start is its own end |
| TrieHelper.DescentFollowsBestChild | app/src/androidTest/java/org/wbftw/weil/chinese_keyboard/utils/TrieHelper.kt:34-36 | a non-terminal node's descent continues through a child of highest score |
| TrieHelper.GetCandidateList | app/src/androidTest/java/org/wbftw/weil/chinese_keyboard/utils/TrieHelper.kt:16-39 | an empty path or a missing char gives an empty list; otherwise the window of the ordered candidates at the first terminal reached by descent |
| TrieHelper.TerminalListsItself | app/src/androidTest/java/org/wbftw/weil/chinese_keyboard/utils/TrieHelper.kt:16-39 | at a terminal node with at most 20 words the list is that node's ordered candidates |
| TrieScenarios.TestTreeValid | app/src/androidTest/java/org/wbftw/weil/chinese_keyboard/TrieTreeTest.kt:41-60 | the test tree built by the fixture is well formed |
| TrieScenarios.CandidateListsBeforePromotion | app/src/androidTest/java/org/wbftw/weil/chinese_keyboard/TrieTreeTest.kt:72-88 | before promotion "1", "12" and "124" all list `[a, b, c]` |
| TrieScenarios.PromoteGLevels | app/src/androidTest/java/org/wbftw/weil/chinese_keyboard/TrieTreeTest.kt:117 | promoting "g" along "137" raises "g" at node 137 and the edges 1, 3 and 7, and nothing else |
| TrieScenarios.CandidateListsAfterPromotingB | app/src/androidTest/java/org/wbftw/weil/chinese_keyboard/TrieTreeTest.kt:91-110 | after promoting "b" along "124", the lists at "124", "12" and "1" are `[b, a, c]` |
| TrieScenarios.CandidateListsAfterPromotingG | app/src/androidTest/java/org/wbftw/weil/chinese_keyboard/TrieTreeTest.kt:113-131 | after promoting "g" along "137", the lists at "137", "13" and "1" are `[g]` |
| ScoreStore.EmptyStore | app/src/main/java/org/wbftw/weil/chinese_keyboard/input/ime/PersonalizedScoreManager.kt:14-28 | the store starts empty, unchanged, and within its capacity |
| ScoreStore.Get | app/src/main/java/org/wbftw/weil/chinese_keyboard/input/ime/PersonalizedScoreManager.kt:17 | an access-ordered read returns the record and moves its key to the most recent position; an absent key changes nothing |
| ScoreStore.Put | app/src/main/java/org/wbftw/weil/chinese_keyboard/input/ime/PersonalizedScoreManager.kt:17-28 | a put makes the key most recent with the value; a new key beyond capacity evicts the eldest key and sets the changed flag; the store never exceeds 2000 entries |
| ScoreStore.GetEffectiveScore | app/src/main/java/org/wbftw/weil/chinese_keyboard/input/ime/PersonalizedScoreManager.kt:37-43 | an absent key scores 0 and changes nothing; a present key gives its effective score and becomes most recent |
| ScoreStore.SetPathScore | app/src/main/java/org/wbftw/weil/chinese_keyboard/input/ime/PersonalizedScoreManager.kt:55-70 | the key maps to exactly (score, time), last write wins, it becomes most recent, other records are unchanged unless the eldest is evicted for a new key, no key other than `path` is added, an existing key moves to the most recent end, a new key is appended after the eldest is dropped from a full store, and the changed flag is set |
| ScoreStore.SetNewKey | app/src/main/java/org/wbftw/weil/chinese_keyboard/input/ime/PersonalizedScoreManager.kt:61-69 | below capacity a new key is appended at the end with its record |
| ScoreStore.SetLastKey | app/src/main/java/org/wbftw/weil/chinese_keyboard/input/ime/PersonalizedScoreManager.kt:56-60 | overwriting the most recent key keeps the order and replaces its record |
| ScoreStore.PromoteWordScore | app/src/main/java/org/wbftw/weil/chinese_keyboard/input/ime/PersonalizedScoreManager.kt:87-102 | an existing score gains `delta` with time now and the key moves to the most recent end; a new key gets (delta, now) and is appended after dropping the eldest key of a full store; the key is most recent and the changed flag is set |
| ScoreStore.PromoteIsSetPathScore | app/src/main/java/org/wbftw/weil/chinese_keyboard/input/ime/PersonalizedScoreManager.kt:87-102 | promoting is exactly `setPathScore` with the old score (0 if absent) plus `delta`, so it inherits that row's frame |
| ScoreStore.PromoteNewKeyKeepsOthers | app/src/main/java/org/wbftw/weil/chinese_keyboard/input/ime/PersonalizedScoreManager.kt:87-102 | promoting a new key keeps every other record unchanged, and only the eldest key of a full store can be dropped |
| ScoreStore.RemovePath | app/src/main/java/org/wbftw/weil/chinese_keyboard/input/ime/PersonalizedScoreManager.kt:76-79 | exactly the key is removed, other records are unchanged, and the changed flag is set |
| ScoreStore.ClearScoreDatabase | app/src/main/java/org/wbftw/weil/chinese_keyboard/input/ime/PersonalizedScoreManager.kt:134-138 | the store is empty and the changed flag is set |
| ScoreStore.Save | app/src/main/java/org/wbftw/weil/chinese_keyboard/input/ime/PersonalizedScoreManager.kt:107-113 | saving lists every record in access order |
| ScoreStore.LoadFromJson | app/src/main/java/org/wbftw/weil/chinese_keyboard/input/ime/PersonalizedScoreManager.kt:118-128 | a failed parse leaves the store unchanged; a successful one replaces the contents wholesale and clears the changed flag; a load within capacity saves back to what was loaded, and a load of more than 2000 records keeps the last 2000 of them in order |
| ScoreStore.PutAllKeepsLast | app/src/main/java/org/wbftw/weil/chinese_keyboard/input/ime/PersonalizedScoreManager.kt:17-27 | putting distinct new keys one after another saves the old records followed by the new ones, less as many of the eldest as exceed 2000 |
| ScoreStore.LoadKeepsLast | app/src/main/java/org/wbftw/weil/chinese_keyboard/input/ime/PersonalizedScoreManager.kt:118-128 | clearing and then loading more than 2000 distinct records saves exactly the last 2000 of them |
| ScoreStore.SaveClearLoadRoundTrip | app/src/main/java/org/wbftw/weil/chinese_keyboard/input/ime/PersonalizedScoreManager.kt:107-138 | save, clear, load reproduces the same keys in the same order with the same scores and times |
| ScoreStore.ScoreMapScenario | app/src/androidTest/java/org/wbftw/weil/chinese_keyboard/JsonTest.kt:44-74 | the five writes of the score test save the four expected records in order, and the reload preserves them |
| Associative.NewNode | app/src/main/java/org/wbftw/weil/chinese_keyboard/input/utils/AssociativeWordNode.kt:6-15 | a new node has no children, score 0 and no cache, and is the root iff its char is the root marker char |
| Associative.GetChild | app/src/main/java/org/wbftw/weil/chinese_keyboard/input/utils/AssociativeWordNode.kt:35-40 | a child is found iff its char is a child key; otherwise null |
| Associative.AddChild | app/src/main/java/org/wbftw/weil/chinese_keyboard/input/utils/AssociativeWordNode.kt:22-28 | an existing char changes nothing; a new char appends a fresh child; well-formedness is kept |
| Associative.AddChildIdempotent | app/src/main/java/org/wbftw/weil/chinese_keyboard/input/utils/AssociativeWordNode.kt:22-28 | adding the same child twice equals adding it once, and the node is no longer final |
| Associative.GetSortedChildrenKeys | app/src/main/java/org/wbftw/weil/chinese_keyboard/input/utils/AssociativeWordNode.kt:54-62 | a cached list is returned as is; otherwise a permutation of the child keys in descending child score is computed and cached; nothing else changes |
| Associative.SortedKeysBuiltOnce | app/src/main/java/org/wbftw/weil/chinese_keyboard/input/utils/AssociativeWordNode.kt:54-62 | a second read returns the first read's list and state |
| Associative.ClearCache | app/src/main/java/org/wbftw/weil/chinese_keyboard/input/utils/AssociativeWordNode.kt:80-82 | only the cache is dropped |
| Associative.ClearedCacheRanksCurrentChildren | app/src/main/java/org/wbftw/weil/chinese_keyboard/input/utils/AssociativeWordNode.kt:54-62 | after clearing, the read ranks the current children: a duplicate-free stable permutation of the keys |
| Associative.StaleCacheAfterScoreChange | app/src/main/java/org/wbftw/weil/chinese_keyboard/input/utils/AssociativeWordNode.kt:54-82 | a score change after a read is not reflected until the cache is cleared |
| Associative.Walk | app/src/main/java/org/wbftw/weil/chinese_keyboard/input/utils/AssociativeWordNode.kt:84-90 | the empty path reaches the node itself, and a reached node of a well-formed tree is well formed |
| Associative.GetCandidateWords | app/src/main/java/org/wbftw/weil/chinese_keyboard/input/utils/AssociativeWordNode.kt:84-90 | a missing char gives an empty list and no change; otherwise the reached node's sorted keys; only caches change |
| Associative.CandidateWordsRanked | app/src/main/java/org/wbftw/weil/chinese_keyboard/input/utils/AssociativeWordNode.kt:54-90 | with fresh caches the words are the reached node's child keys, each once, in descending child score |
| Associative.CandidateWordsRepeatable | app/src/main/java/org/wbftw/weil/chinese_keyboard/input/utils/AssociativeWordNode.kt:84-90 | asking twice gives the same words |
| AssociativeManager.NewManager | app/src/main/java/org/wbftw/weil/chinese_keyboard/input/ime/InputMethodAssociativeWordManager.kt:19-20 | a new manager is not ready |
| AssociativeManager.FinishLoading | app/src/main/java/org/wbftw/weil/chinese_keyboard/input/ime/InputMethodAssociativeWordManager.kt:26-46 | a ready manager is left alone; otherwise the loaded tree is stored and the manager becomes ready iff one was loaded |
| AssociativeManager.LastTwo | app/src/main/java/org/wbftw/weil/chinese_keyboard/input/ime/InputMethodAssociativeWordManager.kt:65-68 | input of at most two chars is kept; longer input is reduced to its last two chars |
| AssociativeManager.GetAssociativeWords | app/src/main/java/org/wbftw/weil/chinese_keyboard/input/ime/InputMethodAssociativeWordManager.kt:54-73 | empty while not ready, for empty input or without a tree; otherwise the tree's candidate words for the last two chars |
| AssociativeManager.LongInputUsesLastTwo | app/src/main/java/org/wbftw/weil/chinese_keyboard/input/ime/InputMethodAssociativeWordManager.kt:65-68 | only the last two chars of a longer input matter |
| AssociativeManager.SuggestionsRanked | app/src/main/java/org/wbftw/weil/chinese_keyboard/input/ime/InputMethodAssociativeWordManager.kt:54-73 | with fresh caches the suggestions are the reached node's child keys, each once, best first |
| JsonConverter.CharListToJson | app/src/main/java/org/wbftw/weil/chinese_keyboard/converter/JsonConverter.kt:14-19 | null or empty gives `[]`; otherwise each char is quoted, the quoted chars are joined by commas and the whole is bracketed |
| JsonConverter.CharListReadBack | app/src/main/java/org/wbftw/weil/chinese_keyboard/converter/JsonConverter.kt:14-19 | the chars can be read back from every fourth position of the output |
| JsonConverter.PairToJson | app/src/main/java/org/wbftw/weil/chinese_keyboard/converter/JsonConverter.kt:26-28 | the output has the `{"w":"` prefix, the word verbatim after it, the closing `"}` and fixed overhead 15 |
| JsonConverter.ListToJson | app/src/main/java/org/wbftw/weil/chinese_keyboard/converter/JsonConverter.kt:30-32 | the list is bracketed, empty gives `[]`, and a single pair gives `[`, that pair's JSON and `]` |
| JsonConverter.JoinPairsAppend | app/src/main/java/org/wbftw/weil/chinese_keyboard/converter/JsonConverter.kt:30-32 | joining two non-empty runs of pairs gives the first run's join, one comma, and the second run's join |
| JsonConverter.ListToJsonAppend | app/src/main/java/org/wbftw/weil/chinese_keyboard/converter/JsonConverter.kt:30-32 | the list JSON of two non-empty runs is the first run's list JSON without its `]`, a comma, and the second run's without its `[` |
| JsonConverter.ListStartsWithFirstPair | app/src/main/java/org/wbftw/weil/chinese_keyboard/converter/JsonConverter.kt:30-32 | the first pair's JSON follows the opening bracket |
| JsonConverter.ResultHead | app/src/main/java/org/wbftw/weil/chinese_keyboard/converter/JsonConverter.kt:41-45 | the result starts with `{"words":` and the list JSON follows at position 9 |
| JsonConverter.ResultCharsField | app/src/main/java/org/wbftw/weil/chinese_keyboard/converter/JsonConverter.kt:41-45 | right after the list JSON come `,"chars":` and then the char-list JSON |
| JsonConverter.ResultHasNextPageField | app/src/main/java/org/wbftw/weil/chinese_keyboard/converter/JsonConverter.kt:41-45 | right after the char-list JSON come `,"hasNextPage":` and then `true` or `false` as the flag says |
| JsonConverter.ResultLength | app/src/main/java/org/wbftw/weil/chinese_keyboard/converter/JsonConverter.kt:41-45 | the result is exactly 34 chars longer than the two list JSONs plus 4 for `true` or 5 for `false`, and ends with `}`, so nothing else is printed |
| JsonConverter.ParseCandidatePairFromJson | app/src/main/java/org/wbftw/weil/chinese_keyboard/converter/JsonConverter.kt:53-58 | null iff the pattern matches at no position; a match yields a non-empty, quote-free word and path |
| JsonConverter.PairRoundTrip | app/src/main/java/org/wbftw/weil/chinese_keyboard/converter/JsonConverter.kt:26-58 | parsing a printed pair with a non-empty, quote-free word and path gives the pair back |
| JsonConverter.EmptyWordNotRead | app/src/main/java/org/wbftw/weil/chinese_keyboard/converter/JsonConverter.kt:53-58 | a pair with an empty word is printed but cannot be read back |
| JsonConverter.ListReadsFirstPair | app/src/main/java/org/wbftw/weil/chinese_keyboard/converter/JsonConverter.kt:30-58 | parsing a list's JSON yields its first pair |
| JsonConverter.ResultReadsFirstPair | app/src/main/java/org/wbftw/weil/chinese_keyboard/converter/JsonConverter.kt:41-58 | parsing a result's JSON yields the first pair of its word list |
| JsonConverter.CharListExample | app/src/androidTest/java/org/wbftw/weil/chinese_keyboard/JsonTest.kt:20-22 | `[a, b, c]` prints as `["a","b","c"]` |
| JsonConverter.ListExample | app/src/androidTest/java/org/wbftw/weil/chinese_keyboard/JsonTest.kt:38-40 | the two test pairs print as the expected list JSON |
| JsonConverter.ParseExample | app/src/androidTest/java/org/wbftw/weil/chinese_keyboard/JsonTest.kt:28-36 | the second test pair is read back from its JSON |
| DictionaryBuilder.NormalizeCode | app/src/main/java/buildtools/DictionaryBuilder.kt:129-135 | the code is kept iff it is empty or ends in a tone char 6/3/4/7; otherwise one space is appended |
| DictionaryBuilder.NormalizeTwice | app/src/main/java/buildtools/DictionaryBuilder.kt:129-135 | normalisation is not idempotent: a toneless code gets a second space |
| DictionaryBuilder.Trim | app/src/main/java/buildtools/DictionaryBuilder.kt:79 | trimming yields empty iff the line is blank, otherwise a string with no whitespace at either end; an already trimmed string is unchanged |
| DictionaryBuilder.SplitCodeWord | app/src/main/java/buildtools/DictionaryBuilder.kt:79-80 | no split iff the line has no `\s` char (ASCII whitespace); otherwise the code before the first `\s` run and the rest after it |
| DictionaryBuilder.ParseDictLine | app/src/main/java/buildtools/DictionaryBuilder.kt:77-88 | blank and `#` lines are skipped; a kept line gives a code free of `\s` chars (ASCII whitespace) and a non-empty word |
| DictionaryBuilder.DictLineRoundTrip | app/src/main/java/buildtools/DictionaryBuilder.kt:77-88 | a line `code word` is read back as (code, word) |
| DictionaryBuilder.EntryOf | app/src/main/java/buildtools/DictionaryBuilder.kt:77-88 | a line is kept iff it parses, and its normalised code ends in a tone char or a space |
| DictionaryBuilder.AddWordToTree | app/src/main/java/buildtools/DictionaryBuilder.kt:114-124 | after adding, the node at the path exists and holds the word; the tree stays well formed |
| DictionaryBuilder.AddWordKeeps | app/src/main/java/buildtools/DictionaryBuilder.kt:114-124 | adding a word never removes an existing path or word |
| DictionaryBuilder.BuildDictionaryComplete | app/src/main/java/buildtools/DictionaryBuilder.kt:63-106 | every kept dictionary line's word is found at its code's node in the built tree |
| TrigramBuilder.AddPath | app/src/main/java/buildtools/TrigramBuilder.kt:90-94 | the word's path exists afterwards with the frequency as its score, overwriting any older one; existing paths stay |
| TrigramBuilder.AddNodeRecursively | app/src/main/java/buildtools/TrigramBuilder.kt:81-102 | below the threshold it returns 1 and leaves the tree alone; otherwise it returns 0 and the word's node has the frequency as score |
| TrigramBuilder.AddPathKeepsNodes | app/src/main/java/buildtools/TrigramBuilder.kt:90-94 | inserting a path never removes an existing one |
| TrigramBuilder.CalculateScoresPostOrder | app/src/main/java/buildtools/TrigramBuilder.kt:104-116 | leaves keep their scores, the shape is unchanged, and each internal node's score is the sum of the leaf scores below it, which is also the result |
| TrigramBuilder.PrefixWordLosesFrequency | app/src/main/java/buildtools/TrigramBuilder.kt:104-116 | a word that is a prefix of another loses its own frequency to the sum below it |
| TrigramBuilder.CountNodes | app/src/main/java/buildtools/TrigramBuilder.kt:135-139 | the count is at least 1 |
| TrigramBuilder.AddChildCount | app/src/main/java/buildtools/TrigramBuilder.kt:135-139 | adding a new child adds exactly one node to the count, and an existing one adds none |
| TrigramBuilder.CountByShape | app/src/main/java/buildtools/TrigramBuilder.kt:135-139 | the count depends only on the tree's shape, so the score pass does not change it |
| TrigramBuilder.Split | app/src/main/java/buildtools/TrigramBuilder.kt:36 | splitting on a separator gives separator-free fields that join back to the line |
| TrigramBuilder.SplitJoin | app/src/main/java/buildtools/TrigramBuilder.kt:36 | joining separator-free fields and splitting again gives the fields back |
| TrigramBuilder.ToIntOrNull | app/src/main/java/buildtools/TrigramBuilder.kt:39 | empty text and a lone sign are rejected; an accepted text gives a value within the 32-bit range |
| TrigramBuilder.IntRoundTrip | app/src/main/java/buildtools/TrigramBuilder.kt:39 | `toIntOrNull` reads every 32-bit integer back from its decimal form |
| TrigramBuilder.ParseTrigramLine | app/src/main/java/buildtools/TrigramBuilder.kt:36-39 | a line is rejected iff it has no tab; otherwise the word is the text before the first tab |
| TrigramBuilder.LineRoundTrip | app/src/main/java/buildtools/TrigramBuilder.kt:36-39 | a line `word<TAB>frequency` is read back as (word, frequency) |
| TrigramBuilder.LineBadFrequency | app/src/main/java/buildtools/TrigramBuilder.kt:39 | a non-integer frequency is read as 0 |
| TrigramBuilder.LineExtraField | app/src/main/java/buildtools/TrigramBuilder.kt:36-39 | fields after the second are ignored |

## Left out

- **I/O and runtime glue.** Android, Compose and WebView glue (`MainActivity.kt`, `keyevent.js`) is left out, as are the asset loaders in `DictionaryLoader.kt` (Java object deserialisation). The builders' file reading, `main` and `ObjectOutputStream` serialisation are left out too. The builders are modelled from an already-read list of lines.
- **Concurrency.** The background coroutine and cancellation in the associative manager are left out. A load's outcome is the `loaded` parameter of `AssociativeManager.FinishLoading`, and readiness is a flag. No locking is modelled; callers are assumed to be sequential.
- **Effective score.** `ScoreData.calculateEffectiveScore` is not part of this model. It uses logarithms and floats, so it is a function parameter of `ScoreStore.GetEffectiveScore`. The clock in `promoteWordScore` is the `now` parameter.
- **Gson.** `saveToJson` and `loadFromJson` use Gson. Its JSON text is replaced by the ordered list of `(key, score, time)` entries, and a failed or duplicate-key parse becomes `None`. The Gson exception path is therefore "store unchanged".
- **Sorted-view caches.** The sorted-view caches of `UniformTrieNode` (dirty flags and cached lists) are not modelled: the ordered views are always recomputed from the current state. In the source only the score setters mark a cache dirty (UniformTrieNode.kt lines 96 and 137). `addChild` (lines 42-49) and `addCandidate` (lines 56-61) do not. So an ordered view read before a later insertion stays stale in the source until the next score change, while the model shows the new child or word at once. The dictionary and the trie tests finish all insertions before the first ordered read, and from then on the two agree. The associative node's cache is modelled, stale reads included.
- **Floating point in the search score.** The search score `totalScore / pathLength` is computed as an exact rational (`real`), not as a Double. `floor(size * 0.3)` is `(3 * size) / 10`, which agrees for every size because the clamp to 5 caps it.
- **PriorityQueue ties.** The Java priority queue leaves ties unspecified. The model fixes one tie-break: the earliest-offered entry of highest score is polled first.
- PathSearcher.BestFirstSearch: does not claim that every terminal of the subtree is found. The visited-score map is keyed by the node's char, because node equality covers only the char. A later node with the same char is skipped unless it scores strictly higher, so the contract states soundness and no duplicates, not completeness.
- **Integer overflow.** Kotlin `Int` overflow of scores (`score + 1`, `score + delta`, sums in the post-order pass) is not modelled; scores are unbounded integers. `toIntOrNull`'s 32-bit range is modelled.
- TrigramBuilder.ToIntOrNull: only ASCII digits are accepted as digits. Kotlin's `toIntOrNull` also accepts other Unicode decimal digits.
- AssociativeManager.LastTwo: a Kotlin `Char` is a UTF-16 code unit, while a Dafny `char` is a Unicode scalar value. `String.length` and `takeLast(2)` count code units, so for a word with a character outside the Basic Multilingual Plane (`"a𠀀"`, length 3 in Kotlin) the source keeps only the surrogate pair, while the model keeps both characters. The same abstraction applies wherever a string or a `List<Char>` is modelled as `seq<char>`, including the JSON char lists. A lone surrogate code unit has no counterpart in the model.
- Trie.FilterList: requires a non-negative index whenever the list is non-empty and the index is below its size. For a negative index there, `subList` throws (UniformTrieNode.kt lines 240 and 244). Every caller passes index 0.
- Trie.GetPromoteCandidates: the same requirement as `filterList`, on the candidate list, for the same reason. Every caller passes index 0.
- TrieHelper.Descend: requires `DescentOk`: every non-terminal node on the descent has a child. On a non-terminal node without children `getFirstNode()` returns null, and the next `isNotFinalNode()` call throws a NullPointerException (TrieHelper.kt lines 34-35). Tries built by inserting non-empty words never have such a node.
- TrieHelper.GetCandidateList: requires `ListOk`: the descent from the node the path reaches satisfies `DescentOk`, and the index is not negative when it is below the size of the terminal node's list. The source throws in both cases, as for `Descend` and `filterList`.
- CandidateProvider.GetDirectCandidates: requires `DirectPageOk`: when the page start `page * perPage` is below the number of words, both the start and the page size are non-negative. Otherwise `subList` throws (UltraEfficientCandidateProvider.kt line 61). The session cursor and the configured page size are never negative.
- PathSearcher.SearchForCandidatesForward: requires a non-negative start node index. For a negative start the range `startNodeIndex until endNodeIndex` is never empty, and its first step reads `bfsResultCache!![ni]` at a negative index and throws (UltraEfficientPathSearcher.kt line 161). It also requires a non-negative `extracted` when the start node is in range and `perPage > 0`. Otherwise the source reads `nodeCandidates[-1]` and throws (UltraEfficientPathSearcher.kt lines 170-171). The search cursor never holds a negative node or word index: the start index is the default 0 or a copy of the current one, and the word index is a produced `wordIndex` plus one or the default 0.
- PathSearcher.GetCurrentPageResult: on a forward page (a page number past the page cache), requires a computed result list and the start and word indices that `SearchForCandidatesForward` requires. Without a result list `bfsResultCache!!.size` throws a NullPointerException (UltraEfficientPathSearcher.kt line 119), and the bad indices throw as stated for `SearchForCandidatesForward`. Its only caller, the provider, runs the search first, which stores the result list, and passes a cursor with non-negative indices.
- CandidateProvider.GetCandidates: on a forward page of a node that is not a pure leaf, requires a non-negative start node index, and a non-negative word index when the start is in range and the page size is positive. These are the inputs on which `getCurrentPageResult` throws (see `PathSearcher.GetCurrentPageResult`). The manager, its only caller, keeps both indices non-negative (`CandidateManager.SessionInv`).
- **JSON escaping.** JSON string escaping (section 7 of RFC 8259) is not done by the converter and not modelled. The round trip is stated only for non-empty, quote-free words and paths. The `Regex` is modelled by a hand-written matcher of the same pattern. The `chars` and `hasNextPage` fields of the result JSON are printed but not read back.
- CandidateManager.SetInput: the cursor fields `hasNextPage` and `nextState` keep their old values until the next page fetch, as in the source. The "aligned" session properties therefore assume that the first fetch follows `setInput`.
- CandidateManager.NewSession: requires a well-formed tree and a non-negative page size. The source assumes both of the dictionary it loads.
- CandidateManager.CurrentPageFull: the session is composed with the corrected provider `CandidateProvider.GetCandidates`, which passes the requested cursor to the searcher (first row of "## Findings"). As written, the provider passes its own `currentSearchState`, which is always the default cursor (UltraEfficientCandidateProvider.kt line 91). So in the program a node that is not a pure leaf shows page 0 again for every later page number, while the model shows the requested page. `CandidateProvider.AsWrittenNeverLeavesPageZero` states the as-written behaviour; the same applies to `CandidateManager.NextPage` and `CandidateManager.PrevPage`, which fetch through `CurrentPageFull`.
- **Score store shape.** `ScoreData` is modelled as its two fields `score` and `lastAccessTime`, which are the only fields the store and its test use.
- **Test fixtures.** `IMETest.kt` depends on the real dictionary asset, which is not part of this model. Its assertions have no counterpart here. `TrigramTreeTest.kt` also depends on the real trigram asset, so only its structural expectations are reflected (`TrigramBuilder.PrefixWordLosesFrequency`).
- **Accessors without behaviour.** Trivial accessors (`getKey`, `getSelfScore`, `getCandidatesSize`, `getChildren`, `getScore`, `setScore`, `getValueChanged`, `getScoreDatabase`) and `dump`/`toString` are plain field reads in the model and have no rows of their own. So are `UniformTrieNode.getCandidateScore` (`Trie.GetCandidateScore`, a map read defaulting to 0, whose behaviour the `Trie.SetCandidateScore` row states), `getFullPath` (`Trie.GetFullPath`, the stored path), `AssociativeWordNode.isRoot` and `isFinal` (`Associative.IsRoot`, the key is the root marker, and `Associative.IsFinal`, there are no children, which `Associative.NewNode` and `Associative.AddChild` state), and `isManagerReady` (`AssociativeManager.IsManagerReady`, the ready flag, which the `AssociativeManager.NewManager` and `AssociativeManager.FinishLoading` rows state).

## Findings

| source | as written | input that shows it | evidently intended | confidence | as-written member | corrected member |
|---|---|---|---|---|---|---|
| app/src/main/java/org/wbftw/weil/chinese_keyboard/input/utils/UltraEfficientCandidateProvider.kt:91 | the searcher is called with the provider's own `currentSearchState`, which is always the default cursor | any node that is not a terminal leaf: request page 0, then page 1 with the manager's next cursor; page 0 comes back twice | use the `searchState` argument | not executed | CandidateProvider.AsWrittenNeverLeavesPageZero | CandidateProvider.GetCandidates |
| app/src/main/java/org/wbftw/weil/chinese_keyboard/input/ime/InputMethodPathOptimizer.kt:66 | the pair overload passes `wordIndex = -1`, which the guard at line 27 rejects | any chosen pair with a dictionary loaded: the tree is unchanged | pass a non-negative index so that the chosen path and word are promoted | not executed | PathOptimizer.OptimizePairAsWrittenIsNoOp | PathOptimizer.OptimizePair |
