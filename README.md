# Verified models of the caches, data structures and algorithms of `irs`

This project models, in Dafny, the core of a Java collection of caches,
data structures and interview-style algorithms, and proves what each of
them promises. Every source file of the core is one Dafny module in one
file:

| source | module | file |
|---|---|---|
| custom/LRUCacheDemo.java (`LFUCache`) | `LfuCache` | lfu_cache.dfy |
| custom/LRUCache.java (`LRUCache<T>`) | `LruCache` | lru_cache.dfy |
| problems/Queue/design/design-hit-counter/Solution.java | `HitCounterModel` | hit_counter.dfy |
| custom/RateLimiterDemo.java (`SlidingWindowLogStrategy`) | `RateLimiter` | rate_limiter.dfy |
| custom/UnionFindDemo.java | `UnionFindModel` | union_find.dfy |
| custom/TrieDataStructure.java | `TrieModel` | trie.dfy |
| solutions/word-search-ii.java | `WordSearch` | word_search.dfy |
| custom/ConsistentHashingDemo.java | `ConsistentHashingModel` | consistent_hashing.dfy |
| custom/MergeSortDemo.java | `MergeSortModel` | merge_sort.dfy |
| custom/QuickSortDemo.java | `QuickSortModel` | quick_sort.dfy |
| solutions/sliding-window-maximum.java | `SlidingWindowMax` | sliding_window_max.dfy |
| problems/linked-list/reverse-nodes-in-kgroups/solution.java | `ReverseKGroup` | reverse_k_group.dfy |
| problems/stack/valid-parentheses-string/solution.java | `ValidParens` | valid_parens.dfy |
| problems/sliding-window/permutation-in-string/solution.java | `PermutationInString` | permutation_in_string.dfy |
| solutions/product-of-array-except-self.java | `ProductExceptSelf` | product_except_self.dfy |
| problems/arrays-hashing/smallest-consecutive-sequence/solution.java | `LongestConsecutive` | longest_consecutive.dfy |
| problems/arrays-hashing/buy-sell-stocks-2/solution.java | `MaxProfit` | max_profit.dfy |
| problems/arrays-hashing/top-k-frequent-elements/solution.java | `TopKFrequent` | top_k_frequent.dfy |
| problems/heap-priority-queue/employee-free-time/solution.java | `EmployeeFreeTime` | employee_free_time.dfy |
| problems/sliding-window/smallest-range-covering-elements-from-k-lists/solution.java | `SmallestRange` | smallest_range.dfy |
| custom/DijkstraDemo.java | `Dijkstra` | dijkstra.dfy |

`SeqUtil` (seq_util.dfy) holds the sequence facts the list-based models
share.

How the source's forms are carried over:

- Objects whose methods update their fields are classes. Their fields
  keep the source's names. Their methods carry `modifies` clauses and
  state the whole new state.
- Doubly-linked lists with sentinels are modelled as the sequence of the
  keys they link, head first. Unlinking a node is `SeqUtil.Without`;
  linking it after the head sentinel is prepending. Hash maps are Dafny
  maps. Hash sets are sets. Queues and deques are sequences, front first.
- Arrays the source sorts or fills in place stay arrays: merge sort,
  quick sort, product-except-self, the union-find parents and sizes, the
  bucket array of top-k-frequent, the distance array of Dijkstra and the
  board of word search.
- The trie's linked `Node` objects become an arena: node k is row k of a
  sequence of 26-slot rows held by the `TrieNode` class, with `Null` for
  a missing child.
- Loops are `while`/`for` loops with invariants. Each method is proved
  against a specification function, and the properties of that function
  are lemmas.
- Java `int` is modelled as unbounded `int`. Where the source relies on
  `Integer.MAX_VALUE` as a sentinel, the constant is kept.

## Model

| member | source | states |
|---|---|---|
| LfuCache.Unlink | custom/LRUCacheDemo.java:130-135 | unlinking a node removes its key from the list of its own frequency, keeps every other key of that list and keeps it free of repeats; every other list and the set of lists are unchanged |
| LfuCache.LinkAtHead | custom/LRUCacheDemo.java:141-155 | the node is linked first in the list of its frequency, ahead of that list's old keys in their old order, and that list is created when absent; every other list is unchanged |
| LfuCache.OnlyInOwnList | custom/LRUCacheDemo.java:106-125 | a cached key sits in no frequency list other than the one for its own frequency |
| LfuCache.PromotePlaced | custom/LRUCacheDemo.java:106-125 | after a node's frequency goes up by one, every cached node still sits in the list of its own frequency |
| LfuCache.PromoteWellFormed | custom/LRUCacheDemo.java:113-124 | after promotion every list is non-empty (the emptied list is removed) and holds no key twice |
| LfuCache.PromoteMembers | custom/LRUCacheDemo.java:106-125 | after promotion every list holds only cached keys of that list's frequency |
| LfuCache.PromoteMinTracked | custom/LRUCacheDemo.java:116-120 | the updated `minFrequency` is a frequency with a list, and no list has a smaller frequency |
| LfuCache.VictimIsLeastFrequent | custom/LRUCacheDemo.java:80-82 | in a non-empty cache the tail of the `minFrequency` list exists, is cached, and no cached key has a lower frequency |
| LfuCache.PromoteKeepsConsistent | custom/LRUCacheDemo.java:106-125 | `updateFrequency` keeps the cache consistent: nodes placed, lists well formed, minimum tracked, size within capacity |
| LfuCache.EvictKeepsLists | custom/LRUCacheDemo.java:80-91 | evicting the tail of the `minFrequency` list removes exactly that key, which has frequency `minFrequency`, and leaves the nodes and lists matching |
| LfuCache.EvictPlaced | custom/LRUCacheDemo.java:84-91 | after the eviction every remaining node still sits in its frequency's list |
| LfuCache.InsertKeepsConsistent | custom/LRUCacheDemo.java:94-98 | inserting a new key with frequency 1 into a cache below capacity gives a consistent cache with `minFrequency` 1 |
| LfuCache.InsertPlaced | custom/LRUCacheDemo.java:94-98 | after the insert every node, the new one included, sits in the list of its frequency |
| LfuCache.InsertLists | custom/LRUCacheDemo.java:94-98 | after the insert the lists are well formed and hold only cached keys of matching frequency |
| LfuCache.LFUCache.constructor | custom/LRUCacheDemo.java:47-50 | a new cache is empty, has the given capacity, and starts with `minFrequency` 0 |
| LfuCache.LFUCache.Get | custom/LRUCacheDemo.java:56-64 | a missing key gives -1 and changes nothing; a present key gives its value, its frequency goes up by one, and it moves to the head of the next frequency's list |
| LfuCache.LFUCache.Put | custom/LRUCacheDemo.java:70-100 | capacity 0 ignores the put. An existing key takes the new value and is promoted. A new key in a full cache first evicts the least-frequently, least-recently used key. A new key enters with frequency 1 and `minFrequency` becomes 1. The cache stays consistent |
| LfuCache.LFUCache.UpdateFrequency | custom/LRUCacheDemo.java:106-125 | the node's frequency goes up by one and it moves to the head of the new frequency's list; an emptied list is removed, and `minFrequency` goes up when that was the minimum |
| LfuCache.LFUCache.RemoveNode | custom/LRUCacheDemo.java:130-135 | only the node's own frequency list changes, losing the node |
| LfuCache.LFUCache.AddNodeToFrequencyList | custom/LRUCacheDemo.java:141-155 | the node is linked at the head of its frequency's list, which is created if absent |
| LruCache.Touch | custom/LRUCache.java:85-87 | after unlinking and relinking, the key is first, the list still holds no key twice, and it holds the old keys plus the key |
| LruCache.PutKeepsConsistent | custom/LRUCache.java:60-77 | the state after `put` has the list `AfterPut` (key at the head, tail dropped when the map grew past capacity), and map and list stay consistent: same keys, no duplicates, at most `capacity` entries |
| LruCache.PutSize | custom/LRUCache.java:62-69 | before the capacity test, the touched list holds exactly the keys of the updated map, once each |
| LruCache.EvictTailConsistent | custom/LRUCache.java:71-75 | unlinking the tail and removing its key from the map brings an over-full cache back within capacity, consistent |
| LruCache.ListedIffCached | custom/LRUCache.java:81-87 | a key is in the map exactly when it is linked in the recency list |
| LruCache.NotCachedNotListed | custom/LRUCache.java:62-65 | the list of a key not in the map does not change when the key is unlinked |
| LruCache.TouchKeepsConsistent | custom/LRUCache.java:85-87 | moving a cached key to the head keeps map and list consistent |
| LruCache.TouchSize | custom/LRUCache.java:62-69 | touching a key in a list that holds exactly a set of keys gives a list that holds those keys plus the key, once each |
| LruCache.TouchKeepsOrder | custom/LRUCache.java:85-87 | touching the key at position i puts it first and keeps all the others in their old relative order |
| LruCache.PutPlacesKeyAtHead | custom/LRUCache.java:60-77 | after `put` the key is most recent and the list fits the capacity. A new key in a full cache drops exactly the least recently used key. An existing key leaves the length unchanged |
| LruCache.LRUCache.constructor | custom/LRUCache.java:50-57 | a new cache is empty, with the given capacity |
| LruCache.LRUCache.AddNode | custom/LRUCache.java:91-97 | the key is linked at the head; the map is unchanged |
| LruCache.LRUCache.Remove | custom/LRUCache.java:99-104 | the key is unlinked, the rest of the list keeps its order; the map is unchanged |
| LruCache.LRUCache.Put | custom/LRUCache.java:60-77 | the list becomes `AfterPut` of the old list, every key left in the map maps to its value after the update, and the cache stays consistent |
| LruCache.LRUCache.Get | custom/LRUCache.java:80-89 | a missing key gives no value (`null`) and changes nothing; a present key gives its value and moves to the head; the map never changes |
| LruCache.CacheStrategyScenario | custom/LRUCache.java:9-19 | the demo in `CacheStrategy.main` with capacity 2 reads A as str1, B as missing, A as missing, C as str3 and D as str4 |
| LruCache.ScenarioFirst | custom/LRUCache.java:9-13 | after putting A and B and reading A, the list is A, B and A reads str1 |
| LruCache.ScenarioSecond | custom/LRUCache.java:14-15 | putting C evicts B, the least recently used key, so B reads as missing |
| LruCache.ScenarioThird | custom/LRUCache.java:16 | putting D evicts A; the list is D, C |
| LruCache.ScenarioFourth | custom/LRUCache.java:17-19 | A reads as missing, C as str3, D as str4 |
| HitCounterModel.TotalIsSize | problems/Queue/design/design-hit-counter/Solution.java:9-16 | the running `total` of the deque's counts is the number of hits the coalesced entries stand for |
| HitCounterModel.Coalesce | problems/Queue/design/design-hit-counter/Solution.java:22-23 | a hit at the timestamp of the last entry bumps that entry's count: the deque then stands for the hits plus the new one, still in order, and its total is one more |
| HitCounterModel.AppendNew | problems/Queue/design/design-hit-counter/Solution.java:24-25 | a hit at a new, later timestamp appends an entry with count 1: the deque stands for the hits plus the new one, still in order, and its total is one more |
| HitCounterModel.RecordKeeps | problems/Queue/design/design-hit-counter/Solution.java:20-27 | either branch of `hit` records one more hit, keeps the entries in timestamp order and raises the total by one |
| HitCounterModel.PopFront | problems/Queue/design/design-hit-counter/Solution.java:38-39 | removing the oldest entry leaves exactly the hits after its timestamp |
| HitCounterModel.StableBoundary | problems/Queue/design/design-hit-counter/Solution.java:37-38 | once the oldest entry is past the boundary, the deque holds exactly the hits after the boundary |
| HitCounterModel.AboveIsWindow | problems/Queue/design/design-hit-counter/Solution.java:6 | for hits no later than t, those after t - 300 are exactly the hits in the window (t - 300, t] |
| HitCounterModel.AboveAbove | problems/Queue/design/design-hit-counter/Solution.java:36-41 | evicting up to one boundary and then up to a later one is evicting up to the later one |
| HitCounterModel.HitCount | problems/Queue/design/design-hit-counter/Solution.java:27-28 | after a hit at t and the eviction, the total is the number of earlier hits in the window plus one |
| HitCounterModel.Report | problems/Queue/design/design-hit-counter/Solution.java:31-34 | after the eviction at t, the total is the number of hits in the window (t - 300, t] |
| HitCounterModel.HitCounter.constructor | problems/Queue/design/design-hit-counter/Solution.java:15-18 | an empty deque, total 0, no hits |
| HitCounterModel.HitCounter.Hit | problems/Queue/design/design-hit-counter/Solution.java:20-29 | the hit is recorded, the total becomes the earlier hits in the window plus one, every entry left is inside the window, and a hit at the last entry's timestamp bumps that entry |
| HitCounterModel.HitCounter.GetHits | problems/Queue/design/design-hit-counter/Solution.java:31-34 | returns the number of hits in the window (t - 300, t] and forgets no hit |
| HitCounterModel.HitCounter.EvictOld | problems/Queue/design/design-hit-counter/Solution.java:36-41 | removes exactly the entries at or before t - 300, keeps the total equal to the remaining counts, and keeps the last entry when it is inside the window |
| HitCounterModel.GetHitsTwice | problems/Queue/design/design-hit-counter/Solution.java:31-34 | two `getHits` at the same timestamp answer the same |
| RateLimiter.Prune | custom/RateLimiterDemo.java:97-99 | the pruning loop leaves a suffix of the log whose first timestamp is inside the window, having dropped only timestamps at or before `now - window` |
| RateLimiter.PruneLeavesWindow | custom/RateLimiterDemo.java:94-99 | on a log in time order, every timestamp left is inside the window |
| RateLimiter.PruneIsInWindow | custom/RateLimiterDemo.java:94-99 | on a log in time order, the polling loop keeps exactly the timestamps inside the window, in order |
| RateLimiter.PruneIdempotent | custom/RateLimiterDemo.java:97-99 | pruning twice at the same time is pruning once |
| RateLimiter.ConstructorError | custom/RateLimiterDemo.java:78-84 | construction fails exactly when the window or the maximum is not positive, with the source's message for the first failing check |
| RateLimiter.SlidingWindowLogStrategy.constructor | custom/RateLimiterDemo.java:78-88 | an empty log, the window in milliseconds and the maximum as given |
| RateLimiter.SlidingWindowLogStrategy.PruneLog | custom/RateLimiterDemo.java:97-99 | the log stays in time order and becomes its pruning at `now`, which is exactly the old log's timestamps inside the window (`InWindow`) |
| RateLimiter.SlidingWindowLogStrategy.Allow | custom/RateLimiterDemo.java:91-106 | with a clock that does not run backwards, a request is allowed exactly when fewer than the maximum of the old log's timestamps lie inside the window; the log becomes those timestamps, followed by `now` when allowed, so every logged timestamp lies in the window ending at `now` and the log stays in time order |
| RateLimiter.SlidingWindowLogStrategy.GetCurrentRequestCount | custom/RateLimiterDemo.java:108-115 | the log becomes the old log's timestamps inside the window, and the count is how many there are |
| RateLimiter.NewSlidingWindowLogStrategy | custom/RateLimiterDemo.java:78-88 | returns the error message of the first failing check, or a fresh limiter with an empty log |
| RateLimiter.AllowKeepsSorted | custom/RateLimiterDemo.java:101-103 | logging `now` after pruning keeps the log in time order |
| UnionFindModel.Compress | custom/UnionFindDemo.java:26 | path compression keeps the forest, every element's root and the set of roots |
| UnionFindModel.Link | custom/UnionFindDemo.java:40-52 | linking one root under another relabels the loser's component with the winner and leaves one root fewer |
| UnionFindModel.Winner | custom/UnionFindDemo.java:40-51 | the root with the larger `size` survives, A on a tie |
| UnionFindModel.UnionEffect | custom/UnionFindDemo.java:30-54 | `union` changes nothing when everything is connected or A and B already share a root; otherwise the components of A and B become one, `count` drops by one and `time` is the edge's |
| UnionFindModel.UnionCountsComponents | custom/UnionFindDemo.java:52 | `count` stays the number of components |
| UnionFindModel.RootsAreLabels | custom/UnionFindDemo.java:22-28 | the roots of the forest are exactly the component labels |
| UnionFindModel.UnionFind.constructor | custom/UnionFindDemo.java:11-20 | every element is its own root, `size[i] == i`, `count` is the number of nodes and `time` is 0 |
| UnionFindModel.UnionFind.FindParent | custom/UnionFindDemo.java:22-28 | returns the root of `a` and keeps every element's root |
| UnionFindModel.UnionFind.Union | custom/UnionFindDemo.java:30-54 | the abstract state after the call is `UnionSpec` of the one before; once `count` is 1 the call returns before touching a and b, so any a and b are accepted then |
| UnionFindModel.UnionFind.Merge | custom/UnionFindDemo.java:40-53 | the loser's component takes the winner's label, the winner's size grows by the loser's, `count` drops by one and `time` is set |
| UnionFindModel.UnionFind.Attach | custom/UnionFindDemo.java:41-42 | the loser's parent becomes the winner and the winner's size grows by the loser's |
| UnionFindModel.ConnectedStays | custom/UnionFindDemo.java:31-32 | once everything is connected, further unions change nothing |
| UnionFindModel.ReportedFixedIsFinal | custom/UnionFindDemo.java:78-85 | the corrected loop reports the time of the last merge exactly when all unions together connect everything |
| UnionFindModel.ReportedIgnoresLastEdge | custom/UnionFindDemo.java:78-85 | the loop as written reports what the corrected loop reports without the last edge |
| UnionFindModel.LastEdgeUnreported | custom/UnionFindDemo.java:78-85 | on two nodes joined by the one edge {0, 1, 4}, the edge connects them but the loop as written reports nothing |
| UnionFindModel.FindTime | custom/UnionFindDemo.java:74-89 | the loop as written, over the edges sorted by time, reports `Reported` |
| UnionFindModel.FindTimeFixed | custom/UnionFindDemo.java:74-89 | the loop with the test repeated after the last union reports `ReportedFixed` |
| TrieModel.ReachLabel | custom/TrieDataStructure.java:97-106 | `traverse` along the word of a node reaches that node |
| TrieModel.LabelOfReach | custom/TrieDataStructure.java:97-106 | a node reached from n along w spells n's word followed by w |
| TrieModel.FoundIffWord | custom/TrieDataStructure.java:61-64 | `search` succeeds exactly for the inserted words |
| TrieModel.InsertedPrefixesContained | custom/TrieDataStructure.java:66-69 | every prefix of an inserted word is reachable |
| TrieModel.NextOnWord | custom/TrieDataStructure.java:50-59 | a node spelling a proper prefix of an inserted word has a child under the word's next letter |
| TrieModel.EndOfWord | custom/TrieDataStructure.java:50-59 | the node spelling an inserted word carries the end-of-word flag |
| TrieModel.ContainsIffPrefix | custom/TrieDataStructure.java:66-69 | a string is reachable exactly when it is empty or a prefix of an inserted word |
| TrieModel.AddChild | custom/TrieDataStructure.java:53-55 | adding a missing child keeps the arena a tree whose nodes spell their paths |
| TrieModel.MarkWord | custom/TrieDataStructure.java:58 | flagging a node adds exactly its word to the inserted words |
| TrieModel.WildWithoutDots | custom/TrieDataStructure.java:76-95 | on a pattern without '.', `searchWildCard` is `search` |
| TrieModel.WildSound | custom/TrieDataStructure.java:79-84 | whatever the loop as written finds, the corrected search also finds |
| TrieModel.WildAnyIffMatchingWord | custom/TrieDataStructure.java:71-95 | the corrected search succeeds exactly when an inserted word matches the pattern |
| TrieModel.ChildrenSound | custom/TrieDataStructure.java:120-125 | the pairs pushed for a node are its children, once each, with their words |
| TrieModel.ChildrenComplete | custom/TrieDataStructure.java:120-125 | every child of the node is pushed |
| TrieModel.TrieNode.constructor | custom/TrieDataStructure.java:45-48 | a trie with only the root and no words |
| TrieModel.TrieNode.Insert | custom/TrieDataStructure.java:50-59 | the inserted words grow by exactly `word` |
| TrieModel.TrieNode.AddNode | custom/TrieDataStructure.java:53-54 | a fresh node is hung in the missing slot; the words stay the same |
| TrieModel.TrieNode.Traverse | custom/TrieDataStructure.java:97-106 | returns the node reached along the word, which spells the word, or `Null` |
| TrieModel.TrieNode.Search | custom/TrieDataStructure.java:61-64 | true exactly when the word was inserted |
| TrieModel.TrieNode.Contains | custom/TrieDataStructure.java:66-69 | true exactly when the string is empty or a prefix of an inserted word |
| TrieModel.TrieNode.WildCardSearch | custom/TrieDataStructure.java:71-74 | the search as written, from the root |
| TrieModel.TrieNode.SearchWildCard | custom/TrieDataStructure.java:76-95 | the loop as written, where a '.' looks at the first slot only |
| TrieModel.TrieNode.WildCardSearchFixed | custom/TrieDataStructure.java:71-74 | true exactly when some inserted word matches the pattern, '.' standing for any letter |
| TrieModel.TrieNode.SearchWildCardFixed | custom/TrieDataStructure.java:76-95 | the corrected search from a node, with '.' trying every child |
| TrieModel.TrieNode.AnyChildMatches | custom/TrieDataStructure.java:80-84 | the corrected loop over the children: true exactly when the rest of the pattern matches below some child |
| TrieModel.TrieNode.PrintTrie | custom/TrieDataStructure.java:108-128 | the depth-first walk counts every inserted word exactly once |
| TrieModel.DemoTrie | custom/TrieDataStructure.java:143-146 | inserting "bad", "dad" and "mad" leaves exactly those words |
| TrieModel.DemoWildCard | custom/TrieDataStructure.java:147-148 | "bad" is found, ".ad" is not found as written, and the corrected search finds it |
| WordSearch.RouteExtend | solutions/word-search-ii.java:88-97 | a step to an adjacent unmarked cell extends a route of distinct cells, and fewer cells remain unvisited |
| WordSearch.StarStep | solutions/word-search-ii.java:93-94 | marking the current cell with '*' marks exactly the cells of the extended path |
| WordSearch.ChildSpelling | solutions/word-search-ii.java:79 | the child of a trie node in the slot of a letter spells the node's word followed by that letter |
| WordSearch.Solution.constructor | solutions/word-search-ii.java:18-20 | no words found and an empty trie |
| WordSearch.Solution.Insert | solutions/word-search-ii.java:22-31 | the trie's words grow by exactly the word |
| WordSearch.Solution.Search | solutions/word-search-ii.java:33-36 | true exactly when the word was inserted |
| WordSearch.Solution.Traverse | solutions/word-search-ii.java:38-47 | the node reached along the word, which spells it, or `Null` |
| WordSearch.Solution.FindWords | solutions/word-search-ii.java:50-72 | the trie holds exactly the given words, the board is restored, a word is added to `output` exactly when it is one of the words and can be traced on the board by a route of distinct adjacent cells, and the result lists `output` once each |
| WordSearch.Solution.InsertAll | solutions/word-search-ii.java:53-55 | the trie holds exactly the given words |
| WordSearch.Solution.SearchRow | solutions/word-search-ii.java:62-64 | searches from every cell of a row restore the board, add only traceable inserted words, and add every inserted word traced from a cell of that row |
| WordSearch.Solution.Dfs | solutions/word-search-ii.java:74-103 | a search from a cell restores the cells it marks, adds only words in the trie that are traced by a route of distinct adjacent cells, and adds every word of the trie that goes on from the marked path through the cell along unmarked adjacent cells |
| WordSearch.Solution.Moves | solutions/word-search-ii.java:85-101 | the four moves likewise, covering every way on whose second cell is one of the four neighbours |
| WordSearch.Solution.Move | solutions/word-search-ii.java:88-100 | the move in direction `k` likewise: the board is restored, only traceable inserted words are added, and the coverage of ways on extends from the first `k` directions to the first `k + 1` |
| WordSearch.Solution.Step | solutions/word-search-ii.java:89-100 | one move likewise: the cell is marked during the call and restored after it, and every way on through the neighbour is covered |
| WordSearch.DeadEnd | solutions/word-search-ii.java:76-77 | when the trie node has no child under the cell's letter, no word of the trie goes on through the cell, so returning early misses nothing |
| WordSearch.Blocked | solutions/word-search-ii.java:92 | a neighbour off the board or marked '*' lies on no way on, so skipping it misses nothing |
| WordSearch.Deeper | solutions/word-search-ii.java:95-98 | what the recursive call reports from the neighbour covers every way on through that neighbour |
| WordSearch.Assemble | solutions/word-search-ii.java:81-101 | the word ending at the cell together with the four moves covers every way on from the cell |
| WordSearch.AllRows | solutions/word-search-ii.java:61-65 | once every cell has been searched, every traceable inserted word is in `output` |
| WordSearch.ListOf | solutions/word-search-ii.java:67 | the list holds the words of the set, each once |
| ConsistentHashingModel.Server.constructor | custom/ConsistentHashingDemo.java:13-17 | the id and address as given, an empty store |
| ConsistentHashingModel.Server.Put | custom/ConsistentHashingDemo.java:19-21 | the store maps the key to the value, and nothing else changes |
| ConsistentHashingModel.Server.Get | custom/ConsistentHashingDemo.java:23-25 | the stored value, or "" for a missing key |
| ConsistentHashingModel.GetAfterPut | custom/ConsistentHashingDemo.java:19-25 | a `get` after a `put` of the same key returns the value; other keys are unaffected |
| ConsistentHashingModel.AddedSpec | custom/ConsistentHashingDemo.java:52-57 | after `addServers` every replica position of the server maps to it, and every other position keeps its server |
| ConsistentHashingModel.RemovedSpec | custom/ConsistentHashingDemo.java:59-64 | after `removeServers` no replica position maps to the server, and every other position keeps its server |
| ConsistentHashingModel.AddRemove | custom/ConsistentHashingDemo.java:52-64 | removing a server just added to a ring that held none of its positions restores the ring |
| ConsistentHashingModel.RemoveAll | custom/ConsistentHashingDemo.java:59-64 | when the server holds all its positions, removing it drops exactly those positions |
| ConsistentHashingModel.DedupSpec | custom/ConsistentHashingDemo.java:76-78 | adding servers not yet in the list keeps exactly the distinct servers, each once |
| ConsistentHashingModel.Start | custom/ConsistentHashingDemo.java:73 | the tail map starts at the first position at or after the key's hash |
| ConsistentHashingModel.ChosenSpec | custom/ConsistentHashingDemo.java:66-96 | the chosen servers are distinct ring servers, as many as asked for or all of them when there are fewer |
| ConsistentHashingModel.ChosenOnRing | custom/ConsistentHashingDemo.java:66-96 | the same, stated about the servers on the ring |
| ConsistentHashingModel.ConsistentHashing.constructor | custom/ConsistentHashingDemo.java:45-50 | the ring is `AddedAll` of the empty ring: `addServers` applied to each given server in order, so every replica position of every given server is on the ring |
| ConsistentHashingModel.ConsistentHashing.PutPosition | custom/ConsistentHashingDemo.java:55 | the position maps to the server, the sorted keys stay sorted and in step with the map |
| ConsistentHashingModel.ConsistentHashing.RemovePosition | custom/ConsistentHashingDemo.java:62 | the position is removed only when it maps to that server |
| ConsistentHashingModel.ConsistentHashing.AddServers | custom/ConsistentHashingDemo.java:52-57 | the ring becomes `Added` of the old ring |
| ConsistentHashingModel.ConsistentHashing.RemoveServers | custom/ConsistentHashingDemo.java:59-64 | the ring becomes `Removed` of the old ring |
| ConsistentHashingModel.ConsistentHashing.GetServerForKey | custom/ConsistentHashingDemo.java:66-96 | distinct servers of the ring, walking from the key's hash and wrapping around, as many as asked for or all of them |
| ConsistentHashingModel.Walk | custom/ConsistentHashingDemo.java:72-93 | the two loops collect the first `replicas` distinct servers of the tail followed by the whole ring |
| ConsistentHashingModel.Gather | custom/ConsistentHashingDemo.java:75-82 | one loop adds the servers not yet collected and stops when `replicas` are collected |
| ConsistentHashingModel.InsertAt | custom/ConsistentHashingDemo.java:55 | inserting a new position at its place keeps the sorted keys in step with the map |
| ConsistentHashingModel.DeleteAt | custom/ConsistentHashingDemo.java:62 | deleting a position keeps the sorted keys in step with the map |
| MergeSortModel.MergeRunsLength | custom/MergeSortDemo.java:24-47 | the merged run is as long as its two inputs together |
| MergeSortModel.MergeRunsPerm | custom/MergeSortDemo.java:24-47 | the merged run holds exactly the elements of the two runs |
| MergeSortModel.MergeRunsSorted | custom/MergeSortDemo.java:28-43 | merging two sorted runs gives a sorted run, headed by the smaller head (the right one on ties) |
| MergeSortModel.MergeSort | custom/MergeSortDemo.java:14-22 | `arr[start..end]` ends sorted and a permutation of what it held; the rest of the array is unchanged; an empty or one-element range is left alone |
| MergeSortModel.Merge | custom/MergeSortDemo.java:24-48 | `arr[start..end]` becomes the merge of the two old halves, and nothing outside it changes |
| MergeSortModel.MergeTemp | custom/MergeSortDemo.java:25-43 | the temporary list is the merge of the two halves, of the range's length |
| MergeSortModel.MergeHeads | custom/MergeSortDemo.java:26-35 | the first loop stops with one half used up, and what it has taken followed by the merge of the rests is the merge of the two halves |
| MergeSortModel.WholePerm | custom/MergeSortDemo.java:20-21 | the merge of two sorted halves holds exactly the elements the range held before they were sorted |
| MergeSortModel.AppendRun | custom/MergeSortDemo.java:37-43 | a drain loop appends the rest of one half |
| MergeSortModel.WholeArray | custom/MergeSortDemo.java:8 | sorting the whole array gives a sorted permutation of it |
| MergeSortModel.Demo | custom/MergeSortDemo.java:6-11 | the demo array comes out sorted and a permutation of `{3,2,1,4,5,6,2,4,5}` |
| QuickSortModel.Swap | custom/QuickSortDemo.java:39-43 | the two cells exchange their values and nothing else changes |
| QuickSortModel.SwapPermutes | custom/QuickSortDemo.java:39-43 | a swap inside a range permutes that range and leaves the rest alone |
| QuickSortModel.FindPartition | custom/QuickSortDemo.java:18-37 | the returned index holds the old first element (the pivot), everything before it in the range is at most the pivot, everything after it is greater, and the range is a permutation of what it held |
| QuickSortModel.Round | custom/QuickSortDemo.java:21-33 | one round of the outer loop keeps the partition invariant and moves `i` forward |
| QuickSortModel.Scanned | custom/QuickSortDemo.java:23-31 | after the two scans, either the indices crossed with the invariant kept, or a misplaced pair waits at `i` and `j` |
| QuickSortModel.Swapped | custom/QuickSortDemo.java:31-32 | swapping the misplaced pair restores the invariant |
| QuickSortModel.Placed | custom/QuickSortDemo.java:35-36 | the final swap puts the pivot between the two sides |
| QuickSortModel.ScanUp | custom/QuickSortDemo.java:23-25 | `i` stops at the first element above the pivot or at `end`, skipping only elements at most the pivot |
| QuickSortModel.ScanDown | custom/QuickSortDemo.java:27-29 | `j` stops at the first element at most the pivot or at `start`, skipping only elements above it |
| QuickSortModel.QuickSort | custom/QuickSortDemo.java:10-16 | `arr[start..end]` ends sorted and a permutation of what it held; an empty or one-element range is left alone |
| QuickSortModel.Assemble | custom/QuickSortDemo.java:12-14 | two sorted sides around the placed pivot make a sorted permutation of the range |
| QuickSortModel.Join | custom/QuickSortDemo.java:12-14 | a sorted left side at most the pivot, the pivot and a sorted right side above it are sorted together |
| QuickSortModel.WholeArray | custom/QuickSortDemo.java:4 | sorting the whole array gives a sorted permutation of it |
| QuickSortModel.Demo | custom/QuickSortDemo.java:2-8 | the demo array comes out sorted and a permutation of `{3,2,1,4,5,6,2,4,5}` |
| SlidingWindowMax.MaxSpec | solutions/sliding-window-maximum.java:40-43 | the maximum of a window is one of its elements and no element exceeds it |
| SlidingWindowMax.Windows | solutions/sliding-window-maximum.java:39-47 | one maximum per window of `k`, `n - k + 1` of them, none when the array is shorter than `k` |
| SlidingWindowMax.WindowAt | solutions/sliding-window-maximum.java:39-47 | entry `t` of the reference output is the maximum of `nums[t..t+k-1]` |
| SlidingWindowMax.FrontIsMax | solutions/sliding-window-maximum.java:21-22 | the front of the decreasing deque indexes the maximum of the current window |
| SlidingWindowMax.Slide | solutions/sliding-window-maximum.java:11-13 | dropping the front index once it leaves the window keeps the deque's invariant for the next window |
| SlidingWindowMax.PopBack | solutions/sliding-window-maximum.java:15-17 | dropping a back index whose value is below the new one keeps the invariant |
| SlidingWindowMax.Push | solutions/sliding-window-maximum.java:19 | appending the new index makes the deque decreasing over the window again |
| SlidingWindowMax.WindowsGrow | solutions/sliding-window-maximum.java:21-23 | a new element that completes a window adds that window's maximum to the output |
| SlidingWindowMax.MaxSlidingWindow | solutions/sliding-window-maximum.java:2-30 | for `k >= 1` the output is the maximum of every window of `k` consecutive elements, in order; for `k <= 0` every front index leaves its window at once, so the output is the input itself |
| SlidingWindowMax.Step | solutions/sliding-window-maximum.java:9-24 | one iteration keeps the deque's invariant and extends the output by the window just completed; for `k <= 0` the deque is just the new index and the output the input so far |
| SlidingWindowMax.Evict | solutions/sliding-window-maximum.java:11-13 | the evicting `if`, followed by the popping loop, leaves the deque ready for the new index; for `k <= 0` it empties the deque |
| SlidingWindowMax.PopSmaller | solutions/sliding-window-maximum.java:15-17 | the popping loop removes entries from the back only, and leaves a back value at least the new one, or an empty deque |
| SlidingWindowMax.DemoWindows | solutions/sliding-window-maximum.java:39-47 | the reference output for `[1,3,-1,-3,5,3,6,7]`, `k = 3` is `[3,3,5,5,6,7]` |
| SlidingWindowMax.Demo | solutions/sliding-window-maximum.java:2-30 | the deque algorithm gives that same output |
| ReverseKGroup.ReverseSpec | problems/linked-list/reverse-nodes-in-kgroups/solution.java:39-45 | reversing puts element `i` at position `n-1-i` and keeps the same elements |
| ReverseKGroup.KGroupsPerm | problems/linked-list/reverse-nodes-in-kgroups/solution.java:12-60 | regrouping keeps the length and the elements of the list |
| ReverseKGroup.KGroupsLast | problems/linked-list/reverse-nodes-in-kgroups/solution.java:24 | the last `n mod k` elements keep their order and place |
| ReverseKGroup.RemIsMod | problems/linked-list/reverse-nodes-in-kgroups/solution.java:24 | the left-over count is `n mod k` |
| ReverseKGroup.RegroupIs | problems/linked-list/reverse-nodes-in-kgroups/solution.java:31-57 | one pass of the outer loop reverses the group `list[m..m+k-1]` and leaves the rest of the order alone |
| ReverseKGroup.RegroupPerm | problems/linked-list/reverse-nodes-in-kgroups/solution.java:31-57 | one pass keeps the nodes, each once |
| ReverseKGroup.KGroupsStep | problems/linked-list/reverse-nodes-in-kgroups/solution.java:31-57 | after one more reversed group the list agrees with the reference regrouping on one more group |
| ReverseKGroup.Turn | problems/linked-list/reverse-nodes-in-kgroups/solution.java:39-45 | one step of the inner loop turns one more link backwards |
| ReverseKGroup.Link | problems/linked-list/reverse-nodes-in-kgroups/solution.java:41 | one `next` field changes and nothing else |
| ReverseKGroup.ReverseGroup | problems/linked-list/reverse-nodes-in-kgroups/solution.java:32-45 | the inner loop reverses the links of the `k` nodes of the group and returns its new head and the first node after it |
| ReverseKGroup.Relinked | problems/linked-list/reverse-nodes-in-kgroups/solution.java:52-53 | reconnecting the group's ends gives a linked list in the regrouped order |
| ReverseKGroup.Advance | problems/linked-list/reverse-nodes-in-kgroups/solution.java:52-55 | after the reconnection the loop invariant holds for the next group |
| ReverseKGroup.Length | problems/linked-list/reverse-nodes-in-kgroups/solution.java:13-18 | the counting loop returns the length of the list |
| ReverseKGroup.GroupsLeft | problems/linked-list/reverse-nodes-in-kgroups/solution.java:24-56 | `t = n / k` groups remain exactly while at least `k` nodes remain |
| ReverseKGroup.Finish | problems/linked-list/reverse-nodes-in-kgroups/solution.java:31-59 | when fewer than `k` nodes remain the list is the reference regrouping |
| ReverseKGroup.NextGroup | problems/linked-list/reverse-nodes-in-kgroups/solution.java:31-57 | one pass of the outer loop moves the linked list to the regrouping of one more group |
| ReverseKGroup.ReverseKGroup | problems/linked-list/reverse-nodes-in-kgroups/solution.java:12-60 | the nodes end linked in the order where each full group of `k` is reversed and the last `n mod k` stay; `k > n` (and negative `k`) leave the list as it was; nothing outside the list changes |
| ReverseKGroup.Groups | problems/linked-list/reverse-nodes-in-kgroups/solution.java:24-59 | the group loop links the nodes in the regrouped order and returns its head |
| ValidParens.SlackStep | problems/stack/valid-parentheses-string/solution.java:6-20 | each character moves the count of matchable closers by one, up for '(' or '*', down for anything else |
| ValidParens.PrefixesGrow | problems/stack/valid-parentheses-string/solution.java:6-20 | a prefix stays acceptable while its slack stays non-negative |
| ValidParens.PrefixesBreak | problems/stack/valid-parentheses-string/solution.java:18-19 | a prefix with more closers than openers and stars makes the string invalid |
| ValidParens.Shift | problems/stack/valid-parentheses-string/solution.java:6-21 | reading one character moves the range of counts of open brackets from which the rest can be balanced: up for '(', widened for '*', down for any other character |
| ValidParens.Range | problems/stack/valid-parentheses-string/solution.java:6-21 | after any prefix, the string can be balanced exactly when the prefix never has more closers than openers and stars and the rest balances from a count between `Low` and the slack |
| ValidParens.Balances | problems/stack/valid-parentheses-string/solution.java:2-33 | a string can be balanced, '*' standing for '(', ')' or nothing, exactly when no prefix has more closers than openers and stars and `Low` of the whole string is zero |
| ValidParens.PushOpen | problems/stack/valid-parentheses-string/solution.java:7-8 | pushing the index of a '(' leaves one more bracket unclosed |
| ValidParens.PushStar | problems/stack/valid-parentheses-string/solution.java:10-11 | pushing the index of a '*' closes one unclosed bracket if there is one |
| ValidParens.PopOpen | problems/stack/valid-parentheses-string/solution.java:14-15 | popping the top '(' for a closer leaves one fewer unclosed, or none |
| ValidParens.Fits | problems/stack/valid-parentheses-string/solution.java:25-30 | at most k brackets stay unclosed exactly when, setting aside the top k '(', the stacks pair off from the top with every '(' before its '*' |
| ValidParens.Concluded | problems/stack/valid-parentheses-string/solution.java:25-30 | after the scan, the pairing test succeeds exactly when the string can be balanced |
| ValidParens.Scan | problems/stack/valid-parentheses-string/solution.java:7-19 | each branch of the scan keeps both stacks in step with the prefix, including the count of brackets their indices leave unclosed; the `return false` branch happens only on an invalid prefix |
| ValidParens.Pair | problems/stack/valid-parentheses-string/solution.java:25-30 | true exactly when every unmatched '(' can be paired, from the top, with a later '*' and no '(' is left over |
| ValidParens.CheckValidString | problems/stack/valid-parentheses-string/solution.java:2-33 | true exactly when the string can be balanced with each '*' read as '(', ')' or nothing (`CanBalance`); in particular true implies every prefix is fine and there are no more '(' than closers and stars, an invalid prefix gives false, and without '*' the result is exactly whether the brackets balance |
| ValidParens.DemoFacts | problems/stack/valid-parentheses-string/solution.java:2-33 | "()" balances, ")(" has an invalid prefix, and "(*)" and "(*))" can be balanced |
| ValidParens.Demo | problems/stack/valid-parentheses-string/solution.java:2-33 | "()", "(*)" and "(*))" are accepted and ")(" is rejected |
| PermutationInString.Counts | problems/sliding-window/permutation-in-string/solution.java:7-9 | 26 letter counts |
| PermutationInString.CountsPerm | problems/sliding-window/permutation-in-string/solution.java:18-35 | two lower-case strings have equal letter counts exactly when one is a permutation of the other |
| PermutationInString.CountsPush | problems/sliding-window/permutation-in-string/solution.java:8-16 | one more letter raises its own count by one |
| PermutationInString.Tally | problems/sliding-window/permutation-in-string/solution.java:7-16 | a fresh 26-entry array holding the letter counts of the slice |
| PermutationInString.Match | problems/sliding-window/permutation-in-string/solution.java:29-35 | true exactly when the two count arrays agree everywhere |
| PermutationInString.CheckInclusion | problems/sliding-window/permutation-in-string/solution.java:2-27 | true exactly when the loop as written finds a permutation of `s1` among the windows it examines, whose first is the single letter `s2[0]` |
| PermutationInString.WrittenSound | problems/sliding-window/permutation-in-string/solution.java:13-24 | every window that the loop as written accepts is a real occurrence of a permutation of `s1` |
| PermutationInString.WrittenMisses | problems/sliding-window/permutation-in-string/solution.java:11-16 | with `s1 = s2 = "ab"` the loop as written answers false though an occurrence exists |
| PermutationInString.WindowCounts | problems/sliding-window/permutation-in-string/solution.java:14-18 | a window of length `\|s1\|` has the letter counts of `s1` exactly when it is a permutation of `s1` |
| PermutationInString.CheckInclusionFixed | problems/sliding-window/permutation-in-string/solution.java:2-27 | with the first window `s2[0..\|s1\|-1]`, true exactly when some window of `s2` of length `\|s1\|` is a permutation of `s1` |
| ProductExceptSelf.Without | solutions/product-of-array-except-self.java:2-22 | the array with one element removed, one shorter |
| ProductExceptSelf.ProductAppend | solutions/product-of-array-except-self.java:4-18 | the product of a concatenation is the product of the products |
| ProductExceptSelf.WithoutTimesSelf | solutions/product-of-array-except-self.java:2-22 | the product of the others times the element itself is the product of all |
| ProductExceptSelf.SwapSlots | solutions/product-of-array-except-self.java:2-22 | that product of all is the same whichever element is set aside |
| ProductExceptSelf.ProductExceptSelf | solutions/product-of-array-except-self.java:2-22 | a fresh array of the same length whose entry `i` is the product of every element but `nums[i]` |
| ProductExceptSelf.LeftPass | solutions/product-of-array-except-self.java:4-8 | entry `k` becomes the product of the elements before `k` |
| ProductExceptSelf.RightPass | solutions/product-of-array-except-self.java:14-19 | multiplying in the product of the elements after `k` gives the product of all others |
| LongestConsecutive.RunBound | problems/arrays-hashing/smallest-consecutive-sequence/solution.java:10-20 | a run of consecutive values is no longer than the number of distinct values |
| LongestConsecutive.RunStart | problems/arrays-hashing/smallest-consecutive-sequence/solution.java:11 | every run extends back to a value whose predecessor is absent, so starting only from such values misses no run |
| LongestConsecutive.LongestUnique | problems/arrays-hashing/smallest-consecutive-sequence/solution.java:2-23 | the longest run length is unique |
| LongestConsecutive.Streak | problems/arrays-hashing/smallest-consecutive-sequence/solution.java:12-16 | the counting loop stops at the first absent value after `n`, every value in between present |
| LongestConsecutive.StreakLongest | problems/arrays-hashing/smallest-consecutive-sequence/solution.java:14-18 | no run from `n` is longer than the counted streak |
| LongestConsecutive.LongestConsecutive | problems/arrays-hashing/smallest-consecutive-sequence/solution.java:2-23 | the length of a longest run of consecutive input values: 0 for no input, at least 1 otherwise, at most the number of distinct values |
| MaxProfit.Rise | problems/arrays-hashing/buy-sell-stocks-2/solution.java:7-13 | a day's gain is never negative and at least the day-to-day price change |
| MaxProfit.GainsNonNeg | problems/arrays-hashing/buy-sell-stocks-2/solution.java:3-10 | the collected profit is never negative |
| MaxProfit.GainsTrade | problems/arrays-hashing/buy-sell-stocks-2/solution.java:6-14 | a single buy and sell earns no more than the rises in between |
| MaxProfit.GainsSplit | problems/arrays-hashing/buy-sell-stocks-2/solution.java:6-14 | the rises over two adjacent stretches add up |
| MaxProfit.PlanBound | problems/arrays-hashing/buy-sell-stocks-2/solution.java:2-16 | no plan of non-overlapping trades earns more than the sum of the rises |
| MaxProfit.GreedyAchieves | problems/arrays-hashing/buy-sell-stocks-2/solution.java:8-10 | buying before every rise and selling after it is a plan that earns exactly that sum, so the sum is the best profit |
| MaxProfit.MaxProfit | problems/arrays-hashing/buy-sell-stocks-2/solution.java:2-16 | the answer is the sum of all day-to-day rises, hence the best profit, and never negative |
| TopKFrequent.Overshoot | problems/arrays-hashing/top-k-frequent-elements/solution.java:26-34 | with `nums = [1,2]`, `k = 1` no count threshold picks exactly one value, so the precondition of `TopK` excludes that input (the source writes past `output` there) |
| SeqUtil.DistinctCard | problems/arrays-hashing/top-k-frequent-elements/solution.java:19-20 | a list without repeats has as many distinct values as entries |
| TopKFrequent.AboveMonotone | problems/arrays-hashing/top-k-frequent-elements/solution.java:26 | raising the count threshold never selects more values |
| TopKFrequent.KeysAbove | problems/arrays-hashing/top-k-frequent-elements/solution.java:7-14 | every distinct value occurs at least once |
| TopKFrequent.Count | problems/arrays-hashing/top-k-frequent-elements/solution.java:7-14 | the map's keys are the distinct input values and each maps to its number of occurrences |
| TopKFrequent.Buckets | problems/arrays-hashing/top-k-frequent-elements/solution.java:16-21 | a fresh array of `n + 1` buckets; bucket `c` holds exactly the values occurring `c` times, each once |
| TopKFrequent.AddBucket | problems/arrays-hashing/top-k-frequent-elements/solution.java:28-31 | appending bucket `i` to the values collected so far gives exactly the values occurring at least `i` times |
| TopKFrequent.Copy | problems/arrays-hashing/top-k-frequent-elements/solution.java:28-31 | the bucket is written into `output` from position `j`, nothing else changes, and `j` advances by its size |
| TopKFrequent.TopK | problems/arrays-hashing/top-k-frequent-elements/solution.java:2-43 | a fresh array of `k` entries: the `k` most frequent values (all distinct values when there are fewer), distinct, in non-increasing order of count, every value left out occurring less often than every value chosen, the unused tail left 0 |
| TopKFrequent.ReadOut | problems/arrays-hashing/top-k-frequent-elements/solution.java:25-37 | the bucket loop fills `output` with the most frequent values as `TopK` states |
| TopKFrequent.NextBucket | problems/arrays-hashing/top-k-frequent-elements/solution.java:27-35 | one iteration adds exactly the values of count `i` and keeps `output` within bounds |
| TopKFrequent.ReadBucket | problems/arrays-hashing/top-k-frequent-elements/solution.java:28-31 | the inner loop copies a non-empty bucket |
| TopKFrequent.Fits | problems/arrays-hashing/top-k-frequent-elements/solution.java:26-34 | under the precondition no bucket overshoots `k` |
| TopKFrequent.Done | problems/arrays-hashing/top-k-frequent-elements/solution.java:39 | once all buckets are read the collected values are the inputs of highest count |
| EmployeeFreeTime.ConcatMember | problems/heap-priority-queue/employee-free-time/solution.java:15-17 | the flattened list holds exactly the intervals of all employees |
| EmployeeFreeTime.Flatten | problems/heap-priority-queue/employee-free-time/solution.java:13-17 | the two nested loops append every employee's intervals in turn |
| EmployeeFreeTime.RunEnd | problems/heap-priority-queue/employee-free-time/solution.java:20-25 | `end` is at least the first interval's end and every end seen so far |
| EmployeeFreeTime.Step | problems/heap-priority-queue/employee-free-time/solution.java:22-26 | one iteration keeps every gap found non-empty and clear of all intervals, covers every free point before the next start, and keeps the gaps in order |
| EmployeeFreeTime.StepCovers | problems/heap-priority-queue/employee-free-time/solution.java:23-24 | a free point before the next start lies in a gap found before or in the one this interval opens |
| EmployeeFreeTime.RunEndBelow | problems/heap-priority-queue/employee-free-time/solution.java:25 | a point at or after every end seen is at or after `end` |
| EmployeeFreeTime.EmittedStep | problems/heap-priority-queue/employee-free-time/solution.java:23-24 | an iteration emits at most the pair `[end, start]` of the current interval, and only when it starts after `end` |
| EmployeeFreeTime.InSpan | problems/heap-priority-queue/employee-free-time/solution.java:20-26 | with well-formed intervals every emitted gap lies after the first start and before the end of some interval |
| EmployeeFreeTime.Covered | problems/heap-priority-queue/employee-free-time/solution.java:22-26 | once every interval is scanned, each free point between the first start and the last end lies in a gap |
| EmployeeFreeTime.EmittedPairs | problems/heap-priority-queue/employee-free-time/solution.java:23-24 | each gap in the result is the pair `[end, start]` of some interval that starts after `end` |
| EmployeeFreeTime.Gaps | problems/heap-priority-queue/employee-free-time/solution.java:20-27 | the finished loop's gaps are non-empty, overlap nobody, cover every free point of the working span, are emitted pairs, come in order and stay inside the span |
| EmployeeFreeTime.Scan | problems/heap-priority-queue/employee-free-time/solution.java:20-26 | the loop leaves gaps that are sound, covering and ordered as far as scanned, each one an emitted `[end, start]` pair |
| EmployeeFreeTime.FreeTime | problems/heap-priority-queue/employee-free-time/solution.java:11-28 | every gap is non-empty and overlaps nobody's interval; every point where nobody works, from the first start to the last end, lies in a gap; every gap is the pair `[end, start]` of an interval that starts after the running `end`; with well-formed intervals the gaps come in order and lie inside the working span, so the result is exactly the common free time |
| SmallestRange.LeftStep | problems/sliding-window/smallest-range-covering-elements-from-k-lists/solution.java:22-24 | advancing one list's position removes exactly one element from those not yet taken |
| SmallestRange.LeftPos | problems/sliding-window/smallest-range-covering-elements-from-k-lists/solution.java:13-30 | while every list still has a current element, elements remain |
| SmallestRange.MinExists | problems/sliding-window/smallest-range-covering-elements-from-k-lists/solution.java:14 | a non-empty queue has a smallest entry |
| SmallestRange.Candidate | problems/sliding-window/smallest-range-covering-elements-from-k-lists/solution.java:14-20 | the range from the smallest queued value to `currMax` holds an element of every list |
| SmallestRange.Pop | problems/sliding-window/smallest-range-covering-elements-from-k-lists/solution.java:14-26 | a covering range is never narrower than the queue's spread, and when its low end is above the smallest queued value that list has a successor and moving past it skips nothing the range needs |
| SmallestRange.Requeue | problems/sliding-window/smallest-range-covering-elements-from-k-lists/solution.java:22-24 | replacing the popped entry by its successor keeps one entry per list at its current position |
| SmallestRange.RequeueMax | problems/sliding-window/smallest-range-covering-elements-from-k-lists/solution.java:25 | `currMax` stays the largest queued value |
| SmallestRange.Heads | problems/sliding-window/smallest-range-covering-elements-from-k-lists/solution.java:3-8 | the queue starts with the first element of every list and `currMax` is the largest of them |
| SmallestRange.Advance | problems/sliding-window/smallest-range-covering-elements-from-k-lists/solution.java:13-26 | one iteration that re-queues keeps the loop invariant |
| SmallestRange.LeftDown | problems/sliding-window/smallest-range-covering-elements-from-k-lists/solution.java:22-24 | each re-queueing iteration takes one element out, so the loop ends |
| SmallestRange.AdvanceBeats | problems/sliding-window/smallest-range-covering-elements-from-k-lists/solution.java:17-20 | the best range so far is no wider than any covering range whose low end was skipped |
| SmallestRange.Finish | problems/sliding-window/smallest-range-covering-elements-from-k-lists/solution.java:27-29 | when a list runs out the best range so far covers every list and no covering range is narrower |
| SmallestRange.Poll | problems/sliding-window/smallest-range-covering-elements-from-k-lists/solution.java:14-29 | one iteration: either the invariant holds with fewer elements left, or the loop stops with the answer |
| SmallestRange.Smallest | problems/sliding-window/smallest-range-covering-elements-from-k-lists/solution.java:2-34 | for at least one list, `[lo, hi]` holds an element of every list and no such range is narrower; for no lists, `[0, Integer.MAX_VALUE]` |
| Dijkstra.NeighboursMember | custom/DijkstraDemo.java:20-23 | a node is in `x`'s adjacency list exactly when some edge joins `x` to it with that weight |
| Dijkstra.BothWays | custom/DijkstraDemo.java:21-22 | the adjacency is symmetric: `y` is a neighbour of `x` with weight `w` exactly when `x` is one of `y` |
| Dijkstra.NeighboursInside | custom/DijkstraDemo.java:20-23 | every neighbour is a vertex and every weight non-negative |
| Dijkstra.Adjacency | custom/DijkstraDemo.java:13-23 | one list per vertex, each the neighbours in the order the edges add them |
| Dijkstra.Distances | custom/DijkstraDemo.java:30-36 | a fresh array of `V` entries, 0 at the source and `Integer.MAX_VALUE` elsewhere |
| Dijkstra.Extend | custom/DijkstraDemo.java:43-47 | a walk to `x` followed by an edge to a neighbour is a walk to it of the summed weight |
| Dijkstra.RelaxedMono | custom/DijkstraDemo.java:43-47 | lowering distances keeps a relaxed edge list relaxed |
| Dijkstra.SumUpdate | custom/DijkstraDemo.java:45 | lowering one distance lowers the total by the same amount |
| Dijkstra.RelaxStep | custom/DijkstraDemo.java:44-47 | one iteration of the inner loop keeps the relaxation invariant, lowering and queueing exactly when the neighbour improves |
| Dijkstra.Relax | custom/DijkstraDemo.java:42-48 | the inner loop relaxes every neighbour of the polled vertex, queueing each improvement; either nothing changes or the distance total drops |
| Dijkstra.Round | custom/DijkstraDemo.java:38-50 | one poll keeps the loop invariant: every queued entry and every finite distance is the weight of a walk, and every vertex is either queued at its distance or has all its edges relaxed |
| Dijkstra.Finished | custom/DijkstraDemo.java:52 | with the queue empty no walk is lighter than the distance of its end, and every edge is relaxed both ways |
| Dijkstra.Shortest | custom/DijkstraDemo.java:38-52 | distances under which every edge is relaxed bound the weight of every walk from below |
| Dijkstra.EdgesRelaxed | custom/DijkstraDemo.java:38-52 | relaxed adjacency lists mean every input edge is relaxed both ways |
| Dijkstra.HasMin | custom/DijkstraDemo.java:38-39 | a non-empty queue has an entry of least distance, the one `poll` returns |
| Dijkstra.MinOfAdded | custom/DijkstraDemo.java:38-39 | the least entry after adding one is the new entry or the previous least |
| Dijkstra.Visit | custom/DijkstraDemo.java:39-48 | one iteration of the outer loop keeps the invariant and lowers the distance total or shortens the queue |
| Dijkstra.Dijkstra | custom/DijkstraDemo.java:11-55 | `V` entries, 0 at the source; a finite entry is the weight of some walk from the source and no walk to that vertex is lighter; a vertex no walk reaches keeps `Integer.MAX_VALUE`; every edge is relaxed both ways |

## Left out

- `TokenBucketStrategy` and `UserRateLimiter` (custom/RateLimiterDemo.java:17-65, 119-148): floating-point token arithmetic and `System.nanoTime`; the wrapper adds nothing to check. The `synchronized` keywords are dropped and every structure is modelled sequentially.
- Clock reads (custom/RateLimiterDemo.java:92, 110) become the `now` parameter of `Allow` and `GetCurrentRequestCount`.
- RateLimiter.SlidingWindowLogStrategy.Allow: requires `now` to be no earlier than the latest logged request. `System.currentTimeMillis` can step backwards when the wall clock is reset; the log would then fall out of time order, and the model does not cover that case.
- All `main` methods, demo drivers and console output (including the `println` calls inside `findTime`, `printTrie`, `topKFrequent`, `checkValidString` and `productExceptSelf`). `findTime` returns the time it would print as an `Option`; the `Demo`/`Scenario` members replay the drivers' inputs.
- custom/ProducerConsumerDemo.java is not part of this model: its point is threads, blocking queues and sleeping.
- MD5 (custom/ConsistentHashingDemo.java:98-107): `ConsistentHashing` takes the hash as a function parameter, so every property holds for any hash. `ConcurrentSkipListMap` is a map plus its sorted key sequence. `Server.toString` is not modelled.
- Library sorts (`Collections.sort` in employee free time, `arr.sort` in `findTime`): the sorted list is a parameter, required to be a permutation of the input sorted by the source's key.
- `PriorityQueue` internals: a queue is a multiset (Dijkstra) or a sequence (smallest range), and `poll` takes any entry of least key. Ties between equal keys may be broken either way; the contracts hold for every choice.
- Java's 32-bit `int`: all arithmetic is unbounded. Sums of prices, products in product-except-self, `n + 1` in longest-consecutive, `temp.d + n.d` in Dijkstra and subtraction comparators are not wrapped. `Integer.MAX_VALUE` is kept where the source uses it as a sentinel.
- SmallestRange.Smallest: requires every value to be a Java `int` and no two values to differ by `Integer.MAX_VALUE` or more, so that the source's `currMax - currVal` comparison means what it says.
- Dijkstra.Dijkstra: requires non-negative weights and in-range edge ends, as the source needs for termination and indexing; the adjacency lists are a sequence of sequences, not `ArrayList` objects.
- SlidingWindowMax.MaxSlidingWindow: returns the output as a sequence; the final copy of the `ArrayList` into an `int[]` is not modelled.
- ReverseKGroup.ReverseKGroup: the list is an array of `next` indices over node numbers, and node values are not carried. `k == 0` (a division by zero in the source) is excluded by the precondition.
- WordSearch: the `output` field accumulates across calls to `findWords`, as in the source, which never clears it.
- HitCounterModel.HitCounter: the log of all hits and the latest timestamp are ghost fields, used to state what `getHits` counts. Timestamps must not decrease between calls, as the problem promises.
- TopKFrequent.TopK: requires that the `k` most frequent values are unambiguous (or that `k` covers every distinct value). Otherwise the source writes past `output` (`Overshoot` shows an input).
- TrieModel.TrieNode: the source's `root` is a static field shared by every `TrieNode`; each modelled trie has its own root. Node objects are rows of an arena, and the end-of-word flags a parallel sequence.
- UnionFindModel.UnionFind.constructor: requires `node >= 0`. A negative size makes the source's `new int[node]` throw `NegativeArraySizeException`, and exceptions are not modelled.
- TrieModel.TrieNode.Insert, TrieModel.TrieNode.Traverse, TrieModel.TrieNode.Search and TrieModel.TrieNode.Contains: require words of lower-case letters `a`-`z`. Any other character makes `links[ch - 'a']` throw `ArrayIndexOutOfBoundsException`, possibly after `Insert` has already added nodes; that exception path is not modelled.
- TrieModel.TrieNode.WildCardSearch, TrieModel.TrieNode.SearchWildCard, TrieModel.TrieNode.WildCardSearchFixed and TrieModel.TrieNode.SearchWildCardFixed: require patterns of lower-case letters and `.`, for the same reason.
- WordSearch.Solution.FindWords: requires at least one board row, board cells of lower-case letters and words of lower-case letters. Otherwise `board[0]` or `links[c - 'a']` throws `ArrayIndexOutOfBoundsException` in the source, and that exception path is not modelled.
- UnionFindModel.UnionFind.Union: requires `a` and `b` to be nodes unless `count` is already 1. Otherwise `findParent` reads `parent[a]` out of range and throws `ArrayIndexOutOfBoundsException` (custom/UnionFindDemo.java:22-28), and that exception path is not modelled.
- MaxProfit.MaxProfit: requires at least one price. For an empty array `prices[0]` throws `ArrayIndexOutOfBoundsException` (problems/arrays-hashing/buy-sell-stocks-2/solution.java:4), and that exception path is not modelled.
- EmployeeFreeTime.FreeTime: requires at least one interval in the whole schedule. Otherwise `intervals.get(0)` throws `IndexOutOfBoundsException` (problems/heap-priority-queue/employee-free-time/solution.java:20), and that exception path is not modelled.
- PermutationInString.CheckInclusion and PermutationInString.CheckInclusionFixed: when `s1` is no longer than `s2`, require both strings to be lower-case letters `a`-`z`. Another character makes `h1[c - 'a']` or `h2[c - 'a']` throw `ArrayIndexOutOfBoundsException` once it is counted, and that exception path is not modelled. When `s1` is longer, the source returns false before it reads a letter, and the model accepts any strings.
- SmallestRange.Smallest: requires every list to be non-empty. An empty list makes `nums.get(i).get(0)` throw `IndexOutOfBoundsException` (problems/sliding-window/smallest-range-covering-elements-from-k-lists/solution.java:6-7), and that exception path is not modelled.
- UnionFindModel.UnionFind: `findParent`'s recursion is proved to terminate with ghost ranks, which the source does not have.
- Several source loops are split into helper methods with the same effect, so that each proof stays small: `Round`, `ScanUp` and `ScanDown` (quick sort), `MergeTemp`, `MergeHeads` and `AppendRun` (merge sort), `Poll` (smallest range), `Visit` and `Relax` (Dijkstra), `Step`, `Evict` and `PopSmaller` (sliding-window maximum), `NextBucket` and `ReadBucket` (top-k), `NextGroup` and `ReverseGroup` (reverse k-group), `InsertAll`, `SearchRow`, `Moves`, `Move` and `Step` (word search), `AnyChildMatches` (trie), `Gather` (consistent hashing), `Scan` (employee free time).

## Findings

| source | as written | input that shows it | evidently intended | confidence | as-written member | corrected member |
|---|---|---|---|---|---|---|
| custom/UnionFindDemo.java:78-85 | `count == 1` is checked only before each union, so when the last edge connects everything the time is never reported | `n = 2`, edges `[[0,1,4]]`: no time is reported though the graph is connected at time 4 | check `count == 1` after each union, reporting the time of the union that connects everything | not executed | UnionFindModel.FindTime, UnionFindModel.ReportedIgnoresLastEdge, UnionFindModel.LastEdgeUnreported | UnionFindModel.FindTimeFixed, UnionFindModel.ReportedFixedIsFinal |
| custom/TrieDataStructure.java:79-84 | on '.', the loop over `temp.links` returns in its first iteration, so only the child for 'a' is tried | words `bad`, `dad`, `mad`, pattern `.ad`: false | try every child and return true if any matches the rest of the pattern | not executed | TrieModel.TrieNode.SearchWildCard, TrieModel.DemoWildCard | TrieModel.TrieNode.SearchWildCardFixed, TrieModel.WildAnyIffMatchingWord |
| problems/sliding-window/permutation-in-string/solution.java:11-16 | `i = j = 0` makes the first window the single letter `s2[0]`, so the window `s2[0..\|s1\|-1]` is never examined | `s1 = "ab"`, `s2 = "ab"`: false | start with `j = \|s1\| - 1` so every window has length `\|s1\|` | not executed | PermutationInString.CheckInclusion, PermutationInString.WrittenMisses | PermutationInString.CheckInclusionFixed |
