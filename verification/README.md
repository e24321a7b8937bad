# SkipCell storage and search kernel

SkipCell is an approximate-nearest-neighbour engine whose vectors live on an SSD. This project
models its storage and search kernel and proves what the kernel promises. One command checks it:
`dafny verify dfyconfig.toml`.

| files | what they model |
|---|---|
| `IoLruPool`, `IoLruBufferPool`, `IoLruInvariants`, `IoLruReplacement`, `IoLruAdmission`, `IoLruBatches`, `IoLruThreads` | the page cache: a specification function for every locked section, the mutable object proved equal to it, the invariants of every run, what is evicted and what is lost, what every call answers and what becomes of the admission credit, the batch calls as a whole, and any number of threads waiting on each other's loads |
| `NeighborQueue` | the bounded priority queue with its cursor |
| `VamanaSearch`, `VamanaPrune`, `VamanaBuild`, `VamanaUnique` | beam search, RobustPrune, reverse insertion with slack, every interleaving of the builder's locked sections, and that a sequential build has one outcome |
| `PqLloyd`, `PqCodec` | product quantization over the reals: Lloyd iteration, encoding, the lookup table |
| `HierarchyTree`, `HierarchySurgery`, `HierarchyMerge`, `HierarchyOutput`, `HierarchyOrigins`, `HierarchyCopy`, `HierarchyMaterialize`, `HierarchyShortPath` | the Cell hierarchy: its check, lowest common ancestors, merging pairs of Cells, the rewritten tree and what its nodes stand for, and the short path without pairs |
| `BalancedAssign`, `AssignmentCodec`, `CoAccess`, `CoAccessUnique` | capacity-bounded assignment, assignment records, co-access clustering and that it has one outcome |
| `HnswSearch`, `HnswIndex` | the layered graph index |
| `DiskManager`, `CachedIo` | the chunk files and the cached sequential streams |
| `Common` | options, results and facts about sequences |

Where a source object changes its fields, the model is a class whose methods are proved against
functions or predicates on values, and the theorems are about those.

## Reading the model

* Distances are reals, so they are totally ordered and have no NaN; sums do not round.
* A page id, node id or Cell id is a natural number; where the source's width matters (62-bit chunk
  numbers, 64-bit offsets, the 16-bit epoch, the 32-bit invalid id) it is written out.
* A client of the page cache releases every HIT once, and every LOAD once after it was published
  successfully; after a failed publication it does not, because lines 245-249 of
  `src/io_lru_buffer_pool.cc` have dropped that pin. `IoLruInvariants.Allowed` says this.
* Randomness and the outside world are inputs: the level drawn for a new HNSW node, whether the file
  system preallocates, only sets lengths or refuses, how many bytes each read returns.
* `std::sort` and `sorted` are insertion sorts; heaps are ascending sequences of their entries.

## Where the code and its comments differ

* `include/index/neighbor.h:26-27` says that the cursor is at the first unexpanded entry after every
  operation. `insert_or_update` can break this: `NeighborQueue.UpdateKeepsCursorIff` says exactly when,
  and `NeighborQueue.UpdateHandsOutTwice` is a run in which an id is handed out twice.
* `python/train_geometric_cells.py:1822-1825` says that the short path for an empty list of pairs emits
  what the general path would. `HierarchyShortPath.ShortPathAgreesIff` says exactly when, and
  `ReorderedLeaf`, `SharedVector` and `NoCells` are inputs on which it does not.
* `src/io_lru_buffer_pool.cc:171` can throw after the frame has left its list.
  `IoLruReplacement.OversizedPageLosesFrame` says exactly when, and `LossesStay` that the frame is out
  of use until the pool is cleared or resized.
* `src/disk_manager.cc:431-435` checks the range of free chunk numbers but not that they differ.
  `DiskManager.HandOutFree` says that allocation hands out distinct, accepted chunks exactly when they
  do; `DiskManager.DuplicateHandsOutTwice` is a file for which it does not. Files written by
  `flush_meta` on a manager in order never have duplicates (`DiskManager.Manager.Reopen`).
* `src/disk_manager.cc:62` calls the reservation a resize to at least the requested length. Line 248 computes
  that length in 64 bits and lines 87-89 fall back on setting the length, so a length that wraps around
  cuts the file. `DiskManager.Manager.Allocate` says exactly when pages survive,
  and `DiskManager.WrapEmptiesFile` gives the first 2 MB chunk for which it wraps to 0.

## Model
| member | source | states |
|---|---|---|
| IoLruInvariants.ApplyKeepsInv | src/io_lru_buffer_pool.cc:48-373 | every public call that a well-behaved client may make keeps the whole invariant: frame ownership, pin counts, list shape, demand order and counter balances; publishing and releasing never throw, and no logic error (pin or unused-prefetch underflow) is reachable |
| IoLruInvariants.RunKeepsInv | src/io_lru_buffer_pool.cc:48-373 | the invariant survives every sequence of allowed calls |
| IoLruInvariants.ReachableInv | src/io_lru_buffer_pool.cc:13-25 | the invariant holds in every state reachable from a new pool |
| IoLruInvariants.EachFrameInOnePlace | src/io_lru_buffer_pool.cc:48-183 | in every reachable state a frame that has not been lost is in exactly one of free, loading and resident; a lost one is in none |
| IoLruInvariants.PinsAreReservations | src/io_lru_buffer_pool.cc:220-300 | the pin count of a resident frame is the number of reservations out on it, and it is zero exactly when no reservation for the page is out |
| IoLruInvariants.HeldFrameKeepsItsPage | src/io_lru_buffer_pool.cc:114-175 | while a reservation is out its page stays resident in the same frame, whatever call anyone makes |
| IoLruInvariants.ListedAreResident | src/io_lru_buffer_pool.cc:230-244 | the recency list, which has no repeats, is as long as the resident map, so it holds exactly the resident pages |
| IoLruInvariants.UnusedAreFlagged | src/io_lru_buffer_pool.cc:62-70 | the unused-prefetch count is the number of resident pages flagged as unused prefetches |
| IoLruReplacement.EvictByPolicy | src/io_lru_buffer_pool.cc:114-155 | without a free frame a page is given up exactly when the policy allows it: an unpinned unused prefetch to anyone; else, to a demand and a gateway prefetch, any unpinned page whatever the credit, and to a plain prefetch only with credit; then exactly one page leaves, an unused prefetch if there is one, else the unpinned page demanded least recently; the credit is spent and the statistics count just as said |
| IoLruAdmission.MissAnswers | src/io_lru_buffer_pool.cc:94-182 | in a reachable pool, what a request for an absent page answers: a load on the frame freed last; without a free frame a load, with `evicted`, on the frame of the one page that the policy gives up, or a bypass that moves no page when it gives up none or the pool has no frames; an id beyond 62 bits throws in place of the load; every counter and the credit |
| IoLruAdmission.HitAnswers | src/io_lru_buffer_pool.cc:48-82 | in a reachable pool, what a request for a resident page answers: its frame, whether a demand found an unused prefetch, one more pin on that frame only, and which counters move |
| IoLruAdmission.InFlightAnswers | src/io_lru_buffer_pool.cc:83-92 | a request for a page in flight counts a coalesced miss and waits or answers a coalesced bypass; nothing else changes |
| IoLruAdmission.TryAnswers | src/io_lru_buffer_pool.cc:185-218 | try_reserve_hit reserves a resident page like any request and otherwise changes nothing |
| IoLruAdmission.CreditLife | src/io_lru_buffer_pool.cc:137-151 | the admission credit is there at the start and after a clear or resize, is taken only by a plain prefetch that displaces a used page, is given back by a demand that hits an unused prefetch, and no other call changes it |
| IoLruAdmission.EmptyingAnswers | src/io_lru_buffer_pool.cc:315-373 | in a reachable pool clear and resize succeed exactly when no reservation is out (and the new capacity is positive); then all frames are free, unpinned and distinct, after a resize as many new ones as asked for, nothing is resident, the credit is there and the counters are zero; otherwise nothing changes |
| IoLruReplacement.RunKeepsTail | src/io_lru_buffer_pool.cc:230-244 | after any sequence of allowed calls the unused prefetches stand at the end of the list in the order in which they were published |
| IoLruReplacement.LatestPrefetchGoes | src/io_lru_buffer_pool.cc:114-155 | whatever access takes it, an unused prefetch that is evicted is the one published last among the unpinned ones |
| IoLruReplacement.TakesIffRoom | src/io_lru_buffer_pool.cc:93-165 | a miss gets hold of a frame exactly when the pool has frames and one is free, or some unpinned resident page is an unused prefetch, or some page is unpinned and the access is a demand, a gateway prefetch, or a plain prefetch while there is credit |
| IoLruInvariants.CountersBalance | src/io_lru_buffer_pool.cc:56-71 | since the last clear: successful prefetch publishes = used + evicted unused + still unused; successful publishes - evictions = resident pages; demand evictions by plain prefetches are at most 1 + prefetch_used |
| IoLruInvariants.ChargedEvictionRemovesUsedPage | src/io_lru_buffer_pool.cc:137-151 | whenever a prefetch is charged with a demand eviction, the page that left was not an unused prefetch |
| IoLruReplacement.OversizedPageLosesFrame | src/io_lru_buffer_pool.cc:108-171 | reserve throws on encoding the page id exactly when the page is absent, its id needs more than 62 bits and there is room for a miss; then exactly one more frame is in no list, otherwise none is |
| IoLruReplacement.LossesStay | src/io_lru_buffer_pool.cc:315-372 | a successful clear or resize leaves no frame lost; every other allowed call keeps all lost frames lost |
| IoLruReplacement.LostUntilEmptied | src/io_lru_buffer_pool.cc:315-372 | over any run without a successful clear or resize a lost frame stays lost |
| IoLruReplacement.OversizedPageExample | src/io_lru_buffer_pool.cc:171 | one such request on a one-frame pool makes the next request for any page a bypass |
| IoLruBufferPoolObject.IoLruBufferPool.constructor | src/io_lru_buffer_pool.cc:13-25 | all frames free, nothing resident or loading, credit granted |
| IoLruBufferPoolObject.IoLruBufferPool.TakeVictim | src/io_lru_buffer_pool.cc:114-136 | the reverse scan over the list takes the frame and leaves the state that the victim-selection function gives |
| IoLruBufferPoolObject.IoLruBufferPool.Displace | src/io_lru_buffer_pool.cc:137-155 | which pages a miss may displace, by kind of access and admission credit, as the specification function says |
| IoLruBufferPoolObject.IoLruBufferPool.Reserve | src/io_lru_buffer_pool.cc:48-183 | one pass of reserve_locked: hit, coalesced wait or bypass, miss with its eviction; whole new state and reply equal the specification function on which the invariants are proved |
| IoLruBufferPoolObject.IoLruBufferPool.TryReserve | src/io_lru_buffer_pool.cc:185-218 | a hit pins and touches the page, anything else changes nothing |
| IoLruBufferPoolObject.IoLruBufferPool.ReserveMany | src/io_lru_buffer_pool.cc:33-46 | refuses batches that are not strictly increasing; otherwise the state and reservations after each page in turn, up to the first page it must wait for |
| IoLruBufferPoolObject.IoLruBufferPool.ReserveFrom | src/io_lru_buffer_pool.cc:33-92 | the loop of the batch, also when it is entered again after a wait with what it has got so far |
| IoLruBatches.ReserveRestRuns | src/io_lru_buffer_pool.cc:33-92 | a batch is the run of its single reservations in the order of its pages, up to the first that waits or throws; reservation i is for page i with the access asked for, and a batch that completes has one for every page |
| IoLruBufferPoolObject.IoLruBufferPool.PublishOne | src/io_lru_buffer_pool.cc:220-252 | a successful load becomes resident at the front (demand) or back (prefetch), a failed one returns its frame; a publication that matches no load is a logic error |
| IoLruBufferPoolObject.IoLruBufferPool.PublishMany | src/io_lru_buffer_pool.cc:254-289 | the batch form equals publishing one by one, up to the first error |
| IoLruBatches.PublishAllDoes | src/io_lru_buffer_pool.cc:254-289 | a batch publication does exactly the loads before the first one that is not in flight in its frame and reports a logic error exactly when there is such a one; after success each of these pages is resident in its frame, at the front (demand, last one first) or back (prefetch, in order), and all pins stay; after failure each frame is back on the free list with one pin less and counted; all other pages are as before |
| IoLruBatches.LoadsHaveOwnFrames | src/io_lru_buffer_pool.cc:168-174 | in a reachable pool no two pages are being read into one frame, as the batch law asks |
| IoLruBufferPoolObject.IoLruBufferPool.ReleaseOne | src/io_lru_buffer_pool.cc:291-300 | drops one pin, or reports underflow |
| IoLruBufferPoolObject.IoLruBufferPool.ReleaseMany | src/io_lru_buffer_pool.cc:302-313 | the batch form equals releasing one by one, up to the first error |
| IoLruBatches.ReleaseAllDoes | src/io_lru_buffer_pool.cc:302-313 | a batch release drops exactly one pin for every hit or load before the first one whose frame has no pin left, which is a logic error; nothing else changes |
| IoLruBatches.ReleaseAllIff | src/io_lru_buffer_pool.cc:302-313 | it goes through if and only if every frame has at least as many pins as the batch has reservations on it |
| IoLruBufferPoolObject.IoLruBufferPool.ClearPages | src/io_lru_buffer_pool.cc:315-336 | refused while a load is in flight or a resident page is pinned; otherwise empties the pool and its counters; the object stays usable either way |
| IoLruInvariants.UnpinnedMeansNothingHeld | src/io_lru_buffer_pool.cc:320-324 | when no resident page is pinned no reservation is out, so a clear or resize that is not refused takes no page from anyone |
| IoLruBufferPoolObject.IoLruBufferPool.Resize | src/io_lru_buffer_pool.cc:338-372 | as clear, with a new positive capacity and new frames; the object stays usable either way |
| IoLruThreads.StepKeepsInv | src/io_lru_buffer_pool.cc:33-46 | every step of every thread that reserves, publishes and releases batches keeps the system invariant, and the pool call it makes does not throw |
| IoLruThreads.SysReachableInv | src/io_lru_buffer_pool.cc:254-313 | the system invariant holds after every schedule of any number of threads |
| IoLruThreads.StuckWaitsOnSomeone | src/io_lru_buffer_pool.cc:83-92 | a thread asleep on an in-flight page always waits on a thread that is loading that page |
| IoLruThreads.WaitsIncrease | src/io_lru_buffer_pool.cc:33-46 | along any wait the awaited page ids strictly increase, because batches are strictly increasing |
| IoLruThreads.NoWaitCycle | src/io_lru_buffer_pool.cc:33-92 | no reachable state has threads waiting on each other in a circle, of whatever length |
| IoLruThreads.WaitingHappens | src/io_lru_buffer_pool.cc:83-92 | a reachable state in which one thread sleeps on a page that another is loading |
| IoLruThreads.SomeoneCanStep | src/io_lru_buffer_pool.cc:83-92 | whenever some thread is in the middle of a round, some such thread can take its next step: no deadlock |
| NeighborQueue.SearchIsSorted | include/index/neighbor.h:45-56 | when an id always has one distance, the binary search finds the id if it is queued and otherwise the one sorted position |
| NeighborQueue.InsertKeepsSmallest | include/index/neighbor.h:40-68 | after an insert the queue is the `capacity` smallest of everything inserted since clear |
| NeighborQueue.InsertKeepsInv | include/index/neighbor.h:40-68 | an insert keeps sortedness, contents and the cursor at the first unexpanded entry |
| NeighborQueue.NextIsFresh | include/index/neighbor.h:90-97 | the entry handed out was never handed out before, and every nearer queued entry already was |
| NeighborQueue.RunKeepsInv | include/index/neighbor.h:26-97 | all of this holds after any sequence of insert and closest_unexpanded calls |
| NeighborQueue.NoIdTwice | include/index/neighbor.h:90-97 | over any run no id is handed out twice |
| NeighborQueue.UpdateKeepsCursorIff | include/index/neighbor.h:72-88 | insert_or_update keeps the cursor at the first unexpanded entry unless it re-scores the entry at the cursor, the entry after it is already expanded, and the new score comes behind that one; then it does not |
| NeighborQueue.UpdateKeepsSmallest | include/index/neighbor.h:72-88 | after insert_or_update the queue is the smallest of the other entries and the new one, which counts as unexpanded; no other entry changes |
| NeighborQueue.UpdateHandsOutTwice | include/index/neighbor.h:72-97 | a run that ends in such an update: the cursor stays on an expanded entry, which is handed out a second time |
| NeighborQueue.ReinsertDuplicatesIff | include/index/neighbor.h:40-68 | when an id comes back at another distance, insert queues it twice exactly so: a nearer one unless the old entry falls off the full queue; a farther one unless it belongs behind a full queue or the binary search happens to probe the old entry |
| NeighborQueue.InconsistentDistanceDuplicates | include/index/neighbor.h:45-56 | an id that comes back at another distance can be queued twice |
| NeighborQueue.SearchFits | include/index/neighbor.h:45-56 | whatever distances the queued ids have, the search meets the id or returns the one sorted position |
| NeighborQueue.NeighborPriorityQueue.Insert | include/index/neighbor.h:40-68 | the array form takes contents and cursor exactly where the insertion functions say, also for an id queued at another distance |
| NeighborQueue.NeighborPriorityQueue.InsertOrUpdate | include/index/neighbor.h:72-88 | takes the entry of the id out, closes the gap, steps the cursor back if it was behind, and inserts |
| NeighborQueue.NeighborPriorityQueue.Find | include/index/neighbor.h:45-56 | the binary-search loop on the array equals the recursive search |
| NeighborQueue.NeighborPriorityQueue.ClosestUnexpanded | include/index/neighbor.h:90-97 | marks the cursor entry, returns it and moves to the next unexpanded one |
| NeighborQueue.NeighborPriorityQueue.Clear | include/index/neighbor.h:116-119 | empties the queue |
| VamanaSearch.BestQueue.LowerBound | src/vamana.cc:51-52 | the first position whose entry is not less than the new one |
| VamanaSearch.BestQueue.Insert | src/vamana.cc:43-60 | the vector form: an id already queued, at whatever distance, changes nothing; otherwise contents and cursor as the insertion functions of the array queue say |
| VamanaSearch.BestQueue.ClosestUnexpanded | src/vamana.cc:62-69 | expands the cursor entry and advances to the next unexpanded one |
| VamanaSearch.BeamSearch | src/vamana.cc:281-314 | terminates; every expansion takes the nearest node seen so far and not yet expanded, which is one of the L nearest nodes seen; what is seen is the entry and the neighbours of expanded nodes; it stops when all of the L smallest seen nodes by (distance, id), which are the queue, are expanded |
| VamanaSearch.SearchIsUnique | src/vamana.cc:281-314 | this leaves no choice: graph, distances, entry and L determine which nodes are expanded and in which order, what is seen and what is found |
| VamanaSearch.SeenIsReachable | src/vamana.cc:281-314 | everything seen lies at the end of a walk from the entry through expanded nodes |
| VamanaSearch.UnfilledFindsReachable | src/vamana.cc:281-314 | a search whose queue did not fill up returns exactly the nodes that can be reached from the entry |
| VamanaSearch.FixedPointIsLocal | src/vamana.cc:297-313 | at such a fixed point every neighbour of a queued node is queued, or the queue is full and its last entry is smaller |
| VamanaPrune.LastFactor | src/vamana.cc:339-364 | the last factor 1.2^k tried that is still at most alpha |
| VamanaPrune.ChooseKeepsFactors | src/vamana.cc:346-362 | choosing a candidate and raising the factors behind it keeps every factor explained by a chosen witness and bounding every chosen one |
| VamanaPrune.AcceptedIsDiverse | src/vamana.cc:341-348 | a candidate accepted at some factor is not occluded beyond alpha by any chosen candidate before it in the pool |
| VamanaPrune.ExceedsIffBlocked | src/vamana.cc:351-362 | the running factor of a candidate exceeds a exactly when some chosen candidate before it in the pool coincides with it or occludes it beyond a |
| VamanaPrune.AcceptedIsDue | src/vamana.cc:339-349 | a candidate that the scan accepts at a factor is the nearest one neither picked nor blocked at that factor, and at the factor before none was left |
| VamanaPrune.RobustChoiceUnique | src/vamana.cc:329-366 | a sorted pool has one RobustPrune answer |
| VamanaPrune.OccludeList | src/vamana.cc:329-366 | on a pool in distance order: every pick was, when it was made, the nearest candidate neither picked nor occluded by a pick beyond the factor of the round, and the rounds before had left none at their factors; picking goes on until there are R or none is left at the last factor tried; so no pick is alpha-occluded by a nearer earlier pick, the nearest candidate is picked, and if fewer than R are returned every one of the first C that was dropped has a picked witness no farther from the node that coincides with it or occludes it by the last factor |
| VamanaBuild.SortKeepsPool | src/vamana.cc:323 | sorting the pool keeps its members, each once |
| VamanaBuild.SortPoolOrders | src/vamana.cc:323 | and puts them in the order of distance and id that occlude_list asserts |
| VamanaBuild.Prune | src/vamana.cc:316-327 | the answer is RobustPrune of the sorted, cut pool and has at most R distinct members other than the node |
| VamanaBuild.NearestIsChosen | src/vamana.cc:316-349 | the nearest candidate is always among the links that pruning returns |
| VamanaBuild.MakePool | src/vamana.cc:400-415 | every listed node other than the node itself, once each, with its distance |
| VamanaBuild.OfferKeepsGood | src/vamana.cc:371-387 | the locked section of a reverse insertion keeps all lists free of self-loops, duplicates and unknown ids and within floor(1.3 R) |
| VamanaBuild.StepKeepsOk | src/vamana.cc:218-240 | every step of every worker, including stale copies being re-pruned and stored, keeps the graph good |
| VamanaBuild.EveryScheduleIsGood | src/vamana.cc:218-240 | from empty lists, every state of every interleaving of the locked sections of any number of workers is a good graph |
| VamanaBuild.PruneOverfull | src/vamana.cc:242-260 | afterwards every list has at most R entries; lists within R are untouched and the others are replaced by the pruning of their own nodes |
| VamanaBuild.VamanaBuilder.SearchAndPrune | src/vamana.cc:270-279 | the list is RobustPrune of what a finished beam search for the node expanded, less the node itself |
| VamanaBuild.VamanaBuilder.InterInsert | src/vamana.cc:368-398 | each chosen neighbour already lists the node, or appends it within the slack, or is re-pruned with it; no other list changes |
| VamanaBuild.VamanaBuilder.Build | src/vamana.cc:218-260 | ends in a good graph of degree at most R which comes from the lists it started with by linking node 0, 1, ... in turn (the list of the node is the pruned result of a search on the graph as it then is, the node is offered to everything on it, no other list changes) and shortening the lists above R |
| VamanaUnique.PruningIsUnique | src/vamana.cc:316-366 | pruning does not depend on the order of the candidates and has one answer |
| VamanaUnique.LinkingIsUnique | src/vamana.cc:218-240 | linking a node takes a graph to one graph |
| VamanaUnique.BuildIsUnique | src/vamana.cc:218-260 | parameters, entry point and the lists it starts from determine the built graph |
| PqLloyd.NearestIsUnique | src/pq.cc:92-107 | the scan returns the first of the nearest centres and nothing else |
| PqLloyd.NearestCenter | src/pq.cc:92-107 | the loop computes that centre |
| PqLloyd.MeansAreBest | src/pq.cc:172-181 | for a fixed assignment no centres have a smaller residual than the means, clusters reset to zero included |
| PqLloyd.StepIsBest | src/pq.cc:158-181 | one iteration leaves the smallest residual that any centres leave for the assignment it starts from |
| PqLloyd.DesertedIsZero | src/pq.cc:172-177 | a centre that is nearest to no point is set to zero |
| PqLloyd.StepImproves | src/pq.cc:158-187 | one iteration: new distortion <= reported residual <= old distortion |
| PqLloyd.ResidualsNeverIncrease | src/pq.cc:183-195 | the residuals reported by successive iterations never increase |
| PqLloyd.DistortionNeverIncreases | src/pq.cc:158-187 | after any number of iterations the quantization error is no larger than at the start |
| PqLloyd.LloydImproves | src/pq.cc:189-195 | the same for the loop with its two stopping rules, wherever it stops |
| PqLloyd.LloydStopsFirst | src/pq.cc:156-195 | the loop ends after the first iteration that leaves a residual of at most 2^-23 or, not being the first, gains less than 1/100000 of what it leaves, and otherwise after the last one allowed |
| PqLloyd.UpdateCenters | src/pq.cc:172-181 | the arrays of sums and counts become the means, empty clusters zero |
| PqLloyd.RunLloyd | src/pq.cc:151-197 | the in-place loop leaves the centre array equal to the iteration that the theorems are about |
| PqCodec.MakeChunkOffsets | src/pq.cc:243-262 | accepted exactly when 0 < chunks <= dim; the boundaries partition the dimensions into chunks that differ by at most one, longer ones first |
| PqCodec.TableDistanceIsExact | src/pq.cc:271-280 | the sum of table entries of a code is the squared distance from the centred query to the vector rebuilt from the code |
| PqCodec.EncodingIsOptimal | src/pq.cc:435-453 | a code that is nearest in every chunk rebuilds to a vector at least as near as that of any of the 256^m codes |
| PqCodec.Encode | src/pq.cc:419-455 | every code written is valid and names the first nearest centre in every chunk of its centred vector |
| PqCodec.BuildDistanceTable | src/pq.cc:393-417 | every table entry is the chunk distance from the centred query to that centre |
| PqCodec.TableDistance | src/pq.cc:271-280 | the lookup loop returns the exact squared distance to the rebuilt vector |
| HierarchyTree.ParentDepthAndCellLeaves | python/train_geometric_cells.py:1439-1466 | accepted if and only if the node array is a tree over all its nodes and Cells, and then with its parents, depths and Cell leaves |
| HierarchyTree.TreeWalk.Visit | python/train_geometric_cells.py:1446-1462 | a visit records a whole subtree consistently, fails on a repeated node, and never fails on a tree |
| HierarchyTree.TreeWalk.TakeCells | python/train_geometric_cells.py:1451-1456 | claims every Cell of a leaf once, or fails on an unknown or repeated one |
| HierarchyTree.TreeWalk.VisitChildren | python/train_geometric_cells.py:1457-1461 | claims and visits every child once, or fails on an unknown or already claimed one |
| HierarchyTree.HierarchyLca | python/train_geometric_cells.py:1469-1477 | the climb ends at the lowest common ancestor: it contains both nodes, and every node containing both contains it |
| HierarchyTree.AncestorOfAncestor | python/train_geometric_cells.py:1469-1477 | ancestors compose |
| HierarchySurgery.LayoutListsOnce | python/train_geometric_cells.py:1891-1933 | in the written array every node other than the root is listed as a child exactly once |
| HierarchySurgery.LayoutListsCells | python/train_geometric_cells.py:1891-1933 | the leaves of the written array list exactly the Cells of the rewritten tree |
| HierarchySurgery.LayoutForward | python/train_geometric_cells.py:1891-1933 | children come after their parent and no node is left without children |
| HierarchySurgery.PrunedKeepsOwn | python/train_geometric_cells.py:1903-1929 | what is left of a subtree holds each output Cell placed inside it exactly once and no other |
| HierarchySurgery.RootKeepsEveryCell | python/train_geometric_cells.py:1935-1937 | with at least one Cell the root survives and every output Cell hangs under it exactly once: the removed-root error is unreachable |
| HierarchySurgery.HierarchyWriter.Append | python/train_geometric_cells.py:1891-1933 | the recursive closure appends exactly the preorder layout of the rewritten subtree, with summed counts, and leaves the list as it was when nothing is left of the subtree |
| HierarchyMerge.PairUp | python/train_geometric_cells.py:1854-1862 | pairs are accepted if and only if they name existing Cells, no Cell twice, and no union exceeds 128 vectors |
| HierarchyMerge.MakeUnits | python/train_geometric_cells.py:1864-1885 | every Cell ends up in exactly one unit; pairs become one unit with both member lists, placed at the lowest common ancestor of its leaves; units come in increasing key order |
| HierarchyMerge.Placements | python/train_geometric_cells.py:1887-1889 | the output Cells of every node in increasing order |
| HierarchyMerge.CheckOwners | python/train_geometric_cells.py:1938-1945 | the owner check passes if and only if the groups own the vectors 0 to N-1, each once |
| HierarchyMerge.MembersPermute | python/train_geometric_cells.py:1886 | listing the same Cells in another order lists the same vectors |
| HierarchyOutput.MergedIsTree | python/train_geometric_cells.py:1815-1946 | the merged hierarchy is again a tree over all its nodes and output Cells, so the tree check would accept it |
| HierarchyOutput.SubtreeHoldsItsUnits | python/train_geometric_cells.py:1876-1885 | what is left of the subtree at any source node holds exactly the units all of whose source Cells were under that node, once each |
| HierarchyOutput.MergeConservesVectors | python/train_geometric_cells.py:1886-1945 | merging neither loses nor copies a vector, so the duplicate-owner and lost-coverage errors are reached only if the input groups already had the fault |
| HierarchyOutput.MergedCounts | python/train_geometric_cells.py:1910-1932 | every node of the output counts the vectors of its own Cells or sums its children, and the root counts all vectors |
| HierarchyOrigins.MergeRewrites | python/train_geometric_cells.py:1887-1930 | each node of the merged hierarchy is the image of a source node that has all Cells of some unit under it, every such node once, or the leaf spliced in at a source node; an image keeps centroid and radius and lists the images of its children in their order, then the spliced leaf if units are placed at the node itself, or, without such children, these units; a spliced leaf has radius 0, and lists these units in increasing order |
| HierarchyCopy.HierarchyCopier.Append | python/train_geometric_cells.py:1829-1846 | the short path appends the preorder copy of the subtree, and fails exactly when a listed node does not exist |
| HierarchyCopy.UnfoldRenumbers | python/train_geometric_cells.py:1829-1846 | whatever the hierarchy, node i of the copy is the i-th source node in preorder, with its listed nodes replaced by their copies, all of them behind it |
| HierarchyCopy.OrderIsBijection | python/train_geometric_cells.py:1829-1846 | the preorder of a tree has every source node once |
| HierarchyCopy.CopyIsTree | python/train_geometric_cells.py:1829-1846 | the copy of a tree is a tree over the same Cells, whose parents, depths and leaves are those of the source under the new numbers |
| HierarchyMaterialize.MaterializePairMerges | python/train_geometric_cells.py:1815-1946 | with pairs: succeeds if and only if the hierarchy is a tree, the pairs are mergeable and every vector has one owner, and the result is the merge; without pairs: the renumbered copy, which is a tree again if the source was one, or an error exactly when a listed node does not exist |
| HierarchyMaterialize.MergeUnits | python/train_geometric_cells.py:1864-1946 | the general path after its checks, for any pairing: refused exactly when there is no Cell or some vector has not one owner |
| HierarchyShortPath.WithoutPairs | python/train_geometric_cells.py:1848-1946 | the general path run without pairs has one possible result, and has it exactly when there is a Cell and every vector has one owner |
| HierarchyShortPath.UnitsAreOwn | python/train_geometric_cells.py:1864-1885 | without pairs there is one way to form the units: every Cell alone, at its own leaf |
| HierarchyShortPath.ShortPathAgreesIff | python/train_geometric_cells.py:1822-1825 | the general path returns the copy that the short path makes if and only if there is a Cell, every vector has one owner, no source node is empty, every leaf lists its Cells in increasing order and all stored counts are right |
| HierarchyShortPath.ReorderedLeaf | python/train_geometric_cells.py:1822-1825 | a tree whose one leaf lists its Cells out of order: the general path returns another hierarchy than the copy |
| HierarchyShortPath.SharedVector | python/train_geometric_cells.py:1938-1942 | a source in normal form with a vector in two Cells: copied by the short path, refused by the general one |
| HierarchyShortPath.NoCells | python/train_geometric_cells.py:1935-1937 | a hierarchy without Cells: copied by the short path, refused by the general one |
| BalancedAssign.CapacitiesFit | python/train_geometric_cells.py:427-430 | the cluster capacities add up to the number of points and none exceeds the target size |
| BalancedAssign.FewestClusters | python/train_geometric_cells.py:427-430 | with one cluster fewer the target size could not hold all points, unless there is only one cluster |
| BalancedAssign.AssignByCapacity | python/train_geometric_cells.py:454-461 | every cluster gets exactly its capacity, and a point misses a cluster it prefers only because earlier points filled it |
| AssignmentCodec.SearchRight | python/train_geometric_cells.py:1142 | the position after the last offset that is at most the rank |
| AssignmentCodec.Scatter | python/train_geometric_cells.py:1121-1124 | scattering ranks leaves a gap if and only if a position repeats |
| AssignmentCodec.WriteAssignment | python/train_geometric_cells.py:1108-1149 | accepted if and only if the order is a permutation, the sizes add up and every node has a Community; record i is node i at the place where the order has it |
| AssignmentCodec.GroupsFromArrays | python/train_geometric_cells.py:730-753 | accepted if and only if the arrays describe a partition of all nodes into non-empty Cells, which is returned |
| AssignmentCodec.ReadAssignment | python/train_geometric_cells.py:756-799 | also requires canonical node ids |
| AssignmentCodec.WriteThenRead | python/train_geometric_cells.py:1108-1149 | write and read back: succeeds if and only if the order can be written and no Cell is empty, and returns the slices of the order |
| AssignmentCodec.PlacesUnique | python/train_geometric_cells.py:750-753 | the arrays leave no choice of groups |
| AssignmentCodec.ConcatSlices | python/train_geometric_cells.py:750-753 | the groups laid end to end are the original order |
| AssignmentCodec.DescribedOrders | python/train_geometric_cells.py:739-744 | in accepted arrays the orders of each Cell are exactly 0 to size-1 |
| CoAccess.PickBest | python/train_convergence_cells.py:179-182 | the waiting node with the largest affinity, then frequency, then smallest id |
| CoAccess.Builder.Publish | python/train_convergence_cells.py:148-155 | the nodes, and no others, become the one new Cell behind the earlier ones, which stay as they are; its order is most frequent first, smaller id first among equals, and ids and orders of all other nodes stay |
| CoAccess.Builder.Add | python/train_convergence_cells.py:169-174 | the node is taken, and the waiting nodes are then exactly the free nodes of the Community that the cluster leads to, each with the total weight of its edges from the cluster; fails exactly on a neighbour id that is no node |
| CoAccess.Builder.Grow | python/train_convergence_cells.py:165-185 | a cluster starts at its seed, stays in its Community and within the target; every further node was, when it joined, the free neighbour of the cluster with the largest total weight, then frequency, then smallest id; a cluster short of the target has no free neighbour left |
| CoAccess.Builder.TopUp | python/train_convergence_cells.py:187-195 | what joins the cluster is exactly the first, in the order of source Cell and id, of the free nodes of the Community that share a source Cell with the cluster, as many as there is room for or all of them |
| CoAccess.Builder.ClusterSeeds | python/train_convergence_cells.py:159-196 | afterwards every traced node of the Community is in a Cell, and each Cell so far that has a traced node was grown as said at BuildAssignments |
| CoAccess.Builder.PackRest | python/train_convergence_cells.py:198-209 | afterwards every node of the Community is in a Cell; each Cell made here holds the first target_size free nodes of the Community in the order of source Cell and id, or all that are left |
| CoAccess.Builder.Pack | python/train_convergence_cells.py:205-207 | full Cells are published from the front as long as there are enough nodes; what stays is less than a Cell and still first in line |
| CoAccess.OrderedNodes | python/train_convergence_cells.py:150 | sorting a Cell keeps its nodes and puts them in order |
| CoAccess.BuildAssignments | python/train_convergence_cells.py:129-213 | terminates; the incomplete-coverage error is unreachable, in-range edges exclude every error, and the result places every node once in a Cell of one Community with at most target_size nodes, Cells in order of Community; while a Community has free traced nodes its next Cell is grown greedily from the strongest of them and topped up from the source Cells of the core, and after that its next Cell is its first free nodes in the order of source Cell and id, target_size or all of them |
| CoAccessUnique.AssignmentUnique | python/train_convergence_cells.py:129-213 | these conditions leave no choice: the arguments determine the assignment |
| CoAccess.OrdersFollowFrequency | python/train_convergence_cells.py:148-155 | nodes that share a Cell share a Community, and their orders rank them by frequency and id and stay below the target size |
| CoAccess.AssignmentDescribes | python/train_convergence_cells.py:129-213 | the result is an assignment that the regrouping of the other trainer accepts |
| HnswSearch.VisitedTable.Visit | src/hnsw.cc:18-24 | answers whether the node was marked since the last reset, and marks it |
| HnswSearch.VisitedTable.Reset | src/hnsw.cc:26-32 | forgets every mark, also when the 16-bit epoch wraps |
| HnswSearch.Admit | src/hnsw.cc:126-136 | admitting or rejecting one more seen node keeps the result covering all that was seen and every result either waiting or opened |
| HnswSearch.SearchLayer | src/hnsw.cc:92-140 | terminates; every expansion takes a closest node seen and not yet expanded, to which fewer than ef seen nodes are preferred; what is seen is the entry point and the neighbours of expanded nodes; it stops when to everything seen but not expanded at least ef others are no worse; the results are ordered, all seen, at most ef; every seen node is a result or no closer than the last of a full result; all neighbours of all results were seen |
| HnswSearch.SearchIsUnique | src/hnsw.cc:92-140 | when no two nodes are equally far from the query, the search of a layer has one outcome |
| HnswSearch.UnfilledFindsReachable | src/hnsw.cc:92-140 | a search that does not fill its result finds exactly the nodes of the layer that can be reached from its entry point |
| HnswSearch.FixedPointIsLocal | src/hnsw.cc:92-140 | every neighbour of a result is a result, or the result is full and it is no closer than the last entry |
| HnswSearch.GreedyLower | src/hnsw.cc:142-171 | terminates; walks from the start along links of the layer, at each step to the nearest neighbour (the first listed of equally near ones), and ends where no neighbour is closer |
| HnswSearch.GreedyWalkIsUnique | src/hnsw.cc:142-171 | the walk is determined by where it starts |
| HnswIndex.Index.KeepSpread | src/hnsw.cc:184-201 | the first pass: the kept are ordered and spread out, the nearest candidate is kept, and whatever it did not keep is closer to a kept one than to the query, or no nearer than the last of the m_limit kept |
| HnswIndex.Index.SelectNeighbours | src/hnsw.cc:173-222 | min(limit, candidates) distinct candidates, the nearest first; the diverse ones come first, and every other candidate is shadowed by one of them or no nearer than the last of m_limit of them; the rest are the nearest of the others |
| HnswIndex.Index.FindWorst | src/hnsw.cc:262-272 | the first of the farthest entries |
| HnswIndex.Index.Connect | src/hnsw.cc:224-278 | the new node lists the chosen, each chosen node appends it or replaces its farthest entry if the new one is nearer, nothing else changes, and the graph stays right |
| HnswIndex.RelinkedOk | src/hnsw.cc:255-276 | such a relinking keeps lists distinct, self-free, inside the layer and within the degree limit |
| HnswIndex.Index.ConnectLayer | src/hnsw.cc:336-353 | the neighbours of the new node at a layer are selected from a fixed point of the search there from the given entry point; the nearest of them is the entry point of the next layer |
| HnswIndex.Index.Descend | src/hnsw.cc:330-334 | ends where the greedy walks end that lead down from the entry point of the index, one in every layer above the first shared one, each starting where the one above it ended |
| HnswIndex.DescentIsUnique | src/hnsw.cc:375-377 | they end at one node only, which is no farther than the entry point |
| HnswIndex.Index.Insert | src/hnsw.cc:280-362 | keeps: every link at layer l goes to a distinct existing other node of level at least l, degrees within max_m or max_m0, entry point on the top level, labels one to one; a known label changes only its vector; a full index changes nothing; otherwise every shared layer was searched, the first from where the greedy walk ended and each next one from the nearest neighbour chosen above, and connected, and no other layer changed |
| HnswIndex.Index.WithLabels | src/hnsw.cc:380-386 | the results with their labels in the order of the pairs |
| HnswIndex.Index.Search | src/hnsw.cc:364-393 | the k first results, by distance and label, of a fixed point of the bottom layer reached from where the greedy walk ended |
| DiskManager.IdsRoundTrip | src/disk_manager.cc:356-385 | ids decode to the type and number that were encoded, and every 64-bit id is the encoding of what it decodes to |
| DiskManager.IdsInOrder | src/disk_manager.cc:356-385 | ids come in the order of type and then number |
| DiskManager.DecodeIsExact | src/disk_manager.cc:365-373 | decoding fails exactly when the byte offset does not fit 64 bits, and otherwise gives it |
| DiskManager.RangesDisjoint | src/disk_manager.cc:365-373 | byte ranges of different chunks of one type do not meet |
| DiskManager.Manager.Validate | src/disk_manager.cc:502-513 | accepts exactly the live chunks |
| DiskManager.Manager.Allocate | src/disk_manager.cc:237-252 | from any state: takes the number freed last, or the next number with its space; that chunk and no other becomes live, unless its number is still listed as free; a new page reads as zeros; all pages stay as they were if and only if reserving the space does not cut the chunk file, which it never does while the end of the new chunk fits 64 bits |
| DiskManager.ReservedPagesIff | src/disk_manager.cc:62-103 | reserving space leaves every page as it was if and only if it does not set the length below a byte other than zero |
| DiskManager.RoomReserved | src/disk_manager.cc:62-103 | where no length wraps, a reservation that is not refused makes the file reach to the end of the chunk, moves no byte, and new bytes are zero |
| DiskManager.CutChangesPage | src/disk_manager.cc:85-94 | such a cut changes the page of some chunk id |
| DiskManager.NoWrapNoCut | src/disk_manager.cc:248-249 | no cut while the end of the new chunk fits 64 bits and the file is no longer than its chunks |
| DiskManager.WrapEmptiesFile | src/disk_manager.cc:85-94 | the last 2 MB number whose end wraps to 0: reserving its space empties the chunk file |
| DiskManager.Manager.Delete | src/disk_manager.cc:255-263 | from any state, exactly this chunk stops being live |
| DiskManager.Manager.Write | src/disk_manager.cc:266-299 | succeeds exactly for a live, addressable chunk and data that fits; the page becomes the data padded with zeros and no other page changes |
| DiskManager.Manager.WriteNew | src/disk_manager.cc:302-311 | one new live chunk with the padded data; after an error exactly the same chunks are live as before, and one more only if the next number was taken and no space was found for it; no page of a live chunk changes unless the chunk file is cut |
| DiskManager.Manager.Load | src/disk_manager.cc:314-343 | whatever positive counts the reads return, the buffer gets the page padded with zeros at the end of the file, which is the last write to the chunk |
| DiskManager.Manager.FlushMeta | src/disk_manager.cc:445-474 | the file holds counts, lengths and free lists and nothing behind them |
| DiskManager.FlattenAt | src/disk_manager.cc:460-468 | the free lists stand one behind another in the order of the types |
| DiskManager.Manager.LoadMeta | src/disk_manager.cc:404-442 | accepted if and only if the header is valid and the stored numbers are complete and below their counts; then the state is what the file stores, and in order exactly when no free number is listed twice and no chunk file is longer than its chunks |
| DiskManager.Manager.Reopen | src/disk_manager.cc:404-474 | flush and load restore counts, free lists and the set of live chunks |
| DiskManager.AcceptedUnique | src/disk_manager.cc:420-437 | a metadata file stores one set of free lists |
| DiskManager.DuplicateIsAccepted | src/disk_manager.cc:431-435 | loading does not notice a number that is free twice |
| DiskManager.DrainedDistinctIff | src/disk_manager.cc:241-246 | the numbers that allocations take from a free list are distinct if and only if the list has none twice |
| DiskManager.FreeNoLongerIff | src/disk_manager.cc:241-246 | each of them is no longer listed as free when it is handed out if and only if the list has none twice |
| DiskManager.HandOutFree | src/disk_manager.cc:237-246 | allocating until the list is empty on a manager in any state hands out exactly these numbers, and each is accepted at that moment if and only if it is not listed again; so all are distinct and accepted if and only if the list has none twice |
| DiskManager.DuplicateHandsOutTwice | src/disk_manager.cc:431-435 | a manager that loads the free list 0, 0 allocates chunk 0, refuses it as deleted, and allocates it again |
| DiskManager.Rewritten | src/disk_manager.cc:278-294 | rewriting one page changes that page and no other of the file |
| CachedIo.CachedInput.Read | include/storage/cached_io.h:54-89 | the next n bytes of the file, or an error and no change at all exactly when fewer are left |
| CachedIo.CachedInput.Refill | include/storage/cached_io.h:79-86 | refilling or bypassing the cache does not move the logical position |
| CachedIo.ReadAll | include/storage/cached_io.h:54-89 | reads of any sizes through a cache of any size give consecutive bytes |
| CachedIo.CachedOutput.Write | include/storage/cached_io.h:132-151 | the bytes are appended to what has been written, in cache or file |
| CachedIo.CachedOutput.Close | include/storage/cached_io.h:124-128 | everything written is in the file |
| CachedIo.WriteAll | include/storage/cached_io.h:124-168 | a file written in pieces and closed is their concatenation |
| CachedIo.WriteThenRead | include/storage/cached_io.h:54-168 | writing in pieces and reading in other pieces through other caches gives the bytes back |

## Left out

* Chunk states and chunk ids stored in the frames of the page cache, and the raw memory of frames: frames are distinct numbers.
* Waiting on the condition variable inside `reserve_locked` is a reply that says where the caller sleeps; the caller's next pass is a new call. The threads of `IoLruThreads` interleave page by page, which allows every schedule that the mutex allows and more, and they ask only for page ids below 2^62.
* The adaptive cell runtime, the Community-Polar index and search, the PQ flash index, the Vamana index wrapper, POLAR and RCNI are not part of this model: only their headers are in the repository.
* Command lines, option checks, logging, statistics output, file formats of hierarchies and profiles, checksums and memory maps.
* Float rounding, `nextafter`, SIMD distance kernels, SVD; k-means++ sampling and the medoid search that picks the Vamana entry point.
* `graph_slack_factor * R` is computed in floats by the source; the model uses floor(13 R / 10).
* I/O errors other than failing to reserve space, the Apple branch of the space reservation, retries after interrupts, fsync, huge pages and moving a manager; a failed write is not modelled as leaving part of a page.
* `collect_coaccess` and `build_observed_groups` of the convergence trainer: they would repeat the counting and packing shown for `build_assignments`.
* The distance matrix, the confidence order and the centroid update around the capacity assignment of `balanced_kmeans`: the order and the preference lists are inputs.
* Locks of the HNSW index: inserts are sequential. Saving and loading the index.
* Reachability of all HNSW nodes from the entry point: replacing the farthest entry of a full list can cut a node off, so the source does not have it.
- HierarchyMaterialize.MaterializePairMerges: the short path has no result on a hierarchy in which its recursion does not end, so the model asks its caller for one in which it does; the interpreter's recursion limit and negative ids, which Python would count from the end, are not modelled.
- CoAccess.BuildAssignments: says that in-range edges exclude the index error, not the converse, because an out-of-range neighbour of a node that only tops up a Cell is never looked at.
- AssignmentCodec.ReadAssignment: takes decoded records; the header, size and checksum tests before it are not part of this model.
- VamanaBuild.EveryScheduleIsGood: a worker's search is any pool of distinct nodes of the graph, since lists may change while it runs; only the sequential SearchAndPrune ties the pool to a fixed point.
- HnswIndex.Index.Insert: needs a positive degree limit, which the source needs as well before it can replace an entry of a full list.
- DiskManager.Manager.Load: the destination must be at least one chunk long, as the header asks of callers.
- IoLruBufferPoolObject.IoLruBufferPool.ReserveMany: stops where the source would wait; the source goes on after the wait, which is a call of ReserveFrom here.
- DiskManager.Manager.Allocate: nothing is said about which chunks are live after the 64-bit count of a type wraps around.
