# A verified model of XSigma's core algorithms

This project models, in Dafny, the parts of XSigma whose correctness is not visible from any one
function, and proves what they promise over every input, every run and every interleaving.

- **The Robin Hood hash table** (`Powers`, `BitTricks`, `RobinHood`, `FlatHashTable`,
  `FibonacciHashing`). A class
  over the slot array with its displacement counters and end marker. Every operation is proved
  against a plain map and keeps the Robin Hood invariant, through displacement chains, the
  back-out that leaves one slot with a wrong displacement, and rehashes nested in rehashes. The
  slot index is the Fibonacci policy over an arbitrary hash function; the de Bruijn logarithm and
  the power-of-two rounding are proved exact. Memory is explicit: `limit` is the largest bucket
  count the allocator serves, and an operation that would need more returns `ok == false` where
  the library throws. This makes termination part of the model, and the condition under which an
  insertion ends is proved in both directions. What the multiplier is for is proved too: every
  bucket is home to equally many hashes, and hashes that lie close together have different homes,
  so consecutive integers under the identity hash are inserted without a failure.
- **The dependency graph** (`DependencyGraphs`, `GraphBuilder`, `ResolutionTraces`,
  `ResolutionFailures`, `KeyedGraphBuilder`, `DiamondDiscovery`, `SequentialEvaluation`,
  `GraphExecutor`, `GraphPipeline`). Kahn's algorithm with its queue, the recursive memoizing key
  resolver with discovery to a fixed point, and the parallel executor as interleaved steps of one
  scheduler and any number of workers. Nodes are only ever added, so the number of nodes is a
  clock: every answer a callback heard and every discovery pass is tied to the memo at its time,
  for resolutions that succeeded and for those that failed. The last module composes the three: whatever the interleaving, the result of every resolved key is the
  one its own callback's work determines from the results of the keys it resolved.
- **Intrusive strong and weak counting** (`IntrusivePtr`). Every atomic access to the 64-bit word
  is one step; strong handles, weak handles, releases in flight and `lock` attempts in flight are
  all part of the state.
- **Streaming SHA-1** (`BigEndianBytes`, `Sha1Standard`, `Sha1`, `Sha1EmptyMessage`). The buffer, the split bit
  counter and the padding are proved against sections 4.1.1, 4.2.1, 5.1.1, 5.3.1 and 6.1.2 of
  FIPS 180-4.
- **The lazily published value** (`OptimisticLazy`) and **the string rewriting loops**
  (`StringUtil`).

## Where the code and its documentation disagree

The model follows the code. Each of these is a lemma or a contract below.

- `sha1` of the empty string never runs `reset`, so its digest is not the one the standard
  defines. The digest is the standard's if and only if the string is not empty
  (`Sha1.HashString`, `Sha1EmptyMessage.EmptyMessageDiffers`).
- The comment on `release_resources` says it is not called when there are no weak references. It
  can be called with none left: the weak handle that prevented immediate deletion may go away
  first (`IntrusivePtr.ReleaseWithoutWeakHandles`). What decides is the weak handles at the
  moment the strong count drops (`IntrusivePtr.SlowDecrementInv`).
- A key found by discovery that was already resolved along another path is filtered out before it
  is resolved, so it becomes no input of the node. `ResolutionTraces.DiscoveredInputs` says exactly
  which discovered keys do: those resolved only after the pass that returned them. Whatever was
  resolved before the call does not (`KeyedGraphBuilder.KeyedBuilder.ResolveWithDiscovery`), and in
  the diamond A to B and C, B to D, C to D, the edge from C to D is missing
  (`DiamondDiscovery.ResolveDiamond`).
- Growing the hash table does not help keys that share one hash: 63 of them fit no table, and an
  insertion that would make that many grows until allocation fails
  (`FlatHashTable.SharedHashNeverAdmitted`).
- `erase_all_sub_string` never ends on an empty pattern (`StringUtil.EmptyPatternIsAlwaysFound`).
- The last step of the name clean-up can bring back what the first two removed: `> __1::>` is
  cleaned to `> >` (`StringUtil.CleanedPair`). `StringUtil.CleanName` says exactly when.

## Model

| member | source | states |
|---|---|---|
| BitTricks.SmearIsAllOnes | Library/Core/util/flat_hash.h:202-207 | the six or-shift steps turn any 64-bit word with highest bit k into 2^(k+1) - 1 |
| BitTricks.TableHits | Library/Core/util/flat_hash.h:198-208 | the de Bruijn product of 2^k selects the table entry k, for all 64 powers |
| BitTricks.Log2IsFloorLog | Library/Core/util/flat_hash.h:195-209 | log2 is the exact floor logarithm of every non-zero 64-bit word |
| BitTricks.NextPowerOfTwoIsLeast | Library/Core/util/flat_hash.h:211-222 | for every size from 1 to 2^63 the result is the least power of two at or above it |
| BitTricks.NextPowerOfTwoWraps | Library/Core/util/flat_hash.h:213-221 | for 0 and for sizes above 2^63 the result wraps to 0 |
| RobinHood.HomeInRange | Library/Core/util/flat_hash.h:1538-1543 | the Fibonacci index of every 64-bit hash is below the committed bucket count |
| FibonacciHashing.GoldenMultiplier | Library/Core/util/flat_hash.h:1540-1543 | the multiplier is odd and is 2^64 over the golden ratio, rounded down |
| FibonacciHashing.HomeIsProductBits | Library/Core/util/flat_hash.h:1540-1543 | the index of every hash is bits shift to 63 of its product with the multiplier |
| FibonacciHashing.BucketsAreEqual | Library/Core/util/flat_hash.h:1540-1543 | of all 64-bit hashes each of the 2^(64 - shift) buckets is home to exactly 2^shift, for every shift |
| FibonacciHashing.NeighboursApart | Library/Core/util/flat_hash.h:1540-1543 | two hashes that differ by at most three sevenths of the bucket count have different homes, for every hash and every size from 2^3 to 2^30 |
| FibonacciHashing.NeighboursSpread | Library/Core/util/flat_hash.h:775-779 | keys with different hashes that close together fit a table of that size within the probe bound |
| FibonacciHashing.SharedHashFits | Library/Core/util/flat_hash.h:775-779 | keys that share one hash fit 2^e buckets if and only if there are at most max(4, e) of them |
| FibonacciHashing.InsertIntegers | Library/Core/util/flat_hash.h:562-579 | under the identity hash a table that may grow to 2^e buckets takes the integers 0 to n - 1 one after another, without a failure and without asking for more, for all n up to three sevenths of 2^e that the load factor allows |
| RobinHood.ProbeBounded | Library/Core/util/flat_hash.h:568-569 | a probe never gets further from home than the probe bound |
| RobinHood.ProbeComplete | Library/Core/util/flat_hash.h:528-538 | under the invariant a probe that stops without a match proves the key is nowhere in the array |
| RobinHood.PutOrderly | Library/Core/util/flat_hash.h:815-821 | writing the new key at the vacant slot where its probe stopped keeps the invariant |
| RobinHood.CarrySwap | Library/Core/util/flat_hash.h:834-839 | one swap of the displacement chain loses and duplicates nothing: array plus carried pair stay the map plus the new pair |
| RobinHood.ChainBackOut | Library/Core/util/flat_hash.h:843-847 | swapping the carried pair into the new key's slot restores exactly the old map, whatever displacement that slot then claims |
| RobinHood.ChainOverflow | Library/Core/util/flat_hash.h:840-848 | a chain that hits the probe bound proves that this bucket count cannot spread the keys |
| RobinHood.OverflowCrowds | Library/Core/util/flat_hash.h:809 | so does a probe for a new key that hits the bound |
| RobinHood.OrderlySpread | Library/Core/util/flat_hash.h:775-779 | conversely, a table in order shows that its bucket count spreads its keys within the bound |
| RobinHood.ShiftStart | Library/Core/util/flat_hash.h:671-683 | after vacating a range, the computed shift amount starts the backward shift correctly |
| RobinHood.ShiftStep | Library/Core/util/flat_hash.h:685-692 | one move of the backward shift goes into a vacant slot, keeps every displacement right, and leaves the next shift amount right |
| RobinHood.ShiftDone | Library/Core/util/flat_hash.h:685 | where the shift stops the whole array is in order again |
| FlatHashTable.BucketsForIsCeiling | Library/Core/util/flat_hash.h:603-605 | the bucket count computed from the load factor is enough for the elements, and every smaller one is not |
| FlatHashTable.SizeOverIsPower | Library/Core/util/flat_hash.h:1549-1553 | the committed size is the least power of two, from 2 up, at or above the request, and its logarithm is the committed exponent |
| FlatHashTable.RunChain | Library/Core/util/flat_hash.h:826-850 | the displacement loop ends; either the array in order holds the map plus the new pair with the new key at the returned slot, or it holds the old map and this bucket count cannot spread the keys |
| FlatHashTable.VacateRange | Library/Core/util/flat_hash.h:671-678 | destroying a range takes exactly its keys out of the map and counts them |
| FlatHashTable.ShiftBack | Library/Core/util/flat_hash.h:685-692 | the backward shift restores the invariant, keeps the map, and moves the first element to the returned slot |
| FlatHashTable.EraseSpan | Library/Core/util/flat_hash.h:667-694 | range erase on the array: exactly the range goes, the invariant is restored, the result is the first survivor |
| FlatHashTable.SharedHashNeverAdmitted | Library/Core/util/flat_hash.h:843-847 | no bucket count takes 63 keys with one hash |
| FlatHashTable.Table.constructor | Library/Core/util/flat_hash.h:758-773 | a new table is valid, empty and owns no buckets |
| FlatHashTable.ProbeSlots | Library/Core/util/flat_hash.h:565-573 | the shared probe loop stays inside the array and decides whether the key is in it |
| FlatHashTable.Table.Probe | Library/Core/util/flat_hash.h:565-573 | so it decides membership in the map |
| FlatHashTable.Table.Find | Library/Core/util/flat_hash.h:528-538 | the end is returned if and only if the key is not in the map; otherwise the slot with the key and its mapped value |
| FlatHashTable.Table.Displace | Library/Core/util/flat_hash.h:822-851 | the chain succeeds with the map extended, or backs out with the map unchanged and every pair still in the array |
| FlatHashTable.Table.Reinsert | Library/Core/util/flat_hash.h:628-638 | reinsertion into the new array ends with exactly the old map, through nested growth |
| FlatHashTable.Table.Rehash | Library/Core/util/flat_hash.h:601-640 | the map is unchanged, the table is valid, the request is met, and no admissible size at or above the request was passed over; fails only if none exists, and changes nothing if it is the first allocation that fails |
| FlatHashTable.Table.Grow | Library/Core/util/flat_hash.h:853 | growth from a table with a wrong displacement gives a valid, strictly larger table with the same map, or changes nothing if the next size cannot be allocated |
| FlatHashTable.Table.EmplaceNewKey | Library/Core/util/flat_hash.h:803-851 | inserting an absent key gives exactly the old map plus the pair, by every branch |
| FlatHashTable.Table.Emplace | Library/Core/util/flat_hash.h:562-579 | a present key leaves the map unchanged and reports false; an absent key adds exactly the pair and reports true; the slot holds the key's value; if the next size cannot be allocated, a failure keeps every pair, and the whole invariant when the load factor called for it |
| FlatHashTable.Table.ValidAdmits | Library/Core/util/flat_hash.h:803-853 | a valid table's own size is admissible for its keys |
| FlatHashTable.Table.Insert | Library/Core/util/flat_hash.h:562-579 | insertion succeeds if and only if some power of two from the current size on can be allocated, respects the load factor and spreads the keys, and never passes over such a size |
| FlatHashTable.Table.ResetToEmptyState | Library/Core/util/flat_hash.h:860-867 | a valid empty table without buckets |
| FlatHashTable.Table.EraseAt | Library/Core/util/flat_hash.h:653-665 | single erase removes exactly that key and keeps the invariant; the slot returned holds the element that followed, or is vacant and nothing moved; earlier slots are left alone |
| FlatHashTable.Table.EraseKey | Library/Core/util/flat_hash.h:696-706 | erase by key removes exactly that key and returns whether it was there |
| FlatHashTable.Table.EraseRange | Library/Core/util/flat_hash.h:667-694 | removes exactly the keys in the range, keeps the invariant, leaves earlier slots alone, and returns the slot of the element that followed the range, with only vacant slots before it |
| FlatHashTable.Table.Clear | Library/Core/util/flat_hash.h:708-719 | the map is empty and the table valid |
| DependencyGraphs.Transposed | Library/Graph/graph_builder.cpp:55-60 | with multiplicity, d is a dependency of v as often as v is a successor of d |
| DependencyGraphs.DependenciesInOrder | Library/Graph/graph_builder.cpp:55-60 | the dependency list of a node is exactly its edges, in the order in which they were added and with repeats |
| DependencyGraphs.SuccessorsInOrder | Library/Graph/graph_builder.cpp:55-60 | and so is the successor list |
| DependencyGraphs.OrderedIsAcyclic | Library/Graph/graph_builder.cpp:89-94 | an edge list with a topological order has no cycle |
| DependencyGraphs.StuckHasCycle | Library/Graph/graph_builder.cpp:89-94 | a non-empty set of nodes that all depend into the set contains a real cycle |
| DependencyGraphs.DepthBoundsPaths | Library/Graph/graph_builder.cpp:72-87 | the depth of a node is at least the length of every dependency path from it |
| DependencyGraphs.DepthIsAttained | Library/Graph/graph_builder.cpp:72-87 | and some dependency path from it has exactly that length |
| GraphBuilder.PeelEmit | Library/Graph/graph_builder.cpp:76-78 | taking a node from the queue keeps every remaining in-degree equal to the open dependencies |
| GraphBuilder.PeelVisit | Library/Graph/graph_builder.cpp:80-86 | visiting a successor keeps that and queues it exactly when nothing is open |
| GraphBuilder.PeelEnd | Library/Graph/graph_builder.cpp:89-94 | with an empty queue the order is topological, or the nodes left over contain a cycle |
| GraphBuilder.LayerPush | Library/Graph/graph_builder.cpp:82-85 | a node pushed while a layer is processed belongs to the next one, so order and queue together stay sorted by depth |
| GraphBuilder.DepthExists | Library/Graph/graph_builder.cpp:72-87 | every topologically ordered graph has a depth assignment |
| GraphBuilder.Distribute | Library/Graph/graph_builder.cpp:47-61 | succeeds if and only if all ids are in range, and fills both adjacency lists in edge order with matching in-degrees |
| GraphBuilder.Peel | Library/Graph/graph_builder.cpp:72-87 | the queue loop ends with nothing queued, an order sorted by depth, and first in, first out: nodes come in the order of their last mention as a successor, those without any first and by id |
| GraphBuilder.SortEdges | Library/Graph/graph_builder.cpp:40-94 | out-of-range status iff an id is out of range; cycle status iff ids are in range and a cycle exists; otherwise the order is a topological permutation, a layering, and first in, first out |
| GraphBuilder.OrderIsUnique | Library/Graph/graph_builder.cpp:63-87 | a graph has only one topological order that is first in, first out, so the result order is determined |
| GraphBuilder.Builder.AddNode | Library/Graph/graph_builder.cpp:27-32 | ids are dense and in order of addition |
| GraphBuilder.Builder.DependsOn | Library/Graph/graph_builder.cpp:34-38 | edges keep their order and multiplicity |
| GraphBuilder.Builder.Build | Library/Graph/graph_builder.cpp:40-110 | exact conditions of all three statuses; the frozen graph has every node with its name, work and adjacency lists in edge order, and the one order that is topological and first in, first out |
| ResolutionTraces.CommitSound | Library/Graph/keyed_graph_builder.h:122-128 | recording a node keeps the bijection of keys and ids, edges to smaller ids, and every node's trace |
| ResolutionTraces.AskedInOrder | Library/Graph/keyed_graph_builder.h:111-128 | the inputs recorded for a key are exactly the keys its callback asked for and got, in the order and as often as it asked |
| ResolutionTraces.FoundInOrder | Library/Graph/keyed_graph_builder.h:234-243 | with discovery they are exactly what the passes found, pass by pass |
| ResolutionTraces.UnresolvedInOrder | Library/Graph/keyed_graph_builder.h:226-233 | what a pass finds is exactly the candidates not in the memo, in the order and as often as they were discovered |
| ResolutionTraces.DiscoveryComplete | Library/Graph/keyed_graph_builder.h:223-246 | whenever the build callback runs, whether it then succeeds or fails, every key of the last discovery pass is in the memo of that moment |
| ResolutionTraces.DiscoveredInputs | Library/Graph/keyed_graph_builder.h:227-244 | a discovered key is an input if and only if some pass returned it and it was resolved only after that pass ran |
| ResolutionTraces.PassesSeeMore | Library/Graph/keyed_graph_builder.h:226-233 | every pass sees at least what was resolved when the first one ran |
| ResolutionTraces.EarlierIsNoInput | Library/Graph/keyed_graph_builder.h:227-233 | a key resolved before the discovery of another began is never among its inputs |
| DiamondDiscovery.DiamondInputs | Library/Graph/keyed_graph_builder.h:227-233 | in every record of the diamond C needs D and D is not among the inputs of C, while it is the input of B |
| DiamondDiscovery.ResolveDiamond | Library/Graph/keyed_graph_builder.h:212-249 | resolving the diamond in a new builder succeeds and records exactly the other three edges |
| ResolutionFailures.RefusalHasCycle | Library/Graph/keyed_graph_builder.h:85-104 | where callbacks fail only because a request of theirs failed, every failed resolution reveals a cycle of requests that callbacks make after answers that fit the history |
| ResolutionFailures.DiscoveryRefusalHasCause | Library/Graph/keyed_graph_builder.h:234-246 | a failed resolution with discovery reports the status of a build callback that ran after a fixed point reached through discovered keys, or a cycle of keys discovered in passes that fit the history |
| ResolutionFailures.RankedFailsInBuild | Library/Graph/keyed_graph_builder.h:234-246 | where discovery goes down a rank, only a build callback that ran can make a resolution fail |
| ResolutionFailures.RefusalGrows | Library/Graph/keyed_graph_builder.h:111-120 | the explanation of a failure stays true as the history grows |
| ResolutionTraces.DescendingIsAcyclic | Library/Graph/keyed_graph_builder.h:138-144 | edges to strictly smaller ids are in range and have no cycle |
| KeyedGraphBuilder.KeyedBuilder.RecordInCallerFrame | Library/Graph/keyed_graph_builder.h:252-258 | the id goes to the innermost frame, if there is one |
| KeyedGraphBuilder.KeyedBuilder.Commit | Library/Graph/keyed_graph_builder.h:113-131 | the node gets the edges of its frame in order, and the record stays sound |
| KeyedGraphBuilder.KeyedBuilder.Resolve | Library/Graph/keyed_graph_builder.h:90-132 | ends; restores keys in progress and frames on success and failure; memoized keys and keys in progress change nothing; the transcript of a success began at the call, and a failure is a key in progress or the status the callback returned after the answers it heard, each refusal among them explained the same way |
| KeyedGraphBuilder.KeyedBuilder.ResolveNew | Library/Graph/keyed_graph_builder.h:106-131 | the same for a key that is neither memoized nor in progress: frame and key are pushed, and popped on success and failure |
| KeyedGraphBuilder.KeyedBuilder.RunResolver | Library/Graph/keyed_graph_builder.h:111 | ends for callbacks that return on every possible sequence of answers; the answers fit the memo at the time of each; the frame holds exactly the ids of the successful requests, in order and with repeats |
| KeyedGraphBuilder.KeyedBuilder.Needed | Library/Graph/keyed_graph_builder.h:226-233 | the filter keeps exactly the unresolved candidates, in order |
| KeyedGraphBuilder.KeyedBuilder.RunDiscovery | Library/Graph/keyed_graph_builder.h:223-246 | the passes end for every discovery function over a finite universe; the first runs on the memo of the call and each later one when all the one before found is resolved; the build callback runs, and may fail, only after a pass that found nothing unresolved |
| KeyedGraphBuilder.KeyedBuilder.ResolveWithDiscovery | Library/Graph/keyed_graph_builder.h:212-249 | the contract of resolve with the passes as the trace; nothing resolved before the call is an input; a failure is a key in progress, a build callback that ran at the fixed point, or the failure of the pending key of a pass |
| KeyedGraphBuilder.KeyedBuilder.DiscoverNew | Library/Graph/keyed_graph_builder.h:215-248 | the same for a key that is neither memoized nor in progress |
| KeyedGraphBuilder.KeyedBuilder.ResolveAll | Library/Graph/keyed_graph_builder.h:234-243 | the keys of a pass are resolved in order up to the first failure, each new one beginning where the one before ended |
| KeyedGraphBuilder.KeyedBuilder.Build | Library/Graph/keyed_graph_builder.h:134-145 | building after any sequence of resolutions, failed ones included, succeeds |
| SequentialEvaluation.EvaluateIsFixpoint | Library/Graph/graph_executor.cpp:78-122 | sequential evaluation in topological order gives every node the verdict determined by its dependencies' verdicts |
| SequentialEvaluation.FailureSpreads | Library/Graph/graph_executor.cpp:82-95 | every transitive dependent of a failed node is skipped |
| SequentialEvaluation.FailureHasCause | Library/Graph/graph_executor.cpp:82-121 | every node without a result has a dependency path to one that threw |
| SequentialEvaluation.ThrowerHasNoFailedAncestor | Library/Graph/graph_executor.cpp:106-121 | a node that threw depends on no failed node |
| GraphExecutor.InitInv | Library/Graph/graph_executor.cpp:51-61 | the invariant holds before the scheduling loop |
| GraphExecutor.StepInv | Library/Graph/graph_executor.cpp:74-134 | every step of the scheduler and of every worker keeps the invariant, under every interleaving |
| GraphExecutor.StartedNeverBlocks | Library/Graph/graph_executor.cpp:43-50 | a started task only reads futures that are stored and ready |
| GraphExecutor.WaitingStarts | Library/Graph/graph_executor.cpp:43-50 | a pushed task can start as soon as its dependencies are ready |
| GraphExecutor.SchedulerNeverBlocks | Library/Graph/graph_executor.cpp:124-133 | the scheduler only reads futures it has stored |
| GraphExecutor.Progress | Library/Graph/graph_executor.cpp:136 | an unfinished run has a next step: no deadlock |
| GraphExecutor.StepDecreases | Library/Graph/graph_executor.cpp:74-136 | every step lowers a measure |
| GraphExecutor.RunsAreBounded | Library/Graph/graph_executor.cpp:74-136 | no run is longer than the initial measure |
| GraphExecutor.RunsFinish | Library/Graph/graph_executor.cpp:136-145 | every reachable state can be run to the end |
| GraphExecutor.FinishedIsSequential | Library/Graph/graph_executor.cpp:138-152 | every finished run delivers the value that sequential evaluation gives each node that ran, and an empty result for every other node; failure is reported iff some work threw, with such a node and its message |
| GraphExecutor.FinishedSolves | Library/Graph/graph_executor.cpp:78-122 | in terms of the works alone: a node with a failed dependency fails; any other gets the delivered results of its dependencies in order, and delivers exactly what its work returns on them, or fails if it throws |
| GraphExecutor.FailedAreThrowersAndDependents | Library/Graph/graph_executor.cpp:54-72 | the failed nodes are exactly the throwers and their transitive dependents, with empty results, and the reported node depends on no failed node |
| GraphPipeline.FrozenIsWellFormed | Library/Graph/graph_builder.cpp:96-109 | what the builder freezes is what the executor assumes |
| GraphPipeline.EveryKeyEquation | Library/Graph/keyed_graph_builder.h:111-128 | a key's verdict follows from its callback's work and the verdicts on exactly the keys it resolved, in order and with repeats |
| GraphPipeline.EveryRunSolvesEveryKey | Library/Graph/graph_executor.cpp:97-108 | every interleaving runs the work of every resolved key on the delivered results of exactly the keys its callback resolved, in order and with repeats, and delivers what the work returns; the key fails, with an empty result, iff the work throws or one of those keys failed |
| IntrusivePtr.Halves | Library/Core/common/intrusive_ptr.h:65-114 | below 2^32 no carry or borrow crosses the halves of the word |
| IntrusivePtr.StrongOverflow | Library/Core/common/intrusive_ptr.h:77-87 | at 2^32 strong handles the strong half wraps to zero and carries into the weak half |
| IntrusivePtr.MadeInv | Library/Core/common/intrusive_ptr.h:385-401 | a new object with its first handle satisfies the invariant |
| IntrusivePtr.SlowDecrementInv | Library/Core/common/intrusive_ptr.h:350-372 | the last strong release frees resources iff a weak handle exists at that moment, and deletes at once iff none does |
| IntrusivePtr.DropLastInv | Library/Core/common/intrusive_ptr.h:365-371 | the strong side's weak count is dropped only after the resources were released, and the releaser goes on to delete iff no weak handle is left |
| IntrusivePtr.WeakReleaseInv | Library/Core/common/intrusive_ptr.h:788-797 | releasing a weak handle goes on to delete iff it was the last weak count |
| IntrusivePtr.LockInv | Library/Core/common/intrusive_ptr.h:938-963 | every load, exit, retry and exchange of lock keeps the invariant, by which an attempt has seen a zero strong count only if there is none any more |
| IntrusivePtr.StepInv | Library/Core/common/intrusive_ptr.h:323-374 | every atomic step of every thread keeps the invariant |
| IntrusivePtr.RunInv | Library/Core/common/intrusive_ptr.h:323-374 | so does every interleaving |
| IntrusivePtr.AccessBeforeDelete | Library/Core/common/intrusive_ptr.h:335-374 | every access, resource release and deletion happens before the object has been deleted |
| IntrusivePtr.DeleteIsAlone | Library/Core/common/intrusive_ptr.h:346-371 | the deleting thread holds the only handle left |
| IntrusivePtr.FastPathIsAlone | Library/Core/common/intrusive_ptr.h:339-348 | the unique-owner path is taken only when no other handle exists |
| IntrusivePtr.FastPathTaken | Library/Core/common/intrusive_ptr.h:339-348 | and a release of the only handle takes it |
| IntrusivePtr.NothingLeaks | Library/Core/common/intrusive_ptr.h:147-171 | in every run the object is deleted at most once, resources are released at most once, and it is deleted iff no handle is left |
| IntrusivePtr.AllLetGo | Library/Core/common/intrusive_ptr.h:335-374 | from every reachable state all handles can be let go, each thread going on without waiting for another, and then the object has been deleted exactly once |
| IntrusivePtr.WordIsExact | Library/Core/common/intrusive_ptr.h:151-154 | the strong half is the number of strong handles, the weak half the weak handles plus one until the last releaser drops it |
| IntrusivePtr.CopyNeverRevives | Library/Core/common/intrusive_ptr.h:323-333 | the checks in both retain functions never fail |
| IntrusivePtr.CopyCounts | Library/Core/common/intrusive_ptr.h:323-333 | every handle can be copied while the counts have room, and the copy counts as exactly one more handle |
| IntrusivePtr.ExpiredForever | Library/Core/common/intrusive_ptr.h:162-163 | once the strong count is zero it stays zero in every run |
| IntrusivePtr.LockTakesLiveObject | Library/Core/common/intrusive_ptr.h:946-961 | a successful lock increments a strong count that was positive |
| IntrusivePtr.LockGivesUp | Library/Core/common/intrusive_ptr.h:946-954 | lock returns null only if the strong count is zero; with a fresh load of a zero count it must |
| IntrusivePtr.LockAlone | Library/Core/common/intrusive_ptr.h:938-963 | a lock that runs alone while a strong handle exists cannot give up and ends with a new strong handle |
| IntrusivePtr.ReleaseWithoutWeakHandles | Library/Core/common/intrusive_ptr.h:255-266 | a run in which resources are released with no weak handle left |
| Sha1Standard.GapIsLeast | Library/Core/util/hash.h:226-249 | the zero padding is the least that leaves eight bytes of the last block |
| BigEndianBytes.BigEndianIsNumber | Library/Core/util/hash.h:110-115 | the word of four message bytes is the number they write, most significant first |
| BigEndianBytes.WordBytesRead | Library/Core/util/hash.h:253-260 | the four bytes written for a counter half read back, most significant first, as that half |
| Sha1Standard.ScheduleIsStandard | Library/Core/util/hash.h:106-119 | sixteen words are those numbers of the block, every later one is the rotated exclusive or of words 3, 8, 14 and 16 before it |
| Sha1Standard.PaddedIsStandard | Library/Core/util/hash.h:221-260 | the padded message is the message, a one bit, zeros to the least whole number of blocks, and the bit length as a 64-bit number, most significant byte first |
| Sha1.RotatesAgree | Library/Core/util/hash.h:102 | the exclusive-or rotation is the standard's rotation |
| Sha1.MixAgrees | Library/Core/util/hash.h:129-151 | the inclusive-or choice and majority are the standard's |
| Sha1.FillSchedule | Library/Core/util/hash.h:106-119 | the word array is the message schedule of the block |
| Sha1.ProcessBlock | Library/Core/util/hash.h:104-166 | one call is one compression of the standard |
| Sha1.Stream.Reset | Library/Core/util/hash.h:74-85 | the standard's initial value, an empty buffer and a zero count |
| Sha1.Stream.ProcessByteImpl | Library/Core/util/hash.h:168-177 | each complete block is compressed once and in order, the rest is buffered |
| Sha1.Stream.ProcessByte | Library/Core/util/hash.h:179-203 | the split counter is eight times the byte count; fails exactly at 2^61 bytes |
| Sha1.Stream.ProcessBytes | Library/Core/util/hash.h:205-219 | the whole message is fed, or it has at least 2^61 bytes |
| Sha1.Stream.FeedGap | Library/Core/util/hash.h:226-249 | both zero-filling branches write exactly the standard's gap |
| Sha1.Stream.GetDigest | Library/Core/util/hash.h:221-268 | what was fed becomes the padded message and the output its digest |
| Sha1.HashString | Library/Core/util/hash.h:65-72 | the digest is the standard's if and only if the string is not empty |
| Sha1EmptyMessage.EmptyDigest | Library/Core/util/hash.h:65-72 | the digest of no bytes, from the standard's start and from the start the object has |
| Sha1EmptyMessage.EmptyMessageDiffers | Library/Core/util/hash.h:65-72 | the two are different |
| OptimisticLazy.StepInv | Library/Logging/util/lazy.h:35-51 | every step of every thread in ensure keeps the invariant |
| OptimisticLazy.RunInv | Library/Logging/util/lazy.h:35-51 | so does every interleaving, and a published pointer never changes |
| OptimisticLazy.HeapFromFactories | Library/Logging/util/lazy.h:42 | every allocated value is what some caller's factory returned |
| OptimisticLazy.AllCallersAgree | Library/Logging/util/lazy.h:35-51 | all callers return the same never-deleted pointer to some factory's value, and every losing allocation is deleted exactly once |
| OptimisticLazy.LateCallMakesNothing | Library/Logging/util/lazy.h:38-41 | once a value is published, a call that loads later runs no factory, allocates and deletes nothing, and can only return that value |
| OptimisticLazy.CallReturns | Library/Logging/util/lazy.h:35-51 | from every reachable state a call returns within four of its own steps, to the published pointer |
| StringUtil.ReplacedAt | Library/Logging/util/string_util.cpp:130-134 | the scan's result up to and past the first occurrence |
| StringUtil.ReplaceAll | Library/Logging/util/string_util.cpp:119-136 | leftmost non-overlapping replacement and its exact count for every non-empty pattern; rejected for the empty one |
| StringUtil.ReplacedLength | Library/Logging/util/string_util.cpp:126-134 | each replacement changes the length by the difference of the two strings |
| StringUtil.CountedIsPresent | Library/Logging/util/string_util.cpp:130-135 | the count is zero if and only if the pattern does not occur |
| StringUtil.ReducedIgnoresFirst | Library/Logging/util/string_util.cpp:149-153 | erasing the leftmost occurrence does not change what one pass with a stack computes |
| StringUtil.EraseAll | Library/Logging/util/string_util.cpp:144-154 | the loop ends, leaves no occurrence, and equals that one pass |
| StringUtil.EmptyPatternIsAlwaysFound | Library/Logging/util/string_util.cpp:149-153 | the empty pattern is found at once and erasing it changes nothing |
| StringUtil.ErasedAnywhere | Library/Logging/util/string_util.cpp:149-153 | whatever stands around it, an occurrence of a pattern that cannot overlap itself goes |
| StringUtil.PassKeepsCollapsed | Library/Logging/util/string_util.cpp:102-105 | a pass of replacements does not change the text without spaces between closing brackets |
| StringUtil.CollapsedOfAbsent | Library/Logging/util/string_util.cpp:102-105 | text without a spaced pair of brackets is that text |
| StringUtil.CollapseBrackets | Library/Logging/util/string_util.cpp:105 | the loop ends, leaves no spaced pair, and removes exactly the single spaces between two closing brackets |
| StringUtil.ReducedSplits | Library/Logging/util/string_util.cpp:149-153 | erasing works independently on both sides of a character that is not in the pattern |
| StringUtil.UncoversExactly | Library/Logging/util/string_util.cpp:149-153 | erasing one pattern leaves another, whose ends are not in it, if and only if a part of the text with those ends is reduced to it |
| StringUtil.TidiedRewrites | Library/Logging/util/string_util.cpp:100-105 | the first two steps give a name with `class ` in it, or with a spaced pair of closing brackets, what they give the name without, whatever stands around |
| StringUtil.TidiedOfClean | Library/Logging/util/string_util.cpp:100-105 | and leave a name with neither alone |
| StringUtil.TidiedIsClean | Library/Logging/util/string_util.cpp:100-105 | after them neither is left |
| StringUtil.CleanName | Library/Logging/util/string_util.cpp:100-108 | the clean-up is the composition of the three rewritings, with their literal patterns, and leaves no inner namespace; it leaves a spaced pair, or the class prefix, if and only if the last step uncovers one |
| StringUtil.CleanedPair | Library/Logging/util/string_util.cpp:105-106 | a name whose clean-up is a spaced pair of brackets |

## Left out

- Hash table: the prime number policy, allocator propagation, copies and moves of tables, exceptions from element constructors, `reserve`, `shrink_to_fit`, `swap`, the load factor setter and iterator conversions; the load factor is an exact real, so floating-point rounding in it is not modelled; displacements are unbounded, which loses nothing because the probe bound is at most 63.
- FlatHashTable.Table.Emplace: says nothing about the pairs when an allocation fails after an earlier one of the same call succeeded, because the exception then leaves `rehash` with the old array abandoned and only part of it reinserted; a table whose allocator serves more than 2^62 buckets is not modelled.
- FibonacciHashing.NeighboursApart: sizes above 2^30, and differences between three sevenths of the bucket count and the few percent more that still keep homes apart; above that size the rounding of the multiplier to 64 bits uses up the margin.
- FlatHashTable.BucketsForIsCeiling: over exact reals, so the rounding of the float load factor and of the double quotient is not modelled.
- Graph: a key is resolved with the same callback family throughout, and a resolver does not mix both resolving calls; a resolver callback is a function of the answers it has heard, the keys form a finite universe, and a callback returns on every possible sequence of answers (the uniform bound this takes always exists, since only finitely many answers are possible to a move); names and error messages of failures other than a work's own are reduced to the status.
- Executor: the callback queue is taken by its contract that a pushed task becomes eligible once the futures it was pushed with are ready; its threads and its wait are not modelled further. Work is a deterministic function of its inputs.
- Memory orderings: every atomic step is sequentially consistent, in the executor, the reference counts and the lazy value.
- Reference counting: handles to one object; null handles, adoption of objects not on the heap, comparison and hashing are left out. New handles are only made while both counts stay below 2^32; `IntrusivePtr.StrongOverflow` shows why.
- SHA-1: the hexadecimal rendering and a second request for the digest of one object; `hash_combine` and `twang_mix64` are one-line mixing functions.
- Lazy value: copying, moving and resetting the holder, and reuse of a freed address.
- StringUtil.EraseAll: requires a non-empty pattern, because the loop does not end on an empty one.
- Strings: the call into the platform demangler, formatting, and the prefix and suffix tests.
- Logging, memory reporting, allocators, processor queries, scripts and examples: input and output, foreign libraries or short arithmetic.
