# A verified model of a liveness-based thread-caching allocator

The allocator is a fork of tcmalloc. Threads allocate from caches of free objects by size class; a central list per
class, with a transfer cache in front of it, moves objects between threads; a page heap hands out runs of pages, called
spans. The fork's own part samples, per thread and class, how soon a freed object could have been reused, and sizes the
refills of the thread cache by it. The model covers all of these, in the form the program has: classes with mutable
fields and loops where it updates in place, value functions where it computes, and step machines where several threads
interleave.

What is proved, by file:

* `Reuse.dfy`: the one-pass recurrence of the sampler computes, for every window length, exactly the brute-force count of
  reuse intervals inside all windows of that length; and the bounds on the reserve that follow from counting each window
  twice.
* `Sampling.dfy`, `ThreadCache.dfy`: the circular buffer of frees is a drop-oldest stack over every run, and forgetting the
  oldest frees never changes what is recorded; every thread-cache list stays within its bound, its bytes are accounted
  for, and every refill asks for a sensible number of objects.
* `Spans.dfy`, `FreeLists.dfy`, `PageHeap.dfy`: boundary tags are exact although interior page map entries go stale, free
  spans are coalesced as far as possible, the byte counters equal what is on the lists, the search is a best fit, and
  releasing memory and the heap limit do what their counters say. The class invariant `Valid()` holds between any two
  calls, so these hold over every run of calls.
* `HeapLimit.dfy`: a run of the page heap, from an empty heap, in which an assertion about the heap limit fails.
* `MappedHeap.dfy`: every page map entry that the page heap reads or writes has a leaf in the radix tree.
* `Decommit.dfy`: the byte counters in aggressive decommit mode: the exact condition under which a merge keeps them.
* `Central.dfy`, `CentralLocks.dfy`, `CentralObjects.dfy`, `CentralCounts.dfy`, `CentralRuns.dfy`: the central lists as a
  machine in which any thread may step whenever a lock is free: bounds on slots, the total of cache sizes, one lock per
  thread, no deadlock, conservation of objects, and the accounting of every list, in every state of every run.
  `CentralRetry.dfy` shows how an insertion looks for room and that it ends,
  `CentralShortage.dfy` when a request is not met in full, `CentralLoss.dfy` that cache room can be lost, and
  `CentralInit.dfy` that it can be lost from the sizes the program starts with.
* `PackedCache.dfy`, `Coherence.dfy`: the page-to-sizeclass cache, never purged and written without locks, is right
  whenever it is asked about a live object, in every run.
* `PageMap.dfy`, `Ranges.dfy`: the radix tree is a flat map for page numbers of any width, and iterating over it reports
  every span once, in order.
* `AddressMap.dfy`: the address map is a map, and its backwards search finds the range containing an address exactly when
  there is one.
* `Powers.dfy`, `Alignment.dfy`, `SizeClasses.dfy`, `ClassCounts.dfy`, `SizeMap.dfy`, `MemAlign.dfy`: size classes, how many
  there are, and aligned allocation on all of its paths.
* `LinkedLists.dfy`: the chains and rings of pointers behind the sequences used elsewhere.

Integers are unbounded. 64-bit arithmetic is written out where it can wrap: the overflow check of aligned allocation, the
last key of `Ensure`, and the 32-bit hash of the address map. Shifts and masks by powers of two are divisions and
remainders. Where the program divides in floating point and truncates, the model divides exactly and rounds the same
way. Answers of the operating system (memory obtained, a release accepted or refused, the page map's own memory) are
parameters, and every theorem holds for all of them.

Places where code and comments, or code and assertions, disagree:

* `hibernate_period_len` is -1, which means that sampling happens once, but an assertion after a full trace demands a
  positive counter (src/thread_cache.h:494). `Sampling.AssertionHoldsIff` states exactly when it holds: with a
  positive period always, with -1 only until the first burst ends. The model goes on without it.
* `AllocLarge` asserts that no normal span was found before it gives up (src/page_heap.cc:225). Its contract states exactly
  when that fails, and `HeapLimit.AssertionFails` is a run in which it does.
* The comment above `MakeCacheSpace` promises that the total of the cache sizes does not change
  (src/central_freelist.cc:175). It can shrink: `CentralLocks.StepKeepsBudget` says in which steps,
  `CentralInit.RoomCanBeLost` that there is such a run from the start of the program, whatever the configuration.
* The environment may set the number of objects to transfer to any value (src/common.cc:71-79), but below 40 the number of
  size classes is not the 88 that the tables are declared for, and the initialization gives up.
* `do_memalign` allows for a miss in its search for an aligned class (src/tcmalloc.cc:1292-1312). The search cannot miss, and
  the trailing pages of an aligned span (src/tcmalloc.cc:1342) always exist, as `DropFront` states.
* The comment of `MergeIntoFreeList` describes aggressive decommit as bookkeeping that works out (src/page_heap.cc:343-358).
  A span that `ReleaseLastNormalSpan` has decommitted is decommitted again there, and its bytes are subtracted twice.

## Model

| member | source | states |
|---|---|---|
| `Reuse.CalculateReuse` | src/thread_cache.h:437-487 | for every trace length and all recorded intervals, reuse[k] is the brute-force average number of intervals inside a window of k allocations, and reserved[k] is the largest whole number, but at least 1, that does not exceed j - reuse[j] for some 2 <= j <= k; entries beyond the trace are untouched |
| `Reuse.AccumulatorsGiveTotal` | src/thread_cache.h:437-487 | X - Y + Z is the sum over intervals of the number of windows of that length that contain them |
| `Reuse.RecurrenceStep` | src/thread_cache.h:474-480 | one round of the loop takes the three accumulators from windows of length k - 1 to windows of length k |
| `Reuse.AccumulatorsStep` | src/thread_cache.h:456-480 | the histograms of starts and ends need no filter by width: at step k they only count intervals already admitted |
| `Reuse.FillHistograms` | src/thread_cache.h:443-466 | one pass fills the six histograms and the accumulators for windows of length one |
| `Reuse.RunRecurrence` | src/thread_cache.h:468-487 | the loop over window lengths fills both tables from the histograms |
| `Reuse.Accumulate` | src/thread_cache.h:474-480 | the loop body brings the accumulators to the next window length, where they give the brute-force total |
| `Reuse.Tally` | src/thread_cache.h:450-465 | the updates for one interval extend the histograms by that interval |
| `Reuse.TabulateOne` | src/thread_cache.h:481-486 | one table entry, with the reserve kept from decreasing |
| `Reuse.DistinctEndsFit` | src/thread_cache.h:500-510 | intervals with increasing ends have at most as many ends in a stretch as it has moments |
| `Reuse.WindowSumBounds` | src/thread_cache.h:468-487 | the summed reuse count for window length k lies between 0 and k times the number of windows |
| `Reuse.AverageBounds` | src/thread_cache.h:481 | the average reuse of windows of length k lies between 0 and k |
| `Reuse.ReserveBounds` | src/thread_cache.h:469-487 | 1 <= reserved[k] <= k, and reserved never decreases with k |
| `Reuse.ReserveIs` | src/thread_cache.h:469-487 | the running maximum of the truncated differences is the largest whole number, but at least 1, not above k minus the average for some window length |
| `Sampling.RunKeepsInv` | src/thread_cache.h:500-520 | in every state of every run the recorded intervals lie inside the burst, end at increasing times and are at most TRACE_LENGTH in number |
| `Sampling.BoundedBufferIsLossless` | src/thread_cache.h:500-510 | over every run a buffer of TRACE_LENGTH frees records the same intervals and samples the same traces as an unbounded stack |
| `Sampling.AssertionHoldsIff` | src/thread_cache.h:489-495 | over every run the assertion on the hibernate counter holds if and only if the period is positive or no burst has ended yet |
| `Sampling.CounterIsPeriod` | src/thread_cache.h:490-493 | whenever a burst ends the counter is the period |
| `Sampling.FirstBurst` | src/thread_cache.h:607-618 | the first burst lasts exactly TRACE_LENGTH allocations, and with a period of -1 there is no other |
| `Sampling.RunTraceLength` | src/thread_cache.h:511-519 | in every run the tables in use are those of the latest of the trace lengths 100, 200, 500 and 1000 that the burst has reached |
| `Sampling.ShippedPeriodFails` | src/thread_cache.h:105 | with the period of -1 that the program is built with, TRACE_LENGTH allocations violate the assertion |
| `Sampling.RunsAgree` | src/thread_cache.h:500-520 | the bounded buffer is the top of the unbounded stack after every run; only frees that can never be matched are dropped |
| `Sampling.MatchKeeps` | src/thread_cache.h:500-510 | matching an allocation with the latest free of the burst keeps the intervals well formed |
| `Sampling.ObserveKeeps` | src/thread_cache.h:607-618 | an allocation, in a burst or asleep, keeps the invariant of the sampler |
| `Sampling.ReleaseKeeps` | src/thread_cache.h:676-680 | a free keeps the invariant of the sampler |
| `ThreadCaching.Sampler.RecordFree` | src/thread_cache.h:676-680 | writing over the circular buffer is a push on a stack that drops its oldest entry |
| `ThreadCaching.Sampler.MatchFree` | src/thread_cache.h:500-510 | popping the circular buffer pops the stack and records one interval |
| `ThreadCaching.Sampler.UpdateReuse` | src/thread_cache.h:500-520 | the interval is recorded, and at the update points the tables are recalculated for the trace so far |
| `ThreadCaching.Sampler.Recalculate` | src/thread_cache.h:512-519 | at the update points the tables are those of the trace so far, and the last of them ends the burst |
| `ThreadCaching.Sampler.Observe` | src/thread_cache.h:607-618 | an allocation updates the sample in a burst, and otherwise counts down to the next burst |
| `ThreadCaching.Sampler.RecordAllocation` | src/thread_cache.h:607-656 | the sampling side of an allocation is one step of the run machine; the refill target is read between observing and counting |
| `ThreadCaching.Sampler.ChooseTarget` | src/thread_cache.h:621-640 | the target is the demand of the sampled trace, read within the table |
| `ThreadCaching.DemandBounds` | src/thread_cache.h:621-640 | for every sampled trace a refill asks for at least one object and at most one more than it is meant to cover |
| `ThreadCaching.DemandSuffices` | src/thread_cache.h:621-640 | the refill in terms of the allocations it is meant to cover and the averages of the sample |
| `ThreadCaching.ThreadCache.constructor` | src/thread_cache.cc:144-230 | a new cache is empty and its samplers are at the start of a burst |
| `ThreadCaching.ThreadCache.Allocate` | src/thread_cache.h:588-659 | the object comes from the front of the list; an empty list is refilled first, with 0.618 of the allocations left until the planned synchronisation and less than one more if nothing was sampled, with the reserve for that many if the sample covers them, and with the reserve for 100 in proportion otherwise; there is no object only if the central list delivered none; size follows; the bound holds |
| `ThreadCaching.ThreadCache.Deallocate` | src/thread_cache.h:661-719 | nothing is lost: the chains given back and what stays are the old list with the object in front; the list is cut to the last refill when it exceeds twice that plus one |
| `ThreadCaching.ThreadCache.TakeObject` | src/thread_cache.h:640-658 | refill and pop keep every list within its bound and the byte count exact |
| `ThreadCaching.ThreadCache.PutObject` | src/thread_cache.h:661-719 | push and return of the excess keep the bound, the byte count and the objects |
| `ThreadCaching.ThreadCache.ReleaseToCentralCache` | src/thread_cache.cc:305-328 | exactly the first n objects leave, in order, in chains of the batch size |
| `ThreadCaching.PopChains` | src/thread_cache.cc:317-326 | the loop cuts a list into full chains and one remainder whose concatenation is the list |
| `ThreadCaching.ThreadCache.Cleanup` | src/thread_cache.cc:232-282 | every list is drained in full and size is 0 |
| `Spans.NeighbourBefore` | src/page_heap.cc:366-371 | what the page map says about the page before a span is the span that ends there, or nothing lies there |
| `Spans.NeighbourAfter` | src/page_heap.cc:388-391 | likewise for the page after a span |
| `Spans.JoinKeepsTags` | src/page_heap.cc:381-401 | merging writes one entry and leaves the boundary tags exact, with stale entries inside |
| `Spans.CutKeepsTags` | src/page_heap.cc:237-243 | splitting leaves the boundary tags exact |
| `Spans.AddKeepsTags` | src/page_heap.h:258-263 | recording a new span in vacant pages leaves the boundary tags exact |
| `Spans.CarveKeepsCoalesced` | src/page_heap.cc:280-292 | the leftover of a carve can be merged with nothing, so putting it back without merging is right |
| `Spans.JoinBelowSeals` | src/page_heap.cc:366-387 | once the neighbour below is merged, nothing below can be merged again |
| `Spans.JoinAboveSeals` | src/page_heap.cc:388-402 | likewise above |
| `Spans.RunWithinOneSpan` | src/page_heap.cc:328-413 | any run of consecutive pages that are all free, or all returned, lies within one span |
| `FreeLists.BalancedTotal` | src/page_heap.cc:303 | unmapped and committed bytes make up all the memory obtained from the system |
| `FreeLists.FreeBytesIffListed` | src/page_heap.cc:494-515 | there are free bytes exactly when some normal list is not empty |
| `FreeLists.LinkListed` | src/page_heap.cc:417-427 | a span put on the list of its length and location is on exactly that list |
| `FreeLists.UnlinkListed` | src/page_heap.cc:429-440 | a span taken off its list is on none |
| `PageHeaps.PageHeap.constructor` | src/page_heap.cc:64-78 | an empty heap satisfies the invariant |
| `PageHeaps.PageHeap.SearchFreeAndLargeLists` | src/page_heap.cc:80-116 | with no limit set it fails exactly if no free span is long enough, and otherwise takes a best fit; with a limit, as long as releases are accepted, it fails exactly if nothing fits, or the limit would be exceeded even with everything free given back and the best fit is not a normal span |
| `PageHeaps.PageHeap.VisitList` | src/page_heap.cc:85-112 | one round of the search takes a best fit or leaves the search one list further on |
| `PageHeaps.PageHeap.MakeRoom` | src/page_heap.cc:98-110 | releasing for the limit may merge the returned span away, and then a longer one is found later |
| `PageHeaps.PageHeap.SearchWithCoalescing` | src/page_heap.cc:121-159 | nothing is released unless coalescing is due; as long as releases are accepted, the search succeeds if and only if a fit may be taken within the limit, or coalescing is due, n consecutive pages are free and the limit allows them |
| `PageHeaps.PageHeap.SearchAgain` | src/page_heap.cc:149-158 | after a full release a request is served if and only if n consecutive pages are free and the limit allows them |
| `PageHeaps.DueIff` | src/page_heap.cc:130-133 | coalescing is due if and only if there are normal and returned pages, together a quarter of the heap or more, and a multiple of 128 MB lies between the heap size and what it would grow to |
| `PageHeaps.AllReturned` | src/page_heap.cc:134-149 | once everything free is returned, a span of n pages is free if and only if n consecutive pages were |
| `PageHeaps.PageHeap.New` | src/page_heap.cc:121-168 | one span of n pages is added to the spans in use, a best fit where one is free; as long as releases are accepted it succeeds if and only if a fit may be taken within the limit, or a run of n free pages can be coalesced when that is due, or the system has the pages and the limit leaves room for them; a limit that is kept stays kept, as long as the system delivers no more than it is asked for |
| `PageHeaps.PageHeap.AllocLarge` | src/page_heap.cc:170-228 | the smallest, then lowest, large span is taken, subject to the limit; the recursion is one level deep; as long as releases are accepted, the assertion that no normal span was found fails if and only if there is one, the best fit is a returned span, and the limit would be exceeded even with everything free given back |
| `PageHeaps.PageHeap.AllocReturned` | src/page_heap.cc:209-227 | a returned best fit is taken within the limit; as long as releases are accepted, it fails if and only if the limit would be exceeded even with everything free given back |
| `HeapLimit.AssertionFails` | src/page_heap.cc:194-227 | with a limit of 1 MB and a region of 4 MB, after three allocations, a release and a deletion, a request for 140 pages fails with a normal span of 210 pages at hand, though every release is accepted |
| `PageHeaps.ScanLarge` | src/page_heap.cc:175-187 | a scan finds the best span of a list, by length and then by address |
| `PageHeaps.FindBestLarge` | src/page_heap.cc:173-203 | both scans find the best span of both large lists, and whether it is a normal or a returned one |
| `PageHeaps.PageHeap.Split` | src/page_heap.cc:230-246 | one span in use becomes two that cover its pages, and the invariant holds |
| `PageHeaps.PageHeap.Carve` | src/page_heap.cc:264-305 | the first n pages are in use, the rest is a span of its own listed at its old location, no other span changes, and the books follow |
| `PageHeaps.PageHeap.Delete` | src/page_heap.cc:307-326 | exactly this span leaves the spans in use, its bytes become free or unmapped, and no fit is lost; unless memory is released meanwhile, only its free neighbours change |
| `PageHeaps.PageHeap.MergeIntoFreeList` | src/page_heap.cc:335-413 | the span is merged on both sides as far as possible and listed; coverage and spans in use stay |
| `PageHeaps.PageHeap.MergePrevious` | src/page_heap.cc:366-387 | the lower side ends up merged or unmergeable |
| `PageHeaps.PageHeap.MergeNext` | src/page_heap.cc:388-402 | the upper side ends up merged or unmergeable |
| `PageHeaps.PageHeap.Absorb` | src/page_heap.cc:381-401 | the neighbour leaves its list and the books, and its pages join the span |
| `PageHeaps.PageHeap.PrependToFreeList` | src/page_heap.cc:417-427 | the span goes to the front of the list of its length and location, and the invariant is complete again |
| `PageHeaps.PageHeap.RemoveFromFreeList` | src/page_heap.cc:429-440 | the span leaves its list and its counter |
| `PageHeaps.PageHeap.IncrementalScavenge` | src/page_heap.cc:442-473 | at most one span is released, and only when the counter has run out; the counter is then set as the rate says |
| `PageHeaps.Delay` | src/page_heap.cc:462-472 | the wait is 1000 pages for each page released, divided by the rate and rounded down, at most 2^20 |
| `PageHeaps.PageHeap.ReleaseLastNormalSpan` | src/page_heap.cc:475-492 | the pages returned are exactly those moved from free to unmapped bytes; 0 only on refusal |
| `PageHeaps.PageHeap.ReleaseRound` | src/page_heap.cc:501-512 | a round over all lists releases something unless the system refuses, and ends with the span that makes it enough |
| `PageHeaps.PageHeap.ReleaseAtLeastNPages` | src/page_heap.cc:494-515 | it ends, returns exactly the pages moved from free to unmapped, stops short only if nothing is free or a release was refused, and releases no span beyond the one that makes it enough |
| `PageHeaps.PageHeap.EnsureLimit` | src/page_heap.cc:517-539 | the answer agrees with the limit recomputed from the new counters; as long as releases are accepted it is no exactly if the limit would be exceeded even with everything free given back; no span is released beyond the one that suffices; and the assertion that no more pages are unmapped than were taken holds |
| `PageHeaps.PageHeap.RegisterSizeClass` | src/page_heap.cc:541-551 | every page of the span names it, and no other entry changes |
| `PageHeaps.NameInterior` | src/page_heap.cc:548-550 | the loop writes exactly the interior pages |
| `PageHeaps.PageHeap.GrowHeap` | src/page_heap.cc:610-667 | on success a free span of n pages exists; on failure the spans are as before, and the pages of a region that the page map could not hold are accounted as leaked; as long as releases are accepted it succeeds if and only if the page map has room and the system has what the limit leaves room for; the limit stays kept if the system delivers no more than it is asked for |
| `PageHeaps.PageHeap.AskSystem` | src/page_heap.cc:613-631 | a generous request first, then an exact one; as long as releases are accepted, each is made exactly if the limit leaves room for it with everything free given back |
| `PageHeaps.PageHeap.AddRegion` | src/page_heap.cc:633-666 | a new region enters the books, and the free lists if the page map has room |
| `PageHeaps.UnmappedIsTaken` | src/page_heap.cc:531 | the pages unmapped never exceed the pages taken from the system |
| `MappedHeap.EntriesHaveLeaves` | src/pagemap.h:259-265 | every page map entry, and the entries on either side of a span that merging reads, have a leaf |
| `MappedHeap.SameCoverageLeafy` | src/page_heap.cc:649-653 | an operation that does not change which pages the heap covers needs no further leaves |
| `MappedHeap.Write` | src/pagemap.h:259-265 | an entry of the heap's page map can be stored in the tree without a check, and the leaves stay |
| `MappedHeap.Enter` | src/page_heap.cc:649-666 | a region enters the free lists exactly if leaves could be made from the page before it to the page after it |
| `MappedHeap.Grow` | src/page_heap.cc:610-667 | growing keeps a leaf for every page of the heap and its neighbours; without a limit it fails only if the system has nothing, or the tree has no memory or no room for the page numbers |
| `Decommit.MergeKeepsBooksIff` | src/page_heap.cc:328-413 | exactly when unmapped and committed bytes still add up after a merge, with the mode on or off |
| `Decommit.MergeMovesPages` | src/page_heap.cc:360-413 | a merge lists exactly the pages of the span and of the neighbours it may be merged with, at one location |
| `Decommit.PlainMergeKeepsBooks` | src/page_heap.cc:328-413 | with the mode off they always do |
| `Decommit.ReleaseCountsTwice` | src/page_heap.cc:475-492 | with the mode on, releasing a normal span leaves the books short by its size |
| `Decommit.AggressiveRunKeepsBooks` | src/page_heap.cc:404-411 | with the mode on from the start and no refusals, the books add up over every run and nothing is ever on a normal list |
| `Central.Portion` | src/central_freelist.cc:318-324 | no more than was asked and no more than there is |
| `CentralCounts.PortionBounds` | src/central_freelist.cc:318-324 | at least one object is taken, and as many as were asked or as there are |
| `CentralLocks.StepKeepsLocks` | src/central_freelist.cc:198-257 | over every interleaving a lock is held by exactly the thread whose position says so |
| `CentralLocks.StepKeepsSlots` | src/central_freelist.cc:158-257 | over every interleaving used slots <= cache size <= maximum in every class, and every slot holds a full chain |
| `CentralLocks.StepKeepsBudget` | src/central_freelist.cc:158-238 | cache sizes plus credits under way stay the same, except that one unit is lost exactly when a thread comes home with a credit and finds its own cache at its maximum |
| `CentralLoss.FetchAll` | src/central_freelist.cc:278-299 | from every state with an unfinished request there is a run that delivers all of it, in which only this thread is active and the page heap delivers spans |
| `CentralLoss.FillUp` | src/central_freelist.cc:176-257 | a thread alone can fill a transfer cache up to one unit short of its maximum with room taken from another class |
| `CentralLoss.RoomIsLost` | src/central_freelist.cc:158-257 | from every initial state where a class may still grow and another has room for that and one unit more, some run of two threads ends with no thread owed any room and a total that is one less |
| `CentralInit.ChainFits` | src/central_freelist.cc:64-80 | the product of size and batch fits in 32 bits, and at least two chains fit in 1 MB, so that the limit of one entry never applies |
| `CentralInit.Starts` | src/central_freelist.cc:50-83 | the sizes that Init chooses for the classes are a start of the machine, for any number of threads |
| `CentralInit.RoomCanBeLost` | src/central_freelist.cc:175-195 | for every configuration that passes the initialization, a run from the start of the program in which the total of the cache sizes drops for good, although a comment promises that it never changes |
| `CentralObjects.LastOneOut` | src/central_freelist.cc:107-156 | when the reference count reaches the last object, all the others are on the span's free list |
| `CentralObjects.GiveBackKeeps` | src/central_freelist.cc:107-156 | returning an object to its span keeps every object in one place |
| `CentralObjects.TakeKeeps` | src/central_freelist.cc:312-340 | taking a prefix of a span's free list keeps every object in one place |
| `CentralObjects.PopulatedKeeps` | src/central_freelist.cc:343-396 | the objects carved from a new span are new and on its free list |
| `CentralObjects.EvictSlotKeeps` | src/central_freelist.cc:212-238 | an evicted slot chain goes to the evicting thread |
| `CentralCounts.ReleaseOneCounts` | src/central_freelist.cc:107-156 | returning one object keeps counter, span count, reference count and list membership right, also when the span is given up |
| `CentralCounts.CollectCounts` | src/central_freelist.cc:312-340 | so does taking objects from the first nonempty span |
| `CentralCounts.PopulatedCounts` | src/central_freelist.cc:343-396 | so does a new span, made without the lock and listed with it |
| `CentralRuns.StepKeepsInv` | src/central_freelist.cc:85-396 | every step of every thread keeps locks, slots, objects and counts |
| `CentralRetry.BatchReleasedOnlyIf` | src/central_freelist.cc:176-257 | in every run a full batch is released to its spans only if the cache was at its maximum when the lock was taken, a credit came home too late, or two attempts to find room were made in the call, the second by force |
| `CentralRetry.EvictedOnlyByForce` | src/central_freelist.cc:212-238 | in every run a chain is evicted from another class only in a second attempt, by force |
| `CentralRetry.InsertEnds` | src/central_freelist.cc:85-257 | every step of an InsertRange brings its end closer |
| `CentralRetry.InsertIsBounded` | src/central_freelist.cc:85-257 | in every run an InsertRange takes at most 3 * length + 3 * largest batch + 10 steps of its own |
| `CentralRetry.RoomByForce` | src/central_freelist.cc:176-257 | from every reachable state where both caches are full, a run in which the other class loses its top slot by force and the batch becomes a slot |
| `CentralOrder.BatchComesBack` | src/central_freelist.cc:245-276 | a batch put in the transfer cache is what the next request for a batch gets |
| `CentralOrder.ObjectComesBack` | src/central_freelist.cc:107-156 | an object put back is the next one handed out, if its span had none free or is the first on the list |
| `CentralOrder.NewSpanFirst` | src/central_freelist.cc:390-395 | objects come from a new span first, in their order |
| `CentralRuns.InitialInv` | src/central_freelist.cc:50-83 | the initial state satisfies the invariant |
| `CentralRuns.RunKeepsInv` | src/central_freelist.cc:85-396 | the invariant holds in every state of every run, and the transfer caches never exceed their initial total |
| `CentralRuns.RunSetsAside` | src/central_freelist.cc:134-149 | in every state of every run a span on its way to the page heap is on no list, is not handed out as a new one, and is handed over by one thread only |
| `CentralRuns.ExactlyOnePlace` | src/central_freelist.cc:240-396 | every object is in exactly one of its span's free list, a slot, a thread cache, a chain in transit or the application |
| `CentralRuns.OneLockPerThread` | src/central_freelist.cc:198-207 | no thread ever holds the locks of two classes |
| `CentralRuns.HolderCanStep` | src/central_freelist.cc:158-396 | whoever holds a lock can go on |
| `CentralRuns.NoDeadlock` | src/central_freelist.cc:158-257 | a thread that cannot step waits for a lock whose holder can |
| `CentralRuns.RemoveReturns` | src/central_freelist.cc:259-301 | RemoveRange delivers distinct objects of the class, as many as it reports, never more than asked for, and fewer only if there is no free object even after trying to populate |
| `CentralShortage.ShortOnlyWithoutMemory` | src/central_freelist.cc:259-310 | in every run, a RemoveRange that delivers fewer objects than asked for was refused memory by the page heap within the same call |
| `CentralShortage.ListIsSafe` | src/central_freelist.cc:240-310 | while a thread holds the lock of a class, no other thread changes its list |
| `CentralRuns.SoloKeepsBudget` | src/central_freelist.cc:176-238 | a step of a thread running alone loses no room |
| `CentralRuns.SoloKeepsTotal` | src/central_freelist.cc:176-238 | without interference an insertion leaves the total of cache sizes exactly as it was |
| `PackedCaches.PackedEntry` | src/packed-cache-inl.h:193-218 | in both layouts an entry matches exactly the key it was made for among keys with its position, and yields its value |
| `PackedCaches.WriteThenRead` | src/packed-cache-inl.h:157-176 | a write is read back; another key reads as before or as evicted |
| `PackedCaches.ClearedHolds` | src/packed-cache-inl.h:178-184 | a cleared cache holds the given value for small keys and nothing else |
| `PackedCaches.PackedCache.Put` | src/packed-cache-inl.h:157-161 | the write as seen by lookups of every key |
| `PackedCaches.PackedCache.GetOrDefault` | src/packed-cache-inl.h:168-176 | the value stored for the key, or the default |
| `PackedCaches.PackedCache.Clear` | src/packed-cache-inl.h:178-184 | every entry is reset |
| `Coherence.RunIsCoherent` | src/tcmalloc.cc:60-66 | in every state of every run, for every live object the cache yields 0 or the size class of the span the page map gives |
| `Coherence.MissesAreRepaired` | src/tcmalloc.cc:1128-1150 | in every run a free or a size query that missed leaves the class of the object's span in the entry of its page |
| `Coherence.EntriesAreWritten` | src/central_freelist.cc:366-369 | in every run filling a span writes its class at each page in turn, and the entry of a large span reads 0 |
| `Coherence.PublishAndAllocate` | src/central_freelist.cc:371-395 | once a span is filled, any of its objects can be allocated |
| `Coherence.FreeLive` | src/tcmalloc.cc:1128-1170 | a live small object can be freed, with the class of its span |
| `Coherence.LargeRoundTrip` | src/tcmalloc.cc:960-966 | a large span is freed as one, whatever the cache held for its first page before |
| `Coherence.StepKeepsInv` | src/tcmalloc.cc:951-967 | every step of every thread keeps all entries of live pages truthful, although entries of deleted spans stay; several threads may query the size of one object at once |
| `Coherence.LiveFacts` | src/tcmalloc.cc:68-79 | the page map names the span of a live object at the object's page |
| `Coherence.CacheNextKeeps` | src/central_freelist.cc:364-369 | filling the cache for a new span, page by page and without a lock |
| `Coherence.PublishKeeps` | src/central_freelist.cc:343-396 | objects become available only when all pages of their span are entered |
| `Coherence.AllocateLargeKeeps` | src/tcmalloc.cc:963-967 | a large allocation resets the entry of its first page |
| `Coherence.WriteBack` | src/tcmalloc.cc:1133-1151 | a free or a size query that missed writes the class it read, however long ago it read it |
| `Coherence.FinishFreeLargeKeeps` | src/tcmalloc.cc:1160-1173 | a large span is deleted only when nothing refers to it |
| `Coherence.DeleteSmallKeeps` | src/central_freelist.cc:107-156 | a span of small objects is deleted with its entries left behind |
| `PageMaps.PageMap.constructor` | src/pagemap.h:243-246 | for page numbers of any width: a new tree stores nothing and has room for exactly the page numbers of that width |
| `PageMaps.ShapeHoldsAll` | src/pagemap.h:209-217 | a third of the bits, rounded up, for each interior level and the rest for the leaves cover exactly the page numbers |
| `PageMaps.KnownShapes` | src/common.h:136-145 | the lengths of nodes and leaves for the 35-bit page numbers of x86_64, and for 51 bits |
| `PageMaps.FirstIndex` | src/pagemap.h:249 | the first index is the key without the bits of the other two |
| `PageMaps.Indices` | src/pagemap.h:248-257 | the three indices determine the key, and the first two the leaf |
| `PageMaps.PageMap.Get` | src/pagemap.h:248-257 | the stored value, or nothing for keys that are not set or out of range |
| `PageMaps.PageMap.Set` | src/pagemap.h:259-265 | exactly one key changes |
| `PageMaps.PageMap.Ensure` | src/pagemap.h:267-295 | what is stored never changes, even on failure half way; success means that every key of the range has a leaf, failure that memory or the key range ran out; the 64-bit sum is as the code computes it |
| `PageMaps.PageMap.EnsureLeaf` | src/pagemap.h:276-289 | the leaf is made, with its node if need be, exactly if there is memory for what is missing; nothing stored is touched |
| `PageMaps.LastKey` | src/pagemap.h:268 | without wrap-around the last key is start + n - 1 |
| `PageMaps.PageMap.Next` | src/pagemap.h:300-321 | the value at the first mapped key at or after k, or nothing if there is none |
| `PageMaps.PageMap.ScanLeaf` | src/pagemap.h:310-314 | the scan forward in one leaf finds its first mapped key, or none |
| `Ranges.NextIsFirst` | src/page_heap.cc:576-580 | from a boundary between spans the first mapped page is the start of the next span and names it |
| `Ranges.GetNextRange` | src/page_heap.cc:576-605 | the address, length and kind of the first span at or after a boundary, or the news that there is none |
| `Ranges.CollectOne` | src/tcmalloc.cc:529-538 | one more range continues the batch |
| `Ranges.CollectBatch` | src/tcmalloc.cc:524-538 | a batch of at most 16 ranges continues the iteration without gap or repetition |
| `Ranges.IterateOverRanges` | src/tcmalloc.cc:519-545 | on a heap at rest every span is reported exactly once with its address, length and kind, in order of address, and nothing else is |
| `AddressMaps.HashInt` | src/addressmap-inl.h:202-207 | the hash is an index of the table |
| `AddressMaps.AddressMap.constructor` | src/addressmap-inl.h:270-277 | a new map holds no key |
| `AddressMaps.AddressMap.Find` | src/addressmap-inl.h:289-306 | the value stored for the key |
| `AddressMaps.AddressMap.EnsureCluster` | src/addressmap-inl.h:214-233 | a missing cluster is added to its hash chain and no key changes |
| `AddressMaps.AddressMap.Insert` | src/addressmap-inl.h:308-338 | the key has the value, and no other key changes |
| `AddressMaps.AddressMap.FindAndRemove` | src/addressmap-inl.h:340-357 | the old value is returned, the key is gone, and no other key changes |
| `AddressMaps.AddressMap.SearchCluster` | src/addressmap-inl.h:369-390 | the walk through the blocks of a cluster ends with an answer or with nothing below in the cluster |
| `AddressMaps.AddressMap.FindInside` | src/addressmap-inl.h:359-403 | for non-overlapping ranges of at most maxSize it returns the range that contains the address, or nothing if none does |
| `AddressMaps.ScanBlock` | src/addressmap-inl.h:370-382 | a block is searched for a containing range and for any smaller key |
| `AddressMaps.SmallerKeySettles` | src/addressmap-inl.h:383-384 | a smaller key whose range misses the address rules out all lower ranges |
| `AddressMaps.TooFar` | src/addressmap-inl.h:396-401 | beyond maxSize nothing can contain the address |
| `AddressMaps.PassBlock` | src/addressmap-inl.h:385-388 | a block without smaller keys can be passed |
| `AddressMaps.PassCluster` | src/addressmap-inl.h:392-395 | a cluster that does not exist can be passed |
| `Alignments.LgFloor` | src/common.cc:83-95 | the binary search finds the floor of the logarithm of every 32-bit number |
| `Alignments.AlignmentForSize` | src/common.cc:97-117 | a power of two between 8 and the page size, at least 16 from 16 bytes on, wasting at most an eighth; the two checks cannot fail |
| `Alignments.AlignmentGrows` | src/common.cc:97-117 | larger sizes have at least the alignment of smaller ones |
| `Alignments.NextSize` | src/common.cc:160-162 | every size the loop visits is a multiple of its own alignment, and the largest size is visited |
| `SizeClasses.SpanSize` | src/common.cc:164-177 | the search for a span size ends with the smallest number of pages that wastes at most an eighth and holds enough objects |
| `SizeClasses.SpanSizeIs` | src/common.cc:164-177 | there is exactly one span size for a class |
| `SizeClasses.NumMoveIs` | src/common.cc:119-141 | as many objects as fit in 64 KB, but at least two, and at most the configured number |
| `SizeClasses.AddSize` | src/common.cc:164-195 | a size becomes a class or extends the last one, and neighbouring classes differ in pages or in objects per span |
| `SizeClasses.ChooseClasses` | src/common.cc:156-196 | the classes increase, are well made, and the last one is the largest size; a size has a class if and only if it is a multiple of its own alignment and is the largest or not interchangeable with the next one; and their number is two more than the gains on the way |
| `SizeClasses.NoSizeBetween` | src/common.cc:156-157 | stepping by the alignment skips no size that is a multiple of its own alignment |
| `ClassCounts.NumberOfClasses` | src/common.cc:156-200 | for every number of objects to transfer: 86 classes below 36, 87 below 40, and 88 from 40 on |
| `ClassCounts.Differ` | src/common.cc:179-190 | sizes of which different numbers fit in a page never share a class |
| `ClassCounts.FitsOrNext` | src/common.cc:164-177 | a size that fits a page takes one page or two, depending on the number to transfer |
| `SizeMaps.SameIndexSameClass` | src/common.h:198-207 | sizes that share an entry of the class array belong to the same class |
| `SizeMaps.FillClassArray` | src/common.cc:203-210 | the loops give every multiple of 8 its class |
| `SizeMaps.FilledForAll` | src/common.cc:203-210 | then the array is right for every size |
| `SizeMaps.ClassFits` | src/common.cc:179-190 | the class of a size is a multiple of the alignment promised for the size, also after classes were merged |
| `SizeMaps.DoubleCheck` | src/common.cc:212-235 | the double check accepts exactly the arrays that give the right class for every size it looks at |
| `SizeMaps.CheckSucceeds` | src/common.cc:212-235 | the array that the initialization fills passes it |
| `SizeMaps.SizeMap.SizeClass` | src/common.h:225-227 | the least class that holds the size |
| `SizeMaps.SizeMap.Init` | src/common.cc:143-240 | it succeeds if and only if at least 40 objects may be transferred at a time, and then every size has its class |
| `SizeMaps.DefaultSucceeds` | src/common.cc:64-79 | with the default of 32768 objects the size map is initialized |
| `SizeMaps.ThirtyTwoCrashes` | src/common.cc:197-200 | with TCMALLOC_TRANSFER_NUM_OBJ=32 there are 86 classes and the initialization gives up |
| `MemAlign.PagesOf` | src/common.h:151-154 | the least number of pages that hold the bytes |
| `MemAlign.Allocate` | src/tcmalloc.cc:1275-1347 | an overflowing request fails; otherwise the memory is aligned and large enough: the least aligned class, or a span at an aligned page of which exactly the needed pages stay in use; without a limit it fails only on overflow or if the heap cannot grow |
| `MemAlign.AlignedPages` | src/tcmalloc.cc:1314-1346 | the page path, with and without carving; without a limit it fails only if the heap cannot grow |
| `MemAlign.CarveAligned` | src/tcmalloc.cc:1327-1346 | exactly the needed pages stay in use, from an aligned page on |
| `MemAlign.DropFront` | src/tcmalloc.cc:1327-1342 | an aligned page is found, what is before it goes back, and more pages than needed are left |
| `MemAlign.TrimFront` | src/tcmalloc.cc:1333-1337 | the skipped pages go back and the rest stays in use |
| `MemAlign.TrimBack` | src/tcmalloc.cc:1339-1345 | the trailing pages go back |
| `MemAlign.SearchClasses` | src/tcmalloc.cc:1292-1309 | the search finds the least class that is large enough and aligned, and never misses |
| `MemAlign.SmallAligned` | src/tcmalloc.cc:1281-1285 | plain allocation is aligned for every alignment up to that of the size |
| `MemAlign.ObjectsAligned` | src/tcmalloc.cc:1292-1309 | all objects of an aligned class are aligned, wherever their span lies |
| `LinkedLists.ChainDistinct` | src/linked_list.h:63-84 | a NULL-terminated chain visits no object twice |
| `LinkedLists.Memory.Push` | src/linked_list.h:52-55 | the element is in front of the list, and only its link is written |
| `LinkedLists.Memory.Pop` | src/linked_list.h:57-61 | the first element, and the list without it |
| `LinkedLists.Memory.PopRange` | src/linked_list.h:63-84 | the list is cut in two NULL-terminated chains, the first of exactly n objects |
| `LinkedLists.Memory.PushRange` | src/linked_list.h:86-90 | the range is in front of the list |
| `LinkedLists.Memory.Size` | src/linked_list.h:92-99 | the number of objects on the list |
| `LinkedLists.Memory.TakeUpTo` | src/central_freelist.cc:318-336 | the first objects of a span's free list, at least one and at most n, become a chain, the rest stays |
| `LinkedLists.Memory.Carve` | src/central_freelist.cc:373-388 | as many objects as fit are linked in order of address, side by side within the span |
| `LinkedLists.SpanLinks.Init` | src/span.cc:73-76 | an empty ring |
| `LinkedLists.SpanLinks.Prepend` | src/span.cc:93-100 | the span is first in the ring, and other rings are untouched |
| `LinkedLists.SpanLinks.Remove` | src/span.cc:78-83 | the ring without the span, whose own links are NULL |
| `LinkedLists.SpanLinks.Length` | src/span.cc:85-91 | the number of spans in the ring |
| `LinkedLists.RingFrame` | src/span.cc:73-100 | a ring does not notice changes to other nodes |

## Left out

- Floating point: averages are exact rationals and the scaling of a refill is exact integer arithmetic; rounding errors of `double` and `float` are not modelled.
- `preset_apf` is taken to be at least 1.
- What follows a pop from an empty list, which the code does not guard against when the central list delivers nothing; the model stops there with a result of its own.
- The page heap class covers the default mode; aggressive decommit is modelled in its byte counters only, not in its lists.
- The page heap keeps its page map as a flat map and its lists as sequences; `PageMaps` and `LinkedLists` show separately that the radix tree and the pointer rings behave so, and `MappedHeap` that the tree has a leaf for every entry.
- Independent writes of a method may come in another order than in the code where no other thread can see the difference.
- The radix tree and the buckets of the address map are nested sequences; sharing of nodes in memory is not captured. The free list of address map entries and the iteration over all entries are left out.
- The two-level page map of 32-bit machines and the single-level one.
- `PreallocateMoreMemory` and the bookkeeping of the allocator's own metadata.
- The tables of the size map grow as classes are found; the code would write past its arrays before it notices too many classes. A negative `TCMALLOC_TRANSFER_NUM_OBJ` is not modelled.
- `fraction` of a reported range, which depends on reference counts and floating point.
- The unlocked quick checks of the transfer cache are modelled as a thread being free to give up or go on; the random choice of a victim is any choice.
- `IncreaseCacheLimitLocked`, thread creation and destruction apart from `Init` and `Cleanup`, `RecomputePerThreadCacheSize`, and the APF_STATS counters.
- Allocation sampling, hooks, `realloc`, new-handlers, statistics output, system calls and the initialization order of static variables.
- The build with `TCMALLOC_SMALL_BUT_SLOW`, whose transfer caches start with no room.
- `TCMalloc_SystemAlloc` and `TCMalloc_SystemRelease`: only their contracts appear, as parameters.
