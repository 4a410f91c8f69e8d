# A verified model of the course-lab allocator and its companions

The main subject is `malloclab/mm.c`, a segregated-fit allocator with boundary tags that keeps
everything in one flat array of 32-bit words: ten list roots, a prologue, a header and a footer
around every block, previous and next links inside the free blocks, and an epilogue. It runs on the
simulated break of `malloclab/memlib.c` and is driven by the trace interpreters of
`malloclab/mdriver.c`. Four smaller parts are modelled beside it: the allocation tracer of linklab
with its sorted counted list, the robust I/O of `proxylab/csapp.c`, the K-best sampler of
`malloclab/fcyc.c`, and `parseline` of `shelllab/tsh.c`.

## How the allocator is modelled

There are two levels.

* **The abstract heap** (`Tiles`, `Bins`, `Heaps`, `Mallocs`). A heap is a tiling, a map from payload
  address to size and allocated bit, and ten sequences of addresses. `Heaps.Ok` is its invariant: the
  blocks cover the space between prologue and epilogue without gap or overlap, sizes are multiples of
  8 and at least 16, no two neighbours are both free, and the ten sequences hold every free block
  exactly once, in its size class, smallest first. `HeapTheorems`, `RoundTrip` and `Accounting` prove
  what clients may rely on.
* **The words** (`HeapWords`, `CoalesceWords`, `Folds`, `Steps`, `Allocators`). `HeapWords.Rep` says
  that the words represent a heap: header equals footer, and each root starts the doubly linked list
  that is its sequence. `Allocators.Allocator` is `mm.c` as a class over an array of words. Each
  function there is a method that does the same reads and writes, through the same macros, and is
  proved to take the words of one valid heap to the words of the heap its abstract counterpart gives.
  `mm_exit` is proved through a cursor invariant: the cursor stands at a block, at the break, or at a
  header left behind inside a merged block, which still leads to the next block.

`Traces` and `Drivers` put the driver on top. A run of a trace is a function of the heap; the trace
loops, with their range list, tables and `memset`, are methods proved to follow it.

Facts that would slow the solver down are carried folded, as `forall i :: Unfold(i) ==> P`; this is
logically just `P`.

## What is assumed

* The words are 32 bits wide, as in the `-m32` build. Sizes are computed modulo 2^32, and so is the
  sum `mem_sbrk` compares with the end of the arena. The arena is 8-aligned, not at address 0, and its
  end is an address.
* `mm_malloc` is called with a request it can serve (`Mallocs.Servable`): one of at most
  `MAX_REQUEST`, 2^32 - 24, bytes that a free block fits or for which growing the heap does not wrap
  around, or one it refuses. Both conditions are on the request and the heap before the call, and both
  are exact: `HeapTheorems.BeyondRefusedIff` and `HeapTheorems.NullRightlyIff` say what is returned
  otherwise. For a trace, `Traces.Unwrapped` asks this of each request in the state the run has
  reached; `Traces.RoomyUnwrapped` gives a bound on the sizes alone that is enough.
* `mm_free` is called with NULL or a block in use. Traces have positive `int` sizes, ids inside the
  driver's tables, and frees of live ids only. An id may be allocated again while it is live; its old
  block is then leaked.
* `read` and `write` follow a script that says, call by call, how many bytes to move, whether to be
  interrupted and whether to fail. A call beyond the end of the script moves everything it can. Every
  way a finite run can go is some script.
* The address the real allocator returns to the tracer, and the cycle counts the sampler measures, are
  parameters. Doubles are reals.
* `parseline` gets a non-empty command line without NUL that fits its buffer, and an `argv` with room
  for the arguments and the final NULL.

## Where the code differs from what its comments promise

* `add_range` is meant to find every overlap. It misses a new range that strictly contains an old one
  (`RangeLists.HitsIff`, `RangeLists.AroundMissed`); for this allocator the disjointness comes from the tiling
  (`Traces.NewPayloadApart`).
* `mem_sbrk` is meant to refuse what does not fit the arena. It does if and only if the new break does
  not wrap around (`Memory.RefusesRightlyIff`; `Memory.WrapAccepted` is an increment it wrongly
  accepts). So `mm_malloc` returns NULL exactly when it has to if and only if a free block fits or
  growing the heap does not wrap around (`HeapTheorems.NullRightlyIff`); a fresh heap high in memory
  answers a request it has no room for (`HeapTheorems.WrapAnswered`).
* `mm_malloc` takes any `size_t`. Above 2^32 - 24 its size computations wrap
  (`Mallocs.SizesCoverIff`), and it returns the NULL it should only in the case
  `HeapTheorems.BeyondRefusedIff` names (`HeapTheorems.BeyondAnswered` is a heap and a request it
  wrongly answers).
* `mm_realloc` is a stub, so every trace with a REALLOC request is judged invalid
  (`Traces.RunFailsIff`).
* `rio_readlineb` returns one more than the bytes it stored when the line was not ended by a newline
  (`Rio.CountIsStoredIff`, `Rio.CountTooHigh`), so that the byte count of the echo loop is right if and
  only if every line ends with one (`Rio.CountsIff`, `Rio.TotalTooHigh`). At the end of the stream it
  does not write the terminator. After a last line ended by the end of the stream the echo loop looks
  for the end a second time, and that read may fail (`Rio.Stream.ReadLines`).
* `rio_writen` takes a write that moves nothing for an interruption when `errno` still says EINTR,
  and for an error otherwise (`Rio.WriteN`, `Rio.ZeroRetried`).
* The tracer's counts, counters and the blocks really in use agree all through a run if and only if
  the real allocator never returned NULL or an address in use and `realloc` was always given one in
  use (`MemTrace.RunSoundIff`). One failed `malloc` makes the report list NULL
  (`MemTrace.FailedMalloc`), after a failed `realloc` the block still in use can no longer be freed
  (`MemTrace.FailedRealloc`), and a freed block given to `realloc` is counted below zero
  (`MemTrace.FreedAgain`); an address the list does not know makes `realloc` dereference NULL
  (`MemTrace.Tracer.Realloc`).
* The tracer's `calloc` records `size`, not `nmemb * size`. `n_malloc` is the number of bytes asked
  for, all through a run, if and only if every `calloc` asks for one element or for nothing
  (`MemTrace.TotalIff`).
* `fcyc` takes at least one sample even when `maxsamples` is not positive (`Sampler.Fcyc.Measure`).
* `parseline` takes any last argument that starts with an ampersand for the background mark, and
  reports a blank line as background (`ParseLine.ParseInvertsRender`, `ParseLine.AmpersandLost`,
  `ParseLine.BlankIsBackground`).
  A quote that is never closed drops everything from it on, without a message
  (`ParseLine.ParseIs`).

## Model

| member | source | states |
|---|---|---|
| Words.MasksAreArithmetic | malloclab/mm.c:83-93 | the bit masks of GET_SIZE, GET_ALLOC and PACK are, on all 32-bit words, the remainders and the sum the model computes with |
| Words.Pack | malloclab/mm.c:83-93 | the size and the allocated bit packed into a tag are read back unchanged |
| Memory.Mem.constructor | malloclab/memlib.c:25-35 | a new arena of 64 megabytes is empty: the break stands at its start |
| Memory.Mem.Get | malloclab/mm.c:86 | a read at a word address below the break gives the word stored there |
| Memory.Mem.Put | malloclab/mm.c:87 | a write changes the word at its address and no other |
| Memory.Mem.Sbrk | malloclab/memlib.c:58-69 | the test and the new break are computed modulo 2^32; unless the sum wraps, the break moves up by the increment and the old break is returned, or -1 and the break stays, exactly when the increment is negative or passes the arena |
| Memory.RefusesRightlyIff | malloclab/memlib.c:62 | mem_sbrk refuses exactly the increments there is no room for if and only if the increment is negative or break and increment stay below 2^32 |
| Memory.WrapAccepted | malloclab/memlib.c:62 | a break, a limit and an increment beyond the arena that mem_sbrk accepts |
| Memory.Mem.ResetBrk | malloclab/memlib.c:48-51 | the break goes back to the start of the arena |
| Bins.UnlistOk | malloclab/mm.c:485-501 | taking a free block off its list leaves every other free block listed once, in its class, in ascending order |
| Bins.EnlistOk | malloclab/mm.c:456-481 | inserting a block keeps all ten lists complete, without repetition and ascending |
| Bins.BinHolds | malloclab/mm.c:365-382 | a list holds exactly the free blocks of its size class |
| Bins.BinOfBounds | malloclab/mm.c:365-382 | a size is in class k if and only if it is above the largest size of class k-1 and at most the largest of class k, the ten bounds being those mm_init names |
| Bins.BinOfMonotone | malloclab/mm.c:365-382 | a larger size is never in an earlier class |
| Bins.UnlistEnlist | malloclab/mm.c:456-501 | inserting a block and removing it again restores all lists, order included |
| Bins.EnlistUnlist | malloclab/mm.c:456-501 | removing the first block of at least some size and inserting it again puts it back at its exact position, because ties are inserted in front |
| Heaps.MergedShape | malloclab/mm.c:412-450 | coalescing replaces the block and its free neighbours by one free block that spans exactly them and leaves all other blocks alone |
| Heaps.CoalesceOk | malloclab/mm.c:412-450 | coalescing one unlisted free block restores the heap invariant: no two free neighbours, every free block listed |
| Heaps.SplitReady | malloclab/mm.c:526-543 | after place has cut a block, only the rest is unlisted, so coalesce may be called on it |
| Heaps.FreeReady | malloclab/mm.c:262-282 | after mm_free has cleared the allocated bits, only the freed block is unlisted, so coalesce may be called on it |
| Mallocs.SizesCoverIff | malloclab/mm.c:213-246 | the 32-bit size computations of mm_malloc and extend_heap cover request, header and footer if and only if the request is at most 2^32 - 24 |
| Mallocs.GrowthIs | malloclab/mm.c:213-246 | up to 2^32 - 24 the heap grows by the least multiple of 16 that holds request, header and footer, but by no less than a page, and by no other number |
| Mallocs.AsInt32Is | malloclab/memlib.c:58 | the int mem_sbrk receives is congruent to the number of bytes modulo 2^32, in the range of an int, and equal to it exactly below 2^31 |
| HeapTheorems.BeyondRefusedIff | malloclab/mm.c:213-254 | for every request above 2^32 - 24 no block of the heap is large enough, and mm_malloc returns NULL if and only if the request is above 2^32 - 16, there is no free block at all, and a page passes the limit without its end passing 2^32 |
| HeapTheorems.ServableBeyond | malloclab/mm.c:213-254 | above 2^32 - 24 the requests within the precondition of the modelled mm_malloc are exactly those it refuses |
| HeapTheorems.BeyondAnswered | malloclab/mm.c:213-254 | a heap of one free page answers a request of 2^32 - 1 bytes with a block |
| Mallocs.FindFitIsBestFit | malloclab/mm.c:502-521 | find_fit returns a smallest free block of at least the requested size over the whole heap, and NULL exactly when every free block is smaller |
| Mallocs.ExtendFits | malloclab/mm.c:386-408 | after growth the block returned is free and at least as large as the growth, and the heap is valid |
| Mallocs.EmptyOk | malloclab/mm.c:162-180 | the heap of 14 words that mm_init lays out is valid |
| HeapTheorems.PlaceOk | malloclab/mm.c:526-549 | place gives the block at least the size asked for and at most 8 bytes more, and changes no other block in use |
| HeapTheorems.FreeOk | malloclab/mm.c:262-282 | freeing keeps the heap valid, removes exactly the freed block from the blocks in use, and moves no boundary |
| HeapTheorems.MallocOk | malloclab/mm.c:200-257 | on every size_t mm_malloc returns NULL exactly for size 0 or when nothing fits the computed size and mem_sbrk refuses, and then changes nothing; up to 2^32 - 24, when a free block fits or the growth does not wrap around, NULL is returned exactly when every free block is smaller than size+8 and the next page or multiple of 16 is no int or passes the limit; the heap stays valid and grows only when every free block is too small, then by exactly that number; else a smallest block that holds size+8 bytes is taken; exactly one block of size+8 to size+23 bytes, not in use before, is added to the blocks in use |
| HeapTheorems.ExhaustedIff | malloclab/mm.c:213-254 | up to 2^32 - 24 the computed sizes find no fit and no room exactly when the request itself has neither |
| HeapTheorems.NullRightlyIff | malloclab/mm.c:200-257 | for every size_t, mm_malloc returns NULL exactly for size 0 or when nothing fits and there is no room below the limit if and only if the size is 0, a free block fits, or the break plus the growth stays below 2^32 |
| HeapTheorems.WrapAnswered | malloclab/mm.c:200-257 | the heap right after mm_init, high in memory, and a request of 2^28 bytes it has no room for: mm_malloc does not return NULL |
| HeapTheorems.TilesDetermined | malloclab/mm.c:412-450 | two valid heaps with the same bounds and the same blocks in use have the same free blocks: free blocks are the maximal gaps |
| HeapTheorems.LiveDeterminesHeap | malloclab/mm.c:412-450 | the blocks in use determine the tiling and the contents of all ten lists as sets |
| HeapTheorems.FreeAllOk | malloclab/mm.c:262-282 | freeing any blocks in use one after another keeps the heap valid and removes exactly them |
| HeapTheorems.FreesCommute | malloclab/mm.c:262-282 | freeing the same set of blocks in any two orders gives the same tiling and the same contents of every list |
| RoundTrip.FitPosition | malloclab/mm.c:506-521 | the block find_fit returns is the first of its list that is large enough, in the list of its own class |
| RoundTrip.RestReabsorbed | malloclab/mm.c:412-450 | freeing a block that was split merges it with the rest into the block before the split |
| RoundTrip.SplitRoundTrip | malloclab/mm.c:526-549 | free after a splitting place restores tiling and lists, order included |
| RoundTrip.WholeRoundTrip | malloclab/mm.c:526-549 | free after a place that does not split restores tiling and lists, order included |
| RoundTrip.FreeUndoesMalloc | malloclab/mm.c:200-290 | whenever mm_malloc did not grow the break, NULL leaves the heap as it was, and up to 2^32 - 24 mm_free of the block mm_malloc just returned is the identity on the heap, order of all lists included |
| Accounting.BlocksFillHeap | malloclab/mm.c:162-186 | 56 bytes and the sizes of all blocks add up to the heap size |
| Accounting.PayloadFitsHeap | malloclab/mdriver.c:719-799 | payloads that fit their blocks add up to at most the heap size |
| Accounting.NoneLive | malloclab/mm.c:303-356 | a valid heap with no block in use is one free block in one list, the other nine being empty |
| HeapWords.UnlinkedRep | malloclab/mm.c:485-501 | the writes of remove_free_block turn the words of a heap into the words of the heap without that list entry, and touch only roots and link words of free blocks |
| HeapWords.InsertedRep | malloclab/mm.c:456-481 | the writes of insert_free_block turn the words of a heap into the words of the heap with that list entry, and touch only roots and link words of free blocks |
| CoalesceWords.PrevWords | malloclab/mm.c:414 | the tag read through the footer before a block tells whether the block before it is free, the prologue standing in for it at the start |
| CoalesceWords.NextWords | malloclab/mm.c:415 | the header behind a block tells whether the block there is free, the epilogue standing in for it at the end |
| CoalesceWords.MergedRep | malloclab/mm.c:423-444 | once the free neighbours are unlisted, writing two tags makes the words represent the merged heap |
| Allocators.Allocator.GetFreeCategoryRoot | malloclab/mm.c:365-382 | the address of the root of the size's class |
| Allocators.Allocator.RemoveFreeBlock | malloclab/mm.c:485-501 | the words represent the heap without that list entry; no tag and no payload changes |
| Allocators.Allocator.InsertFreeBlock | malloclab/mm.c:456-481 | the words represent the heap with the block in its sorted place; no tag and no payload changes |
| Allocators.Allocator.MergeNext | malloclab/mm.c:423-429 | case 2: the words represent the heap with the next block merged in |
| Allocators.Allocator.MergePrev | malloclab/mm.c:430-437 | case 3: the words represent the heap with the block merged into the previous one |
| Allocators.Allocator.MergeBoth | malloclab/mm.c:438-446 | case 4: the words represent the heap with all three blocks merged |
| Allocators.Allocator.CoalesceBlock | malloclab/mm.c:412-450 | from the words of a heap with one unlisted free block to the words of the coalesced valid heap |
| Allocators.Allocator.PlaceBlock | malloclab/mm.c:526-549 | the words represent the heap after place, and every payload in use survives |
| Allocators.Allocator.ExtendHeap | malloclab/mm.c:386-408 | when the growth does not wrap around, NULL exactly when the break cannot move, and then nothing changes; otherwise the words represent the grown, coalesced heap and every payload in use survives |
| Allocators.Allocator.MmInit | malloclab/mm.c:155-194 | unless one of its two growths wraps around, 0 exactly when 14 words and a page fit, and then the words represent a valid heap of one free page |
| Allocators.Allocator.SearchBin | malloclab/mm.c:512-518 | the walk along one list ends at its first block that is large enough, NULL if there is none |
| Allocators.Allocator.FindFitBlock | malloclab/mm.c:506-521 | the walk over the roots stops at the sentinel and finds the abstract find_fit |
| Allocators.Allocator.MmMalloc | malloclab/mm.c:200-257 | on every request it can serve, refused ones of any size included, the words and the result are those of the abstract mm_malloc, no word of a payload in use changes, and no word at all changes when NULL is returned |
| Allocators.Allocator.MmFree | malloclab/mm.c:262-290 | the words are those of the abstract mm_free, no word of another payload in use changes, the extent that starts at the block leaves the range list, and the header of the freed block, stale or not, leads on past no block in use |
| Allocators.Allocator.MmRealloc | malloclab/mm.c:295-298 | the stub returns NULL |
| Allocators.Allocator.ExitStep | malloclab/mm.c:325-350 | one round of mm_exit frees the block under the cursor if it is in use, and moves the cursor forward past no block in use, even over headers that merging left behind |
| Allocators.Allocator.MmExit | malloclab/mm.c:303-356 | mm_exit terminates having freed every block in use exactly once, in address order; nothing is in use afterwards, and a range list of blocks in use becomes empty |
| Steps.StaleHeader | malloclab/mm.c:412-450 | coalesce leaves the headers inside the merged block as they were |
| Steps.LandsStale | malloclab/mm.c:341 | after a merge into the previous block the old header still holds the old size, so the cursor lands where the freed block ended |
| Steps.CursorMoves | malloclab/mm.c:325-350 | from a free block or a stale header the cursor moves forward past no block in use |
| Steps.ExitFacts | malloclab/mm.c:328 | the allocated bit under the cursor is set exactly when a block in use is there |
| Steps.FreedDone | malloclab/mm.c:262-282 | the three steps of mm_free together make the abstract free, keep every other payload and lead the cursor on |
| Steps.KeptGrown | malloclab/mm.c:244-254 | payloads in use survive growth followed by place |
| RangeLists.HitsIff | malloclab/mdriver.c:408-417 | add_range's test finds an overlap if and only if there is one and the new range does not strictly contain the old one |
| RangeLists.AroundMissed | malloclab/mdriver.c:408-417 | an extent around another one, which the test does not find |
| RangeLists.WithoutLoKeeps | malloclab/mm.c:134-150 | removing an extent leaves exactly the extents that start elsewhere |
| RangeLists.RangeList.Push | malloclab/mdriver.c:419-430 | the extent comes first and the others stay |
| RangeLists.RangeList.AnyHit | malloclab/mdriver.c:408-417 | the scan tells whether any recorded extent fails the test |
| RangeLists.RangeList.Remove | malloclab/mm.c:134-150 | the first extent that starts at the address is unlinked, all others stay in order |
| RangeLists.RangeList.Clear | malloclab/mdriver.c:453-463 | the list is empty |
| Traces.StepOk | malloclab/mdriver.c:608-691 | one request that mm_malloc can serve keeps heap and tables consistent, and fails exactly for a REALLOC or an allocation of size bytes for which every free block is smaller than size+8 and the growth passes the limit |
| Traces.RunOk | malloclab/mdriver.c:608-691 | over every well-formed trace whose requests mm_malloc can serve the heap stays valid, every live id names a block in use, and the ids are exactly the live ones |
| Traces.RunFailsIff | malloclab/mdriver.c:608-691 | a well-formed trace whose requests mm_malloc can serve, each in the state reached, fails if and only if some request is a REALLOC, or nothing fits it and there is no room |
| Traces.RoomyUnwrapped | malloclab/memlib.c:58-69 | a well-formed trace can be served all through when the growth for each of its requests, added to the end of the arena, stays below 2^32 |
| Traces.PayloadsApart | malloclab/mdriver.c:388-417 | all payloads in use are 8-aligned, inside the heap and pairwise disjoint |
| Traces.NewPayloadApart | malloclab/mdriver.c:408-417 | a new payload is disjoint from every payload in use, so none contains another |
| Traces.NewRangeAccepted | malloclab/mdriver.c:382-430 | what mm_malloc returns passes all checks of add_range |
| Traces.FilledAlloc | malloclab/mdriver.c:614-635 | after an allocation and its memset every live payload holds the low byte of its id |
| Traces.FilledRelease | malloclab/mdriver.c:679-685 | after a free every remaining live payload still holds the low byte of its id |
| Traces.SurviveAlloc | malloclab/mdriver.c:614-640 | an allocation and its memset leave size and payload of every block in use as they were |
| Traces.SurviveFree | malloclab/mdriver.c:679-685 | a free leaves size and payload of every other block in use as they were |
| Traces.PayloadSurvives | malloclab/mdriver.c:608-691 | over any stretch of a run, every block in use throughout, named by an id or leaked, keeps its size and every word of its payload |
| Traces.PayloadWrite | malloclab/mdriver.c:635 | writing inside a requested payload disturbs no tag and no link |
| Drivers.AddRange | malloclab/mdriver.c:382-430 | accepted exactly when aligned, inside the heap and hitting no recorded extent; only then recorded |
| Drivers.Memset | malloclab/mdriver.c:635 | exactly the n bytes change, the bytes that share their last word with others included |
| Drivers.AllocRequest | malloclab/mdriver.c:614-640 | the ALLOC case of a request mm_malloc can serve succeeds exactly when the run goes on, and then range list, tables and memory agree with it |
| Drivers.ReleaseRequest | malloclab/mdriver.c:679-685 | the FREE case keeps range list, tables and memory in agreement with the run |
| Drivers.RunTrace | malloclab/mdriver.c:608-691 | over a trace whose requests mm_malloc can serve the trace loop completes exactly when the run does, with the range list equal to the payloads in use and every live payload intact; the words between the requests form a history in which payloads survive |
| Drivers.EvalMmValid | malloclab/mdriver.c:587-706 | a well-formed trace whose requests mm_malloc can serve, each in the state reached, is judged valid if and only if no request is a REALLOC or finds neither a free block that fits nor room to grow; then the range list is empty and the heap one free block, leaked blocks included |
| Drivers.HeapGrows | malloclab/mdriver.c:708-718 | no request shrinks the heap |
| Drivers.PeakFitsHeap | malloclab/mdriver.c:708-718 | the high-water mark of the payload in use never exceeds the final heap size |
| Drivers.PeakIsMost | malloclab/mdriver.c:719-799 | the peak is the payload in use after some request of the trace, and no request leaves more in use |
| Drivers.EvalMmUtil | malloclab/mdriver.c:719-799 | for such a trace the result is the peak payload over the distance from the start of the arena to the final break, between 0 and 1; the driver gives up exactly when a request is a REALLOC or finds neither a free block that fits nor room to grow |
| MemLists.ToMapHolds | linklab/utils/memlist.c:55-130 | a list strictly sorted by address is a table of its entries |
| MemLists.MemList.constructor | linklab/utils/memlist.c:18-42 | a new list is an empty table |
| MemLists.MemList.Find | linklab/utils/memlist.c:115-130 | the early exit misses nothing: the entry of the address, NULL exactly when the table has none |
| MemLists.MemList.Dealloc | linklab/utils/memlist.c:97-113 | the entry of the address, with one count less in the table; NULL and nothing changed exactly when the address is unknown |
| MemLists.MemList.Alloc | linklab/utils/memlist.c:55-95 | the list stays strictly sorted, and its table has the new size and one count more at the address |
| MemLists.MemList.Report | linklab/bonus/memtrace.c:195-206 | the entries with a positive count, each once, in address order |
| MemTrace.StepSound | linklab/bonus/memtrace.c:99-193 | a call that returns neither NULL nor an address in use, realloc being given one in use, keeps counts, counters and the blocks in use in agreement |
| MemTrace.RunSound | linklab/bonus/memtrace.c:99-193 | over every run of such calls counts are 0 or 1, 1 exactly for the blocks in use, NULL is not in the table, and n_malloc - free_size is the sum of the recorded sizes of the blocks in use |
| MemTrace.StepSoundIff | linklab/bonus/memtrace.c:99-193 | as long as NULL is not in the table, a call keeps the agreement if and only if the real allocator returned neither NULL nor an address in use and realloc was given one in use; a returned NULL is no block, and a failed realloc keeps its own |
| MemTrace.RunSoundIff | linklab/bonus/memtrace.c:99-193 | the agreement holds all through a run that realloc survives if and only if every call of it was such |
| MemTrace.FailedMalloc | linklab/bonus/memtrace.c:99-118 | a failed malloc, after which no block is in use and the table counts NULL once |
| MemTrace.FailedRealloc | linklab/bonus/memtrace.c:120-145 | a failed realloc, after which its block is in use and freeing it is reported as a double free |
| MemTrace.FreedAgain | linklab/bonus/memtrace.c:120-145 | a run in which a freed block is given to realloc, its count becomes -1, and freeing it is still refused as a double free |
| MemTrace.TotalIff | linklab/bonus/memtrace.c:99-166 | n_malloc is the number of bytes asked for, after every call of a run, if and only if every calloc asks for one element or for nothing |
| MemTrace.FinalTotalIff | linklab/bonus/memtrace.c:99-166 | when no calloc asks for zero elements, n_malloc is never too high, and its final value is right if and only if every calloc asks for one element or for nothing |
| MemTrace.TimesCount | linklab/bonus/memtrace.c:99-166 | alloc_times is the number of malloc, calloc and realloc calls of the run |
| MemTrace.FreeGuarded | linklab/bonus/memtrace.c:168-193 | over every run of such calls the real free is called exactly on blocks in use, and the two reports tell unknown from already freed addresses |
| MemTrace.TableRemembers | linklab/bonus/memtrace.c:99-193 | the table holds exactly the addresses ever handed out |
| MemTrace.Tracer.Malloc | linklab/bonus/memtrace.c:99-118 | list and counters take the malloc step; NULL adds nothing to the blocks in use |
| MemTrace.Tracer.Calloc | linklab/bonus/memtrace.c:147-166 | list and counters take the calloc step; NULL adds nothing to the blocks in use |
| MemTrace.Tracer.Realloc | linklab/bonus/memtrace.c:120-145 | list and counters take the realloc step, a failed one keeping the block in use; it fails, by dereferencing NULL, exactly when the list does not know the address |
| MemTrace.Tracer.Free | linklab/bonus/memtrace.c:168-193 | list and counters take the free step, and the outcome is the table's verdict |
| MemTrace.Tracer.ShowBlocks | linklab/bonus/memtrace.c:195-206 | the report lists the entries with a positive count in address order; after a sound run these are exactly the blocks in use, each once |
| Rio.ReadN | proxylab/csapp.c:529-548 | whatever the splits and interruptions, n bytes are delivered in order, fewer only at the end of the stream; -1 exactly when a call fails before n bytes or the end are reached, and then what the calls before it moved is stored |
| Rio.FateIs | proxylab/csapp.c:529-610 | reading fails before some number of bytes if and only if a call that is made by then, before any call has found the end, fails with a real error |
| Rio.WriteN | proxylab/csapp.c:555-572 | whatever the short writes and interruptions, exactly the n bytes are emitted in order, always so when every call is interrupted or moves something; -1 exactly when a call that is made fails with a real error, or moves nothing while errno does not say EINTR, and then what the calls before it moved is emitted |
| Rio.StoppedIff | proxylab/csapp.c:562-567 | some call stops rio_writen if and only if an error comes before n bytes are moved, or, errno not saying EINTR at the start, a write that moves nothing comes before n bytes are moved and before any interruption |
| Rio.ZeroRetried | proxylab/csapp.c:562-567 | a write that moves nothing stops rio_writen, but not after an interruption |
| Rio.Stream.constructor | proxylab/csapp.c:617-622 | the new stream holds what the descriptor holds, reading it fares as reading the descriptor by whole buffers does, and its buffer has 8192 bytes |
| Rio.Stream.Read | proxylab/csapp.c:585-610 | n bytes or all the internal buffer holds are delivered; with the unread buffer and the unread stream they concatenate to what was pending; 0 only at the end, -1 exactly when the next call that is not interrupted has to be made and fails |
| Rio.Stream.ReadNB | proxylab/csapp.c:629-648 | exactly min(n, remaining) bytes are delivered in order, however the stream is split; -1 exactly when a call fails before n bytes or the end are reached, and then the bytes got before it are stored |
| Rio.Stream.ReadLineB | proxylab/csapp.c:655-675 | for every maxlen, 0 included, the next line is stored and terminated, the rest of the buffer is untouched, the rest of the stream stays pending, and the count is LineCount; -1 exactly when a call fails before the line or the end is reached, and then the bytes got before it are stored and the rest of the buffer is untouched |
| Rio.Stream.ReadLines | proxylab/echo.c:20-26 | repeated calls store lines that concatenate to everything that was pending and the total adds the counts, unless a call fails before the end is found, or after a last line ended by the end of the stream, when the end is looked for again: exactly then it fails |
| Rio.LineOfIs | proxylab/csapp.c:655-675 | a line is a prefix that stops at the first newline, at the limit or at the end |
| Rio.LineOfUnique | proxylab/csapp.c:655-675 | and the only such prefix |
| Rio.NewlineEnds | proxylab/csapp.c:655-675 | a line ends at the byte 10 |
| Rio.LinesConcat | proxylab/csapp.c:655-675 | successive lines concatenate to the stream |
| Rio.CountIsStoredIff | proxylab/csapp.c:655-675 | the returned count is the number of bytes stored or one more, and the number itself if and only if a newline ended the line or the stream was at its end |
| Rio.CountTooHigh | proxylab/csapp.c:655-675 | a line of one byte for which two are returned |
| Rio.CountsIff | proxylab/echo.c:20-26 | the counts of all lines add up to the length of the stream if and only if every line ends with a newline |
| Rio.TotalTooHigh | proxylab/echo.c:20-26 | a stream of one byte that is counted as two |
| Sampler.BestIsSmallest | malloclab/fcyc.c:64-88 | the kept values are ascending, are among the samples, and no sample left out is smaller than one kept |
| Sampler.BestNext | malloclab/fcyc.c:67-88 | the k smallest after one more sample depend only on the k smallest before |
| Sampler.FirstIsMin | malloclab/fcyc.c:162 | the first kept value is the minimum of all samples |
| Sampler.ConvergedIff | malloclab/fcyc.c:93-98 | the samples have converged if and only if k of them, repetitions counted, are at most 1 + epsilon times the smallest sample |
| Sampler.Fcyc.InitSampler | malloclab/fcyc.c:50-62 | no samples, a fresh array |
| Sampler.Fcyc.AddSample | malloclab/fcyc.c:67-88 | the array holds the k smallest of all samples including the new one, ascending |
| Sampler.Fcyc.HasConverged | malloclab/fcyc.c:93-98 | true exactly when the samples taken have converged |
| Sampler.Fcyc.Measure | malloclab/fcyc.c:129-168 | stops at the first sample after which the samples have converged or maxsamples is reached, and returns the minimum of all samples taken |
| ParseLine.TokensOfRender | shelllab/tsh.c:287-311 | the tokens of a rendered argument list are its arguments, whatever the spacing and quoting |
| ParseLine.TokensBefore | shelllab/tsh.c:287-311 | the tokens of a rendered argument list are its arguments; from a quote that is never closed on everything is dropped |
| ParseLine.EveryLine | shelllab/tsh.c:287-311 | every string can be read so |
| ParseLine.ParseIs | shelllab/tsh.c:274-322 | every line, whatever its last character, is leading spaces, properly typed arguments, and nothing or a quote that is never closed; the result is those arguments, without a last one that starts with an ampersand, and background exactly if there is such a one or no argument at all |
| ParseLine.ParseInvertsRender | shelllab/tsh.c:274-322 | parsing a rendered command gives back arguments and background flag if and only if it runs in the background or has a last argument that does not start with an ampersand |
| ParseLine.AmpersandLost | shelllab/tsh.c:317-320 | the single argument &x gives no arguments and the background flag |
| ParseLine.BlankIsBackground | shelllab/tsh.c:314-315 | a blank line gives no arguments and the background flag |
| ParseLine.BuildArgv | shelllab/tsh.c:287-312 | the in-place loop leaves in argv exactly the tokens, each NUL-terminated, and a final NULL |
| ParseLine.ParseLine | shelllab/tsh.c:274-322 | argv's strings and the result are the arguments and the flag of the line |

## Left out

- What the trace loops do after a REALLOC whose `mm_realloc` did not return NULL: the stub never does.
- `mm_free` of a block that is not in use: nothing in the code detects it.
- `mm_check` and its helpers are compiled out.
- `function.c` and `function.h`, an older copy of the allocator that is not built.
- Debug output, error messages, logging, and the `DEBUG` branches.
- The libc speed and validity runs, trace files, command line and result tables of `mdriver.c`.
- Returning list nodes to the system (`free` in `remove_range`, `clear_ranges` and `free_list`), and failures of the system's `malloc` in `add_range` and `calloc` in `alloc`.
- The caller's name and offset in the tracer's list, `dlsym`, and `fini`'s average, which divides by the number of allocations.
- Widths of the tracer's counters and of the driver's totals: they are unbounded integers here.
- Allocators.Allocator.MmMalloc: above 2^32 - 24, or when growing wraps around, and the request is not refused, the code writes outside the arena or over its own tags; what it leaves behind is not modelled.
- Allocators.Allocator.MmFree: in the source it also writes two words of the freed block's own payload; the contract speaks of the other payloads only.
- Memory.Mem.Sbrk: after a sum that wrapped around the break is below its old value and the arena invariant is not claimed.
- Allocators.Allocator.ExtendHeap: a growth that wraps around is excluded; mem_sbrk accepts every such growth, and the code then writes outside the arena.
- Allocators.Allocator.MmInit: a growth that wraps around is excluded, for the same reason; when the first growth is refused nothing is asked of the second.
- Drivers.AllocRequest: a request that mm_malloc cannot serve is excluded, as in MmMalloc; so it is in every driver method built on it.
- Sampler.Fcyc.Measure: cache clearing, timers and the choice between the two counters are left out; rounding is not modelled.
- ParseLine.BuildArgv: requires more cells in argv than the line has arguments; with fewer the code writes past its end.
- ParseLine.ParseLine: the static buffer is a parameter, and a pointer is an offset into it; argv needs room as for BuildArgv.
- The rest of `csapp.c`, the proxy, the other echo programs and the job control of `tsh.c`: plumbing around system calls and signals.
