# InfiniLM: a verified model of its core

This project models seven components of InfiniLM, a large-language-model inference engine, and proves
what they promise. Each component is taken branch by branch from the code, error paths included. Where
a promise turns out not to hold on all inputs, the model keeps the code's behaviour, shows an input on
which it fails, and states the exact condition under which it holds.

Run `dafny verify dfyconfig.toml` (Dafny 4.11).

| component | files | main results |
|---|---|---|
| strided tensors | Shapes, TensorView, TensorTransform, TensorSlice, Permutations | `view` succeeds exactly when every stride break is a boundary of the new shape, and then no element changes its address; merging, splitting, permuting and slicing keep addresses, with the exact conditions |
| memory pool | PoolBlocks, MemoryPool | blocks tile the regions in every reachable state, best fit, coalescing, releasing undoes allocating, draining gives whole regions |
| descriptor cache | LruSpec, LruCache | the linked list and map refine a recency list; conservation of descriptors; the victim is the least recently used |
| rank synchronisation | RankBarrier, GraphCompile, RankMailbox | lockstep over all interleavings up to generation 2^31, no overlapping graph recordings, no deadlock, a normal return means every worker ran the job once, and forward returns its own output |
| serving loop | InferTask, KvCachePool, WorkerLoop | mirrors spell what was run, caches are conserved, tasks are served in turn |
| key-value addressing | PagedGenerate, GraphInputs, DynamicLayer | every read of a run finds the token that its own request wrote there, no slot is written twice, graph inputs do not depend on history, amortised growth |
| Marlin conversion | BitFields, MarlinTiles, MarlinColumns, ActOrder, MarlinConvert | repacking is a bijection that can be decoded, scales and zero points share one column order exactly for groups smaller than the rows, sorting rows keeps every product |

Objects whose methods change their fields are classes, loops are loops, and each method is proved
against a function or predicate about which the lemmas then speak. Threads are transition systems: one
critical section is one step, and steps interleave in every way.

## Where the code does less than it seems to

- `RankBarrier::wait` copies a 64-bit generation into an `int`. The ranks stay in lockstep only while no
  generation of 2^31 has been reached; at 2^31 a rank leaves a wait that nobody else has entered
  (`RankBarrier.LeavesAtOnceExactly`, `RankBarrier.LockstepLost`).
- `dimSplit` divides as unsigned: a negative stride is misplaced (`TensorTransform.SplitKeepsAddresses`).
- `sliceImpl` accepts two slices of one dimension that together leave the tensor
  (`TensorSlice.RepeatedDimLeaves`).
- A pool whose initial size is no multiple of the alignment can lose memory for good
  (`PoolBlocks.NothingLostExactly`); erasing by size can drop free blocks from the size index
  (`MemoryPool.MemoryPool.Release` says exactly when). `MemoryPool.LoseMemory` and
  `MemoryPool.ForgetFreeBlock` make the calls.
- A task with an empty prompt is bound at position -1, and its mirror grows unless its limit is negative
  (`InferTask.LengthKeptExactly`). It also takes one answer more than max(1, max_tokens - pos)
  (`WorkerLoop.ServedWithinLimitExactly`, `WorkerLoop.EmptyPromptServedTwice`).
- The shutdown sentinel of `worker_loop` is dropped unless the items ahead of it, with those of a batch
  that is being filled, make whole batches (`WorkerLoop.SentinelStopsExactly`,
  `WorkerLoop.SentinelDropped`, `WorkerLoop.MidFillSentinelDropped`).
- After a forward call that threw, the next load can be reported done by the first worker's earlier job while
  it has not run; it is told from worker to worker only while no worker is to exit
  (`RankMailbox.OneByOneAlone`, `RankMailbox.OneByOneOverlap`).
- `generate` allows a missing `max_new_tokens` for one request and then fails on it
  (`PagedGenerate.Generate`).
- `supports_shape` accepts group size -1, for which `AWQ::get_param_layout` allocates no zero points, so
  that the conversion throws after the weights and scales were replaced
  (`MarlinConvert.LayoutConvertsExactly`). For GPTQ it allocates no scales, and the conversion reports
  success (`MarlinConvert.GptqLayoutConverts`).

## Model

| member | source | states |
|---|---|---|
| TensorView.RowMajorStrides | src/tensor/tensor.cpp:16-27 | strides of a new tensor: stride i is the product of the sizes after i, and element number l lies at offset l |
| TensorView.IsContiguous | src/tensor/tensor.cpp:75-85 | true exactly for row-major strides; undefined for rank 0 |
| TensorView.MergeDims | src/tensor/tensor.cpp:307-324 | the merged form has the same size and addresses, and its interior boundaries are exactly the stride breaks of the tensor |
| TensorView.SplitDims | src/tensor/tensor.cpp:326-346 | succeeds exactly when every boundary of the merged form is a boundary of the new shape; then all addresses are kept, so no merged dimension is left part-consumed |
| TensorView.NothingAbandoned | src/tensor/tensor.cpp:332-344 | when all dimensions are consumed, the product of abandoned remainders is 1 |
| TensorView.MergedForm | src/tensor/tensor.cpp:307-324 | a row-major tensor merges into one dimension of stride 1; alignment of the breaks carries over to the merged form |
| TensorView.View | src/tensor/tensor.cpp:289-347 | Ok exactly when rank and sizes are positive, the element counts agree and every stride break is a boundary of the new shape; every linear index keeps its offset; on a row-major tensor it never fails for an equal count and the result is row-major |
| Shapes.RowMajorAddress | src/tensor/tensor.cpp:20-25 | under row-major strides the address of element l is l |
| Shapes.AddressIsOffset | src/tensor/tensor.cpp:20-25 | the address of a linear index is the offset of its row-major digits |
| TensorTransform.MergeKeepsAddresses | src/tensor/transform.cpp:42-67 | an allowed `dimMerge` keeps every element's address |
| TensorTransform.SplitKeepsAddresses | src/tensor/transform.cpp:80-100 | `dimSplit` keeps every element's address exactly when the split stride is not negative or the size is 1 |
| TensorTransform.NegativeSplitMisplaces | src/tensor/transform.cpp:88-91 | the unsigned division misplaces an element of a negatively strided dimension |
| TensorTransform.SplitThenMerge | src/tensor/transform.cpp:42-100 | merging the parts of a split is allowed and gives back shape and strides |
| TensorTransform.PermuteKeepsOffsets | src/tensor/transform.cpp:113-126 | a permuted index has the old offset and lies in the permuted box exactly when the index lies in the old one |
| TensorTransform.PermuteUndone | src/tensor/transform.cpp:113-126 | permuting by the inverse order restores shape and strides |
| Permutations.CoveringIsPermutation | src/tensor/transform.cpp:117-118 | the membership check alone makes `order` a permutation, and every permutation passes it |
| Permutations.SumReordered | csrc/layers/quantization/gptq.cpp:66-80 | a sum does not depend on the order of its terms |
| TensorTransform.TensorDesc.DimMerge | src/tensor/transform.cpp:42-67 | succeeds exactly on a contiguous range, which becomes one dimension of their product; keeps the other dimensions and all addresses; changes nothing on failure |
| TensorTransform.TensorDesc.DimSplit | src/tensor/transform.cpp:80-100 | succeeds exactly when the dimension exists and the parts multiply to its positive size; part i has size dims[i] and the other dimensions stay; while the span fits 63 bits, the stride of part i is that of the dimension times the parts behind it for non-negative strides, and addresses are kept exactly for these or size 1 |
| TensorTransform.TensorDesc.Permute | src/tensor/transform.cpp:113-126 | succeeds exactly for permutations of the right length, and then dimension i is the old dimension order[i]; reads outside the shape before the check are an error |
| TensorSlice.Slice | src/tensor/transform.cpp:7-24 | Ok exactly when every slice fits its dimension; shape and offset of the result |
| TensorSlice.OffsetAdds | src/tensor/transform.cpp:17-21 | index i of the slice is at the offset of index i plus the starts |
| TensorSlice.OwnSlice | src/tensor/transform.cpp:13-21 | a slice alone in its dimension gives it its start and length |
| TensorSlice.UntouchedDim | src/tensor/transform.cpp:9-21 | a dimension without a slice stays whole |
| TensorSlice.SliceInside | src/tensor/transform.cpp:13-18 | the slice stays inside the tensor exactly when the tensor is empty or total start plus last length fit in every dimension; always for distinct dimensions |
| TensorSlice.RepeatedDimLeaves | src/tensor/transform.cpp:13-18 | two slices of one dimension that pass the checks and leave the tensor |
| MemoryPool.PowerOfTwoTest | src/allocator/memory_allocator.cpp:6-9 | the bit test accepts exactly the powers of two |
| MemoryPool.AlignUpMasks | src/allocator/memory_allocator.cpp:27-28 | masking the low bits rounds up to the next multiple of the alignment |
| MemoryPool.MemoryPool.Create | src/allocator/memory_allocator.cpp:4-14 | refuses exactly the alignments that are no power of two |
| MemoryPool.MemoryPool.constructor | src/allocator/memory_allocator.cpp:4-14 | a new pool is valid, its index complete, its blocks tile the first region |
| MemoryPool.MemoryPool.AllocateNewRegion | src/allocator/memory_allocator.cpp:86-101 | one region of the requested size becomes one free indexed block |
| MemoryPool.MemoryPool.FindEntry | src/allocator/memory_allocator.cpp:30-38 | the smallest indexed block that fits, the oldest of equal ones, and a new region exactly when there is none, so the search cannot fail twice |
| MemoryPool.MemoryPool.TakeEntry | src/allocator/memory_allocator.cpp:40-62 | takes the block out, marks its first part busy, indexes a remainder of at least the alignment; index and pointers stay exact |
| MemoryPool.MemoryPool.Alloc | src/allocator/memory_allocator.cpp:22-65 | null exactly for size 0; otherwise a new busy block of the rounded size, all invariants kept |
| MemoryPool.MemoryPool.TryCoalesce | src/allocator/memory_allocator.cpp:103-135 | merges with the free neighbours that touch, erases every index entry of the merged sizes and indexes the result |
| MemoryPool.MemoryPool.Release | src/allocator/memory_allocator.cpp:67-84 | an error exactly for pointers not in use; the block is released and merged; invariants kept; the index stays complete exactly when no other free block has an erased size |
| PoolBlocks.OnlyTouching | src/allocator/memory_allocator.cpp:109-130 | the free neighbours that touch a block are the only ones, so the blocks found before the erasures are the ones that are merged |
| MemoryPool.ReindexedSound | src/allocator/memory_allocator.cpp:112-134 | after erasing by key every remaining entry still names a live free block of its size |
| MemoryPool.ReleaseResult | src/allocator/memory_allocator.cpp:112-134 | soundness after a release, and completeness exactly when no other block was erased from the index |
| MemoryPool.AllocatesKeeps | src/allocator/memory_allocator.cpp:22-65 | an allocation keeps well-formedness and tiling and adds one busy pointer |
| MemoryPool.TakenAgrees | src/allocator/memory_allocator.cpp:40-62 | taking an indexed block keeps nodes, index and pointer map in agreement, and a complete index complete |
| MemoryPool.ReleasedAgrees | src/allocator/memory_allocator.cpp:77-134 | so does a release, completeness excepted, which stays exactly when no other block has an erased size |
| MemoryPool.EntryErased | src/allocator/memory_allocator.cpp:114-114 | two regions apart, one free block and one in use of the same size: the release erases the free one's entry |
| MemoryPool.ForgetFreeBlock | src/allocator/memory_allocator.cpp:67-135 | calls on a new pool, with gaps between regions, after which a free block is not in the index |
| MemoryPool.LoseMemory | src/allocator/memory_allocator.cpp:22-135 | for every initial size that is no multiple of the alignment, calls on a new pool after which part of its memory is in no block; with gaps between regions if that size is above the alignment |
| PoolBlocks.AllocatedWellFormed | src/allocator/memory_allocator.cpp:40-62 | splitting keeps blocks disjoint, inside their regions and coalesced |
| PoolBlocks.AllocatedTiled | src/allocator/memory_allocator.cpp:48-62 | splitting loses no address when sizes are multiples of the alignment |
| PoolBlocks.GrownTiled | src/allocator/memory_allocator.cpp:86-101 | a new region keeps the tiling |
| PoolBlocks.ReleasedCoalesces | src/allocator/memory_allocator.cpp:109-134 | after a release no two touching blocks are both free, and the other blocks in use are as they were |
| PoolBlocks.ReleasedWellFormed | src/allocator/memory_allocator.cpp:67-135 | a release keeps blocks disjoint, owned and coalesced |
| PoolBlocks.ReleasedTiled | src/allocator/memory_allocator.cpp:67-135 | a release keeps the tiling |
| PoolBlocks.ReleaseUndoesAllocate | src/allocator/memory_allocator.cpp:40-84 | releasing what was just allocated restores all blocks |
| PoolBlocks.AllFreeIsWhole | src/allocator/memory_allocator.cpp:103-135 | with gaps between regions, all free means one whole block per region |
| PoolBlocks.DrainIsWhole | src/allocator/memory_allocator.cpp:67-135 | releasing all pointers in any order leaves one whole free block per region |
| PoolBlocks.ReachableKeeps | src/allocator/memory_allocator.cpp:22-135 | every reachable state is well formed, and tiles its regions when the initial size is a multiple of the alignment |
| PoolBlocks.LosingRun | src/allocator/memory_allocator.cpp:57-62 | a run of one step, or of three for sizes below the alignment, that loses memory, for every other initial size; above the alignment it needs no regions that touch |
| PoolBlocks.NothingLostExactly | src/allocator/memory_allocator.cpp:4-135 | no run loses memory exactly when the initial size is a multiple of the alignment |
| PoolBlocks.NothingLostGappedExactly | src/allocator/memory_allocator.cpp:4-135 | when no two regions touch, no run loses memory exactly when the initial size is a multiple of the alignment or below it |
| LruSpec.Conservation | src/cache_manager/opcache_manager.hpp:52-134 | as multisets, descriptors put = descriptors live + descriptors destroyed, and the size never exceeds the capacity |
| LruSpec.Recency | src/cache_manager/opcache_manager.hpp:63-134 | the list is ordered by last use and holds the last descriptor put for each key |
| LruSpec.EvictsLeastRecentlyUsed | src/cache_manager/opcache_manager.hpp:126-129 | the destroyed descriptor on eviction belongs to the key whose last use is oldest |
| LruSpec.HitReturnsLastPut | src/cache_manager/opcache_manager.hpp:101-111 | after any history a lookup finds something exactly when the key is live, and then what was last put under it |
| LruSpec.PutThenHit | src/cache_manager/opcache_manager.hpp:101-134 | a lookup right after a put finds what was put |
| LruSpec.NoneEvicted | src/cache_manager/opcache_manager.hpp:113-134 | while no more keys than the capacity have been put, exactly the keys ever put are live and only replaced descriptors have been destroyed |
| LruSpec.StepKeepsLive | src/cache_manager/opcache_manager.hpp:101-134 | which keys are live after a call: a put adds its key, and takes away the last item exactly when the key is new and there is no room |
| LruCache.LRUDescriptorCache.constructor | src/cache_manager/opcache_manager.hpp:85-91 | two linked sentinels represent the empty cache |
| LruCache.LRUDescriptorCache.Unlink | src/cache_manager/opcache_manager.hpp:53-54 | the two link updates remove exactly this node from the chain |
| LruCache.LRUDescriptorCache.LinkTop | src/cache_manager/opcache_manager.hpp:64-67 | the four link updates put the node first |
| LruCache.LRUDescriptorCache.RemoveNode | src/cache_manager/opcache_manager.hpp:52-61 | list, map and size lose this item and its descriptor is destroyed |
| LruCache.LRUDescriptorCache.AddToTop | src/cache_manager/opcache_manager.hpp:63-72 | the node becomes the most recent item; the capacity check cannot fire after `put` made room |
| LruCache.LRUDescriptorCache.MoveToTop | src/cache_manager/opcache_manager.hpp:74-81 | the item becomes the most recent, all others keep their order |
| LruCache.LRUDescriptorCache.Get | src/cache_manager/opcache_manager.hpp:101-111 | refines `Get` of the recency list; finds something exactly when the key is live, and then the descriptor of its item |
| LruCache.LRUDescriptorCache.Put | src/cache_manager/opcache_manager.hpp:113-134 | refines `Put` of the recency list: replace, evict or insert |
| LruCache.LRUDescriptorCache.Destroy | src/cache_manager/opcache_manager.hpp:93-99 | every live descriptor is destroyed and none is left |
| LruCache.LRUDescriptorCache.CallAll | src/cache_manager/opcache_manager.hpp:101-134 | a whole history of calls on a new cache ends in the recency list that the history gives |
| LruCache.RunAndDestroy | src/cache_manager/opcache_manager.hpp:85-134 | after a whole history and the destructor, the descriptors destroyed are, as a multiset, those ever put |
| LruCache.PutThenGet | src/cache_manager/opcache_manager.hpp:101-134 | on the linked list and map, a lookup right after a put returns the descriptor that was put |
| RankBarrier.Barrier.Arrive | csrc/engine/rank_barrier.cpp:6-17 | the critical section before the wait, in every state it can be called in: an arrival in lockstep keeps it, and the last one finds all others blocked in the generation that it ends |
| RankBarrier.ArriveKeepsLockstep | csrc/engine/rank_barrier.cpp:10-14 | an arrival keeps lockstep; the last one finds all others blocked |
| RankBarrier.RunsInLockstep | csrc/engine/rank_barrier.cpp:6-18 | over all interleavings below generation 2^31 no rank leaves before all have entered, saved generations lag by at most 1 and completed waits differ by at most 1 |
| RankBarrier.NarrowExactly | csrc/engine/rank_barrier.cpp:8-16 | the narrowed generation compares equal exactly below 2^31 and in the last 2^31 values |
| RankBarrier.LeavesAtOnceExactly | csrc/engine/rank_barrier.cpp:8-16 | a rank can leave with others outside exactly when the generation does not fit the narrow copy |
| RankBarrier.GenerationReached | csrc/engine/rank_barrier.cpp:10-14 | every generation up to 2^31 is reachable |
| RankBarrier.LockstepLost | csrc/engine/rank_barrier.cpp:8-16 | a run in which a rank returns from a wait that another has not entered |
| GraphCompile.RunsInStep | csrc/engine/compiler/general_compiler.cpp:9-12 | in every run each rank's place in its program matches the waits it has completed |
| GraphCompile.RecordedInTurn | csrc/engine/compiler/static_batching_compiler.cpp:31-38 | two recordings with a wait between them never overlap across ranks |
| GraphCompile.RecordingsDoNotOverlap | csrc/engine/compiler/paged_compiler.cpp:126-150 | no rank starts recording graph g+1 before every rank finished recording graph g |
| GraphCompile.WarmedUpBefore | csrc/engine/compiler/paged_compiler.cpp:112-126 | no rank starts its first recording before every rank has done its warm-up pass |
| GraphCompile.FinishedTogether | csrc/engine/compiler/paged_compiler.cpp:123-150 | no rank is through before every rank has finished recording every graph |
| GraphCompile.NeverStuck | csrc/engine/compiler/paged_compiler.cpp:126-150 | until all ranks finish, some rank can take a step |
| GraphCompile.StepsDecrease | csrc/engine/compiler/paged_compiler.cpp:126-150 | every step decreases what is left, so every compile ends |
| RankMailbox.RankWorker.SubmitJob | csrc/engine/rank_worker.cpp:176-204 | refused exactly when the worker is to exit; an idle worker then carries exactly this job, not yet run |
| RankMailbox.RankWorker.Round | csrc/engine/rank_worker.cpp:303-535 | a round that takes the job a worker carries leaves it executed once with its output stored, or the worker closing with the failure on record |
| RankMailbox.RunsKeepInv | csrc/engine/infer_engine.cpp:73-230 | in every run of calls, to all workers at once or one after another, each worker carries the current job, has delivered it or is closing, and no flag is left from an earlier call |
| RankMailbox.ReturnMeansDone | csrc/engine/infer_engine.cpp:206-217 | a call that returns normally found its job executed exactly once, with success, by every worker; forward returns the output computed from its input, every other call returns none |
| RankMailbox.RunsKeepOutputs | csrc/engine/infer_engine.cpp:206-217 | in every run, every forward call that has returned delivered the output computed from its own input |
| RankMailbox.BusyTogether | csrc/engine/infer_engine.cpp:206-257 | for two or more workers and each of forward, compile and cache reset, a run in which two workers execute the same job at once |
| RankMailbox.OneByOneAlone | csrc/engine/infer_engine.cpp:73-110 | while no worker is to exit, no two workers hold the same job of loading or preprocessing |
| RankMailbox.OneByOneOverlap | csrc/engine/infer_engine.cpp:73-78 | after an exception two workers can hold the same load: the end of an earlier forward job is taken for its completion |
| RankMailbox.WaitProgresses | csrc/engine/rank_worker.cpp:209-216 | in every run, while a call waits for a worker, the wait can wake or the worker's thread has a step of its own, and at most two such steps come before it can wake |
| RankMailbox.ClientProgresses | csrc/engine/infer_engine.cpp:73-230 | a client that waits for no worker has a step |
| RankMailbox.ExitIsFinal | csrc/engine/rank_worker.cpp:209-216 | once a worker is to exit it stays so and starts no job, and the call that turns to it throws |
| RankMailbox.ClosedForEver | csrc/engine/rank_worker.cpp:303-319 | from the moment a worker is to exit, in every run: it ends at most the job it was executing, and every call throws except one in progress that had already waited for it |
| RankMailbox.RunsKeepReturned | csrc/engine/infer_engine.cpp:206-230 | a job whose call has returned has ended once on every worker, with success, and never runs again |
| RankMailbox.FailureIsReported | csrc/engine/rank_worker.cpp:520-529 | in every run, a job that threw on some worker gets no reply but an exception |
| RankMailbox.StaleCompletion | csrc/engine/rank_worker.cpp:176-216 | a client that submits without waiting can take the first job's completion for the second's |
| RankMailbox.WaitBeforeFirstJob | csrc/engine/rank_worker.cpp:209-216 | a wait before any job wakes only by closing |
| InferTask.KVCache.Update | scripts/infer_task.py:50-59 | tokens that continue the history the mirror spells: afterwards it spells all of it, at its old length, with truncation on overflow |
| InferTask.TaskObject.BindKvcache | scripts/infer_task.py:14-17 | bound behind a prefix that the cache has in common with the prompt, the task is in step with the mirror |
| InferTask.TaskObject.Next | scripts/infer_task.py:27-36 | a task in step stays in step, with the answer added to the history, and needs one answer less, or it has ended: "stop" exactly on an empty answer or end token, else "length" exactly at the limit |
| InferTask.UpdateSpells | scripts/infer_task.py:50-59 | one update makes the mirror spell the history up to its end, keeps its length and leaves later entries alone |
| InferTask.StaysInStep | scripts/infer_task.py:27-59 | one answer keeps task and mirror in step |
| InferTask.RunMirrors | scripts/infer_task.py:27-59 | through any run the mirror keeps its length and its first min(pos, length) tokens spell prompt and generated tokens |
| InferTask.BindMirrors | scripts/kvcache_pool.py:35-42 | a task bound behind a matching prefix starts in step with the mirror |
| InferTask.EmptyPromptGrowsMirror | scripts/kvcache_pool.py:76-76 | an empty prompt with a limit that is not negative is bound at -1 and its mirror grows |
| InferTask.NegativeLimitEndsAtOnce | scripts/infer_task.py:27-36 | with a negative limit it ends at its first answer and its mirror is as it was |
| InferTask.LengthKeptExactly | scripts/infer_task.py:50-59 | a reused mirror keeps its length through every run exactly when the prompt is not empty or the limit is negative |
| InferTask.AnswersEnd | scripts/infer_task.py:27-36 | 1 + max(0, max_tokens - pos - tokens) answers end every task, whatever prompt and position it starts from |
| InferTask.ReasonExactly | scripts/infer_task.py:27-36 | over a whole run: "stop" exactly when an empty answer or end token is among the answers it needs, "length" exactly when it gets all of them and they are ordinary |
| InferTask.FewerDoNot | scripts/infer_task.py:27-36 | fewer ordinary answers never do |
| InferTask.EndsWithinLimitExactly | scripts/infer_task.py:27-36 | max(1, max_tokens - pos) answers end every run exactly when there are tokens to run or the limit is reached already |
| InferTask.EmptyPromptNeedsMore | scripts/infer_task.py:27-36 | an empty prompt that this many answers leave unfinished |
| InferTask.CommonPrefix | scripts/kvcache_pool.py:62-66 | the longest common prefix: equal up to it, different behind it |
| KvCachePool.CommonPrefixIs | scripts/kvcache_pool.py:62-66 | only one number is the length of the longest common prefix |
| KvCachePool.KVCachePool.FindMostMatchingCache | scripts/kvcache_pool.py:58-76 | the first idle cache with the longest common prefix; at least one prompt token is left to run exactly for a non-empty prompt |
| KvCachePool.KVCachePool.AcquireSync | scripts/kvcache_pool.py:18-42 | refuse on shutdown, create below the maximum, wait when exhausted, otherwise bind the best match |
| KvCachePool.KVCachePool.ReleaseSync | scripts/kvcache_pool.py:44-48 | the cache moves from its task to the end of the idle list, and every cache is still in exactly one place |
| KvCachePool.KVCachePool.EndFinalize | scripts/kvcache_pool.py:84-90 | every idle cache is dropped once and the pool is empty |
| KvCachePool.AcquireConserves | scripts/kvcache_pool.py:18-42 | acquiring keeps every cache in exactly one place |
| KvCachePool.ReleaseConserves | scripts/kvcache_pool.py:44-48 | so does releasing |
| KvCachePool.EndFinalizeConserves | scripts/kvcache_pool.py:78-90 | `finalize` ends only when nothing is bound, and then every cache ever created has been dropped |
| KvCachePool.RunsConserve | scripts/kvcache_pool.py:8-90 | over all interleavings idle + bound = count <= maximum, no cache in two places, dropped at most once |
| KvCachePool.ReuseStartsInStep | scripts/kvcache_pool.py:35-42 | a reused cache agrees with the prompt up to the bound position |
| KvCachePool.AcquireExactly | scripts/kvcache_pool.py:18-42 | refused exactly on shutdown; blocked exactly when all allowed caches are bound; a new cache exactly when none is idle and fewer exist |
| KvCachePool.BoundAtLongest | scripts/kvcache_pool.py:58-78 | no idle cache agrees with more of the prompt than the position that is bound, short of its last token |
| KvCachePool.ReleasedIsFound | scripts/kvcache_pool.py:35-48 | a prompt that continues what was just released is bound behind all of it |
| WorkerLoop.Loop.Put | scripts/launch_server.py:188-188 | the item stands in one place more, and everything that waits keeps its turn |
| WorkerLoop.Loop.Turn | scripts/launch_server.py:166-191 | one undisturbed pass: the batch is the tasks among the items taken, as many as there is room for; answer i goes to task i; the rest of the queue is followed by the unfinished tasks in order, the others are released in order |
| WorkerLoop.TurnIsSteps | scripts/launch_server.py:166-191 | such a pass is a run of steps of the loop alone |
| WorkerLoop.RunConserves | scripts/launch_server.py:166-191 | each submitted task is in exactly one of queue, batch and released, over all interleavings with submissions and cancellations |
| WorkerLoop.ServedWithinNeed | scripts/launch_server.py:184-191 | whatever tasks are submitted and however steps interleave, what a task was served and may still need never exceeds what it needed when submitted |
| WorkerLoop.ReleasedWithinNeed | scripts/launch_server.py:184-191 | a released task was submitted, and served at least once and at most 1 + max(0, max_tokens - pos - tokens) times |
| WorkerLoop.NeedsAll | scripts/launch_server.py:184-191 | a run in which a task is served exactly that often |
| WorkerLoop.ServedWithinLimitExactly | scripts/launch_server.py:184-191 | every release comes within max(1, max_tokens - pos) answers exactly when the task has tokens to run or is at its limit |
| WorkerLoop.EmptyPromptServedTwice | scripts/launch_server.py:184-191 | an empty prompt with max_tokens 1 that is served twice |
| WorkerLoop.CancelMarks | scripts/launch_server.py:250-251 | cancelling gives exactly the waiting tasks with this identifier that have not ended a reason to end |
| WorkerLoop.CancelledServedOnceMore | scripts/launch_server.py:184-191 | in every run, a cancelled task whose identifier is not submitted again is answered at most once more |
| WorkerLoop.AlwaysBegun | scripts/launch_server.py:176-181 | in every run a batch that is being filled has at least one task and no more than its room |
| WorkerLoop.RunFollows | scripts/launch_server.py:169-183 | from every such state: what waited stays in order, and every batch filled while any of it waits took all it had room for, counting what was in the batch already |
| WorkerLoop.ServedInTurn | scripts/launch_server.py:166-191 | the item at position p is taken by the time floor((p + b) / room) + 1 more batches are filled, for the b tasks of a batch that is being filled and the room max(1, MAX_BATCH) |
| WorkerLoop.MidFillWaitsLonger | scripts/launch_server.py:176-183 | a task put while a batch is being filled, for which floor(p / room) + 1 batches are not enough |
| WorkerLoop.ReleasedInTurn | scripts/launch_server.py:166-191 | without further submissions a task that needs k answers is released within (k - 1) cycles of floor((n - 1) / room) + 1 batches after its first turn, n being the number of tasks, however many answers the others need |
| WorkerLoop.AllReleased | scripts/launch_server.py:166-191 | without further submissions the loop has released every task, and rests, after a number of steps computed from the answers needed |
| WorkerLoop.RunExact | scripts/launch_server.py:176-183 | up to the first sentinel every batch takes exactly what it has room for, counting what was in it already |
| WorkerLoop.SentinelStopsExactly | scripts/launch_server.py:173-181 | the sentinel stops the loop exactly when the items ahead of it, with those of a batch that is being filled, make whole batches |
| WorkerLoop.MidFillSentinelDropped | scripts/launch_server.py:176-181 | a sentinel that comes while a batch is being filled, with nothing ahead of it in the queue, is dropped |
| WorkerLoop.NeverStops | scripts/launch_server.py:150-155 | after the only sentinel was dropped the loop never ends |
| WorkerLoop.SentinelDropped | scripts/launch_server.py:176-181 | one task, then the sentinel, with a batch size of 4: the sentinel is dropped and the loop never ends |
| PagedGenerate.RangeIs | python/infinilm/infer_engine.py:534-543 | length and elements of the stepped range |
| PagedGenerate.OneSlotEach | python/infinilm/infer_engine.py:534-543 | the decode range has one element per request exactly when the position is inside a request's slots |
| PagedGenerate.ReservedIsEnough | python/infinilm/infer_engine.py:495-499 | the reserved slots hold prompt and new tokens, with less than one block to spare |
| PagedGenerate.BlockTables | python/infinilm/infer_engine.py:501-504 | row b holds the blocks b * max_blocks onwards |
| PagedGenerate.OneCall | python/infinilm/infer_engine.py:517-543 | positions and slots of one iteration: request b's next tokens into its own slots |
| PagedGenerate.Generate | python/infinilm/infer_engine.py:453-618 | every iteration's arguments, what is fed to it, and where the run ends: at the limit or after the first end token of a single request; the first call is given the prompts request by request; an error exactly without a token limit |
| PagedGenerate.WritesOwnTokens | python/infinilm/infer_engine.py:511-618 | when every answer has one token per request: as many inputs as slots, and what is written for position i of request b is that request's token i, of its prompt or of the answers |
| PagedGenerate.ReadsOwnTokens | python/infinilm/infer_engine.py:495-618 | the slot that the block table gives for position i of request b was written with that request's token i, not later than it is read |
| PagedGenerate.NoSlotTwice | python/infinilm/infer_engine.py:511-618 | no slot is written twice in the run |
| PagedGenerate.WrittenExactly | python/infinilm/infer_engine.py:511-618 | after n iterations exactly the slots b * S + i of all handled positions i are written |
| PagedGenerate.ReadsOwnPositions | python/infinilm/infer_engine.py:495-543 | the slot the block table gives for a position was written by exactly that request and position, not later than it is read |
| GraphInputs.DecodeBatchSizes | csrc/engine/compiler/paged_compiler.cpp:27-40 | exactly the supported sizes, in increasing order, 512 the largest |
| GraphInputs.GraphInput.RefreshTable | csrc/engine/compiler/paged_compiler.cpp:183-184 | the graph's rows equal the runtime table padded with -1; the rest of the shared buffer is untouched |
| GraphInputs.GraphInput.Refresh | csrc/engine/compiler/paged_compiler.cpp:167-196 | refused exactly when the table is too wide or state indices do not agree, an error exactly when a copy meets another length; otherwise every buffer holds the runtime input |
| GraphInputs.PagedCompiler.Compile | csrc/engine/compiler/paged_compiler.cpp:43-152 | one new graph for each supported size, all with tables in one new buffer |
| GraphInputs.PagedCompiler.GetCompiled | csrc/engine/compiler/paged_compiler.cpp:154-213 | when a graph is returned and when a copy throws; the inputs of a returned graph are those of this call whatever ran before |
| GraphInputs.AtLeastOneEach | csrc/engine/compiler/paged_compiler.cpp:156-161 | with a token for each request, batch size = token count exactly when every request has one token |
| GraphInputs.EmptyRequestPassesTest | csrc/engine/compiler/paged_compiler.cpp:159-161 | without that, the test lets a prefill through |
| DynamicLayer.GrowthIsAmortised | python/infinilm/cache_utils.py:58-120 | capacity <= max(max_position_embeddings, 2 * length, first length), all regrowth together copies at most the final capacity, and buffers are full only right after an input of at least half of everything |
| DynamicLayer.TotalWork | python/infinilm/cache_utils.py:77-99 | writes and copies of a whole history are linear in its length |
| DynamicLayer.DynamicLayer.LazyInitialization | python/infinilm/cache_utils.py:58-99 | room for the new positions without changing the contents |
| DynamicLayer.DynamicLayer.Update | python/infinilm/cache_utils.py:101-120 | keys and values are appended; slices handed out earlier keep their contents |
| DynamicLayer.UpdateAll | python/infinilm/cache_utils.py:101-120 | after any sequence of updates the contents are the concatenation of all inputs |
| BitFields.PutField | csrc/layers/quantization/marlin_utils.cpp:194-199 | or-ing a shifted value into a word adds one field above those that are there |
| BitFields.FieldOfAssembled | csrc/layers/quantization/marlin_utils.cpp:174-203 | reading a field gives back what was packed |
| BitFields.AssembledFields | csrc/layers/quantization/marlin_utils.cpp:174-203 | packing the fields of a word gives the word |
| MarlinTiles.PackRepackValues | csrc/layers/quantization/marlin_utils.cpp:214-231 | each field of the word holds the value that the fixed order names |
| MarlinTiles.InTileThere | csrc/layers/quantization/marlin_utils.cpp:268-287 | the word and field of a tile position come from that position |
| MarlinTiles.InTileBack | csrc/layers/quantization/marlin_utils.cpp:268-287 | the position a word and field come from goes to that word and field |
| MarlinTiles.PlacedOnce | csrc/layers/quantization/marlin_utils.cpp:255-292 | every matrix entry has one word and field, and they come from it |
| MarlinTiles.FilledOnce | csrc/layers/quantization/marlin_utils.cpp:255-292 | every field of every output word comes from one entry, and is the field of that entry |
| MarlinTiles.ThreadValues | csrc/layers/quantization/marlin_utils.cpp:270-279 | the eight values of a thread and where they are read |
| MarlinTiles.RepackToMarlinTiles | csrc/layers/quantization/marlin_utils.cpp:255-292 | the output has exactly the words of the matrix, and every field holds the entry it comes from |
| MarlinTiles.DecodesTo | csrc/layers/quantization/marlin_utils.cpp:255-292 | decoding its field gives every entry back |
| MarlinTiles.RepackedExactly | csrc/layers/quantization/marlin_utils.cpp:255-292 | two repacked matrices are equal exactly when all entries are |
| MarlinTiles.AwqMarlinRepack | csrc/layers/quantization/marlin_utils.cpp:314-334 | an error exactly for wrong shapes; the result of the host loops, and of a device kernel that agrees with them, decodes to what `awq_value` reads |
| MarlinTiles.GptqMarlinRepack | csrc/layers/quantization/marlin_utils.cpp:336-371 | an error exactly for wrong shapes and, on the host, for rows read outside the matrix; the result of the host loops, and of a device kernel that agrees with them, decodes to what `gptq_value` reads through the permutation |
| MarlinTiles.AwqReads | csrc/layers/quantization/marlin_utils.cpp:233-243 | `awq_value` reads inside the matrix and gives a value of the field width |
| MarlinTiles.GptqReads | csrc/layers/quantization/marlin_utils.cpp:245-252 | `gptq_value` reads inside the matrix and gives a value of the field width |
| MarlinTiles.AwqValueReadsBack | csrc/layers/quantization/marlin_utils.cpp:233-243 | `awq_value` gives back what was packed with even columns first |
| MarlinTiles.GptqValueReadsBack | csrc/layers/quantization/marlin_utils.cpp:245-252 | `gptq_value` gives back what was packed row after row |
| MarlinTiles.OrdersDeal | csrc/layers/quantization/marlin_utils.cpp:214-243 | the two fixed orders in closed form |
| MarlinColumns.ScalePerm | csrc/layers/quantization/marlin_utils.cpp:138-147 | the loops build the 8 x 8 transposition |
| MarlinColumns.ScalePermSingle | csrc/layers/quantization/marlin_utils.cpp:149-158 | the loops build the 32-element order |
| MarlinColumns.ScaleBlockUndone | csrc/layers/quantization/marlin_utils.cpp:138-147 | the transposition undoes itself |
| MarlinColumns.SingleBlockUndone | csrc/layers/quantization/marlin_utils.cpp:149-158 | the 32-element order is a permutation, with its inverse |
| MarlinColumns.InterleaveUndone | csrc/layers/quantization/marlin_utils.cpp:423-444 | interleave and undo_interleave are inverse to each other |
| MarlinColumns.PermuteBlocks | csrc/layers/quantization/marlin_utils.cpp:404-411 | the loops permute every block |
| MarlinColumns.StaysInRow | csrc/layers/quantization/marlin_utils.cpp:404-411 | in a matrix of whole blocks nothing crosses a row |
| MarlinColumns.PermuteScales | csrc/layers/quantization/marlin_utils.cpp:393-413 | an error exactly when the count is no multiple of the block; otherwise the scale at x comes from 64 (x / 64) + x % 64 / 8 + 8 (x % 8) for groups smaller than the rows, and from 32 (x / 32) + 2 (x % 32 / 8) + 8 (x % 8 / 2) + x % 2 for one group |
| MarlinColumns.SourceOfScale | csrc/layers/quantization/marlin_utils.cpp:138-158 | both orders in this closed form |
| MarlinColumns.PermuteBias | csrc/layers/quantization/marlin_utils.cpp:456-474 | an error exactly when the count is no multiple of 32; otherwise the bias in the order for one group |
| MarlinColumns.ScalesKept | csrc/layers/quantization/marlin_utils.cpp:393-413 | every scale stays in its row, in a known column, and the inverse order restores all |
| MarlinColumns.UnpackCols | csrc/layers/quantization/marlin_utils.cpp:173-187 | the fields of all words, in order |
| MarlinColumns.PackCols | csrc/layers/quantization/marlin_utils.cpp:189-203 | the words with these fields |
| MarlinColumns.UnpackPacked | csrc/layers/quantization/marlin_utils.cpp:173-203 | unpacking what was packed gives the values |
| MarlinColumns.PackUnpacked | csrc/layers/quantization/marlin_utils.cpp:173-203 | packing what was unpacked gives the words |
| MarlinColumns.ZeroPointsUndone | csrc/layers/quantization/marlin_utils.cpp:415-454 | the zero-point conversion is its own inverse |
| MarlinColumns.ColumnsAreAwqValues | csrc/layers/quantization/marlin_utils.cpp:422-430 | the un-interleaved stage holds at (r, c) what `awq_value` reads there |
| MarlinColumns.ZeroPointAt | csrc/layers/quantization/marlin_utils.cpp:432-452 | where each converted zero point comes from, in its own row |
| MarlinColumns.ZeroColumnIs | csrc/layers/quantization/marlin_utils.cpp:415-454 | the zero point at position c comes from the column of the grouped scale at 8 (c / 8) + 2 (c % 4) + c % 8 / 4 |
| MarlinColumns.AwqToMarlinZeroPoints | csrc/layers/quantization/marlin_utils.cpp:415-454 | an error exactly for a wrong shape or count; otherwise the pipeline's result |
| ActOrder.StableOrderSorts | csrc/layers/quantization/marlin_utils.cpp:378-382 | a stable order exists for every group vector |
| ActOrder.OnlyOneOrder | csrc/layers/quantization/marlin_utils.cpp:378-382 | it is the only one, so any stable sort finds it |
| ActOrder.SortGIdx | csrc/layers/quantization/marlin_utils.cpp:373-391 | indices are the stable permutation, and sorted[i] = g_idx[indices[i]] does not decrease |
| ActOrder.RowPaired | csrc/layers/quantization/gptq.cpp:66-80 | a repacked row decodes to the weights of the row whose group stands beside it |
| ActOrder.ColumnSumKept | csrc/layers/quantization/gptq.cpp:66-80 | every column's sum of input times restored weight is unchanged when the input is read through the permutation |
| MarlinConvert.SupportedSizes | csrc/layers/quantization/marlin_utils.cpp:296-304 | a supported shape passes every later size check |
| MarlinConvert.SupportedExactly | csrc/layers/quantization/marlin_utils.cpp:296-304 | the guard in full; its division of the inputs by the group size never decides |
| MarlinConvert.OneColumnOrderExactly | csrc/layers/quantization/awq.cpp:77-91 | every AWQ zero point comes from the same column as the scale for its position exactly when the group size is neither -1 nor the number of rows |
| MarlinConvert.SupportedStaysInRow | csrc/layers/quantization/marlin_utils.cpp:296-304 | for a supported shape every permuted scale and zero point comes from a known column of its own row |
| MarlinConvert.LayoutConvertsExactly | csrc/layers/quantization/awq.cpp:10-92 | a layer allocated by `get_param_layout` and accepted by the guard converts exactly when the group size is not -1 |
| MarlinConvert.AwqFailsHalfway | csrc/layers/quantization/awq.cpp:77-91 | a layer of 128 inputs and 64 outputs with group size -1 that fails after weights and scales were replaced |
| MarlinConvert.GptqLayoutConverts | csrc/layers/quantization/gptq.cpp:9-94 | every supported GPTQ layer as allocated is reported as converted; it has no scales exactly for group size -1 or no outputs |
| MarlinConvert.GptqWithoutScales | csrc/layers/quantization/gptq.cpp:23-89 | the same layer in GPTQ, converted without a scale |
| MarlinConvert.AwqLayer.ProcessWeightsAfterLoading | csrc/layers/quantization/awq.cpp:55-97 | the verdict from the loaded shapes and the state after every outcome, part conversion included: weights as the device kernel returns them, which decode to the loaded ones if the kernel agrees with the host loops |
| MarlinConvert.GptqLayer.ProcessWeightsAfterLoading | csrc/layers/quantization/gptq.cpp:43-94 | the verdict from the loaded shapes and the state after every outcome; with act-order, and a device kernel that agrees with the host loops, the stored permutation, groups and weights belong together |

## Left out

- Device calls, streams, asynchronous copies, descriptors and collective communication: a device allocation returns a new region that overlaps no other, and a recorded graph is one step.
- What the GPU repacking kernels behind `awq_marlin_repack` and `gptq_marlin_repack` compute, which is not part of the repository's sources; the host loops beside them are modelled.
- Floating-point kernels: restoring a weight is an arbitrary function to the reals.
- Integer overflow of tensor sizes, of `size + alignment - 1`, and of the `int` accumulators in `dimMerge` and `dimSplit`: sizes are unbounded, except in the split stride, the barrier generation, the packed words and the row count of a layout, where the machine width is modelled.
- TensorView.View: does not model the result for zero sizes other than failure, because every zero size that reaches the split divides by zero there.
- Tensor data types, byte offsets and `dsize`: offsets are counted in elements.
- KvCachePool.KVCachePool.AcquireSync: models one pass of the waiting loop; that a waiting thread is eventually woken is not modelled, because `release_sync` wakes only one waiter.
- KvCachePool.RunsConserve: caches are values with an identity, so sharing one mirror object between tasks is not captured; that reused entries were computed on the device under the matched prefix does not follow from the code and is not claimed.
- WorkerLoop.Loop.Turn: stands for a pass that no other thread disturbs; disturbed passes are covered by the steps of the transition system. Tasks left in the queue when the loop returns keep their caches.
- LruCache.LRUDescriptorCache.constructor: asks for a capacity of at least 1, because with capacity 0 the first `put` unlinks a sentinel.
- LruCache.LRUDescriptorCache.Put: a missing destroyer is not modelled; every constructor installs one.
- RankMailbox.RunsKeepInv: one client submits and waits, as the engine does; model construction before the first job and the payload of load commands are left out, and so is the asynchronous `load_params`, in which several client threads each talk to one worker.
- GraphCompile.RunsInStep: a graph compile that throws is left out, because then the other ranks wait for ever.
- PagedGenerate.Generate: the unpaged cache, state-space caches and image inputs are left out; the model's answers are a parameter.
- GraphInputs.GraphInput.Refresh: that a copy between tensors of different lengths throws is taken from the tensor library, which is not part of this model; shapes are modelled as lengths.
- DynamicLayer.DynamicLayer.Update: one element stands for all of a position's heads and batch rows.
- MarlinConvert.AwqLayer.ProcessWeightsAfterLoading: the device kernel is a parameter; that it agrees with the host loops is a hypothesis of what is stated of the weights.
- MarlinConvert.GptqLayer.ProcessWeightsAfterLoading: the same.
- MarlinColumns.UnpackCols: asks for whole words in a row, as its only caller has after the shape guard.
- MarlinColumns.PackCols: the same, and for values of the field width, which is what its only caller unpacked.
- ActOrder.SortGIdx: `std::stable_sort` is taken by its definition, which determines its result.
- MarlinColumns.AwqToMarlinZeroPoints: asks for whole words in a row, which the shape guard ensures.
- The QY conversion, other quantisation schemes, `createWithOrder`, layer splitting for tensor parallelism, configuration, HTTP handling and tokenisation: plumbing or easy by comparison.
