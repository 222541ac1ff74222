# A model of the paged KV cache and of the attention kernels

Two parts of the repository carry its correctness, and both are modelled here in Dafny and proved.

**The paged KV cache.** `BlockSpaceManager` hands out fixed-size blocks of two pools (GPU and CPU) to
sequences, shares blocks between forked sequences by counting references, copies a shared block before it
is written, and moves whole groups between the pools. `BlockManager.dfy` has the program's objects: blocks
that are aliased from many tables, two allocators whose free lists change in place, and the manager with its
loops. Every method is proved to compute a function of `BlockState.dfy` on the abstract state. About those
functions the other files prove what the manager is for: exact reference counts and conservation
(`RefCounts`, `Allocation`, `Sharing`), admission answers that the operations honour and that are no stricter
than they need (`Allocation`, `Swapping`, `Appending`, `Admission`, `Scheduling`), and, over any run of admitted operations, that every sequence reads
through its block table exactly the history of tokens it was given (`PagedMemory`). `Rounds` and `Steps`
defer the copies, of one round and of a whole scheduling step, to where the worker makes them; `StepCopies`
counts the copies of a step; `SlidingWindow` is about appending and freeing with a window. `SwapBlocks` has the
copy loop that carries out a swap, `LogicalBlocks` the sequence's own blocks, `Evictor` the
least-recently-used evictor.

**The attention kernels.** `FlashKernel.dfy` has the forward kernel: the range of key blocks of a tile of
queries, the two loops over them of which only the first masks, the early exit and the write-back;
`SoftmaxKernel.dfy` has the softmax object that both loops update in place; `SplitKV.dfy` has the split
kernel and the kernel that merges the splits. All are proved to leave, in every row, the plain masked
softmax and its log-sum-exp (`OnlineSoftmax`, `Combine`), for every shape the launch code can pick; what
that is, `PlainAttention` says by the formula alone.
`Tiling` says which blocks may be skipped and which may go unmasked, `Windows` how requested attention
windows become kernel parameters, `Lanes`, `CombineLanes` and `Allreduce` how a row is spread over lanes,
`SplitHeuristic` how many splits there are. `PagedAddress` joins the two parts: the address that a kernel
thread computes from a block table holds the token of that sequence's own history, whatever the manager has
shared, copied or moved.

Numbers in the kernels are reals with the two infinities and NaN (`Floats`), without rounding. The
exponential and the logarithm are parameters with their laws as hypotheses (`Lawful`): `exp2` turns sums
into products, is positive and monotone, and `ln` inverts `exp`. Index arithmetic is exact, with C's
truncating division. In the block manager, counts and block numbers are unbounded naturals.

## What was found

- The scheduler keeps the copy-on-write pairs of a scheduling step in a map keyed by the source block
  (`backends/vllm/src/scheduler.rs:1683-1709`). Two sequences that leave the same shared block in one step
  need two copies out of it, and the map keeps one. `Appending.RoundMapKeepsCopies` and
  `StepCopies.StepMapKeepsCopies` say exactly when no copy is lost; `Scheduling.SharedPromptLosesCopy` says
  that one is lost whenever three or more sequences share a prompt whose last block is not full and two of
  them append; `Scheduling.CopyLost` is that with three sequences in a fresh pool of five blocks.
- With a sliding window, `free_block_table` (`backends/vllm/src/block_manager.rs:800-833`) releases the part
  of a table past the window, not the last window of it. `SlidingWindow.FreeRestores` shows that a group
  comes back whole if and only if it has at least twice as many blocks as the window; with fewer blocks than
  the window freeing panics. `SlidingWindow.BlockLeaked` is a sequence of three blocks and a window of two.
  Copy-on-write in a windowed table replaces one entry of several (`SlidingWindow.AppendPastWindow`).
- A window of zero blocks, which the manager accepts, makes every allocation of a block panic after a
  positive verdict (`Allocation.AllocateMeetsVerdict`).
- Window normalisation (`csrc/src/lib.rs:188-229`) drops a right bound larger than the longest key sequence
  and fills in a missing one with it. Both change which keys are attended to when there are more queries
  than keys; `Windows.WindowsKeepMeaning` gives the exact condition, `Windows.WindowChanged` an example.
- The unsplit kernel's comment says its early exit covers an empty key sequence. `Tiling.EarlyExitCovers`
  shows that it does not for an unmasked problem of whole tiles, `Tiling.EarlyExitMisses` gives one, and
  `FlashKernel.FlashForward` says what the rows hold then.
- A thread whose slice lies past the last page of a short block table looks up an entry that the table does
  not have (`csrc/kernels/utils.h:307-311`). `PagedAddress.LookupsInTableExactly` says when no thread does,
  `PagedAddress.ShortTableOverrun` is one that does.
- In the even causal case the number of masked blocks is enough for some tile shapes only;
  `Tiling.MaskSkippedExactly` says for which. All shapes that the launch code uses are among them
  (`Tiling.BuiltTilesAligned`).
- The admission test for swapping in counts two blocks of the same number on different devices as one. For a
  group with members on both devices the room it finds may not be enough for a round of the whole group
  (`Scheduling.SwapInLeavesRoom`, `Scheduling.MixedGroupLacksRoom`).

## Model

| member | source | states |
|---|---|---|
| BlockManager.PhysicalTokenBlock.DecreaseRefCount | backends/vllm/src/block.rs:247-257 | the count goes down by one, and a zero count is an error that changes nothing |
| BlockManager.BlockAllocator.constructor | backends/vllm/src/block_allocator.rs:29-45 | a pool of distinct blocks, all free, in number order |
| BlockManager.BlockAllocator.Allocate | backends/vllm/src/block_allocator.rs:59-67 | takes the last free block with count one, or reports an empty pool |
| BlockManager.BlockAllocator.Free | backends/vllm/src/block_allocator.rs:89-109 | lowers the count, puts the block back at zero, and refuses a double free |
| BlockManager.BlockSpaceManager.constructor | backends/vllm/src/block_manager.rs:55-86 | the initial state: all blocks free, no tables |
| BlockManager.BlockSpaceManager.CanAllocate | backends/vllm/src/block_manager.rs:123-145 | the verdict that the allocation lemmas are about, with or without a window |
| BlockManager.BlockSpaceManager.Allocate | backends/vllm/src/block_manager.rs:195-237 | the loop over logical blocks and the shared table of the waiting sequences refine the allocation of the abstract state, error states included |
| BlockManager.BlockSpaceManager.CanAppendSlots | backends/vllm/src/block_manager.rs:254-260 | one free GPU block for every running sequence |
| BlockManager.BlockSpaceManager.AppendSlots | backends/vllm/src/block_manager.rs:294-377 | pushing, reusing or copying the last block refines the abstract append, with the same copy pair and errors |
| BlockManager.BlockSpaceManager.Fork | backends/vllm/src/block_manager.rs:408-446 | sharing the parent's table and raising each distinct block's count once refines the abstract fork |
| BlockManager.BlockSpaceManager.GetPhysicalBlocks | backends/vllm/src/block_manager.rs:465-492 | the first block of every number held by an unfinished sequence of the group |
| BlockManager.BlockSpaceManager.CanSwapIn | backends/vllm/src/block_manager.rs:522-545 | the three-way verdict against pool size and free blocks |
| BlockManager.BlockSpaceManager.SwapIn | backends/vllm/src/block_manager.rs:585-642 | moving table after table into the GPU pool refines the abstract swap, with the same number mapping, statuses and errors |
| BlockManager.BlockSpaceManager.CanSwapOut | backends/vllm/src/block_manager.rs:667-674 | as many free CPU blocks as the group holds |
| BlockManager.BlockSpaceManager.SwapOut | backends/vllm/src/block_manager.rs:720-776 | the same towards the CPU pool |
| BlockManager.BlockSpaceManager.FreeBlockTable | backends/vllm/src/block_manager.rs:800-833 | every distinct block of a table is released once to the pool it belongs to |
| BlockManager.BlockSpaceManager.Free | backends/vllm/src/block_manager.rs:870-891 | frees and forgets a table; an unknown sequence changes nothing |
| BlockManager.BlockSpaceManager.Reset | backends/vllm/src/block_manager.rs:918-926 | frees all tables in some order, which is returned as a ghost |
| RefCounts.InitialInv | backends/vllm/src/block_manager.rs:55-86 | the fresh manager has exact counts and consistent pools |
| RefCounts.Conservation | backends/vllm/src/block_allocator.rs:59-109 | free blocks and counted blocks of a device add up to its pool |
| RefCounts.TakeUndoesRelease | backends/vllm/src/block_allocator.rs:59-109 | the block that was released last is the next one taken, which restores the state |
| RefCounts.ReleaseUndoesTake | backends/vllm/src/block_allocator.rs:59-109 | releasing a block that was just taken restores the state |
| Allocation.AllocateMeetsVerdict | backends/vllm/src/block_manager.rs:123-237 | allocation succeeds if and only if the verdict is Ok, except that a window of zero panics on any block; success takes exactly min(L, window) GPU blocks into a round-robin table of blocks that were free |
| Allocation.AllocateLoopExact | backends/vllm/src/block_manager.rs:203-222 | the allocation loop succeeds exactly when the free list covers what it needs, and otherwise has emptied it; with a window of zero it panics at the first block |
| Allocation.FirstIsMember | backends/vllm/src/sequence.rs:1783-1797 | the number of blocks asked for is that of the first waiting member |
| Allocation.SharedPromptAllocated | backends/vllm/src/block_manager.rs:123-237 | for waiting members that all need n blocks, verdict and success compare min(n, window) with the free list and the pool, and exactly these members get one table of n entries; a failed allocation has used up the free list |
| Allocation.AllocateKeepsInv | backends/vllm/src/block_manager.rs:195-237 | allocation keeps counts exact and pools consistent, and its blocks were in no table before |
| Sharing.NeverIsFinal | backends/vllm/src/block_manager.rs:123-145 | a group refused for good is refused in every other reachable state |
| Sharing.LaterComes | backends/vllm/src/block_manager.rs:123-145 | a group told to wait fits once all tables are freed |
| Sharing.ForkKeepsInv | backends/vllm/src/block_manager.rs:408-446 | forking to a fresh child cannot fail, takes no block, keeps counts exact and raises each of the parent's blocks by one |
| Sharing.FreeKeepsInv | backends/vllm/src/block_manager.rs:800-891 | freeing cannot fail from a reachable state, keeps counts exact, and a second free changes nothing |
| Sharing.ForkThenFree | backends/vllm/src/block_manager.rs:408-891 | forking and freeing the child restores every table, every count and both free lists exactly |
| Sharing.ResetRestores | backends/vllm/src/block_manager.rs:918-926 | in whatever order the tables are visited, reset refills both pools completely |
| Sharing.ResetIsFreeAll | backends/vllm/src/block_manager.rs:918-926 | with any window, reset fails where freeing every sequence fails, and leaves the same counts and free lists |
| SlidingWindow.FreeRestores | backends/vllm/src/block_manager.rs:203-833 | what was allocated with a window comes back whole if and only if it has at least twice the window of blocks; below one window freeing panics, in between exactly the blocks not past the window stay counted |
| SlidingWindow.BlockLeaked | backends/vllm/src/block_manager.rs:807-811 | three blocks in a fresh pool with a window of two: one is never given back |
| SlidingWindow.AllocateCounts | backends/vllm/src/block_manager.rs:195-237 | after allocation with a window, counts still are the number of tables that hold the block |
| SlidingWindow.ForkCounts | backends/vllm/src/block_manager.rs:408-446 | forking keeps that, however often the table repeats a block |
| SlidingWindow.AppendPastWindow | backends/vllm/src/block_manager.rs:318-377 | past the window the round-robin entry is reused without taking a block if it is private; if it is shared its copy is appended, and exactly then the table stops repeating itself |
| SlidingWindow.AppendInWindow | backends/vllm/src/block_manager.rs:318-377 | inside the window it makes no difference |
| SlidingWindow.AppendRefused | backends/vllm/src/block_manager.rs:294-335 | which requests are refused, with which error, and that they change nothing |
| Appending.AppendExact | backends/vllm/src/block_manager.rs:294-377 | after an append the last block is held by this sequence alone; it is the old one, a new one, or a new copy of a shared one, and one GPU block at most is taken |
| Appending.RoundExact | backends/vllm/src/block_manager.rs:254-377 | one positive answer is enough for a whole round: every running sequence gets its slot from at most one block each, with distinct copy targets that are no sources |
| Appending.RoundSources | backends/vllm/src/block_manager.rs:340-377 | how many copies a round makes out of each shared block: one for every writer, less one if all holders write |
| Appending.RoundMapKeepsCopies | backends/vllm/src/scheduler.rs:1683-1709 | the scheduler's map has all copies if and only if no block of three or more holders has two or more writers in the round |
| Appending.CopyMapLast | backends/vllm/src/scheduler.rs:1683-1709 | of several copies out of one block the map has the one inserted last |
| Scheduling.SharedPromptLosesCopy | backends/vllm/src/scheduler.rs:1683-1709 | three sequences that share a prompt with a partial last block, two of which append: the map lacks a copy |
| Scheduling.CopyLost | backends/vllm/src/scheduler.rs:1683-1709 | three sequences of one block in a fresh pool of five, two of which append: admitted throughout, and a copy is lost |
| Scheduling.SwapInLeavesRoom | backends/vllm/src/block_manager.rs:522-545 | an admitted swap-in leaves room for the next token of every sequence that came back; for the whole group, running members included, if and only if the free blocks cover the moved blocks and one more per member |
| Scheduling.MixedGroupLacksRoom | backends/vllm/src/block_manager.rs:522-545 | a consistent state and a group on both devices for which the admitted swap-in leaves too little |
| Scheduling.SwapInThenRound | backends/vllm/src/block_manager.rs:294-642 | with that much room the round of appends that follows succeeds for the whole group |
| Swapping.AdmissionCounts | backends/vllm/src/block_manager.rs:465-545 | the blocks counted for admission are at least the blocks a swap has to move |
| Swapping.MoveGroupExact | backends/vllm/src/block_manager.rs:585-776 | with enough free blocks a move meets no empty pool and no double free, and every table becomes its image under one injective mapping |
| Swapping.SwapOutAdmitted | backends/vllm/src/block_manager.rs:667-776 | an admitted swap-out succeeds; the mapping is injective with exactly the running sequences' GPU blocks as keys, tables are renumbered by it, and blocks no table holds are free again |
| Swapping.SwapInAdmitted | backends/vllm/src/block_manager.rs:522-642 | the same for swap-in, which also leaves a free GPU block for every sequence swapped in |
| Swapping.StatusesSet | backends/vllm/src/scheduler.rs:1976-2050 | exactly the members that were moved change their status |
| Admission.SwapSucceedsExactly | backends/vllm/src/block_manager.rs:585-776 | a swap succeeds if and only if there is a free block for every block number to be moved; otherwise it runs out of memory |
| Admission.SwapStopsClean | backends/vllm/src/block_manager.rs:585-776 | where a swap stops, even halfway, a member has the new status and its table in the new pool, or the old status and its old table |
| Admission.CanSwapOutExact | backends/vllm/src/block_manager.rs:667-776 | for a running group the answer is yes if and only if the swap-out succeeds, and a refused one would run out of CPU blocks |
| Admission.CanSwapInExact | backends/vllm/src/block_manager.rs:522-642 | for a swapped group the answer is Ok if and only if the swap-in succeeds and leaves a free block for each member, and Never exactly if that is more than the pool has |
| Admission.PhysicalCount | backends/vllm/src/block_manager.rs:465-492 | the blocks counted are the different block numbers in the tables of all members that are waiting, running or swapped |
| Admission.SwapInNeverIsFinal | backends/vllm/src/block_manager.rs:538-544 | a group refused for good is refused in every reachable state in which it has the same tables |
| Admission.SwapInLaterComes | backends/vllm/src/block_manager.rs:538-544 | a swapped group that is told to wait can come back once all other tables are freed |
| Admission.CanAppendExact | backends/vllm/src/block_manager.rs:254-260 | where every running member needs a new block, the answer is yes if and only if the round succeeds |
| Swapping.SharingKept | backends/vllm/src/block_manager.rs:585-776 | two places share a block after a swap if and only if they did before |
| Swapping.SwapRoundTrip | backends/vllm/src/block_manager.rs:585-776 | out and in again: both succeed and the sharing between all places is as it was |
| PagedMemory.StepSim | backends/vllm/src/block_manager.rs:195-891 | every admitted operation, with the copies and writes that go with it, changes what sequences read as the machine of private histories says |
| PagedMemory.OthersReadTheSame | backends/vllm/src/block_manager.rs:195-891 | no admitted operation changes what another sequence reads |
| PagedMemory.RunRefinesHistories | backends/vllm/src/block_manager.rs:195-891 | over any admitted run, reading through the block tables yields the private histories |
| PagedMemory.PagedCacheCorrect | backends/vllm/src/block_manager.rs:55-891 | from the empty cache, for any admitted run: contents, counts equal to the number of holding tables, duplicate-free free lists of exactly the zero-count blocks, and conservation of both pools |
| Rounds.CopyOrderIrrelevant | backends/vllm/src/block_manager.rs:358-373 | the copies of a round give the same contents in whatever order they are made |
| Rounds.RoundIsRun | backends/vllm/src/scheduler.rs:1683-1709 | making all slots of a group's round first and all copies afterwards is the same as copying at once |
| Rounds.RoundInAnyOrder | backends/vllm/src/scheduler.rs:1683-1709 | so a round with its copies in any order changes nothing that any sequence reads |
| Steps.OpKeepsApart | backends/vllm/src/scheduler.rs:612-725 | every operation of a step writes to blocks that no group dealt with earlier holds, and moves blocks that none of them holds |
| Steps.StepDemandsFit | backends/vllm/src/scheduler.rs:612-725 | the mappings of all swaps of a step merge without a clash, and its copies have distinct targets that are no sources |
| Steps.StepDeferred | backends/vllm/src/worker.rs:195-211 | all swaps first and all copies afterwards leave the cache as if each had been made at once, also where a copy goes to a block that a swap-out of the same step freed |
| Steps.StepAsWorker | backends/vllm/src/worker.rs:195-211 | with the copies in any order, and every sequence that is still there reads what it read before |
| Steps.RunKeepsFamilies | backends/vllm/src/block_manager.rs:195-891 | over any admitted run in which sequences are allocated and forked within groups, only sequences of one group share blocks |
| StepCopies.StepSources | backends/vllm/src/scheduler.rs:1683-1709 | how many copies a whole step makes out of each block it found shared: one for every writer, less one if all holders write |
| StepCopies.StepMapKeepsCopies | backends/vllm/src/scheduler.rs:612-725 | the one map of a step that swaps nothing in has all copies if and only if no block of three or more holders has two or more writers in the step |
| LogicalBlocks.LogicalTokenBlock.AppendTokens | backends/vllm/src/block.rs:105-121 | appends all tokens or, when they do not fit, none |
| LogicalBlocks.Sequence.AppendTokensToBlocks | backends/vllm/src/sequence.rs:648-674 | the tokens follow those already there, no append fails, and all blocks but the last are full |
| LogicalBlocks.BlocksNeeded | backends/vllm/src/sequence.rs:703-705 | the number of blocks is the token count over the block size, rounded up |
| LogicalBlocks.TokenPlace | backends/vllm/src/sequence.rs:648-674 | token p is at position p mod size of block p div size |
| SwapBlocks.Swap | csrc/src/cache_manager.rs:38-120 | the loop's result for the order in which the mapping is iterated; for an injective mapping every target block becomes its source and all others stay, whatever the order |
| SwapBlocks.OrderFreeExactly | csrc/src/cache_manager.rs:38-45 | all orders give the same blocks if and only if blocks that are sent to one target hold the same |
| SwapBlocks.SwapMovesContents | csrc/src/cache_manager.rs:18-120 | copying the tensors by the returned mapping gives the contents that the paged cache needs after a swap |
| Evictor.LRUEvictor.Evict | backends/vllm/src/evictor.rs:88-123 | removes the block at which the scan stops, the oldest one if the table is ordered, keeps the order of the rest, and reports an empty table |
| Evictor.LRUEvictor.Add | backends/vllm/src/evictor.rs:125-127 | the block replaces the one entry of its number where there is one and goes to the end where there is none; all other entries keep their places, and no number occurs twice |
| Evictor.LRUEvictor.Remove | backends/vllm/src/evictor.rs:129-131 | returns the one entry of that number, if there is one; before and after it the table is as it was, and afterwards no entry has the number |
| Evictor.EvictsOldest | backends/vllm/src/evictor.rs:98-113 | in an ordered table the early end of the scan still finds the oldest block, of several the one with most hashed tokens, of several the first |
| Evictor.VictimExact | backends/vllm/src/evictor.rs:98-113 | on any table: the scan stops before the first block newer than its choice, and its choice is the first block with the most hashed tokens before that |
| Evictor.UnorderedMissesOldest | backends/vllm/src/evictor.rs:98-113 | out of order it can miss an older block |
| Evictor.AddKeepsOrder | backends/vllm/src/evictor.rs:125-127 | adding keeps the table ordered if and only if the block fits where it lands |
| Evictor.RunEvictsOldest | backends/vllm/src/evictor.rs:88-131 | after any run of additions in time order, evictions and removals, the next eviction takes the oldest block |
| OnlineSoftmax.WeightIsExp | csrc/kernels/softmax.h:71-88 | base two and the folded-in constant compute the exponential of the scaled score |
| OnlineSoftmax.MassPositive | csrc/kernels/softmax.h:177-179 | the softmax denominator is zero exactly when every column is masked |
| OnlineSoftmax.ProbBounded | csrc/kernels/softmax.h:71-88 | no exponent is positive: every probability lies between zero and one |
| OnlineSoftmax.RescaleDefined | csrc/kernels/softmax.h:152-157 | if the check for minus infinity is on or some column seen so far is visible, the rescaling exponent is at most zero and the factor lies between zero and one; otherwise both are not numbers |
| OnlineSoftmax.RescaleExact | csrc/kernels/softmax.h:152-161 | rescaling turns what is stored relative to the old maximum into the same thing relative to the new one, masked rows included |
| OnlineSoftmax.BlockExact | csrc/kernels/softmax.h:136-166 | one block takes a row's state from standing for the softmax of some columns to standing for one block more, with probabilities and rescaling factor between zero and one |
| OnlineSoftmax.NormalizeExact | csrc/kernels/softmax.h:169-185 | normalisation yields the direct softmax and log-sum-exp; zero and the agreed infinity for a fully masked row |
| OnlineSoftmax.SameColumns | csrc/kernels/flash_fwd_kernel.h:88-96 | ranges with the same visible columns have the same softmax |
| SoftmaxKernel.ReduceMax | csrc/kernels/softmax.h:22-34 | in every row the maximum of the block and, after the first, of what was there |
| SoftmaxKernel.ReduceSum | csrc/kernels/softmax.h:59-62 | the same for sums |
| SoftmaxKernel.ScaleApplyExp2 | csrc/kernels/softmax.h:66-91 | overwrites every score by its weight relative to the row's maximum |
| SoftmaxKernel.Softmax.SoftmaxRescaleO | csrc/kernels/softmax.h:136-166 | maxima, probabilities, sums and outputs of all rows after one block, in terms of those before |
| SoftmaxKernel.Softmax.NormalizeSoftmaxLse | csrc/kernels/softmax.h:169-185 | divides all outputs and returns all log-sum-exps |
| Lanes.MaxAcrossLanes | csrc/kernels/softmax.h:36-56 | the four lanes of a row, each with its own columns, exchange to the maximum of the whole row |
| Lanes.BlockKeepsParts | csrc/kernels/softmax.h:59-62 | without an exchange, the four running sums keep adding up to the row's running sum |
| Lanes.SumAcrossLanes | csrc/kernels/softmax.h:170-171 | the one exchange at the end gives every lane the sum of the row |
| Allreduce.AllLanesReduced | csrc/kernels/utils.h:109-129 | for an associative, commutative operation and any power of two, every lane ends with the reduction over its aligned group |
| Tiling.SkippedBlocksHidden | csrc/kernels/flash_fwd_kernel.h:88-96 | every column outside the range of blocks is hidden from every row of the tile |
| Tiling.EarlyExitCovers | csrc/kernels/flash_fwd_kernel.h:97-99 | a tile has a block to visit or is written as zeros, except exactly for an unmasked problem of whole tiles without keys |
| Tiling.EarlyExitMisses | csrc/kernels/flash_fwd_kernel.h:97-99 | a launched problem that is neither |
| Tiling.FirstMaskExact | csrc/kernels/mask.h:129-204 | in the first loop the mask removes exactly the hidden columns |
| Tiling.LaterMaskExact | csrc/kernels/flash_fwd_kernel.h:304-435 | blocks of the second loop need no causal and no length mask, and keep their window mask |
| Tiling.MaskSkippedExactly | csrc/kernels/flash_fwd_kernel.h:304-306 | for even causal problems this holds of a tile shape if and only if the rest of the tile height in key blocks divides the block or is two |
| Tiling.UnmaskedHidden | csrc/kernels/flash_fwd_kernel.h:304-435 | for every other tile shape, a problem where an unmasked block holds a hidden column |
| Tiling.BuiltTilesAligned | csrc/kernels/flash_fwd_launch_template.h:168-310 | the tile shapes that the kernels are built with are such that the mask may be skipped |
| Windows.WindowsKeepMeaning | csrc/src/lib.rs:188-229 | the kernel parameters mean the requested window if and only if a dropped or filled-in right bound cannot matter |
| Windows.WindowChanged | csrc/src/lib.rs:188-229 | ten queries on two keys with a left bound only: a requested key is hidden |
| Windows.KernelPicked | csrc/src/lib.rs:188-229 | the causal kernels are picked exactly for a right bound of zero without an effective left one, except for a single query; the local ones for every other effective window |
| Windows.NormalizedLaunched | csrc/src/lib.rs:188-229 | whatever window is asked for, the kernels are never both causal and local, and local windows are not negative |
| FlashKernel.ApplyMask | csrc/kernels/mask.h:129-204 | overwrites exactly the masked entries, for all three loop forms |
| FlashKernel.MaskingLoop | csrc/kernels/flash_fwd_kernel.h:308-381 | after the masked blocks every row stands for the columns from the next block on; the early break loses and repeats no block, and without keys the one block in front of them is taken |
| FlashKernel.PlainLoop | csrc/kernels/flash_fwd_kernel.h:384-435 | the remaining blocks bring every row down to the first block of the range |
| FlashKernel.RowBlock | csrc/kernels/flash_fwd_kernel.h:289-439 | the two loops and the normalisation give every row the direct softmax over the range of blocks, whatever it is |
| FlashKernel.VisitedBlocksSuffice | csrc/kernels/flash_fwd_kernel.h:88-96 | a row's softmax over all keys is its softmax over the blocks its tile visits |
| FlashKernel.ComputeRowBlock | csrc/kernels/flash_fwd_kernel.h:85-439 | every existing row of the tile gets the full softmax, zeros on early exit included, and no other row is written; without keys or mask, in whole tiles, what the row gets is named too |
| FlashKernel.FlashForward | csrc/kernels/flash_fwd_launch_template.h:69-107 | a row is left with the quotient of the formula's sums of exponentials of scaled scores over the columns it sees, and with the logarithm of the denominator, if and only if the problem is not an unmasked one of whole tiles without keys; then every row holds the same over the block in front of the keys |
| FlashKernel.DirectRow | csrc/kernels/softmax.h:71-88 | what the online softmax stands for is what the formula's sums say |
| FlashKernel.AttentionGiven | csrc/src/lib.rs:1831 | the problem that the kernels work on has the given scale, scores, values and mask |
| Combine.LogSumExact | csrc/kernels/flash_fwd_kernel.h:1204-1218 | the merged log-sum-exp is that of all splits together, with plus infinity when all are empty |
| Combine.LseMaxBounds | csrc/kernels/flash_fwd_kernel.h:1205-1215 | what is subtracted is a number and no exponent is positive |
| Combine.ScalesBounded | csrc/kernels/flash_fwd_kernel.h:1230-1240 | the exponent of a merge weight is at most zero, so every weight lies between zero and one |
| Combine.CombineExact | csrc/kernels/flash_fwd_kernel.h:1230-1284 | the weighted outputs add up to the softmax over all splits, whichever are empty |
| SplitKV.SplitsPartition | csrc/kernels/flash_fwd_kernel.h:534-542 | the splits' block ranges are disjoint and together are the range of the unsplit kernel |
| SplitKV.SplitColumns | csrc/kernels/flash_fwd_kernel.h:534-542 | of the columns in its share a split skips only hidden ones |
| SplitKV.ComputeSplitTile | csrc/kernels/flash_fwd_kernel.h:529-1018 | a split's tile holds the softmax over its share of the columns, with minus infinity for an empty one |
| SplitKV.CombineRow | csrc/kernels/flash_fwd_kernel.h:1204-1284 | the loops over splits and slots compute the merge of one row and leave the others alone |
| CombineLanes.LanesFoldAll | csrc/kernels/flash_fwd_kernel.h:1204-1215 | values dealt out to lanes, folded lane by lane and then across the lanes, give the fold of all of them |
| CombineLanes.MaxOverSlots | csrc/kernels/flash_fwd_kernel.h:1204-1210 | every lane of a row's group ends with the maximum of the one loop over its slots |
| CombineLanes.SumOverSlots | csrc/kernels/flash_fwd_kernel.h:1211-1215 | and with the sum of that loop |
| SplitKV.SplitForward | csrc/kernels/flash_fwd_launch_template.h:107-164 | splits and merge together leave the attention of the formula over all keys, as the unsplit kernel does |
| SplitKV.SingleSplitForward | csrc/kernels/flash_fwd_launch_template.h:107-141 | so does the split kernel when it runs with a single split |
| SplitHeuristic.NumSplitsHeuristic | csrc/src/lib.rs:2122-2167 | an eligible count within the limits; one if four fifths of the device are busy anyway, otherwise the smallest with 85% of the efficiency of every other, compared as products of whole numbers |
| SplitHeuristic.ChosenUnique | csrc/src/lib.rs:2122-2167 | the number that the heuristic's contract describes is unique, and eligible |
| SplitHeuristic.WavesLeast | csrc/src/lib.rs:2148-2149 | the waves that efficiency is reckoned with are the fewest that hold the work |
| SplitHeuristic.EfficiencyExact | csrc/src/lib.rs:2148-2149 | efficiency times the room of its waves is the work; it is at most one, and one exactly if the last wave is full |
| SplitHeuristic.ReachesExact | csrc/src/lib.rs:2159-2163 | 85% of an efficiency is reached if and only if a comparison of products says so |
| SplitHeuristic.PickedUnique | csrc/src/lib.rs:2122-2167 | the choice in whole numbers is unique |
| SplitHeuristic.EligibleExact | csrc/src/lib.rs:2139-2142 | a count is eligible if and only if the kernel's rounding gives it back |
| SplitHeuristic.NoIdleSplit | csrc/src/lib.rs:2139-2142 | without a mask, no split of the kernel is idle if and only if the count is eligible |
| SplitHeuristic.ComputeNumSplits | csrc/src/lib.rs:2169-2199 | the heuristic's choice for these sizes, the width of the launched split kernel, and twice the multiprocessors; the check against 128 never fails |
| SplitHeuristic.SameWidth | csrc/src/lib.rs:2177-2183 | the block width assumed is that of the split kernel |
| SplitHeuristic.PickedNoIdle | csrc/kernels/flash_fwd_launch_template.h:169-177 | without a mask every split of the picked count has a block of keys |
| PagedAddress.SlicesStayInPages | csrc/kernels/kernel_traits.h:136-144 | no thread's slice of any block crosses a page if and only if a page is a whole number of slices high |
| PagedAddress.PagesOf16 | csrc/src/lib.rs:778-785 | a page size that is a multiple of 16 is a whole number of slices when slices divide 16 |
| PagedAddress.KernelPagesFit | csrc/kernels/kernel_traits.h:71-144 | for every head dimension the kernels are built for, slices divide 16 and cover the block, so that the page size that callers check is enough |
| PagedAddress.KernelShapes | csrc/kernels/flash_fwd_launch_template.h:169-177 | the shapes of the split kernel for all head dimensions, in numbers |
| PagedAddress.LookupsInTableExactly | csrc/kernels/utils.h:307-311 | no thread of any block looks past the end of the table if and only if its pages reach beyond the first row of the last slice |
| PagedAddress.ShortTableOverrun | csrc/kernels/utils.h:307-311 | a thread that asks for page 15 of a table of one page |
| PagedAddress.TileCopiedOnce | csrc/kernels/kernel_traits.h:136-144 | every element of the tile is copied by exactly one thread, and nothing else is |
| PagedAddress.BlockReadOnce | csrc/kernels/utils.h:298-314 | the threads together read every element of the block of keys they are asked for exactly once, and nothing else |
| PagedAddress.ResolveExact | csrc/kernels/utils.h:296-314 | every element of every thread's slice is read from the row's page, as the memory of the table gives it, and the row's offset in it |
| PagedAddress.AddressInjective | csrc/kernels/utils.h:311-313 | different cells of the cache have different addresses |
| PagedAddress.KernelReadsHistory | csrc/kernels/utils.h:296-314 | in any reachable state of the cache, what a thread reads for a row is the token of that sequence's own history |
| PagedAddress.KernelReadsRun | csrc/kernels/utils.h:296-314 | the same after any admitted run from the empty cache |

## Left out

- Allocation.AllocateKeepsInv: stated without a sliding window and for fresh ids; with a window see SlidingWindow.AllocateCounts and, for where it goes wrong, SlidingWindow.FreeRestores.
- Sharing.LaterComes: stated without a sliding window, for the same reason.
- Sharing.ForkKeepsInv: stated on tables without repeated entries; SlidingWindow.ForkCounts covers the others.
- Sharing.FreeKeepsInv: stated without a sliding window; SlidingWindow.FreeRestores is what holds with one.
- Sharing.ForkThenFree: stated without a sliding window, because freeing with one does not undo a fork.
- Sharing.ResetRestores: stated without a sliding window, because reset frees table by table.
- Appending.AppendExact: stated without a sliding window; SlidingWindow.AppendPastWindow is what happens with one.
- Appending.RoundExact: stated without a sliding window, for the same reason.
- Appending.RoundSources: one group's round without a sliding window; StepCopies.StepSources is about whole steps.
- Appending.RoundMapKeepsCopies: one group's round without a sliding window; StepCopies.StepMapKeepsCopies is about whole steps.
- StepCopies.StepMapKeepsCopies: a step that swaps groups back in is left out; there the blocks written to are not the blocks of the state before the step.
- PagedMemory.StepSim: stated without a sliding window, because appending and freeing with one break the counts.
- PagedMemory.OthersReadTheSame: stated without a sliding window.
- PagedMemory.RunRefinesHistories: stated without a sliding window.
- PagedMemory.PagedCacheCorrect: stated without a sliding window; the waiting sequences of an allocated group share one prompt, and a sequence with an unwritten slot is neither forked nor swapped, because the scheduler writes the slot first.
- Rounds.RoundIsRun: one group's round; Steps.StepDeferred is about a whole step.
- Rounds.RoundInAnyOrder: one group's round; Steps.StepAsWorker is about a whole step.
- Steps.StepAsWorker: prompts allocated in the same step are left out; their blocks are written after the worker's copies. A step that swaps both ways is rejected by the scheduler (`backends/vllm/src/scheduler.rs:266-275`).
- Error paths partway through allocation and swapping: the program does not roll back; the model has the half-done states, and admission is proved to rule them out.
- Overwriting an existing table through allocate or fork: it leaks counts; fresh ids are a hypothesis of the lemmas, and the refinement covers the overwrite itself.
- The `computed`, `last_accessed` and `num_hashed_tokens` flags inside the manager: they do not influence which blocks are used.
- Iteration order of hash maps: a group is a sequence in some order, the mapping of a swap is enumerated in any order, and reset returns its order as a ghost.
- Locks, their poisoning, tracing and `usize`/`u32` width: not modelled.
- BlockManager.BlockSpaceManager.SwapIn: its loop over sequences is a method of its own, shared with SwapOut, where the program writes the loop twice.
- Byte offsets in swaps between host and device: blocks are copied whole, from a view that starts at offset zero.
- Evictor.LRUEvictor.Evict: timestamps are naturals, with zero for a block that was never accessed.
- LogicalBlocks.Sequence.AppendTokensToBlocks: the block size is positive; with size zero the program's loop does not end.
- Rounding, fast-math intrinsics, half-precision conversion and fused multiply-add: arithmetic is over reals.
- FlashKernel.RowBlock: the products of tiles are taken as functions of row and column, so tensor cores, shared memory, swizzles, asynchronous copies and barriers are not modelled; the two loops are methods of their own.
- FlashKernel.FlashForward: without keys, the scores and values in front of the first key stand for whatever the memory there holds, taken as finite numbers.
- SoftmaxKernel.Softmax.SoftmaxRescaleO: a row is one sequence; its spread over lanes is related to it in Lanes rather than inside the loops.
- Allreduce.AllLanesReduced: the exchange across lanes is arithmetic on lane numbers, not the bitwise operation.
- Dropout, soft-capping, position biases, rotary embedding, appending to the cache inside the kernel and the grouped-query head swap: not modelled.
- SplitKV.CombineRow: one loop over the slots of a row; their spread over lanes is related to it in CombineLanes, the transposition through shared memory is left out.
- SplitKV.SplitForward: one head of one batch entry; the layout of heads and batch entries in memory is not modelled.
- SplitKV.SingleSplitForward: one head of one batch entry, likewise.
- SplitHeuristic.NumSplitsHeuristic: real numbers instead of 32-bit floats.
- Tiling.MaskSkippedExactly: speaks of the even causal case only; in all other cases LaterMaskExact needs no condition on the tile shape.
- PagedAddress.PagesOf16: takes the rows of a slice as a divisor of 16; PagedAddress.KernelPagesFit derives that for the kernels.
- The engine, the model executor, the server, sampling parameters and configuration: input, output, or single-branch checks.
