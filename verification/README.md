# POD-Attention and vAttention, verified

POD-Attention runs a prefill and a decode attention in one GPU launch; vAttention keeps the KV
cache of a serving engine contiguous in virtual memory and backs it with physical pages on demand.
This project models the parts of both that are hard to get right and proves what they promise:

- **Attention.** A tile of queries walks its key blocks backwards, masks only the first few of them,
  and keeps a running maximum, sums and an accumulator, the sums lane by lane; several splits of the
  keys are recombined from their log-sum-exps. The result is exactly the masked softmax-weighted sum
  that the interface documents, for every row, mask and split count, and no undefined operation
  happens on the way. Numbers are exact reals with the IEEE infinities and NaN (`Floats.dfy`), exp
  and log are parameters with their algebraic laws as hypotheses, and the specification is
  `AttentionSpec.dfy`. `Allreduce.dfy` is the all-reduce within a warp, `OnlineSoftmax.dfy` the
  online softmax of one row, `MaskSchedule.dfy` the block ranges and masks, `Kernel.dfy` the tile
  loops on arrays, `Combine.dfy` the combination of splits, `SplitAttention.dfy` both tile kernels.
- **Scheduling.** Thread blocks claim work from shared counters with `atomicAdd`, in any
  interleaving. Every tile of both operations is computed exactly once, and every fair schedule
  finishes (`Scheduler.dfy`, `LaunchCoverage.dfy`).
- **The whole launch.** In every complete run, with the tiles' results written in any order, every output
  row of the prefill and of the decode is the documented attention (`FusedLaunch.dfy`), and every head
  of every query of the call gets its own over the keys that the call's mask allows
  (`CallAttention.dfy`).
- **The paged cache.** Pointers moved by page-table differences, and new rows appended in place by
  many thread blocks at once (`PagedCache.dfy`, `AppendCache.dfy`); what the kernel computes with is
  what it reads there (`CacheReads.dfy`), and a launch that appends attends to the extended sequence
  (`AppendedAttention.dfy`).
- **The allocator.** Free pages, the page map and the per-request counts stay consistent over every
  run, and each step succeeds exactly under a condition on the demands (`PagePool.dfy`,
  `BlockDemand.dfy`, `Allocator.dfy`).
- **The host side.** The split heuristic, the rewriting of masks and the swap of grouped heads
  (`SplitHeuristic.dfy`, `HostSetup.dfy`).

Two things that the kernels rely on hold only under conditions that no kernel checks. The conditions are
shown to be exact, and every launch meets them:

- An even causal launch masks enough blocks exactly for tile shapes whose remainder is small
  (`EvenCausalShapes`, `BadLaunch`), and all configured shapes are of that kind (`ConfiguredShapesFit`).
- A tile stays in one page exactly when its height divides the page size (`TilesInPages`), which the
  host's check on the page size makes true of all configured shapes (`AdmittedTilesFit`).

Some things that one would expect do not hold of the code. The model keeps the code as it is, and
gives the exact condition under which the property holds, with a concrete case in which it fails:

- With a scale that is not positive, a row gets its attention exactly when none of its walked keys is
  masked (`AttentionIffSafe`; a decode and a prefill that lose their output are `SpoiltDecode` and
  `SpoiltPrefill`).
- The splits cover a tile's blocks exactly when they reach its end (`SplitRangesPartition`; they do
  not in `SplitsStopShort`).
- The unsplit kernel exits or has a block to walk except in an even unmasked launch without keys
  (`UnsplitWalkHasBlocks`, `EvenLaunchWithoutKeys`).
- All new rows are appended exactly when the first window and the splits take them in
  (`CopiesAllExactly`, `AppendComplete`; rows are left out in `WindowSkipsNewRows` and in
  `ShortLaunchSkipsNewRows`).
- The host's mask rewriting preserves the mask exactly when `RewriteSafe` holds (`RewriteExact`; it
  does not in `LongQueriesUnsafe`); up to one more query than the capacity it always does.
- A synchronous step can run out of memory although all requests fit together: it succeeds exactly
  when every stage fits (`StepSync`; one does not in `ShrinkingStageFails`). The asynchronous step has
  no such case (`Prepare`).
- The background manager leaves a request without its next page, although all fit, exactly when what
  is asked for after its reclaim does not fit, if nothing is asked for beyond the end of a range
  (`Manage`; `LookAheadFails`).
- The choice of a batch id is a best fit exactly when the first inactive id already has enough pages
  mapped, or none has (`AllocNewBatchIdx`; it is not in `NotBestFit`).

Nothing here was executed; everything stated is proved by the Dafny verifier
(`dafny verify dfyconfig.toml`).

## Model

| member | source | states |
|---|---|---|
| AttentionSpec.NumRebase | pod_attn/pod_attn/softmax.h:107-138 | Sums of weights relative to one maximum are the exponential of the difference times those relative to another. |
| OnlineSoftmax.QuadMaxIsMax | pod_attn/pod_attn/softmax.h:25-59 | Every lane of a quad ends with the maximum over all columns of the row: its own columns folded, then joined by the all-reduce. |
| OnlineSoftmax.ReduceSumsTotal | pod_attn/pod_attn/softmax.h:61-65 | The sums that the lanes keep apart add up to the sum over all columns of the row. |
| OnlineSoftmax.QuadSumIsTotal | pod_attn/pod_attn/softmax.h:140-143 | The all-reduce at the end gives every lane that sum. |
| OnlineSoftmax.ReduceMaxMeaning | pod_attn/pod_attn/softmax.h:25-65 | The running maximum of a masked block is the largest visible score so far, or minus infinity exactly when nothing is visible. |
| OnlineSoftmax.BlockProbs | pod_attn/pod_attn/softmax.h:68-94 | Every entry of the exponentiated block is the exact weight of its key relative to the new maximum, zero for a masked key. |
| OnlineSoftmax.DifferenceDefined | pod_attn/pod_attn/softmax.h:125-128 | The old maximum minus the new one, as the check adjusts it, is a number or minus infinity and never infinity minus infinity, whenever the new maximum is finite or checked. |
| OnlineSoftmax.RescaleStep | pod_attn/pod_attn/softmax.h:107-138 | One rescale and one product turn a state that represents the later keys into the state that represents them and the block, with Check_inf on, or off when the maximum is finite. |
| OnlineSoftmax.NormalizeMeaning | pod_attn/pod_attn/softmax.h:140-157 | Normalising a state that represents some keys yields the row's attention over them and its log-sum-exp, and the empty values when it sees none of them. |
| OnlineSoftmax.SpoiledStays | pod_attn/pod_attn/softmax.h:107-138 | With a scale that is not positive, sums that are lost stay lost: NaN if the scale is zero, NaN or plus infinity if it is negative, and never a number or minus infinity. |
| OnlineSoftmax.MaskSpoils | pod_attn/pod_attn/softmax.h:68-94 | With a scale that is not positive, a masked score in a block loses all sums: to NaN if the scale is zero, to NaN or plus infinity if it is negative. |
| OnlineSoftmax.InfiniteStays | pod_attn/pod_attn/softmax.h:107-138 | With a negative scale the sums of a spoiled row are never NaN, and while nothing was visible all of them are plus infinity. |
| OnlineSoftmax.FirstMaskInfinite | pod_attn/pod_attn/softmax.h:68-94 | Such sums are what a first block of at least eight columns, which gives every lane of a quad one, leaves with a negative scale. |
| OnlineSoftmax.NextMaskInfinite | pod_attn/pod_attn/softmax.h:107-138 | And what a later block leaves of a row that was exact. |
| OnlineSoftmax.NormalizeSpoiled | pod_attn/pod_attn/softmax.h:140-157 | Normalising a spoiled row gives no number in any column, and as log-sum-exp that of a row without keys if the scale is zero and plus infinity if it is negative and the blocks have at least eight columns. |
| MaskSchedule.OutsideRangeInvisible | pod_attn/pod_attn/fused_fwd_kernel.h:96-104 | Blocks outside the tile's range hold no key that any of its rows may see. |
| MaskSchedule.ScheduleMatchesRule | pod_attn/pod_attn/fused_fwd_kernel.h:311-343 | In every walk over part of the range, a score survives the masking of its iteration exactly when the documented rule lets its row see its key, although tail blocks of a causal run get no mask. |
| MaskSchedule.CausalTailVisible | pod_attn/pod_attn/fused_fwd_kernel.h:391-420 | Every key of a causal tail block is visible to every row of the tile. |
| MaskSchedule.ScheduledIsVisible | pod_attn/pod_attn/fused_fwd_kernel.h:311-343 | For shapes that qualify, the mask that a walk applies is the documented one on every key it walks. |
| MaskSchedule.PastEndMasked | pod_attn/pod_attn/fused_fwd_kernel.h:315-343 | Whatever the shape, a walk masks every column past the last key. |
| MaskSchedule.EvenCausalShapes | pod_attn/pod_attn/fused_fwd_kernel.h:311-313 | All even causal launches of a tile shape mask correctly if and only if the remainder of kBlockM by kBlockN is zero or at most their greatest common divisor plus one. |
| MaskSchedule.BadLaunch | pod_attn/pod_attn/fused_fwd_kernel.h:311-313 | For every other shape, a launch that masks wrongly. |
| MaskSchedule.ConfiguredShapesFit | pod_attn/pod_attn/fused_fwd_launch_template.h:558-598 | The tile shapes that are configured all qualify. |
| MaskSchedule.SplitBetweenCuts | pod_attn/pod_attn/fused_fwd_kernel.h:539-548 | A split's blocks run from its cut to the next cut, and a split that exits early has none between them. |
| MaskSchedule.OwnedExactly | pod_attn/pod_attn/fused_fwd_kernel.h:539-547 | The splits own exactly the blocks of the unsplit range that lie before the end of the last split. |
| MaskSchedule.SplitRangesPartition | pod_attn/pod_attn/fused_fwd_kernel.h:539-547 | No block belongs to two splits, and together they own exactly the unsplit range if and only if they reach its end. |
| MaskSchedule.SplitsStopShort | pod_attn/pod_attn/fused_fwd_kernel.h:539-547 | A launch whose splits do not reach the end. |
| MaskSchedule.SplitsReachWithinSeqlenK | pod_attn/pod_attn/fused_fwd_kernel.h:539-547 | They reach the last key whenever the batch entry is no longer than the launch was sized for. |
| MaskSchedule.UnsplitWalkHasBlocks | pod_attn/pod_attn/fused_fwd_kernel.h:105-107 | The unsplit kernel exits early or has a block to walk, except exactly in an even unmasked launch without keys. |
| MaskSchedule.EvenLaunchWithoutKeys | pod_attn/pod_attn/fused_fwd_kernel.h:96-107 | Such a launch, which neither exits nor has a block. |
| Kernel.Softmax.constructor | pod_attn/pod_attn/softmax.h:99-105 | Fresh row buffers: a maximum and the sums of four lanes for every row of the tile. |
| Kernel.Softmax.RescaleO | pod_attn/pod_attn/softmax.h:107-138 | Overwrites maxima, lane sums, scores and accumulators of the tile, row by row, with the rescaled state of each row; RescaleStep says what that state means. |
| Kernel.Softmax.NormalizeLse | pod_attn/pod_attn/softmax.h:140-157 | All-reduces the lane sums, overwrites the accumulators with the normalised rows and returns their log-sum-exps; NormalizeMeaning says what they are. |
| Kernel.ReduceMaxRows | pod_attn/pod_attn/softmax.h:25-59 | The lanes reduce and all-reduce: every row is left with the maximum over its old maximum and all its columns. |
| Kernel.ReduceSumRows | pod_attn/pod_attn/softmax.h:61-65 | Each lane adds its own columns to its own sum, without an all-reduce. |
| Kernel.BlockStep | pod_attn/pod_attn/fused_fwd_kernel.h:315-388 | One iteration on the arrays is one block step of every row: load, mask, rescale, multiply. |
| Kernel.Walk.StepMasksExactly | pod_attn/pod_attn/fused_fwd_kernel.h:315-420 | The scores of an iteration are, row by row, those that the mask of the walk lets through, and minus infinity elsewhere. |
| Kernel.Walk.UncheckedStepSees | pod_attn/pod_attn/fused_fwd_kernel.h:354-357 | Whenever the infinity check is off, it is the first block or the row sees a key of the block or of a later one. |
| Kernel.Walk.NoUndefinedDifference | pod_attn/pod_attn/fused_fwd_kernel.h:354-357 | In every step of a row that gets its attention, the old maximum minus the new one and every exponent is a number or minus infinity: infinity is never subtracted from itself. |
| Kernel.Walk.RowHoldsStep | pod_attn/pod_attn/fused_fwd_kernel.h:315-442 | An iteration keeps every row exact for the keys walked so far, or spoiled exactly when a masked key met a scale that is not positive. |
| Kernel.MaskingLoop | pod_attn/pod_attn/fused_fwd_kernel.h:860-945 | The masking iterations with their early break leave the tile exact for the blocks done, and never pass the end of the range. |
| Kernel.TailLoop | pod_attn/pod_attn/fused_fwd_kernel.h:948-1004 | The remaining iterations leave the tile exact for the whole range. |
| Kernel.Iterate | pod_attn/pod_attn/fused_fwd_kernel.h:864-1004 | The iteration for a block, with the flags of the loop it is in, extends the exact state of all rows by that block. |
| Kernel.Epilogue | pod_attn/pod_attn/fused_fwd_kernel.h:1008 | Normalising the exact state of the whole range gives every row its attention. |
| Kernel.WalkTile | pod_attn/pod_attn/fused_fwd_kernel.h:834-1008 | Both loops and the epilogue, for any tile shape: every row ends with its attention over the keys of the walked blocks under the mask that the walk applies; if a masked key met a scale that is not positive, with no numbers and, for blocks of at least eight columns, the log-sum-exp of a row without keys if the scale is zero and plus infinity if it is negative. |
| Kernel.AttentionIffSafe | pod_attn/pod_attn/softmax.h:68-94 | A row gets its attention if and only if the scale is positive or none of its walked keys is masked. |
| SplitAttention.AttentionOverAllKeys | pod_attn/pod_attn/fused_fwd_kernel.h:96-104 | Attention over the tile's range is attention over all keys. |
| SplitAttention.RowAgrees | pod_attn/pod_attn/fused_fwd_kernel.h:834-1008 | What is left of a row depends only on the scores, values and mask of the keys that were walked. |
| SplitAttention.ScheduledRowAgrees | pod_attn/pod_attn/fused_fwd_kernel.h:311-343 | If the shape qualifies, a row under the mask of a walk and under the documented mask see the same walked keys. |
| SplitAttention.UnsplitTile | pod_attn/pod_attn/fused_fwd_kernel.h:93-446 | For every shape, every row gets the attention of the tile's blocks under the scheduled mask, zero and an infinite log-sum-exp if it sees none; for shapes that qualify this is the documented attention over all keys; no numbers and an infinite log-sum-exp exactly when a key of the tile's blocks is masked and the scale is not positive. Nothing is known of a walk without blocks. |
| SplitAttention.SpoiltDecode | pod_attn/pod_attn/fused_fwd_kernel.h:93-446 | A decode of one query against one key, which it sees: for every scale that is not positive the kernel leaves no number, and not the attention. |
| SplitAttention.SpoiltPrefill | pod_attn/pod_attn/fused_fwd_kernel.h:93-446 | A causal prefill whose first query loses its output for every such scale. |
| SplitAttention.SplitTile | pod_attn/pod_attn/fused_fwd_kernel.h:539-1008 | One split computes its rows' attention over its own keys, with the flag Split on or off; a row without visible keys gets zero, and minus or plus infinity as log-sum-exp according to the flag. |
| SplitAttention.SplitLaunch.MaskDocumented | pod_attn/pod_attn/fused_fwd_kernel.h:539-1004 | If the shape qualifies, the masks of all splits together are the documented one on all their keys. |
| SplitAttention.RowCombines | pod_attn/pod_attn/fused_fwd_kernel.h:1641-1747 | Combining what the splits left of a row gives its attention over the keys of all splits; if the row is not safe there, no numbers and, for blocks of at least eight columns, the log-sum-exp of its safe splits if the scale is zero and plus infinity if it is negative. |
| SplitAttention.LaunchDocumented | pod_attn/pod_attn/fused_fwd_kernel.h:539-1761 | If the shape qualifies, that is the documented attention over the keys before the last cut, and, given the keys of the tile's blocks, over all keys if the splits reach them. |
| Combine.CombineMax | pod_attn/pod_attn/fused_fwd_kernel.h:1667-1673 | The lanes reduce their slots and all-reduce: the largest split log-sum-exp, zero when all are minus infinity, and plus infinity when one is. |
| Combine.CombineSum | pod_attn/pod_attn/fused_fwd_kernel.h:1674-1678 | Likewise the sum, which is the splits' total mass relative to the maximum, and NaN when one is plus infinity. |
| Combine.CombineLse | pod_attn/pod_attn/fused_fwd_kernel.h:1641-1681 | The combined log-sum-exp is the logarithm of the splits' total mass, for every number of lanes and of padding slots, infinite when all are empty, and infinite when one is. |
| Combine.CombineRow | pod_attn/pod_attn/fused_fwd_kernel.h:1641-1747 | The combined output is the mass-weighted average of the split outputs; a split output without numbers spoils it. |
| Combine.CombinedIsAttention | pod_attn/pod_attn/fused_fwd_kernel.h:1667-1747 | Combining attentions over consecutive key ranges gives the attention over their union. |
| SplitAttention.SplitAndCombine | pod_attn/pod_attn/fused_fwd_kernel.h:539-1761 | One split writes the output itself, several are combined: for every number of splits, also splits without blocks and splits that stop short, every row gets its attention over the keys of all splits, and its log-sum-exp also if it is spoiled; for shapes that qualify the documented one, over all keys if the splits reach them, as the unsplit kernel gives it. |
| Scheduler.StepInv | pod_attn/pod_attn/fused_fwd_kernel.h:1452-1495 | Every atomicAdd of every thread block keeps the claims distinct and complete, and a thread block redraws or leaves only when counters are exhausted. |
| Scheduler.RunInv | pod_attn/pod_attn/fused_fwd_kernel.h:1452-1495 | The invariant holds after every schedule. |
| Scheduler.ExitMeansAllClaimed | pod_attn/pod_attn/fused_fwd_kernel.h:1483-1492 | As soon as one thread block has left empty-handed, every slot of both operations is claimed exactly once. |
| Scheduler.OneShotExact | pod_attn/pod_attn/fused_fwd_kernel.h:1452-1495 | With one thread block per slot, in every interleaving and on any placement, no slot is claimed twice, no thread block comes away empty, and when all have finished every slot of both operations is claimed exactly once. |
| Scheduler.OneShotSurplus | pod_attn/pod_attn/fused_fwd_launch_template.h:434 | With any number of thread blocks, exactly the surplus comes away empty. |
| Scheduler.PersistentExact | pod_attn/pod_attn/fused_fwd_kernel.h:1262-1310 | For any number of looping workers, slots are claimed at most once, a worker leaves only when all are claimed, and when all have left every slot is claimed exactly once. |
| Scheduler.RunTerminates | pod_attn/pod_attn/fused_fwd_kernel.h:1262-1310 | No schedule keeps the workers moving for more steps than three per unclaimed slot plus those of the current rounds. |
| Scheduler.RoundsFinish | pod_attn/pod_attn/fused_fwd_kernel.h:1452-1495 | From any reachable state, as many fair rounds as its measure finish every thread block. |
| Scheduler.FairLaunchCompletes | pod_attn/pod_attn/fused_fwd_kernel.h:1262-1310 | A launch whose thread blocks all keep getting turns, three rounds for every slot and thread block, finishes with every slot of both operations claimed exactly once. |
| Scheduler.TicketMix | pod_attn/pod_attn/fused_fwd_kernel.h:1456-1480 | Among the first n tickets of an SM, the rarer operation gets exactly its share of one in every ratio plus one. |
| LaunchCoverage.DecodeEncode | pod_attn/pod_attn/fused_fwd_kernel.h:1522-1535 | Every tile has a logical block within the launch that decodes to it. |
| LaunchCoverage.EncodeDecode | pod_attn/pod_attn/fused_fwd_kernel.h:1562-1577 | Every logical block decodes to a tile of the launch, and no two to the same. |
| LaunchCoverage.LaunchComputesEveryTileOnce | pod_attn/pod_attn/fused_fwd_kernel.h:1412-1577 | In every complete run of the fused launch, every prefill and every decode tile is computed by exactly one share of exactly one thread block. |
| LaunchCoverage.FairRunComplete | pod_attn/pod_attn/fused_fwd_kernel.h:1412-1495 | Every fair schedule of the fused launch that is long enough is a complete run. |
| LaunchCoverage.CombineReadsWhatSplitsWrote | pod_attn/pod_attn/fused_fwd_kernel.h:1752-1761 | The combine kernel reads a split's partial result where the split wrote it, and takes the row index apart into the same batch entry, head and query. |
| LaunchCoverage.RowOfIndex | pod_attn/pod_attn/fused_fwd_kernel.h:1752-1761 | Every index of the combine kernel is taken apart into an existing row whose place it is. |
| LaunchCoverage.OffsetInjective | pod_attn/pod_attn/fused_fwd_kernel.h:551-556 | No two results of splits, batch entries, heads and rows have the same place. |
| FusedLaunch.RunTile | pod_attn/pod_attn/fused_fwd_kernel.h:1522-1577 | A share of a thread block runs the kernel of its operation on its tile, and leaves every existing row done. |
| FusedLaunch.RunShares | pod_attn/pod_attn/fused_fwd_kernel.h:1412-1577 | Every share of every claim of an operation has computed the tile that its logical block decodes to. |
| FusedLaunch.AnyOrderSettles | pod_attn/pod_attn/fused_fwd_kernel.h:1412-1577 | In whatever order the shares write their rows, every place that is written to ends with what one of its writers wrote. |
| FusedLaunch.StoreRows | pod_attn/pod_attn/fused_fwd_kernel.h:551-556 | Writes the rows of the tiles to the buffers, one after the other, in the order given. |
| FusedLaunch.PlaceHoldsRow | pod_attn/pod_attn/fused_fwd_kernel.h:551-556 | In whatever order the writes happen, a row's place holds what its own tile computed for it, for no other tile writes there. |
| FusedLaunch.SplitRowInPlace | pod_attn/pod_attn/fused_fwd_kernel.h:1412-1577 | After a complete run every row of every split of both operations is in its place. |
| FusedLaunch.RunOperation | pod_attn/pod_attn/fused_fwd_kernel.h:1412-1577 | Running the tiles of every claim and writing the rows in any order is such a run. |
| FusedLaunch.OutputIsAttention | pod_attn/pod_attn/fused_fwd_kernel.h:1412-1761 | In every complete run of the fused launch, every output row of both operations, written by one split or combined from several, is the documented attention of its query over all keys if the scale is positive or no key of its tile's blocks is masked, and otherwise no number, with its log-sum-exp. |
| FusedLaunch.Forward | pod_attn/pod_attn/fused_fwd_kernel.h:1412-1761 | A whole operation, from the claims to the pass over all rows: every row of the output is what OutputIsAttention says. |
| CallAttention.RowIsQuery | pod_attn/pod_attn/fused_api_setup.h:291-306 | A row of the launch sees exactly the keys that the call's mask allows its query, with grouped heads swapped or not. |
| CallAttention.LaunchPosition | pod_attn/pod_attn/fused_api_setup.h:295-303 | The row and head of the launch that hold a head of the call have its query vector and its KV head, with grouped heads swapped or not. |
| CallAttention.CallAnswered | pod_attn/pod_attn/fused_api.cpp:478-486 | What the host returns for every head of every query, turned back from rows if it was swapped, is the attention of that head over the keys of its own KV head that the mask of the call allows. |
| CallAttention.AnswerCall | pod_attn/pod_attn/flash_attn_interface.py:1192-1206 | The same from the launch on, for thread blocks and writes in any order. |
| PagedCache.MovedExact | pod_attn/pod_attn/fused_fwd_kernel.h:909-919 | A pointer moved by differences of page-table entries and offsets is the address that a direct lookup gives. |
| PagedCache.TilesInPages | pod_attn/pod_attn/fused_fwd_kernel.h:594-605 | Every tile lies in one page if and only if kBlockN divides the page size. |
| PagedCache.AdmittedTilesFit | pod_attn/pod_attn/fused_api_setup.h:283 | The host checks that page sizes are multiples of 256, so every tile of every configured height lies in one page. |
| PagedCache.TileRows | pod_attn/pod_attn/fused_fwd_kernel.h:594-605 | The rows of a tile are then at its pointer plus multiples of the row stride. |
| PagedCache.AddressesDistinct | pod_attn/pod_attn/fused_fwd_kernel.h:594-605 | Different rows are at different addresses when pages are distinct and do not overlap. |
| PagedCache.WalkMasking | pod_attn/pod_attn/fused_fwd_kernel.h:860-945 | The masking loop visits its blocks in descending order and leaves both pointers where the tail loop needs them. |
| PagedCache.WalkBlocks | pod_attn/pod_attn/fused_fwd_kernel.h:834-1004 | The masking loop with its break and the tail loop visit every block once in descending order, the first n_masking_steps of them masked, and each block's K and V pointers, V one block behind K, are those of a direct lookup. |
| PagedCache.VisitReadsRows | pod_attn/pod_attn/fused_fwd_kernel.h:870-924 | When pages hold whole tiles, every visited tile is exactly rows n * kBlockN to n * kBlockN + kBlockN - 1 of the sequence, in K and in V. |
| PagedCache.Move | pod_attn/pod_attn/fused_fwd_kernel.h:976-986 | A pointer at one block's direct address is moved to the next block's. |
| AppendCache.CopyTile | pod_attn/pod_attn/utils.h:309-335 | Copies exactly the new rows of the tile, each to its own address. |
| AppendCache.Append | pod_attn/pod_attn/fused_fwd_kernel.h:741-789 | The copy loop of one thread block copies exactly the new rows of its blocks. |
| AppendCache.NextPointer | pod_attn/pod_attn/fused_fwd_kernel.h:772-787 | The cache pointer is at the next block's direct address whenever there is a next block to copy. |
| AppendCache.AnyOrder | pod_attn/pod_attn/fused_fwd_kernel.h:695-698 | In whatever order and however often rows are copied by racing thread blocks, copied rows hold the new values and everything else is unchanged. |
| AppendCache.ReadsExtended | pod_attn/pod_attn/fused_fwd_kernel.h:789-794 | A thread block that has copied its own rows reads the extended sequence there, whatever the others have done. |
| AppendCache.CopiedRows | pod_attn/pod_attn/fused_fwd_kernel.h:736-741 | All thread blocks of a launch together copy exactly the new rows from the first window's first block on and before the end of the splits. |
| AppendCache.CopiesAllExactly | pod_attn/pod_attn/fused_fwd_kernel.h:736-741 | They copy all new rows if and only if the first window begins no later than the first new row's block and the splits reach the last. |
| AppendCache.AppendSplit | pod_attn/pod_attn/fused_fwd_kernel.h:695-789 | A thread block's copy loop copies exactly the new rows of its split's blocks, and none if it has no block. |
| AppendCache.AppendComplete | pod_attn/pod_attn/fused_fwd_kernel.h:721-793 | After a launch, in whatever order its thread blocks copied, old rows and all other memory are unchanged, every copied row holds its new value, and all new rows are in place if and only if the launch takes them in. |
| AppendCache.WindowSkipsNewRows | pod_attn/pod_attn/fused_fwd_kernel.h:539-542 | A launch with a window in which only the last four of a hundred new rows are copied. |
| AppendCache.ShortLaunchSkipsNewRows | pod_attn/pod_attn/fused_fwd_kernel.h:539-547 | A launch sized for 128 keys in which the last of 129 new rows is not copied. |
| CacheReads.Reading.LoadsValues | pod_attn/pod_attn/fused_fwd_kernel.h:870-924 | The value tile that an iteration multiplies with is, row by row, what is stored from its V pointer on, and zero past the last key. |
| CacheReads.Reading.LoadsScores | pod_attn/pod_attn/fused_fwd_kernel.h:834-945 | The scores of an iteration are the products of the queries with what is stored from its K pointer on. |
| CacheReads.Reading.PointersExact | pod_attn/pod_attn/fused_fwd_kernel.h:870-924 | The walk reads every key of its blocks, in K and in V, where a direct lookup finds it. |
| CacheReads.SplitStoresExtended | pod_attn/pod_attn/fused_fwd_kernel.h:695-794 | Once a thread block has copied its own rows, its part of the memory stores the extended sequence, whatever the others have copied. |
| AppendedAttention.SplitReadsExtended | pod_attn/pod_attn/fused_fwd_kernel.h:695-794 | What a split computes with, read through its pointers at times when it had made its own copies and others had made any, is the extended sequence on all its keys. |
| AppendedAttention.SplitDoneAgrees | pod_attn/pod_attn/fused_fwd_kernel.h:834-1008 | The rows that a split leaves depend only on the inputs at its keys. |
| AppendedAttention.AppendTensor | pod_attn/pod_attn/fused_fwd_kernel.h:736-793 | After a thread block's copies, its part of the memory has all its new rows, and nothing that others copied is lost. |
| AppendedAttention.ReadTile | pod_attn/pod_attn/fused_fwd_kernel.h:794-1004 | The walk of a split with its moved pointers reads the memory as SplitReadsExtended asks. |
| AppendedAttention.AppendAndAttend | pod_attn/pod_attn/fused_fwd_kernel.h:690-1008 | A thread block that appends and attends leaves every row with its attention over the split's keys of the extended sequence, whatever others had copied before. |
| AppendedAttention.AppendedOutput | pod_attn/pod_attn/fused_fwd_kernel.h:1412-1761 | In every complete run of a launch that appends, every output row is its attention over the extended sequence, although each share read the cache on its own while others were still copying. |
| PagePool.ValidOffset | vattention/vattention.cu:365-376 | The offset check of a grow holds exactly while the request has fewer than its maximum of pages. |
| PagePool.MappingsDisjoint | vattention/utils.h:138-141 | Pages of different requests or blocks never overlap in virtual memory, and lie in the reserved range. |
| PagePool.MapKeepsPartition | vattention/mux.h:37-48 | Mapping two popped pages keeps every reserved page in exactly one place. |
| PagePool.UnmapKeepsPartition | vattention/mux.h:51-66 | Unmapping an entry keeps every reserved page in exactly one place. |
| PagePool.UnmapUndoesMap | vattention/mux.h:37-66 | Unmapping a key that was just mapped restores the page map, and the pool up to the order of its last two pages. |
| PagePool.AddLayer | vattention/cudaInternal.h:70-82 | Mapping the next layer of the next block adds a key that was not there. |
| PagePool.RemoveLayer | vattention/mux.h:51-66 | Unmapping the next layer of the last block removes a key that was there. |
| BlockDemand.TokensToPagesExact | vattention/utils.h:108-111 | The pages for some tokens hold them, and one page less would not. |
| BlockDemand.GrowingStagesFit | vattention/vattention.cu:579-585 | When no request gives anything up, serving requests in order succeeds exactly when all fit together. |
| BlockDemand.ShrinkingStageFails | vattention/vattention.cu:562-576 | Two requests that fit before and after a step but not while it serves them in order. |
| BlockDemand.LookAheadFails | vattention/vattention.cu:655-703 | Requests whose next tokens all fit, but of which, whatever the manager leaves mapped, one is not covered. |
| Allocator.Manager.constructor | vattention/vattention.cu:55-81 | An empty allocator whose requests' ranges hold the pages of the maximum context. |
| Allocator.Manager.Pop | vattention/mux.h:1-8 | Takes the last free page, or reports the empty pool and changes nothing. |
| Allocator.Manager.MapPages | vattention/mux.h:37-48 | Takes the last page as K page and the one before as V page of the key, or reports a pool that ran empty, which then is empty. |
| Allocator.Manager.UnmapPages | vattention/mux.h:51-66 | Removes the key and puts its K page and then its V page at the end of the pool. |
| Allocator.Manager.MapLayer | vattention/vattention.cu:430-435 | Mapping the next layer of a request's next page keeps the partition and the exact keys; all other mappings stay. |
| Allocator.Manager.UnmapLayer | vattention/vattention.cu:344-349 | Unmapping the next layer of a request's last page keeps the partition and the exact keys; all other mappings stay. |
| Allocator.Manager.MapBlock | vattention/vattention.cu:415-437 | With one free kvblock, maps all layers of a request's next page; the pool cannot run empty midway, and the invariant holds again. |
| Allocator.Manager.UnmapBlock | vattention/vattention.cu:330-352 | Unmaps all layers of a request's last page and keeps the invariant. |
| Allocator.Manager.FreeExact | vattention/utils.h:216-232 | Dividing the pool size by the pages per kvblock loses nothing: it is the total minus all mapped kvblocks. |
| Allocator.Manager.PhysPagesExact | vattention/utils.h:249-256 | The reservation is the largest number of whole kvblocks that fits in the memory. |
| Allocator.Manager.Reserve | vattention/cudaInternal.h:45-59 | Tops the pool up to that number with distinct pages and keeps the invariant. |
| Allocator.Manager.Grow | vattention/vattention.cu:379-439 | All or nothing: without enough free kvblocks nothing changes and only a synchronous call fails; otherwise the request gets them up to the end of its range. |
| Allocator.Manager.Release | vattention/vattention.cu:354-363 | Leaves a request exactly the blocks to retain. |
| Allocator.Manager.TakeSurplus | vattention/vattention.cu:598-603 | Takes from one request exactly what its length does not need. |
| Allocator.Manager.Reclaim | vattention/vattention.cu:587-605 | Takes surplus from the last request down until enough is free, never what a request's length needs; enough is free afterwards exactly when it fits beside what all requests hold. |
| Allocator.Manager.MapForStep | vattention/vattention.cu:540-560 | Succeeds exactly when the request's need fits beside what the others hold; what anyone holds stays mapped to the same pages. |
| Allocator.Manager.MakeRoom | vattention/vattention.cu:552-558 | Reclaims if needed and grows the request by what it lacks, exactly when that fits beside what all hold. |
| Allocator.Manager.StepOne | vattention/vattention.cu:566-574 | Sets one request's length and maps or eagerly releases its pages; the others only ever lose surplus. |
| Allocator.Manager.StepSync | vattention/vattention.cu:562-576 | Succeeds exactly when every stage fits, each request against what the later ones still hold; then all have what they need, eagerly released requests have nothing, and pages needed before and after are the same. |
| Allocator.Manager.PrepareAll | vattention/vattention.cu:579-585 | Serving requests in order succeeds exactly when every stage fits; then every request has what it needs, and what was held stays mapped to the same pages. |
| Allocator.Manager.Prepare | vattention/vattention.cu:716-722 | The synchronous part of an asynchronous step succeeds, for lengths within the limit, exactly when all requests fit together. |
| Allocator.NotBestFit | vattention/vattention.cu:731-756 | A state in which the chosen id is not a best fit. |
| Allocator.Manager.AllocNewBatchIdx | vattention/vattention.cu:731-756 | Returns an inactive id or -1; it is a best fit if and only if the first inactive id has enough pages mapped or none has. |
| Allocator.Manager.FreeBatchIdx | vattention/vattention.cu:758-761 | The request becomes inactive and holds nothing; its pages stay mapped until they are reclaimed. |
| Allocator.Manager.SetDeferred | vattention/vattention.cu:763-766 | Sets whether the manager leaves spare kvblocks where they are, and nothing else. |
| Allocator.Manager.CountAsks | vattention/vattention.cu:661-662 | The number of kvblocks that active requests lack for their next token. |
| Allocator.Manager.MakeFree | vattention/vattention.cu:664-676 | Reclaims if needed, and reports whether enough is free. |
| Allocator.Manager.EagerRound | vattention/vattention.cu:680-692 | Grows only active requests, only towards what the given number of tokens needs, and stops early exactly beyond the first round and at two kvblocks; if everything asked for in the first round fits, every active request gets the page of its next token. |
| Allocator.Manager.EagerRounds | vattention/vattention.cu:678-693 | All rounds together keep every mapping and never look more than nine tokens ahead. |
| Allocator.Manager.ReclaimOne | vattention/vattention.cu:611-636 | Takes one kvblock from the last inactive request that has one, never from the first inactive one, and nothing when reclaim is deferred. |
| Allocator.Manager.Manage | vattention/vattention.cu:655-703 | Keeps everything that is held, never looks more than nine tokens ahead, takes back one spare kvblock when nothing is asked for, and gives every active request the page of its next token if, once room was made for what was asked for, everything that is asked for then fits, and only then if no request asks for more than is left of its range. |
| SplitHeuristic.EligibleMeansNoEmptySplit | pod_attn/pod_attn/fused_api_setup.h:163-170 | A split count is eligible exactly when cutting the blocks into that many chunks leaves none empty. |
| SplitHeuristic.EligibleSplitsHaveBlocks | pod_attn/pod_attn/fused_api_setup.h:163-170 | With an eligible count every split of a full-length sequence begins before its end. |
| SplitHeuristic.NumSplits | pod_attn/pod_attn/fused_api_setup.h:156-190 | One split when the work almost fills the SMs, or without work or room; otherwise the smallest eligible count within 85% of the best efficiency of any eligible count up to the clamped maximum. |
| HostSetup.RewriteValid | pod_attn/pod_attn/fused_api_setup.h:126-133 | The flags and windows a kernel gets always satisfy what the kernels assume, in even launches too. |
| HostSetup.RewriteExact | pod_attn/pod_attn/fused_api_setup.h:291-306 | The rewritten mask allows the same keys to every row for all lengths up to the capacity if and only if the limit that is dropped or put in does not matter. |
| HostSetup.ShortQueriesSafe | pod_attn/pod_attn/fused_api_setup.h:291-306 | With at most one more query than the capacity it always does. |
| HostSetup.LongQueriesUnsafe | pod_attn/pod_attn/fused_api_setup.h:126-133 | A window without a right limit for which it does not. |
| HostSetup.KernelRowSeesCallMask | pod_attn/pod_attn/flash_attn_interface.py:1192-1206 | When the rewriting is safe, the rows that the kernels provably attend with, even launches or not, see exactly the keys that the documented mask of the call allows. |
| HostSetup.SwappedRowSees | pod_attn/pod_attn/fused_api_setup.h:295-303 | When the host swaps, every row of the swapped launch, whatever its position, sees exactly the keys that the only query may see. |
| HostSetup.SwapNeedsOpenWindow | pod_attn/pod_attn/fused_api_setup.h:297 | A window for which it would not, and for which the host does not swap. |
| HostSetup.SwapTransparent | pod_attn/pod_attn/fused_api_setup.h:295-303 | When the host swaps, computing grouped heads as rows, each head with its own KV head and each row with its own mask, and swapping back gives every query head what it gets without the swap; the swap alone is undone. |
| Allreduce.RunFoldsGroup | pod_attn/pod_attn/utils.h:53-73 | For every power-of-two group size and every associative, commutative operation, each lane ends with the operation over its whole aligned group, each lane counted once. |
| Allreduce.ReduceFoldsAll | pod_attn/pod_attn/softmax.h:25-47 | Thread reductions of values that are spread over the lanes in any way, followed by an all-reduce, give every lane the operation over all values. |
| Allreduce.ReduceSlots | pod_attn/pod_attn/fused_fwd_kernel.h:1667-1678 | Each lane reduces the slots it owns and the lanes all-reduce: every lane ends with the operation over all slots. |

## Left out

- SplitAttention.UnsplitTile: says nothing of an even unmasked launch without keys, which reads a block that does not exist (EvenLaunchWithoutKeys); for an even causal shape that does not qualify it gives the mask that the code applies, not the documented one.
- SplitAttention.SplitAndCombine: with a negative scale and blocks of fewer than eight columns, which no configured tile has, leaves open whether a spoiled row gets plus infinity or the log-sum-exp of its safe splits.
- Combine.CombineRow: asks for no more splits than the combine kernel has slots, and for a power of two of at least two lanes, as the launcher instantiates it.
- FusedLaunch.OutputIsAttention: asks that shapes qualify, that batch entries are no longer than the launch was sized for and that the unsplit kernel has keys in an even unmasked launch, conditions that are exact for each tile.
- CallAttention.CallAnswered: asks that RewriteSafe holds when nothing is swapped, which RewriteExact shows to be exact; takes the product of a query and a key as a function of both rows.
- AppendedAttention.AppendedOutput: asks that all rows of the extended sequence fit in the cache and that its rows do not overlap.
- AppendCache.AppendComplete: asks that tiles lie in pages, as AdmittedTilesFit shows of every launch, and that rows of the cache do not overlap.
- CacheReads.Reading.LoadsScores: takes the product of a query and a key as a function of both rows.
- Allocator.Manager.MapForStep: asks that the request's length has been set, which both of its callers do first.
- Allocator.Manager.Manage: leaves open whether every next token gets its page when what is asked for does not fit and some request, past the limit and not fully mapped, asks for more than is left of its range.
- Allocator.Manager.Reserve: takes the handles that the driver creates as a parameter, and asks that they are new and distinct.
- Scheduler.PersistentExact: is about claims only; in the persistent kernel threads carry their index from one slot to the next and surplus shares leave for good, and no generated kernel uses it.
- SplitHeuristic.NumSplits: computes with exact quotients instead of floats.
- Rounding: scores, sums and exponentials are exact, and finite scores stay finite.
- Which rows a quad holds, shared memory, asynchronous copies and tensor-core instructions: the rows of a tile are computed one by one, each by its own quad; Partner stands for the exclusive or of lane numbers.
- Dropout, softcap, ALiBi, rotary embeddings, left padding and ragged query batches.
- AppendCache.Append: copies one tensor, and a row as a unit; K and V are appended alike, one after the other instead of tile by tile.
- Scheduler.OneShotExact: uses one number of SMs; the kernel indexes `tbAssign` by the SM count that the device register `%nsmid` gives, while the host sizes it by the device's multiprocessor count, and the two are taken to be equal.
- Counters and addresses are unbounded integers; 32-bit wrap-around is not modelled.
- The interleaving of the background manager with the API calls: each call and each pass of the manager runs to its end, as the spin wait before a step intends.
- Pages shared by several requests (`map_common_pages_in_batch`), the second driver backend, cache component specifications with other than two components, fragmentation metrics and cleanup.
- The horizontally fused kernels, the choice among fused operations, and the Python interfaces.
