# Camera mirror: a Dafny model

This project models the camera-mirror stage of a link-based video pipeline.
The stage flips a YUYV 4:2:2 interleaved frame vertically, in place.
It does so by swapping the words of the top and bottom rows of every row pair.
A link plugin feeds this algorithm: it takes buffers from the previous link, drops the ones it cannot handle, counts what it does, forwards the frames the algorithm flipped and releases every buffer.

The Dafny modules follow the two C files:

- `SysTypes` (sys_types.dfy): `UInt32`, the 32-bit frame word, the link status codes and the data formats.
- `RowSwaps` (row_swaps.dfy): the word-by-word exchange of row pairs, replayed over a schedule of (top, bottom) row offsets.
  - It proves the permutation, frame, exchange and involution facts once, independent of how the offsets are computed.
- `MirrorSpec` (mirror_spec.dfy): the pointer arithmetic of `Alg_CameraMirrorProcess` as a `Geometry`, giving the row width in words, the height, the pitch stride and the bottom start.
  - It defines the reference flip and proves when the flip is a vertical mirror.
- `MirrorAlgo` (mirror_algo.dfy): `Alg_CameraMirrorProcess` as methods whose nested loops walk `inputPtr` and `outputPtr` and swap through `temp`.
  - It covers the code as written and the corrected start of the bottom pointer.
- `MirrorFinding` (mirror_finding.dfy): the pointer-start discrepancy, in general and on concrete frames.
- `MirrorLink` (link_plugin.dfy): `AlgorithmLink_CameraMirrorCreate`, `AlgorithmLink_CameraMirrorProcess`, `AlgorithmLink_CameraMirrorControl` and `AlgorithmLink_CameraMirrorDelete`.
  - These are pure functions over an immutable link object: a configuration, the first-frame latch and the counters.
  - The framework's queues are sequences: the input list, the buffers put to output queue 0 and the buffers released with their drop flags.
  - The link flips frames with the algorithm as written, so a forwarded frame is mirrored only when the pitch is one row; the corrected algorithm is `MirrorAlgo.ProcessCorrected`.

Frame buffers are `seq<bv32>`. A method returns the new contents rather than mutating an array.
Addresses are word offsets from the start of the first plane.
Every swap must stay inside the buffer; this is a precondition, because an out-of-range access is undefined behaviour in C.
The code as written breaks it for some padded frames that do fit their buffer (`MirrorFinding.AsWrittenLeavesBuffer`, see Findings); those calls are outside the model.

## Model

| member | source | states |
|---|---|---|
| MirrorSpec.WordWidth | cameraMirrorAlgo.c:30 | the row width in words is `(width*2)>>2` in 32-bit arithmetic, i.e. `width / 2` whenever `width < 2^31` |
| RowSwaps.SwapRowPermutes | cameraMirrorAlgo.c:44-50 | exchanging `n` words of two rows one by one keeps the multiset of buffer words |
| RowSwaps.SwapRowFrame | cameraMirrorAlgo.c:44-50 | the inner loop changes no word outside the two rows it swaps |
| RowSwaps.SwapRowExchanges | cameraMirrorAlgo.c:44-50 | for two rows sharing no word, in either order, after the inner loop each row holds the other's old words, position by position |
| RowSwaps.SwapPairsPermutes | cameraMirrorAlgo.c:42-55 | the whole schedule of row-pair swaps is a permutation of the buffer |
| RowSwaps.SwapPairsFrame | cameraMirrorAlgo.c:42-55 | words in no scheduled row keep their value |
| RowSwaps.SwapPairsToPartners | cameraMirrorAlgo.c:42-55 | when no two scheduled rows share a word, every word of the result is the old word at its partner position under the schedule |
| RowSwaps.SwapPairsExchange | cameraMirrorAlgo.c:42-55 | when no two scheduled rows share a word (whatever their order in the buffer), every scheduled pair of rows is exchanged |
| RowSwaps.SwapPairsInvolution | cameraMirrorAlgo.c:42-55 | when no two scheduled rows share a word (whatever their order in the buffer), running the schedule twice restores the buffer |
| MirrorSpec.AsWritten | cameraMirrorAlgo.c:30-54 | the geometry the code computes has the row width `(width*2)>>2`, the given height and a stride of `inPitch[0]>>2` words; its bottom start is `height-1` row widths, not pitches, whenever `height` row widths stay below 2^32 |
| MirrorSpec.TimesIsProduct | cameraMirrorAlgo.c:52-54 | `r` pointer steps of `s` words reach offset `r * s` |
| MirrorSpec.FlipPermutes | cameraMirrorAlgo.c:47-49 | the flip keeps the multiset of buffer words, because every change is a swap |
| MirrorSpec.FlipFrame | cameraMirrorAlgo.c:42-55 | for every in-bounds geometry, words in no exchanged row are unchanged; which words those are depends on the start of the bottom pointer (as written with a padded pitch, the padding can be exchanged) |
| MirrorSpec.SeparatedApart | cameraMirrorAlgo.c:41-54 | when the last top row ends before the last bottom row and the stride covers a row, no two scheduled rows share a word |
| MirrorSpec.FlipExchangesPairs | cameraMirrorAlgo.c:41-55 | whenever no two addressed rows share a word (crossing as-written schedules included), iteration `r` exchanges the rows at `r*stride` and `base - r*stride` |
| MirrorSpec.FlipInvolution | cameraMirrorAlgo.c:41-55 | whenever no two addressed rows share a word, flipping twice with the same parameters restores the buffer |
| MirrorSpec.BotIsMirrorRow | cameraMirrorAlgo.c:41-54 | when the bottom pointer starts at the last row, iteration `r` addresses row `height-1-r` |
| MirrorSpec.MirrorGeometry | cameraMirrorAlgo.c:41-54 | a frame that fits, with the bottom pointer at its last row and a stride of at least a row, is in bounds and separated |
| MirrorSpec.MiddleRowUntouched | cameraMirrorAlgo.c:42 | for odd `height`, when the bottom pointer starts at the last row and the stride covers a row, the middle row is in no swapped pair |
| MirrorSpec.FlipMirrors | cameraMirrorAlgo.c:41-55 | when the bottom pointer starts at the last row, the stride covers a row and every row of the frame fits the buffer, row `r` of the result is old row `height-1-r` for every `r < height`, and words outside the rows are unchanged |
| MirrorAlgo.SwapWords | cameraMirrorAlgo.c:44-50 | the inner loop with `temp` performs exactly the reference exchange of one row pair |
| MirrorAlgo.SwapRowPairs | cameraMirrorAlgo.c:36-55 | the outer loop with the two pointer walks performs exactly the reference flip |
| MirrorAlgo.Process | cameraMirrorAlgo.c:11-57 | SOK iff the format is YUYV; other formats give EFAIL and leave every word; YUYV flips with the computed geometry; always a permutation; a vertical mirror when the pitch is exactly one row, `height * wordWidth < 2^32` and every row of the frame fits the buffer |
| MirrorAlgo.PackedStartsAtLastRow | cameraMirrorAlgo.c:41 | with `pitch/4 == wordWidth` and a frame below 2^32 words, the computed bottom start is the last row |
| MirrorAlgo.AlgControl | cameraMirrorAlgo.c:59-65 | `Alg_CameraMirrorControl` always returns SOK |
| MirrorAlgo.AlgDelete | cameraMirrorAlgo.c:70-74 | `Alg_CameraMirrorDelete` always returns SOK |
| MirrorAlgo.Corrected | cameraMirrorAlgo.c:41 | the corrected geometry keeps width and stride and starts the bottom pointer at the last row |
| MirrorAlgo.ProcessCorrected | cameraMirrorAlgo.c:11-57 | as `Process`, but on YUYV the frame is mirrored and its padding kept whenever the pitch covers a row and the frame fits |
| MirrorFinding.AsWrittenMissesLastRow | cameraMirrorAlgo.c:41 | for a pitch wider than the row and at least two rows, the computed start lies before the last row |
| MirrorFinding.AsWrittenFlipCounterexample | cameraMirrorAlgo.c:41-54 | for a 2x2 frame with an 8-byte pitch, the code as written exchanges the first row with its padding word, giving `[b1,b0,b2,b3]`; the result is mirrored only if the first three words are equal |
| MirrorFinding.RowZeroWithPadding | cameraMirrorAlgo.c:41-54 | in that frame, a result that exchanges the first row with its padding word is a vertical mirror only if the first three words are equal |
| MirrorFinding.MorePaddedGeometries | cameraMirrorAlgo.c:30-41 | the as-written geometries of 2x3 and 2x4 frames with an 8-byte pitch, of a 4x6 frame with a 12-byte pitch and of a 2x4 frame with a 40-byte pitch |
| MirrorFinding.AsWrittenSwapsMiddleRow | cameraMirrorAlgo.c:41-50 | in the 2x3 frame with an 8-byte pitch, the code as written exchanges the first word of the middle row, which a mirror keeps |
| MirrorFinding.AsWrittenCrossingRows | cameraMirrorAlgo.c:41-54 | in the 2x4 frame with an 8-byte pitch, the as-written pairs (0,3) and (2,1) cross but share no word, so the exchange and involution lemmas apply though the rows are not separated |
| MirrorFinding.AsWrittenOverlappingRows | cameraMirrorAlgo.c:41-54 | in the 4x6 frame with a 12-byte pitch, rows of two as-written pairs share a word |
| MirrorFinding.AsWrittenLeavesBuffer | cameraMirrorAlgo.c:41-54 | in the 2x4 frame with a 40-byte pitch, every row fits the 40 words of `height * pitch` bytes, yet the second bottom row starts 7 words before the buffer, so no buffer holds what the call addresses |
| MirrorFinding.CorrectedFlipExample | cameraMirrorAlgo.c:41-54 | the same frame with the corrected start becomes `[b2,b1,b0,b3]`: the two rows are exchanged, the padding stays, and the frame is mirrored |
| MirrorLink.Create | cameraMirrorLink_algPlugin.c:152-210 | the link takes the previous queue's `numCh` and copies exactly that many channel infos to its input table and output queue; the latch starts clear |
| MirrorLink.HandleBuffer | cameraMirrorLink_algPlugin.c:288-420 | one buffer: released once with its drop flag; dropped iff not a video frame or on no input channel, and then counted as an error; otherwise flipped by the algorithm as written, counted as processed and output, and forwarded; halts iff accepted with an unsupported format |
| MirrorLink.Output | cameraMirrorLink_algPlugin.c:324-364 | the algorithm call keeps a buffer's type, channel, length and multiset of words |
| MirrorLink.HandleAll | cameraMirrorLink_algPlugin.c:288-420 | the buffer loop keeps one info and one set of counters per input channel and never moves the command counter |
| MirrorLink.HandleAllHalts | cameraMirrorLink_algPlugin.c:330-345 | a call halts exactly when some accepted buffer has a format other than YUYV or YUV420SP |
| MirrorLink.HandleAllReleases | cameraMirrorLink_algPlugin.c:409-418 | every input buffer is released exactly once, in order, with its own drop flag |
| MirrorLink.HandleAllForwards | cameraMirrorLink_algPlugin.c:389-401 | the buffers put to output queue 0 are exactly the released buffers not flagged as dropped, in order; forwarded plus dropped equals received |
| MirrorLink.HandleAllErrorCount | cameraMirrorLink_algPlugin.c:308-315 | the error counter grows by the number of dropped buffers |
| MirrorLink.HandleAllChannelCounts | cameraMirrorLink_algPlugin.c:298-383 | a channel's receive counter grows by its buffers, its process and output counters by its accepted buffers |
| MirrorLink.Process | cameraMirrorLink_algPlugin.c:230-425 | an empty list only counts the command; the latch ends set iff it was set or the list is non-empty; configuration and output queue never change |
| MirrorLink.ProcessCounters | cameraMirrorLink_algPlugin.c:270-286 | the command counter grows by one on every call except the one that trips the latch, where the statistics reset leaves it at 0 |
| MirrorLink.ProcessReleasesAll | cameraMirrorLink_algPlugin.c:288-420 | a call halts iff some accepted buffer has an unsupported format; otherwise it releases every buffer with its drop flag and forwards exactly the kept ones |
| MirrorLink.OutputMirrors | cameraMirrorLink_algPlugin.c:324-364 | type and channel never change and the words are a permutation of the old ones; only an accepted YUYV frame changes (a YUV420SP frame keeps its words because the algorithm's EFAIL is ignored); its row pairs are exchanged whenever no two addressed rows share a word; it is vertically mirrored, padding kept, when the pitch is one row and the frame stays below 2^32 words |
| MirrorSpec.FrameFitsWithin | cameraMirrorAlgo.c:42-54 | rows no wider than the stride all lie inside `n` words whenever `height` strides fit in `n` |
| MirrorLink.CacheRegionCoversMirror | cameraMirrorLink_algPlugin.c:330-356 | when `height * pitch` fits in 32 bits and the pitch covers a row, the cache region of that many bytes holds every row of the frame and every word the algorithm call (as written) addresses in a buffer it stays inside |
| MirrorLink.Control | cameraMirrorLink_algPlugin.c:441-476 | statistics printing or the algorithm's control call; either way the link returns SOK |
| MirrorLink.Delete | cameraMirrorLink_algPlugin.c:510-529 | only the statistics-collector check can fail, because the algorithm's delete always succeeds; otherwise SOK |

## Left out

- `Alg_CameraMirrorCreate` and `Alg_CameraMirrorStop`: allocation and a constant SOK. The handle has no fields that matter, and the link never calls Stop.
- `AlgorithmLink_CameraMirrorStop` returns SOK and does nothing else.
- `AlgorithmLink_CameraMirrorPrintStatistics` and `AlgorithmLink_CameraMirror_initPlugin` are output and registration with the framework.
- Cache invalidate and write-back: DSP cache semantics. Only the size of the region is modelled (`CacheRegionBytes`).
- Timestamps and latency updates: clock instrumentation.
- `System_getLinksFullBuffers` is modelled as the input list parameter.
- `System_sendLinkCmd` is implied by each forwarded buffer.
- `AlgorithmLink_putFullOutputBuffer` is taken to succeed, so its assert never fires.
- `AlgorithmLink_queueInfoInit`, queue modes and the copied queue parameters are framework book-keeping with no effect on the model.
- The statistics collector is not part of this model. `Utils_resetLinkStatistics` is taken to zero every counter of the link, including the command counter, and a freshly allocated collector is taken to be zeroed.
- Allocation failures, i.e. the `UTILS_assert` checks on `malloc` and on the collector.
- Schedules whose rows overlap (possible as written with a padded pitch, see `MirrorFinding.AsWrittenOverlappingRows`) are modelled only by the sequential swap order. For them the model states the permutation and the untouched words; the pair exchange and the involution need not hold there and are not stated.
- Calls whose as-written rows leave the buffer (`MirrorFinding.AsWrittenLeavesBuffer`) write outside it, which is undefined behaviour in C; the model requires every call to stay in bounds and does not say what such a call does.
- Counters are unbounded naturals. The 32-bit wrap after 2^32 events is not modelled.
- Only the first plane of a frame is modelled; the link uses one plane for both formats.
- The channel table has no fixed maximum size. A previous link reporting more channels than the table holds is not modelled.
- `Alg_CameraMirrorProcess`'s loop counters are `Int32` compared against unsigned bounds. Both bounds are below 2^31, so this is modelled with unbounded integers.
- MirrorAlgo.Process: the mirror postcondition is stated only for a packed pitch (`pitch/4 == wordWidth`), because with a wider pitch the code as written does not mirror (see Findings). For every pitch it states the permutation; `MirrorSpec.FlipFrame` states the untouched words, and `MirrorSpec.FlipExchangesPairs` the exchanged pairs whenever no two addressed rows share a word.

## Findings

| source | as written | input that shows it | evidently intended | confidence | as-written member | corrected member |
|---|---|---|---|---|---|---|
| cameraMirrorAlgo.c:41 | the bottom pointer starts at `height*wordWidth - wordWidth`, a position measured in row widths, while both pointers move by `inPitch[0]>>2` words | width 2, height 2, pitch 8 bytes, words `[1,2,3,4]`: the result is `[2,1,3,4]`, which exchanges row 0 with its padding word | start at `(height-1)*(inPitch[0]>>2)`, the last row, giving `[3,2,1,4]` | not executed | MirrorFinding.AsWrittenFlipCounterexample | MirrorAlgo.ProcessCorrected |

The same start also makes the code as written exchange part of the middle row of an odd-height frame (`MirrorFinding.AsWrittenSwapsMiddleRow`), and with a wide enough pitch makes rows of different pairs overlap (`MirrorFinding.AsWrittenOverlappingRows`). With the corrected start neither happens: `MirrorSpec.MiddleRowUntouched` and `MirrorSpec.MirrorGeometry`.

Worst, with a pitch several rows wide the bottom pointer runs off the front of the buffer. In a 2x4 frame with a 40-byte pitch (`MirrorFinding.AsWrittenLeavesBuffer`), the frame's rows fit the 40 words that the link invalidates and writes back. The second iteration still exchanges the first row with a word 7 words before the buffer. The in-bounds preconditions of `MirrorAlgo.Process` and of the link's `FramesFit` exclude such calls. With the corrected start a frame that fits is always in bounds (`MirrorSpec.MirrorGeometry`).
