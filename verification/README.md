# Proofs about the DXAiT compute library

This project models the algorithms of the DXAiT library in Dafny and proves that they compute
what they are for. `dafny verify dfyconfig.toml` checks all of it.

| area | source | files |
|---|---|---|
| radix-2 FFT | `src/dxfft/dxfft.cpp` | `Fft.dfy`, `Butterfly.dfy`, `Rotation.dfy` |
| Walsh-Hadamard transform of the KV cache | `src/dxcache/dxcache.cpp` | `Hadamard.dfy`, `Butterfly.dfy` |
| attention kernels | `src/dxattention/dxattention.cpp` | `Softmax.dfy`, `Attention.dfy`, `FlashAttention.dfy`, `LinearAttention.dfy`, `AttentionGrid.dfy` |
| command graph (Kahn) and operator plan (depth-first) | `src/dxgraph/dxgraph.cpp`, `src/core/dx_graph_api.cpp` | `Graph.dfy`, `CommandGraph.dfy`, `GraphPlan.dfy` |
| streaming expert cache | `src/dxstream/dxstream.cpp`, `src/dxio/dxio.cpp` | `DirectStorage.dfy`, `StreamCache.dfy`, `StreamResidency.dfy`, `Streaming.dfy` |
| GGUF readers, tensor index, repacking | `src/dxmodel/dxmodel.cpp`, `src/dxstream/dxstream.cpp`, `tools/dxai_ingest/main.cpp` | `LittleEndian.dfy`, `Gguf.dfy`, `ModelLoader.dfy`, `GgufStream.dfy`, `TensorIndex.dfy`, `Ingest.dfy`, `GgufPadding.dfy`, `IngestedIndex.dfy` |
| tensor descriptors | `src/core/dx_tensor_api.cpp` | `TensorLayout.dfy`, `TensorDesc.dfy` |
| ring all-reduce | `src/dxcollective/dxcollective.cpp` | `RingAllReduce.dfy`, `RingTiming.dfy` |
| matrix products | `src/core/dx_ops_api.cpp`, `src/dxblas/dxblas.cpp` | `Gemm.dfy` |
| vector store | `src/dxdb/dxdb.cpp` | `VectorStore.dfy` |
| block quantisation | `src/dxquant/dxquant.cpp` | `Quant.dfy` |

`Index.dfy`, `Powers.dfy`, `Reals.dfy` and `Counting.dfy` hold the arithmetic the others share;
`Dispatch.dfy` says what a compute dispatch is.

## How the program is modelled

- A kernel is a method for one thread; a dispatch is a loop over thread ids in an order given
  from outside, and every result holds for every such order. Kernels and loops work in place on
  arrays, objects are classes with the source's fields, and each method is proved equal to a
  specification function about which the real statements are lemmas.
- `float` is `real`. Rounding appears only where it is the point: the binary16 scale of the
  quantiser, truncated as in section 3.4 of IEEE 754-2019, normal numbers only.
- `exp` is any function with exp(a + b) = exp(a) exp(b) and exp > 0; cosine and sine are any
  functions with the addition laws and the values at half a turn; the square root of the cosine
  score is any function whose square gives back its argument.
- 32-bit and 64-bit wrap-around is written out where the program's result depends on it: shifts
  of the stage counters, `j + window`, size multiplications, the row index of the quantiser. File
  offsets, slot versions and counters of bytes are unbounded, and index products of the kernels are
  taken to fit 32 bits.
- The 64-bit FNV-1a hash is a function left open. Cache results are stated per hash value; they
  are results per tag when the hash is injective on the tags in use, which is an assumption.
  `TensorIndexes.TensorIndex.Lookup` says what happens on collisions: the last entry wins.
- DirectStorage is a queue of reads and fence signals that complete at times chosen from
  outside: reads in any order, a signal once everything queued before it is done. Completions
  may fall between any two operations of the cache; a wait completes what it needs.
- `std::sort` and `std::partial_sort` are loops whose contracts promise only what the standard
  does: results hold for every order of equal elements.

## Where the code departs from its intent

- `src/dxstream/dxstream.cpp:168` erases the incoming hash, which on a miss is not there, instead
  of the evicted tensor's. The cache carries a policy: `AsWritten` is the code, `EraseVictim` the
  code with that line corrected. The bookkeeping and the safety of refills hold for both.
  Residency holds with the correction (`StreamResidency.ResidentIffRecent`); as written the map
  is right exactly as long as no more distinct tensors were requested than there are slots
  (`StreamResidency.AsWrittenAgreesIff`, with the smallest failure as a counterexample).
- `enqueue_read`, called at `src/dxstream/dxstream.cpp:172`, throws for more than UINT32_MAX bytes
  (`src/dxio/dxio.cpp:169-171`), when a miss has already counted itself, charged its bytes, taken
  the victim's off `bytes_resident` and erased a key, but not yet touched the slot. The model has
  this third outcome and the state it leaves (`StreamCache.ThrowCounterexample`,
  `StreamCache.ThrowLosesBytes`). The storage protocol survives it always, the books if and only if
  the tensor is not that large (`StreamCache.BooksSurviveIff`, and over a run
  `StreamCache.RunBooksIff`); a requested tensor is resident afterwards under the same condition
  (`StreamResidency.RequestSeatsIff`). With the eviction corrected, such a request costs one slot until
  the next tensor is loaded, and `StreamResidency.ResidentIffRecent` says for every run, such requests
  included, what is resident.
- `src/dxcollective/dxcollective.cpp:101` overwrites the receiver's chunk before adding, and line
  113 adds from element 0 instead of from the chunk's offset. `Accumulating` is the intended
  receive, `AsWritten` the code; the chunk schedule itself is right. As written the code is right
  for all inputs exactly when there is nothing to exchange
  (`RingAllReduce.AsWrittenRightForAllIff`); for one input, exactly when chunk k >= 1 already
  holds the total on GPU k and chunk 0 mixes to it (`RingAllReduce.AsWrittenRightIff`).
- The additions of `src/dxcollective/dxcollective.cpp:112-113` are never waited for: `vec_add` only
  submits its list, to a queue of its own that is given no fence (`src/dxblas/dxblas.cpp:195-196`). What
  `RingAllReduce` says of chunk 0 as written presumes that each lands before the next send. Whenever
  they land, everything past chunk 0 is the same, and the code as written is right for all inputs
  exactly when there is nothing to exchange (`RingTiming.AnyTimingLeaves`,
  `RingTiming.AnyTimingRightForAllIff`).
- `src/dxstream/dxstream.cpp:219` skips 16-bit values as four bytes; `src/dxmodel/dxmodel.cpp:72` as
  two. The streaming reader is exact on values without 16-bit integers, and on scalars, strings
  and flat arrays only on those; inside nested arrays it can be exact by accident
  (`GgufStream.NestedCanRealign`). A file whose last key-value is such an integer and whose first
  tensor has an ordinary name is refused (`GgufStream.RefusedAfter16Bit`), though the loader reads it
  (`GgufStream.PrintedCounterexample`).
- The loop of `src/dxstream/dxstream.cpp:34` counts entries in 32 bits: it ends if and only if there
  are fewer than 2^32 (`TensorIndexes.BuildLoopEnds`). The row functions of the quantiser index in 32
  bits, too (`src/dxquant/dxquant.cpp:30-35`): every block is taken from its own place if and only if
  there are at most 2^27 (`Quant.OwnBlocksIff`).
- `src/dxmodel/dxmodel.cpp:155` looks for Q8_0 under the type id 7, which the GGUF specification
  (`ggml_type`) gives to Q5_1; Q8_0 has 8 there and is taken for FP16. Of the three kinds the loader
  knows, that one alone is not recognised by its id (`ModelLoading.RecognisedIff`).
- `j + window` wraps at 32 bits (`src/dxattention/dxattention.cpp:40`): the window is as meant if and
  only if it ends below 2^32 (`Attention.WindowExactIff`).
- `len <<= 1` and `n << 1` on 32-bit counters wrap (`src/dxfft/dxfft.cpp:171`,
  `src/dxcache/dxcache.cpp:49`, `src/dxcache/dxcache.cpp:81`): the loops end exactly below the
  bounds in `Fft.StageLoopEnds` and `Hadamard.ClampLoopEnds`.
- `gemm_tiled` lets edge threads return before they load their share of the tiles
  (`src/dxblas/dxblas.cpp:47`), so the tiles are complete exactly when 16 divides M and N
  (`Gemm.EveryReadLoadedIff`); `Gemm.GemmTiled` is about those sizes.
- The tail of `gemm_f16_dot2` for odd K (`src/dxblas/dxblas.cpp:100-107`) takes its A half from the
  next row, in the last row from past the end, and its B half from a word addressed by rows
  (`Gemm.OddPackedDot`); the kernel is documented for even K.
- `VectorStore.FastRetrieveDB.Compact` can never be told from the candidates or the scores of a
  later search (`VectorStore.CompactionKeepsCandidates`, `VectorStore.CompactionKeepsScores`). Their
  order stays, too, as long as no removed id is inserted again
  (`VectorStore.CompactionInvisibleToSearch`): a purged one comes back at the end instead of in
  its old place, which can change the order of equal scores (`VectorStore.RevivalOrderIff`,
  `VectorStore.RevivalChangesOrder`). No run at all can tell by the order if and only if the store
  held no removed document (`VectorStore.CompactionInvisibleIff`).
- `src/dxstream/dxstream.cpp:292` takes the end of the tensor table as the start of the tensor data,
  where the GGUF specification ("File Structure") pads up to the file's alignment first. On a file
  printed with that padding every slice is its tensor's own data if and only if the table happens
  to end on a multiple of the alignment (`GgufPadding.OwnSlicesIff`); otherwise the slices are
  shifted into the padding, as in `GgufPadding.PaddingCounterexample`.
- `fp16_to_float` reads subnormal scales as zero and infinity as 65536
  (`Quant.WideningKeepsIff`, `Quant.OverflowedScale`). The 4-bit scale of an all-zero block is minus
  zero, stored as 0x8000 (`Quant.MinusZero`).

## Model

| member | source | states |
|---|---|---|
| `Powers.MaskTestFindsPowersOfTwo` | src/dxfft/dxfft.cpp:142 | the guard `n & (n - 1)` is zero for exactly the powers of two |
| `Powers.ShiftLeft` | src/dxfft/dxfft.cpp:171 | a 32-bit shift by one doubles, or doubles minus 2^32 once the top bit is set |
| `Fft.BitReverse` | src/dxfft/dxfft.cpp:24-31 | the shift loop returns the low `bits` bits in the opposite order |
| `Fft.RevInvolution` | src/dxfft/dxfft.cpp:24-31 | bit reversal is its own inverse below 2^bits |
| `Fft.BitReverseThread` | src/dxfft/dxfft.cpp:33-39 | a thread writes one reversed position; a thread past n writes nothing |
| `Fft.BitReverseDispatch` | src/dxfft/dxfft.cpp:33-39 | in any thread order, position i ends up with the input at the reversal of i, and nothing past n changes |
| `Butterfly.PairOwned` | src/dxfft/dxfft.cpp:55-62 | both elements of a thread's pair are in range and belong to that thread alone |
| `Butterfly.PairCovers` | src/dxfft/dxfft.cpp:55-62 | every element is the low or the high element of some thread's pair |
| `Butterfly.PairsPartition` | src/dxfft/dxfft.cpp:55-62 | exactly one thread of a stage touches each element, so thread order cannot matter |
| `Fft.CombinePair` | src/dxfft/dxfft.cpp:68-79 | one butterfly leaves a + w b and a - w b, as complex numbers, and touches only those two elements |
| `Fft.StageThread` | src/dxfft/dxfft.cpp:53-80 | a thread changes exactly the pair it owns, to what the stage leaves there |
| `Fft.StageDispatch` | src/dxfft/dxfft.cpp:171-189 | a whole in-place stage equals the stage computed from the old buffer, for every thread order |
| `Fft.Split` | src/dxfft/dxfft.cpp:53-80 | a DFT of twice the length is the DFT of the even samples plus the root times the DFT of the odd ones |
| `Fft.Periodic` | src/dxfft/dxfft.cpp:53-80 | frequencies repeat with the length of the transform |
| `Fft.DftLinear` | src/dxfft/dxfft.cpp:64-76 | the transform is linear |
| `Fft.ToneIsSpike` | src/dxfft/dxfft.cpp:64 | a tone turning forwards f times has n at its own frequency, and nothing at any frequency whose root differs: the transform turns backwards |
| `Fft.ToneInBuffers` | src/dxfft/dxfft.cpp:64 | written with cosine and sine alone: buffers that hold cos(2 pi f j / n) and sin(2 pi f j / n) transform to n at frequency f |
| `Fft.Combine` | src/dxfft/dxfft.cpp:64-79 | the two outputs of a butterfly are the frequencies v and v + len of the doubled transform |
| `Fft.StageDoubles` | src/dxfft/dxfft.cpp:171-189 | a stage turns finished transforms of length len, in bit-reversed arrangement, into finished transforms of length 2 len |
| `Fft.CopyHolds` | src/dxfft/dxfft.cpp:147-168 | the bit-reversed copy is the arrangement the first stage expects |
| `Fft.FinishedIsDft` | src/dxfft/dxfft.cpp:170-189 | after the last doubling the arrangement is the DFT itself |
| `Fft.Stage` | src/dxfft/dxfft.cpp:171-189 | one turn of the driver loop keeps the stage invariant with the span doubled |
| `Fft.Load` | src/dxfft/dxfft.cpp:147-168 | the copy pass establishes the stage invariant with span 1 |
| `Fft.Log2` | src/dxfft/dxfft.cpp:144-145 | counting shifts gives the exponent of a power of two |
| `Fft.Fft1dRadix2` | src/dxfft/dxfft.cpp:134-190 | for every power of two 2 <= n <= 2^30, every input and every scheduling, the out buffers hold X[k] = sum of x[j] exp(-2 pi i jk / n), a forward tone of frequency f comes out as n at f, and nothing past n changes; any other n leaves the buffers alone |
| `Fft.SpanBeforeWrap` | src/dxfft/dxfft.cpp:171 | the 32-bit span is 2^(t+1) for 30 turns and 0 from then on |
| `Fft.StageLoopEnds` | src/dxfft/dxfft.cpp:171 | the stage loop over a power of two ends if and only if n <= 2^30 |
| `Hadamard.SignQuadrants` | src/dxcache/dxcache.cpp:7-9 | the sign (-1)^popcount(i AND j) repeats in three quadrants of the doubled matrix and flips in the fourth |
| `Hadamard.Halves` | src/dxcache/dxcache.cpp:30-33 | a transform of twice the length is the sum and the difference of the transforms of the halves |
| `Hadamard.StageThread` | src/dxcache/dxcache.cpp:20-34 | a thread changes exactly the pair it owns |
| `Hadamard.StageDispatch` | src/dxcache/dxcache.cpp:81-99 | a whole in-place stage equals the stage computed from the old buffer, for every thread order |
| `Hadamard.StageDoubles` | src/dxcache/dxcache.cpp:81-99 | a stage doubles the length of the blocks that hold their own transform |
| `Hadamard.Stage` | src/dxcache/dxcache.cpp:81-99 | one turn of the driver loop keeps that invariant |
| `Hadamard.TransformInPlace` | src/dxcache/dxcache.cpp:81-99 | the stage loop leaves out[i] = sum of (-1)^popcount(i AND j) in[j] in the first n elements and keeps the rest |
| `Hadamard.AdvancedKVCache.ApplyHadamardTransform` | src/dxcache/dxcache.cpp:42-100 | the longest power-of-two prefix is transformed; everything past it, caches of another kind and empty caches are untouched |
| `Hadamard.TransformTwice` | src/dxcache/dxcache.cpp:7-9 | applying the transform twice multiplies by n (orthogonality of the unnormalised transform) |
| `Hadamard.Clamp` | src/dxcache/dxcache.cpp:46-50 | the clamp loop finds the largest power of two not above the float count |
| `Hadamard.ClampUnique` | src/dxcache/dxcache.cpp:46-50 | there is only one such number |
| `Hadamard.ClampBeforeWrap` | src/dxcache/dxcache.cpp:48-49 | the 32-bit clamp counter is 2^t for 31 turns and 0 from then on |
| `Hadamard.ClampLoopEnds` | src/dxcache/dxcache.cpp:49 | the clamp loop ends if and only if there are fewer than 2^31 floats |
| `Attention.Shape.KvHead` | src/dxattention/dxattention.cpp:33 | the shared KV head of a query head always exists |
| `Attention.Shape.KvHeadIs` | src/dxattention/dxattention.cpp:33 | query head h reads KV head floor(h kvHeads / qHeads) |
| `Attention.Shape.SharedIff` | src/dxattention/dxattention.cpp:33 | when kvHeads divides qHeads, two query heads share a KV head if and only if they are in the same group of qHeads / kvHeads |
| `Attention.Shape.RowsInOrder` | src/dxattention/dxattention.cpp:35-42 | rows lie one after another from the start of the buffer, position by position, head by head |
| `Attention.ScoreIs` | src/dxattention/dxattention.cpp:43-46 | the score is linear in the query and picks the scaled key coordinate of a unit query: it is the scaled inner product |
| `Attention.Shape.RowInside` | src/dxattention/dxattention.cpp:35 | the row of a (head, position) pair lies inside its buffer |
| `Attention.Shape.RowsDisjoint` | src/dxattention/dxattention.cpp:35 | different (head, position, coordinate) triples are different elements, so threads never write the same one |
| `Softmax.MassPositive` | src/dxattention/dxattention.cpp:49-59 | the softmax denominator is zero exactly when every key is masked |
| `Softmax.Rescale` | src/dxattention/dxattention.cpp:151-154 | changing the reference from m to r multiplies the mass by exp(m - r) |
| `Softmax.RescaleWeighted` | src/dxattention/dxattention.cpp:151-152 | the same for the weighted values |
| `Softmax.QuotientIndependent` | src/dxattention/dxattention.cpp:37-59 | the average does not depend on the reference subtracted, so not on the -1e30 start either |
| `Softmax.SharesAre` | src/dxattention/dxattention.cpp:49-59 | a masked key has no share of the output; two visible keys share it as the exponentials of their scores |
| `Softmax.AverageIsByShares` | src/dxattention/dxattention.cpp:61-75 | the average is the sum of the values by their shares |
| `Softmax.SharesAddUp` | src/dxattention/dxattention.cpp:61-75 | the shares add up to one as soon as one key is visible |
| `Softmax.MaskedTail` | src/dxattention/dxattention.cpp:51 | keys after the last visible one add nothing, so the causal `break` is exact |
| `Attention.MasksAgree` | src/dxattention/dxattention.cpp:39-40 | with window 0 the mask of `sdpa` is the causal mask, or no mask |
| `Attention.VisibleIff` | src/dxattention/dxattention.cpp:39-40 | within 32 bits a key is visible exactly if it is inside the window and not ahead of a causal query |
| `Attention.WindowExactIff` | src/dxattention/dxattention.cpp:40 | the window is as meant for all positions if and only if no j + window wraps at 32 bits |
| `Attention.Dot` | src/dxattention/dxattention.cpp:41-45 | the inner loop is the dot product of a query row and a key row |
| `Attention.KeyScore` | src/dxattention/dxattention.cpp:41-46 | the scaled score of the key at position j, wherever the addressing puts it |
| `Attention.MaxPass` | src/dxattention/dxattention.cpp:37-47 | the first pass finds the largest unmasked score, or the floor -1e30 |
| `Attention.BelowLargest` | src/dxattention/dxattention.cpp:58 | no exponent of the two-pass kernels is positive |
| `Attention.MassPass` | src/dxattention/dxattention.cpp:49-59 | the second pass computes the softmax mass of the unmasked keys |
| `Attention.ValuePass` | src/dxattention/dxattention.cpp:61-75 | the third pass computes one coordinate of the softmax average |
| `Attention.WriteAverages` | src/dxattention/dxattention.cpp:61-75 | the loop over coordinates rewrites exactly the output row |
| `Attention.AttendIs` | src/dxattention/dxattention.cpp:37-75 | an output coordinate is the softmax average of the values found at the rows, by the scaled inner products of the query with the keys found there |
| `Attention.OneVisible` | src/dxattention/dxattention.cpp:37-75 | with one key visible the output row is its value row |
| `Attention.TwoPassThread` | src/dxattention/dxattention.cpp:27-76 | a thread of `sdpa` (flat) or `paged_attn` (block table) rewrites exactly its own output row, to the softmax average of the values its mask lets through |
| `Attention.Addressing.StartInside` | src/dxattention/dxattention.cpp:256-260 | through a valid block table every position addresses a row inside the K and V buffers |
| `Attention.Addressing.BlocksInOrder` | src/dxattention/dxattention.cpp:256-260 | with the blocks in order a paged head lies as a flat one |
| `Attention.SameRowsSameOutput` | src/dxattention/dxattention.cpp:246-293 | paged attention equals flat attention on the gathered K and V: a row depends on the buffers only through the rows addressed |
| `Attention.BlockPlacementIrrelevant` | src/dxattention/dxattention.cpp:246-293 | permuting the physical blocks and renaming them in the table leaves the output unchanged |
| `FlashAttention.BlockMax` | src/dxattention/dxattention.cpp:115-126 | the largest visible score of a 16-key block, or the floor |
| `Attention.JoinLargest` | src/dxattention/dxattention.cpp:128 | the larger of running and block maximum is the maximum so far, so the rescaling exponent is not positive either |
| `FlashAttention.AddKey` | src/dxattention/dxattention.cpp:144-148 | one key extends what the block sums cover by exactly that key |
| `FlashAttention.BlockSums` | src/dxattention/dxattention.cpp:131-149 | the block loop gives mass and weighted values of exactly the visible keys of the block, relative to the new maximum |
| `FlashAttention.Merge` | src/dxattention/dxattention.cpp:128-154 | rescaling and adding makes the running state describe all keys up to the end of the block |
| `Attention.WriteRow` | src/dxattention/dxattention.cpp:157-158 | the closing loop rewrites exactly one output row, dividing by the mass or writing 0 when there is none |
| `FlashAttention.OnlineSoftmax` | src/dxattention/dxattention.cpp:108-158 | with m the largest visible score so far throughout, acc / l ends as the causal softmax average in every coordinate |
| `FlashAttention.FlashThread` | src/dxattention/dxattention.cpp:98-159 | a thread of the tiled kernel writes exactly the row that the causal two-pass kernel writes, for every sequence length and position; beyond 128 coordinates it writes nothing |
| `AttentionGrid.TwoPassDispatch` | src/dxattention/dxattention.cpp:27-76 | the whole grid of positions and heads, threads in any order: every row of the output is the softmax average of its query |
| `AttentionGrid.GatheredGathers` | src/dxattention/dxattention.cpp:246-293 | gathered through the block table, a buffer gives every head without the table what it found with it |
| `AttentionGrid.PagedIsFlat` | src/dxattention/dxattention.cpp:246-293 | the whole paged dispatch and the whole unmasked flat dispatch on the gathered K and V, each with its threads in any order, leave the same output buffer |
| `AttentionGrid.FlashDispatch` | src/dxattention/dxattention.cpp:98-159 | the whole tiled grid leaves the rows of the causal two-pass grid |
| `AttentionGrid.RowsCover` | src/dxattention/dxattention.cpp:35 | every element of the output buffer is in some row |
| `AttentionGrid.FirstRowIsValue` | src/dxattention/dxattention.cpp:27-76 | the first position of a causal head copies the first value row of its KV head |
| `LinearAttention.PhiPositive` | src/dxattention/dxattention.cpp:181 | the feature map elu(x) + 1 is positive |
| `LinearAttention.PhiIs` | src/dxattention/dxattention.cpp:181 | it is 1 at 0, grows with slope 1 above, and falls off like the exponential below: these laws determine elu + 1 |
| `LinearAttention.PhiDotIsDot` | src/dxattention/dxattention.cpp:203-218 | the weight of a key is the inner product of the mapped query and the mapped key |
| `LinearAttention.KeyAdds` | src/dxattention/dxattention.cpp:199-219 | one more key adds its weight to the denominator, and its weight times its own value to the numerator |
| `LinearAttention.DenominatorPositive` | src/dxattention/dxattention.cpp:211-216 | the normaliser is positive as soon as one key is seen |
| `LinearAttention.ContractStep` | src/dxattention/dxattention.cpp:199-208 | taking key n into the state adds (phi(q) . phi(k_n)) v_n to its contraction with any query |
| `LinearAttention.StateIsQuadratic` | src/dxattention/dxattention.cpp:162-164 | contracting the recurrent state equals the quadratic form sum of (phi(q) . phi(k_j)) v_j |
| `LinearAttention.AddRow` | src/dxattention/dxattention.cpp:203-206 | row d of the state takes in one key, the others stay |
| `LinearAttention.AddKey` | src/dxattention/dxattention.cpp:202-207 | the inner loops turn the state after j keys into the state after j + 1 |
| `LinearAttention.AddOutput` | src/dxattention/dxattention.cpp:217-218 | one row of the state joins the contraction in every value coordinate |
| `LinearAttention.Output` | src/dxattention/dxattention.cpp:211-219 | the closing loops compute numerator and normaliser of the quadratic form |
| `LinearAttention.Recur` | src/dxattention/dxattention.cpp:194-219 | the kernel's loops compute the quadratic form over the keys up to position i |
| `LinearAttention.RowOfSameValues` | src/dxattention/dxattention.cpp:220-221 | where all values seen are equal the output is that value |
| `LinearAttention.LinearThread` | src/dxattention/dxattention.cpp:183-222 | a thread writes exactly its output row: the feature-weighted average over positions j <= i; beyond 32 coordinates nothing |
| `AttentionGrid.LinearDispatch` | src/dxattention/dxattention.cpp:183-222 | the whole recurrent grid, threads in any order: every row is the quadratic form |
| `AttentionGrid.FirstRecurrentRow` | src/dxattention/dxattention.cpp:183-222 | so does the first position of the recurrent kernel |
| `Graph.OrderExcludesCycles` | src/dxgraph/dxgraph.cpp:45-57 | a topological order of all nodes exists only without cycles and with dependencies in range |
| `Graph.StuckHasCycle` | src/dxgraph/dxgraph.cpp:54-56 | nodes that all wait for one another contain a cycle |
| `Graph.FifoByDepth` | src/dxgraph/dxgraph.cpp:39-52 | first-in-first-out topological orders visit nodes by non-decreasing longest-path depth |
| `Graph.DepthExists` | src/dxgraph/dxgraph.cpp:39-52 | longest-path depths exist for every graph that has a topological order |
| `CommandGraphs.PendingStep` | src/dxgraph/dxgraph.cpp:49-51 | finishing a node lowers a pending count by as often as the node is listed |
| `CommandGraphs.PopKeeps` | src/dxgraph/dxgraph.cpp:45-48 | popping a ready node keeps the loop invariant and the order valid |
| `CommandGraphs.PopDepsFirst` | src/dxgraph/dxgraph.cpp:45-48 | a popped node has all its dependencies before it |
| `CommandGraphs.DropKeeps` | src/dxgraph/dxgraph.cpp:49-51 | decrementing one dependent, and queueing it at zero, keeps the invariant; the count never goes below zero |
| `CommandGraphs.DryComplete` | src/dxgraph/dxgraph.cpp:54-57 | an empty queue with everything popped is a complete first-in-first-out order |
| `CommandGraphs.DryStuck` | src/dxgraph/dxgraph.cpp:54-56 | an empty queue with nodes left over means the graph has a cycle |
| `CommandGraphs.CommandGraph.constructor` | src/dxgraph/dxgraph.cpp:5-15 | an empty graph, not compiled |
| `CommandGraphs.CommandGraph.AddNode` | src/dxgraph/dxgraph.cpp:17-22 | appends a node under the next id and forgets the compiled state |
| `CommandGraphs.CommandGraph.BuildEdges` | src/dxgraph/dxgraph.cpp:26-37 | succeeds exactly when all dependencies are in range, with the reversed edges and in-degrees (repetitions counted) |
| `CommandGraphs.NodeEdges` | src/dxgraph/dxgraph.cpp:30-36 | the inner loop adds the edges of one node, or stops at a dependency out of range |
| `CommandGraphs.Release` | src/dxgraph/dxgraph.cpp:49-51 | the inner loop over the dependents keeps the invariant |
| `CommandGraphs.CommandGraph.Compile` | src/dxgraph/dxgraph.cpp:24-58 | succeeds exactly on in-range acyclic graphs, with a first-in-first-out topological order of all nodes; a failed compile leaves the graph uncompiled |
| `CommandGraphs.CommandGraph.Execute` | src/dxgraph/dxgraph.cpp:60-76 | runs every node's function once, in the compiled order; a compiled graph is not compiled again |
| `GraphPlans.BackEdge` | src/core/dx_graph_api.cpp:69-71 | meeting a node that is still on the stack closes a cycle |
| `GraphPlans.Finish` | src/core/dx_graph_api.cpp:81-83 | closing a node after its dependencies keeps the search invariant |
| `GraphPlans.VisitNode` | src/core/dx_graph_api.cpp:62-84 | the marked search terminates on every graph, fails only if the graph cannot be compiled, and otherwise extends the order with the node and what it needs |
| `GraphPlans.VisitDependencies` | src/core/dx_graph_api.cpp:75-79 | the loop over the dependencies of the node opened last extends the order with all of them, or the graph cannot be compiled |
| `GraphPlans.Complete` | src/core/dx_graph_api.cpp:226-233 | with every node marked the order is a topological permutation |
| `GraphPlans.Compile` | src/core/dx_graph_api.cpp:217-238 | returns 0 exactly when ids are positions, dependencies are in range and there is no cycle; the plan is then a topological permutation with every name |
| `GraphPlans.EarlierOnlyIsAcyclic` | src/core/dx_graph_api.cpp:196-200 | a graph whose nodes depend on earlier ones only is in range and acyclic |
| `GraphPlans.DxGraph.constructor` | src/core/dx_graph_api.cpp:157-177 | an empty graph over a registry |
| `GraphPlans.OperatorRegistry.Register` | src/core/dx_graph_api.cpp:119-135 | adds a non-empty name unless frozen, with the source's error codes |
| `GraphPlans.OperatorRegistry.Freeze` | src/core/dx_graph_api.cpp:137-145 | freezes and keeps the names |
| `GraphPlans.DxGraph.AddNode` | src/core/dx_graph_api.cpp:183-215 | accepts exactly registered operators with dependencies on earlier nodes, with the source's error codes in their order, and keeps the graph compilable |
| `GraphPlans.DxGraph.CompileBuilt` | src/core/dx_graph_api.cpp:217-238 | every graph built through AddNode compiles, to the order 0, 1, ..., n - 1 |
| `GraphPlans.Plan.NodeAt` | src/core/dx_graph_api.cpp:248-266 | returns id and name of a position exactly when the position exists and the name with its terminator fits |
| `DirectStorage.DrainOneKeeps` | src/dxio/dxio.cpp:223-237 | the completion in front keeps the slot protocol, moves no fence back and never changes what a slot will hold |
| `DirectStorage.FinishReadKeeps` | src/dxio/dxio.cpp:219-237 | a read that finishes ahead of the queue keeps them, too |
| `DirectStorage.DrainKeeps` | src/dxio/dxio.cpp:219-237 | so do any completions in an order the fences allow |
| `DirectStorage.WaitKeeps` | src/dxstream/dxstream.cpp:157-160 | waiting for the last value issued to a slot always ends, with nothing left queued for the slot |
| `DirectStorage.IssueKeeps` | src/dxstream/dxstream.cpp:171-176 | issuing a read and its signal to an idle slot keeps the protocol: at most one undrained read a slot |
| `DirectStorage.ReadyMeansLoaded` | src/dxstream/dxstream.cpp:171-176 | once the fence has reached the slot's version its memory is what was issued last |
| `StreamCache.OldestIsLeast` | src/dxstream/dxstream.cpp:140-147 | the victim is the first slot with the smallest tick |
| `StreamCache.RefillIsSafe` | src/dxstream/dxstream.cpp:154-176 | a slot is refilled only when nothing is outstanding on it and its fence is at the value it last issued; afterwards it has exactly one read queued, or nothing if the request threw |
| `StreamCache.EmptyFirst` | src/dxstream/dxstream.cpp:140-155 | empty slots are filled before anything is evicted |
| `StreamCache.PreparedIo` | src/dxstream/dxstream.cpp:138-168 | up to the read a miss changes what no slot holds, and leaves the victim idle with its fence at its version |
| `StreamCache.PreparedBooks` | src/dxstream/dxstream.cpp:138-168 | up to the read a miss is a request no version shows, and the victim's bytes are off the books |
| `StreamCache.ClaimBooks` | src/dxstream/dxstream.cpp:170-181 | recording the new tenant mends both |
| `StreamCache.MissKeepsBooks` | src/dxstream/dxstream.cpp:138-181 | a miss keeps the books (bytes resident, misses, evictions, stalls, ticks) up to its own refusal |
| `StreamCache.FetchKeeps` | src/dxstream/dxstream.cpp:120-184 | a fetch, one that throws included, keeps slots and storage protocol, and the books up to its own refusal, whichever key a miss erases |
| `StreamCache.BooksSurviveIff` | src/dxstream/dxstream.cpp:166-180 | a miss leaves sound books if and only if the tensor has at most UINT32_MAX bytes |
| `StreamCache.ThrowCounterexample` | src/dxstream/dxstream.cpp:138-172 | one empty slot and a tensor of 2^32 bytes: a miss is counted, no version issued, nothing resident |
| `StreamCache.ThrowLosesBytes` | src/dxstream/dxstream.cpp:166-172 | with an occupied slot each such request takes bytes off the books that the slot still holds |
| `StreamCache.SettleKeeps` | src/dxstream/dxstream.cpp:154-164 | after waiting, nothing is outstanding on the victim, its fence is at its version and no content changed |
| `StreamCache.ClaimKeepsIo` | src/dxstream/dxstream.cpp:166-181 | refilling an idle slot keeps the storage protocol and leaves the other slots' contents |
| `StreamCache.FlushKeeps` | src/dxstream/dxstream.cpp:186-192 | flushing leaves every used slot's fence at its version with nothing queued |
| `StreamCache.RunKeeps` | src/dxstream/dxstream.cpp:120-192 | over every run of fetches, completions and flushes the slots and the storage protocol are sound, hits + misses = tick, stalls <= evictions, and bytes_resident, misses, versions, evictions and occupied slots differ from each other by exactly what the requests that threw left behind |
| `StreamCache.ResidentsFit` | src/dxstream/dxstream.cpp:172-182 | a tensor too large to read is never resident |
| `StreamCache.NoRefusalsIff` | src/dxstream/dxstream.cpp:172 | a run has no request that throws exactly when every tensor requested has at most UINT32_MAX bytes |
| `StreamCache.RunBooksIff` | src/dxstream/dxstream.cpp:120-192 | after a run bytes_resident is the sum of slot bytes and misses = evictions + occupied slots = sum of versions if and only if every tensor requested has at most UINT32_MAX bytes |
| `StreamCache.StallIff` | src/dxstream/dxstream.cpp:154-160 | a miss raises stall_events by one if and only if its victim still has an operation queued, else by nothing |
| `StreamCache.RunCounts` | src/dxstream/dxstream.cpp:120-184 | over every run, hits count the requests that hit, stalls the misses whose victim had work queued, and bytes_streamed the bytes of all misses |
| `StreamCache.IdleRunNeverStalls` | src/dxstream/dxstream.cpp:154-160 | a run in which everything is done before each request never stalls |
| `StreamCache.FlushedRunNeverStalls` | src/dxstream/dxstream.cpp:154-192 | neither does one that flushes before its requests |
| `Streaming.StreamingMoE.constructor` | src/dxstream/dxstream.cpp:100-118 | every slot empty: versions, ticks and fences at 0, nothing resident |
| `Streaming.StreamingMoE.Progress` | src/dxio/dxio.cpp:223-237 | completing queued operations, reads in any order, is a step of the state machine |
| `Streaming.StreamingMoE.Fetch` | src/dxstream/dxstream.cpp:120-184 | the method is exactly one request step of the state machine: unknown tag, hit, miss, exception, and no slots at all; with the victim's key erased it throws exactly for tensors above UINT32_MAX bytes, and else hits exactly if fewer others that can be loaded were requested since than there are seats; a stall is counted exactly if the victim still had work queued |
| `Streaming.StreamingMoE.FetchKnown` | src/dxstream/dxstream.cpp:128-183 | the part after the lookup: hit, miss, or exception |
| `Streaming.StreamingMoE.Touch` | src/dxstream/dxstream.cpp:130-136 | a hit refreshes the tick, counts, and returns slot and version |
| `Streaming.StreamingMoE.Replace` | src/dxstream/dxstream.cpp:138-183 | a miss picks the victim, waits, accounts, issues the read and records the new tenant; or throws at the read, with the fields written before it |
| `Streaming.StreamingMoE.SettleVictim` | src/dxstream/dxstream.cpp:154-164 | an occupied victim is waited for; a stall is counted exactly when its fence was behind |
| `Streaming.StreamingMoE.ClaimVictim` | src/dxstream/dxstream.cpp:166-183 | counters, residency, version, tick and queued read of the refilled slot; only counters and residency if the read throws |
| `Streaming.StreamingMoE.Record` | src/dxstream/dxstream.cpp:176-182 | the fields written once the read has been issued |
| `Streaming.StreamingMoE.EnqueueRead` | src/dxio/dxio.cpp:161-187 | a read of at most UINT32_MAX bytes goes to the end of the queue; a larger one throws and issues nothing |
| `Streaming.StreamingMoE.EnqueueSignal` | src/dxio/dxio.cpp:223-237 | the signal of the slot's next version goes to the end of the queue |
| `Streaming.StreamingMoE.BooksAre` | src/dxstream/dxstream.cpp:120-192 | of an object with its whole history: its books are sound if and only if every tensor asked for could be read |
| `Streaming.StreamingMoE.StatsAre` | src/dxstream/dxstream.cpp:120-184 | of an object with its whole history: hits, stalls and bytes streamed are what the history says |
| `Streaming.StreamingMoE.LeastRecentlyUsed` | src/dxstream/dxstream.cpp:140-152 | the scan returns the first slot of least tick, or -1 without slots |
| `Streaming.StreamingMoE.Flush` | src/dxstream/dxstream.cpp:186-192 | the method is the flush step; afterwards nothing is outstanding on any slot |
| `Streaming.StreamingMoE.FlushSlots` | src/dxstream/dxstream.cpp:187-191 | the loop over the slots |
| `Streaming.StreamingMoE.ViewsDelivered` | src/dxstream/dxstream.cpp:120-184 | of an object with its whole history: every request of a known tensor gave a view or threw for its size, and every view names the tensor's memory once its fence has reached the value, unless the slot was reissued |
| `StreamResidency.HitKeepsLru` | src/dxstream/dxstream.cpp:130-136 | a hit keeps the residency invariant with the request appended to the history |
| `StreamResidency.MissKeepsLru` | src/dxstream/dxstream.cpp:138-183 | with the victim's key erased, a miss keeps it too; if it throws, with the victim's slot left without a tenant |
| `StreamResidency.ThrowKeepsLru` | src/dxstream/dxstream.cpp:138-172 | a request that throws empties the victim slot and changes no content |
| `StreamResidency.RunIsLru` | src/dxstream/dxstream.cpp:120-192 | with the victim's key erased, least-recent-use residency is an invariant of every run, requests that throw included |
| `StreamResidency.SeatCount` | src/dxstream/dxstream.cpp:182 | n slots seat at most n keys, and exactly n when none is free |
| `StreamResidency.ResidentCount` | src/dxstream/dxstream.cpp:120-184 | as many tensors are resident as there are seats, unless a slot was never used |
| `StreamResidency.ResidentIffRecent` | src/dxstream/dxstream.cpp:120-184 | with the victim's key erased, after every run a key is resident exactly when its tensor can be loaded, was requested, and fewer distinct others that can be loaded were requested since than there are seats: k, or k - 1 from a request that throws to the next load |
| `StreamResidency.AllSeats` | src/dxstream/dxstream.cpp:172 | all k slots count unless a tensor requested was too large to read |
| `StreamResidency.ResidentIffAmongLast` | src/dxstream/dxstream.cpp:120-184 | without such requests a key is resident exactly when it was requested and fewer than k distinct others were since |
| `StreamResidency.RequestSeatsIff` | src/dxstream/dxstream.cpp:172-182 | a requested tensor is resident right after its request if and only if it has at most UINT32_MAX bytes |
| `StreamResidency.MoreSlotsMoreHits` | src/dxstream/dxstream.cpp:120-184 | with the victim's key erased, in every run a hit with k slots is a hit with more |
| `StreamResidency.ViewDelivers` | src/dxstream/dxstream.cpp:120-184 | a request of a known tensor throws exactly above UINT32_MAX bytes and else gives a view; its promise: at any later time, if the slot was not reissued and its fence has reached the value, its memory is the requested tensor |
| `StreamResidency.LaterKeepsSlot` | src/dxstream/dxstream.cpp:170-176 | while a slot's version stays, so does its content; versions only grow |
| `StreamResidency.RunNeverForgets` | src/dxstream/dxstream.cpp:168 | as written, every key ever loaded stays in the residency map, each loaded once |
| `StreamResidency.AsWrittenAgreesIff` | src/dxstream/dxstream.cpp:168 | as written, the map is right about every resident key if and only if no more distinct tensors that can be loaded were requested than there are slots |
| `StreamResidency.AsWrittenCounterexample` | src/dxstream/dxstream.cpp:168 | as written, one slot and two tensors: asking again for the first reports a hit on a slot that holds the second |
| `LittleEndian.NumberOfBytes` | src/dxmodel/dxmodel.cpp:60 | reading back a little-endian field gives the number |
| `LittleEndian.BytesOfNumber` | src/dxstream/dxstream.cpp:60-64 | writing back a field that was read gives the bytes |
| `LittleEndian.LowestFirst` | src/dxmodel/dxmodel.cpp:58-67 | the first byte of a field counts least |
| `Gguf.ReadsString` | src/dxmodel/dxmodel.cpp:58-67 | the string reader recovers a printed string and passes exactly its bytes |
| `Gguf.SkipVal` | src/dxmodel/dxmodel.cpp:69-95 | the recursive skipper ends where the functional reader ends, on any bytes at any offset, and terminates |
| `Gguf.SkipsScalar` | src/dxmodel/dxmodel.cpp:70-74 | every scalar type of the format is skipped by its size |
| `Gguf.OtherIds` | src/dxmodel/dxmodel.cpp:93 | unknown type ids are skipped by nothing |
| `Gguf.StringLayout` | src/dxmodel/dxmodel.cpp:58-67 | a printed string is its length in eight bytes and its characters |
| `Gguf.SkipsEncoding` | src/dxmodel/dxmodel.cpp:69-95 | skipping consumes exactly the encoding of every value, arrays nested to any depth |
| `Gguf.SkipsItems` | src/dxmodel/dxmodel.cpp:87-89 | the element loop consumes exactly the encodings of the elements |
| `ModelLoading.SkipKvs` | src/dxmodel/dxmodel.cpp:122-128 | on any bytes the key-value loop, early break included, ends where the reader of the round trip does |
| `ModelLoading.ParseDims` | src/dxmodel/dxmodel.cpp:142-147 | on any bytes the dimension loop, early break included, reads what the reader of the round trip does |
| `ModelLoading.ParseEntry` | src/dxmodel/dxmodel.cpp:134-164 | one turn of the table loop: a full entry, or one that is cut short |
| `ModelLoading.ModelLoader.ParseGguf` | src/dxmodel/dxmodel.cpp:107-185 | accepts exactly files of 24 bytes or more with the magic number; tensors and architecture fields become those of the table read, and a refused file changes nothing |
| `ModelLoading.ModelLoader.ParseTable` | src/dxmodel/dxmodel.cpp:130-165 | every entry read is recorded by name and the two name families are noticed |
| `ModelLoading.KvsRead` | src/dxmodel/dxmodel.cpp:122-128 | over printed key-values the loop ends exactly at their end |
| `ModelLoading.EntryRead` | src/dxmodel/dxmodel.cpp:134-164 | a printed table entry is read back: name, dimensions, type, offset |
| `ModelLoading.KindsIff` | src/dxmodel/dxmodel.cpp:155 | exactly the tensors of type id 7 are taken for Q8_0, and of 2 for Q4_0 |
| `ModelLoading.RecognisedIff` | src/dxmodel/dxmodel.cpp:155 | a kind is recognised by the id the format gives it if and only if it is not Q8_0 |
| `ModelLoading.EntryLayout` | src/dxmodel/dxmodel.cpp:135-154 | a printed table entry, field by field: name, dimensions, type and offset at their places and widths |
| `ModelLoading.KvLayout` | src/dxmodel/dxmodel.cpp:123-127 | a printed key-value, field by field |
| `ModelLoading.FileStarts` | src/dxmodel/dxmodel.cpp:112-118 | a printed file starts with the letters GGUF and its version |
| `ModelLoading.TableRead` | src/dxmodel/dxmodel.cpp:134-165 | a printed table is read back entry by entry |
| `ModelLoading.CutTable` | src/dxmodel/dxmodel.cpp:134-165 | a file that ends after some entries of its table gives those entries |
| `ModelLoading.ContainsIff` | src/dxmodel/dxmodel.cpp:157-160 | a name contains a part exactly if it is that part with something before and after |
| `ModelLoading.Spelled` | src/dxmodel/dxmodel.cpp:157-160 | the parts of names looked for, letter by letter |
| `ModelLoading.ConfiguredIff` | src/dxmodel/dxmodel.cpp:167-179 | MTP exactly if some name tells so, MLA exactly if none does but some name tells MLA, GQA exactly otherwise; with the fields that go with each |
| `ModelLoading.FileRead` | src/dxmodel/dxmodel.cpp:107-165 | reading a printed file recovers its tensor table |
| `ModelLoading.RecordedFinds` | src/dxmodel/dxmodel.cpp:164 | with distinct names each tensor is found under its own name |
| `ModelLoading.ParsePrinted` | src/dxmodel/dxmodel.cpp:107-185 | parsing a printed file of distinctly named tensors gives each its name, dimensions and offset, its kind by its type id, and configures the attention its names tell |
| `GgufStream.SkipStreamVal` | src/dxstream/dxstream.cpp:216-242 | the streaming skipper ends where the functional reader ends, and terminates |
| `GgufStream.StreamSkipsScalar` | src/dxstream/dxstream.cpp:216-220 | every scalar type is skipped by its size, but the 16-bit ones by four bytes |
| `GgufStream.StreamStringIff` | src/dxstream/dxstream.cpp:205-214 | a string is read exactly if it is there and has at most 64 MiB |
| `GgufStream.StreamSkipsEncoding` | src/dxstream/dxstream.cpp:216-242 | values without 16-bit integers are consumed exactly, at any depth |
| `GgufStream.StreamSkipExactIff` | src/dxstream/dxstream.cpp:219 | a scalar, string or array of them is consumed exactly if and only if it holds no 16-bit integer |
| `GgufStream.NestedCanRealign` | src/dxstream/dxstream.cpp:216-242 | an array of arrays that holds a 16-bit value and is consumed exactly all the same, so the condition does not carry over to nested arrays |
| `GgufStream.ReadersDisagree` | src/dxstream/dxstream.cpp:219 | on a 16-bit value the loader stops after two bytes and the streaming reader after four |
| `GgufStream.RefusedAfter16Bit` | src/dxstream/dxstream.cpp:219-292 | a valid file whose last key-value is the first 16-bit integer, and whose first tensor's name starts with a character, is refused |
| `GgufStream.PrintedCounterexample` | src/dxstream/dxstream.cpp:219-292 | a whole printed file with one 16-bit key-value and one tensor: the loader reads its table, the streaming reader refuses it |
| `GgufStream.ReadKvs` | src/dxstream/dxstream.cpp:260-268 | on any bytes the key-value loop ends where the reader of the round trip does, or fails where it fails |
| `GgufStream.ReadTensors` | src/dxstream/dxstream.cpp:270-290 | on any bytes the table loop reads what the reader of the round trip does, or fails where it fails |
| `GgufStream.ReadHeader` | src/dxstream/dxstream.cpp:251-292 | magic, counts, key-values and table, to the tensors and the start of the payload |
| `GgufStream.StreamsFile` | src/dxstream/dxstream.cpp:251-292 | a file printed with its payload right after the table is read back: every tensor, and the start of the payload |
| `TensorIndexes.HeaderRead` | src/dxstream/dxstream.cpp:70 | a printed header is read back |
| `TensorIndexes.HeaderLayout` | src/dxstream/dxstream.cpp:58-60 | the 56 bytes of a header, field by field |
| `TensorIndexes.CoordLayout` | src/dxstream/dxstream.cpp:61-64 | the 24 bytes of a coordinate, field by field |
| `TensorIndexes.CoordsRead` | src/dxstream/dxstream.cpp:78-83 | printed coordinates are read back |
| `TensorIndexes.CoordsStand` | src/dxstream/dxstream.cpp:58-66 | coordinates read from a blob print to the bytes they were read from |
| `TensorIndexes.BlobRead` | src/dxstream/dxstream.cpp:58-85 | decoding an encoded index gives header and coordinates back |
| `TensorIndexes.DecimalInjective` | src/dxstream/dxstream.cpp:81 | different ordinals have different decimal names |
| `TensorIndexes.DecimalIs` | src/dxstream/dxstream.cpp:81 | the name of entry i of a loaded index is i in decimal, without leading zeros |
| `TensorIndexes.TensorIndex.Build` | src/dxstream/dxstream.cpp:25-37 | header fields, entries, and a hash table in which later entries win, for the lists on which the loop ends |
| `TensorIndexes.BuildLoopEnds` | src/dxstream/dxstream.cpp:34-36 | the loop over n entries ends if and only if n < 2^32 |
| `TensorIndexes.TensorIndex.ToBlob` | src/dxstream/dxstream.cpp:58-66 | the blob is the 56-byte header followed by 24 bytes a coordinate |
| `TensorIndexes.TensorIndex.FromBlob` | src/dxstream/dxstream.cpp:68-85 | accepts exactly blobs with the magic number and room for the announced count; entries are named by ordinal; the header is overwritten even on refusal |
| `TensorIndexes.TensorIndex.LoadEntries` | src/dxstream/dxstream.cpp:75-83 | the loop rebuilds entries and hash table from the coordinates |
| `TensorIndexes.TensorIndex.Lookup` | src/dxstream/dxstream.cpp:87-92 | finds the last entry with the tag's hash, and fails only if there is none |
| `TensorIndexes.RoundTrip` | src/dxstream/dxstream.cpp:58-85 | from_blob(to_blob(index)) restores the header and every coordinate |
| `TensorIndexes.Rewritten` | src/dxstream/dxstream.cpp:58-85 | to_blob of an accepted blob is its prefix of 56 + 24 count bytes |
| `TensorIndexes.LookupOrdinal` | src/dxstream/dxstream.cpp:78-92 | in a loaded index the ordinal i finds coordinate i, if the hash separates the ordinals |
| `Ingest.SortByOffset` | src/dxstream/dxstream.cpp:299-300 | some rearrangement of the tensors sorted by offset |
| `Ingest.AssignSizes` | src/dxstream/dxstream.cpp:301-308 | sizes are gaps to the next offset; the last one reaches to the end of the file, or is 0 |
| `Ingest.SizesTelescope` | src/dxstream/dxstream.cpp:301-303 | the sizes before tensor n add up to its offset minus the first |
| `Ingest.SizesCover` | src/dxstream/dxstream.cpp:301-308 | all sizes add up to file size - data start - least offset |
| `Ingest.SizesShort` | src/dxstream/dxstream.cpp:304-308 | a last tensor that starts past the end of the file gets nothing |
| `Ingest.AlignIs` | src/dxstream/dxstream.cpp:320 | alignment rounds up to a multiple, by less than one unit |
| `Ingest.SlicesDisjoint` | src/dxstream/dxstream.cpp:317-342 | each slice ends before every later one starts |
| `Ingest.CopySlice` | src/dxstream/dxstream.cpp:324-341 | copies in 16 MiB chunks; from the first unreadable chunk on, zeros |
| `Ingest.PadShortRead` | src/dxstream/dxstream.cpp:334-341 | the second loop appends exactly the missing bytes as zeros |
| `Ingest.CopiedInside` | src/dxstream/dxstream.cpp:324-333 | a source range inside the file is copied byte for byte |
| `Ingest.CopiedShort` | src/dxstream/dxstream.cpp:324-341 | a short file gives the whole 16 MiB chunks it holds, and zeros from the first one it does not |
| `Ingest.GapIsZero` | src/dxstream/dxstream.cpp:319-322 | the gap in front of a slice is zeros, and nothing before it is touched |
| `Ingest.Repack` | src/dxstream/dxstream.cpp:315-350 | every slice of the output is where its coordinate says and holds the copy of its source |
| `Ingest.RepackedSound` | src/dxstream/dxstream.cpp:315-350 | slices are in offset order, aligned, disjoint, padded by less than one unit, and the copies of the ranges from the table end, zeros from the first chunk past the end of the file |
| `Ingest.RepackedFromSource` | src/dxstream/dxstream.cpp:324-342 | if the last tensor starts inside the file, each slice is its range byte for byte |
| `Ingest.IngestGguf` | src/dxstream/dxstream.cpp:246-354 | the whole ingest, on any file whose offsets stay below 2^64: when it succeeds, and what every slice holds, counted from the end of the table; sizes add up to the covered range if the last tensor starts inside; the payload ends where the last slice does |
| `GgufPadding.PadZeroIff` | src/dxstream/dxstream.cpp:292 | the padding the format asks for is below the alignment, and empty exactly when the metadata end on a multiple of it |
| `GgufPadding.PaddedReads` | src/dxstream/dxstream.cpp:251-292 | of a padded file the reader finds the table, and takes the end of the metadata for the start of the data |
| `GgufPadding.OwnSlicesIff` | src/dxstream/dxstream.cpp:292-350 | on a padded file every slice is its tensor's own data if and only if the metadata end on a multiple of the file's alignment |
| `GgufPadding.ReadsOwnBytesIff` | src/dxstream/dxstream.cpp:324-333 | a tensor with data is read from its own place, and with its own bytes for all data, under exactly that condition |
| `GgufPadding.PaddingCounterexample` | src/dxstream/dxstream.cpp:292 | one tensor "a" of one dimension: the table ends at byte 57, the data start at 64, and the slice is seven bytes of padding and then the data |
| `GgufPadding.IngestPrinted` | src/dxstream/dxstream.cpp:246-354 | end to end on a printed file whose metadata end aligned: slice i is data[offset_i .. offset_(i+1)] |
| `IngestedIndex.FindSlice` | tools/dxai_ingest/main.cpp:35-38 | index of a repacked file built, written, loaded: number i finds the coordinate of slice i |
| `IngestedIndex.IngestThenFind` | tools/dxai_ingest/main.cpp:29-38 | ingest, index, blob and lookup together: number i is where tensor i's own data are in the repacked file |
| `TensorLayout.CornerIsFarthest` | src/core/dx_tensor_api.cpp:111-124 | no element lies past the corner element |
| `TensorLayout.RowMajorEnd` | src/core/dx_tensor_api.cpp:72-81 | the row-major corner element ends at element size times product of the shape |
| `TensorLayout.UnrankOfRank` | src/core/dx_tensor_api.cpp:72-81 | an index tuple is recovered from its row-major rank |
| `TensorLayout.RankOfUnrank` | src/core/dx_tensor_api.cpp:72-81 | every rank below the product is that of a tuple inside the shape |
| `TensorLayout.OffsetIsRank` | src/core/dx_tensor_api.cpp:72-81 | row-major offset = element size times rank |
| `TensorLayout.RowMajorBijection` | src/core/dx_tensor_api.cpp:72-81 | index tuples correspond one to one to the multiples of the element size below element size times product |
| `TensorDescs.MultiplyOverflow` | src/core/dx_tensor_api.cpp:24-33 | refuses exactly the products that do not fit 64 bits, else returns the product |
| `TensorDescs.DtypeSizes` | src/core/dx_tensor_api.cpp:12-22 | the size of each dtype: four bytes for 1 and 6, two for 2 and 3, one for 4 and 5, one for packed nibbles, none for any other |
| `TensorDescs.TensorDesc.constructor` | src/core/dx_tensor_api.cpp:39-47 | a cleared strided descriptor |
| `TensorDescs.TensorDesc.Reset` | src/core/dx_tensor_api.cpp:39-47 | the cleared strided descriptor |
| `TensorDescs.TensorDesc.InitContiguous` | src/core/dx_tensor_api.cpp:49-83 | each error code exactly when its condition holds; success exactly when the span is at most 2^63 - 1, with the row-major strides |
| `TensorDescs.TensorDesc.FillStrides` | src/core/dx_tensor_api.cpp:72-81 | the backward loop succeeds exactly when the whole span fits, with the row-major strides |
| `TensorDescs.TensorDesc.FarthestOffset` | src/core/dx_tensor_api.cpp:111-124 | the accumulation loop, with its two errors, computes byte offset plus the reach of the corner |
| `TensorDescs.TensorDesc.RequiredBytes` | src/core/dx_tensor_api.cpp:104-133 | succeeds exactly when the dimensions are positive, the dtype is known and the end of the farthest element fits 64 bits, and returns that end |
| `TensorDescs.TensorDesc.Validate` | src/core/dx_tensor_api.cpp:85-102 | returns 0 exactly for descriptors whose required bytes can be computed and whose version fields are right |
| `TensorDescs.TensorDesc.IsContiguous` | src/core/dx_tensor_api.cpp:135-154 | returns 1 exactly for valid descriptors whose strides are the row-major ones |
| `TensorDescs.TensorDesc.HasRowMajorStrides` | src/core/dx_tensor_api.cpp:140-153 | the backward loop over a valid descriptor finds out whether its strides are the row-major ones |
| `TensorDescs.RequiredBytesIsTight` | src/core/dx_tensor_api.cpp:104-133 | every addressable element ends within the required bytes, and the corner element ends exactly there |
| `TensorDescs.ContiguousDescribed` | src/core/dx_tensor_api.cpp:49-154 | a descriptor initialised as contiguous needs exactly its span and is judged contiguous |
| `RingAllReduce.FullRing` | src/dxcollective/dxcollective.cpp:78-79 | a sum around the whole ring is the total wherever it starts |
| `RingAllReduce.ScatterSend` | src/dxcollective/dxcollective.cpp:85-113 | one send keeps the scatter invariant: after step s GPU i + 1 holds chunk i - s summed over s + 2 consecutive GPUs |
| `RingAllReduce.ReceiverHop` | src/dxcollective/dxcollective.cpp:85-113 | what one hop means for the receiver, element by element |
| `RingAllReduce.ScatterRunHolds` | src/dxcollective/dxcollective.cpp:83-115 | every state of the scatter loops is described element by element by the hops made so far |
| `RingAllReduce.ScatterIsAtOnce` | src/dxcollective/dxcollective.cpp:84-115 | the sends of a scatter step one after another equal all of them at once |
| `RingAllReduce.ScatterFinishes` | src/dxcollective/dxcollective.cpp:83-115 | after the scatter GPU k - 1 holds chunk k after n - 1 hops, its full sum if they accumulate |
| `RingAllReduce.GatherHop` | src/dxcollective/dxcollective.cpp:120-133 | what one hop of the gather means for the receiver, element by element |
| `RingAllReduce.GatherRunHolds` | src/dxcollective/dxcollective.cpp:117-141 | every state of the gather loops is described element by element |
| `RingAllReduce.GatherIsAtOnce` | src/dxcollective/dxcollective.cpp:119-140 | the sends of a gather step one after another equal all of them at once |
| `RingAllReduce.GatherDelivers` | src/dxcollective/dxcollective.cpp:117-141 | after the gather every GPU holds chunk k as GPU k - 1 finished it; elements past the chunks stay |
| `RingAllReduce.GatherSend` | src/dxcollective/dxcollective.cpp:120-133 | one send of the gather keeps its invariant |
| `RingAllReduce.CollectiveOps.ScatterReduce` | src/dxcollective/dxcollective.cpp:83-115 | the loops compute the scatter run of the specification, for either receive, each addition taken as done before the next send |
| `RingAllReduce.CollectiveOps.AllGather` | src/dxcollective/dxcollective.cpp:117-141 | the loops compute the gather run of the specification |
| `RingAllReduce.CollectiveOps.AllReduceSum` | src/dxcollective/dxcollective.cpp:71-142 | the method computes the whole run of the specification, each addition taken as done before the next send; with an accumulating receive every GPU ends with every total and its own rest |
| `RingAllReduce.AccumulatingIsRight` | src/dxcollective/dxcollective.cpp:71-142 | with an accumulating receive, for every number of GPUs and every chunk size, each GPU ends with every total and the rest past the chunks untouched |
| `RingAllReduce.FirstRunHolds` | src/dxcollective/dxcollective.cpp:84-113 | as written, what every send leaves in chunk 0 of every GPU if each addition lands before the next send |
| `RingAllReduce.AsWrittenLeaves` | src/dxcollective/dxcollective.cpp:71-142 | as written, the final value of every element: chunk k >= 1 is GPU k's own, chunk 0 what the scatter mixes on the last GPU if each addition lands before the next send, the rest is unchanged |
| `RingAllReduce.AsWrittenRightIff` | src/dxcollective/dxcollective.cpp:101-113 | as written, with each addition landing before the next send, an input is reduced correctly if and only if those values are the totals |
| `RingAllReduce.TwoGpus` | src/dxcollective/dxcollective.cpp:101-113 | with two GPUs, and each addition landing before the next send, chunk 0 ends as twice GPU 0's values |
| `RingAllReduce.AsWrittenFails` | src/dxcollective/dxcollective.cpp:101-113 | as written, every ring of two or more GPUs gets all ones wrong |
| `RingAllReduce.AsWrittenRightForAllIff` | src/dxcollective/dxcollective.cpp:71-142 | as written, all inputs of a ring are reduced correctly if and only if there are fewer than two GPUs or no elements |
| `RingTiming.TimingKeeps` | src/dxcollective/dxcollective.cpp:101-141 | whenever the additions land, everything past chunk 0 is what it is when each lands before the next send |
| `RingTiming.AnyTimingLeaves` | src/dxcollective/dxcollective.cpp:71-142 | under every timing of the additions chunk k >= 1 ends everywhere as GPU k's own, and the rest is unchanged |
| `RingTiming.AnyTimingFails` | src/dxcollective/dxcollective.cpp:101-113 | under every timing every ring of two or more GPUs gets all ones wrong |
| `RingTiming.AnyTimingRightForAllIff` | src/dxcollective/dxcollective.cpp:71-142 | under every timing all inputs of a ring are reduced correctly if and only if there are fewer than two GPUs or no elements |
| `RingTiming.PromptIsAsWritten` | src/dxcollective/dxcollective.cpp:101-113 | the run in which each addition lands before the next send is one of these timings |
| `Gemm.MatrixSizeOk` | src/core/dx_ops_api.cpp:15-21 | accepts exactly the products that fit 64 bits |
| `Gemm.IndexInside` | src/core/dx_ops_api.cpp:84-90 | every index of the reference loops is below the accepted size of its matrix |
| `Gemm.GemmF32` | src/core/dx_ops_api.cpp:63-95 | the error codes exactly on their conditions; otherwise c becomes alpha A B + beta c, and elements past m n stay |
| `Gemm.ReferenceLoops` | src/core/dx_ops_api.cpp:84-92 | row by row the triple loop leaves alpha A B + beta c, reading each old element of c before overwriting it |
| `Gemm.RowTimesColumn` | src/core/dx_ops_api.cpp:86-89 | the inner loop is the dot product |
| `Gemm.TimesIdentity` | src/core/dx_ops_api.cpp:86-89 | A times the identity is A |
| `Gemm.IdentityTimes` | src/core/dx_ops_api.cpp:86-89 | the identity times B is B |
| `Gemm.DotLinear` | src/core/dx_ops_api.cpp:86-89 | the product is linear in A |
| `Gemm.CombinedWithIdentity` | src/core/dx_ops_api.cpp:90 | with the identity for B the result is alpha A + beta C |
| `Gemm.CombinedIsBoth` | src/core/dx_ops_api.cpp:90 | alpha weighs the product and beta what was there |
| `Gemm.TileExtendsDot` | src/dxblas/dxblas.cpp:50-63 | a loaded tile pair extends every thread's dot product by 16 terms, the zero padding past K adding nothing |
| `Gemm.LoadTiles` | src/dxblas/dxblas.cpp:51-56 | the cooperative load fills both tiles, in any thread order |
| `Gemm.AccumulateTiles` | src/dxblas/dxblas.cpp:58-61 | the compute phase adds each thread's 16 products, in any thread order |
| `Gemm.GemmGroup` | src/dxblas/dxblas.cpp:42-65 | a group writes the dot products of its 16 x 16 block and nothing else |
| `Gemm.WriteGroup` | src/dxblas/dxblas.cpp:47-64 | the active threads write their accumulators to their own cells and nothing else changes |
| `Gemm.InGroupIff` | src/dxblas/dxblas.cpp:45-46 | each element belongs to exactly one group of the grid |
| `Gemm.GemmTiled` | src/dxblas/dxblas.cpp:42-65 | for M and N divisible by 16 and every K, groups and threads in any order, the tiled kernel leaves what the reference leaves with alpha 1 and beta 0 |
| `Gemm.EveryReadLoadedIff` | src/dxblas/dxblas.cpp:47-61 | every shared cell an active thread reads was loaded if and only if 16 divides M and N |
| `Gemm.PairTerms` | src/dxblas/dxblas.cpp:92-99 | one word of A and one of B carry the next two terms of the dot product |
| `Gemm.HalvesOf` | src/dxblas/dxblas.cpp:94-95 | the first of two codes is in the low half of their word |
| `Gemm.PairSumIsDot` | src/dxblas/dxblas.cpp:90-99 | on packed matrices the word pairs sum to the dot product of the unpacked row and column |
| `Gemm.DotPacked` | src/dxblas/dxblas.cpp:84-109 | the kernel sums the products of word pairs, plus a tail term when K is odd |
| `Gemm.EvenPackedDot` | src/dxblas/dxblas.cpp:79-109 | for the even K the kernel is documented for, its accumulator is the dot product of the unpacked row and column |
| `Gemm.OddTailReadsNextRow` | src/dxblas/dxblas.cpp:100-107 | for odd K the tail takes its A half from the first word of the next row |
| `Gemm.TailAIs` | src/dxblas/dxblas.cpp:100-107 | the A factor of the tail: the next row's first element, or what a load past the end gives |
| `Gemm.OddPackedDot` | src/dxblas/dxblas.cpp:100-107 | for odd K, in every row, the accumulator is the dot product of the K - 1 packed terms plus a product of two factors: the next row's first element, or zero when the last row reads past a buffer of exactly m rows, and a half of a word the columns are not packed by |
| `VectorStore.CosineSimilarity` | src/dxdb/dxdb.cpp:12-21 | the loop computes the cosine score, 0 for near-zero norms |
| `VectorStore.CauchySchwarz` | src/dxdb/dxdb.cpp:12-21 | the squared dot product is at most the product of the squared norms |
| `VectorStore.CosineBounded` | src/dxdb/dxdb.cpp:12-21 | every score is between -1 and 1 |
| `VectorStore.LawOfCosines` | src/dxdb/dxdb.cpp:8-21 | the score is that of the angle: |a - b|^2 = |a|^2 + |b|^2 - 2 |a| |b| score |
| `VectorStore.NearestScoresHighest` | src/dxdb/dxdb.cpp:8-21 | among vectors of one length the nearest to the query has the highest score |
| `VectorStore.CosineOneIff` | src/dxdb/dxdb.cpp:8-21 | above the threshold the score is 1 if and only if one vector is a positive multiple of the other |
| `VectorStore.SelfScore` | src/dxdb/dxdb.cpp:8-21 | a vector that is long enough has score 1 against itself |
| `VectorStore.ShortScoresZero` | src/dxdb/dxdb.cpp:19-20 | vectors whose norms multiply to at most 1e-8 score 0 |
| `VectorStore.InsertKeeps` | src/dxdb/dxdb.cpp:23-32 | inserting keeps ids and index exact inverses and sets the id's entry, reviving a tombstone in place |
| `VectorStore.RemoveKeeps` | src/dxdb/dxdb.cpp:34-39 | removing keeps them too and drops the id's entry |
| `VectorStore.CompactKeeps` | src/dxdb/dxdb.cpp:64-76 | compacting keeps the contents and the live documents in order, and rebuilds an exact index |
| `VectorStore.RunRefines` | src/dxdb/dxdb.cpp:23-76 | every run of insert, remove and compact refines the same run of a plain map from ids to entries |
| `VectorStore.LiveStepIs` | src/dxdb/dxdb.cpp:23-76 | what an operation does to the sequence of live documents, unless it revives a tombstone |
| `VectorStore.CompactionInvisible` | src/dxdb/dxdb.cpp:64-76 | a run after compacting and the same run without it keep the same live sequence, as long as no tombstone is revived |
| `VectorStore.CompactionInvisibleIff` | src/dxdb/dxdb.cpp:23-76 | every run, revivals included, keeps the order of the live documents whether the store was compacted before it or not, if and only if the store held no removed document |
| `VectorStore.RevivalOrderIff` | src/dxdb/dxdb.cpp:24-28 | a revival keeps the order the compacted store would have exactly when nothing live follows the tombstone |
| `VectorStore.CompactionInvisibleToSearch` | src/dxdb/dxdb.cpp:41-76 | every later search then ranks the same candidates in the same order |
| `VectorStore.SameCandidates` | src/dxdb/dxdb.cpp:45-49 | stores with the same contents offer a search the same candidates, each once |
| `VectorStore.CompactionKeepsCandidates` | src/dxdb/dxdb.cpp:64-76 | after any run, revivals included, a store compacted before it offers every search the same candidates |
| `VectorStore.CompactionKeepsScores` | src/dxdb/dxdb.cpp:41-76 | after any run, its answers have the same score at every rank |
| `VectorStore.RevivalChangesOrder` | src/dxdb/dxdb.cpp:24-28 | a store of two documents where inserting a removed id again gives the live documents another order after compaction |
| `VectorStore.CandidatesAreContents` | src/dxdb/dxdb.cpp:45-49 | the candidates of a search are exactly the entries of the right dimension, scored |
| `VectorStore.PartialSort` | src/dxdb/dxdb.cpp:51-56 | a rearrangement whose first `count` elements are the best, best first |
| `VectorStore.PrefixIsTopK` | src/dxdb/dxdb.cpp:51-60 | its prefix is a top-k answer |
| `VectorStore.BestAnswer` | src/dxdb/dxdb.cpp:41-62 | the first answer has score 1 if and only if a live document is a positive multiple of the query, and no answer has more |
| `VectorStore.ScoresDetermined` | src/dxdb/dxdb.cpp:51-61 | the candidates, in whatever order, determine the score at every rank of the answer; only ties may differ |
| `VectorStore.CollectLive` | src/dxdb/dxdb.cpp:65-74 | the compaction loop moves the live documents and indexes them anew |
| `VectorStore.FastRetrieveDB.Insert` | src/dxdb/dxdb.cpp:23-32 | the method is the insert step; the contents gain the entry |
| `VectorStore.FastRetrieveDB.Remove` | src/dxdb/dxdb.cpp:34-39 | the method is the remove step; an unknown id changes nothing |
| `VectorStore.FastRetrieveDB.Compact` | src/dxdb/dxdb.cpp:64-76 | the method is the compact step; no deleted document is left |
| `VectorStore.FastRetrieveDB.Size` | src/dxdb/dxdb.cpp:78-80 | the number of documents stored, tombstones included |
| `VectorStore.FastRetrieveDB.SearchRag` | src/dxdb/dxdb.cpp:41-62 | empty for a wrong dimension; otherwise min(top_k, matches) results, best first, with no strictly better candidate left out; the first has score 1 exactly if a live document is a positive multiple of the query |
| `VectorStore.FastRetrieveDB.ActiveCount` | src/dxdb/dxdb.cpp:82-88 | the number of ids the store holds |
| `VectorStore.LiveCount` | src/dxdb/dxdb.cpp:82-88 | there is one live document for each id held |
| `VectorStore.FastRetrieveDB.constructor` | src/dxdb/dxdb.cpp:8 | an empty store of the given dimension |
| `Quant.WideningExact` | src/dxquant/dxquant.cpp:18-27 | widening computes the value of a pattern as the program reads it, subnormals as zero |
| `Quant.WideningKeepsIff` | src/dxquant/dxquant.cpp:18-27 | by the standard's value of a finite pattern, widening keeps it exactly when it is not a subnormal |
| `Quant.KnownValues` | src/dxquant/dxquant.cpp:7-27 | the values of five binary16 and two binary32 patterns by the standard |
| `Quant.NarrowingUndoesWideningIff` | src/dxquant/dxquant.cpp:7-27 | narrowing a widened pattern gives it back exactly for normals, plus zero and the infinities |
| `Quant.NarrowingIsStored` | src/dxquant/dxquant.cpp:7-16 | on every finite pattern but minus zero the bit expressions compute the truncated scale of the value, with flush to zero and overflow |
| `Quant.TruncationError` | src/dxquant/dxquant.cpp:7-16 | over the normal range the stored scale keeps its sign, never grows and loses less than 1/1024 |
| `Quant.RoundIs` | src/dxquant/dxquant.cpp:40 | rounding to the nearest integer, halves away from zero |
| `Quant.AmaxBounds` | src/dxquant/dxquant.cpp:32-35 | the running maximum bounds every magnitude of the block |
| `Quant.AmaxReached` | src/dxquant/dxquant.cpp:32-35 | the running maximum is the magnitude of a value of the block |
| `Quant.ExtremeCodes` | src/dxquant/dxquant.cpp:36-71 | the scales map the largest magnitude to the ends of the code ranges: 127 or -127, and 0 if positive or the clamped 15 if negative |
| `Quant.Error8` | src/dxquant/dxquant.cpp:29-54 | 8-bit quantise and dequantise: error at most d (1/2 + 127/1024) |
| `Quant.Error4` | src/dxquant/dxquant.cpp:56-88 | 4-bit: error at most d (1 + 8/1024), and d (1/2 + 8/1024) below 7.5 steps, where the code is not clamped |
| `Quant.FullStepReached` | src/dxquant/dxquant.cpp:67-71 | the full step does occur: a block's most negative extreme comes back at least one step short |
| `Quant.FlushedBlock8` | src/dxquant/dxquant.cpp:7-54 | an 8-bit block whose scale is below the normal range, zero included, comes back as zeros |
| `Quant.FlushedBlock4` | src/dxquant/dxquant.cpp:7-88 | the same for 4-bit blocks |
| `Quant.MinusZero` | src/dxquant/dxquant.cpp:63-65 | the scale of an all-zero 4-bit block is stored as 0x8000, and is worth zero |
| `Quant.At32Is` | src/dxquant/dxquant.cpp:30-35 | the 32-bit index i * 32 + j is that of block i modulo 2^27 |
| `Quant.OwnBlocksIff` | src/dxquant/dxquant.cpp:30-88 | the row functions read every whole block from its own place, and write it there, if and only if there are at most 2^27 of them |
| `Quant.OverflowedScale` | src/dxquant/dxquant.cpp:14-23 | a scale of 65536 or more is stored as infinity and read back as 65536 |
| `Quant.OverflowedBlock` | src/dxquant/dxquant.cpp:14-88 | such a block comes back in steps of 65536, whatever its scale was |
| `Quant.NibblesUnpack` | src/dxquant/dxquant.cpp:66-85 | packed nibbles unpack to the codes stored, and fit a byte |
| `Quant.PackedInOrder` | src/dxquant/dxquant.cpp:39-52 | the codes of an 8-bit block stand in the order of its values, under the stored scale |
| `Quant.UnpackedIs` | src/dxquant/dxquant.cpp:79-86 | a byte holds the code of value j below that of value j + 16, each counted from -8 |
| `Quant.LargestMagnitude` | src/dxquant/dxquant.cpp:32-35 | the loop finds the largest magnitude of its own block |
| `Quant.QuantizeCodes8` | src/dxquant/dxquant.cpp:39-42 | the 32 rounded and clamped codes of a block |
| `Quant.QuantizeNibbles` | src/dxquant/dxquant.cpp:66-72 | the 16 bytes of a block, value j low and value j + 16 high |
| `Quant.QuantizeRowQ8` | src/dxquant/dxquant.cpp:29-44 | every whole block among the first k values, counted in 32 bits, becomes the quantised block at its 32-bit index; nothing else is written |
| `Quant.QuantizeRowQ4` | src/dxquant/dxquant.cpp:56-74 | the same for the 4-bit blocks, an all-zero one with scale 0x8000 |
| `Quant.DequantizeRowQ8` | src/dxquant/dxquant.cpp:46-54 | every value of the first k / 32 blocks, indexed in 32 bits, becomes code times scale of the last block written there; nothing else is written |
| `Quant.DequantizeBlockQ8` | src/dxquant/dxquant.cpp:49-52 | the 32 values of a block become code times scale; other blocks stay |
| `Quant.DequantizeBlockQ4` | src/dxquant/dxquant.cpp:79-86 | a byte gives values j and j + 16 of its block; other blocks stay |
| `Quant.DequantizeRowQ4` | src/dxquant/dxquant.cpp:76-88 | the same from the nibbles, value j and j + 16 of a block sharing a byte |

## Left out

- D3D12 objects, root signatures, command lists, shader compilation, adapters, DirectStorage and Winsock calls: foreign interfaces; only fence order is kept.
- NaN, infinities and rounding of float arithmetic, and the precision of GPU intrinsics.
- The constant buffers of `dispatch_attention` do not match the fields of the paged kernel; the kernels are modelled with the parameters they declare.
- The H2O kernel of `src/dxattention/dxattention.cpp` after line 294, which repeats the two-pass scheme under a keep mask.
- `ring_attention`, which runs unrelated local shards and never combines them.
- `KVCacheManager`, shard planning, token counters, sampling, loggers, traces, memory-pool statistics: easy members.
- `parse_safetensors`, the network transport, the MCP server, KV-cache quantisation and the kernel text templates: stubs or simulations.
- The GPU kernel `dequant_q4_0`, which never multiplies by the scale and loads bytes at unaligned addresses.
- Null-pointer checks and out-of-memory codes of the C interfaces.
- Gemm.GemmTiled: does not describe edge tiles when 16 does not divide M or N, where threads that returned miss the barriers and the result is undefined.
- Gemm.OddTailReadsNextRow: is an index identity; what the accumulator is worth for odd K is in `Gemm.OddPackedDot`.
- Gemm.EvenPackedDot: is about one thread of the grid, and `decode` stands for `f16tof32`; Gemm.OddPackedDot likewise.
- Gemm.OddPackedDot: takes a load past the end of a packed buffer as zero; the kernel binds its buffers by address, where the interface leaves such a load undefined.
- RingAllReduce.CollectiveOps.AllReduceSum: takes the chunk size in whole floats and buffers with room for one chunk a GPU; a chunk of bytes that splits a float, and the case of fewer bytes than GPUs, in which the code sends past the end, are not modelled. Each addition is taken as done before the next send, which the code does not wait for; `RingTiming` is about all other timings.
- RingAllReduce.AsWrittenLeaves: is about chunk 0 only if each addition lands before the next send; RingAllReduce.FirstRunHolds, RingAllReduce.AsWrittenRightIff and RingAllReduce.TwoGpus likewise. `RingTiming.AnyTimingLeaves` is about the other chunks under every timing; no outcome of chunk 0 is promised then.
- GgufStream.StreamSkipExactIff: stops at arrays inside arrays, where the only-if half is false (`GgufStream.NestedCanRealign`) and no condition short of the reader's own steps is given; the other half holds at any depth (`GgufStream.StreamSkipsEncoding`).
- Gguf.SkipVal: takes file offsets as unbounded, so a length that wraps 64 bits is not followed. The same goes for ModelLoading.ModelLoader.ParseGguf and GgufStream.ReadHeader.
- Streaming.StreamingMoE.Fetch: leaves out `stall_wait_ns`, which is clock time, and stops one short of the last 64-bit tick. Its counters are integers: bytes_resident, which requests that throw can drive below zero, is what the 64-bit counter holds modulo 2^64.
- Streaming.StreamingMoE.EnqueueRead: takes a tensor as fitting its slot: `slot_size` is not part of this model, and neither is what the storage layer does with a read past the end of a buffer, or a file that can no longer be opened.
- Ingest.IngestGguf: takes the file as a byte sequence and the output as one, without paths and write errors, and asks for a non-zero alignment, by which the code divides. Offsets are unbounded: a data start plus offset that wraps 64 bits (`src/dxstream/dxstream.cpp:306`) is not followed, and neither is the exception of `tensors.reserve` on an announced count that memory cannot hold.
- Ingest.AssignSizes: adds data start and offset without the wrap at 64 bits, after which the code gives the last tensor another size.
- TensorIndexes.TensorIndex.Build: asks for fewer than 2^32 entries, beyond which its loop does not end (`TensorIndexes.BuildLoopEnds`).
- IngestedIndex.IngestThenFind: goes through the blob in memory instead of the index file, and speaks of indices whose numbers fit their fields.
- Quant.Error8: computes d = amax / 127 and its inverse exactly, so the last-bit errors of those float operations come on top; the same goes for Quant.Error4 with amax / -8.
- VectorStore.CompactionInvisible: is about runs that insert no removed id again; with one the order can differ (`VectorStore.RevivalChangesOrder`), while candidates and scores agree for every run (`VectorStore.CompactionKeepsCandidates`), and the order does for all runs only without removed documents (`VectorStore.CompactionInvisibleIff`). The same goes for VectorStore.CompactionInvisibleToSearch.
- VectorStore.FastRetrieveDB.SearchRag: compares real scores, so it does not say what a NaN does to the order.
- Hadamard.AdvancedKVCache.ApplyHadamardTransform: asks for fewer than 2^31 floats, beyond which the clamp loop does not end.
- Fft.Fft1dRadix2: asks for n <= 2^30 when n is a power of two, beyond which the stage loop does not end.
