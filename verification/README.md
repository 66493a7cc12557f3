# AV1 codec helpers in Dafny

A Dafny model of six groups of integer logic from the libaom/AVM AV1 codec,
with proofs of the properties each group is meant to have:

- **Palette colour-index context** (`av1/common/entropymode.c`). The
  left, top-left and top neighbours of a palette pixel are scored. The top
  three scores are moved to the front by a selection step that keeps a colour
  order and its inverse. The result is hashed into one of five contexts. This
  group also holds the default loop-filter reference and mode deltas.
- **Motion-vector reference helpers** (`av1/common/mvref_common.c`). This
  covers:
  - temporal MV projection;
  - insertion into the reference-MV candidate stack, with de-duplication and
    16-bit weights;
  - the two bubble-sort passes over the stack;
  - the de-duplication of lowered candidates (`av1_get_mv_refs_adj`);
  - the cluster merge (`merge_mv`);
  - the projected block position;
  - compaction of warped-motion samples;
  - reference-frame ordering and assignment (`av1_set_frame_refs`);
  - the skip-mode reference pair.

  Sections 7.8, 7.9 and 7.10 of the AV1 Bitstream and Decoding Process
  Specification describe the normative parts.
- **Loop-filter levels and masks** (`av1/common/av1_loopfilter.c`). This
  covers:
  - sharpness limits;
  - the per-segment, per-direction, per-reference and per-mode level table;
  - the per-block filter level with delta-LF;
  - bit positions inside the 64-bit masks;
  - UV edge masks;
  - the folding of 32x32/64x64 edges into the 16x16 mask and of border 4x4
    edges into the 8x8 mask;
  - the row range of a partial-frame pass.
- **Inter-prediction masks** (`av1/common/reconinter.c`). This covers:
  - `shift_copy`;
  - difference-weighted compound masks at 8 and more bits;
  - smooth inter-intra masks;
  - wedge master masks;
  - OBMC ramps;
  - the integer optical-flow MV refinement;
  - the warp-allowed decision.
- **Temporal-filter arithmetic** (`av1/encoder/temporal_filter.c`). This
  covers:
  - squared-difference buffers;
  - the 3x3 neighbour window;
  - filter-weight adjustment for the Y-only and YUV paths;
  - accumulator and count updates;
  - the rounded normalisation;
  - block counts;
  - the ARNR frame split.
- **Encoder decision helpers** (`av1/encoder/encodeframe.c`). This covers:
  - limiting the number of reference frames;
  - global-motion search gating;
  - weighted CDF averaging;
  - active-edge tests;
  - picked-reference masks;
  - the variance-to-partition map;
  - the AB-partition flag decode;
  - delta-q and delta-LF rounding.

Each source file becomes one module; `mvref_common.c` is split into
`MvProjection`, `RefMvStack`, `WarpSamples` and `FrameRefs`. The modules are
supported by `IntMath` (C-style division and rounding, powers of two, sums)
and `Wrappers` (`Option`, `Result`).

Modelling choices:

- **Data and errors.**
  - Arrays become sequences.
  - Structs become datatypes.
  - 64-bit edge masks become sets of bit positions below 64.
  - C's truncating `/` is written out as `CDiv` wherever an operand can be
    negative.
  - `uint16_t` weights wrap modulo 65536.
  - Error paths are modelled explicitly: `av1_set_frame_refs` returns a
    `Result`, and OBMC masks of unsupported length return `None`.
- **Build flags.** The model follows the build where these are on:
  - `CONFIG_LOOPFILTER_LEVEL`;
  - `CONFIG_EXT_DELTA_Q`;
  - 64x64 transforms.

  These are off:
  - quincunx down-sampling of the optical-flow solve;
  - `CONFIG_EXT_ROTATION`. The rotation branches of `av1_allow_warp` are
    not modelled.
- **Header constants.** These come from headers that are not part of this
  model, and their values are the library's:
  - `MAX_FRAME_DISTANCE` = 31;
  - `MV_UPP` = 1 << 14;
  - `MAX_LOOP_FILTER` = 63;
  - `DIFF_FACTOR` = 16;
  - `CDF_PROB_TOP` = 32768;
  - the block-size tables.
- **Header functions.** These are defined in headers that are not part of
  this model. The definitions assumed here are the following:
  - `get_relative_dist` is the sign-extended difference of two order hints;
  - `ROUND_POWER_OF_TWO(v, n)` is `(v + 2^n / 2)` floored divided by `2^n`;
  - `ROUND_POWER_OF_TWO_SIGNED(v, n)` rounds the magnitude that way and keeps
    the sign;
  - `DIVIDE_AND_ROUND_SIGNED(x, y)` is `(|x| + |y| / 2) / |y|`, negated
    exactly when `x` and `y` have different signs. This also fixes its value
    for the negative divisor `d0` of the optical-flow solve;
  - `clamp(v, lo, hi)` is `lo` below `lo`, `hi` above `hi`, else `v`.

## Model

| member | source | states |
|---|---|---|
| PaletteContext.ContextLookup | av1/common/entropymode.c:2547-2551 | a hash maps to a valid context exactly when it is one of 2, 5, 6, 7, 8; every valid context is below the number of contexts |
| PaletteContext.ContextLookupInjective | av1/common/entropymode.c:2549-2551 | no two hashes share a valid context, so the context identifies the score pattern |
| PaletteContext.NeighborColorsPattern | av1/common/entropymode.c:2560-2565 | off the first pixel, each neighbour is absent (-1) or a palette colour; left or top is present; top-left is present exactly when both left and top are |
| PaletteContext.NeighborScores | av1/common/entropymode.c:2570-2577 | a colour that is not a neighbour's colour scores 0 |
| PaletteContext.NeighborScoresTotal | av1/common/entropymode.c:2570-2577 | the scores add up to 2 per present left/top neighbour plus 1 for a present top-left, so absent neighbours add nothing |
| PaletteContext.MoveToFront | av1/common/entropymode.c:2595-2608 | moving slot m to slot i rotates scores and colour order alike; the order/inverse pair stays mutually inverse, the moved colour lands at i and the colours in between move one slot later |
| PaletteContext.FirstMaxIndex | av1/common/entropymode.c:2587-2594 | the returned slot holds the maximum of the remaining scores and is the first slot that does |
| PaletteContext.SelectionStep | av1/common/entropymode.c:2585-2609 | one selection round keeps the loop invariant: a sorted prefix that dominates the rest, order and inverse mutually inverse, ties resolved towards lower colours |
| PaletteContext.SelectTopScores | av1/common/entropymode.c:2579-2609 | the colour order is a permutation with its inverse; each sorted score is the score of the colour at that slot; slots past the palette are untouched; the first three scores dominate all later ones; an equal score never puts a higher colour ahead of a lower one; the colours after the first three keep their increasing order |
| PaletteContext.SelectionOrder | av1/common/entropymode.c:2585-2609 | after the selection, each of the first three colours scores at least as much as every later palette colour, and an equal score keeps the lower colour first |
| PaletteContext.PaletteSlotHoldsPaletteColor | av1/common/entropymode.c:2579-2609 | a slot inside the palette holds a palette colour, because the slots past the palette keep their own colours |
| PaletteContext.TopScoresOneSide | av1/common/entropymode.c:2570-2609 | with only one of left/top present the top scores are (2, 0, 0) |
| PaletteContext.TopScoresAllEqual | av1/common/entropymode.c:2570-2609 | three equal neighbours give top scores (5, 0, 0) |
| PaletteContext.TopScoresLeftIsTop | av1/common/entropymode.c:2570-2609 | left equal to top but not to top-left gives (4, 1, 0) |
| PaletteContext.TopScoresCornerMatches | av1/common/entropymode.c:2570-2609 | left differing from top with top-left equal to one of them gives (3, 2, 0) |
| PaletteContext.TopScoresAllDifferent | av1/common/entropymode.c:2570-2609 | three different neighbours give (2, 2, 1) |
| PaletteContext.HashMatchesPattern | av1/common/entropymode.c:2614-2628 | the hash of any valid selection lies in 1..8 and looks up the context of the neighbours' equality pattern (0 one side, 1 all different, 2 corner matches, 3 left equals top, 4 all equal) |
| PaletteContext.PatternHash | av1/common/entropymode.c:2614-2621 | the same hash fact, stated for a selection whose top three scores dominate and whose scores are the neighbours' scores in colour order |
| PaletteContext.ShiftUp | av1/common/entropymode.c:2600-2604 | the shifting loop moves entries i..m-1 one slot up, leaves every other slot alone, and moves the inverse of each shifted colour up by one |
| PaletteContext.RankNeighborColors | av1/common/entropymode.c:2570-2621 | for a valid neighbour pattern the colour order is a permutation with its inverse, fully fixed by the neighbour scores, and the hash of the top three scores lies in 1..8 and looks up the pattern's context |
| PaletteContext.ColorIndexContext | av1/common/entropymode.c:2553-2629 | the context lies in [0, 5) and is the pattern context of the pixel's neighbours; the colour order is a permutation of the palette and the returned index is the position of the pixel's own colour in it; the order is fully fixed: the first three slots hold the top neighbour scores in decreasing order with ties going to the lower colour, the remaining palette colours follow in increasing order, and slots past the palette hold their own colour |
| PaletteContext.DefaultRefDeltas | av1/common/entropymode.c:2850-2861 | INTRA gets 1, LAST/LAST2/LAST3/BWDREF get 0, GOLDEN/ALTREF2/ALTREF get -1 |
| PaletteContext.DefaultModeDeltas | av1/common/entropymode.c:2863-2868 | both mode deltas are 0 |
| MvProjection.DivMult | av1/common/mvref_common.c:19-22 | the reciprocal multiplier lies in [0, 16384] and is 0 exactly for a zero distance |
| MvProjection.ClampNum | av1/common/mvref_common.c:28-29 | the numerator is clamped to ±MAX_FRAME_DISTANCE, keeps its sign, and is unchanged when already in range |
| MvProjection.ScaledComponent | av1/common/mvref_common.c:27-33 | a zero numerator or a zero denominator scales any component to 0 |
| MvProjection.ProjectComponent | av1/common/mvref_common.c:27-37 | a projected component lies strictly inside (MV_LOW, MV_UPP) and is 0 for a zero numerator or denominator |
| MvProjection.Projection | av1/common/mvref_common.c:26-38 | both components of the projection lie strictly inside the MV range; a zero distance gives the zero MV |
| MvProjection.ProjectComponentOdd | av1/common/mvref_common.c:26-38 | a projected component is odd in the MV component and in the numerator |
| MvProjection.ProjectionOfNegation | av1/common/mvref_common.c:26-38 | projecting the negated MV gives the negated projection |
| MvProjection.ProjectionOfReversedDistance | av1/common/mvref_common.c:26-38 | projecting over the reversed temporal distance gives the negated projection |
| MvProjection.ProjectionProductFitsInt32 | av1/common/mvref_common.c:17-33 | for a stored MV within the reference-MV limit, the product of component, clamped numerator and multiplier fits in int32 |
| MvProjection.BlockOffsetIsTruncatingDivision | av1/common/mvref_common.c:1415-1419 | the MV offset is division by 64 truncated toward zero, hence symmetric in the sign of the MV |
| MvProjection.BlockPosition | av1/common/mvref_common.c:1410-1440 | an accepted position lies inside the half-resolution frame, in the block's 8-row band, and within 8 columns left and 16 right of its 8-column band |
| MvProjection.BlockPositionComplete | av1/common/mvref_common.c:1410-1440 | the position is accepted exactly when the truncated projected row and column satisfy all the window conditions, and then it is that row and column |
| MvProjection.BlockPositionSignBias | av1/common/mvref_common.c:1415-1422 | a sign bias of 1 is the same as projecting the negated MV |
| RefMvStack.FindKey | av1/common/mvref_common.c:175-180 | the search returns the first stack slot with the candidate's key, and the stack size exactly when no slot has it |
| RefMvStack.FindKeyFrom | av1/common/mvref_common.c:204-210 | from a start slot, the search returns the first later slot with the key, or the stack size |
| RefMvStack.Bump | av1/common/mvref_common.c:182 | adding weight changes only that slot's 16-bit weight, modulo 65536 |
| RefMvStack.Insert | av1/common/mvref_common.c:175-187 | a known key only gains weight; a new key is appended with its weight only while the stack has room; the stack never exceeds its maximum, stays duplicate-free, and the key is present afterwards exactly when it was already or there was room |
| RefMvStack.InsertWeightTotal | av1/common/mvref_common.c:175-187 | the total weight modulo 65536 grows by the candidate's weight when it is kept and is unchanged when the stack was full |
| RefMvStack.SingleSlot | av1/common/mvref_common.c:168-190 | one single-reference slot never shrinks the stack, never exceeds the maximum, keeps it duplicate-free and leaves existing candidates in place |
| RefMvStack.AddRefMvCandidate | av1/common/mvref_common.c:156-223 | a non-inter neighbour changes nothing; the stack stays bounded and duplicate-free with existing candidates in place; the match counters grow by the number of matching reference slots; a matching compound candidate is on the stack afterwards when there was room |
| RefMvStack.BubblePass | av1/common/mvref_common.c:1165-1179 | one pass permutes the range, leaves everything outside it unchanged, and extends the sorted tail down to the last swap |
| RefMvStack.SortRange | av1/common/mvref_common.c:1164-1196 | the range ends sorted by non-increasing weight as a permutation of its own entries, with the rest of the stack unchanged |
| RefMvStack.SortRefMvStack | av1/common/mvref_common.c:1164-1196 | the nearest range and the remaining range are each sorted by non-increasing weight, and each is a permutation of its own original entries |
| RefMvStack.MergeLowered | av1/common/mvref_common.c:2060-2089 | the merge loop ends with the de-duplication invariant over the whole lowered list, and its entries are in the order of their keys' first occurrences |
| RefMvStack.AdjStepOrder | av1/common/mvref_common.c:2070-2089 | one merge step keeps the entries in first-occurrence order, whether it appends a new key or adds to an existing one |
| RefMvStack.AppendKeepsOrder | av1/common/mvref_common.c:2085-2086 | appending a key not seen before keeps first-occurrence order, since its first occurrence is the current position |
| RefMvStack.BumpKeepsOrder | av1/common/mvref_common.c:2087-2088 | adding a weight to an existing entry keeps first-occurrence order |
| RefMvStack.AdjStepKeepsInvariant | av1/common/mvref_common.c:2070-2089 | one merge step keeps the list duplicate-free, its candidates drawn from the lowered list, every key seen so far present, each weight the key's summed weight and the total weight equal, all modulo 65536 |
| RefMvStack.AdjInvariantComplete | av1/common/mvref_common.c:2051-2091 | the finished invariant gives every property of the de-duplicated list |
| RefMvStack.MvRefsAdj | av1/common/mvref_common.c:2051-2091 | the result is duplicate-free and no longer than the input; every entry comes from the lowered list; every lowered key is present; each weight is the 16-bit sum of the weights of its duplicates; the total weight is preserved modulo 65536; each entry's candidate is the first lowered candidate with its key, and the entries are in the order of those first occurrences |
| RefMvStack.RoundedMeanAsWrittenLeavesCluster | av1/common/mvref_common.c:803-806 | with truncating division, two members at -1 merge to 0, outside the cluster |
| RefMvStack.RoundedMeanWithinRange | av1/common/mvref_common.c:803-806 | the rounded mean, half rounded up with flooring division, of values in [lo, hi] lies in [lo, hi] |
| RefMvStack.MeanComponent | av1/common/mvref_common.c:757-806 | the corrected (flooring) rounded mean of one component lies between the members' minimum and maximum of that component |
| RefMvStack.RoundedMeanAsWrittenVersusCorrected | av1/common/mvref_common.c:803-806 | the truncating mean equals the flooring mean when the sum plus half the count is non-negative, and is otherwise at most one higher |
| RefMvStack.MeanComponentVersusSource | av1/common/mvref_common.c:757-806 | the modelled component equals the source's truncating mean of the same members when the sum plus half the count is non-negative, and is otherwise at most one lower |
| RefMvStack.Centroid | av1/common/mvref_common.c:757-806 | all four corrected centroid components lie within the members' range |
| RefMvStack.SaturationInactive | av1/common/mvref_common.c:814-823 | for int16 MVs the 65535 saturation never changes a centroid component |
| RefMvStack.MergedEntry | av1/common/mvref_common.c:757-823 | the merged entry's weight is the members' weight sum saturated at 65535, and its corrected centroid components lie within the members' range |
| RefMvStack.MergeMv | av1/common/mvref_common.c:743-830 | only the target slot changes; it gets the saturated weight sum and corrected centroid components within the cluster's range |
| WarpSamples.Threshold | av1/common/mvref_common.c:1607 | the threshold is the larger block side clamped to [16, 112] |
| WarpSamples.KeptPrefix | av1/common/mvref_common.c:1614-1622 | every kept sample passes the threshold test |
| WarpSamples.CountLiveBounds | av1/common/mvref_common.c:1614-1643 | the number of live samples is at most the total, and equals it exactly when none is marked -1 |
| WarpSamples.Marks | av1/common/mvref_common.c:1614-1622 | a sample is marked -1 exactly when it fails the threshold |
| WarpSamples.MarksMatchKept | av1/common/mvref_common.c:1614-1622 | the unmarked samples are, as a multiset and in number, the kept samples |
| WarpSamples.CompactDone | av1/common/mvref_common.c:1627-1643 | when the compaction loop stops, the first ret slots hold exactly the live samples |
| WarpSamples.Compact | av1/common/mvref_common.c:1627-1643 | compaction moves the live samples into the first ret slots as a permutation |
| WarpSamples.SelectSamples | av1/common/mvref_common.c:1603-1646 | with no sample kept it returns 1 and leaves the samples as they were; otherwise it returns the number kept, and the first ret slots are a permutation of the kept samples |
| FrameRefs.RelativeDist | av1/common/mvref_common.c:1805-1822 | the signed distance of two order hints lies in [-half, half) and differs from the plain difference by a multiple of the hint range |
| FrameRefs.RelativeDistIsSignExtension | av1/common/mvref_common.c:1805-1822 | the distance is the sign extension of the difference to the hint width |
| FrameRefs.RelativeDistUnique | av1/common/mvref_common.c:1805-1822 | only one value in [-half, half) is congruent to the difference |
| FrameRefs.RelativeDistAntisymmetric | av1/common/mvref_common.c:1805-1822 | swapping the hints negates the distance, except at -half |
| FrameRefs.SameSideDist | av1/common/mvref_common.c:1805-1822 | for two hints on the same side of a third, the distance between them is the difference of their distances to the third |
| FrameRefs.NearestForwardUnique | av1/common/mvref_common.c:1805-1813 | at most one index is the nearest forward reference with the earliest index on ties |
| FrameRefs.NearestBackwardUnique | av1/common/mvref_common.c:1814-1822 | at most one index is the nearest backward reference with the earliest index on ties |
| FrameRefs.ForwardPick | av1/common/mvref_common.c:1805-1813 | after each reference, the forward pick is the nearest forward reference seen so far, the earliest one on ties, or none when none was forward |
| FrameRefs.BackwardPick | av1/common/mvref_common.c:1814-1822 | after each reference, the backward pick is the nearest backward reference seen so far, the earliest one on ties, or none when none was backward |
| FrameRefs.NearestReferences | av1/common/mvref_common.c:1796-1824 | the forward index is invalid exactly when no forward reference exists, and otherwise names the nearest forward reference, the earliest on ties, with its hint; likewise for backward, with -1 and `INT_MAX` as the empty hints |
| FrameRefs.SecondForward | av1/common/mvref_common.c:1831-1850 | a second forward reference is found exactly when some reference is earlier than the first, and the one found is the nearest such, the earliest on ties |
| FrameRefs.SetupSkipModeAllowed | av1/common/mvref_common.c:1783-1857 | skip mode is off without order hints, for intra-only or single-reference frames, and without a forward reference; with forward and backward references it is on with the nearest forward and nearest backward indices, smaller first; with forward references only it is on exactly when a reference lies before the nearest forward one, and then the pair is the nearest forward and the nearest before it, smaller first |
| FrameRefs.CompareRefFrameInfo | av1/common/mvref_common.c:1867-1874 | entries compare by sort key, then by buffer index; equal only when identical |
| FrameRefs.CompareIsTotalOrder | av1/common/mvref_common.c:1867-1874 | the comparison is antisymmetric, transitive and total |
| FrameRefs.InsertInfo | av1/common/mvref_common.c:1934-1935 | inserting keeps the list sorted and adds exactly one element |
| FrameRefs.SortInfos | av1/common/mvref_common.c:1934-1935 | the result is sorted by the comparison and is a permutation of the input |
| FrameRefs.Infos | av1/common/mvref_common.c:1897-1920 | entry i records buffer i and its sort key |
| FrameRefs.BackwardBySortKey | av1/common/mvref_common.c:1897-1920 | a buffer is a valid backward reference exactly when its sort key is at least the current frame's |
| FrameRefs.SplitForward | av1/common/mvref_common.c:1940-1952 | the sorted table splits into invalid entries, forward entries, and entries at or past the current frame |
| FrameRefs.AssignLastGolden | av1/common/mvref_common.c:1984-2001 | LAST and GOLDEN get the given buffers and are marked assigned; nothing else changes |
| FrameRefs.AssignBackward | av1/common/mvref_common.c:1954-1980 | ALTREF takes the latest entry, BWDREF the first backward one, ALTREF2 the next, each only if that many backward entries exist |
| FrameRefs.FillRemaining | av1/common/mvref_common.c:2009-2042 | every still unassigned reference gets a valid buffer and assigned ones keep theirs |
| FrameRefs.LatestIsLast | av1/common/mvref_common.c:1957-1966 | if any backward buffer exists the last sorted entry is backward and no earlier than it |
| FrameRefs.EarliestBackward | av1/common/mvref_common.c:1967-1973 | with two backward buffers, the entry after the forward ones is no later than either |
| FrameRefs.AssignPhases | av1/common/mvref_common.c:1954-2042 | all seven references get valid buffers; LAST/GOLDEN are the given ones; ALTREF and BWDREF are the latest and earliest backward entries when they exist |
| FrameRefs.AssignRefs | av1/common/mvref_common.c:1897-2042 | as AssignPhases, stated over the order hints: ALTREF is the furthest backward frame and BWDREF the nearest |
| FrameRefs.SetFrameRefs | av1/common/mvref_common.c:1883-2047 | it fails exactly when LAST or GOLDEN is not a valid forward reference; otherwise all seven references name valid buffers, LAST and GOLDEN the given ones, ALTREF the furthest backward frame and BWDREF the nearest |
| LoopFilter.ModeLf | av1/common/av1_loopfilter.c:437-441 | intra modes, GLOBALMV and GLOBAL_GLOBALMV map to 0, all other modes to 1 |
| LoopFilter.InsideLimit | av1/common/av1_loopfilter.c:443-462 | the limit is at least 1 and at most max(1, lvl); with positive sharpness it is also at most max(1, 9 - sharpness) |
| LoopFilter.InsideLimitMonotoneInLevel | av1/common/av1_loopfilter.c:443-462 | a higher level never lowers the limit |
| LoopFilter.InsideLimitAntitoneInSharpness | av1/common/av1_loopfilter.c:443-462 | a higher sharpness never raises the limit |
| LoopFilter.LoopFilterInit | av1/common/av1_loopfilter.c:525-538 | for every level the limit is at least 1, the block limit is 2(lvl + 2) plus the limit, and the HEV threshold is lvl >> 4 |
| LoopFilter.SegLvlLf | av1/common/av1_loopfilter.c:25-29 | the segment feature for a plane and direction; U and V have one each |
| LoopFilter.DeltaLfId | av1/common/av1_loopfilter.c:32-34 | the delta-LF slot for a plane and direction lies in [0, 4) |
| LoopFilter.SegmentLevel | av1/common/av1_loopfilter.c:561-570 | without the segment feature the level is unchanged; with it, the level plus the feature value clamped to [0, 63] |
| LoopFilter.LevelIndexDecodes | av1/common/av1_loopfilter.c:586-601 | the flat table index decodes back to its segment, direction, reference and mode |
| LoopFilter.SegmentDirLevel | av1/common/av1_loopfilter.c:561-570 | the segment level for a direction lies in [0, 63] |
| LoopFilter.FrameInitEntry | av1/common/av1_loopfilter.c:540-617 | each table entry is the entry rule applied to its own segment, direction, reference and mode |
| LoopFilter.FrameInitInRange | av1/common/av1_loopfilter.c:586-616 | every written entry lies in [0, 63]; the one slot the deltas path skips (intra reference, mode 1) keeps its old value |
| LoopFilter.TableEntryWithoutDeltas | av1/common/av1_loopfilter.c:578-582 | with deltas off, or zero deltas, an entry is the segment level |
| LoopFilter.FrameInitWithoutDeltas | av1/common/av1_loopfilter.c:578-582 | with deltas disabled, every entry of a segment and direction equals the segment level |
| LoopFilter.GetFilterLevel | av1/common/av1_loopfilter.c:464-516 | on the delta-LF path the level lies in [0, 63] and, with no segment feature or deltas, is the clamped delta plus the frame level; otherwise it is the table entry |
| LoopFilter.IntraLevelIgnoresModeDeltas | av1/common/av1_loopfilter.c:500-506 | for an intra block the mode deltas do not affect the delta-LF level |
| LoopFilter.DeltaPathMatchesTable | av1/common/av1_loopfilter.c:471-511 | with a zero delta, the delta-LF path gives the same level as the precomputed table |
| LoopFilter.DeltaLevelIsTableEntry | av1/common/av1_loopfilter.c:471-511 | with a zero delta, the delta-LF level is the table entry rule for the block |
| LoopFilter.YIndexShift | av1/common/av1_loopfilter.c:1130-1134 | the word index is idy >> 4 and the bit lies in [0, 64) |
| LoopFilter.YIndexShiftIsRaster | av1/common/av1_loopfilter.c:1130-1134 | word and bit together are the raster position of the 4x4 unit in a 16-wide grid |
| LoopFilter.YIndexShiftInjective | av1/common/av1_loopfilter.c:1130-1134 | two positions share word and bit exactly when they lie in the same 4x4 unit |
| LoopFilter.UvIndexShift | av1/common/av1_loopfilter.c:1142-1144 | the UV bit is the raster position of the 8x8 unit and lies in [0, 64) |
| LoopFilter.UvIndexShiftInjective | av1/common/av1_loopfilter.c:1142-1144 | two positions share a UV bit exactly when they lie in the same 8x8 unit |
| LoopFilter.ShiftLeft | av1/common/av1_loopfilter.c:1358-1362 | shifting a mask left moves every bit up by k and drops bits that pass 63 |
| LoopFilter.Rect | av1/common/av1_loopfilter.c:1358-1362 | the mask of a rows-by-cols rectangle at the origin of an 8-wide grid |
| LoopFilter.FoldWord | av1/common/av1_loopfilter.c:1619-1654 | after folding, the 4x4 mask has no border bits, the union of the 4x4, 8x8 and 16x16 masks is the union of all five, and 32x32/64x64 are kept |
| LoopFilter.FoldWordMovesEdges | av1/common/av1_loopfilter.c:1619-1654 | exactly the border bits leave the 4x4 mask and arrive in the 8x8 mask, and exactly the 32x32/64x64 bits arrive in the 16x16 mask |
| LoopFilter.FoldWordDisjoint | av1/common/av1_loopfilter.c:1619-1654 | pairwise disjoint masks stay pairwise disjoint in 4x4, 8x8 and 16x16 |
| LoopFilter.FoldWordIdempotent | av1/common/av1_loopfilter.c:1619-1654 | folding twice leaves the 4x4, 8x8 and 16x16 masks as folding once |
| LoopFilter.LeftBorderYWord | av1/common/av1_loopfilter.c:275-283 | the Y left-border mask is column 0 of each row |
| LoopFilter.FirstRowY | av1/common/av1_loopfilter.c:275-283 | the Y above-border mask is the first 16 bits |
| LoopFilter.LeftBorderUv | av1/common/av1_loopfilter.c:434-435 | the UV left-border mask is every fourth bit |
| LoopFilter.AboveBorderUv | av1/common/av1_loopfilter.c:434-435 | the UV above-border mask is bits 0-7 and 32-39 |
| LoopFilter.FoldMask | av1/common/av1_loopfilter.c:1604-1657 | every Y and UV word of a filter mask is folded with its own border |
| LoopFilter.FoldMaskDisjoint | av1/common/av1_loopfilter.c:1758-1765 | after folding, the 4x4, 8x8 and 16x16 masks of every Y and UV word are pairwise disjoint when all five were |
| LoopFilter.SetupMaskFold | av1/common/av1_loopfilter.c:1604-1657 | all four filter masks are folded, each stays well formed, and each keeps pairwise disjointness |
| LoopFilter.CheckedMaskIsPastTheEnd | av1/common/av1_loopfilter.c:1656-1765 | after the fold loop the mask pointer sits one past the last mask, so the check examines none of them |
| LoopFilter.AddUvEdge | av1/common/av1_loopfilter.c:1347-1392 | an edge bit already in the 4x4 (resp. 8x8) mask blocks adding to 8x8 (resp. 4x4); otherwise only the transform's mask gains the shifted pattern |
| LoopFilter.AddUvEdgeDisjoint | av1/common/av1_loopfilter.c:1364-1366 | adding a UV edge keeps the 4x4 and 8x8 masks disjoint |
| LoopFilter.BuildUvMasks | av1/common/av1_loopfilter.c:1326-1393 | building grows only the mask of the block's transform size, left and above independently |
| LoopFilter.BuildUvMasksKeepsSmallDisjoint | av1/common/av1_loopfilter.c:1364-1366 | building UV masks keeps the 4x4 and 8x8 masks disjoint |
| LoopFilter.AddUvEdgeIdempotent | av1/common/av1_loopfilter.c:1347-1392 | adding the same edge twice is the same as adding it once |
| LoopFilter.BuildUvMasksIdempotent | av1/common/av1_loopfilter.c:1326-1393 | building the same block's masks twice is the same as once |
| LoopFilter.LoopFilterFrame | av1/common/av1_loopfilter.c:3252-3308 | nothing is filtered exactly when both luma levels are 0; otherwise the levels are restored afterwards; a partial frame of more than 8 rows starts at an 8-aligned row around the middle and covers max(rows/8, 8) rows, or else the whole frame |
| ReconInter.Reverse | av1/common/reconinter.c:226-236 | element k of the result is element n-1-k of the input |
| ReconInter.ShiftCopy | av1/common/reconinter.c:226-236 | a non-negative shift fills the first slots with the first sample and copies the rest shifted; a negative shift does the mirror image with the last sample |
| ReconInter.ShiftCopyMirror | av1/common/reconinter.c:226-236 | a negative shift is the reversal of the positive shift of the reversed row |
| ReconInter.ShiftCopyBounds | av1/common/reconinter.c:226-236 | shifting keeps every value within the input's bounds |
| ReconInter.DiffWeight | av1/common/reconinter.c:425-426 | a mask value lies in [0, 64] |
| ReconInter.DiffWeightMonotone | av1/common/reconinter.c:425-426 | a larger difference never lowers the mask, and never raises the inverse mask |
| ReconInter.DiffwtdMask | av1/common/reconinter.c:416-429 | the mask has the block's shape with every value in [0, 64] |
| ReconInter.BuildCompoundDiffwtdMask | av1/common/reconinter.c:431-445 | both mask types give a block-shaped mask in [0, 64] |
| ReconInter.CompoundDiffwtdMasksComplement | av1/common/reconinter.c:431-445 | the inverse mask is exactly 64 minus the mask |
| ReconInter.DiffwtdMaskSymmetric | av1/common/reconinter.c:416-429 | swapping the two predictions gives the same mask |
| ReconInter.ScaledDiff | av1/common/reconinter.c:447-508 | the high-bitdepth difference is the absolute difference shifted right by bd-8, never larger |
| ReconInter.DiffWeightHighbdScales | av1/common/reconinter.c:447-508 | the high-bitdepth weight is the 8-bit weight of the scaled difference, and of the plain difference at bd 8 |
| ReconInter.FloorThenCapIsClamp | av1/common/reconinter.c:456-459 | zero-flooring then capping at 64 is the clamp to [0, 64] |
| ReconInter.DiffwtdMaskHighbd | av1/common/reconinter.c:447-508 | the high-bitdepth mask has the block's shape |
| ReconInter.DiffwtdMaskHighbdAtDepth8 | av1/common/reconinter.c:447-508 | the high-bitdepth mask lies in [0, 64] and at bd 8 equals the 8-bit mask |
| ReconInter.SizeScaleCoversBlock | av1/common/reconinter.c:611-615 | the block's longer side times its scale is the superblock size |
| ReconInter.WeightsStepDown | av1/common/reconinter.c:602-610 | the 1-D inter-intra weight table has 128 entries, is non-increasing and lies in [1, 60] |
| ReconInter.WeightsNonIncreasing | av1/common/reconinter.c:602-610 | a later weight is never larger than an earlier one |
| ReconInter.IiWeight | av1/common/reconinter.c:602-610 | every scaled weight lies in [1, 60] |
| ReconInter.IiMaskCell | av1/common/reconinter.c:618-657 | every inter-intra mask value lies in [0, 64] |
| ReconInter.SmoothInterIntraMask | av1/common/reconinter.c:618-657 | the mask has the block's shape, values in [0, 64], each cell given by its mode's rule |
| ReconInter.DcMaskIsFlat | av1/common/reconinter.c:649-655 | the DC mask is 32 everywhere |
| ReconInter.VMaskRowsConstant | av1/common/reconinter.c:627-632 | each row of the V mask is constant |
| ReconInter.VMaskFallsDownward | av1/common/reconinter.c:627-632 | the V mask never rises from one row to a later one |
| ReconInter.SmoothIsMaxOfVAndH | av1/common/reconinter.c:627-647 | the smooth mask is the larger of the V and H masks, i.e. uses min(i, j) |
| ReconInter.SquareMasksTranspose | av1/common/reconinter.c:618-657 | on square blocks H is the transpose of V and smooth is symmetric |
| ReconInter.MastersInRange | av1/common/reconinter.c:207-224 | the three wedge master rows are 64 long with values in [0, 64] |
| ReconInter.VerticalMasterMirrorIsComplement | av1/common/reconinter.c:207-224 | the vertical master row mirrored is its 64-complement |
| ReconInter.ShiftedMaster | av1/common/reconinter.c:534-549 | the master is built row by row, each row the master row shifted by its row's offset |
| ReconInter.ObliqueMaster | av1/common/reconinter.c:534-549 | the oblique master has 64 rows, each in [0, 64] |
| ReconInter.WedgeMasterCell | av1/common/reconinter.c:551-569 | every cell of every wedge master lies in [0, 64] |
| ReconInter.WedgeFlipIsComplement | av1/common/reconinter.c:551-569 | every flipped wedge master is the 64-complement of the unflipped one |
| ReconInter.WedgeTransposes | av1/common/reconinter.c:551-569 | OBLIQUE27, OBLIQUE153 and HORIZONTAL are the transposes of OBLIQUE63, OBLIQUE117 and VERTICAL |
| ReconInter.Oblique117IsMirroredComplement | av1/common/reconinter.c:551-569 | OBLIQUE117 is OBLIQUE63 mirrored horizontally and complemented |
| ReconInter.ObmcTablesAreRamps | av1/common/reconinter.c:1903-1923 | each OBMC table has its length, is non-decreasing, and ends in 64 |
| ReconInter.ObmcMask | av1/common/reconinter.c:1925-1936 | a mask exists exactly for lengths 1, 2, 4, 8, 16, 32 and 64, and it is a ramp of that length |
| ReconInter.SkipU4x4PredInObmc | av1/common/reconinter.c:1972-1988 | prediction is skipped exactly in the first direction for blocks of fewer than 64 pixels |
| ReconInter.AccumulateMoments | av1/common/reconinter.c:1126-1145 | the loop accumulates the gradient moments of every pixel of the block |
| ReconInter.DeterminantNonNegative | av1/common/reconinter.c:1126-1147 | the accumulated squared sums and the determinant are never negative |
| ReconInter.OpflSolve | av1/common/reconinter.c:1146-1157 | with a zero determinant the previous offsets are kept |
| ReconInter.CramerSolvesNormalEquations | av1/common/reconinter.c:1146-1157 | the two numerators solve the normal equations scaled by the determinant |
| ReconInter.OpflSolveRounds | av1/common/reconinter.c:1146-1157 | each first offset is the numerator over the determinant rounded to nearest, and each second offset is the first scaled by d1/d0 rounded to nearest |
| ReconInter.OpflEqualDistances | av1/common/reconinter.c:1146-1157 | with equal distances both offsets agree |
| ReconInter.DivRoundSignedExact | av1/common/reconinter.c:1151-1156 | rounding an exact quotient returns it |
| ReconInter.OpflMvRefinement | av1/common/reconinter.c:1119-1158 | a singular system leaves the offsets untouched, otherwise they are the rounded solution of the accumulated system |
| ReconInter.AllowWarp | av1/common/reconinter.c:43-64 | warp is allowed exactly when not scaled, not for OBMC, and a valid local or global model is enabled; the chosen parameters are valid; scaled gives none and otherwise defaults are returned |
| ReconInter.LocalWarpTakesPriority | av1/common/reconinter.c:43-64 | a usable local model is chosen over a global one; the global one is chosen only without it |
| TemporalFilter.SquaredDiff | av1/encoder/temporal_filter.c:359-361 | the squared difference is non-negative and 0 exactly for equal samples |
| TemporalFilter.SquaredDiffSymmetric | av1/encoder/temporal_filter.c:359-361 | the squared difference does not depend on the order of its arguments |
| TemporalFilter.SquareDiffRowsAt | av1/encoder/temporal_filter.c:340-370 | cell (r, c) of the dense buffer is the squared difference of the two sources at (r, c), each read with its own stride |
| TemporalFilter.ComputeSquareDiff | av1/encoder/temporal_filter.c:340-370 | the output is a dense height by width buffer whose cell (i, j) is the squared difference of the sources at (i, j) |
| TemporalFilter.Span | av1/encoder/temporal_filter.c:672-681 | the window's extent along one axis is 1 to 3, and 3 exactly off the borders |
| TemporalFilter.WindowCountIsSpanProduct | av1/encoder/temporal_filter.c:672-681 | the in-plane cells of the 3x3 window number the product of the two spans |
| TemporalFilter.WindowStats | av1/encoder/temporal_filter.c:672-681 | the loop sums the in-plane squared differences of the 3x3 window and counts its cells |
| TemporalFilter.WindowSizes | av1/encoder/temporal_filter.c:372-383 | the window has 9 cells inside, 6 on an edge and 4 in a corner |
| TemporalFilter.WindowSumNonNegative | av1/encoder/temporal_filter.c:672-681 | a window sum of squared differences is never negative |
| TemporalFilter.WeightFromModifier | av1/encoder/temporal_filter.c:598-600 | the adjusted weight lies in [0, 16 times the filter weight] |
| TemporalFilter.WeightFromModifierMonotone | av1/encoder/temporal_filter.c:598-600 | a larger modifier never gives a larger weight |
| TemporalFilter.AdjustFilterWeightYOnly | av1/encoder/temporal_filter.c:589-601 | the Y-only weight lies in [0, 16 times the filter weight] |
| TemporalFilter.YOnlyPerfectMatch | av1/encoder/temporal_filter.c:589-601 | a zero difference gives the full 16 times the filter weight |
| TemporalFilter.YOnlyMonotone | av1/encoder/temporal_filter.c:589-601 | more difference or fewer window cells never give a larger weight |
| TemporalFilter.YuvMultiplierIsReciprocal | av1/encoder/temporal_filter.c:396-404 | each non-zero multiplier is ceil(3 * 2^16 / n) (2^32 for high bitdepth), and the zero entries are exactly the unusable counts |
| TemporalFilter.AdjustFilterWeightYuv | av1/encoder/temporal_filter.c:420-442 | the YUV weight lies in [0, 16 times the filter weight] |
| TemporalFilter.YuvModifierMonotone | av1/encoder/temporal_filter.c:420-442 | the YUV modifier grows with the difference and is 0 for no difference |
| TemporalFilter.YuvMonotone | av1/encoder/temporal_filter.c:420-442 | the YUV weight falls as the difference grows and is the full weight at zero difference |
| TemporalFilter.PlaneExtents | av1/encoder/temporal_filter.c:305-309 | each plane's extent is its subsampled block size |
| TemporalFilter.AddPlane | av1/encoder/temporal_filter.c:311-320 | in the plane's range, accum gains weight times pred and count gains weight; outside, nothing changes |
| TemporalFilter.ApplyTemporalFilterSelf | av1/encoder/temporal_filter.c:291-323 | every pixel of each subsampled plane gets accum += w * pred and count += w, and every other slot is unchanged |
| TemporalFilter.SubblockIndex | av1/encoder/temporal_filter.c:664-666 | the sub-block index picks the quadrant of the pixel, or 0 without sub-blocks |
| TemporalFilter.YOnlyFilterLoop | av1/encoder/temporal_filter.c:661-691 | each pixel's accum and count gain its adjusted weight times pred and its adjusted weight; the rest is unchanged |
| TemporalFilter.SquareDiffBuffer | av1/encoder/temporal_filter.c:647-654 | the squared-difference buffer is dense and non-negative |
| TemporalFilter.ApplyTemporalFilterYOnly | av1/encoder/temporal_filter.c:626-694 | each pixel of the subsampled block gets its weight from the window of the squared-difference buffer of frame and prediction |
| TemporalFilter.NormaliseIsNearest | av1/encoder/temporal_filter.c:1063-1064 | the output pixel is accum / count rounded to the nearest integer, halves up |
| TemporalFilter.NormaliseBounded | av1/encoder/temporal_filter.c:1100-1101 | averaging values up to a maximum never exceeds it |
| TemporalFilter.NormaliseSelf | av1/encoder/temporal_filter.c:1100-1101 | one value with its weight normalises to itself |
| TemporalFilter.CeilBlocks | av1/encoder/temporal_filter.c:868-869 | the block count is the ceiling of the size over the block side |
| TemporalFilter.GetRows | av1/encoder/temporal_filter.c:868 | the row count is the ceiling of the height over 32 |
| TemporalFilter.GetCols | av1/encoder/temporal_filter.c:869 | the column count is the ceiling of the width over 32 |
| TemporalFilter.ArnrCount | av1/encoder/temporal_filter.c:1301-1310 | the frame count is at most the maximum, and at most 3 for a second alt-ref |
| TemporalFilter.AdjustArnrFilter | av1/encoder/temporal_filter.c:1297-1328 | the frames are backward frames plus one plus forward frames; backward frames stay within the distance and forward frames within the lookahead |
| TemporalFilter.BoostCapIsOdd | av1/encoder/temporal_filter.c:1307-1310 | when the boost cap applies, the frame count is odd and positive |
| TemporalFilter.ArnrSplitUnclipped | av1/encoder/temporal_filter.c:1312-1322 | when neither side clips, all frames are used, split evenly with any extra frame backward |
| EncodeFrame.DisabledBy | av1/encoder/encodeframe.c:5188-5204 | after n steps exactly the first n of LAST3, LAST2, ALTREF2, GOLDEN are disabled |
| EncodeFrame.DisableNext | av1/encoder/encodeframe.c:5188-5204 | one step removes the next reference in the order, lowering the count by one if it was on |
| EncodeFrame.MaxAllowedRefFrames | av1/encoder/encodeframe.c:5158-5164 | the limit is the selective-ref cap or the configured maximum, whichever is lower; a negative maximum is no limit since the comparison is unsigned |
| EncodeFrame.DisableInOrder | av1/encoder/encodeframe.c:5188-5204 | the loop disables a prefix of the order, stopping once the count is within the limit and never going below it |
| EncodeFrame.DisableOutcome | av1/encoder/encodeframe.c:5188-5206 | stopping there leaves max(limit, never-disabled count) references, at most the limit when it is at least 3, and disables only in order |
| EncodeFrame.AlwaysKeptAtMostThree | av1/encoder/encodeframe.c:5188-5206 | the references never disabled are at most three, which is what the final assertion relies on |
| EncodeFrame.EnforceMaxRefFrames | av1/encoder/encodeframe.c:5168-5206 | only LAST3, LAST2, ALTREF2 and GOLDEN are cleared, in that order, and only while over the limit; the count ends at the limit or the never-disabled count |
| EncodeFrame.DoGmSearchLogic | av1/encoder/encodeframe.c:5141-5156 | the search runs exactly for frames outside the type's skipped set |
| EncodeFrame.GmSearchNested | av1/encoder/encodeframe.c:5141-5156 | a more restrictive search type searches a subset of the frames |
| EncodeFrame.AvgCdfEntry | av1/encoder/encodeframe.c:4489-4491 | the weighted average lies between the two inputs |
| EncodeFrame.AvgCdfEntryMonotone | av1/encoder/encodeframe.c:4489-4491 | larger inputs never give a smaller average |
| EncodeFrame.AvgCdfSymbol | av1/encoder/encodeframe.c:4482-4496 | the first nsymbs+1 entries of each CDF become the weighted averages and the rest stay; averaged probabilities stay below CDF_PROB_TOP |
| EncodeFrame.AvgCdfKeepsOrder | av1/encoder/encodeframe.c:4482-4496 | averaging keeps a CDF's order |
| EncodeFrame.FrameEdges | av1/encoder/encodeframe.c:2124-2138 | in one pass the edges are the frame bounds; in two passes they move in by twice the inactive zone, with bottom never above top |
| EncodeFrame.InBlock | av1/encoder/encodeframe.c:2140-2144 | a row lies in [k·step, (k+1)·step) exactly when k is row / step |
| EncodeFrame.ActiveEdgeIsEdgeBlock | av1/encoder/encodeframe.c:2140-2144 | a block is on an active edge exactly when it contains the top or bottom edge |
| EncodeFrame.UpdatePickedRefFramesMask | av1/encoder/encodeframe.c:3088-3101 | exactly the cells of the block's square in the superblock gain the reference; all other cells are unchanged; the result is marking that square, so repeating the update changes nothing (`MarkSquareIdempotent`) |
| EncodeFrame.MarkSquareIdempotent | av1/encoder/encodeframe.c:3088-3101 | marking the same square twice is the same as once |
| EncodeFrame.RdVarBasedFixedPartition | av1/encoder/encodeframe.c:199-206 | the block is 64x64 exactly below 8, 32x32 exactly from 8 below 128, 16x16 exactly from 128 below 2048, and 8x8 exactly from 2048 on |
| EncodeFrame.VarPartitionMonotone | av1/encoder/encodeframe.c:199-206 | the blocks are square and a smaller variance never gives a smaller block |
| EncodeFrame.MaxScore | av1/encoder/encodeframe.c:2830-2834 | the maximum score is at least -1000, bounds every score, and is -1000 or one of them |
| EncodeFrame.AllowedUpTo | av1/encoder/encodeframe.c:2843-2854 | a partition flag is set exactly when a label with that bit scores at least the threshold |
| EncodeFrame.MlPruneAbPartition | av1/encoder/encodeframe.c:2772-2855 | outside the model's block sizes or RD range the flags are untouched; otherwise a flag is set exactly when a label with that bit reaches the max-score-based threshold |
| EncodeFrame.TopLabelAllowed | av1/encoder/encodeframe.c:2837-2854 | the flags of the best-scoring label are always set |
| EncodeFrame.AllowedAntitone | av1/encoder/encodeframe.c:2843-2854 | a lower threshold never clears a flag |
| EncodeFrame.RoundDownToMultiple | av1/encoder/encodeframe.c:4367 | masking with ~(res - 1) rounds down to a multiple of res |
| EncodeFrame.DeltaQindex | av1/encoder/encodeframe.c:4367-4375 | the offset from the base is a multiple of res, nearest to the clamped offset (halves up), and the qindex is positive as the code asserts |
| EncodeFrame.DeltaQindexBelowClampRange | av1/encoder/encodeframe.c:4368-4374 | the rounded qindex is not re-clamped and can fall below the clamp range |
| EncodeFrame.DeltaLfFromBase | av1/encoder/encodeframe.c:4382-4391 | the delta-LF lies in ±MAX_LOOP_FILTER and, when the clamp is inactive, is half the offset rounded to a multiple of the resolution |
| EncodeFrame.DeltaLfClampBreaksMultiple | av1/encoder/encodeframe.c:4382-4391 | the clamp can store a value that is not a multiple of the resolution |

## Left out

- The floating-point parts are left out. This covers:
  - the neural-network forward pass and softmax in `entropymode.c`;
  - the ML features and scores in `encodeframe.c`, whose integer scores are inputs of `MlPruneAbPartition`;
  - `scale_mv`, `calc_cosine_dist` and the DBSCAN clustering in `mvref_common.c`, whose cluster labels are inputs of `MergeMv`;
  - the planewise temporal filter;
  - `estimate_noise`;
  - the noise level in `estimate_strength`.
- SIMD and NEON kernels are left out. Their point is vectorisation, not logic.
- Calls into DSP and search code are left out. Loop-filter kernels, warp and inter predictors, motion search and variance functions produce values that the model takes as inputs.
- The RD partition search, row multithreading and memory allocation are left out. They are shared mutable encoder state around the helpers.
- The large CDF and NN weight tables are not modelled.
- Only the weight adjustment of `av1_apply_temporal_filter_yuv_c` is modelled, not its per-pixel loop. The Y-only loop is the one modelled.
- The loop filter's `setup_block_size` and `av1_setup_mask` walk the block tree to fill masks. Here the masks are inputs, and only their folding and the UV edge update are modelled.
- The code inside `#if 0` in `av1_setup_mask` is not modelled. This includes its tile-border handling.
- Masks are sets of bit positions, not 64-bit words. `x & ~(res - 1)` is written as rounding down to a multiple.
- `inactive_zone` is an input, and the superblock sizes of `update_picked_ref_frames_mask` are inputs.
- `RefMvStack.AddRefMvCandidate`: `is_global_mv_block` and `get_sub_block_mv` are not modelled. Each neighbour instead carries a per-slot flag that marks a global-motion block, and the slot's MV for the column being scanned. The global MV candidates are inputs.
- `ReconInter.AllowWarp` models the build without `CONFIG_EXT_ROTATION`. The `xd` parameter and the rotation branches (`av1/common/reconinter.c:33-35`, `55-60` and `65-72`) are not modelled.
- `RefMvStack.MeanComponent` computes the corrected rounded mean from the first Findings row, which floors, and not the truncating `/` of `av1/common/mvref_common.c:803-806`. The two agree when the component sum plus half the member count is non-negative. Otherwise the corrected value is at most one lower (`RefMvStack.MeanComponentVersusSource`).
- `RefMvStack.Centroid` uses the corrected mean of `MeanComponent` for all four components, so it can be one lower than the source's centroid for negative sums.
- `RefMvStack.MergedEntry` takes its components from `Centroid`, so it has the same difference from the source for negative sums.
- `RefMvStack.MergeMv` writes the `MergedEntry` centroid, so it has the same difference from the source for negative sums.
- `TemporalFilter.AddPlane`: the `uint32_t` accumulator and `uint16_t` count (`av1/encoder/temporal_filter.c:295-296` and `316-317`) are unbounded integers. The model assumes the sums do not wrap.
- `TemporalFilter.ApplyTemporalFilterSelf` has the same unbounded accumulator and count as `AddPlane`.
- `TemporalFilter.YOnlyFilterLoop`: the accumulator and count updates at `av1/encoder/temporal_filter.c:686-687` are unbounded. The model assumes they do not wrap.
- `TemporalFilter.ApplyTemporalFilterYOnly` has the same unbounded accumulator and count as `YOnlyFilterLoop`.
- `TemporalFilter.AdjustFilterWeightYuv` does not model the `(int)` cast of the shifted product at `av1/encoder/temporal_filter.c:436-437`. The product is taken as an unbounded non-negative integer.
- `ReconInter.AccumulateMoments` computes the `int` pixel terms and the `int64_t` moment sums of `av1/common/reconinter.c:1132-1142` as unbounded integers. The model assumes no overflow.
- `ReconInter.OpflSolve` computes the `int64_t` determinant and numerators and the `(int)` casts of `DIVIDE_AND_ROUND_SIGNED` (`av1/common/reconinter.c:1146-1157`) as unbounded integers. The model assumes no overflow.
- `ReconInter.OpflMvRefinement` combines `AccumulateMoments` and `OpflSolve`, so it makes the same no-overflow assumption.
- `ReconInter.ObliqueMaster` states the shape and value range of the oblique master, not its cell-by-cell values. The cell values are stated by `ShiftedMaster`.

## Findings

| source | as written | input that shows it | evidently intended | confidence | as-written member | corrected member |
|---|---|---|---|---|---|---|
| av1/common/mvref_common.c:803-806 | the centroid adds half the member count and divides with C's truncating `/`, which rounds negative sums toward zero | two cluster members whose component is -1: the sum is -2, and (-2 + 1) / 2 is 0, outside the cluster | the rounded mean of the members, which lies between their smallest and largest value | not executed | RefMvStack.RoundedMeanAsWrittenLeavesCluster | RefMvStack.RoundedMeanWithinRange |
| av1/common/av1_loopfilter.c:1656 | the fold loop advances `lfm` once per mask, and the disjointness assertions after it read `lfm` without resetting it (the reset is inside `#if 0`) | any frame: after LOOP_FILTER_MASK_NUM = 4 increments the assertions look one past the last mask | the assertions check every folded mask | not executed | LoopFilter.CheckedMaskIsPastTheEnd | LoopFilter.FoldMaskDisjoint |
