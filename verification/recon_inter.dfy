/** The mask builders of inter prediction: wedge and smooth inter-intra
    masks, difference-weighted compound masks, the OBMC blending ramps, the
    optical-flow MV refinement solve, and the warp and OBMC decisions. */
module ReconInter {
  import opened IntMath
  import opened Wrappers

  /** `AOM_BLEND_A64_MAX_ALPHA`: the weight of a full blend. */
  const MaxAlpha := 64
  const DiffFactor := 16
  const MaskMasterSize := 64
  const WedgeWeightBits := 6
  const MaxSbSize := 128
  const BlockSizesAll := 22

  /** `block_size_wide` and `block_size_high` in pixels, BLOCK_4X4 ..
      BLOCK_64X16. */
  const BlockWide: seq<nat> := [4, 4, 8, 8, 8, 16, 16, 16, 32, 32, 32, 64, 64, 64, 128, 128, 4, 16, 8, 32, 16, 64]
  const BlockHigh: seq<nat> := [4, 8, 4, 8, 16, 8, 16, 32, 16, 32, 64, 32, 64, 128, 64, 128, 16, 4, 32, 8, 64, 16]

  /** A rectangular mask, row by row. */
  predicate IsMask(m: seq<seq<int>>, h: nat, w: nat)
  {
    |m| == h && forall i :: 0 <= i < h ==> |m[i]| == w
  }

  /** Every weight of the mask lies in [0, 64]. */
  predicate InAlphaRange(m: seq<seq<int>>)
  {
    forall i, j :: 0 <= i < |m| && 0 <= j < |m[i]| ==> 0 <= m[i][j] <= MaxAlpha
  }

  // ---------------------------------------------------------------------
  // shift_copy
  // ---------------------------------------------------------------------

  function Reverse(s: seq<int>): (r: seq<int>)
    ensures |r| == |s| && forall k :: 0 <= k < |s| ==> r[k] == s[|s| - 1 - k]
  {
    seq(|s|, k requires 0 <= k < |s| => s[|s| - 1 - k])
  }

  /** `shift_copy`: the row moved right by `shift` (left for a negative
      shift), the vacated places filled with the edge sample. */
  function ShiftCopy(src: seq<int>, shift: int, width: int): (dst: seq<int>)
    requires |src| == width > 0 && -width <= shift <= width
    ensures |dst| == width
    ensures shift >= 0 ==> (forall k :: 0 <= k < shift ==> dst[k] == src[0])
                           && forall k :: 0 <= k < width - shift ==> dst[shift + k] == src[k]
    ensures shift < 0 ==> (forall k :: 0 <= k < width + shift ==> dst[k] == src[k - shift])
                          && forall k :: width + shift <= k < width ==> dst[k] == src[width - 1]
  {
    if shift >= 0 then seq(shift, _ => src[0]) + src[..width - shift]
    else src[-shift..] + seq(-shift, _ => src[width - 1])
  }

  /** A left shift is the mirror image of the right shift of the mirrored
      row. */
  lemma ShiftCopyMirror(src: seq<int>, shift: int, width: int)
    requires |src| == width > 0 && 0 <= shift <= width
    ensures ShiftCopy(src, -shift, width) == Reverse(ShiftCopy(Reverse(src), shift, width))
  {
    var left := ShiftCopy(src, -shift, width);
    var rev := Reverse(src);
    var right := ShiftCopy(rev, shift, width);
    var mirrored := Reverse(right);
    forall k | 0 <= k < width
      ensures left[k] == mirrored[k]
    {
      var j := width - 1 - k;
      assert mirrored[k] == right[j];
      if k < width - shift {
        assert right[shift + (j - shift)] == rev[j - shift];
        assert left[k] == src[k + shift];
      } else {
        assert right[j] == rev[0];
        assert left[k] == src[width - 1];
      }
    }
    assert left == mirrored;
  }

  /** Shifting keeps every sample within the bounds of the source row. */
  lemma ShiftCopyBounds(src: seq<int>, shift: int, width: int, lo: int, hi: int)
    requires |src| == width > 0 && -width <= shift <= width
    requires forall k :: 0 <= k < width ==> lo <= src[k] <= hi
    ensures forall k :: 0 <= k < width ==> lo <= ShiftCopy(src, shift, width)[k] <= hi
  {
    var dst := ShiftCopy(src, shift, width);
    forall k | 0 <= k < width ensures lo <= dst[k] <= hi {
      if shift >= 0 && k >= shift {
        assert dst[shift + (k - shift)] == src[k - shift];
      }
    }
  }

  // ---------------------------------------------------------------------
  // Difference-weighted compound masks
  // ---------------------------------------------------------------------

  /** `DIFFWTD_38` and `DIFFWTD_38_INV`. */
  datatype DiffwtdMaskType = Diffwtd38 | Diffwtd38Inv

  /** The weight of one pixel of `diffwtd_mask` for an absolute difference:
      the base plus the difference over `DIFF_FACTOR`, clamped to [0, 64],
      and complemented for the inverse mask. */
  function DiffWeight(diff: nat, inverse: bool, base: int): (m: int)
    ensures 0 <= m <= MaxAlpha
  {
    var m := Clamp(base + diff / DiffFactor, 0, MaxAlpha);
    if inverse then MaxAlpha - m else m
  }

  /** A larger difference never gives the first prediction less weight, and
      never gives the inverse mask more. */
  lemma DiffWeightMonotone(d1: nat, d2: nat, base: int)
    requires d1 <= d2
    ensures DiffWeight(d1, false, base) <= DiffWeight(d2, false, base)
    ensures DiffWeight(d1, true, base) >= DiffWeight(d2, true, base)
  {
    assert d1 / DiffFactor <= d2 / DiffFactor;
  }

  /** `diffwtd_mask`: the dense h x w mask from two 8-bit predictions, each
      walked with its own stride. */
  function DiffwtdMask(inverse: bool, base: int, src0: seq<int>, stride0: nat, src1: seq<int>, stride1: nat,
                       h: nat, w: nat): (mask: seq<seq<int>>)
    requires PlaneFits(|src0|, h, w, stride0) && PlaneFits(|src1|, h, w, stride1)
    ensures IsMask(mask, h, w) && InAlphaRange(mask)
  {
    seq(h, i requires 0 <= i < h =>
      seq(w, j requires 0 <= j < w =>
        DiffWeight(Abs(At(src0, h, w, stride0, i, j) - At(src1, h, w, stride1, i, j)), inverse, base)))
  }

  /** `av1_build_compound_diffwtd_mask_c`: both mask types use base 38, the
      inverse type complemented. */
  function BuildCompoundDiffwtdMask(maskType: DiffwtdMaskType, src0: seq<int>, stride0: nat, src1: seq<int>,
                                    stride1: nat, h: nat, w: nat): (mask: seq<seq<int>>)
    requires PlaneFits(|src0|, h, w, stride0) && PlaneFits(|src1|, h, w, stride1)
    ensures IsMask(mask, h, w) && InAlphaRange(mask)
  {
    DiffwtdMask(maskType == Diffwtd38Inv, 38, src0, stride0, src1, stride1, h, w)
  }

  /** The two mask types are 64-complements of each other at every pixel. */
  lemma CompoundDiffwtdMasksComplement(src0: seq<int>, stride0: nat, src1: seq<int>, stride1: nat, h: nat, w: nat)
    requires PlaneFits(|src0|, h, w, stride0) && PlaneFits(|src1|, h, w, stride1)
    ensures var m := BuildCompoundDiffwtdMask(Diffwtd38, src0, stride0, src1, stride1, h, w);
            var n := BuildCompoundDiffwtdMask(Diffwtd38Inv, src0, stride0, src1, stride1, h, w);
            forall i, j :: 0 <= i < h && 0 <= j < w ==> n[i][j] == MaxAlpha - m[i][j]
  {
  }

  /** Swapping the two predictions does not change the mask. */
  lemma DiffwtdMaskSymmetric(inverse: bool, base: int, src0: seq<int>, stride0: nat, src1: seq<int>, stride1: nat,
                             h: nat, w: nat)
    requires PlaneFits(|src0|, h, w, stride0) && PlaneFits(|src1|, h, w, stride1)
    ensures DiffwtdMask(inverse, base, src0, stride0, src1, stride1, h, w)
         == DiffwtdMask(inverse, base, src1, stride1, src0, stride0, h, w)
  {
    var m := DiffwtdMask(inverse, base, src0, stride0, src1, stride1, h, w);
    var n := DiffwtdMask(inverse, base, src1, stride1, src0, stride0, h, w);
    forall i | 0 <= i < h ensures m[i] == n[i] {
      forall j | 0 <= j < w ensures m[i][j] == n[i][j] {
        assert Abs(At(src0, h, w, stride0, i, j) - At(src1, h, w, stride1, i, j))
            == Abs(At(src1, h, w, stride1, i, j) - At(src0, h, w, stride0, i, j));
      }
    }
  }

  /** `negative_to_zero`. */
  function NegativeToZero(v: int): (r: nat)
    ensures v >= 0 ==> r == v
  {
    if v < 0 then 0 else v
  }

  /** The absolute difference of two high-depth samples brought down to 8
      bits: unchanged at depth 8, shifted right by bd - 8 above it. The
      shift by 0 is the identity, so the two branches agree. */
  function ScaledDiff(a: int, b: int, bd: nat): (d: nat)
    requires bd >= 8
    ensures d == Shr(Abs(a - b), bd - 8)
    ensures d <= Abs(a - b)
  {
    var p := Pow2(bd - 8);
    DivBetween(Abs(a - b), p, 0, Abs(a - b));
    if bd == 8 then (assert p == 1; Abs(a - b)) else Abs(a - b) / p
  }

  /** One pixel of `diffwtd_mask_highbd`: the scaled difference over
      `DIFF_FACTOR` added to the base, floored at 0 and capped at 64. */
  function DiffWeightHighbd(a: int, b: int, inverse: bool, base: int, bd: nat): (m: int)
    requires bd >= 8
  {
    var m := Min(NegativeToZero(base + ScaledDiff(a, b, bd) / DiffFactor), MaxAlpha);
    if inverse then MaxAlpha - m else m
  }

  /** The high-depth weight is the 8-bit weight of the difference scaled
      down to 8 bits; at depth 8 it is exactly the 8-bit weight. */
  lemma DiffWeightHighbdScales(a: int, b: int, inverse: bool, base: int, bd: nat)
    requires bd >= 8
    ensures DiffWeightHighbd(a, b, inverse, base, bd) == DiffWeight(ScaledDiff(a, b, bd), inverse, base)
    ensures bd == 8 ==> DiffWeightHighbd(a, b, inverse, base, bd) == DiffWeight(Abs(a - b), inverse, base)
  {
    assert Pow2(0) == 1;
    FloorThenCapIsClamp(base + ScaledDiff(a, b, bd) / DiffFactor);
  }

  lemma FloorThenCapIsClamp(v: int)
    ensures Min(NegativeToZero(v), MaxAlpha) == Clamp(v, 0, MaxAlpha)
  {
  }

  /** `diffwtd_mask_highbd`. */
  function DiffwtdMaskHighbd(inverse: bool, base: int, src0: seq<int>, stride0: nat, src1: seq<int>, stride1: nat,
                             h: nat, w: nat, bd: nat): (mask: seq<seq<int>>)
    requires bd >= 8
    requires PlaneFits(|src0|, h, w, stride0) && PlaneFits(|src1|, h, w, stride1)
    ensures IsMask(mask, h, w)
  {
    seq(h, i requires 0 <= i < h =>
      seq(w, j requires 0 <= j < w =>
        DiffWeightHighbd(At(src0, h, w, stride0, i, j), At(src1, h, w, stride1, i, j), inverse, base, bd)))
  }

  /** At depth 8 the high-depth path builds the same mask as the 8-bit
      path, and at every depth its weights lie in [0, 64]. */
  lemma DiffwtdMaskHighbdAtDepth8(inverse: bool, base: int, src0: seq<int>, stride0: nat, src1: seq<int>,
                                  stride1: nat, h: nat, w: nat, bd: nat)
    requires bd >= 8
    requires PlaneFits(|src0|, h, w, stride0) && PlaneFits(|src1|, h, w, stride1)
    ensures InAlphaRange(DiffwtdMaskHighbd(inverse, base, src0, stride0, src1, stride1, h, w, bd))
    ensures bd == 8 ==> DiffwtdMaskHighbd(inverse, base, src0, stride0, src1, stride1, h, w, bd)
                        == DiffwtdMask(inverse, base, src0, stride0, src1, stride1, h, w)
  {
    var m := DiffwtdMaskHighbd(inverse, base, src0, stride0, src1, stride1, h, w, bd);
    var n := DiffwtdMask(inverse, base, src0, stride0, src1, stride1, h, w);
    forall i | 0 <= i < h
      ensures forall j :: 0 <= j < w ==> 0 <= m[i][j] <= MaxAlpha
      ensures bd == 8 ==> m[i] == n[i]
    {
      forall j | 0 <= j < w
        ensures 0 <= m[i][j] <= MaxAlpha
        ensures bd == 8 ==> m[i][j] == n[i][j]
      {
        DiffWeightHighbdScales(At(src0, h, w, stride0, i, j), At(src1, h, w, stride1, i, j), inverse, base, bd);
      }
    }
  }

  // ---------------------------------------------------------------------
  // Smooth inter-intra masks
  // ---------------------------------------------------------------------

  /** `ii_weights1d`: the weight of the intra prediction by distance from
      the predicted edge, in units of 1/128 of the superblock; written in
      rows of sixteen. */
  const IiWeights1d: seq<int> := IiWeightsRow0 + IiWeightsRow1 + IiWeightsRow2 + IiWeightsRow3 + IiWeightsRow4 + IiWeightsRow5 + IiWeightsRow6 + IiWeightsRow7
  const IiWeightsRow0: seq<int> := [60, 58, 56, 54, 52, 50, 48, 47, 45, 44, 42, 41, 39, 38, 37, 35]
  const IiWeightsRow1: seq<int> := [34, 33, 32, 31, 30, 29, 28, 27, 26, 25, 24, 23, 22, 22, 21, 20]
  const IiWeightsRow2: seq<int> := [19, 19, 18, 18, 17, 16, 16, 15, 15, 14, 14, 13, 13, 12, 12, 12]
  const IiWeightsRow3: seq<int> := [11, 11, 10, 10, 10, 9, 9, 9, 8, 8, 8, 8, 7, 7, 7, 7]
  const IiWeightsRow4: seq<int> := [6, 6, 6, 6, 6, 5, 5, 5, 5, 5, 4, 4, 4, 4, 4, 4]
  const IiWeightsRow5: seq<int> := [4, 4, 3, 3, 3, 3, 3, 3, 3, 3, 3, 2, 2, 2, 2, 2]
  const IiWeightsRow6: seq<int> := [2, 2, 2, 2, 2, 2, 2, 2, 2, 2, 1, 1, 1, 1, 1, 1]
  const IiWeightsRow7: seq<int> := [1, 1, 1, 1, 1, 1, 1, 1, 1, 1, 1, 1, 1, 1, 1, 1]

  /** `ii_size_scales`: the step through `IiWeights1d` for each block size. */
  const IiSizeScales: seq<nat> := [32, 16, 16, 16, 8, 8, 8, 4, 4, 4, 2, 2, 2, 1, 1, 1, 8, 8, 4, 4, 2, 2]

  /** `II_DC_PRED`, `II_V_PRED`, `II_H_PRED`, `II_SMOOTH_PRED`. */
  datatype InterIntraMode = IiDcPred | IiVPred | IiHPred | IiSmoothPred

  /** The scale stretches the longer side of every block size over the
      whole weight table, so every index the mask builder uses exists. */
  lemma SizeScaleCoversBlock(bs: int)
    requires 0 <= bs < BlockSizesAll
    ensures IiSizeScales[bs] >= 1
    ensures Max(BlockWide[bs], BlockHigh[bs]) * IiSizeScales[bs] == MaxSbSize
  {
    if bs == 0 {
    } else if bs == 1 {
    } else if bs == 2 {
    } else if bs == 3 {
    } else if bs == 4 {
    } else if bs == 5 {
    } else if bs == 6 {
    } else if bs == 7 {
    } else if bs == 8 {
    } else if bs == 9 {
    } else if bs == 10 {
    } else if bs == 11 {
    } else if bs == 12 {
    } else if bs == 13 {
    } else if bs == 14 {
    } else if bs == 15 {
    } else if bs == 16 {
    } else if bs == 17 {
    } else if bs == 18 {
    } else if bs == 19 {
    } else if bs == 20 {
    } else {
      assert bs == 21;
    }
  }

  predicate NonIncreasing(s: seq<int>)
  {
    forall k :: 0 <= k < |s| - 1 ==> s[k] >= s[k + 1]
  }

  predicate WithinWeights(s: seq<int>)
  {
    forall k :: 0 <= k < |s| ==> 1 <= s[k] <= 60
  }

  lemma ConcatNonIncreasing(a: seq<int>, b: seq<int>)
    requires NonIncreasing(a) && NonIncreasing(b) && WithinWeights(a) && WithinWeights(b)
    requires |a| > 0 && |b| > 0 && a[|a| - 1] >= b[0]
    ensures NonIncreasing(a + b) && WithinWeights(a + b)
  {
  }

  lemma IiWeightsRow0Facts()
    ensures |IiWeightsRow0| == 16 && NonIncreasing(IiWeightsRow0) && WithinWeights(IiWeightsRow0)
  {
  }

  lemma IiWeightsRow1Facts()
    ensures |IiWeightsRow1| == 16 && NonIncreasing(IiWeightsRow1) && WithinWeights(IiWeightsRow1)
  {
  }

  lemma IiWeightsRow2Facts()
    ensures |IiWeightsRow2| == 16 && NonIncreasing(IiWeightsRow2) && WithinWeights(IiWeightsRow2)
  {
  }

  lemma IiWeightsRow3Facts()
    ensures |IiWeightsRow3| == 16 && NonIncreasing(IiWeightsRow3) && WithinWeights(IiWeightsRow3)
  {
  }

  lemma IiWeightsRow4Facts()
    ensures |IiWeightsRow4| == 16 && NonIncreasing(IiWeightsRow4) && WithinWeights(IiWeightsRow4)
  {
  }

  lemma IiWeightsRow5Facts()
    ensures |IiWeightsRow5| == 16 && NonIncreasing(IiWeightsRow5) && WithinWeights(IiWeightsRow5)
  {
  }

  lemma IiWeightsRow6Facts()
    ensures |IiWeightsRow6| == 16 && NonIncreasing(IiWeightsRow6) && WithinWeights(IiWeightsRow6)
  {
  }

  lemma IiWeightsRow7Facts()
    ensures |IiWeightsRow7| == 16 && NonIncreasing(IiWeightsRow7) && WithinWeights(IiWeightsRow7)
  {
  }

  lemma WeightsStepDown()
    ensures |IiWeights1d| == MaxSbSize
    ensures NonIncreasing(IiWeights1d) && WithinWeights(IiWeights1d)
  {
    IiWeightsRow0Facts();
    IiWeightsRow1Facts();
    IiWeightsRow2Facts();
    IiWeightsRow3Facts();
    IiWeightsRow4Facts();
    IiWeightsRow5Facts();
    IiWeightsRow6Facts();
    IiWeightsRow7Facts();
    ConcatNonIncreasing(IiWeightsRow0, IiWeightsRow1);
    ConcatNonIncreasing(IiWeightsRow0 + IiWeightsRow1, IiWeightsRow2);
    ConcatNonIncreasing(IiWeightsRow0 + IiWeightsRow1 + IiWeightsRow2, IiWeightsRow3);
    ConcatNonIncreasing(IiWeightsRow0 + IiWeightsRow1 + IiWeightsRow2 + IiWeightsRow3, IiWeightsRow4);
    ConcatNonIncreasing(IiWeightsRow0 + IiWeightsRow1 + IiWeightsRow2 + IiWeightsRow3 + IiWeightsRow4, IiWeightsRow5);
    ConcatNonIncreasing(IiWeightsRow0 + IiWeightsRow1 + IiWeightsRow2 + IiWeightsRow3 + IiWeightsRow4 + IiWeightsRow5, IiWeightsRow6);
    ConcatNonIncreasing(IiWeightsRow0 + IiWeightsRow1 + IiWeightsRow2 + IiWeightsRow3 + IiWeightsRow4 + IiWeightsRow5 + IiWeightsRow6, IiWeightsRow7);
  }

  /** The intra weight never grows with the distance from the edge. */
  lemma {:induction false} WeightsNonIncreasing(a: int, b: int)
    requires 0 <= a <= b < MaxSbSize
    ensures IiWeights1d[a] >= IiWeights1d[b]
    decreases b - a
  {
    WeightsStepDown();
    if a < b {
      WeightsNonIncreasing(a + 1, b);
    }
  }

  /** The k-th entry of the weight table at the given step. */
  function IiWeight(k: nat, scale: nat): (r: int)
    requires k * scale < MaxSbSize
    ensures 1 <= r <= 60
  {
    WeightsStepDown();
    IiWeights1d[k * scale]
  }

  /** Row or column k of a side of n samples, stepped by a scale that fits
      n in the table, indexes inside the table. */
  lemma IndexInTable(k: nat, n: nat, scale: nat)
    requires k < n && n * scale <= MaxSbSize && scale >= 1
    ensures k * scale < MaxSbSize
  {
    MulLeInt(k, n - 1, scale);
  }

  /** One pixel of `build_smooth_interintra_mask`: DC is flat at 32; V
      weighs each row by its distance from the top, H each column by its
      distance from the left, and SMOOTH by the distance from the nearer of
      the two edges. */
  function IiMaskCell(bs: int, mode: InterIntraMode, i: int, j: int): (v: int)
    requires 0 <= bs < BlockSizesAll && 0 <= i < BlockHigh[bs] && 0 <= j < BlockWide[bs]
    ensures 0 <= v <= MaxAlpha
  {
    SizeScaleCoversBlock(bs);
    var bw, bh, scale := BlockWide[bs], BlockHigh[bs], IiSizeScales[bs];
    var n := Max(bw, bh);
    assert bw * scale <= n * scale && bh * scale <= n * scale by {
      MulLeInt(bw, n, scale);
      MulLeInt(bh, n, scale);
    }
    IndexInTable(i, bh, scale);
    IndexInTable(j, bw, scale);
    match mode
    case IiVPred => IiWeight(i, scale)
    case IiHPred => IiWeight(j, scale)
    case IiSmoothPred => IiWeight(Min(i, j), scale)
    case IiDcPred => 32
  }

  /** `build_smooth_interintra_mask`: the mask of a whole block, one
      `IiMaskCell` per pixel. */
  function SmoothInterIntraMask(bs: int, mode: InterIntraMode): (mask: seq<seq<int>>)
    requires 0 <= bs < BlockSizesAll
    ensures IsMask(mask, BlockHigh[bs], BlockWide[bs]) && InAlphaRange(mask)
    ensures forall i, j :: 0 <= i < BlockHigh[bs] && 0 <= j < BlockWide[bs] ==>
              mask[i][j] == IiMaskCell(bs, mode, i, j)
  {
    seq(BlockHigh[bs], i requires 0 <= i < BlockHigh[bs] =>
      seq(BlockWide[bs], j requires 0 <= j < BlockWide[bs] => IiMaskCell(bs, mode, i, j)))
  }

  /** DC is flat at half weight. */
  lemma DcMaskIsFlat(bs: int, i: int, j: int)
    requires 0 <= bs < BlockSizesAll && 0 <= i < BlockHigh[bs] && 0 <= j < BlockWide[bs]
    ensures SmoothInterIntraMask(bs, IiDcPred)[i][j] == MaxAlpha / 2
  {
  }

  /** V weighs whole rows: every pixel of a row has the row's weight. */
  lemma VMaskRowsConstant(bs: int, i: int, j: int)
    requires 0 <= bs < BlockSizesAll && 0 <= i < BlockHigh[bs] && 0 <= j < BlockWide[bs]
    ensures SmoothInterIntraMask(bs, IiVPred)[i][j] == SmoothInterIntraMask(bs, IiVPred)[i][0]
  {
  }

  /** The V weight falls from the top edge down: a lower row never weighs
      the intra prediction more than a row above it. */
  lemma VMaskFallsDownward(bs: int, i: int, i2: int, j: int)
    requires 0 <= bs < BlockSizesAll && 0 <= i <= i2 < BlockHigh[bs] && 0 <= j < BlockWide[bs]
    ensures SmoothInterIntraMask(bs, IiVPred)[i][j] >= SmoothInterIntraMask(bs, IiVPred)[i2][j]
  {
    var scale := IiSizeScales[bs];
    SizeScaleCoversBlock(bs);
    IndexInTable(i2, BlockHigh[bs], scale);
    MulLeInt(i, i2, scale);
    WeightsNonIncreasing(i * scale, i2 * scale);
  }

  /** SMOOTH takes the larger of the V and H weights at every pixel, since
      the weights fall with the distance. */
  lemma SmoothIsMaxOfVAndH(bs: int, i: int, j: int)
    requires 0 <= bs < BlockSizesAll && 0 <= i < BlockHigh[bs] && 0 <= j < BlockWide[bs]
    ensures SmoothInterIntraMask(bs, IiSmoothPred)[i][j]
         == Max(SmoothInterIntraMask(bs, IiVPred)[i][j], SmoothInterIntraMask(bs, IiHPred)[i][j])
  {
    var scale := IiSizeScales[bs];
    SizeScaleCoversBlock(bs);
    IndexInTable(i, BlockHigh[bs], scale);
    IndexInTable(j, BlockWide[bs], scale);
    if i <= j {
      MulLeInt(i, j, scale);
      WeightsNonIncreasing(i * scale, j * scale);
    } else {
      MulLeInt(j, i, scale);
      WeightsNonIncreasing(j * scale, i * scale);
    }
  }

  /** On a square block H is the transpose of V, and SMOOTH is symmetric. */
  lemma SquareMasksTranspose(bs: int, i: int, j: int)
    requires 0 <= bs < BlockSizesAll && BlockWide[bs] == BlockHigh[bs]
    requires 0 <= i < BlockHigh[bs] && 0 <= j < BlockWide[bs]
    ensures SmoothInterIntraMask(bs, IiHPred)[i][j] == SmoothInterIntraMask(bs, IiVPred)[j][i]
    ensures SmoothInterIntraMask(bs, IiSmoothPred)[i][j] == SmoothInterIntraMask(bs, IiSmoothPred)[j][i]
  {
  }

  // ---------------------------------------------------------------------
  // Wedge master masks
  // ---------------------------------------------------------------------

  /** `wedge_master_oblique_odd`, `wedge_master_oblique_even` and
      `wedge_master_vertical`, in rows of sixteen. */
  const WedgeMasterObliqueOdd: seq<int> := OddRow0 + OddRow1 + OddRow2 + OddRow3
  const WedgeMasterObliqueEven: seq<int> := EvenRow0 + EvenRow1 + EvenRow2 + EvenRow3
  const WedgeMasterVertical: seq<int> := VerticalRow0 + VerticalRow1 + VerticalRow2 + VerticalRow3
  const OddRow0: seq<int> := [0, 0, 0, 0, 0, 0, 0, 0, 0, 0, 0, 0, 0, 0, 0, 0]
  const OddRow1: seq<int> := [0, 0, 0, 0, 0, 0, 0, 0, 0, 0, 0, 0, 1, 2, 6, 18]
  const OddRow2: seq<int> := [37, 53, 60, 63, 64, 64, 64, 64, 64, 64, 64, 64, 64, 64, 64, 64]
  const OddRow3: seq<int> := [64, 64, 64, 64, 64, 64, 64, 64, 64, 64, 64, 64, 64, 64, 64, 64]
  const EvenRow0: seq<int> := [0, 0, 0, 0, 0, 0, 0, 0, 0, 0, 0, 0, 0, 0, 0, 0]
  const EvenRow1: seq<int> := [0, 0, 0, 0, 0, 0, 0, 0, 0, 0, 0, 0, 1, 4, 11, 27]
  const EvenRow2: seq<int> := [46, 58, 62, 63, 64, 64, 64, 64, 64, 64, 64, 64, 64, 64, 64, 64]
  const EvenRow3: seq<int> := [64, 64, 64, 64, 64, 64, 64, 64, 64, 64, 64, 64, 64, 64, 64, 64]
  const VerticalRow0: seq<int> := [0, 0, 0, 0, 0, 0, 0, 0, 0, 0, 0, 0, 0, 0, 0, 0]
  const VerticalRow1: seq<int> := [0, 0, 0, 0, 0, 0, 0, 0, 0, 0, 0, 0, 0, 2, 7, 21]
  const VerticalRow2: seq<int> := [43, 57, 62, 64, 64, 64, 64, 64, 64, 64, 64, 64, 64, 64, 64, 64]
  const VerticalRow3: seq<int> := [64, 64, 64, 64, 64, 64, 64, 64, 64, 64, 64, 64, 64, 64, 64, 64]

  lemma OddRow0InRange()
    ensures |OddRow0| == 16 && forall k :: 0 <= k < 16 ==> 0 <= OddRow0[k] <= 64
  {
  }

  lemma OddRow1InRange()
    ensures |OddRow1| == 16 && forall k :: 0 <= k < 16 ==> 0 <= OddRow1[k] <= 64
  {
  }

  lemma OddRow2InRange()
    ensures |OddRow2| == 16 && forall k :: 0 <= k < 16 ==> 0 <= OddRow2[k] <= 64
  {
  }

  lemma OddRow3InRange()
    ensures |OddRow3| == 16 && forall k :: 0 <= k < 16 ==> 0 <= OddRow3[k] <= 64
  {
  }

  lemma EvenRow0InRange()
    ensures |EvenRow0| == 16 && forall k :: 0 <= k < 16 ==> 0 <= EvenRow0[k] <= 64
  {
  }

  lemma EvenRow1InRange()
    ensures |EvenRow1| == 16 && forall k :: 0 <= k < 16 ==> 0 <= EvenRow1[k] <= 64
  {
  }

  lemma EvenRow2InRange()
    ensures |EvenRow2| == 16 && forall k :: 0 <= k < 16 ==> 0 <= EvenRow2[k] <= 64
  {
  }

  lemma EvenRow3InRange()
    ensures |EvenRow3| == 16 && forall k :: 0 <= k < 16 ==> 0 <= EvenRow3[k] <= 64
  {
  }

  lemma VerticalRow0InRange()
    ensures |VerticalRow0| == 16 && forall k :: 0 <= k < 16 ==> 0 <= VerticalRow0[k] <= 64
  {
  }

  lemma VerticalRow1InRange()
    ensures |VerticalRow1| == 16 && forall k :: 0 <= k < 16 ==> 0 <= VerticalRow1[k] <= 64
  {
  }

  lemma VerticalRow2InRange()
    ensures |VerticalRow2| == 16 && forall k :: 0 <= k < 16 ==> 0 <= VerticalRow2[k] <= 64
  {
  }

  lemma VerticalRow3InRange()
    ensures |VerticalRow3| == 16 && forall k :: 0 <= k < 16 ==> 0 <= VerticalRow3[k] <= 64
  {
  }

  lemma MasterLengths()
    ensures |WedgeMasterObliqueOdd| == MaskMasterSize && |WedgeMasterObliqueEven| == MaskMasterSize
    ensures |WedgeMasterVertical| == MaskMasterSize
  {
  }

  lemma MastersInRange()
    ensures |WedgeMasterObliqueOdd| == MaskMasterSize && |WedgeMasterObliqueEven| == MaskMasterSize
    ensures |WedgeMasterVertical| == MaskMasterSize
    ensures forall k :: 0 <= k < MaskMasterSize ==> 0 <= WedgeMasterObliqueOdd[k] <= 64
    ensures forall k :: 0 <= k < MaskMasterSize ==> 0 <= WedgeMasterObliqueEven[k] <= 64
    ensures forall k :: 0 <= k < MaskMasterSize ==> 0 <= WedgeMasterVertical[k] <= 64
  {
    OddRow0InRange();
    OddRow1InRange();
    OddRow2InRange();
    OddRow3InRange();
    EvenRow0InRange();
    EvenRow1InRange();
    EvenRow2InRange();
    EvenRow3InRange();
    VerticalRow0InRange();
    VerticalRow1InRange();
    VerticalRow2InRange();
    VerticalRow3InRange();
  }

  lemma VerticalRowsMirror()
    ensures forall k :: 0 <= k < 16 ==> VerticalRow0[k] == 0 && VerticalRow3[k] == 64
    ensures forall k :: 0 <= k < 16 ==> VerticalRow2[15 - k] == 64 - VerticalRow1[k]
  {
  }

  /** The vertical master is antisymmetric about its centre: the mirrored
      ramp is its complement. */
  lemma VerticalMasterMirrorIsComplement()
    ensures forall k :: 0 <= k < MaskMasterSize ==>
              WedgeMasterVertical[MaskMasterSize - 1 - k] == 64 - WedgeMasterVertical[k]
  {
    MastersInRange();
    VerticalRowsMirror();
  }

  /** `WEDGE_HORIZONTAL` .. `WEDGE_OBLIQUE153`. */
  datatype WedgeDirection = WedgeHorizontal | WedgeVertical | WedgeOblique27 | WedgeOblique63
                          | WedgeOblique117 | WedgeOblique153

  /** Row i of a master built from the given even and odd rows: the even
      rows shift the even row right by 16 - i/2, the odd rows the odd row
      by 15 - i/2. */
  function ShiftedRowOf(even: seq<int>, odd: seq<int>, i: int): (row: seq<int>)
    requires |even| == MaskMasterSize && |odd| == MaskMasterSize && 0 <= i < MaskMasterSize
    ensures |row| == MaskMasterSize
  {
    if i % 2 == 0 then ShiftCopy(even, 16 - i / 2, MaskMasterSize)
    else ShiftCopy(odd, 15 - i / 2, MaskMasterSize)
  }

  /** Predicate: `rows` are the first rows of the master built from the
      given even and odd rows. */
  predicate ShiftedPrefix(even: seq<int>, odd: seq<int>, rows: seq<seq<int>>)
    requires |even| == MaskMasterSize && |odd| == MaskMasterSize
  {
    |rows| <= MaskMasterSize && forall r :: 0 <= r < |rows| ==> rows[r] == ShiftedRowOf(even, odd, r)
  }

  /** One step of the loop: appending the even row at `shift` and the odd
      row at `shift - 1` extends the prefix by two rows. */
  lemma ShiftedStep(even: seq<int>, odd: seq<int>, rows: seq<seq<int>>, shift: int)
    requires |even| == MaskMasterSize && |odd| == MaskMasterSize
    requires ShiftedPrefix(even, odd, rows) && |rows| % 2 == 0 && |rows| < MaskMasterSize
    requires shift == 16 - |rows| / 2
    ensures ShiftedPrefix(even, odd, rows + [ShiftCopy(even, shift, MaskMasterSize),
                                             ShiftCopy(odd, shift - 1, MaskMasterSize)])
  {
    var i := |rows|;
    var next := rows + [ShiftCopy(even, shift, MaskMasterSize), ShiftCopy(odd, shift - 1, MaskMasterSize)];
    forall r | 0 <= r < |next|
      ensures next[r] == ShiftedRowOf(even, odd, r)
    {
      if r < i {
        assert next[r] == rows[r];
      } else if r == i {
        assert r % 2 == 0 && 16 - r / 2 == shift;
      } else {
        assert r == i + 1 && r % 2 == 1 && 15 - r / 2 == shift - 1;
      }
    }
  }

  /** Row i of the 63-degree master. */
  function ObliqueRow(i: int): (row: seq<int>)
    requires 0 <= i < MaskMasterSize
    ensures |row| == MaskMasterSize
    ensures forall k :: 0 <= k < MaskMasterSize ==> 0 <= row[k] <= 64
  {
    MastersInRange();
    ShiftCopyBounds(if i % 2 == 0 then WedgeMasterObliqueEven else WedgeMasterObliqueOdd,
                    if i % 2 == 0 then 16 - i / 2 else 15 - i / 2, MaskMasterSize, 0, 64);
    ShiftedRowOf(WedgeMasterObliqueEven, WedgeMasterObliqueOdd, i)
  }

  /** The first loop of `init_wedge_master_masks`, on any pair of master
      rows: two rows per step, the shift starting at a quarter of the height
      and falling by one per row. */
  method ShiftedMaster(even: seq<int>, odd: seq<int>) returns (rows: seq<seq<int>>)
    requires |even| == MaskMasterSize && |odd| == MaskMasterSize
    ensures |rows| == MaskMasterSize
    ensures forall i :: 0 <= i < MaskMasterSize ==> rows[i] == ShiftedRowOf(even, odd, i)
  {
    rows := [];
    var shift := MaskMasterSize / 4;
    while |rows| < MaskMasterSize
      invariant ShiftedPrefix(even, odd, rows) && |rows| % 2 == 0
      invariant shift == 16 - |rows| / 2
      decreases MaskMasterSize - |rows|
    {
      ShiftedStep(even, odd, rows, shift);
      var evenRow := ShiftCopy(even, shift, MaskMasterSize);
      shift := shift - 1;
      var oddRow := ShiftCopy(odd, shift, MaskMasterSize);
      rows := rows + [evenRow, oddRow];
    }
  }

  /** The 63-degree master as `init_wedge_master_masks` fills it. */
  method ObliqueMaster() returns (rows: seq<seq<int>>)
    ensures |rows| == MaskMasterSize
    ensures forall i :: 0 <= i < MaskMasterSize ==> rows[i] == ObliqueRow(i)
  {
    MasterLengths();
    rows := ShiftedMaster(WedgeMasterObliqueEven, WedgeMasterObliqueOdd);
  }

  /** `wedge_mask_obl[flipped][direction]`: the cell at (r, c) as the second
      loop of `init_wedge_master_masks` writes it. The loop visits every
      (i, j) once and writes the 27-degree mask at the transpose, the 117-
      and 153-degree masks at the column-mirrored and anti-transposed
      positions, and the horizontal mask at the transpose of the vertical
      one, so each cell below is the one value written to it. */
  function WedgeMasterCell(flipped: bool, dir: WedgeDirection, r: int, c: int): (v: int)
    requires 0 <= r < MaskMasterSize && 0 <= c < MaskMasterSize
    ensures 0 <= v <= 64
  {
    MastersInRange();
    var top := Pow2(WedgeWeightBits);
    Pow2Values();
    var m := match dir
      case WedgeOblique63 => ObliqueRow(r)[c]
      case WedgeOblique27 => ObliqueRow(c)[r]
      case WedgeOblique117 => top - ObliqueRow(r)[MaskMasterSize - 1 - c]
      case WedgeOblique153 => top - ObliqueRow(c)[MaskMasterSize - 1 - r]
      case WedgeVertical => WedgeMasterVertical[c]
      case WedgeHorizontal => WedgeMasterVertical[r];
    if flipped then top - m else m
  }

  /** Every flipped mask is the 64-complement of the unflipped one. */
  lemma WedgeFlipIsComplement(dir: WedgeDirection, r: int, c: int)
    requires 0 <= r < MaskMasterSize && 0 <= c < MaskMasterSize
    ensures WedgeMasterCell(true, dir, r, c) == 64 - WedgeMasterCell(false, dir, r, c)
  {
  }

  /** The 27-degree mask is the transpose of the 63-degree one, the
      153-degree mask that of the 117-degree one, and the horizontal mask
      that of the vertical one. */
  lemma WedgeTransposes(flipped: bool, r: int, c: int)
    requires 0 <= r < MaskMasterSize && 0 <= c < MaskMasterSize
    ensures WedgeMasterCell(flipped, WedgeOblique27, r, c) == WedgeMasterCell(flipped, WedgeOblique63, c, r)
    ensures WedgeMasterCell(flipped, WedgeOblique153, r, c) == WedgeMasterCell(flipped, WedgeOblique117, c, r)
    ensures WedgeMasterCell(flipped, WedgeHorizontal, r, c) == WedgeMasterCell(flipped, WedgeVertical, c, r)
  {
  }

  /** The 117-degree mask is the 63-degree one mirrored left to right and
      complemented. */
  lemma Oblique117IsMirroredComplement(flipped: bool, r: int, c: int)
    requires 0 <= r < MaskMasterSize && 0 <= c < MaskMasterSize
    ensures WedgeMasterCell(flipped, WedgeOblique117, r, c)
         == 64 - WedgeMasterCell(flipped, WedgeOblique63, r, MaskMasterSize - 1 - c)
  {
  }

  // ---------------------------------------------------------------------
  // OBMC blending masks
  // ---------------------------------------------------------------------

  /** `obmc_mask_N`: the weight of the current block's prediction at each
      overlap position, nearest the neighbour first. The two longest are
      written in rows of sixteen. */
  const ObmcMask1: seq<int> := [64]
  const ObmcMask2: seq<int> := [45, 64]
  const ObmcMask4: seq<int> := [39, 50, 59, 64]
  const ObmcMask8: seq<int> := [36, 42, 48, 53, 57, 61, 64, 64]
  const ObmcMask16: seq<int> := [34, 37, 40, 43, 46, 49, 52, 54, 56, 58, 60, 61, 64, 64, 64, 64]
  const ObmcMask32: seq<int> := ObmcMask32Row0 + ObmcMask32Row1
  const ObmcMask32Row0: seq<int> := [33, 35, 36, 38, 40, 41, 43, 44, 45, 47, 48, 50, 51, 52, 53, 55]
  const ObmcMask32Row1: seq<int> := [56, 57, 58, 59, 60, 60, 61, 62, 64, 64, 64, 64, 64, 64, 64, 64]
  const ObmcMask64: seq<int> := ObmcMask64Row0 + ObmcMask64Row1 + ObmcMask64Row2 + ObmcMask64Row3
  const ObmcMask64Row0: seq<int> := [33, 34, 35, 35, 36, 37, 38, 39, 40, 40, 41, 42, 43, 44, 44, 44]
  const ObmcMask64Row1: seq<int> := [45, 46, 47, 47, 48, 49, 50, 51, 51, 51, 52, 52, 53, 54, 55, 56]
  const ObmcMask64Row2: seq<int> := [56, 56, 57, 57, 58, 58, 59, 60, 60, 60, 60, 60, 61, 62, 62, 62]
  const ObmcMask64Row3: seq<int> := [62, 62, 63, 63, 63, 63, 64, 64, 64, 64, 64, 64, 64, 64, 64, 64]

  /** A blending ramp: non-decreasing, every weight in (32, 64], and full
      weight at the far end. */
  predicate ObmcRamp(s: seq<int>)
  {
    RampBody(s) && s[|s| - 1] == MaxAlpha
  }

  /** A ramp without the condition on its last weight: the shape of every
      16-entry row the long tables are built from. */
  predicate RampBody(s: seq<int>)
  {
    |s| > 0
    && (forall k :: 0 <= k < |s| - 1 ==> s[k] <= s[k + 1])
    && forall k :: 0 <= k < |s| ==> MaxAlpha / 2 < s[k] <= MaxAlpha
  }

  lemma ConcatRamp(a: seq<int>, b: seq<int>)
    requires RampBody(a) && ObmcRamp(b) && a[|a| - 1] <= b[0]
    ensures ObmcRamp(a + b)
  {
  }

  lemma Obmc32Row0Body() ensures RampBody(ObmcMask32Row0) {}
  lemma Obmc32Row1Ramp() ensures ObmcRamp(ObmcMask32Row1) {}
  lemma Obmc64Row0Body() ensures RampBody(ObmcMask64Row0) {}
  lemma Obmc64Row1Body() ensures RampBody(ObmcMask64Row1) {}
  lemma Obmc64Row2Body() ensures RampBody(ObmcMask64Row2) {}
  lemma Obmc64Row3Ramp() ensures ObmcRamp(ObmcMask64Row3) {}

  /** The tables up to 16 samples. */
  lemma ObmcShortTablesAreRamps()
    ensures |ObmcMask1| == 1 && |ObmcMask2| == 2 && |ObmcMask4| == 4 && |ObmcMask8| == 8 && |ObmcMask16| == 16
    ensures ObmcRamp(ObmcMask1) && ObmcRamp(ObmcMask2) && ObmcRamp(ObmcMask4) && ObmcRamp(ObmcMask8)
    ensures ObmcRamp(ObmcMask16)
  {
  }

  /** The 32-sample table, from its two rows. */
  lemma ObmcMask32IsRamp()
    ensures |ObmcMask32| == 32 && ObmcRamp(ObmcMask32)
  {
    Obmc32Row0Body();
    Obmc32Row1Ramp();
    ConcatRamp(ObmcMask32Row0, ObmcMask32Row1);
  }

  /** The 64-sample table, from its four rows joined back to front. */
  lemma ObmcMask64IsRamp()
    ensures |ObmcMask64| == 64 && ObmcRamp(ObmcMask64)
  {
    Obmc64Row0Body();
    Obmc64Row1Body();
    Obmc64Row2Body();
    Obmc64Row3Ramp();
    var tail2 := ObmcMask64Row2 + ObmcMask64Row3;
    ConcatRamp(ObmcMask64Row2, ObmcMask64Row3);
    var tail1 := ObmcMask64Row1 + tail2;
    assert tail2[0] == ObmcMask64Row2[0];
    ConcatRamp(ObmcMask64Row1, tail2);
    assert tail1[0] == ObmcMask64Row1[0];
    ConcatRamp(ObmcMask64Row0, tail1);
    assert ObmcMask64 == ObmcMask64Row0 + tail1;
  }

  /** Every table is a ramp as long as its name says. */
  lemma ObmcTablesAreRamps()
    ensures |ObmcMask1| == 1 && |ObmcMask2| == 2 && |ObmcMask4| == 4 && |ObmcMask8| == 8
    ensures |ObmcMask16| == 16 && |ObmcMask32| == 32 && |ObmcMask64| == 64
    ensures ObmcRamp(ObmcMask1) && ObmcRamp(ObmcMask2) && ObmcRamp(ObmcMask4) && ObmcRamp(ObmcMask8)
    ensures ObmcRamp(ObmcMask16) && ObmcRamp(ObmcMask32) && ObmcRamp(ObmcMask64)
  {
    ObmcShortTablesAreRamps();
    ObmcMask32IsRamp();
    ObmcMask64IsRamp();
  }

  /** `av1_get_obmc_mask`: the table for an overlap of `length` samples;
      `None` for a length with no table, where the source asserts. */
  function ObmcMask(length: int): (r: Option<seq<int>>)
    ensures r.Some? <==> length in {1, 2, 4, 8, 16, 32, 64}
    ensures r.Some? ==> |r.value| == length && ObmcRamp(r.value)
  {
    ObmcTablesAreRamps();
    match length
    case 1 => Some(ObmcMask1)
    case 2 => Some(ObmcMask2)
    case 4 => Some(ObmcMask4)
    case 8 => Some(ObmcMask8)
    case 16 => Some(ObmcMask16)
    case 32 => Some(ObmcMask32)
    case 64 => Some(ObmcMask64)
    case _ => None
  }

  /** `av1_skip_u4x4_pred_in_obmc`, given the plane block size that
      `get_plane_block_size` computes: the blend with the block above is
      skipped exactly for plane blocks under 8x8 (4x4, 4x8 and 8x4); the
      blend with the left neighbour is never skipped. */
  function SkipU4x4PredInObmc(planeBsize: int, dir: int): (skip: bool)
    requires 0 <= planeBsize < BlockSizesAll
    ensures skip <==> dir == 0 && BlockWide[planeBsize] * BlockHigh[planeBsize] < 64
  {
    match planeBsize
    case 0 => dir == 0
    case 1 => dir == 0
    case 2 => dir == 0
    case _ => false
  }

  // ---------------------------------------------------------------------
  // Optical-flow MV refinement
  // ---------------------------------------------------------------------

  /** The two predictors of a compound block and their gradients, each a
      row-major plane with its own stride. */
  datatype OpflBlock = OpflBlock(p0: seq<int>, pstride0: nat, p1: seq<int>, pstride1: nat,
                                 gx0: seq<int>, gy0: seq<int>, gx1: seq<int>, gy1: seq<int>,
                                 gstride: nat, bw: nat, bh: nat)

  /** Every plane holds the bh x bw block at its stride. */
  predicate ValidOpflBlock(b: OpflBlock)
  {
    PlaneFits(|b.p0|, b.bh, b.bw, b.pstride0) && PlaneFits(|b.p1|, b.bh, b.bw, b.pstride1)
    && PlaneFits(|b.gx0|, b.bh, b.bw, b.gstride) && PlaneFits(|b.gy0|, b.bh, b.bw, b.gstride)
    && PlaneFits(|b.gx1|, b.bh, b.bw, b.gstride) && PlaneFits(|b.gy1|, b.bh, b.bw, b.gstride)
  }

  /** The five sums of products the solve needs. */
  datatype Moments = Moments(su2: int, suv: int, sv2: int, suw: int, svw: int)

  /** One pixel's contribution: u and v are the distance-weighted
      gradient differences, w the weighted predictor difference. */
  function AddPixel(m: Moments, u: int, v: int, w: int): Moments
  {
    Moments(m.su2 + u * u, m.suv + u * v, m.sv2 + v * v, m.suw + u * w, m.svw + v * w)
  }

  function PixelU(b: OpflBlock, d0: int, d1: int, i: int, j: int): int
    requires ValidOpflBlock(b) && 0 <= i < b.bh && 0 <= j < b.bw
  {
    d0 * At(b.gx0, b.bh, b.bw, b.gstride, i, j) - d1 * At(b.gx1, b.bh, b.bw, b.gstride, i, j)
  }

  function PixelV(b: OpflBlock, d0: int, d1: int, i: int, j: int): int
    requires ValidOpflBlock(b) && 0 <= i < b.bh && 0 <= j < b.bw
  {
    d0 * At(b.gy0, b.bh, b.bw, b.gstride, i, j) - d1 * At(b.gy1, b.bh, b.bw, b.gstride, i, j)
  }

  function PixelW(b: OpflBlock, d0: int, i: int, j: int): int
    requires ValidOpflBlock(b) && 0 <= i < b.bh && 0 <= j < b.bw
  {
    d0 * (At(b.p0, b.bh, b.bw, b.pstride0, i, j) - At(b.p1, b.bh, b.bw, b.pstride1, i, j))
  }

  function AddBlockPixel(b: OpflBlock, d0: int, d1: int, m: Moments, i: int, j: int): Moments
    requires ValidOpflBlock(b) && 0 <= i < b.bh && 0 <= j < b.bw
  {
    AddPixel(m, PixelU(b, d0, d1, i, j), PixelV(b, d0, d1, i, j), PixelW(b, d0, i, j))
  }

  /** The moments of the first n pixels in raster order: the reference the
      accumulation loop is checked against. */
  function MomentsUpTo(b: OpflBlock, d0: int, d1: int, n: nat): Moments
    requires ValidOpflBlock(b) && n <= b.bh * b.bw
    decreases n
  {
    if n == 0 then Moments(0, 0, 0, 0, 0)
    else
      DivBetween(n - 1, b.bw, 0, b.bh - 1);
      AddBlockPixel(b, d0, d1, MomentsUpTo(b, d0, d1, n - 1), (n - 1) / b.bw, (n - 1) % b.bw)
  }

  /** The accumulation loop of `av1_opfl_mv_refinement_lowbd` (the quincunx
      subsampling switched off, as the source configures it): every pixel
      of the block is added once, row by row. */
  method AccumulateMoments(b: OpflBlock, d0: int, d1: int) returns (m: Moments)
    requires ValidOpflBlock(b)
    ensures m == MomentsUpTo(b, d0, d1, b.bh * b.bw)
  {
    m := Moments(0, 0, 0, 0, 0);
    var i := 0;
    while i < b.bh
      invariant 0 <= i <= b.bh
      invariant i * b.bw <= b.bh * b.bw
      invariant m == MomentsUpTo(b, d0, d1, i * b.bw)
    {
      var j := 0;
      while j < b.bw
        invariant 0 <= j <= b.bw
        invariant i * b.bw + j <= b.bh * b.bw
        invariant m == MomentsUpTo(b, d0, d1, i * b.bw + j)
      {
        DivOfRange(i * b.bw + j, b.bw, i);
        m := AddBlockPixel(b, d0, d1, m, i, j);
        j := j + 1;
        assert i * b.bw + j <= b.bh * b.bw by {
          MulLeInt(i + 1, b.bh, b.bw);
        }
      }
      assert (i + 1) * b.bw == i * b.bw + b.bw;
      i := i + 1;
      assert i * b.bw <= b.bh * b.bw by {
        MulLeInt(i, b.bh, b.bw);
      }
    }
  }

  /** The determinant of the normal equations. */
  function Determinant(m: Moments): int
  {
    m.su2 * m.sv2 - m.suv * m.suv
  }

  /** The quadratic form of the moment matrix at (x, y) swapped: the sum of
      (y*u - x*v)^2 over the pixels. */
  function Quad(m: Moments, x: int, y: int): int
  {
    y * y * m.su2 + x * x * m.sv2 - 2 * x * y * m.suv
  }

  lemma AddPixelQuad(m: Moments, u: int, v: int, w: int, x: int, y: int)
    ensures Quad(AddPixel(m, u, v, w), x, y) == Quad(m, x, y) + (y * u - x * v) * (y * u - x * v)
  {
    assert y * y * (m.su2 + u * u) == y * y * m.su2 + (y * u) * (y * u);
    assert x * x * (m.sv2 + v * v) == x * x * m.sv2 + (x * v) * (x * v);
    assert 2 * x * y * (m.suv + u * v) == 2 * x * y * m.suv + 2 * (y * u) * (x * v);
    assert (y * u - x * v) * (y * u - x * v) == (y * u) * (y * u) + (x * v) * (x * v) - 2 * (y * u) * (x * v);
  }

  lemma AddPixelDeterminant(m: Moments, u: int, v: int, w: int)
    ensures Determinant(AddPixel(m, u, v, w)) == Determinant(m) + Quad(m, u, v)
  {
    assert (m.su2 + u * u) * (m.sv2 + v * v) == m.su2 * m.sv2 + v * v * m.su2 + u * u * m.sv2 + (u * u) * (v * v);
    assert (m.suv + u * v) * (m.suv + u * v) == m.suv * m.suv + 2 * u * v * m.suv + (u * v) * (u * v);
    assert (u * u) * (v * v) == (u * v) * (u * v);
  }

  lemma SquareNonNegative(t: int)
    ensures t * t >= 0
  {
    if t < 0 {
      assert t * t == (-t) * (-t);
    }
  }

  /** The moments of n > 0 pixels are those of the first n - 1 plus pixel
      n - 1. */
  lemma MomentsStep(b: OpflBlock, d0: int, d1: int, n: nat) returns (u: int, v: int, w: int)
    requires ValidOpflBlock(b) && 0 < n <= b.bh * b.bw
    ensures MomentsUpTo(b, d0, d1, n) == AddPixel(MomentsUpTo(b, d0, d1, n - 1), u, v, w)
  {
    DivBetween(n - 1, b.bw, 0, b.bh - 1);
    var i, j := (n - 1) / b.bw, (n - 1) % b.bw;
    u, v, w := PixelU(b, d0, d1, i, j), PixelV(b, d0, d1, i, j), PixelW(b, d0, i, j);
  }

  lemma {:induction false} QuadNonNegative(b: OpflBlock, d0: int, d1: int, n: nat, x: int, y: int)
    requires ValidOpflBlock(b) && n <= b.bh * b.bw
    ensures Quad(MomentsUpTo(b, d0, d1, n), x, y) >= 0
    decreases n
  {
    if n > 0 {
      QuadNonNegative(b, d0, d1, n - 1, x, y);
      var u, v, w := MomentsStep(b, d0, d1, n);
      AddPixelQuad(MomentsUpTo(b, d0, d1, n - 1), u, v, w, x, y);
      SquareNonNegative(y * u - x * v);
    }
  }

  /** The sums of squares are non-negative and, by Lagrange's identity, so
      is the determinant: it is the sum of (u_k*v_l - u_l*v_k)^2 over the
      pixel pairs. A zero determinant is therefore the only degenerate
      case. */
  lemma {:induction false} DeterminantNonNegative(b: OpflBlock, d0: int, d1: int, n: nat)
    requires ValidOpflBlock(b) && n <= b.bh * b.bw
    ensures MomentsUpTo(b, d0, d1, n).su2 >= 0 && MomentsUpTo(b, d0, d1, n).sv2 >= 0
    ensures Determinant(MomentsUpTo(b, d0, d1, n)) >= 0
    decreases n
  {
    QuadNonNegative(b, d0, d1, n, 0, 1);
    QuadNonNegative(b, d0, d1, n, 1, 0);
    if n > 0 {
      DeterminantNonNegative(b, d0, d1, n - 1);
      var u, v, w := MomentsStep(b, d0, d1, n);
      QuadNonNegative(b, d0, d1, n - 1, u, v);
      AddPixelDeterminant(MomentsUpTo(b, d0, d1, n - 1), u, v, w);
    }
  }

  /** The refined offsets of both predictors, in the MV precision. */
  datatype MvOffsets = MvOffsets(vx0: int, vy0: int, vx1: int, vy1: int)

  /** The numerators of Cramer's rule, scaled by 2^bits. */
  function NumeratorX(m: Moments, bits: nat): int
  {
    (m.suv * m.svw - m.sv2 * m.suw) * Pow2(bits)
  }

  function NumeratorY(m: Moments, bits: nat): int
  {
    (m.suv * m.suw - m.su2 * m.svw) * Pow2(bits)
  }

  /** The solve at the end of `av1_opfl_mv_refinement_lowbd`: with a zero
      determinant the outputs keep their previous values; otherwise the
      offset of predictor 0 is the rounded quotient of Cramer's rule, and
      that of predictor 1 is it scaled by d1/d0, rounded. */
  function OpflSolve(m: Moments, d0: int, d1: int, bits: nat, prev: MvOffsets): (r: MvOffsets)
    requires Determinant(m) != 0 ==> d0 != 0
    ensures Determinant(m) == 0 ==> r == prev
  {
    var det := Determinant(m);
    if det == 0 then prev
    else
      var vx0 := DivRoundSigned(NumeratorX(m, bits), det);
      var vy0 := DivRoundSigned(NumeratorY(m, bits), det);
      MvOffsets(vx0, vy0, DivRoundSigned(vx0 * d1, d0), DivRoundSigned(vy0 * d1, d0))
  }

  /** Cramer's numerators solve the normal equations of the least-squares
      fit exactly: the moment matrix times (Px, Py) is -2^bits * D times
      (suw, svw). */
  lemma CramerIdentity(a: int, c: int, bb: int, e: int, f: int)
    ensures a * (c * f - bb * e) + c * (c * e - a * f) == -e * (a * bb - c * c)
    ensures c * (c * f - bb * e) + bb * (c * e - a * f) == -f * (a * bb - c * c)
  {
    assert a * (c * f - bb * e) == a * c * f - a * bb * e;
    assert c * (c * e - a * f) == c * c * e - a * c * f;
    assert -e * (a * bb - c * c) == c * c * e - a * bb * e;
    assert c * (c * f - bb * e) == c * c * f - c * bb * e;
    assert bb * (c * e - a * f) == c * bb * e - a * bb * f;
    assert -f * (a * bb - c * c) == c * c * f - a * bb * f;
  }

  lemma ScaleSum(a: int, x: int, c: int, y: int, k: int)
    ensures a * (x * k) + c * (y * k) == (a * x + c * y) * k
  {
  }

  lemma CramerSolvesNormalEquations(m: Moments, bits: nat)
    ensures m.su2 * NumeratorX(m, bits) + m.suv * NumeratorY(m, bits) == -m.suw * Determinant(m) * Pow2(bits)
    ensures m.suv * NumeratorX(m, bits) + m.sv2 * NumeratorY(m, bits) == -m.svw * Determinant(m) * Pow2(bits)
  {
    var k := Pow2(bits);
    var px, py := m.suv * m.svw - m.sv2 * m.suw, m.suv * m.suw - m.su2 * m.svw;
    CramerIdentity(m.su2, m.suv, m.sv2, m.suw, m.svw);
    ScaleSum(m.su2, px, m.suv, py, k);
    ScaleSum(m.suv, px, m.sv2, py, k);
  }

  /** With a non-zero determinant, each offset of predictor 0 is the
      nearest integer to its Cramer quotient, and each offset of predictor
      1 is the nearest integer to the predictor-0 offset scaled by d1/d0. */
  lemma OpflSolveRounds(m: Moments, d0: int, d1: int, bits: nat, prev: MvOffsets)
    requires Determinant(m) != 0 && d0 != 0
    ensures var r := OpflSolve(m, d0, d1, bits, prev);
            var det := Abs(Determinant(m)) as int;
            && -det <= 2 * (NumeratorX(m, bits) - r.vx0 * Determinant(m)) <= det
            && -det <= 2 * (NumeratorY(m, bits) - r.vy0 * Determinant(m)) <= det
            && -(Abs(d0) as int) <= 2 * (r.vx0 * d1 - r.vx1 * d0) <= Abs(d0)
            && -(Abs(d0) as int) <= 2 * (r.vy0 * d1 - r.vy1 * d0) <= Abs(d0)
  {
    var r := OpflSolve(m, d0, d1, bits, prev);
    DivRoundSignedNearest(NumeratorX(m, bits), Determinant(m));
    DivRoundSignedNearest(NumeratorY(m, bits), Determinant(m));
    DivRoundSignedNearest(r.vx0 * d1, d0);
    DivRoundSignedNearest(r.vy0 * d1, d0);
  }

  /** Equal distances on both sides give predictor 1 the same offset as
      predictor 0. */
  lemma OpflEqualDistances(m: Moments, d: int, bits: nat, prev: MvOffsets)
    requires Determinant(m) != 0 && d != 0
    ensures OpflSolve(m, d, d, bits, prev).vx1 == OpflSolve(m, d, d, bits, prev).vx0
    ensures OpflSolve(m, d, d, bits, prev).vy1 == OpflSolve(m, d, d, bits, prev).vy0
  {
    var r := OpflSolve(m, d, d, bits, prev);
    DivRoundSignedExact(r.vx0, d);
    DivRoundSignedExact(r.vy0, d);
  }

  lemma DivRoundSignedExact(q: int, d: int)
    requires d != 0
    ensures DivRoundSigned(q * d, d) == q
  {
    var r := DivRoundSigned(q * d, d);
    DivRoundSignedNearest(q * d, d);
    var t := q - r;
    var e := t * d;
    assert q * d - r * d == e;
    AbsProductAtLeast(t, d);
    assert -(Abs(d) as int) <= 2 * e <= Abs(d);
    assert t == 0;
  }

  /** A non-zero multiple of d is at least |d| away from zero. */
  lemma AbsProductAtLeast(t: int, d: int)
    ensures t != 0 ==> Abs(t * d) >= Abs(d)
  {
    assert Abs(t * d) == Abs(t) * Abs(d) by {
      if t < 0 && d < 0 { assert t * d == (-t) * (-d); }
      else if t < 0 { assert t * d == -((-t) * d); }
      else if d < 0 { assert t * d == -(t * (-d)); }
    }
    if t != 0 {
      MulLeInt(1, Abs(t), Abs(d));
    }
  }

  /** `av1_opfl_mv_refinement_lowbd`: accumulate the moments over the
      block, then solve. The division by d0 is reached only when the
      determinant is non-zero. */
  method OpflMvRefinement(b: OpflBlock, d0: int, d1: int, gradPrecBits: int, mvPrecBits: int,
                          prev: MvOffsets) returns (r: MvOffsets)
    requires ValidOpflBlock(b) && mvPrecBits + gradPrecBits >= 0
    requires d0 != 0 || Determinant(MomentsUpTo(b, d0, d1, b.bh * b.bw)) == 0
    ensures Determinant(MomentsUpTo(b, d0, d1, b.bh * b.bw)) == 0 ==> r == prev
    ensures r == OpflSolve(MomentsUpTo(b, d0, d1, b.bh * b.bw), d0, d1, mvPrecBits + gradPrecBits, prev)
  {
    var m := AccumulateMoments(b, d0, d1);
    r := OpflSolve(m, d0, d1, mvPrecBits + gradPrecBits, prev);
  }

  // ---------------------------------------------------------------------
  // Warp decision
  // ---------------------------------------------------------------------

  /** A warped motion model: its affine matrix and the flag saying the
      fit failed. */
  datatype WarpParams = WarpParams(wmmat: seq<int>, invalid: bool)

  /** `default_warp_params`: the identity model at 16 fractional bits. */
  const DefaultWarpParams := WarpParams([0, 0, 65536, 0, 0, 65536], false)

  /** The warp types the block may use. */
  datatype WarpTypes = WarpTypes(globalWarpAllowed: bool, localWarpAllowed: bool)

  /** `av1_allow_warp` with a caller that asks for the final parameters:
      whether to warp, and the parameters written (`None` when the scaled
      early return leaves them unwritten). */
  function AllowWarp(localParams: WarpParams, warpTypes: WarpTypes, globalParams: WarpParams,
                     buildForObmc: bool, isScaled: bool): (r: (bool, Option<WarpParams>))
    ensures isScaled ==> r == (false, None)
    ensures !isScaled ==> r.1.Some?
    ensures r.0 <==> !isScaled && !buildForObmc
                     && ((warpTypes.localWarpAllowed && !localParams.invalid)
                         || (warpTypes.globalWarpAllowed && !globalParams.invalid))
    ensures !r.0 && !isScaled ==> r.1 == Some(DefaultWarpParams)
    ensures r.0 ==> !r.1.value.invalid
  {
    if isScaled then (false, None)
    else if buildForObmc then (false, Some(DefaultWarpParams))
    else if warpTypes.localWarpAllowed && !localParams.invalid then (true, Some(localParams))
    else if warpTypes.globalWarpAllowed && !globalParams.invalid then (true, Some(globalParams))
    else (false, Some(DefaultWarpParams))
  }

  /** Local warp takes priority: whenever it is usable the block's own
      model is chosen, and the global model only otherwise. */
  lemma LocalWarpTakesPriority(localParams: WarpParams, warpTypes: WarpTypes, globalParams: WarpParams,
                               buildForObmc: bool, isScaled: bool)
    requires !isScaled && !buildForObmc
    ensures (warpTypes.localWarpAllowed && !localParams.invalid)
            ==> AllowWarp(localParams, warpTypes, globalParams, buildForObmc, isScaled) == (true, Some(localParams))
    ensures (!(warpTypes.localWarpAllowed && !localParams.invalid)
             && warpTypes.globalWarpAllowed && !globalParams.invalid)
            ==> AllowWarp(localParams, warpTypes, globalParams, buildForObmc, isScaled) == (true, Some(globalParams))
  {
  }
}
