/** The integer arithmetic of the encoder's temporal (ARNR) filter: the
    squared-difference buffer, the 3x3 neighbourhood the Y-only filter
    averages over, the filter-weight adjustments, the accumulator and count
    updates, the final rounded normalisation, and the frame-count limits. */
module TemporalFilter {
  import opened IntMath

  const Int32Max := 0x7FFF_FFFF
  const Uint16Max := 0xFFFF
  const Uint32Max := 0xFFFF_FFFF

  // ---------------------------------------------------------------------
  // compute_square_diff
  // ---------------------------------------------------------------------

  /** The squared absolute difference of two samples. */
  function SquaredDiff(a: int, b: int): (r: int)
    ensures r >= 0 && r == (a - b) * (a - b)
    ensures r == 0 <==> a == b
  {
    var d := if a > b then a - b else b - a;
    assert d * d == (a - b) * (a - b) by {
      if a <= b { assert d == -(a - b); }
    }
    assert d > 0 ==> d * d > 0 by {
      if d > 0 { MulPositive(d, d); }
    }
    d * d
  }

  lemma MulPositive(a: int, b: int)
    requires a > 0 && b > 0
    ensures a * b > 0
  {
  }

  /** The squared difference does not depend on the order of the samples. */
  lemma SquaredDiffSymmetric(a: int, b: int)
    ensures SquaredDiff(a, b) == SquaredDiff(b, a)
  {
    assert (a - b) * (a - b) == (b - a) * (b - a);
  }

  /** A plane of `height` rows of `width` samples starting at `offset` in
      `buf`, rows `stride` apart. */
  predicate PlaneAt(buf: seq<int>, offset: nat, height: nat, width: nat, stride: nat)
  {
    offset <= |buf| && PlaneFits(|buf| - offset, height, width, stride)
  }

  function Sample(buf: seq<int>, offset: nat, height: nat, width: nat, stride: nat, i: int, j: int): int
    requires PlaneAt(buf, offset, height, width, stride) && 0 <= i < height && 0 <= j < width
  {
    At(buf[offset..], height, width, stride, i, j)
  }

  lemma DenseFits(height: nat, width: nat)
    ensures PlaneFits(height * width, height, width, width)
  {
    if height > 0 {
      assert (height - 1) * width + width == height * width;
    }
  }

  /** Row r of the squared-difference buffer. */
  function SquareDiffRow(ref: seq<int>, refOffset: nat, refStride: nat,
                         tgt: seq<int>, tgtOffset: nat, tgtStride: nat,
                         height: nat, width: nat, r: int): (row: seq<int>)
    requires PlaneAt(ref, refOffset, height, width, refStride)
    requires PlaneAt(tgt, tgtOffset, height, width, tgtStride)
    requires 0 <= r < height
    ensures |row| == width
  {
    seq(width, c requires 0 <= c < width =>
      SquaredDiff(Sample(ref, refOffset, height, width, refStride, r, c),
                  Sample(tgt, tgtOffset, height, width, tgtStride, r, c)))
  }

  /** The first n rows of the buffer, row after row. */
  function SquareDiffRows(ref: seq<int>, refOffset: nat, refStride: nat,
                          tgt: seq<int>, tgtOffset: nat, tgtStride: nat,
                          height: nat, width: nat, n: nat): (rows: seq<int>)
    requires PlaneAt(ref, refOffset, height, width, refStride)
    requires PlaneAt(tgt, tgtOffset, height, width, tgtStride)
    requires n <= height
    ensures |rows| == n * width
  {
    if n == 0 then []
    else
      var rows := SquareDiffRows(ref, refOffset, refStride, tgt, tgtOffset, tgtStride, height, width, n - 1)
                  + SquareDiffRow(ref, refOffset, refStride, tgt, tgtOffset, tgtStride, height, width, n - 1);
      assert |rows| == n * width by {
        assert (n - 1) * width + width == n * width;
      }
      rows
  }

  /** Cell (r, c) of the rows is at r * width + c. */
  lemma {:induction false} SquareDiffRowsAt(ref: seq<int>, refOffset: nat, refStride: nat,
                                            tgt: seq<int>, tgtOffset: nat, tgtStride: nat,
                                            height: nat, width: nat, n: nat, r: int, c: int)
    requires PlaneAt(ref, refOffset, height, width, refStride)
    requires PlaneAt(tgt, tgtOffset, height, width, tgtStride)
    requires n <= height && 0 <= r < n && 0 <= c < width
    ensures r * width + c < n * width
    ensures SquareDiffRows(ref, refOffset, refStride, tgt, tgtOffset, tgtStride, height, width, n)[r * width + c]
         == SquaredDiff(Sample(ref, refOffset, height, width, refStride, r, c),
                        Sample(tgt, tgtOffset, height, width, tgtStride, r, c))
    decreases n
  {
    assert (n - 1) * width + width == n * width;
    if r < n - 1 {
      SquareDiffRowsAt(ref, refOffset, refStride, tgt, tgtOffset, tgtStride, height, width, n - 1, r, c);
    }
  }

  /** `compute_square_diff`: the squared differences of the two planes,
      each walked with its own stride, written row-major into a dense
      height x width buffer. */
  method ComputeSquareDiff(ref: seq<int>, refOffset: nat, refStride: nat,
                           tgt: seq<int>, tgtOffset: nat, tgtStride: nat,
                           height: nat, width: nat) returns (sq: seq<int>)
    requires PlaneAt(ref, refOffset, height, width, refStride)
    requires PlaneAt(tgt, tgtOffset, height, width, tgtStride)
    ensures |sq| == height * width && PlaneFits(|sq|, height, width, width)
    ensures sq == SquareDiffRows(ref, refOffset, refStride, tgt, tgtOffset, tgtStride, height, width, height)
    ensures forall i, j :: 0 <= i < height && 0 <= j < width ==>
              At(sq, height, width, width, i, j)
              == SquaredDiff(Sample(ref, refOffset, height, width, refStride, i, j),
                             Sample(tgt, tgtOffset, height, width, tgtStride, i, j))
  {
    DenseFits(height, width);
    sq := [];
    var refIdx, tgtIdx := 0, 0;
    var i := 0;
    while i < height
      invariant 0 <= i <= height
      invariant refIdx == i * refStride && tgtIdx == i * tgtStride
      invariant sq == SquareDiffRows(ref, refOffset, refStride, tgt, tgtOffset, tgtStride, height, width, i)
    {
      var row := [];
      var j := 0;
      while j < width
        invariant 0 <= j <= width
        invariant refIdx == i * refStride + j && tgtIdx == i * tgtStride + j
        invariant row == SquareDiffRow(ref, refOffset, refStride, tgt, tgtOffset, tgtStride, height, width, i)[..j]
      {
        PlaneIndex(|ref| - refOffset, height, width, refStride, i, j);
        PlaneIndex(|tgt| - tgtOffset, height, width, tgtStride, i, j);
        row := row + [SquaredDiff(ref[refOffset + refIdx], tgt[tgtOffset + tgtIdx])];
        refIdx, tgtIdx := refIdx + 1, tgtIdx + 1;
        j := j + 1;
      }
      sq := sq + row;
      assert (i + 1) * refStride == i * refStride + refStride && (i + 1) * tgtStride == i * tgtStride + tgtStride;
      refIdx, tgtIdx := refIdx + (refStride - width), tgtIdx + (tgtStride - width);
      i := i + 1;
    }
    forall r, c | 0 <= r < height && 0 <= c < width
      ensures At(sq, height, width, width, r, c)
              == SquaredDiff(Sample(ref, refOffset, height, width, refStride, r, c),
                             Sample(tgt, tgtOffset, height, width, tgtStride, r, c))
    {
      SquareDiffRowsAt(ref, refOffset, refStride, tgt, tgtOffset, tgtStride, height, width, height, r, c);
    }
  }

  // ---------------------------------------------------------------------
  // The 3x3 neighbourhood of the Y-only filter
  // ---------------------------------------------------------------------

  /** The squared difference at (y, x), or nothing for a position outside
      the plane. */
  function WindowCell(sq: seq<int>, h: nat, w: nat, y: int, x: int): int
    requires |sq| == h * w
  {
    DenseFits(h, w);
    if 0 <= y < h && 0 <= x < w then At(sq, h, w, w, y, x) else 0
  }

  function InPlane(h: nat, w: nat, y: int, x: int): nat
  {
    if 0 <= y < h && 0 <= x < w then 1 else 0
  }

  /** The number of in-bounds rows (or columns) among i-1, i, i+1. */
  function Span(i: int, n: nat): (r: nat)
    requires 0 <= i < n
    ensures 1 <= r <= 3
    ensures r == 3 <==> 0 < i < n - 1
  {
    (if i > 0 then 1 else 0) + 1 + (if i < n - 1 then 1 else 0)
  }

  /** The window row at y, over the columns j-1 .. j-2+k. */
  function RowSum(sq: seq<int>, h: nat, w: nat, y: int, j: int, k: nat): int
    requires |sq| == h * w && k <= 3
  {
    if k == 0 then 0 else RowSum(sq, h, w, y, j, k - 1) + WindowCell(sq, h, w, y, j - 2 + k)
  }

  function RowCount(h: nat, w: nat, y: int, j: int, k: nat): nat
    requires k <= 3
  {
    if k == 0 then 0 else RowCount(h, w, y, j, k - 1) + InPlane(h, w, y, j - 2 + k)
  }

  /** The sum over the rows i-1 .. i-2+k of the window. */
  function WindowSumUpTo(sq: seq<int>, h: nat, w: nat, i: int, j: int, k: nat): int
    requires |sq| == h * w && k <= 3
  {
    if k == 0 then 0 else WindowSumUpTo(sq, h, w, i, j, k - 1) + RowSum(sq, h, w, i - 2 + k, j, 3)
  }

  function WindowCountUpTo(h: nat, w: nat, i: int, j: int, k: nat): nat
    requires k <= 3
  {
    if k == 0 then 0 else WindowCountUpTo(h, w, i, j, k - 1) + RowCount(h, w, i - 2 + k, j, 3)
  }

  /** The sum of the squared differences over the in-bounds cells of the
      3x3 window centred on (i, j). */
  function WindowSum(sq: seq<int>, h: nat, w: nat, i: int, j: int): int
    requires |sq| == h * w
  {
    WindowSumUpTo(sq, h, w, i, j, 3)
  }

  lemma RowCountIsSpan(h: nat, w: nat, y: int, j: int)
    requires 0 <= j < w
    ensures RowCount(h, w, y, j, 3) == if 0 <= y < h then Span(j, w) else 0
  {
    assert RowCount(h, w, y, j, 1) == InPlane(h, w, y, j - 1);
    assert RowCount(h, w, y, j, 2) == InPlane(h, w, y, j - 1) + InPlane(h, w, y, j);
  }

  /** The number of in-bounds cells of the window is the product of the
      row and column spans. */
  lemma WindowCountIsSpanProduct(h: nat, w: nat, i: int, j: int)
    requires 0 <= i < h && 0 <= j < w
    ensures WindowCountUpTo(h, w, i, j, 3) == Span(i, h) * Span(j, w)
  {
    RowCountIsSpan(h, w, i - 1, j);
    RowCountIsSpan(h, w, i, j);
    RowCountIsSpan(h, w, i + 1, j);
    assert WindowCountUpTo(h, w, i, j, 1) == RowCount(h, w, i - 1, j, 3);
    assert WindowCountUpTo(h, w, i, j, 2) == RowCount(h, w, i - 1, j, 3) + RowCount(h, w, i, j, 3);
    var sj := Span(j, w);
    assert Span(i, h) * sj == (if i > 0 then sj else 0) + sj + (if i < h - 1 then sj else 0);
  }

  /** The window loop of `av1_apply_temporal_filter_yonly`: the sum of the
      squared differences and the number of cells over the in-bounds part
      of the 3x3 window. */
  method WindowStats(sq: seq<int>, h: nat, w: nat, i: int, j: int) returns (sum: int, numRefPixels: nat)
    requires |sq| == h * w && 0 <= i < h && 0 <= j < w
    ensures sum == WindowSum(sq, h, w, i, j)
    ensures numRefPixels == Span(i, h) * Span(j, w)
  {
    DenseFits(h, w);
    sum, numRefPixels := 0, 0;
    var wi := -1;
    while wi <= 1
      invariant -1 <= wi <= 2
      invariant sum == WindowSumUpTo(sq, h, w, i, j, wi + 1)
      invariant numRefPixels == WindowCountUpTo(h, w, i, j, wi + 1)
    {
      var wj := -1;
      var rowSum, rowCount := 0, 0;
      while wj <= 1
        invariant -1 <= wj <= 2
        invariant rowSum == RowSum(sq, h, w, i + wi, j, wj + 1)
        invariant rowCount == RowCount(h, w, i + wi, j, wj + 1)
      {
        var y, x := i + wi, j + wj;
        if 0 <= y < h && 0 <= x < w {
          PlaneIndex(|sq|, h, w, w, y, x);
          rowSum := rowSum + sq[y * w + x];
          rowCount := rowCount + 1;
        }
        wj := wj + 1;
      }
      sum, numRefPixels := sum + rowSum, numRefPixels + rowCount;
      wi := wi + 1;
    }
    WindowCountIsSpanProduct(h, w, i, j);
  }

  /** The window covers 9 cells inside the plane, 6 on an edge and 4 at a
      corner, for any plane at least two samples each way. */
  lemma WindowSizes(h: nat, w: nat, i: int, j: int)
    requires 2 <= h && 2 <= w && 0 <= i < h && 0 <= j < w
    ensures (0 < i < h - 1 && 0 < j < w - 1) ==> Span(i, h) * Span(j, w) == 9
    ensures ((i == 0 || i == h - 1) != (j == 0 || j == w - 1)) ==> Span(i, h) * Span(j, w) == 6
    ensures ((i == 0 || i == h - 1) && (j == 0 || j == w - 1)) ==> Span(i, h) * Span(j, w) == 4
  {
  }

  /** A window of non-negative squared differences sums to a non-negative
      value, and only cells inside the plane contribute to it. */
  lemma {:induction false} RowSumNonNegative(sq: seq<int>, h: nat, w: nat, y: int, j: int, k: nat)
    requires |sq| == h * w && k <= 3 && forall n :: 0 <= n < |sq| ==> sq[n] >= 0
    ensures RowSum(sq, h, w, y, j, k) >= 0
  {
    if k > 0 {
      RowSumNonNegative(sq, h, w, y, j, k - 1);
      var x := j - 2 + k;
      if 0 <= y < h && 0 <= x < w {
        DenseFits(h, w);
        PlaneIndex(|sq|, h, w, w, y, x);
      }
    }
  }

  lemma {:induction false} WindowSumUpToNonNegative(sq: seq<int>, h: nat, w: nat, i: int, j: int, k: nat)
    requires |sq| == h * w && k <= 3 && forall n :: 0 <= n < |sq| ==> sq[n] >= 0
    ensures WindowSumUpTo(sq, h, w, i, j, k) >= 0
  {
    if k > 0 {
      WindowSumUpToNonNegative(sq, h, w, i, j, k - 1);
      RowSumNonNegative(sq, h, w, i - 2 + k, j, 3);
    }
  }

  /** A window of non-negative squared differences sums to a non-negative
      value. */
  lemma WindowSumNonNegative(sq: seq<int>, h: nat, w: nat, i: int, j: int)
    requires |sq| == h * w && forall k :: 0 <= k < |sq| ==> sq[k] >= 0
    ensures WindowSum(sq, h, w, i, j) >= 0
  {
    WindowSumUpToNonNegative(sq, h, w, i, j, 3);
  }

  // ---------------------------------------------------------------------
  // Filter weight adjustment
  // ---------------------------------------------------------------------

  /** The last step of both adjustments: a modifier of 16 or more removes
      the frame's weight, a smaller one scales the weight by 16 - modifier. */
  function WeightFromModifier(filterWeight: int, modifier: int, strength: nat): (r: int)
    requires modifier >= 0
    ensures filterWeight >= 0 ==> 0 <= r <= 16 * filterWeight
  {
    var m := Shr(modifier + Pow2(strength) / 2, strength);
    if m >= 16 then 0 else (16 - m) * filterWeight
  }

  /** A larger modifier never gives a larger weight. */
  lemma WeightFromModifierMonotone(filterWeight: int, m1: int, m2: int, strength: nat)
    requires 0 <= m1 <= m2 && filterWeight >= 0
    ensures WeightFromModifier(filterWeight, m1, strength) >= WeightFromModifier(filterWeight, m2, strength)
  {
    var p := Pow2(strength);
    var a, b := (m1 + p / 2) / p, (m2 + p / 2) / p;
    DivMonotone(m1 + p / 2, m2 + p / 2, p);
    if b < 16 {
      MulLeInt(16 - b, 16 - a, filterWeight);
    }
  }

  /** `adjust_filter_weight_yonly`: the modifier is three times the window's
      squared-difference sum, capped at INT32_MAX, averaged over the cells,
      then rounded down by the strength. */
  function AdjustFilterWeightYOnly(filterWeight: int, sumSquareDiff: nat, numRefPixels: int, strength: nat): (r: int)
    requires numRefPixels > 0
    ensures filterWeight >= 0 ==> 0 <= r <= 16 * filterWeight
  {
    WeightFromModifier(filterWeight, Min(sumSquareDiff * 3, Int32Max) / numRefPixels, strength)
  }

  /** A window that matches exactly keeps the full weight 16 * w. */
  lemma YOnlyPerfectMatch(filterWeight: int, numRefPixels: int, strength: nat)
    requires numRefPixels > 0
    ensures AdjustFilterWeightYOnly(filterWeight, 0, numRefPixels, strength) == 16 * filterWeight
  {
    assert Min(0 * 3, Int32Max) / numRefPixels == 0;
    PerfectMatchModifier(filterWeight, strength);
  }

  /** A zero modifier keeps the full weight: the rounding offset is below
      one step of the strength. */
  lemma PerfectMatchModifier(filterWeight: int, strength: nat)
    ensures WeightFromModifier(filterWeight, 0, strength) == 16 * filterWeight
  {
    var p := Pow2(strength);
    DivBetween(p / 2, p, 0, 0);
  }

  /** More squared difference never raises the weight; averaging the same
      difference over more cells never lowers it. */
  lemma YOnlyMonotone(filterWeight: int, ssd1: nat, ssd2: nat, n1: int, n2: int, strength: nat)
    requires filterWeight >= 0 && ssd1 <= ssd2 && 0 < n2 <= n1
    ensures AdjustFilterWeightYOnly(filterWeight, ssd1, n1, strength)
         >= AdjustFilterWeightYOnly(filterWeight, ssd2, n2, strength)
  {
    var a, b := Min(ssd1 * 3, Int32Max), Min(ssd2 * 3, Int32Max);
    DivMonotone(a, b, n1);
    DivAntitone(b, n2, n1);
    WeightFromModifierMonotone(filterWeight, a / n1, b / n2, strength);
  }

  lemma DivAntitone(x: nat, n1: int, n2: int)
    requires 0 < n1 <= n2
    ensures x / n2 <= x / n1
  {
    var q1, q2 := x / n1, x / n2;
    DivBetween(x, n1, q1, q1);
    DivBetween(x, n2, q2, q2);
    MulLeInt(n1, n2, q2);
    if q2 > q1 {
      MulLeInt(q1 + 1, q2, n1);
    }
  }

  /** `filter_weight_adjustment_lookup_table_yuv` and its high bit-depth
      twin: 2^16 (2^32) times 3/n, rounded up, for n reference pixels; 0
      for the counts no window produces. */
  const YuvMultiplier: seq<nat> := [0, 0, 0, 0, 49152, 39322, 32768, 28087, 24576, 21846, 19661, 17874, 0, 15124]
  const YuvMultiplierHighbd: seq<nat> :=
    [0, 0, 0, 0, 3221225472, 2576980378, 2147483648, 1840700270, 1610612736, 1431655766,
     1288490189, 1171354718, 0, 991146300]

  /** Every usable count of reference pixels: 4 .. 11 and 13. */
  predicate UsableRefCount(n: int)
  {
    4 <= n <= 11 || n == 13
  }

  /** The tables hold the fixed-point reciprocal of n/3 exactly where a
      window can occur: the multiplier is ceil(3 * 2^shift / n), so the
      adjustment approximates the Y-only average 3 * ssd / n. */
  lemma YuvMultiplierIsReciprocal(n: int)
    requires 0 <= n <= 13
    ensures |YuvMultiplier| == 14 && |YuvMultiplierHighbd| == 14
    ensures YuvMultiplier[n] != 0 <==> UsableRefCount(n)
    ensures YuvMultiplierHighbd[n] != 0 <==> UsableRefCount(n)
    ensures UsableRefCount(n) ==> YuvMultiplier[n] == (3 * 0x1_0000 + n - 1) / n
    ensures UsableRefCount(n) ==> YuvMultiplierHighbd[n] == (3 * 0x1_0000_0000 + n - 1) / n
  {
  }

  /** `adjust_filter_weight_yuv`: the capped sum times the table's
      reciprocal, shifted back by 16 (32 at high bit depth), then rounded
      down by the strength. The source asserts a count the table covers. */
  function AdjustFilterWeightYuv(filterWeight: int, sumSquareDiff: nat, numRefPixels: int,
                                 strength: nat, highBitdepth: bool): (r: int)
    requires 0 <= numRefPixels <= 13
    requires (if highBitdepth then YuvMultiplierHighbd else YuvMultiplier)[numRefPixels] != 0
    ensures filterWeight >= 0 ==> 0 <= r <= 16 * filterWeight
  {
    WeightFromModifier(filterWeight, YuvModifier(sumSquareDiff, numRefPixels, highBitdepth), strength)
  }

  /** The fixed-point modifier of the YUV path: the capped sum times the
      multiplier, shifted right by 16 (32 at high bit depth). */
  function YuvModifier(sumSquareDiff: nat, numRefPixels: int, highBitdepth: bool): (m: nat)
    requires 0 <= numRefPixels <= 13
  {
    var multiplier: nat := if highBitdepth then YuvMultiplierHighbd[numRefPixels] else YuvMultiplier[numRefPixels];
    var capped: nat := if highBitdepth then Min(sumSquareDiff, Uint32Max) else Min(sumSquareDiff, Uint16Max);
    var unit := if highBitdepth then 0x1_0000_0000 else 0x1_0000;
    MulLeInt(0, capped, multiplier);
    (capped * multiplier) / unit
  }

  lemma YuvModifierMonotone(ssd1: nat, ssd2: nat, n: int, highBitdepth: bool)
    requires ssd1 <= ssd2 && 0 <= n <= 13
    ensures YuvModifier(ssd1, n, highBitdepth) <= YuvModifier(ssd2, n, highBitdepth)
    ensures YuvModifier(0, n, highBitdepth) == 0
  {
    var multiplier: nat := if highBitdepth then YuvMultiplierHighbd[n] else YuvMultiplier[n];
    var c1: nat := if highBitdepth then Min(ssd1, Uint32Max) else Min(ssd1, Uint16Max);
    var c2: nat := if highBitdepth then Min(ssd2, Uint32Max) else Min(ssd2, Uint16Max);
    var unit := if highBitdepth then 0x1_0000_0000 else 0x1_0000;
    MulLeInt(c1, c2, multiplier);
    DivMonotone(c1 * multiplier, c2 * multiplier, unit);
  }

  /** The YUV adjustment is monotone in the squared difference too, and a
      perfect match keeps the full weight. */
  lemma YuvMonotone(filterWeight: int, ssd1: nat, ssd2: nat, n: int, strength: nat, highBitdepth: bool)
    requires filterWeight >= 0 && ssd1 <= ssd2 && 0 <= n <= 13
    requires (if highBitdepth then YuvMultiplierHighbd else YuvMultiplier)[n] != 0
    ensures AdjustFilterWeightYuv(filterWeight, ssd1, n, strength, highBitdepth)
         >= AdjustFilterWeightYuv(filterWeight, ssd2, n, strength, highBitdepth)
    ensures AdjustFilterWeightYuv(filterWeight, 0, n, strength, highBitdepth) == 16 * filterWeight
  {
    YuvModifierMonotone(ssd1, ssd2, n, highBitdepth);
    WeightFromModifierMonotone(filterWeight, YuvModifier(ssd1, n, highBitdepth),
                               YuvModifier(ssd2, n, highBitdepth), strength);
    PerfectMatchModifier(filterWeight, strength);
  }

  /** Every squared difference is non-negative. */
  lemma {:induction false} SquareDiffRowsNonNegative(ref: seq<int>, refOffset: nat, refStride: nat,
                                                     tgt: seq<int>, tgtOffset: nat, tgtStride: nat,
                                                     height: nat, width: nat, n: nat)
    requires PlaneAt(ref, refOffset, height, width, refStride)
    requires PlaneAt(tgt, tgtOffset, height, width, tgtStride)
    requires n <= height
    ensures forall k :: 0 <= k < n * width ==>
              SquareDiffRows(ref, refOffset, refStride, tgt, tgtOffset, tgtStride, height, width, n)[k] >= 0
  {
    if n > 0 {
      SquareDiffRowsNonNegative(ref, refOffset, refStride, tgt, tgtOffset, tgtStride, height, width, n - 1);
    }
  }

  // ---------------------------------------------------------------------
  // Accumulation
  // ---------------------------------------------------------------------

  /** The accumulator and count buffers of a block: one entry per sample
      of every plane, each plane `mbPels` entries long. */
  datatype Accumulators = Accumulators(accum: seq<int>, count: seq<int>)

  /** Whether buffer position k lies in the used part of its plane: the
      first `extents[p]` entries of plane p. */
  predicate Covered(mbPels: nat, extents: seq<nat>, k: nat)
    requires mbPels > 0
  {
    k / mbPels < |extents| && k % mbPels < extents[k / mbPels]
  }

  /** The samples of a plane of an mbHeight x mbWidth block after
      subsampling by (x, y). */
  function PlaneExtent(mbHeight: nat, mbWidth: nat, ss: (nat, nat)): (e: nat)
    ensures e <= mbHeight * mbWidth
  {
    ShrAtMost(mbHeight, ss.1);
    ShrAtMost(mbWidth, ss.0);
    MulLeBoth(Shr(mbHeight, ss.1), mbHeight, Shr(mbWidth, ss.0), mbWidth);
    Shr(mbHeight, ss.1) * Shr(mbWidth, ss.0)
  }

  function PlaneExtents(mbHeight: nat, mbWidth: nat, subsampling: seq<(nat, nat)>): (e: seq<nat>)
    ensures |e| == |subsampling|
    ensures forall p :: 0 <= p < |e| ==> e[p] == PlaneExtent(mbHeight, mbWidth, subsampling[p])
  {
    seq(|subsampling|, p requires 0 <= p < |subsampling| => PlaneExtent(mbHeight, mbWidth, subsampling[p]))
  }

  lemma ShrAtMost(v: nat, n: nat)
    ensures 0 <= Shr(v, n) <= v
  {
    DivBetween(v, Pow2(n), 0, v);
  }

  lemma MulLeBoth(a: nat, b: nat, c: nat, d: nat)
    requires a <= b && c <= d
    ensures 0 <= a * c <= b * d
  {
    MulLeInt(a, b, c);
    MulLeInt(c, d, b);
  }

  /** The accumulators after adding `weight * pred` and `weight` at every
      covered position, the rest untouched. */
  predicate AddedAt(before: Accumulators, after: Accumulators, pred: seq<int>, weight: int,
                    mbPels: nat, extents: seq<nat>)
    requires mbPels > 0 && |before.accum| == |before.count| <= |pred|
  {
    |after.accum| == |before.accum| && |after.count| == |before.count|
    && forall k :: 0 <= k < |before.accum| ==>
         if Covered(mbPels, extents, k)
         then after.accum[k] == before.accum[k] + weight * pred[k] && after.count[k] == before.count[k] + weight
         else after.accum[k] == before.accum[k] && after.count[k] == before.count[k]
  }

  /** Position `offset + n` of plane p, for n below the plane's extent, is
      covered; the rest of the plane is not. */
  lemma CoveredInPlane(mbPels: nat, extents: seq<nat>, p: nat, k: nat)
    requires mbPels > 0 && p < |extents| && extents[p] <= mbPels && p * mbPels <= k < p * mbPels + mbPels
    ensures Covered(mbPels, extents, k) <==> k < p * mbPels + extents[p]
  {
    DivOfRange(k, mbPels, p);
  }

  /** Adds `weight * pred` and `weight` at the h x w samples of one plane,
      stored densely from `offset`, leaving every other entry alone. */
  method AddPlane(acc: Accumulators, pred: seq<int>, weight: int, offset: nat, h: nat, w: nat)
    returns (out: Accumulators)
    requires |acc.accum| == |acc.count| <= |pred| && offset + h * w <= |acc.accum|
    ensures |out.accum| == |acc.accum| && |out.count| == |acc.count|
    ensures forall k :: 0 <= k < |acc.accum| ==>
              if offset <= k < offset + h * w
              then out.accum[k] == acc.accum[k] + weight * pred[k] && out.count[k] == acc.count[k] + weight
              else out.accum[k] == acc.accum[k] && out.count[k] == acc.count[k]
  {
    var accum, count := acc.accum, acc.count;
    var predIdx := 0;
    for i := 0 to h
      invariant predIdx == i * w && |accum| == |acc.accum| && |count| == |acc.count|
      invariant forall k :: 0 <= k < |accum| ==>
                  if offset <= k < offset + predIdx
                  then accum[k] == acc.accum[k] + weight * pred[k] && count[k] == acc.count[k] + weight
                  else accum[k] == acc.accum[k] && count[k] == acc.count[k]
    {
      assert (i + 1) * w <= h * w by {
        MulLeInt(i + 1, h, w);
      }
      for j := 0 to w
        invariant predIdx == i * w + j && |accum| == |acc.accum| && |count| == |acc.count|
        invariant forall k :: 0 <= k < |accum| ==>
                    if offset <= k < offset + predIdx
                    then accum[k] == acc.accum[k] + weight * pred[k] && count[k] == acc.count[k] + weight
                    else accum[k] == acc.accum[k] && count[k] == acc.count[k]
      {
        var idx := offset + predIdx;
        accum := accum[idx := accum[idx] + weight * pred[idx]];
        count := count[idx := count[idx] + weight];
        predIdx := predIdx + 1;
      }
      assert (i + 1) * w == i * w + w;
    }
    out := Accumulators(accum, count);
  }

  /** `av1_apply_temporal_filter_self`: the frame being filtered is its own
      prediction, so every sample of every (subsampled) plane adds the
      frame's weight times the sample to its accumulator and the weight to
      its count. */
  method ApplyTemporalFilterSelf(mbHeight: nat, mbWidth: nat, subsampling: seq<(nat, nat)>,
                                 filterWeight: int, pred: seq<int>, acc: Accumulators)
    returns (out: Accumulators)
    requires mbHeight > 0 && mbWidth > 0
    requires |acc.accum| == |acc.count| == |subsampling| * (mbHeight * mbWidth) <= |pred|
    ensures AddedAt(acc, out, pred, filterWeight, mbHeight * mbWidth, PlaneExtents(mbHeight, mbWidth, subsampling))
  {
    var mbPels := mbHeight * mbWidth;
    var extents := PlaneExtents(mbHeight, mbWidth, subsampling);
    out := acc;
    var planeOffset := 0;
    for plane := 0 to |subsampling|
      invariant planeOffset == plane * mbPels
      invariant |out.accum| == |acc.accum| && |out.count| == |acc.count|
      invariant forall k :: 0 <= k < |acc.accum| ==>
                  if k < planeOffset && Covered(mbPels, extents, k)
                  then out.accum[k] == acc.accum[k] + filterWeight * pred[k] && out.count[k] == acc.count[k] + filterWeight
                  else out.accum[k] == acc.accum[k] && out.count[k] == acc.count[k]
    {
      var h, w := Shr(mbHeight, subsampling[plane].1), Shr(mbWidth, subsampling[plane].0);
      assert h * w == extents[plane] <= mbPels;
      assert planeOffset + mbPels <= |acc.accum| by {
        MulLeInt(plane + 1, |subsampling|, mbPels);
        assert (plane + 1) * mbPels == planeOffset + mbPels;
      }
      var prev := out;
      out := AddPlane(out, pred, filterWeight, planeOffset, h, w);
      forall k | 0 <= k < |acc.accum| && planeOffset <= k < planeOffset + mbPels
        ensures Covered(mbPels, extents, k) <==> k < planeOffset + h * w
      {
        CoveredInPlane(mbPels, extents, plane, k);
      }
      assert (plane + 1) * mbPels == planeOffset + mbPels;
      planeOffset := planeOffset + mbPels;
    }
  }

  // ---------------------------------------------------------------------
  // Y-only filtering
  // ---------------------------------------------------------------------

  /** The sub-block whose weight a pixel uses: its quadrant in row-major
      order when sub-blocks are on, else the single block weight. */
  function SubblockIndex(useSubblock: bool, h: nat, w: nat, i: int, j: int): (r: nat)
    ensures r < 4
    ensures !useSubblock ==> r == 0
    ensures useSubblock ==> (r >= 2 <==> i >= h / 2) && (r % 2 == 1 <==> j >= w / 2)
  {
    if useSubblock then (if i >= h / 2 then 2 else 0) + (if j >= w / 2 then 1 else 0) else 0
  }

  /** The Y-only filter's weight for pixel (i, j): the sub-block weight
      adjusted by the 3x3 window of squared differences around the pixel. */
  function YOnlyPixelWeight(sq: seq<int>, h: nat, w: nat, i: int, j: int, strength: nat,
                            useSubblock: bool, weights: seq<int>): int
    requires |sq| == h * w && 0 <= i < h && 0 <= j < w && |weights| == 4
    requires forall k :: 0 <= k < |sq| ==> sq[k] >= 0
  {
    WindowSumNonNegative(sq, h, w, i, j);
    AdjustFilterWeightYOnly(weights[SubblockIndex(useSubblock, h, w, i, j)], WindowSum(sq, h, w, i, j),
                            Span(i, h) * Span(j, w), strength)
  }

  /** The weight of the pixel stored at k, at row k / w and column k % w. */
  function YOnlyWeightAt(sq: seq<int>, h: nat, w: nat, k: int, strength: nat,
                         useSubblock: bool, weights: seq<int>): int
    requires |sq| == h * w && 0 <= k < h * w && |weights| == 4
    requires forall n :: 0 <= n < |sq| ==> sq[n] >= 0
  {
    DivBetween(k, w, 0, h - 1);
    YOnlyPixelWeight(sq, h, w, k / w, k % w, strength, useSubblock, weights)
  }

  /** The loop state after the first `idx` pixels: those have been
      accumulated, the rest are untouched. */
  ghost predicate YOnlyDone(sq: seq<int>, h: nat, w: nat, strength: nat, useSubblock: bool, weights: seq<int>,
                            pred: seq<int>, acc: Accumulators, accum: seq<int>, count: seq<int>, idx: int)
    requires |sq| == h * w && |weights| == 4 && forall k :: 0 <= k < |sq| ==> sq[k] >= 0
    requires h * w <= |acc.accum| == |acc.count| <= |pred|
  {
    0 <= idx <= h * w && |accum| == |acc.accum| && |count| == |acc.count|
    && (forall k :: 0 <= k < idx ==>
          accum[k] == acc.accum[k] + YOnlyWeightAt(sq, h, w, k, strength, useSubblock, weights) * pred[k]
          && count[k] == acc.count[k] + YOnlyWeightAt(sq, h, w, k, strength, useSubblock, weights))
    && (forall k :: idx <= k < |accum| ==> accum[k] == acc.accum[k] && count[k] == acc.count[k])
  }

  lemma YOnlyStep(sq: seq<int>, h: nat, w: nat, strength: nat, useSubblock: bool, weights: seq<int>,
                  pred: seq<int>, acc: Accumulators, accum: seq<int>, count: seq<int>, idx: int, adjusted: int)
    requires |sq| == h * w && |weights| == 4 && forall k :: 0 <= k < |sq| ==> sq[k] >= 0
    requires h * w <= |acc.accum| == |acc.count| <= |pred|
    requires YOnlyDone(sq, h, w, strength, useSubblock, weights, pred, acc, accum, count, idx) && idx < h * w
    requires adjusted == YOnlyWeightAt(sq, h, w, idx, strength, useSubblock, weights)
    ensures YOnlyDone(sq, h, w, strength, useSubblock, weights, pred, acc,
                      accum[idx := accum[idx] + adjusted * pred[idx]], count[idx := count[idx] + adjusted], idx + 1)
  {
  }

  /** The filtering loop of `av1_apply_temporal_filter_yonly`, given the
      squared-difference buffer: the pixel stored at k adds its adjusted
      weight times the prediction to its accumulator and the weight to its
      count; entries past the plane are untouched. */
  method YOnlyFilterLoop(sq: seq<int>, h: nat, w: nat, strength: nat, useSubblock: bool,
                         weights: seq<int>, pred: seq<int>, acc: Accumulators) returns (out: Accumulators)
    requires |sq| == h * w && |weights| == 4 && forall k :: 0 <= k < |sq| ==> sq[k] >= 0
    requires h * w <= |acc.accum| == |acc.count| <= |pred|
    ensures |out.accum| == |acc.accum| && |out.count| == |acc.count|
    ensures forall k :: 0 <= k < h * w ==>
              out.accum[k] == acc.accum[k] + YOnlyWeightAt(sq, h, w, k, strength, useSubblock, weights) * pred[k]
              && out.count[k] == acc.count[k] + YOnlyWeightAt(sq, h, w, k, strength, useSubblock, weights)
    ensures forall k :: h * w <= k < |acc.accum| ==> out.accum[k] == acc.accum[k] && out.count[k] == acc.count[k]
  {
    DenseFits(h, w);
    var accum, count := acc.accum, acc.count;
    var idx := 0;
    for i := 0 to h
      invariant idx == i * w
      invariant YOnlyDone(sq, h, w, strength, useSubblock, weights, pred, acc, accum, count, idx)
    {
      assert (i + 1) * w <= h * w by {
        MulLeInt(i + 1, h, w);
      }
      for j := 0 to w
        invariant idx == i * w + j
        invariant YOnlyDone(sq, h, w, strength, useSubblock, weights, pred, acc, accum, count, idx)
      {
        var filterWeight := weights[SubblockIndex(useSubblock, h, w, i, j)];
        var sum, numRefPixels := WindowStats(sq, h, w, i, j);
        WindowSumNonNegative(sq, h, w, i, j);
        var adjusted := AdjustFilterWeightYOnly(filterWeight, sum, numRefPixels, strength);
        DivOfRange(idx, w, i);
        assert adjusted == YOnlyWeightAt(sq, h, w, idx, strength, useSubblock, weights);
        YOnlyStep(sq, h, w, strength, useSubblock, weights, pred, acc, accum, count, idx, adjusted);
        accum := accum[idx := accum[idx] + adjusted * pred[idx]];
        count := count[idx := count[idx] + adjusted];
        idx := idx + 1;
      }
      assert (i + 1) * w == i * w + w;
    }
    out := Accumulators(accum, count);
  }

  /** The top-left sample of block (mbRow, mbCol) of h x w in a plane of
      the given stride. */
  function BlockOffset(mbRow: nat, mbCol: nat, h: nat, w: nat, stride: nat): nat
  {
    MulLeInt(0, mbRow, h);
    MulLeInt(0, mbRow * h, stride);
    MulLeInt(0, mbCol, w);
    mbRow * h * stride + mbCol * w
  }

  /** The squared differences between a frame block and a dense
      prediction, as `compute_square_diff` writes them. */
  function SquareDiffBuffer(frame: seq<int>, off: nat, stride: nat, pred: seq<int>, h: nat, w: nat): (sq: seq<int>)
    requires PlaneAt(frame, off, h, w, stride) && h * w <= |pred|
    ensures |sq| == h * w && forall k :: 0 <= k < |sq| ==> sq[k] >= 0
  {
    DenseFits(h, w);
    assert PlaneAt(pred, 0, h, w, w);
    SquareDiffRowsNonNegative(frame, off, stride, pred, 0, w, h, w, h);
    SquareDiffRows(frame, off, stride, pred, 0, w, h, w, h)
  }

  /** `av1_apply_temporal_filter_yonly`: the squared differences between
      the frame's block and the dense prediction, then the filtering loop. */
  method ApplyTemporalFilterYOnly(frame: seq<int>, frameStride: nat, mbRow: nat, mbCol: nat,
                                  mbHeight: nat, mbWidth: nat, ssx: nat, ssy: nat, strength: nat,
                                  useSubblock: bool, weights: seq<int>, pred: seq<int>, acc: Accumulators)
    returns (out: Accumulators)
    requires |weights| == 4
    requires PlaneAt(frame, BlockOffset(mbRow, mbCol, Shr(mbHeight, ssy), Shr(mbWidth, ssx), frameStride),
                     Shr(mbHeight, ssy), Shr(mbWidth, ssx), frameStride)
    requires Shr(mbHeight, ssy) * Shr(mbWidth, ssx) <= |acc.accum| == |acc.count| <= |pred|
    ensures |out.accum| == |acc.accum| && |out.count| == |acc.count|
    ensures var h, w := Shr(mbHeight, ssy), Shr(mbWidth, ssx);
            var sq := SquareDiffBuffer(frame, BlockOffset(mbRow, mbCol, h, w, frameStride), frameStride, pred, h, w);
            forall k :: 0 <= k < h * w ==>
              out.accum[k] == acc.accum[k] + YOnlyWeightAt(sq, h, w, k, strength, useSubblock, weights) * pred[k]
              && out.count[k] == acc.count[k] + YOnlyWeightAt(sq, h, w, k, strength, useSubblock, weights)
  {
    var h, w := Shr(mbHeight, ssy), Shr(mbWidth, ssx);
    var off := BlockOffset(mbRow, mbCol, h, w, frameStride);
    DenseFits(h, w);
    assert PlaneAt(pred, 0, h, w, w);
    var sq := ComputeSquareDiff(frame, off, frameStride, pred, 0, w, h, w);
    assert sq == SquareDiffBuffer(frame, off, frameStride, pred, h, w);
    out := YOnlyFilterLoop(sq, h, w, strength, useSubblock, weights, pred, acc);
  }

  // ---------------------------------------------------------------------
  // Normalisation
  // ---------------------------------------------------------------------

  /** The output sample of `temporal_filter_iterate_c`: the accumulated
      weighted sum divided by the total weight, rounded half up
      (`OD_DIVU(accum + (count >> 1), count)`). */
  function Normalise(accum: nat, count: nat): (r: nat)
    requires count > 0
  {
    (accum + count / 2) / count
  }

  /** The rounded quotient is the nearest integer to accum / count, a tie
      going to the larger one. */
  lemma NormaliseIsNearest(accum: nat, count: nat)
    requires count > 0
    ensures -(count as int) <= 2 * (accum - Normalise(accum, count) * count) < count
  {
    var q := Normalise(accum, count);
    var x := accum + count / 2;
    assert x == q * count + x % count && 0 <= x % count < count;
    assert 2 * (count / 2) == count || 2 * (count / 2) == count - 1;
  }

  /** A weighted average of samples never exceeds the largest of them:
      when every contribution is at most maxValue, so is the output. */
  lemma NormaliseBounded(accum: nat, count: nat, maxValue: nat)
    requires count > 0 && accum <= maxValue * count
    ensures Normalise(accum, count) <= maxValue
  {
    DivBetween(accum + count / 2, count, 0, maxValue);
  }

  /** With the frame filtered only against itself the output is the input
      sample: weight * v over weight rounds back to v. */
  lemma NormaliseSelf(weight: nat, v: nat)
    requires weight > 0
    ensures Normalise(weight * v, weight) == v
  {
    DivOfRange(weight * v + weight / 2, weight, v);
  }

  // ---------------------------------------------------------------------
  // Block counts and ARNR limits
  // ---------------------------------------------------------------------

  /** `BH_LOG2` and `BW_LOG2`: the filter works on 32x32 blocks. */
  const BhLog2 := 5
  const BwLog2 := 5

  /** Rounding up a division: the quotient's blocks cover n, one fewer
      would not. */
  lemma CeilDivBounds(n: nat, b: int)
    requires b > 0
    ensures var q := (n + b - 1) / b;
            q >= 0 && q * b >= n && (n > 0 ==> (q - 1) * b < n) && (n == 0 ==> q == 0)
  {
    var q := (n + b - 1) / b;
    DivBetween(n + b - 1, b, q, q);
    assert q * b == b * q && (q - 1) * b == b * q - b;
    if n == 0 {
      DivOfRange(b - 1, b, 0);
    }
  }

  /** `(n + 2^log2 - 1) >> log2`. */
  function CeilBlocks(n: nat, log2: nat): (r: nat)
    ensures r * Pow2(log2) >= n
    ensures n > 0 ==> (r - 1) * Pow2(log2) < n
    ensures n == 0 ==> r == 0
  {
    var b := Pow2(log2);
    CeilDivBounds(n, b);
    (n + b - 1) / b
  }

  /** `get_rows` and `get_cols`: the number of filter blocks covering a
      height or width, the last one possibly partial. */
  function GetRows(h: nat): (r: nat)
    ensures r * 32 >= h && (h > 0 ==> (r - 1) * 32 < h)
  {
    Pow2Values();
    CeilBlocks(h, BhLog2)
  }

  function GetCols(w: nat): (r: nat)
    ensures r * 32 >= w && (w > 0 ==> (r - 1) * 32 < w)
  {
    Pow2Values();
    CeilBlocks(w, BwLog2)
  }

  /** The number of frames filtered and how many lie before and after the
      alt-ref. */
  datatype ArnrFrames = ArnrFrames(frames: int, bwd: int, fwd: int)

  /** The frame count before the split: the configured maximum, at most 3
      for the second alt-ref, and when the group boost allows fewer, the
      boost's count made odd. */
  function ArnrCount(maxFrames: int, secondAltRef: bool, groupBoost: int): (f: int)
    ensures f <= maxFrames && (secondAltRef ==> f <= 3)
  {
    var frames := if secondAltRef then Min(maxFrames, 3) else maxFrames;
    var cap := CDiv(groupBoost, 150);
    if frames > cap then cap + (if cap % 2 == 0 then 1 else 0) else frames
  }

  /** `adjust_arnr_filter`'s frame limits: half the frames (rounded down)
      on each side, the forward side also losing the odd frame out, each
      side then limited by the frames that exist. */
  function AdjustArnrFilter(maxFrames: int, secondAltRef: bool, groupBoost: int,
                            lookaheadDepth: int, distance: int): (r: ArnrFrames)
    ensures r.frames == r.bwd + 1 + r.fwd
    ensures r.bwd <= distance && r.fwd <= lookaheadDepth - distance - 1
    ensures r.frames <= ArnrCount(maxFrames, secondAltRef, groupBoost)
  {
    var frames := ArnrCount(maxFrames, secondAltRef, groupBoost);
    var framesAfterArf := lookaheadDepth - distance - 1;
    var fwd := Min((frames - 1) / 2, framesAfterArf);
    var bwd := Min(frames / 2, distance);
    ArnrFrames(bwd + 1 + fwd, bwd, fwd)
  }

  /** When the boost limits the count, the count is odd, so the frames
      split evenly around the alt-ref. */
  lemma BoostCapIsOdd(maxFrames: int, secondAltRef: bool, groupBoost: int)
    requires groupBoost >= 0
    requires (if secondAltRef then Min(maxFrames, 3) else maxFrames) > groupBoost / 150
    ensures ArnrCount(maxFrames, secondAltRef, groupBoost) % 2 == 1
    ensures ArnrCount(maxFrames, secondAltRef, groupBoost) >= 1
  {
  }

  /** With enough frames on both sides nothing is clipped: the count is
      kept, split evenly with any extra frame going backward. */
  lemma ArnrSplitUnclipped(maxFrames: int, secondAltRef: bool, groupBoost: int,
                           lookaheadDepth: int, distance: int)
    requires var f := ArnrCount(maxFrames, secondAltRef, groupBoost);
             f >= 1 && f / 2 <= distance && (f - 1) / 2 <= lookaheadDepth - distance - 1
    ensures var r := AdjustArnrFilter(maxFrames, secondAltRef, groupBoost, lookaheadDepth, distance);
            r.frames == ArnrCount(maxFrames, secondAltRef, groupBoost)
            && (r.bwd == r.fwd || r.bwd == r.fwd + 1)
  {
  }
}
