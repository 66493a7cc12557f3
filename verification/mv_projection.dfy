/** Motion vectors and the temporal projection helpers of the reference-MV
    search: scaling a stored MV by a ratio of frame distances, and locating
    the block a projected MV lands on. */
module MvProjection {
  import opened IntMath
  import opened Wrappers

  /** A motion vector in 1/8-pel units, row first as in the codec's `MV`. */
  datatype Mv = Mv(row: int, col: int)

  function Negate(v: Mv): Mv { Mv(-v.row, -v.col) }

  const MaxFrameDistance := 31
  /** Bounds of a valid MV component: `MV_UPP` and `MV_LOW`. */
  const MvUpp := 0x4000
  const MvLow := -0x4000
  /** Largest MV magnitude kept in the stored motion field (`REFMVS_LIMIT`). */
  const RefMvsLimit := 0x0FFF
  const MiSizeLog2 := 2

  /** `div_mult`: 2^14 / d for each frame distance d, with 0 for d = 0. */
  const DivMultTable: seq<int> :=
    [0,    16384, 8192, 5461, 4096, 3276, 2730, 2340,
     2048, 1820,  1638, 1489, 1365, 1260, 1170, 1092,
     1024, 963,   910,  862,  819,  780,  744,  712,
     682,  655,   630,  606,  585,  564,  546,  528]

  /** The multiplier for a distance; 0 for distance 0, at most 2^14. */
  function DivMult(den: int): (m: int)
    requires 0 <= den
    ensures 0 <= m <= 16384
    ensures den == 0 <==> m == 0
  {
    DivMultTable[Min(den, MaxFrameDistance)]
  }

  /** The numerator clamp: positive values are capped at the maximum frame
      distance, the rest floored at its negation. */
  function ClampNum(num: int): (r: int)
    ensures -MaxFrameDistance <= r <= MaxFrameDistance
    ensures num > 0 ==> r > 0
    ensures num < 0 ==> r < 0
    ensures -MaxFrameDistance <= num <= MaxFrameDistance ==> r == num
  {
    if num > 0 then Min(num, MaxFrameDistance) else Max(num, -MaxFrameDistance)
  }

  /** One component scaled by num/den, before the final clamp. */
  function ScaledComponent(v: int, num: int, den: int): (x: int)
    requires 0 <= den
    ensures (num == 0 || den == 0) ==> x == 0
  {
    var k := ClampNum(num) * DivMult(den);
    assert (num == 0 || den == 0) ==> k == 0 && v * k == 0;
    RoundPow2Signed(v * k, 14)
  }

  /** One projected component: scaled, then clamped strictly inside the
      valid MV range. */
  function ProjectComponent(v: int, num: int, den: int): (x: int)
    requires 0 <= den
    ensures MvLow + 1 <= x <= MvUpp - 1
    ensures (num == 0 || den == 0) ==> x == 0
  {
    Clamp(ScaledComponent(v, num, den), MvLow + 1, MvUpp - 1)
  }

  /** `get_mv_projection`: scale `ref` by num/den, each distance clamped to
      the maximum, and clamp the result strictly inside the valid MV range. */
  function Projection(ref: Mv, num: int, den: int): (out: Mv)
    requires 0 <= den
    ensures MvLow + 1 <= out.row <= MvUpp - 1 && MvLow + 1 <= out.col <= MvUpp - 1
    ensures (num == 0 || den == 0) ==> out == Mv(0, 0)
  {
    Mv(ProjectComponent(ref.row, num, den), ProjectComponent(ref.col, num, den))
  }

  lemma RoundPow2SignedOdd(v: int, n: nat)
    ensures RoundPow2Signed(-v, n) == -RoundPow2Signed(v, n)
  {
  }

  lemma ClampOdd(v: int, b: int)
    requires 0 <= b
    ensures Clamp(-v, -b, b) == -Clamp(v, -b, b)
  {
  }

  lemma MulNegate(a: int, b: int)
    ensures a * -b == -(a * b) && -a * b == -(a * b)
  {
  }

  /** Each scaled component is odd in both the MV and the numerator. */
  lemma ScaledComponentOdd(v: int, num: int, den: int)
    requires 0 <= den
    ensures ScaledComponent(-v, num, den) == -ScaledComponent(v, num, den)
    ensures ScaledComponent(v, -num, den) == -ScaledComponent(v, num, den)
  {
    var k := ClampNum(num) * DivMult(den);
    assert ClampNum(-num) == -ClampNum(num);
    MulNegate(ClampNum(num), DivMult(den));
    MulNegate(v, k);
    RoundPow2SignedOdd(v * k, 14);
  }

  /** So is each clamped component, the clamp being symmetric about zero. */
  lemma ProjectComponentOdd(v: int, num: int, den: int)
    requires 0 <= den
    ensures ProjectComponent(-v, num, den) == -ProjectComponent(v, num, den)
    ensures ProjectComponent(v, -num, den) == -ProjectComponent(v, num, den)
  {
    ScaledComponentOdd(v, num, den);
    ClampOdd(ScaledComponent(v, num, den), MvUpp - 1);
  }

  /** Projecting the opposite vector gives the opposite result: the rounding
      and the clamp are both symmetric about zero. */
  lemma ProjectionOfNegation(ref: Mv, num: int, den: int)
    requires 0 <= den
    ensures Projection(Negate(ref), num, den) == Negate(Projection(ref, num, den))
  {
    ProjectComponentOdd(ref.row, num, den);
    ProjectComponentOdd(ref.col, num, den);
  }

  /** Reversing the direction of the numerator distance reverses the
      projected vector. */
  lemma ProjectionOfReversedDistance(ref: Mv, num: int, den: int)
    requires 0 <= den
    ensures Projection(ref, -num, den) == Negate(Projection(ref, num, den))
  {
    ProjectComponentOdd(ref.row, num, den);
    ProjectComponentOdd(ref.col, num, den);
  }

  lemma AbsMul(a: int, b: int)
    ensures Abs(a * b) == Abs(a) * Abs(b)
  {
    if a < 0 && b >= 0 {
      MulNegate(-a, b);
    } else if a >= 0 && b < 0 {
      MulNegate(a, -b);
    } else if a < 0 && b < 0 {
      MulNegate(-a, -b);
      MulNegate(-a, b);
    }
  }

  lemma MulMonotone(a: nat, b: nat, c: nat, d: nat)
    requires a <= c && b <= d
    ensures a * b <= c * d
  {
    assert a * b <= c * b;
    assert c * b <= c * d;
  }

  /** For a stored-field MV (magnitude at most `REFMVS_LIMIT`) the product
      that is rounded fits a signed 32-bit int, so the C arithmetic does not
      overflow. */
  lemma ProjectionProductFitsInt32(v: int, num: int, den: int)
    requires 0 <= den && Abs(v) <= RefMvsLimit
    ensures -0x8000_0000 < v * (ClampNum(num) * DivMult(den)) < 0x8000_0000
  {
    var n := ClampNum(num);
    var d := DivMult(den);
    MulMonotone(Abs(n), d, MaxFrameDistance, 16384);
    AbsMul(n, d);
    MulMonotone(Abs(v), Abs(n * d), RefMvsLimit, MaxFrameDistance * 16384);
    AbsMul(v, n * d);
  }

  /** The MV offset in 8x8 units, truncated toward zero on both sides. */
  function BlockOffset(v: int): int
  {
    if v >= 0 then v / Pow2(4 + MiSizeLog2) else -((-v) / Pow2(4 + MiSizeLog2))
  }

  /** The offset is C's truncating division of the MV by 64. */
  lemma BlockOffsetIsTruncatingDivision(v: int)
    ensures BlockOffset(v) == CDiv(v, 64)
    ensures BlockOffset(-v) == -BlockOffset(v)
  {
    Pow2Values();
  }

  /** `get_block_position`: the half-resolution block the projected MV points
      at, if it lies inside the frame and inside the 8-row by 24-column window
      around the current 8x8 group; `None` for the function's 0 return. */
  function BlockPosition(miRows: int, miCols: int, blkRow: nat, blkCol: nat, mv: Mv, signBias: int)
    : (pos: Option<(int, int)>)
    ensures pos.Some? ==> 0 <= pos.value.0 < Shr(miRows, 1) && 0 <= pos.value.1 < Shr(miCols, 1)
    ensures pos.Some? ==> (blkRow / 8) * 8 <= pos.value.0 < (blkRow / 8) * 8 + 8
    ensures pos.Some? ==> (blkCol / 8) * 8 - 8 <= pos.value.1 < (blkCol / 8) * 8 + 16
  {
    var baseRow := Shr(blkRow, 3) * 8;
    var baseCol := Shr(blkCol, 3) * 8;
    var rowOffset := BlockOffset(mv.row);
    var colOffset := BlockOffset(mv.col);
    var row := if signBias == 1 then blkRow - rowOffset else blkRow + rowOffset;
    var col := if signBias == 1 then blkCol - colOffset else blkCol + colOffset;
    if row < 0 || row >= Shr(miRows, 1) || col < 0 || col >= Shr(miCols, 1) then None
    else if row < baseRow - 0 || row >= baseRow + 8 + 0
         || col < baseCol - (64 / 8) || col >= baseCol + 8 + (64 / 8) then None
    else Some((row, col))
  }

  /** The position found is exactly the displaced block whenever that block
      is inside both the frame and the window, and nothing otherwise. */
  lemma BlockPositionComplete(miRows: int, miCols: int, blkRow: nat, blkCol: nat, mv: Mv, signBias: int)
    ensures var row := blkRow + (if signBias == 1 then -1 else 1) * CDiv(mv.row, 64);
            var col := blkCol + (if signBias == 1 then -1 else 1) * CDiv(mv.col, 64);
            var inside := 0 <= row < miRows / 2 && 0 <= col < miCols / 2
                          && (blkRow / 8) * 8 <= row < (blkRow / 8) * 8 + 8
                          && (blkCol / 8) * 8 - 8 <= col < (blkCol / 8) * 8 + 16;
            BlockPosition(miRows, miCols, blkRow, blkCol, mv, signBias)
              == if inside then Some((row, col)) else None
  {
    BlockOffsetIsTruncatingDivision(mv.row);
    BlockOffsetIsTruncatingDivision(mv.col);
    Pow2Values();
  }

  /** A sign bias of 1 is the same as following the opposite vector. */
  lemma BlockPositionSignBias(miRows: int, miCols: int, blkRow: nat, blkCol: nat, mv: Mv)
    ensures BlockPosition(miRows, miCols, blkRow, blkCol, mv, 1)
         == BlockPosition(miRows, miCols, blkRow, blkCol, Negate(mv), 0)
  {
    BlockOffsetIsTruncatingDivision(mv.row);
    BlockOffsetIsTruncatingDivision(mv.col);
  }
}
