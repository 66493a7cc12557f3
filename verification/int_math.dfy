/** Integer helpers shared by every model: the codec's clamp/min/max macros,
    powers of two, its rounding shifts, and C's truncating division. */
module IntMath {

  function Min(a: int, b: int): int { if a < b then a else b }

  function Max(a: int, b: int): int { if a > b then a else b }

  function Abs(a: int): nat { if a < 0 then -a else a }

  /** The codec's `clamp`: below `lo` gives `lo`, above `hi` gives `hi`. */
  function Clamp(v: int, lo: int, hi: int): (r: int)
    requires lo <= hi
    ensures lo <= r <= hi
    ensures lo <= v <= hi ==> r == v
    ensures v < lo ==> r == lo
    ensures v > hi ==> r == hi
  {
    if v < lo then lo else if v > hi then hi else v
  }

  function Pow2(n: nat): (r: nat)
    ensures r >= 1
  {
    if n == 0 then 1 else 2 * Pow2(n - 1)
  }

  /** The powers of two the models shift by, unfolded once here so that
      callers need not unroll `Pow2` themselves. */
  lemma Pow2Values()
    ensures Pow2(1) == 2 && Pow2(2) == 4 && Pow2(3) == 8 && Pow2(4) == 16
    ensures Pow2(5) == 32 && Pow2(6) == 64 && Pow2(7) == 128 && Pow2(8) == 256
    ensures Pow2(14) == 16384 && Pow2(15) == 32768 && Pow2(16) == 65536
  {
    assert Pow2(1) == 2;
    assert Pow2(2) == 4;
    assert Pow2(3) == 8;
    assert Pow2(4) == 16;
    assert Pow2(5) == 32;
    assert Pow2(6) == 64;
    assert Pow2(7) == 128;
    assert Pow2(8) == 256;
    assert Pow2(9) == 512;
    assert Pow2(10) == 1024;
    assert Pow2(11) == 2048;
    assert Pow2(12) == 4096;
    assert Pow2(13) == 8192;
    assert Pow2(14) == 16384;
    assert Pow2(15) == 32768;
  }

  /** Arithmetic right shift of a signed value: Dafny's division by a positive
      divisor rounds toward minus infinity, as the shift does. */
  function Shr(v: int, n: nat): (r: int)
    ensures v >= 0 ==> 0 <= r <= v
  {
    if v >= 0 then DivBetween(v, Pow2(n), 0, v); v / Pow2(n) else v / Pow2(n)
  }

  /** `ROUND_POWER_OF_TWO(v, n)`: add half, then shift. */
  function RoundPow2(v: int, n: nat): int
  {
    (v + Pow2(n) / 2) / Pow2(n)
  }

  /** `ROUND_POWER_OF_TWO_SIGNED(v, n)`: rounds the magnitude, keeps the sign. */
  function RoundPow2Signed(v: int, n: nat): int
  {
    if v < 0 then -RoundPow2(-v, n) else if v == 0 then 0 else RoundPow2(v, n)
  }

  /** C's `/` on signed operands: the quotient is truncated toward zero. */
  function CDiv(a: int, b: int): int
    requires b != 0
  {
    var m := Abs(a) / Abs(b);
    if (a < 0) != (b < 0) then -m else m
  }

  /** `DIVIDE_AND_ROUND_SIGNED(x, y)`: the magnitude |x|/|y| rounded half
      away from zero, carrying the sign of x/y. */
  function DivRoundSigned(x: int, y: int): int
    requires y != 0
  {
    var m := (Abs(x) + Abs(y) / 2) / Abs(y);
    if (x < 0) != (y < 0) then -m else m
  }

  /** Sum of a sequence of integers, first element first. */
  function Sum(s: seq<int>): int
  {
    if |s| == 0 then 0 else s[0] + Sum(s[1..])
  }

  lemma {:induction false} SumAppend(a: seq<int>, b: seq<int>)
    ensures Sum(a + b) == Sum(a) + Sum(b)
  {
    if |a| == 0 {
      assert a + b == b;
    } else {
      assert (a + b)[1..] == a[1..] + b;
      SumAppend(a[1..], b);
    }
  }

  lemma {:induction false} SumOfZeros(s: seq<int>)
    requires forall i :: 0 <= i < |s| ==> s[i] == 0
    ensures Sum(s) == 0
  {
    if |s| > 0 {
      SumOfZeros(s[1..]);
    }
  }

  lemma SumUpdate(s: seq<int>, i: int, v: int)
    requires 0 <= i < |s|
    ensures Sum(s[i := v]) == Sum(s) - s[i] + v
  {
    assert s == s[..i] + [s[i]] + s[i + 1..];
    assert s[i := v] == s[..i] + [v] + s[i + 1..];
    SumAppend(s[..i] + [s[i]], s[i + 1..]);
    SumAppend(s[..i], [s[i]]);
    SumAppend(s[..i] + [v], s[i + 1..]);
    SumAppend(s[..i], [v]);
  }

  lemma PositiveFactor(a: int, n: int)
    requires n > 0 && a * n > 0
    ensures a > 0
  {
  }

  /** Multiplying both sides of an inequality by a non-negative factor. */
  lemma MulLeAny(a: int, b: int, c: nat)
    requires a <= b
    ensures a * c <= b * c
  {
    assert b * c - a * c == (b - a) * c;
  }

  lemma MulLeInt(a: int, b: int, c: nat)
    requires 0 <= a <= b
    ensures a * c <= b * c
  {
  }

  /** Division by a positive divisor preserves order. */
  lemma DivMonotone(x: int, y: int, n: int)
    requires x <= y && n > 0
    ensures x / n <= y / n
  {
    var qx, qy := x / n, y / n;
    assert x == qx * n + x % n && 0 <= x % n < n;
    assert y == qy * n + y % n && 0 <= y % n < n;
    assert (qy + 1) * n == qy * n + n;
    if qy < qx {
      MulLeAny(qy + 1, qx, n);
    }
  }

  lemma {:induction false} Pow2Monotone(n: nat, m: nat)
    requires n <= m
    ensures Pow2(n) <= Pow2(m)
  {
    if n < m {
      Pow2Monotone(n, m - 1);
    }
  }

  /** Dividing by a larger divisor never gives a larger quotient. */
  lemma DivByLarger(a: nat, b: int, c: int)
    requires 0 < b <= c
    ensures a / c <= a / b
  {
    var q := a / c;
    assert c * q <= a;
    MulLeInt(b, c, q);
    MulLeInt(1, b, a);
    DivBetween(a, b, q, a);
  }

  /** Bounds on a quotient follow from bounds on the dividend. */
  lemma DivBetween(x: int, n: int, lo: int, hi: int)
    requires n > 0 && n * lo <= x < n * hi + n
    ensures lo <= x / n <= hi
  {
    var q := x / n;
    var r := x % n;
    assert x == q * n + r && 0 <= r < n;
    assert (q + 1 - lo) * n == q * n + n - n * lo;
    PositiveFactor(q + 1 - lo, n);
    assert (hi + 1 - q) * n == n * hi + n - q * n;
    PositiveFactor(hi + 1 - q, n);
  }

  /** A dividend in [q*m, q*m + m) has quotient q and remainder x - q*m. */
  lemma DivOfRange(x: int, m: int, q: int)
    requires m > 0 && q * m <= x < q * m + m
    ensures x / m == q && x % m == x - q * m
  {
    DivBetween(x, m, q, q);
  }

  /** `DIVIDE_AND_ROUND_SIGNED` rounds to a nearest multiple: the quotient
      times the divisor is within half the divisor of the dividend. */
  lemma DivRoundSignedNearest(x: int, y: int)
    requires y != 0
    ensures -(Abs(y) as int) <= 2 * (x - DivRoundSigned(x, y) * y) <= Abs(y)
  {
    var ax: int, ay: int := Abs(x), Abs(y);
    var m := (ax + ay / 2) / ay;
    RoundedQuotientNear(ax, ay);
    var d := DivRoundSigned(x, y);
    if y < 0 {
      assert d * y == -(d * ay);
    }
    if (x < 0) != (y < 0) {
      assert d * ay == -(m * ay);
    }
    assert d * y == m * ay || d * y == -(m * ay);
  }

  /** The unsigned core of `DIVIDE_AND_ROUND_SIGNED`: (a + b/2) / b times b
      is within half of b from a. */
  lemma RoundedQuotientNear(a: nat, b: int)
    requires b > 0
    ensures -b <= 2 * (a - (a + b / 2) / b * b) <= b - 1
  {
    var s := a + b / 2;
    var m := s / b;
    assert s == m * b + s % b;
    assert 0 <= s % b < b;
    assert b - 1 <= 2 * (b / 2) <= b;
  }

  /** A plane of `h` rows of `w` samples, row i starting at i * stride, fits
      in a buffer of length `len`. */
  predicate PlaneFits(len: int, h: nat, w: nat, stride: nat)
  {
    w <= stride && (h == 0 || (h - 1) * stride + w <= len)
  }

  lemma PlaneIndex(len: int, h: nat, w: nat, stride: nat, i: int, j: int)
    requires PlaneFits(len, h, w, stride) && 0 <= i < h && 0 <= j < w
    ensures 0 <= i * stride + j < len
  {
    MulLeInt(i, h - 1, stride);
  }

  /** Sample (i, j) of a plane walked with its stride. */
  function At(buf: seq<int>, h: nat, w: nat, stride: nat, i: int, j: int): int
    requires PlaneFits(|buf|, h, w, stride) && 0 <= i < h && 0 <= j < w
  {
    PlaneIndex(|buf|, h, w, stride, i, j);
    buf[i * stride + j]
  }
}
