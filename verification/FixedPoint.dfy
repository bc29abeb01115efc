/** SILK fixed-point primitives.

    Each is written once for two kinds of arithmetic: Machine, where every 32-bit result
    wraps and every int16 cast truncates, and Exact, over unbounded integers. Module Checked
    holds a third reading, which fails at the first result that does not fit. */
module FixedPoint {
  import opened Bytes

  datatype Arithmetic = Machine | Exact

  const INT32_MAX := 0x7FFF_FFFF
  const INT16_MAX := 0x7FFF

  predicate Int16(x: int) {
    -0x8000 <= x < 0x8000
  }

  predicate Int32(x: int) {
    -0x8000_0000 <= x < 0x8000_0000
  }

  /** A 32-bit result. */
  function W(m: Arithmetic, x: int): int {
    if m.Machine? then (x + 0x8000_0000) % 0x1_0000_0000 - 0x8000_0000 else x
  }

  /** A cast to int16. */
  function W16(m: Arithmetic, x: int): int {
    if m.Machine? then (x + 0x8000) % 0x1_0000 - 0x8000 else x
  }

  lemma Fits32(m: Arithmetic, x: int)
    ensures Int32(x) ==> W(m, x) == x
    ensures m.Machine? ==> Int32(W(m, x))
  {
  }

  lemma Fits16(m: Arithmetic, x: int)
    ensures Int16(x) ==> W16(m, x) == x
    ensures m.Machine? ==> Int16(W16(m, x))
  {
  }

  /** In range, both readings leave a number alone. */
  lemma Same32(x: int)
    requires Int32(x)
    ensures W(Machine, x) == x && W(Exact, x) == x
  {
  }

  lemma Same16(x: int)
    requires Int16(x)
    ensures W16(Machine, x) == x && W16(Exact, x) == x
  {
  }

  function Sat16(a: int): (r: int)
    ensures Int16(r)
    ensures Int16(a) ==> r == a
  {
    if a < -0x8000 then -0x8000 else if a > INT16_MAX then INT16_MAX else a
  }

  function Smulwb(m: Arithmetic, a: int, b: int): int {
    W(m, a * W16(m, b) / 0x1_0000)
  }

  function Smlawb(m: Arithmetic, a: int, b: int, c: int): int {
    W(m, a + b * W16(m, c) / 0x1_0000)
  }

  function Smulww(m: Arithmetic, a: int, b: int): int {
    W(m, a * b / 0x1_0000)
  }

  function Smulbb(m: Arithmetic, a: int, b: int): int {
    W(m, W16(m, a) * W16(m, b))
  }

  function Smlabb(m: Arithmetic, a: int, b: int, c: int): int {
    W(m, a + W16(m, b) * W16(m, c))
  }

  /** Unsigned addition; a result with the top bit set saturates. */
  function AddPosSat32(m: Arithmetic, a: int, b: int): int {
    if m.Exact? then Min(a + b, INT32_MAX)
    else
      var sum := (a % 0x1_0000_0000 + b % 0x1_0000_0000) % 0x1_0000_0000;
      if sum >= 0x8000_0000 then INT32_MAX else sum
  }

  /** Of two nonnegative numbers: the sum, capped. */
  lemma AddPosSatCaps(m: Arithmetic, a: int, b: int)
    requires 0 <= a <= INT32_MAX && 0 <= b <= INT32_MAX
    ensures AddPosSat32(m, a, b) == Min(a + b, INT32_MAX)
  {
  }

  /** Integer division rounding towards zero. */
  function Div32(m: Arithmetic, a: int, b: int): int
    requires b != 0
  {
    W(m, if a >= 0 then a / b else -(-a / b))
  }

  /** (a >> (shift - 1) + 1) >> 1, for shift above 1. */
  function RshiftRound11(m: Arithmetic, a: int): int {
    W(m, a / 0x400 + 1) / 2
  }

  // ---- Logarithm and square root ----

  function Log2(n: nat): (e: nat)
    requires n > 0
  {
    if n == 1 then 0 else 1 + Log2(n / 2)
  }

  lemma {:induction false} Log2Bounds(n: nat)
    requires n > 0
    ensures Pow2(Log2(n)) <= n < 2 * Pow2(Log2(n))
  {
    if n > 1 {
      Log2Bounds(n / 2);
    }
  }

  lemma {:induction false} Pow2Monotone(a: nat, b: nat)
    requires a <= b
    ensures Pow2(a) <= Pow2(b)
  {
    if a < b {
      Pow2Monotone(a, b - 1);
    }
  }

  lemma PowersOf2()
    ensures Pow2(4) == 16 && Pow2(24) == 0x100_0000 && Pow2(31) == 0x8000_0000
  {
    assert Pow2(8) == 0x100;
    assert Pow2(16) == 0x1_0000;
    assert Pow2(24) == 0x100_0000;
  }

  lemma Log2Below(n: nat, e: nat)
    requires 0 < n < Pow2(e)
    ensures Log2(n) < e
  {
    Log2Bounds(n);
    if Log2(n) >= e {
      Pow2Monotone(e, Log2(n));
    }
  }

  lemma Log2AtLeast(n: nat, e: nat)
    requires n >= Pow2(e) > 0
    ensures Log2(n) >= e
  {
    Log2Bounds(n);
    if Log2(n) < e {
      Pow2Monotone(Log2(n) + 1, e);
    }
  }

  function Clz32(x: int32): (r: int)
    ensures r <= 32
  {
    if x < 0 then 0 else if x == 0 then 32 else 31 - Log2(x)
  }

  lemma ClzRange(x: int32)
    ensures 0 <= Clz32(x) <= 32
  {
    if x > 0 {
      PowersOf2();
      Log2Below(x, 31);
    }
  }

  /** The 32 bits rotated right. */
  function Ror32(x: int32, rot: int): int {
    var u, r := x % 0x1_0000_0000, rot % 32;
    W(Machine, Rotated(u, Pow2(r), Pow2(32 - r)))
  }

  function Rotated(u: nat, right: int, left: int): int
    requires right >= 1
  {
    u / right + u % right * left
  }

  /** The seven bits below the leading one. */
  function Frac(x: int32): (f: int)
    ensures 0 <= f < 128
  {
    Ror32(x, 24 - Clz32(x)) % 128
  }

  /** Approximates 128 * log2(x). */
  function Lin2Log(m: Arithmetic, x: int32): int {
    LogCurve(m, Frac(x), 31 - Clz32(x))
  }

  function LogCurve(m: Arithmetic, f: int, e: int): int {
    W(m, Smlawb(m, f, f * (128 - f), 179) + W(m, e * 128))
  }

  lemma Product(a: int, b: int, lo: int, hi: int)
    requires 0 <= a && lo <= b <= hi
    ensures a * lo <= a * b <= a * hi
  {
  }

  lemma CurveBelowOctave(f: int, g: int)
    requires 0 <= f < 128 && g == f * (128 - f)
    ensures 0 <= g <= 0x4000 && 0 <= g * 179 / 0x1_0000 <= 127 - f
  {
    var d := 128 - f;
    Product(d, f, 0, 127);
    assert g * 179 <= d * 127 * 179 < d * 0x1_0000;
  }

  /** The approximation stays inside the octave of its argument, in both arithmetics. */
  lemma Lin2LogInOctave(m: Arithmetic, x: int32)
    requires x > 0
    ensures 128 * Log2(x) <= Lin2Log(m, x) <= 128 * Log2(x) + 127
    ensures Lin2Log(m, x) == Lin2Log(Exact, x)
  {
    ClzRange(x);
    LogCurveInOctave(m, Frac(x), Log2(x));
  }

  lemma LogCurveInOctave(m: Arithmetic, f: int, e: nat)
    requires 0 <= f < 128 && e <= 31
    ensures 128 * e <= LogCurve(m, f, e) <= 128 * e + 127
    ensures LogCurve(m, f, e) == LogCurve(Exact, f, e)
  {
    var g := f * (128 - f);
    CurveBelowOctave(f, g);
    Fits16(m, 179);
    Fits32(m, f + g * 179 / 0x1_0000);
    Fits32(m, e * 128);
    Fits32(m, f + g * 179 / 0x1_0000 + e * 128);
  }

  lemma {:induction false} Pow2Adds(a: nat, b: nat)
    ensures Pow2(a + b) == Pow2(a) * Pow2(b)
  {
    if a > 0 {
      Pow2Adds(a - 1, b);
      assert a + b - 1 == (a - 1) + b;
    }
  }

  /** x lies between (128 + f) / 128 and (129 + f) / 128 of p. */
  predicate Mantissa(x: int, p: int, f: int) {
    p * (128 + f) <= 128 * x < p * (129 + f)
  }

  /** Frac is the mantissa of x over its leading power of two. */
  lemma FracIsMantissa(x: int32, e: nat)
    requires x > 0 && e == Log2(x)
    ensures Mantissa(x, Pow2(e), Frac(x))
  {
    Log2Bounds(x);
    PowersOf2();
    if e > 30 {
      Pow2Monotone(31, e);
    } else if e >= 7 {
      LargeMantissa(x, e);
    } else {
      SmallMantissa(x, e);
    }
  }

  lemma LargeMantissa(x: int32, e: nat)
    requires x > 0 && 7 <= e == Log2(x) <= 30 && Pow2(e) <= x < 2 * Pow2(e)
    ensures Mantissa(x, Pow2(e), Frac(x))
  {
    Pow2Adds(7, e - 7);
    Pow2Adds(8, 31 - e);
    assert Pow2(7) == 128 && Pow2(8) == 256;
    FracOfLarge(x, e, e - 7, Pow2(e), Pow2(e - 7), Pow2(39 - e), Pow2(31 - e));
  }

  lemma SmallMantissa(x: int32, e: nat)
    requires x > 0 && e == Log2(x) < 7 && Pow2(e) <= x < 2 * Pow2(e)
    ensures Mantissa(x, Pow2(e), Frac(x))
  {
    Pow2Adds(7 - e, e);
    assert Pow2(7) == 128;
    Pow2Monotone(e + 1, e + 25);
    FracOfSmall(x, e, e + 25, Pow2(e), Pow2(7 - e), Pow2(e + 25));
  }

  lemma FracOfLarge(x: int32, e: nat, r: nat, top: int, p: int, left: int, k: int)
    requires x > 0 && e == Log2(x) <= 30 && e == r + 7 && p == Pow2(r) && left == Pow2(32 - r)
    requires top == 128 * p && left == 256 * k && top <= x < 2 * top
    ensures Mantissa(x, top, Frac(x))
  {
    FracForm(x, e, r);
    RotatedRight(x, p, top, left, k, Frac(x));
  }

  lemma FracOfSmall(x: int32, e: nat, r: nat, p: int, c: int, right: int)
    requires x > 0 && e == Log2(x) < 7 && r == e + 25 && c == Pow2(32 - r) && right == Pow2(r)
    requires 1 <= p <= x < 2 * p <= right && c * p == 128
    ensures Mantissa(x, p, Frac(x))
  {
    FracForm(x, e, r);
    RotatedLeft(x, right, c, p, Frac(x));
  }

  lemma FracForm(x: int32, e: nat, r: nat)
    requires x > 0 && e == Log2(x) <= 30 && r == (e - 7) % 32
    ensures Frac(x) == Rotated(x, Pow2(r), Pow2(32 - r)) % 128
  {
    assert 24 - Clz32(x) == e - 7;
    RotationForm(x, e - 7, r);
  }

  lemma RotationForm(x: int32, rot: int, r: nat)
    requires x > 0 && r == rot % 32
    ensures Ror32(x, rot) % 128 == Rotated(x, Pow2(r), Pow2(32 - r)) % 128
  {
    SmallDivision(x, 0x1_0000_0000);
    WrapKeepsLow7(Rotated(x, Pow2(r), Pow2(32 - r)));
  }

  lemma RotatedRight(x: nat, p: int, top: int, left: int, k: int, f: int)
    requires p >= 1 && top == 128 * p && left == 256 * k && top <= x < 2 * top
    requires f == Rotated(x, p, left) % 128
    ensures Mantissa(x, top, f)
  {
    hide Rotated;
    RotatedForm(x, p, left, k);
    MultipleOf128(x / p, x % p * (2 * k), Rotated(x, p, left));
    LeadingSeven(x, p, x / p);
    MantissaOf(x, p, x / p);
  }

  lemma RotatedForm(x: nat, p: int, left: int, k: int)
    requires p >= 1 && left == 256 * k
    ensures Rotated(x, p, left) == x / p + 128 * (x % p * (2 * k))
  {
    LeftPart(x % p, k);
  }

  lemma LeftPart(low: int, k: int)
    ensures low * (256 * k) == 128 * (low * (2 * k))
  {
  }

  lemma MantissaOf(x: int, p: int, q: int)
    requires 128 * p * q <= 128 * x < 128 * p * (q + 1) && 128 <= q < 256
    ensures Mantissa(x, 128 * p, q % 128)
  {
    assert q % 128 == q - 128;
  }

  lemma RotatedLeft(x: nat, right: int, c: int, p: int, f: int)
    requires 1 <= p <= x < 2 * p <= right && c >= 1 && c * p == 128
    requires f == Rotated(x, right, c) % 128
    ensures Mantissa(x, p, f)
  {
    SmallDivision(x, right);
    Product(c, x, p, 2 * p - 1);
    assert c * (2 * p - 1) == 256 - c;
    assert f == x * c - 128;
    assert p * (x * c) == (c * p) * x;
  }

  lemma SmallDivision(x: nat, p: int)
    requires x < p
    ensures x / p == 0 && x % p == x
  {
  }

  lemma LeadingSeven(x: int, p: int, q: int)
    requires p >= 1 && q == x / p && 128 * p <= x < 256 * p
    ensures 128 <= q < 256
    ensures 128 * p * q <= 128 * x < 128 * p * (q + 1)
  {
    assert q * p <= x < (q + 1) * p by { assert x == q * p + x % p; }
    if q < 128 {
      Product(p, q + 1, q + 1, 128);
    }
    if q >= 256 {
      Product(p, q, 256, q);
    }
  }

  lemma MultipleOf128(v: int, k: int, t: int)
    requires t == v + 128 * k
    ensures t % 128 == v % 128
  {
  }

  lemma WrapKeepsLow7(v: int)
    ensures W(Machine, v) % 128 == v % 128
  {
    var q := (v + 0x8000_0000) / 0x1_0000_0000;
    assert W(Machine, v) == v - q * 0x1_0000_0000;
    MultipleOf128(v, -q * 0x200_0000, W(Machine, v));
  }

  /** The curve rises with the mantissa. */
  lemma {:induction false} CurveRises(f: int, f': int)
    requires 0 <= f <= f' < 128
    ensures f + f * (128 - f) * 179 / 0x1_0000 <= f' + f' * (128 - f') * 179 / 0x1_0000
    decreases f' - f
  {
    if f < f' {
      CurveRises(f, f' - 1);
      var h := f' - 1;
      assert f' * (128 - f') == h * (128 - h) + 127 - 2 * h;
    }
  }

  /** The logarithm never falls as its argument rises. */
  lemma Lin2LogRises(x: int32, y: int32)
    requires 0 < x <= y
    ensures Lin2Log(Machine, x) <= Lin2Log(Machine, y)
  {
    var e, e' := Log2(x), Log2(y);
    Lin2LogInOctave(Machine, x);
    Lin2LogInOctave(Machine, y);
    Log2Bounds(x);
    Log2Bounds(y);
    if e > e' {
      Pow2Monotone(e' + 1, e);
    } else if e == e' {
      FracIsMantissa(x, e);
      FracIsMantissa(y, e);
      if Frac(x) > Frac(y) {
        Product(Pow2(e), 129 + Frac(y), 129 + Frac(y), 128 + Frac(x));
      }
      ClzRange(x);
      ClzRange(y);
      CurveRises(Frac(x), Frac(y));
    }
  }

  function SqrtApprox(m: Arithmetic, x: int32): int {
    if x <= 0 then 0
    else
      ClzRange(x);
      var lz := Clz32(x);
      var y := (if lz % 2 != 0 then 32768 else 46214) / Pow2(lz / 2);
      Smlawb(m, y, y, Smulbb(m, 213, Frac(x)))
  }

  /** Below 2^24 the approximation stays below 4096, in both arithmetics. */
  lemma SqrtApproxBound(m: Arithmetic, x: int32)
    requires x < 0x100_0000
    ensures 0 <= SqrtApprox(m, x) < 0x1000
    ensures SqrtApprox(m, x) == SqrtApprox(Exact, x)
  {
    if x > 0 {
      var lz := Clz32(x);
      ClzRange(x);
      PowersOf2();
      Log2Below(x, 24);
      Pow2Monotone(4, lz / 2);
      var top := if lz % 2 != 0 then 32768 else 46214;
      QuotientBelow(top, Pow2(lz / 2));
      RootCorrection(m, top / Pow2(lz / 2), Frac(x));
      RootCorrection(Exact, top / Pow2(lz / 2), Frac(x));
    }
  }

  lemma QuotientBelow(top: int, p: int)
    requires 0 <= top <= 46214 && p >= 16
    ensures 0 <= top / p <= 2888
  {
    var q := top / p;
    assert q * p <= top;
    if q > 2888 {
      Product(q, p, 16, p);
    }
  }

  lemma RootCorrection(m: Arithmetic, y: int, f: int)
    requires 0 <= y <= 2888 && 0 <= f < 128
    ensures Smlawb(m, y, y, Smulbb(m, 213, f)) == y + y * (213 * f) / 0x1_0000
    ensures 0 <= y + y * (213 * f) / 0x1_0000 < 0x1000
  {
    Product(y, 213 * f, 0, 213 * 127);
    assert y * (213 * 127) <= 2888 * (213 * 127);
    Fits16(m, 213);
    Fits16(m, f);
    Fits32(m, 213 * f);
    Fits16(m, 213 * f);
    Fits32(m, y + y * (213 * f) / 0x1_0000);
  }

  // ---- Sigmoid ----

  const SLOPE := [237, 153, 73, 30, 12, 7]
  const POSITIVE := [16384, 23955, 28861, 31213, 32178, 32548]
  const NEGATIVE := [16384, 8812, 3906, 1554, 589, 219]

  /** Piecewise-linear sigmoid. */
  function SigmQ15(x: int32): (r: int)
    requires x > -0x8000_0000
  {
    if x < 0 then
      if -x >= 192 then 0 else NEGATIVE[-x / 32] - SLOPE[-x / 32] * (-x % 32)
    else if x >= 192 then 32767 else POSITIVE[x / 32] + SLOPE[x / 32] * (x % 32)
  }

  lemma SigmRange(x: int32)
    requires x >= -128
    ensures 589 <= SigmQ15(x) <= 32767
  {
  }

  lemma SigmRisesAbove(x: int32)
    requires 0 <= x < INT32_MAX
    ensures SigmQ15(x) <= SigmQ15(x + 1) <==> x != 159
  {
    if x < 192 {
      assert (x + 1) / 32 == if x % 32 == 31 then x / 32 + 1 else x / 32;
    }
  }

  lemma SigmRisesBelow(n: int32)
    requires 0 < n
    ensures SigmQ15(-n) <= SigmQ15(1 - n) <==> n != 160
  {
    if n <= 192 {
      assert (n - 1) / 32 == if n % 32 == 0 then n / 32 - 1 else n / 32;
    }
  }

  /** The sigmoid rises at every step but two: it drops between 159 and 160, and between
      -160 and -159. */
  lemma SigmRisesIff(x: int32)
    requires -0x8000_0000 < x < INT32_MAX
    ensures SigmQ15(x) <= SigmQ15(x + 1) <==> x != 159 && x != -160
  {
    hide SigmQ15;
    if x >= 0 {
      SigmRisesAbove(x);
    } else {
      SigmRisesBelow(-x);
    }
  }
}
