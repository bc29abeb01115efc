/** The parts of the SILK voice-activity detector that one frame passes through: band
    energies, the noise estimator and the activity score. */
module Vad {
  import opened Bytes
  import opened FixedPoint
  import opened FilterBank

  const BANDS := 4
  const NOISE_COEF := 1024
  const NL_MAX := 0x00FF_FFFF

  // Fields that are never assigned and keep their zero value.
  const NOISE_UPDATE_SPEED := 0
  const NON_BINARINESS := 0

  /** Bias of band b: 50, 25, 16, 12. */
  function Bias(b: nat): int {
    50 / (b + 1)
  }

  // ---- Band energy ----

  function SumSquares(m: Arithmetic, xs: seq<int>): int {
    if xs == [] then 0
    else
      var last := xs[|xs| - 1] / 8;
      Smlabb(m, SumSquares(m, xs[..|xs| - 1]), last, last)
  }

  lemma {:induction false} SumSquaresExact(xs: seq<int>)
    requires AllInt16(xs) && |xs| < 128
    ensures SumSquares(Machine, xs) == SumSquares(Exact, xs)
    ensures 0 <= SumSquares(Exact, xs) <= |xs| * 0x100_0000
  {
    if xs != [] {
      var init, last := xs[..|xs| - 1], xs[|xs| - 1];
      SumSquaresExact(init);
      SquareTerm(SumSquares(Exact, init), last / 8, |init|);
    }
  }

  lemma SquareTerm(acc: int, v: int, n: nat)
    requires -0x1000 <= v < 0x1000 && n < 127 && 0 <= acc <= n * 0x100_0000
    ensures Smlabb(Machine, acc, v, v) == acc + v * v && 0 <= acc + v * v <= (n + 1) * 0x100_0000
  {
    Fits16(Machine, v);
    SmallSquare(v);
    Fits32(Machine, acc + v * v);
  }

  lemma SmallSquare(v: int)
    requires -0x1000 <= v <= 0x1000
    ensures 0 <= v * v <= 0x100_0000
  {
    if v >= 0 {
      Product(v, v, 0, 0x1000);
    } else {
      Product(-v, -v, 0, 0x1000);
    }
  }

  datatype Energy = Energy(total: int, carry: int)

  function Subframe(band: seq<int>, i: nat): seq<int>
    requires i < 4
  {
    var len := |band| / 4;
    band[i * len..(i + 1) * len]
  }

  /** Energy after k subframes; the last counts half, since it is carried to the next frame. */
  function Accumulated(m: Arithmetic, carry: int, band: seq<int>, k: nat): int
    requires k <= 4
  {
    if k == 0 then carry
    else
      var e := SumSquares(m, Subframe(band, k - 1));
      AddPosSat32(m, Accumulated(m, carry, band, k - 1), if k < 4 then e else e / 2)
  }

  function BandEnergy(m: Arithmetic, carry: int, band: seq<int>): Energy {
    Energy(Accumulated(m, carry, band, 4), SumSquares(m, Subframe(band, 3)))
  }

  predicate Nonnegative32(x: int) {
    0 <= x <= INT32_MAX
  }

  lemma SubframeExact(band: seq<int>, i: nat)
    requires AllInt16(band) && |band| < 512 && i < 4
    ensures SumSquares(Machine, Subframe(band, i)) == SumSquares(Exact, Subframe(band, i))
    ensures Nonnegative32(SumSquares(Exact, Subframe(band, i)))
  {
    SumSquaresExact(Subframe(band, i));
  }

  lemma {:induction false} AccumulatedExact(carry: int, band: seq<int>, k: nat)
    requires AllInt16(band) && |band| < 512 && Nonnegative32(carry) && k <= 4
    ensures Accumulated(Machine, carry, band, k) == Accumulated(Exact, carry, band, k)
    ensures Nonnegative32(Accumulated(Exact, carry, band, k))
  {
    if k > 0 {
      AccumulatedExact(carry, band, k - 1);
      SubframeExact(band, k - 1);
      var e := SumSquares(Exact, Subframe(band, k - 1));
      AddPosSatCaps(Machine, Accumulated(Exact, carry, band, k - 1), if k < 4 then e else e / 2);
    }
  }

  lemma BandEnergyExact(carry: int, band: seq<int>)
    requires AllInt16(band) && |band| < 512 && Nonnegative32(carry)
    ensures BandEnergy(Machine, carry, band) == BandEnergy(Exact, carry, band)
    ensures Nonnegative32(BandEnergy(Exact, carry, band).total) && Nonnegative32(BandEnergy(Exact, carry, band).carry)
  {
    AccumulatedExact(carry, band, 4);
    SubframeExact(band, 3);
  }

  lemma SumSquaresFits(xs: seq<int>)
    ensures Int32(SumSquares(Machine, xs))
  {
  }

  /** In the machine any band, however loud or long, gets a nonnegative total. */
  lemma BandEnergyFits(carry: int, band: seq<int>)
    ensures Nonnegative32(BandEnergy(Machine, carry, band).total) && Int32(BandEnergy(Machine, carry, band).carry)
  {
    hide SumSquares;
    SumSquaresFits(Subframe(band, 3));
    assert BandEnergy(Machine, carry, band).total
           == AddPosSat32(Machine, Accumulated(Machine, carry, band, 3), SumSquares(Machine, Subframe(band, 3)) / 2);
  }

  /** Measures the band held in x[off..off + len]. */
  method MeasureBand(x: array<int>, off: nat, len: nat, carry: int) returns (e: Energy)
    requires off + len <= x.Length
    ensures e == BandEnergy(Machine, carry, x[off..off + len])
  {
    ghost var band := x[off..off + len];
    var subLen := len / 4;
    var total, sumSquared, subOff := carry, 0, 0;
    for sub := 0 to 4
      invariant subOff == sub * subLen
      invariant total == Accumulated(Machine, carry, band, sub)
      invariant sub > 0 ==> sumSquared == SumSquares(Machine, Subframe(band, sub - 1))
    {
      sumSquared := SumOfSubframe(x, off, band, sub, subLen, subOff);
      total := AddPosSat32(Machine, total, if sub < 3 then sumSquared else sumSquared / 2);
      subOff := subOff + subLen;
    }
    e := Energy(total, sumSquared);
  }

  method SumOfSubframe(x: array<int>, off: nat, ghost band: seq<int>, ghost sub: nat, subLen: nat,
      subOff: nat) returns (sum: int)
    requires off + |band| <= x.Length && band == x[off..off + |band|]
    requires sub < 4 && subLen == |band| / 4 && subOff == sub * subLen
    ensures sum == SumSquares(Machine, Subframe(band, sub))
  {
    SubframeEnds(|band|, sub);
    sum := SumOver(x, off + subOff, subLen);
    assert x[off + subOff..off + subOff + subLen] == Subframe(band, sub);
  }

  lemma SubframeEnds(n: nat, sub: nat)
    requires sub < 4
    ensures sub * (n / 4) + n / 4 == (sub + 1) * (n / 4) <= n
  {
  }

  method SumOver(x: array<int>, from: nat, len: nat) returns (sum: int)
    requires from + len <= x.Length
    ensures sum == SumSquares(Machine, x[from..from + len])
  {
    sum := 0;
    for i := 0 to len
      invariant sum == SumSquares(Machine, x[from..from + i])
    {
      var xTmp := x[from + i] / 8;
      sum := Smlabb(Machine, sum, xTmp, xTmp);
      assert x[from..from + i + 1][..i] == x[from..from + i];
    }
  }

  // ---- Noise estimator ----

  datatype Noise = Noise(nl: int, inv: int)

  predicate NoiseInv(n: Noise, bias: int) {
    1 <= bias <= 50 && 1 <= n.inv <= INT32_MAX / bias && bias <= n.nl <= NL_MAX
  }

  /** Smoothing coefficient: slow upwards, fast downwards, in between by the ratio. */
  function Coef(m: Arithmetic, nl: int, nrg: int, invNrg: int, minCoef: int): int {
    var raw := if nrg > W(m, nl * 8) then NOISE_COEF / 8
               else if nrg < nl then NOISE_COEF
               else Smulwb(m, Smulww(m, invNrg, nl), NOISE_COEF * 2);
    Max(Div32(m, W(m, raw * (100 + NOISE_UPDATE_SPEED)), 100), minCoef)
  }

  function NextInverse(m: Arithmetic, inv: int, invNrg: int, coef: int): int {
    Smlawb(m, inv, W(m, invNrg - inv), coef)
  }

  /** One band's update. */
  function NoiseStep(m: Arithmetic, n: Noise, bias: int, px: int, minCoef: int): (r: Noise)
    requires NoiseInv(n, bias) && Nonnegative32(px) && 0 <= minCoef <= INT16_MAX
    ensures NoiseInv(r, bias)
  {
    NoiseFacts(m, n, bias, px, minCoef);
    var nrg := AddPosSat32(m, px, bias);
    var invNrg := Div32(m, INT32_MAX, nrg);
    var inv := NextInverse(m, n.inv, invNrg, Coef(m, n.nl, nrg, invNrg, minCoef));
    Noise(Min(Div32(m, INT32_MAX, inv), NL_MAX), inv)
  }

  /** Reciprocals of positive 32-bit numbers. */
  lemma Reciprocal(m: Arithmetic, d: int, bias: int)
    requires 1 <= bias <= d <= INT32_MAX
    ensures Div32(m, INT32_MAX, d) == INT32_MAX / d && 1 <= INT32_MAX / d <= INT32_MAX / bias
  {
    var q, top := INT32_MAX / d, INT32_MAX / bias;
    assert q * d <= INT32_MAX < (q + 1) * d;
    assert INT32_MAX < (top + 1) * bias;
    if q > top {
      Product(q, d, bias, d);
      Product(bias, q, top + 1, q);
    }
    if q < 1 {
      Product(d, q + 1, q + 1, 1);
    }
    Fits32(m, q);
  }

  lemma RatioInRange(invNrg: int, nl: int, nrg: int)
    requires 1 <= nl <= nrg && invNrg == INT32_MAX / nrg && invNrg >= 0
    ensures 0 <= invNrg * nl <= INT32_MAX
  {
    Product(invNrg, nl, 0, nrg);
    assert invNrg * nrg <= INT32_MAX;
  }

  /** The two readings of the coefficient agree, within 16 bits. */
  lemma CoefExact(m: Arithmetic, nl: int, nrg: int, invNrg: int, minCoef: int)
    requires 1 <= nl <= NL_MAX && 1 <= nrg <= INT32_MAX && invNrg == INT32_MAX / nrg && 0 <= minCoef <= INT16_MAX
    ensures Coef(m, nl, nrg, invNrg, minCoef) == Coef(Exact, nl, nrg, invNrg, minCoef)
    ensures 0 <= Coef(Exact, nl, nrg, invNrg, minCoef) <= INT16_MAX
  {
    Fits32(m, nl * 8);
    if nl <= nrg <= nl * 8 {
      RatioInRange(invNrg, nl, nrg);
      RatioCoef(m, invNrg * nl, invNrg, nl);
    } else {
      ScaledBy100(m, if nrg > nl * 8 then NOISE_COEF / 8 else NOISE_COEF);
    }
  }

  lemma RatioCoef(m: Arithmetic, product: int, invNrg: int, nl: int)
    requires product == invNrg * nl && 0 <= product <= INT32_MAX
    ensures var raw := Smulwb(m, Smulww(m, invNrg, nl), NOISE_COEF * 2);
            raw == product / 0x1_0000 * (NOISE_COEF * 2) / 0x1_0000 && 0 <= raw <= NOISE_COEF
            && Div32(m, W(m, raw * (100 + NOISE_UPDATE_SPEED)), 100) == raw
  {
    var q := product / 0x1_0000;
    Fits32(m, q);
    Fits16(m, NOISE_COEF * 2);
    Fits32(m, q * (NOISE_COEF * 2) / 0x1_0000);
    ScaledBy100(m, q * (NOISE_COEF * 2) / 0x1_0000);
  }

  lemma ScaledBy100(m: Arithmetic, raw: int)
    requires 0 <= raw <= NOISE_COEF
    ensures Div32(m, W(m, raw * (100 + NOISE_UPDATE_SPEED)), 100) == raw
  {
    Fits32(m, raw * 100);
    Fits32(m, raw);
  }

  /** The inverse noise level moves only between its old value and the reciprocal of the
      band's energy. */
  lemma InverseMovesBetween(m: Arithmetic, inv: int, invNrg: int, coef: int)
    requires 1 <= inv <= INT32_MAX && 1 <= invNrg <= INT32_MAX && 0 <= coef <= INT16_MAX
    ensures NextInverse(m, inv, invNrg, coef) == inv + (invNrg - inv) * coef / 0x1_0000
    ensures Min(inv, invNrg) <= NextInverse(m, inv, invNrg, coef) <= Max(inv, invNrg)
  {
    var d := invNrg - inv;
    if d >= 0 {
      Product(d, coef, 0, 0x1_0000);
    } else {
      Product(-d, coef, 0, 0x1_0000);
      assert d * coef == -(-d * coef);
    }
    Fits32(m, d);
    Fits16(m, coef);
    Fits32(m, inv + d * coef / 0x1_0000);
  }

  /** Everything one update needs: exact arithmetic, no zero divisor, invariant kept. */
  lemma NoiseFacts(m: Arithmetic, n: Noise, bias: int, px: int, minCoef: int)
    requires NoiseInv(n, bias) && Nonnegative32(px) && 0 <= minCoef <= INT16_MAX
    ensures var nrg := AddPosSat32(m, px, bias);
            nrg == Min(px + bias, INT32_MAX) && bias <= nrg <= INT32_MAX
            && var invNrg := Div32(m, INT32_MAX, nrg);
            invNrg == INT32_MAX / nrg
            && var inv := NextInverse(m, n.inv, invNrg, Coef(m, n.nl, nrg, invNrg, minCoef));
            inv == NextInverse(Exact, n.inv, invNrg, Coef(Exact, n.nl, nrg, invNrg, minCoef))
            && 1 <= inv <= INT32_MAX / bias
            && Div32(m, INT32_MAX, inv) == INT32_MAX / inv >= bias
  {
    AddPosSatCaps(m, px, bias);
    var nrg := Min(px + bias, INT32_MAX);
    Reciprocal(m, nrg, bias);
    var invNrg := INT32_MAX / nrg;
    CoefExact(m, n.nl, nrg, invNrg, minCoef);
    var coef := Coef(Exact, n.nl, nrg, invNrg, minCoef);
    InverseMovesBetween(m, n.inv, invNrg, coef);
    InverseMovesBetween(Exact, n.inv, invNrg, coef);
    Reciprocal(m, NextInverse(Exact, n.inv, invNrg, coef), 1);
    ReciprocalOfSmall(NextInverse(Exact, n.inv, invNrg, coef), bias);
  }

  lemma ReciprocalOfSmall(inv: int, bias: int)
    requires 1 <= bias <= 50 && 1 <= inv <= INT32_MAX / bias
    ensures INT32_MAX / inv >= bias
  {
    assert INT32_MAX / bias * bias <= INT32_MAX;
    Product(bias, inv, inv, INT32_MAX / bias);
    if INT32_MAX / inv < bias {
      Product(inv, INT32_MAX / inv + 1, INT32_MAX / inv + 1, bias);
    }
  }

  // ---- How an update moves ----

  /** The inverse level of n after moving coef / 65536 of the way to the reciprocal e. */
  function Moved(inv: int, e: int, coef: int): int {
    inv + (e - inv) * coef / 0x1_0000
  }

  /** A band whose energy, bias included, is above eight times its level is learnt slowly: 128/65536
      of the way, or the minimum if that is more. */
  lemma RisesSlowly(m: Arithmetic, n: Noise, bias: int, px: int, minCoef: int)
    requires NoiseInv(n, bias) && Nonnegative32(px) && 0 <= minCoef <= INT16_MAX
    requires Min(px + bias, INT32_MAX) > 8 * n.nl
    ensures var r := NoiseStep(m, n, bias, px, minCoef);
            && r.inv == Moved(n.inv, INT32_MAX / Min(px + bias, INT32_MAX), Max(128, minCoef))
            && r.nl == Min(INT32_MAX / r.inv, 0x00FF_FFFF)
  {
    StepMoves(m, n, bias, px, minCoef);
    FarCoef(n.nl, Min(px + bias, INT32_MAX), INT32_MAX / Min(px + bias, INT32_MAX), minCoef);
  }

  /** A band below its level is learnt fast: 1024/65536 of the way, or the minimum. */
  lemma FallsFast(m: Arithmetic, n: Noise, bias: int, px: int, minCoef: int)
    requires NoiseInv(n, bias) && Nonnegative32(px) && 0 <= minCoef <= INT16_MAX
    requires px + bias < n.nl
    ensures var r := NoiseStep(m, n, bias, px, minCoef);
            && r.inv == Moved(n.inv, INT32_MAX / (px + bias), Max(1024, minCoef))
            && r.nl == Min(INT32_MAX / r.inv, 0x00FF_FFFF)
  {
    StepMoves(m, n, bias, px, minCoef);
    NearCoef(n.nl, px + bias, INT32_MAX / (px + bias), minCoef);
  }

  /** In between, the fraction is that of level over energy: 1024 * nl / nrg, up to 10. */
  lemma MovesByRatio(m: Arithmetic, n: Noise, bias: int, px: int, minCoef: int) returns (c: int)
    requires NoiseInv(n, bias) && Nonnegative32(px) && 0 <= minCoef <= INT16_MAX
    requires n.nl <= Min(px + bias, INT32_MAX) <= 8 * n.nl
    ensures var nrg := Min(px + bias, INT32_MAX); 0 <= c && c * nrg <= 1024 * n.nl < (c + 10) * nrg
    ensures var r := NoiseStep(m, n, bias, px, minCoef);
            && r.inv == Moved(n.inv, INT32_MAX / Min(px + bias, INT32_MAX), Max(c, minCoef))
            && r.nl == Min(INT32_MAX / r.inv, 0x00FF_FFFF)
  {
    hide NoiseStep, Coef, Moved;
    var nrg := Min(px + bias, INT32_MAX);
    var e := INT32_MAX / nrg;
    StepMoves(m, n, bias, px, minCoef);
    Reciprocal(Exact, nrg, bias);
    c := Fraction(e, n.nl, nrg, minCoef);
  }

  /** How r follows n when a band's energy is nrg, bias included, and least is the smallest coefficient. */
  ghost predicate Learned(n: Noise, nrg: int, least: int, r: Noise)
    requires nrg >= 1 && r.inv >= 1
  {
    && r.nl == Min(INT32_MAX / r.inv, 0x00FF_FFFF)
    && (nrg > 8 * n.nl ==> r.inv == Moved(n.inv, INT32_MAX / nrg, Max(128, least)))
    && (nrg < n.nl ==> r.inv == Moved(n.inv, INT32_MAX / nrg, Max(1024, least)))
    && (n.nl <= nrg <= 8 * n.nl ==>
          exists c: nat :: InRatio(c, n.nl, nrg) && r.inv == Moved(n.inv, INT32_MAX / nrg, Max(c, least)))
  }

  /** c is 1024 * nl / nrg, up to 10. */
  predicate InRatio(c: nat, nl: int, nrg: int) {
    c * nrg <= 1024 * nl < (c + 10) * nrg
  }

  lemma StepLearns(m: Arithmetic, n: Noise, bias: int, px: int, minCoef: int)
    requires NoiseInv(n, bias) && Nonnegative32(px) && 0 <= minCoef <= INT16_MAX
    ensures Learned(n, Min(px + bias, INT32_MAX), minCoef, NoiseStep(m, n, bias, px, minCoef))
  {
    hide NoiseStep, Moved;
    var nrg := Min(px + bias, INT32_MAX);
    var r := NoiseStep(m, n, bias, px, minCoef);
    if nrg > 8 * n.nl {
      RisesSlowly(m, n, bias, px, minCoef);
    } else if nrg < n.nl {
      FallsFast(m, n, bias, px, minCoef);
    } else {
      var c: nat := MovesByRatio(m, n, bias, px, minCoef);
      assert InRatio(c, n.nl, nrg) && r.inv == Moved(n.inv, INT32_MAX / nrg, Max(c, minCoef));
    }
  }

  lemma Fraction(e: int, nl: int, nrg: int, minCoef: int) returns (c: int)
    requires 1 <= nl <= nrg <= 8 * nl && nrg <= INT32_MAX && nl <= NL_MAX && e == INT32_MAX / nrg && e >= 0
    ensures 0 <= c && c * nrg <= 1024 * nl < (c + 10) * nrg
    ensures Coef(Exact, nl, nrg, e, minCoef) == Max(c, minCoef)
  {
    hide Coef;
    var product := e * nl;
    RatioInRange(e, nl, nrg);
    c := product / 0x1_0000 / 32;
    MiddleCoef(nl, nrg, e, minCoef, product);
    RatioBounds(e, nl, nrg, product, c);
  }

  lemma StepMoves(m: Arithmetic, n: Noise, bias: int, px: int, minCoef: int)
    requires NoiseInv(n, bias) && Nonnegative32(px) && 0 <= minCoef <= INT16_MAX
    ensures var e := INT32_MAX / Min(px + bias, INT32_MAX);
            var r := NoiseStep(m, n, bias, px, minCoef);
            && r.inv == Moved(n.inv, e, Coef(Exact, n.nl, Min(px + bias, INT32_MAX), e, minCoef))
            && r.nl == Min(INT32_MAX / r.inv, NL_MAX)
  {
    hide Coef;
    NoiseFacts(m, n, bias, px, minCoef);
    var nrg := Min(px + bias, INT32_MAX);
    Reciprocal(Exact, nrg, bias);
    CoefExact(Exact, n.nl, nrg, INT32_MAX / nrg, minCoef);
    InverseMovesBetween(Exact, n.inv, INT32_MAX / nrg, Coef(Exact, n.nl, nrg, INT32_MAX / nrg, minCoef));
  }

  lemma FarCoef(nl: int, nrg: int, e: int, minCoef: int)
    requires nl >= 1 && nrg > 8 * nl
    ensures Coef(Exact, nl, nrg, e, minCoef) == Max(128, minCoef)
  {
  }

  lemma NearCoef(nl: int, nrg: int, e: int, minCoef: int)
    requires 1 <= nrg < nl
    ensures Coef(Exact, nl, nrg, e, minCoef) == Max(1024, minCoef)
  {
  }

  lemma MiddleCoef(nl: int, nrg: int, e: int, minCoef: int, product: int)
    requires 1 <= nl <= nrg <= 8 * nl && product == e * nl && 0 <= product <= INT32_MAX
    ensures Coef(Exact, nl, nrg, e, minCoef) == Max(product / 0x1_0000 / 32, minCoef)
  {
    RatioCoef(Exact, product, e, nl);
    assert product / 0x1_0000 * 2048 / 0x1_0000 == product / 0x1_0000 / 32;
  }

  lemma RatioBounds(e: int, nl: int, nrg: int, product: int, c: int)
    requires 1 <= nl <= nrg <= INT32_MAX && nl <= NL_MAX && e == INT32_MAX / nrg
    requires product == e * nl && product >= 0 && c == product / 0x1_0000 / 32
    ensures 0 <= c && c * nrg <= 1024 * nl < (c + 10) * nrg
  {
    var a := e * nrg;
    assert a <= INT32_MAX < a + nrg;
    Reordered(e, nl, nrg, product);
    Scaled(c, product, nrg);
    Scale(a, INT32_MAX, nl);
    Scale(INT32_MAX + 1, a + nrg, nl);
    assert (a + nrg) * nl == a * nl + nrg * nl;
    Scale(nl, NL_MAX, nrg);
    RatioLinear(c * nrg, nl, nrg, product * nrg, nrg * nl);
    assert (c + 10) * nrg == c * nrg + 10 * nrg;
  }

  lemma Reordered(e: int, nl: int, nrg: int, product: int)
    requires product == e * nl
    ensures product * nrg == e * nrg * nl
  {
  }

  lemma Scaled(c: int, product: int, nrg: int)
    requires product >= 0 && c == product / 0x1_0000 / 32 && nrg >= 1
    ensures 0 <= c && 0x20_0000 * (c * nrg) <= product * nrg < 0x20_0000 * (c * nrg) + 0x20_0000 * nrg
  {
    var low := product - 0x20_0000 * c;
    assert 0 <= low < 0x20_0000;
    assert product * nrg == 0x20_0000 * (c * nrg) + low * nrg;
    Scale(0, low, nrg);
    Scale(low, 0x1F_FFFF, nrg);
  }

  lemma Scale(a: int, b: int, k: int)
    requires a <= b && k >= 0
    ensures a * k <= b * k
  {
  }

  lemma RatioLinear(cn: int, nl: int, nrg: int, p: int, ln: int)
    requires 0x20_0000 * cn <= p < 0x20_0000 * cn + 0x20_0000 * nrg && p <= INT32_MAX * nl
    requires 0x8000_0000 * nl <= p + ln && ln <= NL_MAX * nrg && nrg >= 1 && nl >= 1
    ensures cn <= 1024 * nl < cn + 10 * nrg
  {
  }

  lemma NoiseStepExact(n: Noise, bias: int, px: int, minCoef: int)
    requires NoiseInv(n, bias) && Nonnegative32(px) && 0 <= minCoef <= INT16_MAX
    ensures NoiseStep(Machine, n, bias, px, minCoef) == NoiseStep(Exact, n, bias, px, minCoef)
  {
    NoiseFacts(Machine, n, bias, px, minCoef);
    NoiseFacts(Exact, n, bias, px, minCoef);
  }

  // ---- Activity score ----

  predicate Levels(xnrg: int, nl: int) {
    Nonnegative32(xnrg) && 1 <= nl <= NL_MAX
  }

  /** Energy over noise, times 256; large energies give up low bits of the noise level. */
  function Ratio(m: Arithmetic, xnrg: int, nl: int): int
    requires Levels(xnrg, nl)
  {
    Fits32(m, nl + 1);
    Fits32(m, nl / 256 + 1);
    if xnrg < 0x80_0000 then Div32(m, W(m, xnrg * 256), W(m, nl + 1))
    else Div32(m, xnrg, W(m, nl / 256 + 1))
  }

  lemma RatioRange(m: Arithmetic, xnrg: int, nl: int)
    requires Levels(xnrg, nl) && xnrg > nl
    ensures 128 <= Ratio(m, xnrg, nl) <= INT32_MAX && Ratio(m, xnrg, nl) == Ratio(Exact, xnrg, nl)
  {
    Fits32(m, nl + 1);
    Fits32(m, nl / 256 + 1);
    if xnrg < 0x80_0000 {
      Fits32(m, xnrg * 256);
      QuotientRange(m, xnrg * 256, nl + 1);
    } else {
      QuotientRange(m, xnrg, nl / 256 + 1);
    }
  }

  lemma QuotientRange(m: Arithmetic, a: int, b: int)
    requires b >= 1 && 128 * b <= a <= INT32_MAX
    ensures Div32(m, a, b) == a / b && 128 <= a / b <= INT32_MAX
  {
    var q := a / b;
    assert q * b <= a < (q + 1) * b;
    if q < 128 {
      Product(b, q + 1, q + 1, 128);
    }
    Product(q, b, 1, b);
    Fits32(m, q);
  }

  /** Signal-to-noise ratio in 128ths of a power of two. */
  function SnrQ7(m: Arithmetic, xnrg: int, nl: int): int
    requires Levels(xnrg, nl) && xnrg > nl
  {
    RatioRange(m, xnrg, nl);
    W(m, Lin2Log(m, Ratio(m, xnrg, nl)) - 8 * 128)
  }

  lemma SnrRange(m: Arithmetic, xnrg: int, nl: int)
    requires Levels(xnrg, nl) && xnrg > nl
    ensures SnrQ7(m, xnrg, nl) == SnrQ7(Exact, xnrg, nl) && -128 <= SnrQ7(Exact, xnrg, nl) <= 2943
  {
    hide Ratio, Lin2Log, Log2;
    RatioRange(m, xnrg, nl);
    var r := Ratio(Exact, xnrg, nl);
    Lin2LogInOctave(m, r);
    Lin2LogInOctave(Exact, r);
    PowersOf2();
    Log2Below(r, 31);
    assert Pow2(7) == 128;
    Log2AtLeast(r, 7);
    Fits32(m, Lin2Log(Exact, r) - 8 * 128);
  }

  predicate AllLevels(xnrg: seq<int>, nl: seq<int>) {
    |xnrg| == |nl| == BANDS && forall b :: 0 <= b < BANDS ==> Levels(xnrg[b], nl[b])
  }

  /** Sum of squared ratios over the first k bands; a band at or below its noise adds nothing. */
  function SnrSum(m: Arithmetic, xnrg: seq<int>, nl: seq<int>, k: nat): int
    requires AllLevels(xnrg, nl) && k <= BANDS
  {
    if k == 0 then 0
    else
      var acc := SnrSum(m, xnrg, nl, k - 1);
      if xnrg[k - 1] > nl[k - 1] then
        var snr := SnrQ7(m, xnrg[k - 1], nl[k - 1]);
        Smlabb(m, acc, snr, snr)
      else acc
  }

  lemma {:induction false} SnrSumRange(m: Arithmetic, xnrg: seq<int>, nl: seq<int>, k: nat)
    requires AllLevels(xnrg, nl) && k <= BANDS
    ensures SnrSum(m, xnrg, nl, k) == SnrSum(Exact, xnrg, nl, k) && 0 <= SnrSum(Exact, xnrg, nl, k) <= k * 0x90_0000
  {
    hide SnrQ7, Smlabb;
    if k > 0 {
      SnrSumRange(m, xnrg, nl, k - 1);
      if xnrg[k - 1] > nl[k - 1] {
        SnrRange(m, xnrg[k - 1], nl[k - 1]);
        SnrSquare(m, SnrSum(Exact, xnrg, nl, k - 1), SnrQ7(Exact, xnrg[k - 1], nl[k - 1]), k);
        SnrSquare(Exact, SnrSum(Exact, xnrg, nl, k - 1), SnrQ7(Exact, xnrg[k - 1], nl[k - 1]), k);
      }
    }
  }

  lemma SnrSquare(m: Arithmetic, acc: int, snr: int, k: nat)
    requires 0 <= acc <= (k - 1) * 0x90_0000 && 1 <= k <= BANDS && -128 <= snr <= 2943
    ensures Smlabb(m, acc, snr, snr) == acc + snr * snr && 0 <= acc + snr * snr <= k * 0x90_0000
  {
    SquareBelow(snr);
    AddedSquare(m, acc, snr, snr * snr);
  }

  lemma SquareBelow(snr: int)
    requires -128 <= snr <= 2943
    ensures 0 <= snr * snr <= 0x90_0000
  {
    if snr >= 0 {
      Product(snr, snr, 0, 3000);
    } else {
      Product(-snr, -snr, 0, 128);
    }
  }

  lemma AddedSquare(m: Arithmetic, acc: int, v: int, p: int)
    requires Int16(v) && p == v * v && Int32(acc + p)
    ensures Smlabb(m, acc, v, v) == acc + p
  {
    Fits16(m, v);
    Fits32(m, acc + p);
  }

  /** From the summed ratios to a score of at most 255. */
  function Score(m: Arithmetic, sum: int): int
    requires 0 <= sum <= 4 * 0x90_0000
  {
    ScoreArguments(m, sum);
    var mean := Div32(m, sum, BANDS);
    var pSnr := W16(m, W(m, 3 * SqrtApprox(m, mean)));
    var factor := Div32(m, W(m, 45000 * (150 - NON_BINARINESS)), 150);
    Min(SigmQ15(W(m, Smulwb(m, factor, pSnr) - 128)) / 128, 255)
  }

  lemma ScoreArguments(m: Arithmetic, sum: int)
    requires 0 <= sum <= 4 * 0x90_0000
    ensures var mean := Div32(m, sum, BANDS);
            mean == sum / BANDS && mean < 0x100_0000
            && var pSnr := W16(m, W(m, 3 * SqrtApprox(m, mean)));
            pSnr == 3 * SqrtApprox(Exact, mean) && 0 <= pSnr <= 0x3000
            && var factor := Div32(m, W(m, 45000 * (150 - NON_BINARINESS)), 150);
            factor == 45000
            && W(m, Smulwb(m, factor, pSnr) - 128) == 45000 * pSnr / 0x1_0000 - 128
            && -128 <= W(m, Smulwb(m, factor, pSnr) - 128) <= 0x3000
  {
    var mean := sum / BANDS;
    Fits32(m, mean);
    SqrtApproxBound(m, mean);
    var pSnr := 3 * SqrtApprox(Exact, mean);
    Fits32(m, pSnr);
    Fits16(m, pSnr);
    Fits32(m, 45000 * 150);
    Fits32(m, 45000);
    Fits32(m, 45000 * pSnr / 0x1_0000);
    Fits32(m, 45000 * pSnr / 0x1_0000 - 128);
  }

  /** The score is always in [4, 255], in both readings. */
  lemma ScoreRange(m: Arithmetic, sum: int)
    requires 0 <= sum <= 4 * 0x90_0000
    ensures 4 <= Score(m, sum) <= 255 && Score(m, sum) == Score(Exact, sum)
  {
    ScoreArguments(m, sum);
    ScoreArguments(Exact, sum);
    SigmRange(45000 * (3 * SqrtApprox(Exact, sum / BANDS)) / 0x1_0000 - 128);
  }
}
