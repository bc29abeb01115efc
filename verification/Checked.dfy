/** The detector with every operation checked: a third reading of its arithmetic, beside Machine
    and Exact, in which a result that does not fit 32 bits, a cast to int16 that loses bits and a
    division by zero make the whole computation fail. A run that succeeds here has overflowed
    nowhere, not even where the result is thrown away. */
module Checked {
  import opened Bytes
  import opened FixedPoint
  import opened FilterBank
  import opened Vad

  // ---- Operations ----

  function Fit32(x: int): Option<int32> {
    if Int32(x) then Some(x) else None
  }

  function Fit16(x: int): Option<int32> {
    if Int16(x) then Some(x) else None
  }

  function Smulwb(a: int, b: int): Option<int32> {
    var b16 :- Fit16(b);
    Fit32(a * b16 / 0x1_0000)
  }

  function Smlawb(a: int, b: int, c: int): Option<int32> {
    var c16 :- Fit16(c);
    Fit32(a + b * c16 / 0x1_0000)
  }

  function Smulww(a: int, b: int): Option<int32> {
    Fit32(a * b / 0x1_0000)
  }

  function Smulbb(a: int, b: int): Option<int32> {
    var a16 :- Fit16(a);
    var b16 :- Fit16(b);
    Fit32(a16 * b16)
  }

  function Smlabb(a: int, b: int, c: int): Option<int32> {
    var product :- Smulbb(b, c);
    Fit32(a + product)
  }

  /** The saturation is meant; a negative operand or a carry out of 32 bits is not. */
  function AddPosSat32(a: int, b: int): Option<int32> {
    if a < 0 || b < 0 || a + b >= 0x1_0000_0000 then None else Some(Min(a + b, INT32_MAX))
  }

  function Div32(a: int, b: int): Option<int32> {
    if b == 0 then None else Fit32(if a >= 0 then a / b else -(-a / b))
  }

  function RshiftRound11(a: int): Option<int32> {
    var rounded :- Fit32(a / 0x400 + 1);
    Fit32(rounded / 2)
  }

  // ---- Logarithm, root, sigmoid ----

  function Lin2Log(x: int32): Option<int32> {
    var f, e := Frac(x), 31 - Clz32(x);
    var g :- Fit32(f * (128 - f));
    var curve :- Smlawb(f, g, 179);
    var octave :- Fit32(e * 128);
    Fit32(curve + octave)
  }

  function SqrtApprox(x: int32): Option<int32> {
    if x <= 0 then Some(0)
    else
      ClzRange(x);
      var y := (if Clz32(x) % 2 != 0 then 32768 else 46214) / Pow2(Clz32(x) / 2);
      var correction :- Smulbb(213, Frac(x));
      Smlawb(y, y, correction)
  }

  function SigmQ15(x: int32): Option<int32> {
    if x < 0 then
      var n :- Fit32(0 - x);
      if n >= 192 then Some(0)
      else
        var fall :- Smulbb(SLOPE[n / 32], n % 32);
        Fit32(NEGATIVE[n / 32] - fall)
    else if x >= 192 then Some(32767)
    else
      var rise :- Smulbb(SLOPE[x / 32], x % 32);
      Fit32(POSITIVE[x / 32] + rise)
  }

  lemma Lin2LogSucceeds(x: int32)
    requires x > 0
    ensures Lin2Log(x) == Some(FixedPoint.Lin2Log(Exact, x))
  {
    ClzRange(x);
    var f, e := Frac(x), 31 - Clz32(x);
    CurveBelowOctave(f, f * (128 - f));
    Same16(179);
  }

  lemma SqrtApproxSucceeds(x: int32)
    requires x < 0x100_0000
    ensures SqrtApprox(x) == Some(FixedPoint.SqrtApprox(Exact, x))
  {
    if x > 0 {
      var lz := Clz32(x);
      ClzRange(x);
      PowersOf2();
      Log2Below(x, 24);
      Pow2Monotone(4, lz / 2);
      var top := if lz % 2 != 0 then 32768 else 46214;
      QuotientBelow(top, Pow2(lz / 2));
      RootSucceeds(top / Pow2(lz / 2), Frac(x));
    }
  }

  lemma RootSucceeds(y: int, f: int)
    requires 0 <= y <= 2888 && 0 <= f < 128
    ensures Smulbb(213, f) == Some(213 * f) && Smlawb(y, y, 213 * f) == Some(y + y * (213 * f) / 0x1_0000)
    ensures FixedPoint.Smlawb(Exact, y, y, FixedPoint.Smulbb(Exact, 213, f)) == y + y * (213 * f) / 0x1_0000
  {
    RootCorrection(Exact, y, f);
  }

  lemma SlopeSucceeds(i: nat, r: nat)
    requires i < 6 && r < 32
    ensures Smulbb(SLOPE[i], r) == Some(SLOPE[i] * r) && 0 <= SLOPE[i] * r <= 237 * 31
  {
    assert 0 <= SLOPE[i] <= 237;
    Product(SLOPE[i], r, 0, 31);
  }

  lemma SigmSucceeds(x: int32)
    requires x > -0x8000_0000
    ensures SigmQ15(x) == Some(FixedPoint.SigmQ15(x))
  {
    hide Smulbb;
    if -192 < x < 0 {
      SlopeSucceeds(-x / 32, -x % 32);
    } else if 0 <= x < 192 {
      SlopeSucceeds(x / 32, x % 32);
    }
  }

  // ---- Filter bank ----

  function EvenSection(s: int, x: int): Option<SectionStep> {
    var in32 :- Fit32(x * 0x400);
    var y :- Fit32(in32 - s);
    var t :- Smlawb(y, y, FB_EVEN);
    var output :- Fit32(s + t);
    var state :- Fit32(in32 + t);
    Some(SectionStep(state, output))
  }

  function OddSection(s: int, x: int): Option<SectionStep> {
    var in32 :- Fit32(x * 0x400);
    var y :- Fit32(in32 - s);
    var t :- Smulwb(y, FB_ODD);
    var output :- Fit32(s + t);
    var state :- Fit32(in32 + t);
    Some(SectionStep(state, output))
  }

  function Split(s: Sections, x0: int, x1: int): Option<SplitStep> {
    var e :- EvenSection(s.even, x0);
    var o :- OddSection(s.odd, x1);
    var sum :- Fit32(o.output + e.output);
    var low :- RshiftRound11(sum);
    var difference :- Fit32(o.output - e.output);
    var high :- RshiftRound11(difference);
    Some(SplitStep(Sections(e.state, o.state), Sat16(low), Sat16(high)))
  }

  lemma EvenSectionSucceeds(s: int, x: int)
    requires Within(s, 116_500_000) && Int16(x)
    ensures EvenSection(s, x) == Some(FilterBank.EvenSection(Exact, s, x))
  {
  }

  lemma OddSectionSucceeds(s: int, x: int)
    requires Within(s, 42_700_000) && Int16(x)
    ensures OddSection(s, x) == Some(FilterBank.OddSection(Exact, s, x))
  {
  }

  /** Inside the bounds no operation of the split overflows. */
  lemma SplitSucceeds(s: Sections, x0: int, x1: int)
    requires SectionsBounded(s) && Int16(x0) && Int16(x1)
    ensures Split(s, x0, x1) == Some(FilterBank.Split(Exact, s, x0, x1))
  {
    hide EvenSection, OddSection, FilterBank.EvenSection, FilterBank.OddSection;
    EvenSectionSucceeds(s.even, x0);
    OddSectionSucceeds(s.odd, x1);
    EvenSectionExact(s.even, x0);
    OddSectionExact(s.odd, x1);
  }

  datatype Halves = Halves(state: Sections, low: seq<int>, high: seq<int>)

  /** The first k pairs of an out-of-place split. */
  function SplitBlock(s: Sections, xs: seq<int>, k: nat): (h: Option<Halves>)
    requires 2 * k <= |xs|
    ensures h.Some? ==> |h.value.low| == |h.value.high| == k
    decreases k
  {
    if k == 0 then Some(Halves(s, [], []))
    else
      var h :- SplitBlock(s, xs, k - 1);
      var r :- Split(h.state, xs[2 * k - 2], xs[2 * k - 1]);
      Some(Halves(r.state, h.low + [r.low], h.high + [r.high]))
  }

  function SplitInPlace(s: Sections, x: seq<int>, hiOff: nat, k: nat): (p: Option<Pass>)
    requires 2 * k <= |x| && hiOff + k <= |x|
    ensures p.Some? ==> |p.value.x| == |x|
    decreases k
  {
    if k == 0 then Some(Pass(s, x))
    else
      var p :- SplitInPlace(s, x, hiOff, k - 1);
      var r :- Split(p.state, p.x[2 * k - 2], p.x[2 * k - 1]);
      Some(Pass(r.state, p.x[hiOff + k - 1 := r.high][k - 1 := r.low]))
  }

  lemma {:induction false} SplitBlockSucceeds(f: Rule, s: Sections, xs: seq<int>, k: nat)
    requires f == Splitter(Exact) && SectionsBounded(s) && AllInt16(xs) && 2 * k <= |xs|
    ensures SplitBlock(s, xs, k)
            == Some(Halves(StateAfter(f, s, xs, k), LowBand(f, s, xs)[..k], HighBand(f, s, xs)[..k]))
    ensures SectionsBounded(StateAfter(f, s, xs, k))
    decreases k
  {
    hide Split, FilterBank.Split, SectionsBounded;
    if k > 0 {
      SplitBlockSucceeds(f, s, xs, k - 1);
      SplitSucceeds(StateAfter(f, s, xs, k - 1), xs[2 * k - 2], xs[2 * k - 1]);
      SplitExact(StateAfter(f, s, xs, k - 1), xs[2 * k - 2], xs[2 * k - 1]);
      assert LowBand(f, s, xs)[..k] == LowBand(f, s, xs)[..k - 1] + [StepAt(f, s, xs, k - 1).low];
      assert HighBand(f, s, xs)[..k] == HighBand(f, s, xs)[..k - 1] + [StepAt(f, s, xs, k - 1).high];
    }
  }

  lemma {:induction false} SplitInPlaceSucceeds(f: Rule, s: Sections, x: seq<int>, hiOff: nat, k: nat)
    requires f == Splitter(Exact) && SectionsBounded(s) && AllInt16(x) && 2 * k <= |x| && hiOff + k <= |x|
    ensures SplitInPlace(s, x, hiOff, k) == Some(InPlace(f, s, x, hiOff, k))
    ensures SectionsBounded(InPlace(f, s, x, hiOff, k).state) && AllInt16(InPlace(f, s, x, hiOff, k).x)
    decreases k
  {
    hide Split, FilterBank.Split, SectionsBounded;
    if k > 0 {
      SplitInPlaceSucceeds(f, s, x, hiOff, k - 1);
      var p := InPlace(f, s, x, hiOff, k - 1);
      SplitSucceeds(p.state, p.x[2 * k - 2], p.x[2 * k - 1]);
      SplitExact(p.state, p.x[2 * k - 2], p.x[2 * k - 1]);
    }
  }

  /** The loudest alternating signal, and the state in which the sections pass it on unchanged. */
  function Alternating(n: nat): (xs: seq<int>)
    ensures |xs| == n && AllInt16(xs)
  {
    seq(n, i => if i % 2 == 0 then 0x7FFF else -0x8000)
  }

  const RESONANT := Sections(0x7FFF * 0x400, -0x8000 * 0x400)

  function NextEvenGap(y: int): int {
    -(y + y * FB_EVEN / 0x1_0000)
  }

  function NextOddGap(y: int): int {
    -(y * FB_ODD / 0x1_0000)
  }

  /** How far the sections still are from it after k pairs, from silence. */
  function EvenGap(k: nat): int {
    if k == 0 then RESONANT.even else NextEvenGap(EvenGap(k - 1))
  }

  function OddGap(k: nat): int {
    if k == 0 then RESONANT.odd else NextOddGap(OddGap(k - 1))
  }

  /** Two pairs halve a gap, down to 4. */
  lemma GapHalves(y: int, m: int)
    requires m >= 4 && Within(y, 2 * m)
    ensures Within(NextEvenGap(NextEvenGap(y)), m) && Within(NextOddGap(NextOddGap(y)), m)
  {
  }

  lemma {:induction false} GapsShrink(j: nat)
    requires j <= 23
    ensures Within(EvenGap(2 * j), Pow2(25 - j)) && Within(OddGap(2 * j), Pow2(25 - j))
  {
    if j == 0 {
      assert Pow2(25) == 2 * Pow2(24) && Pow2(24) == 0x100_0000 by {
        PowersOf2();
      }
    } else {
      GapsShrink(j - 1);
      hide NextEvenGap, NextOddGap;
      var m := Pow2(25 - j);
      assert Pow2(25 - (j - 1)) == 2 * m && EvenGap(2 * j) == NextEvenGap(NextEvenGap(EvenGap(2 * j - 2)));
      assert OddGap(2 * j) == NextOddGap(NextOddGap(OddGap(2 * j - 2)));
      Pow2Monotone(2, 25 - j);
      GapHalves(EvenGap(2 * j - 2), m);
      GapHalves(OddGap(2 * j - 2), m);
    }
  }

  /** The last steps. */
  lemma SmallGap(y: int)
    ensures -4 <= y <= 4 ==> -2 <= NextEvenGap(y) <= 3 && 0 <= NextOddGap(y) <= 1
    ensures -2 <= y <= 3 ==> -1 <= NextEvenGap(y) <= 2
    ensures -1 <= y <= 2 ==> -1 <= NextEvenGap(y) <= 1
    ensures -1 <= y <= 1 ==> 0 <= NextEvenGap(y) <= 1
    ensures 0 <= y <= 1 ==> NextEvenGap(y) == 0 && NextOddGap(y) == 0
  {
  }

  lemma {:induction false} GapsClose(k: nat)
    requires k >= 51
    ensures EvenGap(k) == 0 && OddGap(k) == 0
  {
    hide NextEvenGap, NextOddGap;
    if k > 51 {
      GapsClose(k - 1);
    } else {
      GapsShrink(23);
      assert Pow2(2) == 4;
      forall i | 46 <= i <= 50
        ensures EvenGap(i + 1) == NextEvenGap(EvenGap(i)) && OddGap(i + 1) == NextOddGap(OddGap(i))
      {
      }
      SmallGap(EvenGap(46));
      SmallGap(EvenGap(47));
      SmallGap(EvenGap(48));
      SmallGap(EvenGap(49));
      SmallGap(OddGap(46));
      SmallGap(OddGap(47));
      SmallGap(OddGap(48));
      SmallGap(OddGap(49));
    }
    SmallGap(EvenGap(k - 1));
    SmallGap(OddGap(k - 1));
  }

  lemma GapStep(e: int, o: int)
    ensures FilterBank.Split(Exact, Sections(RESONANT.even - e, RESONANT.odd - o), 0x7FFF, -0x8000).state
            == Sections(RESONANT.even - NextEvenGap(e), RESONANT.odd - NextOddGap(o))
  {
  }

  lemma {:induction false} AlternatingStates(f: Rule, n: nat, k: nat)
    requires f == Splitter(Exact) && 2 * k <= n
    ensures StateAfter(f, QUIET, Alternating(n), k) == Sections(RESONANT.even - EvenGap(k), RESONANT.odd - OddGap(k))
  {
    hide NextEvenGap, NextOddGap, FilterBank.Split;
    if k > 0 {
      var xs := Alternating(n);
      AlternatingStates(f, n, k - 1);
      GapStep(EvenGap(k - 1), OddGap(k - 1));
      assert xs[2 * (k - 1)] == 0x7FFF && xs[2 * (k - 1) + 1] == -0x8000;
      assert StepAt(f, QUIET, xs, k - 1) == FilterBank.Split(Exact, StateAfter(f, QUIET, xs, k - 1), 0x7FFF, -0x8000);
    }
  }

  lemma ResonantPair()
    ensures FilterBank.Split(Exact, RESONANT, 0x7FFF, -0x8000).high == -0x7FFF
  {
  }

  /** From silence every high sample from the 51st on is full scale. */
  lemma AlternatingLoud(f: Rule, n: nat, k: nat)
    requires f == Splitter(Exact) && 51 <= k && 2 * k + 1 < n
    ensures HighBand(f, QUIET, Alternating(n))[k] == -0x7FFF
  {
    hide FilterBank.Split;
    AlternatingStates(f, n, k);
    GapsClose(k);
    ResonantPair();
    assert Alternating(n)[2 * k] == 0x7FFF && Alternating(n)[2 * k + 1] == -0x8000;
  }

  /** What lies behind both bands is left alone. */
  lemma {:induction false} InPlaceKeepsTail(s: Sections, x: seq<int>, hiOff: nat, k: nat, m: nat)
    requires 2 * k <= |x| && hiOff + k <= m <= |x|
    ensures SplitInPlace(s, x, hiOff, k).Some? ==> SplitInPlace(s, x, hiOff, k).value.x[m..] == x[m..]
    decreases k
  {
    hide Split;
    if k > 0 {
      InPlaceKeepsTail(s, x, hiOff, k - 1, m);
    }
  }

  function HighPass(h: int, x: int): Option<HpStep> {
    var inval :- Smulwb(HP_B, x);
    var difference :- Fit32(h - inval);
    var state :- Smlawb(inval, HP_A, Sat16(difference));
    Some(HpStep(state, Sat16(difference)))
  }

  lemma HighPassSucceeds(h: int, x: int)
    requires HpBounded(h) && Int16(x)
    ensures HighPass(h, x) == Some(FilterBank.HighPass(Exact, h, x))
  {
  }

  datatype Filtered = Filtered(state: int, out: seq<int>)

  function HighPassBlock(h: int, xs: seq<int>, k: nat): Option<Filtered>
    requires k <= |xs|
  {
    if k == 0 then Some(Filtered(h, []))
    else
      var t :- HighPassBlock(h, xs, k - 1);
      var r :- HighPass(t.state, xs[k - 1]);
      Some(Filtered(r.state, t.out + [r.output]))
  }

  lemma {:induction false} HighPassBlockSucceeds(g: HpRule, h: int, xs: seq<int>, k: nat)
    requires g == HighPasser(Exact) && HpBounded(h) && AllInt16(xs) && k <= |xs|
    ensures HighPassBlock(h, xs, k) == Some(Filtered(HpAfter(g, h, xs, k), HpOutput(g, h, xs)[..k]))
    ensures HpBounded(HpAfter(g, h, xs, k))
  {
    hide HighPass, FilterBank.HighPass, HpBounded;
    if k > 0 {
      HighPassBlockSucceeds(g, h, xs, k - 1);
      HighPassSucceeds(HpAfter(g, h, xs, k - 1), xs[k - 1]);
      HighPassExact(HpAfter(g, h, xs, k - 1), xs[k - 1]);
      assert HpOutput(g, h, xs)[..k] == HpOutput(g, h, xs)[..k - 1] + [HpOutput(g, h, xs)[k - 1]];
    }
  }

  // ---- Energies ----

  function SumSquares(xs: seq<int>): Option<int32> {
    if xs == [] then Some(0)
    else
      var sum :- SumSquares(xs[..|xs| - 1]);
      Smlabb(sum, xs[|xs| - 1] / 8, xs[|xs| - 1] / 8)
  }

  lemma {:induction false} SumSquaresSucceeds(xs: seq<int>)
    requires AllInt16(xs) && |xs| < 128
    ensures SumSquares(xs) == Some(Vad.SumSquares(Exact, xs))
  {
    if xs != [] {
      var init, v := xs[..|xs| - 1], xs[|xs| - 1] / 8;
      SumSquaresSucceeds(init);
      SumSquaresExact(init);
      SquareSucceeds(Vad.SumSquares(Exact, init), v, |init|);
    }
  }

  lemma SquareSucceeds(acc: int, v: int, n: nat)
    requires -0x1000 <= v < 0x1000 && n < 127 && 0 <= acc <= n * 0x100_0000
    ensures Smlabb(acc, v, v) == Some(acc + v * v)
  {
    SmallSquare(v);
  }

  function Accumulated(carry: int, band: seq<int>, k: nat): Option<int32>
    requires k <= 4
  {
    if k == 0 then Fit32(carry)
    else
      var sum :- Accumulated(carry, band, k - 1);
      var e :- SumSquares(Subframe(band, k - 1));
      AddPosSat32(sum, if k < 4 then e else e / 2)
  }

  function BandEnergy(carry: int, band: seq<int>): Option<Energy> {
    var total :- Accumulated(carry, band, 4);
    var last :- SumSquares(Subframe(band, 3));
    Some(Energy(total, last))
  }

  lemma SubframeSucceeds(band: seq<int>, i: nat)
    requires AllInt16(band) && |band| < 512 && i < 4
    ensures SumSquares(Subframe(band, i)) == Some(Vad.SumSquares(Exact, Subframe(band, i)))
    ensures Nonnegative32(Vad.SumSquares(Exact, Subframe(band, i)))
  {
    SumSquaresSucceeds(Subframe(band, i));
    SubframeExact(band, i);
  }

  lemma AddPosSucceeds(a: int, b: int)
    requires Nonnegative32(a) && Nonnegative32(b)
    ensures AddPosSat32(a, b) == Some(FixedPoint.AddPosSat32(Exact, a, b))
  {
  }

  lemma {:induction false} AccumulatedSucceeds(carry: int, band: seq<int>, k: nat)
    requires AllInt16(band) && |band| < 512 && Nonnegative32(carry) && k <= 4
    ensures Accumulated(carry, band, k) == Some(Vad.Accumulated(Exact, carry, band, k))
  {
    hide SumSquares, Vad.SumSquares, AddPosSat32, FixedPoint.AddPosSat32, Subframe;
    if k > 0 {
      AccumulatedSucceeds(carry, band, k - 1);
      AccumulatedExact(carry, band, k - 1);
      SubframeSucceeds(band, k - 1);
      var e := Vad.SumSquares(Exact, Subframe(band, k - 1));
      AddPosSucceeds(Vad.Accumulated(Exact, carry, band, k - 1), if k < 4 then e else e / 2);
    }
  }

  lemma BandEnergySucceeds(carry: int, band: seq<int>)
    requires AllInt16(band) && |band| < 512 && Nonnegative32(carry)
    ensures BandEnergy(carry, band) == Some(Vad.BandEnergy(Exact, carry, band))
  {
    hide Accumulated, Vad.Accumulated;
    AccumulatedSucceeds(carry, band, 4);
    SubframeSucceeds(band, 3);
  }

  /** Full-scale samples, as the high band of the loudest alternating signal has them. */
  function Loud(n: nat): (xs: seq<int>)
    ensures |xs| == n && AllInt16(xs)
  {
    seq(n, _ => -0x7FFF)
  }

  /** 127 full-scale samples fit, 128 do not. */
  lemma {:induction false} LoudOverflows(n: nat)
    ensures SumSquares(Loud(n)) == if n < 128 then Some(n * 0x100_0000) else None
  {
    if n > 0 {
      LoudOverflows(n - 1);
      assert Loud(n)[..n - 1] == Loud(n - 1);
    }
  }

  /** The energy of a band of n samples overflows on no input exactly below 512 samples. */
  lemma BandEnergySucceedsIff(n: nat)
    ensures (forall carry: int, band: seq<int> :: Nonnegative32(carry) && AllInt16(band) && |band| == n ==>
               BandEnergy(carry, band).Some?)
            <==> n < 512
  {
    if n < 512 {
      forall carry: int, band: seq<int> | Nonnegative32(carry) && AllInt16(band) && |band| == n
        ensures BandEnergy(carry, band).Some?
      {
        BandEnergySucceeds(carry, band);
      }
    } else {
      assert Subframe(Loud(n), 3) == Loud(n / 4);
      LoudBandOverflows(0, Loud(n));
    }
  }

  lemma LoudBandOverflows(carry: int, band: seq<int>)
    requires |band| >= 512 && Subframe(band, 3) == Loud(|band| / 4)
    ensures BandEnergy(carry, band).None?
  {
    LoudOverflows(|band| / 4);
  }
}
