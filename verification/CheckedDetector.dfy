/** The detector's frames, packets and runs with every operation checked. */
module CheckedDetector {
  import opened Bytes
  import opened FixedPoint
  import opened FilterBank
  import opened Vad
  import opened Detector
  import Checked

  // ---- Noise estimator ----

  function MiddleCoef(nl: int, invNrg: int): Option<int32> {
    var ratio :- Checked.Smulww(invNrg, nl);
    Checked.Smulwb(ratio, NOISE_COEF * 2)
  }

  function RawCoef(nl: int, nrg: int, invNrg: int): Option<int32> {
    var high :- Checked.Fit32(nl * 8);
    if nrg > high then Some(NOISE_COEF / 8) else if nrg < nl then Some(NOISE_COEF) else MiddleCoef(nl, invNrg)
  }

  function Coef(nl: int, nrg: int, invNrg: int, minCoef: int): Option<int> {
    var raw :- RawCoef(nl, nrg, invNrg);
    var scaled :- Checked.Fit32(raw * (100 + NOISE_UPDATE_SPEED));
    var coef :- Checked.Div32(scaled, 100);
    Some(Max(coef, minCoef))
  }

  function NextInverse(inv: int, invNrg: int, coef: int): Option<int32> {
    var d :- Checked.Fit32(invNrg - inv);
    Checked.Smlawb(inv, d, coef)
  }

  function NoiseStep(n: Noise, bias: int, px: int, minCoef: int): Option<Noise> {
    var nrg :- Checked.AddPosSat32(px, bias);
    var invNrg :- Checked.Div32(INT32_MAX, nrg);
    var coef :- Coef(n.nl, nrg, invNrg, minCoef);
    var inv :- NextInverse(n.inv, invNrg, coef);
    var nl :- Checked.Div32(INT32_MAX, inv);
    Some(Noise(Min(nl, NL_MAX), inv))
  }

  lemma CoefSucceeds(nl: int, nrg: int, invNrg: int, minCoef: int)
    requires 1 <= nl <= NL_MAX && 1 <= nrg <= INT32_MAX && invNrg == INT32_MAX / nrg && 0 <= minCoef <= INT16_MAX
    ensures Coef(nl, nrg, invNrg, minCoef) == Some(Vad.Coef(Exact, nl, nrg, invNrg, minCoef))
  {
    if nl <= nrg <= nl * 8 {
      RatioInRange(invNrg, nl, nrg);
      MiddleSucceeds(invNrg * nl, nl, invNrg);
      RatioCoef(Exact, invNrg * nl, invNrg, nl);
    }
  }

  lemma MiddleSucceeds(product: int, nl: int, invNrg: int)
    requires product == invNrg * nl && 0 <= product <= INT32_MAX
    ensures MiddleCoef(nl, invNrg) == Some(product / 0x1_0000 * (NOISE_COEF * 2) / 0x1_0000)
    ensures 0 <= product / 0x1_0000 * (NOISE_COEF * 2) / 0x1_0000 <= NOISE_COEF
  {
  }

  lemma NextInverseSucceeds(inv: int, invNrg: int, coef: int)
    requires 1 <= inv <= INT32_MAX && 1 <= invNrg <= INT32_MAX && 0 <= coef <= INT16_MAX
    ensures NextInverse(inv, invNrg, coef) == Some(Vad.NextInverse(Exact, inv, invNrg, coef))
  {
    InverseMovesBetween(Exact, inv, invNrg, coef);
  }

  lemma DivSucceeds(a: int, b: int)
    requires 0 <= a <= INT32_MAX && b >= 1
    ensures Checked.Div32(a, b) == Some(a / b) && FixedPoint.Div32(Exact, a, b) == a / b
  {
    var q := a / b;
    assert q * b <= a;
    Product(q, b, 1, b);
  }

  /** No operation of an update overflows, and no divisor is zero. */
  lemma NoiseStepSucceeds(n: Noise, bias: int, px: int, minCoef: int)
    requires NoiseInv(n, bias) && Nonnegative32(px) && 0 <= minCoef <= INT16_MAX
    ensures NoiseStep(n, bias, px, minCoef) == Some(Vad.NoiseStep(Exact, n, bias, px, minCoef))
  {
    hide Coef, Vad.Coef, NextInverse, Vad.NextInverse, Checked.Div32, FixedPoint.Div32;
    NoiseFacts(Exact, n, bias, px, minCoef);
    var nrg := FixedPoint.AddPosSat32(Exact, px, bias);
    DivSucceeds(INT32_MAX, nrg);
    Reciprocal(Exact, nrg, bias);
    var invNrg := INT32_MAX / nrg;
    CoefSucceeds(n.nl, nrg, invNrg, minCoef);
    CoefExact(Exact, n.nl, nrg, invNrg, minCoef);
    var coef := Vad.Coef(Exact, n.nl, nrg, invNrg, minCoef);
    NextInverseSucceeds(n.inv, invNrg, coef);
    DivSucceeds(INT32_MAX, Vad.NextInverse(Exact, n.inv, invNrg, coef));
  }

  // ---- Activity score ----

  function Ratio(xnrg: int, nl: int): Option<int32> {
    if 0 <= xnrg < 0x80_0000 then
      var scaled :- Checked.Fit32(xnrg * 256);
      var level :- Checked.Fit32(nl + 1);
      Checked.Div32(scaled, level)
    else
      var level :- Checked.Fit32(nl / 256 + 1);
      Checked.Div32(xnrg, level)
  }

  function SnrQ7(xnrg: int, nl: int): Option<int32> {
    var ratio :- Ratio(xnrg, nl);
    var log :- Checked.Lin2Log(ratio);
    Checked.Fit32(log - 8 * 128)
  }

  lemma SnrSucceeds(xnrg: int, nl: int)
    requires Levels(xnrg, nl) && xnrg > nl
    ensures SnrQ7(xnrg, nl) == Some(Vad.SnrQ7(Exact, xnrg, nl))
  {
    hide Checked.Lin2Log, FixedPoint.Lin2Log, Checked.Div32, FixedPoint.Div32;
    RatioRange(Exact, xnrg, nl);
    if xnrg < 0x80_0000 {
      DivSucceeds(xnrg * 256, nl + 1);
    } else {
      DivSucceeds(xnrg, nl / 256 + 1);
    }
    Checked.Lin2LogSucceeds(Vad.Ratio(Exact, xnrg, nl));
    SnrRange(Exact, xnrg, nl);
  }

  /** The input tilt is weighed and thrown away by the source; here it is carried so that its
      operations are checked too. */
  datatype Sums = Sums(squares: int, tilt: int)

  const TILT_WEIGHTS := [30000, 6000, -12000, -12000]

  function TiltSnr(speech: int32, snr: int): Option<int> {
    if speech < 0x10_0000 then
      var root :- Checked.SqrtApprox(speech);
      var root6 :- Checked.Fit32(root * 64);
      Checked.Smulwb(root6, snr)
    else Some(snr)
  }

  function BandSums(acc: Sums, weight: int, xnrg: int, nl: int): Option<Sums> {
    var speech :- Checked.Fit32(xnrg - nl);
    if speech <= 0 then Some(acc)
    else
      var snr :- SnrQ7(xnrg, nl);
      var squares :- Checked.Smlabb(acc.squares, snr, snr);
      var weighed :- TiltSnr(speech, snr);
      var tilt :- Checked.Smlawb(acc.tilt, weight, weighed);
      Some(Sums(squares, tilt))
  }

  function SnrSums(xnrg: seq<int>, nl: seq<int>, k: nat): Option<Sums>
    requires |xnrg| == |nl| == BANDS && k <= BANDS
  {
    if k == 0 then Some(Sums(0, 0))
    else
      var acc :- SnrSums(xnrg, nl, k - 1);
      BandSums(acc, TILT_WEIGHTS[k - 1], xnrg[k - 1], nl[k - 1])
  }

  lemma TiltSnrSucceeds(speech: int32, snr: int)
    requires -128 <= snr <= 2943 && speech > 0
    ensures TiltSnr(speech, snr).Some? && -0x4000 <= TiltSnr(speech, snr).value <= 0x4000
  {
    if speech < 0x10_0000 {
      Checked.SqrtApproxSucceeds(speech);
      SqrtApproxBound(Exact, speech);
      var root := FixedPoint.SqrtApprox(Exact, speech);
      TiltProduct(root, snr);
    }
  }

  lemma TiltProduct(root: int, snr: int)
    requires 0 <= root < 0x1000 && -128 <= snr <= 2943
    ensures -0x4000 <= root * 64 * snr / 0x1_0000 <= 0x4000
  {
    Product(root * 64, snr, -128, 2943);
  }

  lemma WeighedSucceeds(tilt: int, weight: int, weighed: int, k: nat)
    requires Within(tilt, (k - 1) * 0x4000) && 1 <= k <= BANDS && Within(weight, 30000) && -0x4000 <= weighed <= 0x4000
    ensures Checked.Smlawb(tilt, weight, weighed).Some?
    ensures Within(Checked.Smlawb(tilt, weight, weighed).value, k * 0x4000)
  {
    if weight >= 0 {
      Product(weight, weighed, -0x4000, 0x4000);
    } else {
      Product(-weight, weighed, -0x4000, 0x4000);
      assert weight * weighed == -(-weight * weighed);
    }
  }

  lemma SquareSucceeds(acc: int, snr: int, k: nat)
    requires 0 <= acc <= (k - 1) * 0x90_0000 && 1 <= k <= BANDS && -128 <= snr <= 2943
    ensures Checked.Smlabb(acc, snr, snr) == Some(acc + snr * snr)
  {
    SnrSquare(Exact, acc, snr, k);
  }

  lemma BandSumsSucceed(acc: Sums, weight: int, xnrg: int, nl: int, k: nat)
    requires Levels(xnrg, nl) && 1 <= k <= BANDS && Within(weight, 30000)
    requires 0 <= acc.squares <= (k - 1) * 0x90_0000 && Within(acc.tilt, (k - 1) * 0x4000)
    ensures var r := BandSums(acc, weight, xnrg, nl);
            && r.Some? && Within(r.value.tilt, k * 0x4000)
            && r.value.squares
               == acc.squares + if xnrg > nl then Vad.SnrQ7(Exact, xnrg, nl) * Vad.SnrQ7(Exact, xnrg, nl) else 0
  {
    hide SnrQ7, Vad.SnrQ7, TiltSnr, Checked.Smlabb, Checked.Smlawb;
    if xnrg > nl {
      SnrSucceeds(xnrg, nl);
      SnrRange(Exact, xnrg, nl);
      var snr := Vad.SnrQ7(Exact, xnrg, nl);
      SquareSucceeds(acc.squares, snr, k);
      TiltSnrSucceeds(xnrg - nl, snr);
      WeighedSucceeds(acc.tilt, weight, TiltSnr(xnrg - nl, snr).value, k);
    }
  }

  lemma SumStep(xnrg: seq<int>, nl: seq<int>, k: nat)
    requires AllLevels(xnrg, nl) && 1 <= k <= BANDS
    ensures var x, n := xnrg[k - 1], nl[k - 1];
            SnrSum(Exact, xnrg, nl, k)
            == SnrSum(Exact, xnrg, nl, k - 1) + if x > n then Vad.SnrQ7(Exact, x, n) * Vad.SnrQ7(Exact, x, n) else 0
  {
    hide Vad.SnrQ7;
    assert Levels(xnrg[k - 1], nl[k - 1]);
  }

  /** Over all bands the sums succeed, the squares being those of the score. */
  lemma {:induction false} SnrSumsSucceed(xnrg: seq<int>, nl: seq<int>, k: nat)
    requires AllLevels(xnrg, nl) && k <= BANDS
    ensures SnrSums(xnrg, nl, k).Some?
    ensures SnrSums(xnrg, nl, k).value.squares == SnrSum(Exact, xnrg, nl, k)
    ensures Within(SnrSums(xnrg, nl, k).value.tilt, k * 0x4000)
  {
    if k > 0 {
      hide BandSums, SnrSum, Vad.SnrQ7;
      SnrSumsSucceed(xnrg, nl, k - 1);
      SnrSumRange(Exact, xnrg, nl, k - 1);
      SumStep(xnrg, nl, k);
      assert Levels(xnrg[k - 1], nl[k - 1]);
      BandSumsSucceed(SnrSums(xnrg, nl, k - 1).value, TILT_WEIGHTS[k - 1], xnrg[k - 1], nl[k - 1], k);
    }
  }

  function Score(sum: int): Option<int> {
    var mean :- Checked.Div32(sum, BANDS);
    var root :- Checked.SqrtApprox(mean);
    var three :- Checked.Fit32(3 * root);
    var pSnr :- Checked.Fit16(three);
    var scaled :- Checked.Fit32(45000 * (150 - NON_BINARINESS));
    var factor :- Checked.Div32(scaled, 150);
    var weighed :- Checked.Smulwb(factor, pSnr);
    var arg :- Checked.Fit32(weighed - 128);
    var sa :- Checked.SigmQ15(arg);
    Some(Min(sa / 128, 255))
  }

  lemma ScoreSucceeds(sum: int)
    requires 0 <= sum <= 4 * 0x90_0000
    ensures Score(sum) == Some(Vad.Score(Exact, sum))
  {
    hide Checked.SqrtApprox, FixedPoint.SqrtApprox, Checked.SigmQ15, FixedPoint.SigmQ15;
    ScoreArguments(Exact, sum);
    var mean := sum / BANDS;
    Checked.SqrtApproxSucceeds(mean);
    var pSnr := 3 * FixedPoint.SqrtApprox(Exact, mean);
    Checked.SigmSucceeds(45000 * pSnr / 0x1_0000 - 128);
  }

  // ---- One frame ----

  /** A state with one entry for each band. */
  predicate Shaped(s: VadState) {
    |s.subfr| == |s.noise| == BANDS
  }

  function SplitBands(s: VadState, frame: seq<int>): Option<Analysis>
    requires Fits(|frame|)
  {
    var n := |frame|;
    Layout(n);
    var h :- Checked.SplitBlock(s.ana, frame, n / 2);
    var p1 :- Checked.SplitInPlace(s.ana1, h.low + Quiet(Offset(n, 3) - n / 2) + h.high, Offset(n, 2), n / 2 / 2);
    var p2 :- Checked.SplitInPlace(s.ana2, p1.x, Offset(n, 1), n / 4 / 2);
    var low :- Checked.HighPassBlock(s.hp, p2.x[..n / 8], n / 8);
    Some(Analysis(low.out, p2.x[Offset(n, 1)..Offset(n, 2)], p2.x[Offset(n, 2)..Offset(n, 3)], p2.x[Offset(n, 3)..],
                  h.state, p1.state, p2.state, low.state))
  }

  lemma FirstPassSucceeds(s: Sections, frame: seq<int>)
    requires SectionsBounded(s) && AllInt16(frame) && Fits(|frame|)
    ensures var f, n := Splitter(Exact), |frame|;
            var h := Checked.SplitBlock(s, frame, n / 2);
            && h.Some? && h.value.state == EndState(f, s, frame)
            && h.value.low + Quiet(Offset(n, 3) - n / 2) + h.value.high == FirstPass(f, s, frame)
            && AllInt16(FirstPass(f, s, frame))
  {
    hide Checked.SplitBlock, LowBand, HighBand, StateAfter, Splitter, RulesAgree;
    var f, n := Splitter(Exact), |frame|;
    Checked.SplitBlockSucceeds(f, s, frame, n / 2);
    assert LowBand(f, s, frame)[..n / 2] == LowBand(f, s, frame);
    assert HighBand(f, s, frame)[..n / 2] == HighBand(f, s, frame);
    SplittersAgree();
    FirstPassAgrees(Splitter(Machine), f, s, frame);
  }

  lemma SplitBandsSucceeds(s: VadState, frame: seq<int>)
    requires Bounded(s) && Frame(frame)
    ensures SplitBands(s, frame) == Some(BandsOf(Exact, s, frame))
  {
    hide Checked.SplitBlock, Checked.SplitInPlace, Checked.HighPassBlock, Splitter, HighPasser, FirstPass, InPlace;
    hide EndState, HpAfter, HpOutput;
    var f, g, n := Splitter(Exact), HighPasser(Exact), |frame|;
    Layout(n);
    FirstPassSucceeds(s.ana, frame);
    var x := FirstPass(f, s.ana, frame);
    Checked.SplitInPlaceSucceeds(f, s.ana1, x, Offset(n, 2), n / 2 / 2);
    var p1 := InPlace(f, s.ana1, x, Offset(n, 2), n / 2 / 2);
    Checked.SplitInPlaceSucceeds(f, s.ana2, p1.x, Offset(n, 1), n / 4 / 2);
    var p2 := InPlace(f, s.ana2, p1.x, Offset(n, 1), n / 4 / 2);
    Checked.HighPassBlockSucceeds(g, s.hp, p2.x[..n / 8], n / 8);
    assert HpOutput(g, s.hp, p2.x[..n / 8])[..n / 8] == HpOutput(g, s.hp, p2.x[..n / 8]);
  }

  function Energies(carries: seq<int>, a: Analysis, k: nat): (es: Option<seq<Energy>>)
    requires |carries| == BANDS && k <= BANDS
    ensures es.Some? ==> |es.value| == k
  {
    if k == 0 then Some([])
    else
      var es :- Energies(carries, a, k - 1);
      var e :- Checked.BandEnergy(carries[k - 1], a.Band(k - 1));
      Some(es + [e])
  }

  lemma {:induction false} EnergiesSucceed(carries: seq<int>, a: Analysis, k: nat)
    requires |carries| == BANDS && k <= BANDS
    requires BoundedAnalysis(a) && ShortBands(a) && forall b :: 0 <= b < BANDS ==> Nonnegative32(carries[b])
    ensures Energies(carries, a, k) == Some(Detector.Energies(Exact, carries, a)[..k])
  {
    hide Checked.BandEnergy, Vad.BandEnergy;
    if k > 0 {
      EnergiesSucceed(carries, a, k - 1);
      Checked.BandEnergySucceeds(carries[k - 1], a.Band(k - 1));
      var all := Detector.Energies(Exact, carries, a);
      assert all[..k] == all[..k - 1] + [all[k - 1]];
    }
  }

  function MinCoef(counter: int): Option<int> {
    if counter < 1000 then Checked.Div32(INT16_MAX, counter / 16 + 1) else Some(0)
  }

  function NextNoise(noise: seq<Noise>, totals: seq<int>, minCoef: int, k: nat): (r: Option<seq<Noise>>)
    requires |noise| == |totals| == BANDS && k <= BANDS
    ensures r.Some? ==> |r.value| == k
  {
    if k == 0 then Some([])
    else
      var done :- NextNoise(noise, totals, minCoef, k - 1);
      var n :- NoiseStep(noise[k - 1], Bias(k - 1), totals[k - 1], minCoef);
      Some(done + [n])
  }

  lemma {:induction false} NextNoiseSucceeds(noise: seq<Noise>, totals: seq<int>, minCoef: int, k: nat)
    requires AllNoiseInv(noise) && |totals| == BANDS && AllNonnegative(totals)
    requires 0 <= minCoef <= INT16_MAX && k <= BANDS
    ensures NextNoise(noise, totals, minCoef, k) == Some(Detector.NextNoise(Exact, noise, totals, minCoef)[..k])
  {
    hide NoiseStep, Vad.NoiseStep;
    if k > 0 {
      NextNoiseSucceeds(noise, totals, minCoef, k - 1);
      NoiseStepSucceeds(noise[k - 1], Bias(k - 1), totals[k - 1], minCoef);
      var all := Detector.NextNoise(Exact, noise, totals, minCoef);
      assert all[..k] == all[..k - 1] + [all[k - 1]];
    }
  }

  datatype Heard = Heard(state: VadState, activity: int)

  /** One frame: the next state and the speech activity. */
  function Analyse(s: VadState, frame: seq<int>): (h: Option<Heard>)
    requires Shaped(s) && Fits(|frame|)
    ensures h.Some? ==> Shaped(h.value.state)
  {
    var a :- SplitBands(s, frame);
    var es :- Energies(s.subfr, a, BANDS);
    var minCoef :- MinCoef(s.counter);
    var counter :- Checked.Fit32(NextCounter(s.counter));
    var noise :- NextNoise(s.noise, Totals(es), minCoef, BANDS);
    var sums :- SnrSums(Totals(es), NoiseLevels(noise), BANDS);
    var sa :- Score(sums.squares);
    Some(Heard(VadState(a.ana, a.ana1, a.ana2, a.hp, Carries(es), noise, counter, s.remaining), sa))
  }

  lemma FrameNoiseSucceeds(s: VadState, a: Analysis)
    requires BoundedMemory(s) && BoundedAnalysis(a) && Clean(s) && ShortBands(a)
    ensures Energies(s.subfr, a, BANDS) == Some(Detector.Energies(Exact, s.subfr, a))
    ensures MinCoef(s.counter) == Some(Detector.MinCoef(Exact, s.counter))
    ensures NextNoise(s.noise, FrameTotals(Exact, s, a), Detector.MinCoef(Exact, s.counter), BANDS)
            == Some(FrameNoise(Exact, s, a))
  {
    hide Energies, Detector.Energies, NextNoise, Detector.NextNoise, Checked.Div32, FixedPoint.Div32;
    EnergiesSucceed(s.subfr, a, BANDS);
    assert Detector.Energies(Exact, s.subfr, a)[..BANDS] == Detector.Energies(Exact, s.subfr, a);
    EnergiesExact(Exact, s.subfr, a);
    DivSucceeds(INT16_MAX, s.counter / 16 + 1);
    NextNoiseSucceeds(s.noise, FrameTotals(Exact, s, a), Detector.MinCoef(Exact, s.counter), BANDS);
    assert FrameNoise(Exact, s, a)[..BANDS] == FrameNoise(Exact, s, a);
  }

  lemma FrameScoreSucceeds(totals: seq<int>, nl: seq<int>)
    requires AllLevels(totals, nl)
    ensures SnrSums(totals, nl, BANDS).Some?
    ensures Score(SnrSums(totals, nl, BANDS).value.squares)
            == (SnrSumRange(Exact, totals, nl, BANDS); Some(Vad.Score(Exact, SnrSum(Exact, totals, nl, BANDS))))
  {
    SnrSumsSucceed(totals, nl, BANDS);
    SnrSumRange(Exact, totals, nl, BANDS);
    ScoreSucceeds(SnrSum(Exact, totals, nl, BANDS));
  }

  /** No operation of a frame's analysis overflows, loses bits in a cast or divides by zero. */
  lemma AnalyseSucceeds(s: VadState, frame: seq<int>)
    requires Bounded(s) && Clean(s) && Frame(frame) && |frame| < LONG_FRAME
    ensures Analyse(s, frame) == Some(Heard(Detector.Analyse(Exact, s, frame).0, Detector.Analyse(Exact, s, frame).1))
  {
    hide SplitBands, BandsOf, Energies, Detector.Energies, MinCoef, Detector.MinCoef, NextNoise, Detector.NextNoise;
    hide SnrSums, SnrSum, Score, Vad.Score, Fits;
    var a := BandsOf(Exact, s, frame);
    SplitBandsSucceeds(s, frame);
    BandsExact(Exact, s, frame);
    BandsShort(Exact, s, frame);
    FrameNoiseSucceeds(s, a);
    FrameScoreSucceeds(FrameTotals(Exact, s, a), NoiseLevels(FrameNoise(Exact, s, a)));
  }

  /** At 1024 samples and more a fresh detector overflows on its first frame already. */
  lemma FirstFrameOverflows(n: nat)
    requires Fits(n) && n >= LONG_FRAME
    ensures Analyse(InitialState(), Checked.Alternating(n)).None?
  {
    hide SplitBands, Checked.BandEnergy, Fits;
    var s, frame := InitialState(), Checked.Alternating(n);
    var a := SplitBands(s, frame);
    if a.Some? {
      HighestBandLoud(n);
      Checked.LoudBandOverflows(s.subfr[3], a.value.band3);
      assert Energies(s.subfr, a.value, BANDS).None?;
    }
  }

  lemma HighestBandLoud(n: nat)
    requires Fits(n) && n >= LONG_FRAME
    ensures var a := SplitBands(InitialState(), Checked.Alternating(n));
            a.Some? ==> |a.value.band3| == n / 2 && Subframe(a.value.band3, 3) == Checked.Loud(n / 2 / 4)
  {
    hide Checked.SplitBlock, Checked.SplitInPlace, Checked.HighPassBlock, HighBand, Splitter;
    var f, s, frame := Splitter(Exact), InitialState(), Checked.Alternating(n);
    Layout(n);
    Checked.SplitBlockSucceeds(f, s.ana, frame, n / 2);
    var high := HighBand(f, s.ana, frame);
    var h := Checked.SplitBlock(s.ana, frame, n / 2).value;
    assert h.high == high;
    var x := h.low + Quiet(Offset(n, 3) - n / 2) + h.high;
    assert x[Offset(n, 3)..] == high;
    Checked.InPlaceKeepsTail(s.ana1, x, Offset(n, 2), n / 2 / 2, Offset(n, 3));
    var p1 := Checked.SplitInPlace(s.ana1, x, Offset(n, 2), n / 2 / 2);
    if p1.Some? {
      Checked.InPlaceKeepsTail(s.ana2, p1.value.x, Offset(n, 1), n / 4 / 2, Offset(n, 3));
    }
    LastSubframeLoud(f, n, high);
  }

  lemma LastSubframeLoud(f: Rule, n: nat, high: seq<int>)
    requires f == Splitter(Exact) && n >= LONG_FRAME && high == HighBand(f, QUIET, Checked.Alternating(n))
    ensures Subframe(high, 3) == Checked.Loud(n / 2 / 4)
  {
    hide HighBand;
    var len := n / 2 / 4;
    forall i | 0 <= i < len
      ensures Subframe(high, 3)[i] == -0x7FFF
    {
      Checked.AlternatingLoud(f, n, 3 * len + i);
    }
  }

  ghost predicate FrameSucceeds(s: VadState, frame: seq<int>) {
    Bounded(s) && Clean(s) && AllInt16(frame) && Fits(|frame|) ==> Analyse(s, frame).Some?
  }

  /** The analysis of n samples succeeds, from every bounded state, exactly below 1024 samples. */
  lemma AnalyseSucceedsIff(n: nat)
    requires Fits(n)
    ensures (forall s, frame: seq<int> :: |frame| == n ==> FrameSucceeds(s, frame)) <==> n < LONG_FRAME
  {
    hide Analyse, Bounded;
    if n < LONG_FRAME {
      forall s, frame: seq<int> | |frame| == n
        ensures FrameSucceeds(s, frame)
      {
        if Bounded(s) && Clean(s) && AllInt16(frame) {
          AnalyseSucceeds(s, frame);
        }
      }
    } else {
      FirstFrameOverflows(n);
      assert !FrameSucceeds(InitialState(), Checked.Alternating(n));
    }
  }

  // ---- Packets and runs ----

  datatype Frames = Frames(state: VadState, sa: seq<int>)

  function AfterFrames(s: VadState, pcm: seq<int>, framelen: nat, k: nat): (r: Option<Frames>)
    requires Shaped(s) && Fits(framelen) && LongEnough(pcm, framelen) && k <= 3
    ensures r.Some? ==> Shaped(r.value.state) && |r.value.sa| == k
  {
    if k == 0 then Some(Frames(s, []))
    else
      var t :- AfterFrames(s, pcm, framelen, k - 1);
      var h :- Analyse(t.state, FrameAt(pcm, framelen, k - 1));
      Some(Frames(h.state, t.sa + [h.activity]))
  }

  /** The hangover counts down by 20 from 60 and cannot overflow. */
  function Packet(s: VadState, pcm: seq<int>, framelen: nat): (r: Option<(VadState, PacketResult)>)
    requires Shaped(s) && Fits(framelen)
    ensures r.Some? ==> Shaped(r.value.0)
  {
    if !LongEnough(pcm, framelen) then Some((s, PacketResult([0.0, 0.0, 0.0], false)))
    else
      var t :- AfterFrames(s, pcm, framelen, 3);
      var remaining :- Checked.Fit32(HangAfter(s.remaining, Above(t.sa), 3));
      Some((t.state.(remaining := remaining), PacketResult(Probabilities(t.sa), CodedBy(s.remaining, Above(t.sa), 3))))
  }

  lemma {:induction false} AfterFramesSucceeds(s: VadState, pcm: seq<int>, framelen: nat, k: nat)
    requires Bounded(s) && Samples(pcm, framelen) && LongEnough(pcm, framelen) && k <= 3
    requires Clean(s) && framelen < LONG_FRAME
    ensures AfterFrames(s, pcm, framelen, k)
            == Some(Frames(Detector.AfterFrames(Exact, s, pcm, framelen, k), Activities(Exact, s, pcm, framelen)[..k]))
  {
    hide Analyse, Detector.Analyse, Fits;
    if k > 0 {
      AfterFramesSucceeds(s, pcm, framelen, k - 1);
      AnalyseSucceeds(Detector.AfterFrames(Exact, s, pcm, framelen, k - 1), FrameAt(pcm, framelen, k - 1));
      var all := Activities(Exact, s, pcm, framelen);
      assert all[..k] == all[..k - 1] + [Activity(Exact, s, pcm, framelen, k - 1)];
    }
  }

  lemma PacketSucceeds(s: VadState, pcm: seq<int>, framelen: nat)
    requires Bounded(s) && Samples(pcm, framelen)
    requires Clean(s) && framelen < LONG_FRAME
    ensures Packet(s, pcm, framelen) == Some(Detector.Packet(Exact, s, pcm, framelen))
  {
    hide AfterFrames, Detector.AfterFrames, Activities, HangAfter, CodedBy, Fits;
    if LongEnough(pcm, framelen) {
      AfterFramesSucceeds(s, pcm, framelen, 3);
      assert Activities(Exact, s, pcm, framelen)[..3] == Activities(Exact, s, pcm, framelen);
      HangPacket(s.remaining, ActiveFrames(Exact, s, pcm, framelen));
    }
  }

  function Run(packets: seq<seq<int>>, framelen: nat): (s: Option<VadState>)
    requires Fits(framelen)
    ensures s.Some? ==> Shaped(s.value)
  {
    if packets == [] then Some(InitialState())
    else
      var s :- Run(packets[..|packets| - 1], framelen);
      var r :- Packet(s, packets[|packets| - 1], framelen);
      Some(r.0)
  }

  /** Over any run of 16-bit packets every operation succeeds, and the state is that of the machine. */
  lemma {:induction false} RunSucceeds(packets: seq<seq<int>>, framelen: nat)
    requires AllSamples(packets, framelen) && Fits(framelen) && framelen < LONG_FRAME
    ensures Run(packets, framelen) == Some(AfterPackets(Exact, packets, framelen))
    ensures Run(packets, framelen) == Some(AfterPackets(Machine, packets, framelen))
  {
    hide Packet, Detector.Packet, Bounded, Fits;
    RunExact(packets, framelen);
    if packets != [] {
      RunSucceeds(packets[..|packets| - 1], framelen);
      PacketSucceeds(AfterPackets(Exact, packets[..|packets| - 1], framelen), packets[|packets| - 1], framelen);
    }
  }

  /** A run of 16-bit packets goes through. */
  ghost predicate RunFits(packets: seq<seq<int>>, framelen: nat)
    requires Fits(framelen)
  {
    (forall p :: 0 <= p < |packets| ==> AllInt16(packets[p])) ==> Run(packets, framelen).Some?
  }

  /** A packet that begins with the loudest alternating frame fails a fresh detector. */
  lemma FirstPacketOverflows(framelen: nat)
    requires Fits(framelen) && framelen >= LONG_FRAME
    ensures Run([Checked.Alternating(3 * framelen)], framelen).None?
  {
    hide Analyse, Fits;
    var s, pcm := InitialState(), Checked.Alternating(3 * framelen);
    assert FrameAt(pcm, framelen, 0) == Checked.Alternating(framelen);
    FirstFrameOverflows(framelen);
    assert AfterFrames(s, pcm, framelen, 0) == Some(Frames(s, []));
    assert AfterFrames(s, pcm, framelen, 1).None?;
    assert AfterFrames(s, pcm, framelen, 2).None?;
    assert AfterFrames(s, pcm, framelen, 3).None?;
    assert [pcm][..0] == [];
    assert Run([], framelen) == Some(s);
  }

  /** From the initial state every run of 16-bit packets goes through without an overflow, exactly
      when frames are below 1024 samples. */
  lemma RunSucceedsIff(framelen: nat)
    requires Fits(framelen)
    ensures (forall packets: seq<seq<int>> :: RunFits(packets, framelen)) <==> framelen < LONG_FRAME
  {
    hide Run, Fits;
    if framelen < LONG_FRAME {
      forall packets: seq<seq<int>>
        ensures RunFits(packets, framelen)
      {
        if forall p :: 0 <= p < |packets| ==> AllInt16(packets[p]) {
          RunSucceeds(packets, framelen);
        }
      }
    } else {
      FirstPacketOverflows(framelen);
      var pcm := Checked.Alternating(3 * framelen);
      assert forall p :: 0 <= p < |[pcm]| ==> [pcm][p] == pcm;
      assert !RunFits([pcm], framelen);
    }
  }
}
