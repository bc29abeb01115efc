/** What the activity score of the detector means: energies, ratios and the threshold for speech. */
module Scoring {
  import opened Bytes
  import opened FixedPoint
  import opened FilterBank
  import opened Vad
  import opened Detector

  // ---- Energies ----

  /** The sum of the squared eighths of the samples. */
  function Squares(xs: seq<int>): int {
    if xs == [] then 0 else (xs[0] / 8) * (xs[0] / 8) + Squares(xs[1..])
  }

  lemma {:induction false} SquaresSplit(xs: seq<int>)
    requires xs != []
    ensures var v := xs[|xs| - 1] / 8; Squares(xs) == Squares(xs[..|xs| - 1]) + v * v
  {
    if |xs| > 1 {
      SquaresSplit(xs[1..]);
      assert xs[1..][..|xs| - 2] == xs[..|xs| - 1][1..];
    }
  }

  lemma {:induction false} SumIsSquares(xs: seq<int>)
    requires AllInt16(xs)
    ensures SumSquares(Exact, xs) == Squares(xs)
  {
    if xs != [] {
      SumIsSquares(xs[..|xs| - 1]);
      SquaresSplit(xs);
    }
  }

  /** A band of four equal parts and up to three odd samples: the first three parts count in full, the last one
      half now and in full in the next frame. */
  lemma EnergyOfParts(carry: int, q0: seq<int>, q1: seq<int>, q2: seq<int>, q3: seq<int>, odd: seq<int>)
    requires Nonnegative32(carry) && |q0| == |q1| == |q2| == |q3| < 128 && |odd| < 4
    requires AllInt16(q0) && AllInt16(q1) && AllInt16(q2) && AllInt16(q3) && AllInt16(odd)
    ensures BandEnergy(Machine, carry, q0 + q1 + q2 + q3 + odd)
            == Energy(Min(carry + Squares(q0) + Squares(q1) + Squares(q2) + Squares(q3) / 2, INT32_MAX), Squares(q3))
  {
    hide SumSquares, Squares;
    var band := q0 + q1 + q2 + q3 + odd;
    Parts(q0, q1, q2, q3, odd);
    SumIsSquares(q0);
    SumIsSquares(q1);
    SumIsSquares(q2);
    SumIsSquares(q3);
    BandEnergyExact(carry, band);
    SumSquaresExact(q0);
    SumSquaresExact(q1);
    SumSquaresExact(q2);
    SumSquaresExact(q3);
    AccumulatedParts(carry, band, Squares(q0), Squares(q1), Squares(q2), Squares(q3));
  }

  lemma AccumulatedParts(carry: int, band: seq<int>, e0: int, e1: int, e2: int, e3: int)
    requires carry >= 0 && e0 >= 0 && e1 >= 0 && e2 >= 0 && e3 >= 0
    requires e0 == SumSquares(Exact, Subframe(band, 0)) && e1 == SumSquares(Exact, Subframe(band, 1))
    requires e2 == SumSquares(Exact, Subframe(band, 2)) && e3 == SumSquares(Exact, Subframe(band, 3))
    ensures Accumulated(Exact, carry, band, 4) == Min(carry + e0 + e1 + e2 + e3 / 2, INT32_MAX)
  {
    hide SumSquares, Subframe;
    assert Accumulated(Exact, carry, band, 1) == Min(carry + e0, INT32_MAX);
    assert Accumulated(Exact, carry, band, 2) == Min(carry + e0 + e1, INT32_MAX);
    assert Accumulated(Exact, carry, band, 3) == Min(carry + e0 + e1 + e2, INT32_MAX);
  }

  lemma Parts(q0: seq<int>, q1: seq<int>, q2: seq<int>, q3: seq<int>, odd: seq<int>)
    requires |q0| == |q1| == |q2| == |q3| && |odd| < 4
    ensures var band := q0 + q1 + q2 + q3 + odd;
            && |band| / 4 == |q0| && Subframe(band, 0) == q0 && Subframe(band, 1) == q1
            && Subframe(band, 2) == q2 && Subframe(band, 3) == q3
  {
  }

  // ---- Ratios ----

  /** The whole octaves of the ratio: e is the logarithm of 256 times energy over level, up to 256 in the level. */
  lemma SnrOctaves(xnrg: int, nl: int, e: nat)
    requires Levels(xnrg, nl) && xnrg > nl && e == (SnrQ7(Machine, xnrg, nl) + 1024) / 128
    ensures Pow2(e) * nl <= 256 * xnrg < 2 * Pow2(e) * (nl + 256)
  {
    hide Lin2Log, Ratio;
    RatioRange(Machine, xnrg, nl);
    SnrRange(Machine, xnrg, nl);
    var r := Ratio(Exact, xnrg, nl);
    Lin2LogInOctave(Machine, r);
    Lin2LogInOctave(Exact, r);
    Log2Bounds(r);
    var d := RatioBetween(xnrg, nl, r);
    Bracketed(xnrg, nl, r, d, Pow2(e));
  }

  lemma RatioBetween(xnrg: int, nl: int, r: int) returns (d: int)
    requires Levels(xnrg, nl) && xnrg > nl && r == Ratio(Exact, xnrg, nl)
    ensures nl <= d <= nl + 256 && r * d <= 256 * xnrg < (r + 1) * d
  {
    if xnrg < 0x80_0000 {
      d := nl + 1;
      Quotient(256 * xnrg, d, r);
    } else {
      var q := nl / 256 + 1;
      d := 256 * q;
      Quotient(xnrg, q, r);
      assert r * d == 256 * (r * q) && (r + 1) * d == 256 * ((r + 1) * q);
    }
  }

  lemma Quotient(a: int, b: int, r: int)
    requires b >= 1 && r == a / b
    ensures r * b <= a < (r + 1) * b
  {
  }

  lemma Bracketed(xnrg: int, nl: int, r: int, d: int, p: int)
    requires 1 <= p <= r < 2 * p && 1 <= nl <= d <= nl + 256 && r * d <= 256 * xnrg < (r + 1) * d
    ensures p * nl <= 256 * xnrg < 2 * p * (nl + 256)
  {
    Product(p, nl, nl, d);
    Product(d, p, p, r);
    Product(d, r + 1, r + 1, 2 * p);
    Product(2 * p, d, d, nl + 256);
  }

  /** Energy at twice the level plus 256, or more, is a ratio of one octave or more. */
  lemma OneOctave(xnrg: int, nl: int)
    requires Levels(xnrg, nl) && xnrg >= 2 * (nl + 256)
    ensures SnrQ7(Machine, xnrg, nl) >= 128
  {
    hide SnrQ7, Pow2;
    SnrRange(Machine, xnrg, nl);
    var e: nat := (SnrQ7(Machine, xnrg, nl) + 1024) / 128;
    SnrOctaves(xnrg, nl, e);
    if e < 9 {
      Pow2Monotone(e, 8);
      Powers();
      SmallPower(nl + 256, Pow2(e));
    }
  }

  lemma SmallPower(d: int, p: int)
    requires 1 <= p <= 256 && d >= 0
    ensures 2 * p * d <= 512 * d
  {
    Product(d, p, p, 256);
  }

  // ---- The square root ----

  /** The root stays in the octave that the root of its argument is in. */
  lemma RootInOctave(m: Arithmetic, x: int32, k: nat)
    requires 0 < x < 0x100_0000 && Pow2(2 * k) <= x < Pow2(2 * k + 2)
    ensures Pow2(k) <= SqrtApprox(m, x) < Pow2(k + 1)
  {
    hide Pow2, Frac;
    var e := Log2(x);
    OctaveOf(x, k);
    SqrtApproxBound(m, x);
    HalfOctave(k);
    RootValue(x, k);
    var y := (if e == 2 * k then 32768 else 46214) / Pow2(15 - k);
    TopQuotient(y, if e == 2 * k then 32768 else 46214, Pow2(k), Pow2(15 - k));
    CorrectedRoot(y, Pow2(k), Frac(x), if e == 2 * k then 32768 else 46214);
  }

  lemma OctaveOf(x: int32, k: nat)
    requires 0 < x < 0x100_0000 && Pow2(2 * k) <= x < Pow2(2 * k + 2)
    ensures 2 * k <= Log2(x) <= 2 * k + 1 && k <= 11
  {
    PowersOf2();
    Log2AtLeast(x, 2 * k);
    Log2Below(x, 2 * k + 2);
    Log2Below(x, 24);
  }

  lemma HalfOctave(k: nat)
    requires k <= 15
    ensures Pow2(k) * Pow2(15 - k) == 32768 && Pow2(k + 1) == 2 * Pow2(k) && Pow2(k) >= 1 && Pow2(15 - k) >= 1
  {
    Pow2Adds(k, 15 - k);
    assert Pow2(8) == 256;
    assert Pow2(15) == 32768;
  }

  /** The root as its leading part and a correction. */
  lemma RootValue(x: int32, k: nat)
    requires 0 < x < 0x100_0000 && 2 * k <= Log2(x) <= 2 * k + 1 && k <= 11
    ensures var y := (if Log2(x) == 2 * k then 32768 else 46214) / Pow2(15 - k);
            SqrtApprox(Exact, x) == y + y * (213 * Frac(x)) / 0x1_0000
  {
    hide Pow2, Frac;
    var lz := Clz32(x);
    assert lz == 31 - Log2(x) && lz / 2 == 15 - k;
    assert lz % 2 != 0 <==> Log2(x) == 2 * k;
  }

  lemma TopQuotient(y: int, top: int, p: int, q: int)
    requires p >= 1 && q >= 1 && p * q == 32768 && (top == 32768 || top == 46214) && y == top / q
    ensures p <= y && 32768 * y <= top * p
  {
    assert y * q <= top < (y + 1) * q;
    Product(p, y * q, y * q, top);
    assert p * (y * q) == 32768 * y;
    if y < p {
      Product(q, y + 1, y + 1, p);
    }
  }

  lemma CorrectedRoot(y: int, p: int, f: int, top: int)
    requires 1 <= p <= y && 32768 * y <= top * p && (top == 32768 || top == 46214) && 0 <= f < 128
    ensures p <= y + y * (213 * f) / 0x1_0000 < 2 * p
  {
    Product(y, 213 * f, 0, 213 * 127);
  }

  /** Of a mean square, the root is 17 or more exactly from 296 on. */
  lemma RootAbove16(m: Arithmetic, x: int32)
    requires 0 <= x < 0x100_0000
    ensures SqrtApprox(m, x) >= 17 <==> x >= 296
  {
    hide SqrtApprox, Frac, Pow2;
    SqrtApproxBound(m, x);
    if x == 0 {
      RootOfNothing();
    } else if 256 <= x < 1024 {
      RootBetween(x);
    } else {
      RootElsewhere(m, x);
    }
  }

  lemma RootElsewhere(m: Arithmetic, x: int32)
    requires 0 < x < 0x100_0000 && !(256 <= x < 1024)
    ensures SqrtApprox(m, x) >= 17 <==> x >= 1024
  {
    hide SqrtApprox, Frac, Pow2;
    var k := Log2(x) / 2;
    Powers();
    Log2Bounds(x);
    Pow2Monotone(2 * k, Log2(x));
    TwicePower(Log2(x));
    Pow2Monotone(Log2(x) + 1, 2 * k + 2);
    RootInOctave(m, x, k);
    if x < 256 {
      Log2Below(x, 8);
      Pow2Monotone(k + 1, 4);
    } else {
      Log2AtLeast(x, 10);
      Pow2Monotone(5, k);
    }
  }

  lemma TwicePower(k: nat)
    ensures Pow2(k + 1) == 2 * Pow2(k)
  {
  }

  lemma RootOfNothing()
    ensures SqrtApprox(Exact, 0) == 0
  {
  }

  lemma Powers()
    ensures Pow2(4) == 16 && Pow2(5) == 32 && Pow2(8) == 256 && Pow2(9) == 512 && Pow2(10) == 1024 && Pow2(11) == 2048
  {
  }

  lemma RootBetween(x: int32)
    requires 256 <= x < 1024
    ensures SqrtApprox(Exact, x) >= 17 <==> x >= 296
  {
    hide Frac, SqrtApprox;
    Powers();
    Log2AtLeast(x, 8);
    Log2Below(x, 10);
    RootValue(x, 4);
    FracIsMantissa(x, Log2(x));
    if x < 512 {
      Log2Below(x, 9);
      assert Frac(x) == x / 2 - 128;
    } else {
      Log2AtLeast(x, 9);
      CorrectedRoot(22, 16, Frac(x), 46214);
      assert 46214 / Pow2(11) == 22;
    }
  }

  // ---- The score ----

  /** A score above 12 takes a sum of squares of 1184 or more. */
  lemma ActiveScoreIff(m: Arithmetic, sum: int)
    requires 0 <= sum <= 4 * 0x90_0000
    ensures Score(m, sum) > 12 <==> sum >= 1184
  {
    hide SqrtApprox, SigmQ15;
    ScoreArguments(m, sum);
    RootAbove16(m, sum / 4);
    SqrtApproxBound(m, sum / 4);
    var root := SqrtApprox(m, sum / 4);
    var x := 45000 * (3 * root) / 0x1_0000 - 128;
    assert root >= 17 <==> x >= -93;
    assert root <= 16 <==> x <= -96;
    SigmoidAbove(x);
  }

  lemma SigmoidAbove(x: int32)
    requires -128 <= x <= -96 || -93 <= x
    ensures SigmQ15(x) / 128 > 12 <==> x >= -93
  {
  }

  /** Nothing above its noise level scores 4. */
  lemma SilentScore(m: Arithmetic)
    ensures Score(m, 0) == 4
  {
    ScoreArguments(m, 0);
    SqrtApproxBound(m, 0);
    RootOfNothing();
  }

  /** What one band adds: the square of its ratio, if it is above its level. */
  function Loudness(xnrg: int, nl: int): int
    requires Levels(xnrg, nl)
  {
    if xnrg > nl then SnrQ7(Machine, xnrg, nl) * SnrQ7(Machine, xnrg, nl) else 0
  }

  lemma LoudnessBounds(xnrg: int, nl: int)
    requires Levels(xnrg, nl)
    ensures Loudness(xnrg, nl) >= 0
    ensures xnrg >= 2 * (nl + 256) ==> Loudness(xnrg, nl) >= 1184
  {
    hide SnrQ7;
    if xnrg > nl {
      SnrRange(Machine, xnrg, nl);
      SnrSquare(Exact, 0, SnrQ7(Exact, xnrg, nl), 1);
    }
    if xnrg >= 2 * (nl + 256) {
      OneOctave(xnrg, nl);
      AtLeastOctave(SnrQ7(Machine, xnrg, nl));
    }
  }

  lemma SumStep(xnrg: seq<int>, nl: seq<int>, k: nat)
    requires AllLevels(xnrg, nl) && k < BANDS
    ensures Levels(xnrg[k], nl[k])
    ensures SnrSum(Machine, xnrg, nl, k + 1) == SnrSum(Machine, xnrg, nl, k) + Loudness(xnrg[k], nl[k])
  {
    hide SnrQ7;
    SnrSumRange(Machine, xnrg, nl, k);
    SnrSumRange(Machine, xnrg, nl, k + 1);
    if xnrg[k] > nl[k] {
      SnrRange(Machine, xnrg[k], nl[k]);
      SnrSquare(Machine, SnrSum(Exact, xnrg, nl, k), SnrQ7(Exact, xnrg[k], nl[k]), k + 1);
    }
  }

  lemma SumOfLoudness(xnrg: seq<int>, nl: seq<int>)
    requires AllLevels(xnrg, nl)
    ensures forall b :: 0 <= b < 4 ==> Levels(xnrg[b], nl[b])
    ensures SnrSum(Machine, xnrg, nl, 4) == Loudness(xnrg[0], nl[0]) + Loudness(xnrg[1], nl[1])
                                            + Loudness(xnrg[2], nl[2]) + Loudness(xnrg[3], nl[3])
  {
    hide Loudness;
    SumStep(xnrg, nl, 0);
    SumStep(xnrg, nl, 1);
    SumStep(xnrg, nl, 2);
    SumStep(xnrg, nl, 3);
  }

  lemma {:induction false} QuietBands(xnrg: seq<int>, nl: seq<int>, k: nat)
    requires AllLevels(xnrg, nl) && k <= BANDS && forall b :: 0 <= b < k ==> xnrg[b] <= nl[b]
    ensures SnrSum(Machine, xnrg, nl, k) == 0
  {
    if k > 0 {
      QuietBands(xnrg, nl, k - 1);
    }
  }

  /** What four energies score against four levels: more than 12 takes squared ratios of 1184 together, one band
      at twice its level plus 256 suffices for that, and no band above its level scores 4. */
  ghost predicate ScoresAs(xnrg: seq<int>, nl: seq<int>, score: int)
    requires AllLevels(xnrg, nl)
  {
    assert forall b :: 0 <= b < 4 ==> Levels(xnrg[b], nl[b]);
    && (score > 12 <==>
        Loudness(xnrg[0], nl[0]) + Loudness(xnrg[1], nl[1]) + Loudness(xnrg[2], nl[2]) + Loudness(xnrg[3], nl[3])
        >= 1184)
    && ((exists b :: 0 <= b < 4 && xnrg[b] >= 2 * (nl[b] + 256)) ==> score > 12)
    && ((forall b :: 0 <= b < 4 ==> xnrg[b] <= nl[b]) ==> score == 4)
  }

  lemma LevelsScore(xnrg: seq<int>, nl: seq<int>, sum: int)
    requires AllLevels(xnrg, nl) && sum == SnrSum(Machine, xnrg, nl, 4) && 0 <= sum <= 4 * 0x90_0000
    ensures ScoresAs(xnrg, nl, Score(Machine, sum))
  {
    hide Score, SnrSum, Loudness;
    SumOfLoudness(xnrg, nl);
    ActiveScoreIff(Machine, sum);
    LoudnessBounds(xnrg[0], nl[0]);
    LoudnessBounds(xnrg[1], nl[1]);
    LoudnessBounds(xnrg[2], nl[2]);
    LoudnessBounds(xnrg[3], nl[3]);
    if forall b :: 0 <= b < 4 ==> xnrg[b] <= nl[b] {
      QuietBands(xnrg, nl, 4);
      SilentScore(Machine);
    }
  }

  /** The activity of one frame, from its energies and the noise levels after it. */
  lemma FrameActivity(s: VadState, frame: seq<int>, a: Analysis, xnrg: seq<int>, nl: seq<int>)
    requires Bounded(s) && Frame(frame) && a == BandsOf(Machine, s, frame) && xnrg == FrameTotals(Machine, s, a)
    requires nl == NoiseLevels(Analyse(Machine, s, frame).0.noise)
    ensures AllLevels(xnrg, nl) && ScoresAs(xnrg, nl, Analyse(Machine, s, frame).1)
  {
    hide BandsOf, Energies, Score, SnrSum, NextNoise, MinCoef, ScoresAs, AllLevels, Totals, NoiseLevels;
    AnalyseForm(s, frame, a);
    LevelsScore(xnrg, nl, SnrSum(Machine, xnrg, nl, 4));
  }

  lemma AtLeastOctave(snr: int)
    requires snr >= 128
    ensures snr * snr >= 1184
  {
    Product(snr, snr, 128, snr);
  }

  // ---- What a packet reports ----

  /** An accepted packet reports each frame's activity over 256, and is coded exactly when one of them is
      above 12/256 or hangover was left. */
  lemma PacketReports(s: VadState, pcm: seq<int>, framelen: nat, i: nat)
    requires Bounded(s) && Samples(pcm, framelen) && LongEnough(pcm, framelen) && i < 3
    ensures var r := Packet(Machine, s, pcm, framelen).1;
            && |r.results| == 3 && r.results[i] * 256.0 == Activity(Machine, s, pcm, framelen, i) as real
            && (r.coded <==> s.remaining > 0 || exists j :: 0 <= j < 3 && r.results[j] * 256.0 > 12.0)
  {
    hide Analyse, Activity;
    PacketVerdict(s, pcm, framelen);
    var r := Packet(Machine, s, pcm, framelen).1;
    var sa := Activities(Machine, s, pcm, framelen);
    assert forall j :: 0 <= j < 3 ==> r.results[j] * 256.0 == sa[j] as real;
    assert forall j :: 0 <= j < 3 ==> (Above(sa)[j] <==> sa[j] > 12);
  }

  /** The three frames of a packet are analysed in order, each from the state the one before left; what follows
      them is not looked at. */
  lemma FramesInOrder(s: VadState, f0: seq<int>, f1: seq<int>, f2: seq<int>, rest: seq<int>, pcm: seq<int>)
    requires Bounded(s) && Frame(f0) && Frame(f1) && Frame(f2) && AllInt16(rest) && |f0| == |f1| == |f2|
    requires pcm == f0 + f1 + f2 + rest
    ensures Samples(pcm, |f0|) && LongEnough(pcm, |f0|)
    ensures var (s1, sa0) := Analyse(Machine, s, f0);
            && Bounded(s1)
            && var (s2, sa1) := Analyse(Machine, s1, f1);
            && Bounded(s2)
            && var (s3, sa2) := Analyse(Machine, s2, f2);
            && Activities(Machine, s, pcm, |f0|) == [sa0, sa1, sa2]
            && AfterFrames(Machine, s, pcm, |f0|, 3) == s3
  {
    hide Analyse, Fits;
    var n := |f0|;
    assert FrameAt(pcm, n, 0) == f0 && FrameAt(pcm, n, 1) == f1 && FrameAt(pcm, n, 2) == f2;
    AnalyseKeeps(Machine, s, f0);
    AnalyseKeeps(Machine, Analyse(Machine, s, f0).0, f1);
    FrameStep(s, pcm, n, 0);
    FrameStep(s, pcm, n, 1);
    FrameStep(s, pcm, n, 2);
  }

  // ---- The logarithm ----

  /** At the quarters of an octave the logarithm is 128 per octave and 0, 40, 75 or 104 more. */
  lemma Lin2LogAtQuarters(m: Arithmetic, x: int32, k: nat, j: nat)
    requires j < 4 && x == (4 + j) * Pow2(k)
    ensures Lin2Log(m, x) == 128 * (k + 2) + [0, 40, 75, 104][j]
  {
    hide Lin2Log, Frac, Pow2, Mantissa;
    TwicePower(k);
    TwicePower(k + 1);
    Product(Pow2(k), 4 + j, 4, 7);
    OctaveIs(x, k + 2);
    FracIsMantissa(x, k + 2);
    Lin2LogInOctave(m, x);
    QuarterFrac(Pow2(k), j, Frac(x));
    LogOf(x, Frac(x), k + 2);
    QuarterCurve(j);
  }

  lemma QuarterCurve(j: nat)
    requires j < 4
    ensures 32 * j + 32 * j * (128 - 32 * j) * 179 / 0x1_0000 == [0, 40, 75, 104][j]
  {
    if j == 1 || j == 3 {
      assert 32 * j * (128 - 32 * j) == 3072;
    }
  }

  lemma OctaveIs(x: int32, e: nat)
    requires 0 < Pow2(e) <= x < 2 * Pow2(e)
    ensures Log2(x) == e
  {
    TwicePower(e);
    Log2AtLeast(x, e);
    Log2Below(x, e + 1);
  }

  lemma QuarterFrac(p: int, j: nat, f: int)
    requires p >= 1 && j < 4 && Mantissa((4 + j) * p, 4 * p, f)
    ensures f == 32 * j
  {
    if f < 32 * j {
      Product(4 * p, 129 + f, 129 + f, 128 + 32 * j);
    }
    if f > 32 * j {
      Product(4 * p, 129 + 32 * j, 129 + 32 * j, 128 + f);
    }
  }

  lemma LogOf(x: int32, f: int, e: nat)
    requires x > 0 && f == Frac(x) && e == Log2(x)
    ensures Lin2Log(Exact, x) == f + f * (128 - f) * 179 / 0x1_0000 + 128 * e
  {
    hide Frac;
  }

  // ---- The sigmoid ----

  /** The sigmoid is symmetric about half, up to one unit. */
  lemma SigmoidSymmetric(x: int32)
    requires -0x8000_0000 < x
    ensures SigmQ15(x) + SigmQ15(-x) == if -32 < x < 32 then 32768 else 32767
  {
  }
}
