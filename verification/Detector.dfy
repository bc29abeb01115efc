/** The detector object: one frame, one packet, and whole runs of packets. */
module Detector {
  import opened Bytes
  import opened FixedPoint
  import opened FilterBank
  import opened Vad

  const DTX_THRESHOLD := 12
  const HANGOVER_MS := 60
  const FRAME_MS := 20

  datatype VadState = VadState(
    ana: Sections,
    ana1: Sections,
    ana2: Sections,
    hp: int,
    subfr: seq<int>,
    noise: seq<Noise>,
    counter: int,
    remaining: int
  )

  /** The bounds every reachable state stays in. */
  predicate Bounded(s: VadState) {
    SectionsBounded(s.ana) && SectionsBounded(s.ana1) && SectionsBounded(s.ana2) && HpBounded(s.hp)
    && BoundedMemory(s)
    && HangoverLeft(s.remaining)
  }

  predicate BoundedMemory(s: VadState) {
    (|s.subfr| == BANDS && forall b :: 0 <= b < BANDS ==> Int32(s.subfr[b]))
    && AllNoiseInv(s.noise) && 15 <= s.counter <= 1000
  }

  /** No energy carried over has wrapped. */
  predicate Clean(s: VadState) {
    forall b :: 0 <= b < |s.subfr| ==> Nonnegative32(s.subfr[b])
  }

  predicate AllNoiseInv(noise: seq<Noise>) {
    |noise| == BANDS && forall b :: 0 <= b < BANDS ==> NoiseInv(noise[b], Bias(b))
  }

  function InitialNoise(b: nat): Noise
    requires b < BANDS
  {
    var bias := Max(Bias(b), 1);
    Noise(100 * bias, INT32_MAX / (100 * bias))
  }

  function InitialState(): (s: VadState)
    ensures Bounded(s) && Clean(s)
  {
    InitialNoiseInv();
    VadState(Sections(0, 0), Sections(0, 0), Sections(0, 0), 0, [0, 0, 0, 0],
             seq(BANDS, b requires 0 <= b < BANDS => InitialNoise(b)), 15, HANGOVER_MS)
  }

  lemma InitialNoiseInv()
    ensures forall b :: 0 <= b < BANDS ==> NoiseInv(InitialNoise(b), Bias(b))
  {
    forall b | 0 <= b < BANDS ensures NoiseInv(InitialNoise(b), Bias(b)) {
      assert Bias(0) == 50 && Bias(1) == 25 && Bias(2) == 16 && Bias(3) == 12;
    }
  }

  // ---- One frame ----

  /** How long band b of a frame of n samples is, and where it starts in the work buffer. */
  function Length(n: nat, b: nat): nat {
    if b < 2 then n / 8 else if b == 2 then n / 4 else n / 2
  }

  function Offset(n: nat, b: nat): nat {
    if b == 0 then 0
    else if b == 1 then n / 8 + n / 4
    else if b == 2 then n / 8 + n / 4 + n / 8
    else 2 * (n / 8 + n / 4)
  }

  function BufferSize(n: nat): nat {
    Offset(n, 3) + n / 2
  }

  /** The first low band ends before the first high band starts; otherwise the source indexes out of range. */
  predicate Fits(n: nat) {
    n / 2 <= Offset(n, 3)
  }

  lemma FitsIff(n: nat)
    ensures Fits(n) <==> n != 2 && n != 3 && n != 6 && n != 7
  {
    var q, r := n / 8, n % 8;
    assert n / 2 == 4 * q + r / 2 && n / 4 == 2 * q + r / 4;
  }

  /** What the three splits ask of the buffer. */
  lemma Layout(n: nat)
    ensures n / 2 / 2 == n / 4 && n / 4 / 2 == n / 8 && n / 8 <= Offset(n, 1)
    ensures Offset(n, 1) + n / 8 == Offset(n, 2) && Offset(n, 2) + n / 4 == Offset(n, 3)
    ensures n / 4 <= Offset(n, 2)
  {
  }

  predicate Frame(xs: seq<int>) {
    AllInt16(xs) && Fits(|xs|)
  }

  /** From this length on an energy can wrap. */
  const LONG_FRAME := 1024

  datatype Analysis = Analysis(band0: seq<int>, band1: seq<int>, band2: seq<int>, band3: seq<int>,
                               ana: Sections, ana1: Sections, ana2: Sections, hp: int)
  {
    function Band(b: nat): seq<int>
      requires b < BANDS
    {
      if b == 0 then band0 else if b == 1 then band1 else if b == 2 then band2 else band3
    }
  }

  function Quiet(n: nat): (z: seq<int>)
    ensures |z| == n && AllInt16(z)
  {
    seq(n, _ => 0)
  }

  /** The work buffer after the first split: its low band, a gap, its high band. */
  function FirstPass(f: Rule, s: Sections, frame: seq<int>): (x: seq<int>)
    requires Fits(|frame|)
    ensures |x| == BufferSize(|frame|)
  {
    LowBand(f, s, frame) + Quiet(Offset(|frame|, 3) - |frame| / 2) + HighBand(f, s, frame)
  }

  /** The work buffer after the second split, in place. */
  function SecondPass(f: Rule, s: Sections, x: seq<int>, n: nat): (p: Pass)
    requires |x| == BufferSize(n)
    ensures |p.x| == |x|
  {
    Layout(n);
    InPlace(f, s, x, Offset(n, 2), n / 2 / 2)
  }

  /** And after the third. */
  function ThirdPass(f: Rule, s: Sections, x: seq<int>, n: nat): (p: Pass)
    requires |x| == BufferSize(n)
    ensures |p.x| == |x|
  {
    Layout(n);
    InPlace(f, s, x, Offset(n, 1), n / 4 / 2)
  }

  /** The four bands in the finished buffer, the lowest high-passed. */
  function BandsIn(g: HpRule, hp: int, x: seq<int>, n: nat, ana: Sections, ana1: Sections, ana2: Sections): Analysis
    requires |x| == BufferSize(n)
  {
    Layout(n);
    var low := x[..n / 8];
    Analysis(HpOutput(g, hp, low), x[Offset(n, 1)..Offset(n, 2)], x[Offset(n, 2)..Offset(n, 3)], x[Offset(n, 3)..],
             ana, ana1, ana2, HpAfter(g, hp, low, n / 8))
  }

  function SplitBands(f: Rule, g: HpRule, s: VadState, frame: seq<int>): Analysis
    requires Fits(|frame|)
  {
    var n := |frame|;
    var p1 := SecondPass(f, s.ana1, FirstPass(f, s.ana, frame), n);
    var p2 := ThirdPass(f, s.ana2, p1.x, n);
    BandsIn(g, s.hp, p2.x, n, EndState(f, s.ana, frame), p1.state, p2.state)
  }

  predicate BoundedAnalysis(a: Analysis) {
    SectionsBounded(a.ana) && SectionsBounded(a.ana1) && SectionsBounded(a.ana2) && HpBounded(a.hp)
    && AllInt16(a.band0) && AllInt16(a.band1) && AllInt16(a.band2) && AllInt16(a.band3)
  }

  /** Bands too short to wrap an energy. */
  predicate ShortBands(a: Analysis) {
    |a.band0| < 512 && |a.band1| < 512 && |a.band2| < 512 && |a.band3| < 512
  }

  lemma FirstPassAgrees(f: Rule, f': Rule, s: Sections, frame: seq<int>)
    requires RulesAgree(f, f') && SectionsBounded(s) && AllInt16(frame) && Fits(|frame|)
    ensures FirstPass(f, s, frame) == FirstPass(f', s, frame) && AllInt16(FirstPass(f', s, frame))
    ensures EndState(f, s, frame) == EndState(f', s, frame) && SectionsBounded(EndState(f', s, frame))
  {
    BlockAgrees(f, f', s, frame);
  }

  lemma PassesAgree(f: Rule, f': Rule, s1: Sections, s2: Sections, x: seq<int>, n: nat)
    requires RulesAgree(f, f') && SectionsBounded(s1) && SectionsBounded(s2) && AllInt16(x) && |x| == BufferSize(n)
    ensures var p1 := SecondPass(f', s1, x, n);
            var p2 := ThirdPass(f', s2, p1.x, n);
            && SecondPass(f, s1, x, n) == p1 && ThirdPass(f, s2, p1.x, n) == p2
            && SectionsBounded(p1.state) && SectionsBounded(p2.state) && AllInt16(p2.x)
  {
    Layout(n);
    InPlaceAgrees(f, f', s1, x, Offset(n, 2), n / 2 / 2);
    InPlaceAgrees(f, f', s2, SecondPass(f', s1, x, n).x, Offset(n, 1), n / 4 / 2);
  }

  lemma BandsInAgree(g: HpRule, g': HpRule, hp: int, x: seq<int>, n: nat, ana: Sections, ana1: Sections, ana2: Sections)
    requires HpRulesAgree(g, g') && HpBounded(hp) && AllInt16(x) && |x| == BufferSize(n)
    requires SectionsBounded(ana) && SectionsBounded(ana1) && SectionsBounded(ana2)
    ensures BandsIn(g, hp, x, n, ana, ana1, ana2) == BandsIn(g', hp, x, n, ana, ana1, ana2)
    ensures BoundedAnalysis(BandsIn(g', hp, x, n, ana, ana1, ana2))
  {
    Layout(n);
    HpOutputAgrees(g, g', hp, x[..n / 8]);
    HpAfterAgrees(g, g', hp, x[..n / 8], n / 8);
  }

  lemma SplitBandsAgree(f: Rule, f': Rule, g: HpRule, g': HpRule, s: VadState, frame: seq<int>)
    requires RulesAgree(f, f') && HpRulesAgree(g, g') && Bounded(s) && Frame(frame)
    ensures SplitBands(f, g, s, frame) == SplitBands(f', g', s, frame)
    ensures BoundedAnalysis(SplitBands(f', g', s, frame))
  {
    hide FirstPass, SecondPass, ThirdPass, BandsIn, RulesAgree, HpRulesAgree, EndState;
    var n, x := |frame|, FirstPass(f', s.ana, frame);
    FirstPassAgrees(f, f', s.ana, frame);
    PassesAgree(f, f', s.ana1, s.ana2, x, n);
    var p1 := SecondPass(f', s.ana1, x, n);
    var p2 := ThirdPass(f', s.ana2, p1.x, n);
    BandsInAgree(g, g', s.hp, p2.x, n, EndState(f', s.ana, frame), p1.state, p2.state);
  }

  // ---- What the bands should be ----

  /** Three successive halvings, each of a fresh copy of the low band before it. */
  function Halvings(f: Rule, g: HpRule, s: VadState, frame: seq<int>): Analysis {
    var low0 := LowBand(f, s.ana, frame);
    var low1 := LowBand(f, s.ana1, low0);
    var low2 := LowBand(f, s.ana2, low1);
    Analysis(HpOutput(g, s.hp, low2), HighBand(f, s.ana2, low1), HighBand(f, s.ana1, low0), HighBand(f, s.ana, frame),
             EndState(f, s.ana, frame), EndState(f, s.ana1, low0), EndState(f, s.ana2, low1),
             HpAfter(g, s.hp, low2, |low2|))
  }

  /** Frame lengths at which no split overwrites what it still has to read. */
  predicate ClearLength(n: nat) {
    n % 8 < 4 || n < 8
  }

  lemma ClearLengthIff(n: nat)
    ensures Clear(Offset(n, 2), n / 2) && Clear(Offset(n, 1), n / 4) <==> ClearLength(n)
  {
    var q, r := n / 8, n % 8;
    Layout(n);
    assert n / 4 == 2 * q + r / 4;
  }

  lemma SecondPassSplits(f: Rule, s: Sections, x: seq<int>, n: nat, low0: seq<int>)
    requires |x| == BufferSize(n) && Fits(n) && x[..n / 2] == low0 && ClearLength(n)
    ensures var p := SecondPass(f, s, x, n);
            && p.state == EndState(f, s, low0) && p.x[..n / 4] == LowBand(f, s, low0)
            && p.x[Offset(n, 2)..Offset(n, 3)] == HighBand(f, s, low0) && p.x[Offset(n, 3)..] == x[Offset(n, 3)..]
  {
    Layout(n);
    ClearLengthIff(n);
    ClearSplits(f, s, x, Offset(n, 2), n / 2);
  }

  lemma ThirdPassSplits(f: Rule, s: Sections, x: seq<int>, n: nat, low1: seq<int>)
    requires |x| == BufferSize(n) && Fits(n) && x[..n / 4] == low1 && ClearLength(n)
    ensures var p := ThirdPass(f, s, x, n);
            && p.state == EndState(f, s, low1) && p.x[..n / 8] == LowBand(f, s, low1)
            && p.x[Offset(n, 1)..Offset(n, 2)] == HighBand(f, s, low1) && p.x[Offset(n, 2)..] == x[Offset(n, 2)..]
  {
    Layout(n);
    ClearLengthIff(n);
    ClearSplits(f, s, x, Offset(n, 1), n / 4);
  }

  lemma ClearHalvings(f: Rule, g: HpRule, s: VadState, frame: seq<int>)
    requires Fits(|frame|) && ClearLength(|frame|)
    ensures SplitBands(f, g, s, frame) == Halvings(f, g, s, frame)
  {
    hide SecondPass, ThirdPass, LowBand, HighBand, EndState, HpOutput, HpAfter;
    var n, x := |frame|, FirstPass(f, s.ana, frame);
    Layout(n);
    var low0 := LowBand(f, s.ana, frame);
    var low1 := LowBand(f, s.ana1, low0);
    assert x[..n / 2] == low0 && x[Offset(n, 3)..] == HighBand(f, s.ana, frame);
    SecondPassSplits(f, s.ana1, x, n, low0);
    var p1 := SecondPass(f, s.ana1, x, n);
    ThirdPassSplits(f, s.ana2, p1.x, n, low1);
    var p2 := ThirdPass(f, s.ana2, p1.x, n);
    TailSlices(p1.x, p2.x, n);
  }

  lemma TailSlices(x: seq<int>, y: seq<int>, n: nat)
    requires |x| == |y| == BufferSize(n) && y[Offset(n, 2)..] == x[Offset(n, 2)..]
    ensures y[Offset(n, 2)..Offset(n, 3)] == x[Offset(n, 2)..Offset(n, 3)] && y[Offset(n, 3)..] == x[Offset(n, 3)..]
  {
    var t := x[Offset(n, 2)..];
    assert x[Offset(n, 2)..Offset(n, 3)] == t[..n / 4] && x[Offset(n, 3)..] == t[n / 4..];
    assert y[Offset(n, 2)..Offset(n, 3)] == t[..n / 4] && y[Offset(n, 3)..] == t[n / 4..];
  }

  /** The first low band of a frame with one click: silent up to the click's place, and not there. */
  lemma FirstPassClick(f: Rule, n: nat, at: nat)
    requires f == Splitter(Machine) && 2 * at + 1 < n && Fits(n)
    ensures var low0 := LowBand(f, QUIET, Click(n, 2 * at));
            && low0[at] == Split(Machine, QUIET, CLICK, 0).low
            && forall i :: 0 <= i < at ==> low0[i] == 0
  {
    hide Split;
    var frame := Click(n, 2 * at);
    SilentPair();
    forall i | 0 <= i <= at
      ensures StepAt(f, QUIET, frame, i) == Split(Machine, QUIET, frame[2 * i], 0)
    {
      SilentStates(f, frame, i);
      assert frame[2 * i + 1] == 0;
    }
  }

  lemma LastPairHeard(f: Rule, xs: seq<int>, j: nat, at: nat)
    requires f == Splitter(Machine) && at == 2 * j + 1 < |xs| && |xs| / 2 == j + 1
    requires forall i :: 0 <= i < at ==> xs[i] == 0
    ensures EndState(f, QUIET, xs) == Split(Machine, QUIET, 0, xs[at]).state
  {
    hide Split;
    SilentPair();
    SilentStates(f, xs, j);
    assert StepAt(f, QUIET, xs, j) == Split(Machine, QUIET, xs[2 * j], xs[at]);
  }

  /** At any other length the second split of a fresh detector erases what it still has to read: it
      carries on a silent state where a click should be remembered. */
  lemma ClickForgotten(f: Rule, g: HpRule, n: nat, at: nat)
    requires f == Splitter(Machine) && Fits(n) && !ClearLength(n) && at == 4 * (n / 8) + 1
    ensures SplitBands(f, g, InitialState(), Click(n, 2 * at)).ana1 == QUIET
    ensures Halvings(f, g, InitialState(), Click(n, 2 * at)).ana1 != QUIET
  {
    hide Split, LowBand, HighBand, InPlace, HpOutput, HpAfter, EndState, Splitter;
    var frame, low0 := Click(n, 2 * at), LowBand(f, QUIET, Click(n, 2 * at));
    var x := FirstPass(f, QUIET, frame);
    Layout(n);
    assert n / 4 == 2 * (n / 8) + 1 && Offset(n, 2) == at && 2 * (n / 2 / 2) == at + 1;
    SilentRule(f);
    FirstPassClick(f, n, at);
    assert forall i :: 0 <= i < n / 2 ==> x[i] == low0[i];
    ClickErased(f, x, at, at + 1, n / 2 / 2);
    LastPairHeard(f, low0, n / 4 - 1, at);
    ClickHeard();
    EchoHeard();
  }

  /** The detector's analysis yields three true halvings, from every bounded state and for every
      16-bit frame of n samples, exactly at the clear lengths. */
  lemma HalvingsIff(n: nat)
    requires Fits(n)
    ensures (forall s, frame: seq<int> :: Bounded(s) && AllInt16(frame) && |frame| == n ==>
               BandsOf(Machine, s, frame) == Halvings(Splitter(Machine), HighPasser(Machine), s, frame))
            <==> ClearLength(n)
  {
    hide SplitBands, Halvings, Splitter, HighPasser, Bounded;
    if ClearLength(n) {
      forall s, frame: seq<int> | |frame| == n
        ensures BandsOf(Machine, s, frame) == Halvings(Splitter(Machine), HighPasser(Machine), s, frame)
      {
        ClearHalvings(Splitter(Machine), HighPasser(Machine), s, frame);
      }
    } else {
      var at := 4 * (n / 8) + 1;
      ClickForgotten(Splitter(Machine), HighPasser(Machine), n, at);
      assert Bounded(InitialState()) && |Click(n, 2 * at)| == n;
      assert BandsOf(Machine, InitialState(), Click(n, 2 * at))
             != Halvings(Splitter(Machine), HighPasser(Machine), InitialState(), Click(n, 2 * at));
    }
  }

  // ---- One frame, in both readings ----

  function BandsOf(m: Arithmetic, s: VadState, frame: seq<int>): Analysis
    requires Fits(|frame|)
  {
    SplitBands(Splitter(m), HighPasser(m), s, frame)
  }

  lemma BandsExact(m: Arithmetic, s: VadState, frame: seq<int>)
    requires Bounded(s) && Frame(frame)
    ensures BandsOf(m, s, frame) == BandsOf(Exact, s, frame) && BoundedAnalysis(BandsOf(m, s, frame))
  {
    SplittersAgree();
    HighPassersAgree();
    SplitBandsAgree(Splitter(Machine), Splitter(Exact), HighPasser(Machine), HighPasser(Exact), s, frame);
  }

  function Energies(m: Arithmetic, carries: seq<int>, a: Analysis): (es: seq<Energy>)
    requires |carries| == BANDS
    ensures |es| == BANDS
  {
    seq(BANDS, b requires 0 <= b < BANDS => BandEnergy(m, carries[b], a.Band(b)))
  }

  function Totals(es: seq<Energy>): (ts: seq<int>)
    ensures |ts| == |es|
    ensures forall b :: 0 <= b < |es| ==> ts[b] == es[b].total
  {
    seq(|es|, b requires 0 <= b < |es| => es[b].total)
  }

  function Carries(es: seq<Energy>): (cs: seq<int>)
    ensures |cs| == |es|
    ensures forall b :: 0 <= b < |es| ==> cs[b] == es[b].carry
  {
    seq(|es|, b requires 0 <= b < |es| => es[b].carry)
  }

  lemma EnergiesExact(m: Arithmetic, carries: seq<int>, a: Analysis)
    requires |carries| == BANDS
    requires BoundedAnalysis(a) && ShortBands(a) && forall b :: 0 <= b < BANDS ==> Nonnegative32(carries[b])
    ensures Energies(m, carries, a) == Energies(Exact, carries, a)
    ensures forall b :: 0 <= b < BANDS ==>
              Nonnegative32(Energies(Exact, carries, a)[b].total)
              && Nonnegative32(Energies(Exact, carries, a)[b].carry)
  {
    forall b | 0 <= b < BANDS
      ensures BandEnergy(m, carries[b], a.Band(b)) == BandEnergy(Exact, carries[b], a.Band(b))
      ensures var e := BandEnergy(Exact, carries[b], a.Band(b)); Nonnegative32(e.total) && Nonnegative32(e.carry)
    {
      BandEnergyExact(carries[b], a.Band(b));
    }
  }

  lemma BandsShort(m: Arithmetic, s: VadState, frame: seq<int>)
    requires Frame(frame) && |frame| < LONG_FRAME
    ensures ShortBands(BandsOf(m, s, frame))
  {
    Layout(|frame|);
  }

  /** Energies that are defined in this reading: in the machine all of them. */
  predicate Measurable(m: Arithmetic, s: VadState, a: Analysis) {
    m.Machine? || (Clean(s) && ShortBands(a))
  }

  lemma EnergiesFit(m: Arithmetic, s: VadState, a: Analysis)
    requires BoundedMemory(s) && BoundedAnalysis(a) && Measurable(m, s, a)
    ensures AllNonnegative(FrameTotals(m, s, a))
    ensures forall b :: 0 <= b < BANDS ==> Int32(Carries(Energies(m, s.subfr, a))[b])
    ensures Clean(s) && ShortBands(a) ==> AllNonnegative(Carries(Energies(m, s.subfr, a)))
  {
    hide BandEnergy;
    if Clean(s) && ShortBands(a) {
      EnergiesExact(m, s.subfr, a);
    } else {
      forall b | 0 <= b < BANDS
        ensures Nonnegative32(BandEnergy(Machine, s.subfr[b], a.Band(b)).total)
        ensures Int32(BandEnergy(Machine, s.subfr[b], a.Band(b)).carry)
      {
        BandEnergyFits(s.subfr[b], a.Band(b));
      }
    }
  }

  /** The noise estimate is pulled hard at first, then left to its own coefficients. */
  function MinCoef(m: Arithmetic, counter: int): (c: int)
    requires 0 <= counter
    ensures 0 <= c <= INT16_MAX
  {
    if counter < 1000 then
      FirstCoef(m, counter / 16 + 1);
      Div32(m, INT16_MAX, counter / 16 + 1)
    else 0
  }

  lemma FirstCoef(m: Arithmetic, d: int)
    requires 1 <= d
    ensures Div32(m, INT16_MAX, d) == INT16_MAX / d && 0 <= INT16_MAX / d <= INT16_MAX
  {
    var q := INT16_MAX / d;
    assert q * d <= INT16_MAX;
    Product(q, d, 1, d);
    Fits32(m, q);
  }

  function NextCounter(counter: int): int {
    if counter < 1000 then counter + 1 else counter
  }

  /** The least coefficient of frame k of a run: it falls from 32767 to 520, and is 0 from frame 985 on. */
  function LeastCoef(k: nat): int {
    if k < 985 then 32767 / ((15 + k) / 16 + 1) else 0
  }

  /** A band's energy with the bias the detector adds to it. */
  function Biased(b: nat, px: int): (nrg: int)
    requires b < BANDS && px >= 0
    ensures nrg >= 1
  {
    Min(px + [50, 25, 16, 12][b], INT32_MAX)
  }

  predicate AllNonnegative(xs: seq<int>) {
    forall b :: 0 <= b < |xs| ==> Nonnegative32(xs[b])
  }

  function NextNoise(m: Arithmetic, noise: seq<Noise>, totals: seq<int>, minCoef: int): (r: seq<Noise>)
    requires AllNoiseInv(noise) && |totals| == BANDS && 0 <= minCoef <= INT16_MAX && AllNonnegative(totals)
    ensures AllNoiseInv(r)
  {
    seq(BANDS, b requires 0 <= b < BANDS => NoiseStep(m, noise[b], Bias(b), totals[b], minCoef))
  }

  /** Every band learns from its energy. */
  lemma AllLearn(noise: seq<Noise>, totals: seq<int>, counter: nat, b: nat)
    requires AllNoiseInv(noise) && |totals| == BANDS && AllNonnegative(totals) && b < BANDS && counter >= 15
    ensures Learned(noise[b], Biased(b, totals[b]), LeastCoef(counter - 15),
                    NextNoise(Machine, noise, totals, MinCoef(Machine, counter))[b])
  {
    hide NoiseStep, Learned;
    MinCoefExact(Machine, counter);
    FirstCoef(Exact, counter / 16 + 1);
    assert Bias(0) == 50 && Bias(1) == 25 && Bias(2) == 16 && Bias(3) == 12;
    StepLearns(Machine, noise[b], Bias(b), totals[b], LeastCoef(counter - 15));
  }

  function NoiseLevels(noise: seq<Noise>): (nl: seq<int>)
    ensures |nl| == |noise|
    ensures forall b :: 0 <= b < |noise| ==> nl[b] == noise[b].nl
  {
    seq(|noise|, b requires 0 <= b < |noise| => noise[b].nl)
  }

  function FrameTotals(m: Arithmetic, s: VadState, a: Analysis): seq<int>
    requires BoundedMemory(s)
  {
    Totals(Energies(m, s.subfr, a))
  }

  /** The noise estimate after the frame whose bands are given. */
  function FrameNoise(m: Arithmetic, s: VadState, a: Analysis): (r: seq<Noise>)
    requires BoundedMemory(s) && BoundedAnalysis(a) && Measurable(m, s, a)
    ensures AllNoiseInv(r)
    ensures AllLevels(FrameTotals(m, s, a), NoiseLevels(r))
  {
    EnergiesFit(m, s, a);
    NextNoise(m, s.noise, FrameTotals(m, s, a), MinCoef(m, s.counter))
  }

  function FrameScore(m: Arithmetic, s: VadState, a: Analysis): (sa: int)
    requires BoundedMemory(s) && BoundedAnalysis(a) && Measurable(m, s, a)
    ensures 4 <= sa <= 255
  {
    var totals, nl := FrameTotals(m, s, a), NoiseLevels(FrameNoise(m, s, a));
    SnrSumRange(m, totals, nl, BANDS);
    ScoreRange(m, SnrSum(m, totals, nl, BANDS));
    Score(m, SnrSum(m, totals, nl, BANDS))
  }

  /** Frames of n samples that this reading covers: the machine takes any length. */
  predicate Covers(m: Arithmetic, s: VadState, n: nat) {
    m.Machine? || (Clean(s) && n < LONG_FRAME)
  }

  /** One frame: the next state and the speech activity. */
  function Analyse(m: Arithmetic, s: VadState, frame: seq<int>): (VadState, int)
    requires Bounded(s) && Frame(frame) && Covers(m, s, |frame|)
  {
    BandsExact(m, s, frame);
    assert Measurable(m, s, BandsOf(m, s, frame)) by {
      if |frame| < LONG_FRAME {
        BandsShort(m, s, frame);
      }
    }
    var a := BandsOf(m, s, frame);
    (VadState(a.ana, a.ana1, a.ana2, a.hp, Carries(Energies(m, s.subfr, a)), FrameNoise(m, s, a),
              NextCounter(s.counter), s.remaining),
     FrameScore(m, s, a))
  }

  /** The analysis, stage by stage. */
  lemma AnalyseForm(s: VadState, frame: seq<int>, a: Analysis)
    requires Bounded(s) && Frame(frame) && a == BandsOf(Machine, s, frame)
    ensures BoundedMemory(s) && BoundedAnalysis(a) && a == SplitBands(Splitter(Machine), HighPasser(Machine), s, frame)
    ensures |s.subfr| == BANDS && AllNoiseInv(s.noise) && s.counter >= 15
    ensures var totals := Totals(Energies(Machine, s.subfr, a));
            AllNonnegative(totals)
            && var noise := NextNoise(Machine, s.noise, totals, MinCoef(Machine, s.counter));
            AllLevels(totals, NoiseLevels(noise))
            && 0 <= SnrSum(Machine, totals, NoiseLevels(noise), BANDS) <= 4 * 0x90_0000
            && Analyse(Machine, s, frame)
               == (VadState(a.ana, a.ana1, a.ana2, a.hp, Carries(Energies(Machine, s.subfr, a)), noise,
                            NextCounter(s.counter), s.remaining),
                   Score(Machine, SnrSum(Machine, totals, NoiseLevels(noise), BANDS)))
  {
    BandsExact(Machine, s, frame);
    EnergiesFit(Machine, s, a);
    SnrSumRange(Machine, FrameTotals(Machine, s, a), NoiseLevels(FrameNoise(Machine, s, a)), BANDS);
  }

  lemma MinCoefExact(m: Arithmetic, counter: int)
    requires 0 <= counter
    ensures MinCoef(m, counter) == MinCoef(Exact, counter)
  {
    FirstCoef(m, counter / 16 + 1);
    FirstCoef(Exact, counter / 16 + 1);
  }

  lemma FrameNoiseExact(s: VadState, a: Analysis)
    requires BoundedMemory(s) && BoundedAnalysis(a) && Clean(s) && ShortBands(a)
    ensures FrameTotals(Machine, s, a) == FrameTotals(Exact, s, a)
    ensures FrameNoise(Machine, s, a) == FrameNoise(Exact, s, a)
  {
    EnergiesExact(Machine, s.subfr, a);
    MinCoefExact(Machine, s.counter);
    var totals, minCoef := FrameTotals(Exact, s, a), MinCoef(Exact, s.counter);
    forall b | 0 <= b < BANDS
      ensures NoiseStep(Machine, s.noise[b], Bias(b), totals[b], minCoef)
              == NoiseStep(Exact, s.noise[b], Bias(b), totals[b], minCoef)
    {
      NoiseStepExact(s.noise[b], Bias(b), totals[b], minCoef);
    }
  }

  lemma FrameScoreExact(s: VadState, a: Analysis)
    requires BoundedMemory(s) && BoundedAnalysis(a) && Clean(s) && ShortBands(a)
    ensures FrameScore(Machine, s, a) == FrameScore(Exact, s, a)
  {
    FrameNoiseExact(s, a);
    var totals, nl := FrameTotals(Exact, s, a), NoiseLevels(FrameNoise(Exact, s, a));
    SnrSumRange(Machine, totals, nl, BANDS);
    ScoreRange(Machine, SnrSum(Exact, totals, nl, BANDS));
  }

  lemma FrameCarriesExact(s: VadState, a: Analysis)
    requires BoundedMemory(s) && BoundedAnalysis(a) && Clean(s) && ShortBands(a)
    ensures Carries(Energies(Machine, s.subfr, a)) == Carries(Energies(Exact, s.subfr, a))
    ensures forall b :: 0 <= b < BANDS ==> Nonnegative32(Carries(Energies(Exact, s.subfr, a))[b])
  {
    EnergiesExact(Machine, s.subfr, a);
  }

  /** At every frame length the state stays bounded and the activity lies in [4, 255]; short frames
      wrap no energy. */
  lemma AnalyseKeeps(m: Arithmetic, s: VadState, frame: seq<int>)
    requires Bounded(s) && Frame(frame) && Covers(m, s, |frame|)
    ensures var (t, sa) := Analyse(m, s, frame);
            && Bounded(t) && t.remaining == s.remaining && 4 <= sa <= 255
            && (Clean(s) && |frame| < LONG_FRAME ==> Clean(t))
  {
    hide BandsOf, Energies, FrameScore, FrameNoise, Fits;
    BandsExact(m, s, frame);
    var a := BandsOf(m, s, frame);
    if |frame| < LONG_FRAME {
      BandsShort(m, s, frame);
    }
    EnergiesFit(m, s, a);
  }

  /** Below 1024 samples the machine computes what unbounded integers would. */
  lemma AnalyseExact(s: VadState, frame: seq<int>)
    requires Bounded(s) && Clean(s) && Frame(frame) && |frame| < LONG_FRAME
    ensures Analyse(Machine, s, frame) == Analyse(Exact, s, frame)
  {
    BandsExact(Machine, s, frame);
    BandsExact(Exact, s, frame);
    BandsShort(Exact, s, frame);
    var a := BandsOf(Exact, s, frame);
    FrameCarriesExact(s, a);
    FrameNoiseExact(s, a);
    FrameScoreExact(s, a);
  }

  // ---- Hangover ----

  /** One frame's verdict: speech refills the hangover, silence uses it up. */
  function HangFrame(remaining: int, active: bool): (int, bool) {
    if active then (HANGOVER_MS, true)
    else if remaining > 0 then (remaining - FRAME_MS, true)
    else (remaining, false)
  }

  /** The hangover left after the first k frames of a packet. */
  function HangAfter(remaining: int, active: seq<bool>, k: nat): int
    requires k <= |active|
  {
    if k == 0 then remaining else HangFrame(HangAfter(remaining, active, k - 1), active[k - 1]).0
  }

  predicate CodedBy(remaining: int, active: seq<bool>, k: nat)
    requires k <= |active|
  {
    exists i :: 0 <= i < k && HangFrame(HangAfter(remaining, active, i), active[i]).1
  }

  predicate AnyActive(active: seq<bool>) {
    exists i :: 0 <= i < |active| && active[i]
  }

  predicate HangoverLeft(r: int) {
    r == 0 || r == 20 || r == 40 || r == 60
  }

  /** A packet of three frames: it is coded exactly when it has speech or hangover was left,
      and afterwards hangover is left exactly when it had speech. */
  lemma HangPacket(remaining: int, active: seq<bool>)
    requires HangoverLeft(remaining) && |active| == 3
    ensures CodedBy(remaining, active, 3) <==> AnyActive(active) || remaining > 0
    ensures HangoverLeft(HangAfter(remaining, active, 3))
    ensures HangAfter(remaining, active, 3) > 0 <==> AnyActive(active)
  {
    assert HangAfter(remaining, active, 0) == remaining;
    var r1, r2 := HangAfter(remaining, active, 1), HangAfter(remaining, active, 2);
    assert r1 == HangFrame(remaining, active[0]).0 && r2 == HangFrame(r1, active[1]).0;
    assert HangAfter(remaining, active, 3) == HangFrame(r2, active[2]).0;
    assert AnyActive(active) <==> active[0] || active[1] || active[2];
    assert CodedBy(remaining, active, 3)
           <==> HangFrame(remaining, active[0]).1 || HangFrame(r1, active[1]).1 || HangFrame(r2, active[2]).1;
  }

  // ---- One packet ----

  datatype PacketResult = PacketResult(results: seq<real>, coded: bool)

  predicate Samples(pcm: seq<int>, framelen: nat) {
    AllInt16(pcm) && Fits(framelen)
  }

  predicate LongEnough(pcm: seq<int>, framelen: nat) {
    |pcm| >= 3 * framelen
  }

  function FrameAt(pcm: seq<int>, framelen: nat, i: nat): (f: seq<int>)
    requires i < 3 && LongEnough(pcm, framelen)
    ensures |f| == framelen
    ensures AllInt16(pcm) ==> AllInt16(f)
  {
    pcm[i * framelen..i * framelen + framelen]
  }

  /** The state after the first k frames of a packet. */
  function AfterFrames(m: Arithmetic, s: VadState, pcm: seq<int>, framelen: nat, k: nat): (s': VadState)
    requires Bounded(s) && Samples(pcm, framelen) && LongEnough(pcm, framelen) && k <= 3
    requires Covers(m, s, framelen)
    ensures Bounded(s') && s'.remaining == s.remaining
    ensures Clean(s) && framelen < LONG_FRAME ==> Clean(s')
    decreases k
  {
    if k == 0 then s
    else
      var t := AfterFrames(m, s, pcm, framelen, k - 1);
      AnalyseKeeps(m, t, FrameAt(pcm, framelen, k - 1));
      Analyse(m, t, FrameAt(pcm, framelen, k - 1)).0
  }

  /** Speech activity of frame i of a packet. */
  function Activity(m: Arithmetic, s: VadState, pcm: seq<int>, framelen: nat, i: nat): int
    requires Bounded(s) && Samples(pcm, framelen) && LongEnough(pcm, framelen) && i < 3
    requires Covers(m, s, framelen)
  {
    Analyse(m, AfterFrames(m, s, pcm, framelen, i), FrameAt(pcm, framelen, i)).1
  }

  function Activities(m: Arithmetic, s: VadState, pcm: seq<int>, framelen: nat): (sa: seq<int>)
    requires Bounded(s) && Samples(pcm, framelen) && LongEnough(pcm, framelen)
    requires Covers(m, s, framelen)
    ensures |sa| == 3
  {
    [Activity(m, s, pcm, framelen, 0), Activity(m, s, pcm, framelen, 1), Activity(m, s, pcm, framelen, 2)]
  }

  function ActiveFrames(m: Arithmetic, s: VadState, pcm: seq<int>, framelen: nat): (active: seq<bool>)
    requires Bounded(s) && Samples(pcm, framelen) && LongEnough(pcm, framelen)
    requires Covers(m, s, framelen)
    ensures |active| == 3
  {
    Above(Activities(m, s, pcm, framelen))
  }

  lemma FrameStep(s: VadState, pcm: seq<int>, framelen: nat, i: nat)
    requires Bounded(s) && Samples(pcm, framelen) && LongEnough(pcm, framelen) && i < 3
    ensures Analyse(Machine, AfterFrames(Machine, s, pcm, framelen, i), FrameAt(pcm, framelen, i))
            == (AfterFrames(Machine, s, pcm, framelen, i + 1), Activities(Machine, s, pcm, framelen)[i])
  {
  }

  function Above(sa: seq<int>): (active: seq<bool>)
    ensures |active| == |sa|
  {
    seq(|sa|, i requires 0 <= i < |sa| => sa[i] > DTX_THRESHOLD)
  }

  function Probabilities(sa: seq<int>): (ps: seq<real>)
    ensures |ps| == |sa|
  {
    seq(|sa|, i requires 0 <= i < |sa| => sa[i] as real / 256.0)
  }

  /** A packet too short for three frames changes nothing. */
  function Packet(m: Arithmetic, s: VadState, pcm: seq<int>, framelen: nat): (VadState, PacketResult)
    requires Bounded(s) && Samples(pcm, framelen) && Covers(m, s, framelen)
  {
    if !LongEnough(pcm, framelen) then (s, PacketResult([0.0, 0.0, 0.0], false))
    else
      var active := ActiveFrames(m, s, pcm, framelen);
      (AfterFrames(m, s, pcm, framelen, 3).(remaining := HangAfter(s.remaining, active, 3)),
       PacketResult(Probabilities(Activities(m, s, pcm, framelen)), CodedBy(s.remaining, active, 3)))
  }

  lemma {:induction false} AfterFramesExact(s: VadState, pcm: seq<int>, framelen: nat, k: nat)
    requires Bounded(s) && Samples(pcm, framelen) && LongEnough(pcm, framelen) && k <= 3
    requires Clean(s) && framelen < LONG_FRAME
    ensures AfterFrames(Machine, s, pcm, framelen, k) == AfterFrames(Exact, s, pcm, framelen, k)
  {
    hide Analyse, Fits;
    if k > 0 {
      AfterFramesExact(s, pcm, framelen, k - 1);
      AnalyseExact(AfterFrames(Exact, s, pcm, framelen, k - 1), FrameAt(pcm, framelen, k - 1));
    }
  }

  lemma ActivityExact(s: VadState, pcm: seq<int>, framelen: nat, i: nat)
    requires Bounded(s) && Samples(pcm, framelen) && LongEnough(pcm, framelen) && i < 3
    requires Clean(s) && framelen < LONG_FRAME
    ensures Activity(Machine, s, pcm, framelen, i) == Activity(Exact, s, pcm, framelen, i)
  {
    AfterFramesExact(s, pcm, framelen, i);
    AnalyseExact(AfterFrames(Exact, s, pcm, framelen, i), FrameAt(pcm, framelen, i));
  }

  lemma ActivitiesExact(s: VadState, pcm: seq<int>, framelen: nat)
    requires Bounded(s) && Samples(pcm, framelen) && LongEnough(pcm, framelen)
    requires Clean(s) && framelen < LONG_FRAME
    ensures Activities(Machine, s, pcm, framelen) == Activities(Exact, s, pcm, framelen)
  {
    ActivityExact(s, pcm, framelen, 0);
    ActivityExact(s, pcm, framelen, 1);
    ActivityExact(s, pcm, framelen, 2);
  }

  /** Below 1024 samples a frame, the machine computes for a packet what unbounded integers would. */
  lemma PacketExact(s: VadState, pcm: seq<int>, framelen: nat)
    requires Bounded(s) && Samples(pcm, framelen)
    requires Clean(s) && framelen < LONG_FRAME
    ensures Packet(Machine, s, pcm, framelen) == Packet(Exact, s, pcm, framelen)
  {
    if LongEnough(pcm, framelen) {
      AfterFramesExact(s, pcm, framelen, 3);
      ActivitiesExact(s, pcm, framelen);
    }
  }

  /** What a packet's verdict and its leftover hangover depend on. */
  lemma PacketVerdict(s: VadState, pcm: seq<int>, framelen: nat)
    requires Bounded(s) && Samples(pcm, framelen) && LongEnough(pcm, framelen)
    ensures Packet(Machine, s, pcm, framelen).1.coded
            <==> AnyActive(ActiveFrames(Machine, s, pcm, framelen)) || s.remaining > 0
    ensures HangoverLeft(Packet(Machine, s, pcm, framelen).0.remaining)
    ensures Packet(Machine, s, pcm, framelen).0.remaining > 0 <==> AnyActive(ActiveFrames(Machine, s, pcm, framelen))
  {
    HangPacket(s.remaining, ActiveFrames(Machine, s, pcm, framelen));
  }

  // ---- Whole runs ----

  predicate AllSamples(packets: seq<seq<int>>, framelen: nat) {
    forall p :: 0 <= p < |packets| ==> Samples(packets[p], framelen)
  }

  /** The state after a run of packets, from the initial state. */
  function AfterPackets(m: Arithmetic, packets: seq<seq<int>>, framelen: nat): (s: VadState)
    requires AllSamples(packets, framelen) && (m.Exact? ==> framelen < LONG_FRAME)
    ensures Bounded(s) && (framelen < LONG_FRAME ==> Clean(s))
  {
    if packets == [] then InitialState()
    else
      var s := AfterPackets(m, packets[..|packets| - 1], framelen);
      PacketKeeps(m, s, packets[|packets| - 1], framelen);
      Packet(m, s, packets[|packets| - 1], framelen).0
  }

  /** A packet keeps the state bounded. */
  lemma PacketKeeps(m: Arithmetic, s: VadState, pcm: seq<int>, framelen: nat)
    requires Bounded(s) && Samples(pcm, framelen) && Covers(m, s, framelen)
    ensures Bounded(Packet(m, s, pcm, framelen).0)
    ensures Clean(s) && framelen < LONG_FRAME ==> Clean(Packet(m, s, pcm, framelen).0)
  {
    hide AfterFrames, ActiveFrames, Activities, HangAfter, CodedBy, Fits;
    if LongEnough(pcm, framelen) {
      HangPacket(s.remaining, ActiveFrames(m, s, pcm, framelen));
    }
  }

  /** Over any run of 16-bit packets of frames below 1024 samples the machine and the unbounded
      integers agree. */
  lemma {:induction false} RunExact(packets: seq<seq<int>>, framelen: nat)
    requires AllSamples(packets, framelen) && framelen < LONG_FRAME
    ensures AfterPackets(Machine, packets, framelen) == AfterPackets(Exact, packets, framelen)
  {
    if packets != [] {
      RunExact(packets[..|packets| - 1], framelen);
      PacketExact(AfterPackets(Exact, packets[..|packets| - 1], framelen), packets[|packets| - 1], framelen);
    }
  }

  /** The verdict on packet p of a run, and whether the packet contains speech. */
  function CodedAt(packets: seq<seq<int>>, framelen: nat, p: nat): bool
    requires AllSamples(packets, framelen) && p < |packets|
  {
    Packet(Machine, AfterPackets(Machine, packets[..p], framelen), packets[p], framelen).1.coded
  }

  predicate SpeechAt(packets: seq<seq<int>>, framelen: nat, p: nat)
    requires AllSamples(packets, framelen) && p < |packets| && LongEnough(packets[p], framelen)
  {
    AnyActive(ActiveFrames(Machine, AfterPackets(Machine, packets[..p], framelen), packets[p], framelen))
  }

  /** Hangover is left after packet p exactly when it contained speech. */
  lemma HangoverAfter(packets: seq<seq<int>>, framelen: nat, p: nat)
    requires AllSamples(packets, framelen) && p < |packets| && LongEnough(packets[p], framelen)
    ensures var s := AfterPackets(Machine, packets[..p + 1], framelen);
            HangoverLeft(s.remaining) && (s.remaining > 0 <==> SpeechAt(packets, framelen, p))
  {
    assert packets[..p + 1][..p] == packets[..p];
    PacketVerdict(AfterPackets(Machine, packets[..p], framelen), packets[p], framelen);
  }

  /** The last packet before p that was long enough to be analysed. */
  function LastAccepted(packets: seq<seq<int>>, framelen: nat, p: nat): (r: Option<nat>)
    requires p <= |packets|
    ensures r.Some? ==> r.value < p && LongEnough(packets[r.value], framelen)
  {
    if p == 0 then None
    else if LongEnough(packets[p - 1], framelen) then Some(p - 1)
    else LastAccepted(packets, framelen, p - 1)
  }

  /** Rejected packets leave the state where the last accepted one left it. */
  lemma {:induction false} StateSinceAccepted(packets: seq<seq<int>>, framelen: nat, p: nat)
    requires AllSamples(packets, framelen) && p <= |packets|
    ensures AfterPackets(Machine, packets[..p], framelen)
            == match LastAccepted(packets, framelen, p)
               case None => InitialState()
               case Some(q) => AfterPackets(Machine, packets[..q + 1], framelen)
  {
    hide Bounded, AfterFrames, ActiveFrames, HangAfter, CodedBy, Activities, Fits, InitialState;
    if p > 0 && !LongEnough(packets[p - 1], framelen) {
      StateSinceAccepted(packets, framelen, p - 1);
      assert packets[..p][..p - 1] == packets[..p - 1];
    }
  }

  lemma RejectedNotCoded(packets: seq<seq<int>>, framelen: nat, p: nat)
    requires AllSamples(packets, framelen) && p < |packets|
    ensures !LongEnough(packets[p], framelen) ==> !CodedAt(packets, framelen, p)
  {
    hide AfterPackets, AfterFrames, ActiveFrames, Activities;
  }

  lemma AcceptedCoded(packets: seq<seq<int>>, framelen: nat, p: nat)
    requires AllSamples(packets, framelen) && p < |packets| && LongEnough(packets[p], framelen)
    ensures CodedAt(packets, framelen, p)
            <==> SpeechAt(packets, framelen, p) || AfterPackets(Machine, packets[..p], framelen).remaining > 0
  {
    hide Packet, ActiveFrames, AnyActive, Bounded, AfterPackets, Fits;
    PacketVerdict(AfterPackets(Machine, packets[..p], framelen), packets[p], framelen);
  }

  /** Before packet p hangover is left exactly when no packet was accepted yet or the last one
      accepted contains speech. */
  lemma HangoverBefore(packets: seq<seq<int>>, framelen: nat, p: nat)
    requires AllSamples(packets, framelen) && p <= |packets|
    ensures AfterPackets(Machine, packets[..p], framelen).remaining > 0
            <==> match LastAccepted(packets, framelen, p)
                 case None => true
                 case Some(q) => SpeechAt(packets, framelen, q)
  {
    hide SpeechAt, AfterPackets, LastAccepted, Fits;
    StateSinceAccepted(packets, framelen, p);
    match LastAccepted(packets, framelen, p) {
      case None =>
      case Some(q) => HangoverAfter(packets, framelen, q);
    }
  }

  /** Over any run a packet is coded as active voice exactly when it is accepted and no packet was
      accepted before it, or it or the last one accepted before it contains speech. */
  lemma CodedIff(packets: seq<seq<int>>, framelen: nat, p: nat)
    requires AllSamples(packets, framelen) && p < |packets|
    ensures CodedAt(packets, framelen, p)
            <==> LongEnough(packets[p], framelen)
                 && match LastAccepted(packets, framelen, p)
                    case None => true
                    case Some(q) => SpeechAt(packets, framelen, p) || SpeechAt(packets, framelen, q)
  {
    hide CodedAt, SpeechAt, AfterPackets, LastAccepted, Fits;
    RejectedNotCoded(packets, framelen, p);
    if LongEnough(packets[p], framelen) {
      AcceptedCoded(packets, framelen, p);
      HangoverBefore(packets, framelen, p);
    }
  }

  // ---- The object ----

  ghost predicate HoldsBands(x: seq<int>, n: nat, a: Analysis) {
    |x| == BufferSize(n) && forall b :: 0 <= b < BANDS ==> HoldsBand(x, n, a, b)
  }

  lemma BandHeld(x: seq<int>, n: nat, a: Analysis, b: nat)
    requires HoldsBands(x, n, a) && b < BANDS
    ensures Offset(n, b) + Length(n, b) <= |x|
    ensures x[Offset(n, b)..Offset(n, b) + Length(n, b)] == a.Band(b)
  {
    assert HoldsBand(x, n, a, b);
  }

  ghost predicate HoldsBand(x: seq<int>, n: nat, a: Analysis, b: nat)
    requires b < BANDS
  {
    Offset(n, b) + Length(n, b) <= |x| && x[Offset(n, b)..Offset(n, b) + Length(n, b)] == a.Band(b)
  }

  lemma BufferParts(n: nat)
    ensures BufferSize(n) == Offset(n, 3) + n / 2
  {
  }

  lemma BandsHeld(g: HpRule, hp: int, x: seq<int>, y: seq<int>, n: nat, ana: Sections, ana1: Sections, ana2: Sections)
    requires |x| == |y| == BufferSize(n)
    requires y[..n / 8] == HpOutput(g, hp, x[..n / 8]) && y[n / 8..] == x[n / 8..]
    ensures HoldsBands(y, n, BandsIn(g, hp, x, n, ana, ana1, ana2))
  {
    hide HpOutput, HpAfter;
    hide BufferSize;
    Layout(n);
    BufferParts(n);
    assert forall i :: n / 8 <= i < |x| ==> y[i] == x[n / 8..][i - n / 8] == x[i];
    forall b | 0 <= b < BANDS
      ensures HoldsBand(y, n, BandsIn(g, hp, x, n, ana, ana1, ana2), b)
    {
      assert b == 0 || b == 1 || b == 2 || b == 3;
    }
  }

  lemma FirstPassHeld(f: Rule, s: Sections, frame: seq<int>, x: seq<int>)
    requires Fits(|frame|) && |x| == BufferSize(|frame|)
    requires x[..|frame| / 2] == LowBand(f, s, frame) && x[Offset(|frame|, 3)..] == HighBand(f, s, frame)
    requires x[|frame| / 2..Offset(|frame|, 3)] == Quiet(Offset(|frame|, 3) - |frame| / 2)
    ensures x == FirstPass(f, s, frame)
  {
    hide LowBand, HighBand;
    var n, m := |frame| / 2, Offset(|frame|, 3);
    assert x == x[..n] + x[n..m] + x[m..];
  }

  /** The first split fills a silent work buffer. */
  method SplitFrame(f: Rule, pIn: seq<int>, x: array<int>, ana: Sections) returns (r: Sections)
    requires Fits(|pIn|) && x.Length == BufferSize(|pIn|) && x[..] == Quiet(x.Length)
    modifies x
    ensures r == EndState(f, ana, pIn) && x[..] == FirstPass(f, ana, pIn)
  {
    ghost var was := x[..];
    r := AnaFiltBank1(f, pIn, ana, x, 0, Offset(|pIn|, 3));
    assert was[|pIn| / 2..Offset(|pIn|, 3)] == Quiet(Offset(|pIn|, 3) - |pIn| / 2);
    FirstPassHeld(f, ana, pIn, x[..]);
  }

  /** Three splits over one buffer, the lowest band high-passed. */
  method SplitIntoBands(f: Rule, g: HpRule, pIn: seq<int>, x: array<int>, ana: Sections, ana1: Sections,
                        ana2: Sections, hp: int, ghost s: VadState)
    returns (r: Sections, r1: Sections, r2: Sections, h: int)
    requires Fits(|pIn|) && x.Length == BufferSize(|pIn|) && x[..] == Quiet(x.Length)
    requires ana == s.ana && ana1 == s.ana1 && ana2 == s.ana2 && hp == s.hp
    modifies x
    ensures var a := SplitBands(f, g, s, pIn);
            r == a.ana && r1 == a.ana1 && r2 == a.ana2 && h == a.hp && HoldsBands(x[..], |pIn|, a)
  {
    hide LowBand, HighBand, EndState, HpOutput, HpAfter, FirstPass, InPlace, HoldsBands;
    var n := |pIn|;
    Layout(n);
    r := SplitFrame(f, pIn, x, ana);
    r1 := AnaFiltBank1Inplace(f, x, Offset(n, 2), ana1, n / 2);
    r2 := AnaFiltBank1Inplace(f, x, Offset(n, 1), ana2, n / 4);
    ghost var done := x[..];
    h := FiltHP(g, x, hp, n / 8);
    BandsHeld(g, hp, done, x[..], n, r, r1, r2);
  }

  /** The summed ratios of all bands, turned into the score. */
  method ScoreBands(xnrg: seq<int>, nl: seq<int>) returns (sa: int)
    requires AllLevels(xnrg, nl)
    ensures 0 <= SnrSum(Machine, xnrg, nl, BANDS) <= 4 * 0x90_0000
    ensures sa == Score(Machine, SnrSum(Machine, xnrg, nl, BANDS))
  {
    var sumSquared := 0;
    for b := 0 to BANDS
      invariant sumSquared == SnrSum(Machine, xnrg, nl, b)
    {
      if xnrg[b] - nl[b] > 0 {
        var snrQ7 := SnrQ7(Machine, xnrg[b], nl[b]);
        sumSquared := Smlabb(Machine, sumSquared, snrQ7, snrQ7);
      }
    }
    SnrSumRange(Machine, xnrg, nl, BANDS);
    sa := Score(Machine, sumSquared);
  }

  class SmplVadState {
    var ana: Sections
    var ana1: Sections
    var ana2: Sections
    var hp: int
    var subfr: seq<int>
    var noise: seq<Noise>
    var counter: int
    var remaining: int

    function State(): VadState
      reads this
    {
      VadState(ana, ana1, ana2, hp, subfr, noise, counter, remaining)
    }

    constructor ()
      ensures State() == InitialState()
    {
      ana, ana1, ana2, hp := Sections(0, 0), Sections(0, 0), Sections(0, 0), 0;
      subfr := [0, 0, 0, 0];
      counter, remaining := 15, HANGOVER_MS;
      noise := [];
      new;
      for b := 0 to BANDS
        invariant |noise| == b && forall k :: 0 <= k < b ==> noise[k] == InitialNoise(k)
        invariant ana == ana1 == ana2 == Sections(0, 0) && hp == 0 && subfr == [0, 0, 0, 0]
        invariant counter == 15 && remaining == HANGOVER_MS
      {
        var bias := 50 / (b + 1);
        if bias < 1 {
          bias := 1;
        }
        var nl := 100 * bias;
        noise := noise + [Noise(nl, INT32_MAX / nl)];
      }
    }

    /** Updates every band's estimate in turn. */
    method GetNoiseLevels(pX: seq<int>)
      requires AllNoiseInv(noise) && 15 <= counter && |pX| == BANDS
      requires AllNonnegative(pX)
      modifies this`noise, this`counter
      ensures noise == NextNoise(Machine, old(noise), pX, MinCoef(Machine, old(counter)))
      ensures counter == Min(old(counter) + 1, Max(old(counter), 1000))
      ensures forall b :: 0 <= b < BANDS ==>
                noise[b].inv >= 1 && Learned(old(noise)[b], Biased(b, pX[b]), LeastCoef(old(counter) - 15), noise[b])
    {
      hide Learned, LeastCoef, Biased, Coef, NextInverse;
      forall b | 0 <= b < BANDS
        ensures Learned(noise[b], Biased(b, pX[b]), LeastCoef(counter - 15),
                        NextNoise(Machine, noise, pX, MinCoef(Machine, counter))[b])
      {
        AllLearn(noise, pX, counter, b);
      }
      var minCoef := 0;
      FirstCoef(Machine, counter / 16 + 1);
      if counter < 1000 {
        minCoef := Div32(Machine, INT16_MAX, counter / 16 + 1);
        counter := counter + 1;
      }
      for b := 0 to BANDS
        invariant |noise| == BANDS && counter == NextCounter(old(counter))
        invariant forall k :: 0 <= k < b ==> noise[k] == NoiseStep(Machine, old(noise)[k], Bias(k), pX[k], minCoef)
        invariant forall k :: b <= k < BANDS ==> noise[k] == old(noise)[k]
      {
        NoiseFacts(Machine, noise[b], Bias(b), pX[b], minCoef);
        var nl := noise[b].nl;
        var nrg := AddPosSat32(Machine, pX[b], Bias(b));
        var invNrg := Div32(Machine, INT32_MAX, nrg);
        var coef := Coef(Machine, nl, nrg, invNrg, minCoef);
        var inv := NextInverse(Machine, noise[b].inv, invNrg, coef);
        var v := Div32(Machine, INT32_MAX, inv);
        if v > NL_MAX {
          v := NL_MAX;
        }
        noise := noise[b := Noise(v, inv)];
      }
    }

    /** Measures each band and remembers its last subframe. */
    method MeasureBands(x: array<int>, n: nat, ghost a: Analysis) returns (xnrg: seq<int>)
      requires |subfr| == BANDS && HoldsBands(x[..], n, a)
      modifies this`subfr
      ensures xnrg == Totals(Energies(Machine, old(subfr), a)) && subfr == Carries(Energies(Machine, old(subfr), a))
    {
      hide BandEnergy, HoldsBands;
      xnrg := [];
      for b := 0 to BANDS
        invariant |xnrg| == b && |subfr| == BANDS
        invariant forall k :: 0 <= k < b ==> xnrg[k] == Energies(Machine, old(subfr), a)[k].total
        invariant forall k :: 0 <= k < b ==> subfr[k] == Energies(Machine, old(subfr), a)[k].carry
        invariant forall k :: b <= k < BANDS ==> subfr[k] == old(subfr)[k]
      {
        BandHeld(x[..], n, a, b);
        var e := MeasureBand(x, Offset(n, b), Length(n, b), subfr[b]);
        xnrg := xnrg + [e.total];
        subfr := subfr[b := e.carry];
      }
    }

    /** Speech activity of one frame. */
    method GetSAQ8(pIn: seq<int>) returns (sa: int)
      requires Bounded(State()) && Frame(pIn)
      modifies this
      ensures (State(), sa) == Analyse(Machine, old(State()), pIn)
    {
      hide Analyse, BandsOf, SplitBands, Energies, Totals, Carries, NextNoise, NoiseLevels, SnrSum, Score, Bounded;
      hide BoundedMemory, BoundedAnalysis, AllNoiseInv, AllNonnegative, AllLevels, HoldsBands;
      hide Splitter, HighPasser, MinCoef;
      ghost var s := State();
      ghost var a := BandsOf(Machine, s, pIn);
      AnalyseForm(s, pIn, a);
      var x := new int[BufferSize(|pIn|)](_ => 0);
      assert x[..] == Quiet(x.Length);
      ana, ana1, ana2, hp := SplitIntoBands(Splitter(Machine), HighPasser(Machine), pIn, x, ana, ana1, ana2, hp, s);
      var xnrg := MeasureBands(x, |pIn|, a);
      GetNoiseLevels(xnrg);
      sa := ScoreBands(xnrg, NoiseLevels(noise));
    }

    /** One 60 ms packet: three frames, then the hangover over their verdicts. */
    method ProcessPacket(pcm: seq<int>, framelen: nat) returns (r: PacketResult)
      requires Bounded(State()) && Samples(pcm, framelen)
      modifies this
      ensures (State(), r) == Packet(Machine, old(State()), pcm, framelen)
    {
      if |pcm| < 3 * framelen {
        return PacketResult([0.0, 0.0, 0.0], false);
      }
      ghost var s := State();
      var sa := AnalyseFrames(pcm, framelen);
      var coded := Hangover(Above(sa));
      r := PacketResult(Probabilities(sa), coded);
    }

    method AnalyseFrames(pcm: seq<int>, framelen: nat) returns (sa: seq<int>)
      requires Bounded(State()) && Samples(pcm, framelen) && LongEnough(pcm, framelen)
      modifies this
      ensures State() == AfterFrames(Machine, old(State()), pcm, framelen, 3)
      ensures sa == Activities(Machine, old(State()), pcm, framelen)
    {
      hide Analyse, Activity, Activities;
      ghost var s := State();
      ghost var all := Activities(Machine, s, pcm, framelen);
      sa := [];
      for i := 0 to 3
        invariant sa == all[..i] && State() == AfterFrames(Machine, s, pcm, framelen, i)
      {
        FrameStep(s, pcm, framelen, i);
        var one := GetSAQ8(FrameAt(pcm, framelen, i));
        sa := sa + [one];
      }
    }

    method Hangover(active: seq<bool>) returns (coded: bool)
      modifies this`remaining
      ensures remaining == HangAfter(old(remaining), active, |active|)
      ensures coded <==> CodedBy(old(remaining), active, |active|)
    {
      coded := false;
      for i := 0 to |active|
        invariant remaining == HangAfter(old(remaining), active, i)
        invariant coded <==> CodedBy(old(remaining), active, i)
      {
        if active[i] {
          remaining := HANGOVER_MS;
          coded := true;
        } else if remaining > 0 {
          remaining := remaining - FRAME_MS;
          coded := true;
        }
      }
    }
  }
}
