/** The two-band all-pass split, out of place and in place, and the high-pass filter. */
module FilterBank {
  import opened FixedPoint

  /** The carried state of the two all-pass sections. */
  datatype Sections = Sections(even: int, odd: int)

  datatype SplitStep = SplitStep(state: Sections, low: int, high: int)

  const FB_EVEN := -29322
  const FB_ODD := 7788

  // ---- One pair of samples ----

  /** One all-pass section: its output and its next state. */
  datatype SectionStep = SectionStep(state: int, output: int)

  function EvenSection(m: Arithmetic, s: int, x: int): SectionStep {
    var in32 := W(m, x * 0x400);
    var y := W(m, in32 - s);
    var t := Smlawb(m, y, y, FB_EVEN);
    SectionStep(W(m, in32 + t), W(m, s + t))
  }

  function OddSection(m: Arithmetic, s: int, x: int): SectionStep {
    var in32 := W(m, x * 0x400);
    var y := W(m, in32 - s);
    var t := Smulwb(m, y, FB_ODD);
    SectionStep(W(m, in32 + t), W(m, s + t))
  }

  function Split(m: Arithmetic, s: Sections, x0: int, x1: int): SplitStep {
    var e, o := EvenSection(m, s.even, x0), OddSection(m, s.odd, x1);
    SplitStep(Sections(e.state, o.state),
              Sat16(RshiftRound11(m, W(m, o.output + e.output))),
              Sat16(RshiftRound11(m, W(m, o.output - e.output))))
  }

  predicate Within(x: int, bound: int) {
    -bound <= x <= bound
  }

  /** Bounds that 16-bit input never pushes the sections out of. */
  predicate SectionsBounded(s: Sections) {
    Within(s.even, 116_500_000) && Within(s.odd, 42_700_000)
  }

  lemma EvenSectionExact(s: int, x: int)
    requires Within(s, 116_500_000) && Int16(x)
    ensures EvenSection(Machine, s, x) == EvenSection(Exact, s, x)
    ensures Within(EvenSection(Exact, s, x).state, 116_500_000)
    ensures Within(EvenSection(Exact, s, x).output, 250_000_000)
  {
    hide W, W16;
    var in32 := x * 0x400;
    var y := in32 - s;
    var t := y + y * FB_EVEN / 0x1_0000;
    Same32(in32);
    Same32(y);
    Same16(FB_EVEN);
    Same32(t);
    Same32(in32 + t);
    Same32(s + t);
  }

  lemma OddSectionExact(s: int, x: int)
    requires Within(s, 42_700_000) && Int16(x)
    ensures OddSection(Machine, s, x) == OddSection(Exact, s, x)
    ensures Within(OddSection(Exact, s, x).state, 42_700_000)
    ensures Within(OddSection(Exact, s, x).output, 60_000_000)
  {
    hide W, W16;
    var in32 := x * 0x400;
    var y := in32 - s;
    var t := y * FB_ODD / 0x1_0000;
    Same32(in32);
    Same32(y);
    Same16(FB_ODD);
    Same32(t);
    Same32(in32 + t);
    Same32(s + t);
  }

  lemma OutputExact(o: int)
    requires Within(o, 310_000_000)
    ensures W(Machine, o) == o && W(Exact, o) == o
    ensures RshiftRound11(Machine, o) == RshiftRound11(Exact, o)
  {
    Same32(o);
    Same32(o / 0x400 + 1);
  }

  /** Inside the bounds the two readings of the split agree, and the bounds are kept. */
  lemma SplitExact(s: Sections, x0: int, x1: int)
    requires SectionsBounded(s) && Int16(x0) && Int16(x1)
    ensures Split(Machine, s, x0, x1) == Split(Exact, s, x0, x1)
    ensures SectionsBounded(Split(Exact, s, x0, x1).state)
    ensures Int16(Split(Exact, s, x0, x1).low) && Int16(Split(Exact, s, x0, x1).high)
  {
    hide EvenSection, OddSection, W, RshiftRound11;
    EvenSectionExact(s.even, x0);
    OddSectionExact(s.odd, x1);
    var e, o := EvenSection(Exact, s.even, x0), OddSection(Exact, s.odd, x1);
    OutputExact(o.output + e.output);
    OutputExact(o.output - e.output);
  }

  // ---- A whole block ----

  /** A rule for splitting one pair. The block-level results hold for every rule; the
      banks use Splitter(Machine). */
  type Rule = (Sections, int, int) -> SplitStep

  function Splitter(m: Arithmetic): Rule {
    (s, x0, x1) => Split(m, s, x0, x1)
  }

  /** The state after the first k pairs. */
  function StateAfter(f: Rule, s: Sections, xs: seq<int>, k: nat): Sections
    requires 2 * k <= |xs|
    decreases k, 0
  {
    if k == 0 then s else StepAt(f, s, xs, k - 1).state
  }

  /** What pair k is split into. */
  function StepAt(f: Rule, s: Sections, xs: seq<int>, k: nat): SplitStep
    requires 2 * k + 1 < |xs|
    decreases k, 1
  {
    f(StateAfter(f, s, xs, k), xs[2 * k], xs[2 * k + 1])
  }

  function LowBand(f: Rule, s: Sections, xs: seq<int>): (low: seq<int>)
    ensures |low| == |xs| / 2
  {
    seq(|xs| / 2, k requires 0 <= k < |xs| / 2 => StepAt(f, s, xs, k).low)
  }

  function HighBand(f: Rule, s: Sections, xs: seq<int>): (high: seq<int>)
    ensures |high| == |xs| / 2
  {
    seq(|xs| / 2, k requires 0 <= k < |xs| / 2 => StepAt(f, s, xs, k).high)
  }

  function EndState(f: Rule, s: Sections, xs: seq<int>): Sections {
    StateAfter(f, s, xs, |xs| / 2)
  }

  predicate AllInt16(xs: seq<int>) {
    forall i :: 0 <= i < |xs| ==> Int16(xs[i])
  }

  /** Two rules give the same results on bounded states and 16-bit samples, and keep to them. */
  ghost predicate RulesAgree(f: Rule, g: Rule) {
    forall s, x0, x1 :: SectionsBounded(s) && Int16(x0) && Int16(x1) ==>
      f(s, x0, x1) == g(s, x0, x1)
      && SectionsBounded(g(s, x0, x1).state) && Int16(g(s, x0, x1).low) && Int16(g(s, x0, x1).high)
  }

  lemma {:induction false} StateAfterAgrees(f: Rule, g: Rule, s: Sections, xs: seq<int>, k: nat)
    requires RulesAgree(f, g) && SectionsBounded(s) && AllInt16(xs) && 2 * k <= |xs|
    ensures StateAfter(f, s, xs, k) == StateAfter(g, s, xs, k) && SectionsBounded(StateAfter(g, s, xs, k))
  {
    if k > 0 {
      StateAfterAgrees(f, g, s, xs, k - 1);
    }
  }

  ghost predicate BlocksAgree(f: Rule, g: Rule, s: Sections, xs: seq<int>) {
    LowBand(f, s, xs) == LowBand(g, s, xs) && HighBand(f, s, xs) == HighBand(g, s, xs)
    && EndState(f, s, xs) == EndState(g, s, xs) && SectionsBounded(EndState(g, s, xs))
    && AllInt16(LowBand(g, s, xs)) && AllInt16(HighBand(g, s, xs))
  }

  lemma BlockAgrees(f: Rule, g: Rule, s: Sections, xs: seq<int>)
    requires RulesAgree(f, g) && SectionsBounded(s) && AllInt16(xs)
    ensures BlocksAgree(f, g, s, xs)
  {
    StateAfterAgrees(f, g, s, xs, |xs| / 2);
    forall k | 0 <= k < |xs| / 2
      ensures StepAt(f, s, xs, k) == StepAt(g, s, xs, k)
      ensures Int16(StepAt(g, s, xs, k).low) && Int16(StepAt(g, s, xs, k).high)
    {
      StateAfterAgrees(f, g, s, xs, k);
    }
  }

  lemma SplittersAgree()
    ensures RulesAgree(Splitter(Machine), Splitter(Exact))
  {
    forall s, x0, x1 | SectionsBounded(s) && Int16(x0) && Int16(x1)
      ensures Split(Machine, s, x0, x1) == Split(Exact, s, x0, x1)
      ensures var r := Split(Exact, s, x0, x1); SectionsBounded(r.state) && Int16(r.low) && Int16(r.high)
    {
      SplitExact(s, x0, x1);
    }
  }

  /** Splitting a block of 16-bit samples from a bounded state is exact, keeps the
      state bounded, and gives 16-bit samples again. */
  lemma BlockExact(s: Sections, xs: seq<int>)
    requires SectionsBounded(s) && AllInt16(xs)
    ensures BlocksAgree(Splitter(Machine), Splitter(Exact), s, xs)
  {
    SplittersAgree();
    BlockAgrees(Splitter(Machine), Splitter(Exact), s, xs);
  }

  /** Out of place: the low band goes to x from lowOff on, the high band from highOff on. */
  method AnaFiltBank1(f: Rule, inp: seq<int>, s: Sections, x: array<int>, lowOff: nat,
      highOff: nat) returns (s': Sections)
    requires lowOff + |inp| / 2 <= highOff && highOff + |inp| / 2 <= x.Length
    modifies x
    ensures s' == EndState(f, s, inp)
    ensures x[lowOff..lowOff + |inp| / 2] == LowBand(f, s, inp)
    ensures x[highOff..highOff + |inp| / 2] == HighBand(f, s, inp)
    ensures x[..lowOff] == old(x[..lowOff])
    ensures x[lowOff + |inp| / 2..highOff] == old(x[lowOff + |inp| / 2..highOff])
    ensures x[highOff + |inp| / 2..] == old(x[highOff + |inp| / 2..])
  {
    ghost var was := x[..];
    s' := s;
    for k := 0 to |inp| / 2
      invariant s' == StateAfter(f, s, inp, k)
      invariant BandsSoFar(f, s, inp, was, x[..], lowOff, highOff, k)
    {
      ghost var before := x[..];
      var r := f(s', inp[2 * k], inp[2 * k + 1]);
      s' := r.state;
      x[lowOff + k], x[highOff + k] := r.low, r.high;
      assert x[..] == before[lowOff + k := r.low][highOff + k := r.high];
      BandsStored(f, s, inp, was, before, lowOff, highOff, k);
    }
    BandsDone(f, s, inp, was, x[..], lowOff, highOff);
  }

  /** The buffer after k pairs: both bands so far, the rest as it was. */
  ghost predicate BandsSoFar(f: Rule, s: Sections, inp: seq<int>, was: seq<int>, x: seq<int>, lowOff: nat,
      highOff: nat, k: nat)
    requires 2 * k <= |inp| && lowOff + k <= highOff && highOff + k <= |x| == |was|
  {
    (forall j :: 0 <= j < k ==> x[lowOff + j] == StepAt(f, s, inp, j).low)
    && (forall j :: 0 <= j < k ==> x[highOff + j] == StepAt(f, s, inp, j).high)
    && (forall j :: 0 <= j < |x| && !(lowOff <= j < lowOff + k) && !(highOff <= j < highOff + k) ==> x[j] == was[j])
  }

  lemma BandsStored(f: Rule, s: Sections, inp: seq<int>, was: seq<int>, x: seq<int>, lowOff: nat, highOff: nat, k: nat)
    requires 2 * k + 1 < |inp| && lowOff + |inp| / 2 <= highOff && highOff + |inp| / 2 <= |x| == |was|
    requires BandsSoFar(f, s, inp, was, x, lowOff, highOff, k)
    ensures var r := StepAt(f, s, inp, k);
            BandsSoFar(f, s, inp, was, x[lowOff + k := r.low][highOff + k := r.high], lowOff, highOff, k + 1)
  {
  }

  lemma BandsDone(f: Rule, s: Sections, inp: seq<int>, was: seq<int>, x: seq<int>, lowOff: nat, highOff: nat)
    requires lowOff + |inp| / 2 <= highOff && highOff + |inp| / 2 <= |x| == |was|
    requires BandsSoFar(f, s, inp, was, x, lowOff, highOff, |inp| / 2)
    ensures x[lowOff..lowOff + |inp| / 2] == LowBand(f, s, inp)
    ensures x[highOff..highOff + |inp| / 2] == HighBand(f, s, inp)
    ensures x[..lowOff] == was[..lowOff] && x[lowOff + |inp| / 2..highOff] == was[lowOff + |inp| / 2..highOff]
    ensures x[highOff + |inp| / 2..] == was[highOff + |inp| / 2..]
  {
  }

  // ---- In place ----

  /** The carried state and the buffer. */
  datatype Pass = Pass(state: Sections, x: seq<int>)

  /** The first k turns of the in-place loop, wherever the high band goes: each reads its pair from
      the buffer as the turns before left it. */
  function InPlace(f: Rule, s: Sections, x: seq<int>, hiOff: nat, k: nat): (p: Pass)
    requires 2 * k <= |x| && hiOff + k <= |x|
    ensures |p.x| == |x|
    decreases k
  {
    if k == 0 then Pass(s, x)
    else
      var p := InPlace(f, s, x, hiOff, k - 1);
      var r := f(p.state, p.x[2 * k - 2], p.x[2 * k - 1]);
      Pass(r.state, p.x[hiOff + k - 1 := r.high][k - 1 := r.low])
  }

  method AnaFiltBank1Inplace(f: Rule, x: array<int>, hiOff: nat, s: Sections, n: nat) returns (s': Sections)
    requires n <= x.Length && hiOff + n / 2 <= x.Length
    modifies x
    ensures Pass(s', x[..]) == InPlace(f, s, old(x[..]), hiOff, n / 2)
  {
    ghost var was := x[..];
    var n2 := n / 2;
    s' := s;
    for k := 0 to n2
      invariant Pass(s', x[..]) == InPlace(f, s, was, hiOff, k)
    {
      ghost var before := x[..];
      var r := f(s', x[2 * k], x[2 * k + 1]);
      s' := r.state;
      x[hiOff + k] := r.high;
      x[k] := r.low;
      assert x[..] == before[hiOff + k := r.high][k := r.low];
    }
  }

  /** The in-place split of x[..n] leaves what the out-of-place split does: both bands and the state. */
  ghost predicate SplitsInPlace(f: Rule, s: Sections, x: seq<int>, hiOff: nat, n: nat) {
    n <= |x| && hiOff + n / 2 <= |x| ==>
      var p := InPlace(f, s, x, hiOff, n / 2);
      && p.state == EndState(f, s, x[..n])
      && p.x[..n / 2] == LowBand(f, s, x[..n])
      && p.x[hiOff..hiOff + n / 2] == HighBand(f, s, x[..n])
  }

  /** The high band starts past all pairs, or the only pair is read before anything is written. */
  predicate Clear(hiOff: nat, n: nat) {
    2 * (n / 2) <= hiOff || (n / 2 == 1 && hiOff == 1)
  }

  /** The buffer after k pairs: both bands so far, the rest as it was. */
  ghost predicate SplitSoFar(f: Rule, s: Sections, inp: seq<int>, was: seq<int>, x: seq<int>, hiOff: nat, k: nat)
    requires 2 * k <= |inp| && k <= hiOff && hiOff + k <= |x| == |was|
  {
    (forall j :: 0 <= j < k ==> x[j] == StepAt(f, s, inp, j).low)
    && (forall j :: 0 <= j < k ==> x[hiOff + j] == StepAt(f, s, inp, j).high)
    && (forall j :: k <= j < |x| && !(hiOff <= j < hiOff + k) ==> x[j] == was[j])
  }

  /** The pair about to be read is still untouched. */
  lemma PairUntouched(f: Rule, s: Sections, inp: seq<int>, was: seq<int>, x: seq<int>, hiOff: nat, k: nat)
    requires inp <= was && 2 * k + 1 < |inp| && 2 * (|inp| / 2) <= hiOff && hiOff + |inp| / 2 <= |x| == |was|
    requires SplitSoFar(f, s, inp, was, x, hiOff, k)
    ensures x[2 * k] == inp[2 * k] && x[2 * k + 1] == inp[2 * k + 1]
  {
    hide StepAt;
    assert was[2 * k] == inp[2 * k] && was[2 * k + 1] == inp[2 * k + 1];
  }

  /** Storing its halves completes it. */
  lemma PairStored(f: Rule, s: Sections, inp: seq<int>, was: seq<int>, x: seq<int>, hiOff: nat, k: nat)
    requires 2 * k + 1 < |inp| && 2 * (|inp| / 2) <= hiOff && hiOff + |inp| / 2 <= |x| == |was|
    requires SplitSoFar(f, s, inp, was, x, hiOff, k)
    ensures var r := StepAt(f, s, inp, k);
            SplitSoFar(f, s, inp, was, x[hiOff + k := r.high][k := r.low], hiOff, k + 1)
  {
    hide StepAt;
  }

  lemma {:induction false} InPlaceSoFar(f: Rule, s: Sections, inp: seq<int>, x: seq<int>, hiOff: nat, k: nat)
    requires inp <= x && 2 * k <= |inp| && 2 * (|inp| / 2) <= hiOff && hiOff + |inp| / 2 <= |x|
    ensures var p := InPlace(f, s, x, hiOff, k);
            p.state == StateAfter(f, s, inp, k) && SplitSoFar(f, s, inp, x, p.x, hiOff, k)
    decreases k
  {
    hide SplitSoFar;
    if k > 0 {
      InPlaceSoFar(f, s, inp, x, hiOff, k - 1);
      PairUntouched(f, s, inp, x, InPlace(f, s, x, hiOff, k - 1).x, hiOff, k - 1);
      PairStored(f, s, inp, x, InPlace(f, s, x, hiOff, k - 1).x, hiOff, k - 1);
    } else {
      NothingStored(f, s, inp, x, hiOff);
    }
  }

  lemma NothingStored(f: Rule, s: Sections, inp: seq<int>, x: seq<int>, hiOff: nat)
    requires hiOff <= |x|
    ensures SplitSoFar(f, s, inp, x, x, hiOff, 0)
  {
  }

  lemma SplitDone(f: Rule, s: Sections, inp: seq<int>, was: seq<int>, x: seq<int>, hiOff: nat)
    requires var n2 := |inp| / 2; n2 <= hiOff && hiOff + n2 <= |x| == |was| && SplitSoFar(f, s, inp, was, x, hiOff, n2)
    ensures x[..|inp| / 2] == LowBand(f, s, inp)
    ensures x[hiOff..hiOff + |inp| / 2] == HighBand(f, s, inp)
    ensures x[hiOff + |inp| / 2..] == was[hiOff + |inp| / 2..]
  {
  }

  lemma ClearSplits(f: Rule, s: Sections, x: seq<int>, hiOff: nat, n: nat)
    requires Clear(hiOff, n) && n <= |x| && hiOff + n / 2 <= |x|
    ensures SplitsInPlace(f, s, x, hiOff, n)
    ensures InPlace(f, s, x, hiOff, n / 2).x[hiOff + n / 2..] == x[hiOff + n / 2..]
  {
    var inp, p := x[..n], InPlace(f, s, x, hiOff, n / 2);
    if 2 * (n / 2) <= hiOff {
      InPlaceSoFar(f, s, inp, x, hiOff, n / 2);
      SplitDone(f, s, inp, x, p.x, hiOff);
    } else {
      OnePair(f, s, x, n);
    }
  }

  lemma OnePair(f: Rule, s: Sections, x: seq<int>, n: nat)
    requires n / 2 == 1 && n <= |x|
    ensures SplitsInPlace(f, s, x, 1, n)
    ensures InPlace(f, s, x, 1, 1).x[2..] == x[2..]
  {
    var r := f(s, x[0], x[1]);
    assert InPlace(f, s, x, 1, 0) == Pass(s, x);
    assert InPlace(f, s, x, 1, 1) == Pass(r.state, x[1 := r.high][0 := r.low]);
    assert StateAfter(f, s, x[..n], 0) == s;
    assert StepAt(f, s, x[..n], 0) == r;
  }

  lemma {:induction false} InPlaceAgrees(f: Rule, g: Rule, s: Sections, x: seq<int>, hiOff: nat, k: nat)
    requires RulesAgree(f, g) && SectionsBounded(s) && AllInt16(x) && 2 * k <= |x| && hiOff + k <= |x|
    ensures InPlace(f, s, x, hiOff, k) == InPlace(g, s, x, hiOff, k)
    ensures SectionsBounded(InPlace(g, s, x, hiOff, k).state) && AllInt16(InPlace(g, s, x, hiOff, k).x)
  {
    if k > 0 {
      InPlaceAgrees(f, g, s, x, hiOff, k - 1);
    }
  }

  // The filter itself, from silence: what one sample shows.

  const QUIET := Sections(0, 0)
  const CLICK := 8192

  lemma SilentPair()
    ensures Split(Machine, QUIET, 0, 0) == SplitStep(QUIET, 0, 0)
  {
    Same32(0);
    Same32(1);
    Same16(FB_EVEN);
    Same16(FB_ODD);
  }

  lemma SectionValues()
    ensures EvenSection(Exact, 0, 0) == SectionStep(0, 0) && OddSection(Exact, 0, 0) == SectionStep(0, 0)
    ensures EvenSection(Exact, 0, CLICK) == SectionStep(13024000, 4635392)
    ensures OddSection(Exact, 0, CLICK) == SectionStep(9385472, 996864)
    ensures OddSection(Exact, 0, 2263).state != 0
  {
  }

  /** A click in either place of a pair is heard in the low band, otherwise than in the high band. */
  lemma ClickHeard()
    ensures Split(Machine, QUIET, CLICK, 0).low == 2263 && Split(Machine, QUIET, CLICK, 0).high == -2263
    ensures Split(Machine, QUIET, 0, CLICK).low == 487
  {
    hide EvenSection, OddSection;
    SectionValues();
    SplitExact(QUIET, CLICK, 0);
    SplitExact(QUIET, 0, CLICK);
  }

  /** And its low sample is remembered by the odd section of a second split. */
  lemma EchoHeard()
    ensures Split(Machine, QUIET, 0, 2263).state != QUIET
  {
    hide EvenSection, OddSection;
    SectionValues();
    SplitExact(QUIET, 0, 2263);
  }

  lemma SilentRule(f: Rule)
    requires f == Splitter(Machine)
    ensures f(QUIET, 0, 0) == SplitStep(QUIET, 0, 0)
  {
    SilentPair();
  }

  lemma {:induction false} SilentStates(f: Rule, xs: seq<int>, k: nat)
    requires f(QUIET, 0, 0) == SplitStep(QUIET, 0, 0)
    requires 2 * k <= |xs| && forall i :: 0 <= i < 2 * k ==> xs[i] == 0
    ensures StateAfter(f, QUIET, xs, k) == QUIET
  {
    if k > 0 {
      SilentStates(f, xs, k - 1);
    }
  }

  /** Where the first high sample lands on the only click, nothing is left to hear. */
  lemma {:induction false} ClickErased(f: Rule, x: seq<int>, hiOff: nat, m: nat, k: nat)
    requires f(QUIET, 0, 0) == SplitStep(QUIET, 0, 0)
    requires 2 <= hiOff < m <= |x| && 1 <= k && 2 * k <= m && hiOff + k <= |x|
    requires forall i :: 0 <= i < m && i != hiOff ==> x[i] == 0
    ensures var p := InPlace(f, QUIET, x, hiOff, k);
            p.state == QUIET && forall i :: 0 <= i < m ==> p.x[i] == 0
    decreases k
  {
    if k == 1 {
      assert InPlace(f, QUIET, x, hiOff, 0) == Pass(QUIET, x);
    } else {
      ClickErased(f, x, hiOff, m, k - 1);
    }
  }

  function Click(n: nat, at: nat): (x: seq<int>)
    ensures |x| == n && AllInt16(x)
  {
    seq(n, i => if i == at then CLICK else 0)
  }

  /** A high band that starts inside the pairs after the first erases a click there before it is read. */
  lemma ClickMissed(f: Rule, hiOff: nat, n: nat)
    requires f == Splitter(Machine) && n / 2 <= hiOff < 2 * (n / 2) && hiOff >= 2
    ensures !SplitsInPlace(f, QUIET, Click(n + hiOff, hiOff), hiOff, n)
  {
    hide InPlace, Split;
    var x, j := Click(n + hiOff, hiOff), hiOff / 2;
    SilentPair();
    ClickHeard();
    ClickErased(f, x, hiOff, 2 * (n / 2), n / 2);
    SilentStates(f, x[..n], j);
    assert LowBand(f, QUIET, x[..n])[j] == StepAt(f, QUIET, x[..n], j).low != 0;
    assert InPlace(f, QUIET, x, hiOff, n / 2).x[..n / 2][j] == 0;
  }

  /** Where the bands share a place, one of them is wrong about a click there. */
  lemma BandsCollide(f: Rule, hiOff: nat, n: nat)
    requires f == Splitter(Machine) && hiOff < n / 2
    ensures !SplitsInPlace(f, QUIET, Click(n + hiOff, 2 * hiOff), hiOff, n)
  {
    hide InPlace, Split;
    var x := Click(n + hiOff, 2 * hiOff);
    var p := InPlace(f, QUIET, x, hiOff, n / 2);
    SilentPair();
    ClickHeard();
    SilentStates(f, x[..n], hiOff);
    SilentStates(f, x[..n], 0);
    assert LowBand(f, QUIET, x[..n])[hiOff] == Split(Machine, QUIET, CLICK, 0).low;
    assert HighBand(f, QUIET, x[..n])[0] == Split(Machine, QUIET, x[0], x[1]).high;
    assert p.x[..n / 2][hiOff] == p.x[hiOff..hiOff + n / 2][0];
  }

  /** The filter splits every buffer of 16-bit samples in place as it does out of place, from every
      bounded state, exactly when the high band is clear of the pairs still to be read. */
  lemma InPlaceIff(hiOff: nat, n: nat)
    ensures (forall s, x :: SectionsBounded(s) && AllInt16(x) ==> SplitsInPlace(Splitter(Machine), s, x, hiOff, n))
            <==> Clear(hiOff, n)
  {
    if Clear(hiOff, n) {
      forall s, x
        ensures SplitsInPlace(Splitter(Machine), s, x, hiOff, n)
      {
        if n <= |x| && hiOff + n / 2 <= |x| {
          ClearSplits(Splitter(Machine), s, x, hiOff, n);
        }
      }
    } else if hiOff < n / 2 {
      BandsCollide(Splitter(Machine), hiOff, n);
    } else {
      ClickMissed(Splitter(Machine), hiOff, n);
    }
  }

  // ---- High-pass filter ----

  const HP_A := 53084
  const HP_B := 59310

  datatype HpStep = HpStep(state: int, output: int)

  type HpRule = (int, int) -> HpStep

  function HighPass(m: Arithmetic, h: int, x: int): HpStep {
    var inval := Smulwb(m, HP_B, x);
    var outval := Sat16(W(m, h - inval));
    HpStep(Smlawb(m, inval, HP_A, outval), outval)
  }

  function HighPasser(m: Arithmetic): HpRule {
    (h, x) => HighPass(m, h, x)
  }

  predicate HpBounded(h: int) {
    Within(h, 56_200)
  }

  lemma HighPassExact(h: int, x: int)
    requires HpBounded(h) && Int16(x)
    ensures HighPass(Machine, h, x) == HighPass(Exact, h, x)
    ensures HpBounded(HighPass(Exact, h, x).state) && Int16(HighPass(Exact, h, x).output)
  {
    var inval := HP_B * x / 0x1_0000;
    var outval := Sat16(h - inval);
    Fits16(Machine, x);
    Fits32(Machine, inval);
    Fits32(Machine, h - inval);
    Fits16(Machine, outval);
    Fits32(Machine, inval + HP_A * outval / 0x1_0000);
  }

  function HpAfter(f: HpRule, h: int, xs: seq<int>, k: nat): int
    requires k <= |xs|
  {
    if k == 0 then h else f(HpAfter(f, h, xs, k - 1), xs[k - 1]).state
  }

  function HpOutput(f: HpRule, h: int, xs: seq<int>): (out: seq<int>)
    ensures |out| == |xs|
  {
    seq(|xs|, k requires 0 <= k < |xs| => f(HpAfter(f, h, xs, k), xs[k]).output)
  }

  ghost predicate HpRulesAgree(f: HpRule, g: HpRule) {
    forall h, x :: HpBounded(h) && Int16(x) ==>
      f(h, x) == g(h, x) && HpBounded(g(h, x).state) && Int16(g(h, x).output)
  }

  lemma HighPassersAgree()
    ensures HpRulesAgree(HighPasser(Machine), HighPasser(Exact))
  {
    forall h, x | HpBounded(h) && Int16(x)
      ensures HighPass(Machine, h, x) == HighPass(Exact, h, x)
      ensures var r := HighPass(Exact, h, x); HpBounded(r.state) && Int16(r.output)
    {
      HighPassExact(h, x);
    }
  }

  lemma {:induction false} HpAfterAgrees(f: HpRule, g: HpRule, h: int, xs: seq<int>, k: nat)
    requires HpRulesAgree(f, g) && HpBounded(h) && AllInt16(xs) && k <= |xs|
    ensures HpAfter(f, h, xs, k) == HpAfter(g, h, xs, k) && HpBounded(HpAfter(g, h, xs, k))
  {
    if k > 0 {
      HpAfterAgrees(f, g, h, xs, k - 1);
    }
  }

  /** High-passing 16-bit samples from a bounded state gives 16-bit samples again. */
  lemma HpOutputAgrees(f: HpRule, g: HpRule, h: int, xs: seq<int>)
    requires HpRulesAgree(f, g) && HpBounded(h) && AllInt16(xs)
    ensures HpOutput(f, h, xs) == HpOutput(g, h, xs) && AllInt16(HpOutput(g, h, xs))
  {
    forall k | 0 <= k < |xs|
      ensures HpOutput(f, h, xs)[k] == HpOutput(g, h, xs)[k] && Int16(HpOutput(g, h, xs)[k])
    {
      HpAfterAgrees(f, g, h, xs, k);
    }
  }

  /** Filters x[..length] in place. */
  method FiltHP(f: HpRule, x: array<int>, h: int, length: nat) returns (h': int)
    requires length <= x.Length
    modifies x
    ensures h' == HpAfter(f, h, old(x[..length]), length)
    ensures x[..length] == HpOutput(f, h, old(x[..length]))
    ensures x[length..] == old(x[length..])
  {
    ghost var xs := x[..length];
    h' := h;
    for i := 0 to length
      invariant h' == HpAfter(f, h, xs, i)
      invariant forall j :: 0 <= j < i ==> x[j] == f(HpAfter(f, h, xs, j), xs[j]).output
      invariant forall j :: i <= j < x.Length ==> x[j] == old(x[j])
    {
      assert x[i] == xs[i];
      var r := f(h', x[i]);
      h' := r.state;
      x[i] := r.output;
    }
  }
}
