/** How the filters of the detector respond, apart from how they are computed. */
module Response {
  import opened Bytes
  import opened FixedPoint
  import opened FilterBank

  // ---- The two sections ----

  /** v, in units of 1/65536, is what x is up to two units. */
  predicate Nearly(x: int, v: int) {
    Within(65536 * x - v, 2 * 65536)
  }

  /** The even section is the first-order all-pass of coefficient 36214/65536: an output is the input before,
      plus the coefficient times the difference of this input and the output before. */
  lemma EvenIsAllPass(s: int, x: int, x': int)
    requires Within(s, 116_500_000) && Int16(x) && Int16(x')
    ensures var first := EvenSection(Machine, s, x);
            var second := EvenSection(Machine, first.state, x');
            Nearly(second.output, 65536 * (1024 * x) + 36214 * (1024 * x' - first.output))
  {
    EvenSectionExact(s, x);
    EvenSectionExact(EvenSection(Exact, s, x).state, x');
  }

  /** The odd section likewise, with coefficient 7788/65536. */
  lemma OddIsAllPass(s: int, x: int, x': int)
    requires Within(s, 42_700_000) && Int16(x) && Int16(x')
    ensures var first := OddSection(Machine, s, x);
            var second := OddSection(Machine, first.state, x');
            Nearly(second.output, 65536 * (1024 * x) + 7788 * (1024 * x' - first.output))
  {
    OddSectionExact(s, x);
    OddSectionExact(OddSection(Exact, s, x).state, x');
  }

  /** The bands are half the sum and half the difference of the two outputs, rounded; a level is 2048 units. */
  lemma BandsAreHalves(s: Sections, x0: int, x1: int)
    requires SectionsBounded(s) && Int16(x0) && Int16(x1)
    ensures var e, o := EvenSection(Machine, s.even, x0).output, OddSection(Machine, s.odd, x1).output;
            var r := Split(Machine, s, x0, x1);
            && r.state == Sections(EvenSection(Machine, s.even, x0).state, OddSection(Machine, s.odd, x1).state)
            && r.low == Clipped(o + e) && r.high == Clipped(o - e)
  {
    hide EvenSection, OddSection;
    EvenSectionExact(s.even, x0);
    OddSectionExact(s.odd, x1);
    var e, o := EvenSection(Exact, s.even, x0).output, OddSection(Exact, s.odd, x1).output;
    OutputExact(o + e);
    OutputExact(o - e);
    Halved(o + e);
    Halved(o - e);
  }

  /** The nearest 16-bit level, halves up. */
  function Clipped(v: int): int {
    if v >= 2048 * 32767 then 32767
    else if v < -2048 * 32768 then -32768
    else (v + 1024) / 2048
  }

  lemma Halved(v: int)
    ensures Sat16(RshiftRound11(Exact, v)) == Clipped(v)
  {
  }

  // ---- A constant signal ----

  predicate Constant(xs: seq<int>, c: int) {
    forall i :: 0 <= i < |xs| ==> xs[i] == c
  }

  /** A bound on how far a section still is from a constant input after k pairs. */
  function Settling(k: nat): nat {
    if k == 0 then 160_000_000 else Settling(k - 1) * 5 / 9 + 2
  }

  predicate Settled(s: Sections, c: int, d: nat) {
    SectionsBounded(s) && Within(s.even - 1024 * c, d) && Within(s.odd - 1024 * c, d)
  }

  lemma SettlesOnce(s: Sections, c: int, d: nat)
    requires Int16(c) && Settled(s, c, d)
    ensures Settled(Split(Machine, s, c, c).state, c, d * 5 / 9 + 2)
    ensures var e, o := EvenSection(Machine, s.even, c).output, OddSection(Machine, s.odd, c).output;
            Within(e - 1024 * c, d) && Within(o - 1024 * c, d)
  {
    hide Split, EvenSection, OddSection, Clipped;
    BandsAreHalves(s, c, c);
    SplitExact(s, c, c);
    EvenSettles(s.even, c, d);
    OddSettles(s.odd, c, d);
  }

  lemma EvenSettles(s: int, c: int, d: nat)
    requires Within(s, 116_500_000) && Int16(c) && Within(s - 1024 * c, d)
    ensures var r := EvenSection(Machine, s, c);
            Within(r.state - 1024 * c, d * 5 / 9 + 2) && Within(r.output - 1024 * c, d)
  {
    EvenSectionExact(s, c);
  }

  lemma OddSettles(s: int, c: int, d: nat)
    requires Within(s, 42_700_000) && Int16(c) && Within(s - 1024 * c, d)
    ensures var r := OddSection(Machine, s, c);
            Within(r.state - 1024 * c, d * 5 / 9 + 2) && Within(r.output - 1024 * c, d)
  {
    OddSectionExact(s, c);
  }

  lemma {:induction false} StatesSettle(s: Sections, xs: seq<int>, c: int, k: nat)
    requires SectionsBounded(s) && Int16(c) && Constant(xs, c) && 2 * k <= |xs|
    ensures Settled(StateAfter(Splitter(Machine), s, xs, k), c, Settling(k))
  {
    hide Split;
    if k > 0 {
      StatesSettle(s, xs, c, k - 1);
      SettlesOnce(StateAfter(Splitter(Machine), s, xs, k - 1), c, Settling(k - 1));
    }
  }

  lemma ThreeMore(k: nat, a: nat)
    requires Settling(k) == a
    ensures Settling(k + 3) == ((a * 5 / 9 + 2) * 5 / 9 + 2) * 5 / 9 + 2
  {
    assert Settling(k + 1) == a * 5 / 9 + 2;
    assert Settling(k + 2) == (a * 5 / 9 + 2) * 5 / 9 + 2;
  }

  lemma SettlingStart()
    ensures Settling(0) == 160_000_000
  {
  }

  lemma SettlingStep(k: nat)
    requires Settling(k) <= 123
    ensures Settling(k + 1) <= 123
  {
  }

  lemma {:induction false} SettlingFalls(k: nat)
    requires k >= 24
    ensures Settling(k) <= 123
  {
    hide Settling;
    if k == 24 {
      SettlingStart();
      ThreeMore(0, 160000000);
      ThreeMore(3, 27434845);
      ThreeMore(6, 4704194);
      ThreeMore(9, 806620);
      ThreeMore(12, 138312);
      ThreeMore(15, 23719);
      ThreeMore(18, 4070);
      ThreeMore(21, 701);
    } else {
      SettlingFalls(k - 1);
      SettlingStep(k - 1);
    }
  }

  lemma HalvesOfNear(s: Sections, xs: seq<int>, c: int, k: nat, t: Sections)
    requires k < |xs| / 2 && Constant(xs, c)
    requires t == StateAfter(Splitter(Machine), s, xs, k) && SectionsBounded(t) && Int16(c)
    requires Within(EvenSection(Machine, t.even, c).output - 1024 * c, 123)
    requires Within(OddSection(Machine, t.odd, c).output - 1024 * c, 123)
    ensures LowBand(Splitter(Machine), s, xs)[k] == c && HighBand(Splitter(Machine), s, xs)[k] == 0
  {
    hide Split, EvenSection, OddSection;
    BandsAreHalves(t, c, c);
    assert StepAt(Splitter(Machine), s, xs, k) == Split(Machine, t, c, c);
  }

  /** Whatever was heard before, from the 25th pair on a constant signal is all in the low band. */
  lemma ConstantIsLow(s: Sections, xs: seq<int>, c: int, k: nat)
    requires SectionsBounded(s) && Int16(c) && Constant(xs, c) && 24 <= k < |xs| / 2
    ensures LowBand(Splitter(Machine), s, xs)[k] == c && HighBand(Splitter(Machine), s, xs)[k] == 0
  {
    hide Split, EvenSection, OddSection, Settling;
    var t := StateAfter(Splitter(Machine), s, xs, k);
    StatesSettle(s, xs, c, k);
    SettlingFalls(k);
    SettlesOnce(t, c, Settling(k));
    HalvesOfNear(s, xs, c, k, t);
  }

  /** The fastest alternation, once settled, is all in the high band. */
  lemma AlternatingIsHigh(c: int)
    requires Within(c, 32767)
    ensures Split(Machine, Sections(1024 * c, -1024 * c), c, -c) == SplitStep(Sections(1024 * c, -1024 * c), 0, -c)
  {
    var s := Sections(1024 * c, -1024 * c);
    EvenSectionExact(s.even, c);
    OddSectionExact(s.odd, -c);
    BandsAreHalves(s, c, -c);
  }

  // ---- The high-pass filter ----

  /** A constant input dies away: each output is 53084/65536 of the one before. */
  lemma ConstantDies(h: int, x: int)
    requires HpBounded(h) && Int16(x)
    ensures var first := HighPass(Machine, h, x);
            HighPass(Machine, first.state, x).output == first.output * 53084 / 65536
  {
    HighPassExact(h, x);
    HighPassExact(HighPass(Exact, h, x).state, x);
  }

  /** In general an output is 53084/65536 of the one before, less 59310/65536 of the rise of the input,
      clipped to 16 bits. */
  lemma HighPassIsFirstOrder(h: int, x: int, x': int) returns (v: int)
    requires HpBounded(h) && Int16(x) && Int16(x')
    ensures var first := HighPass(Machine, h, x);
            && HighPass(Machine, first.state, x').output == Max(-32768, Min(v, 32767))
            && Nearly(v, 53084 * first.output - 59310 * (x' - x))
  {
    HighPassExact(h, x);
    var first := HighPass(Exact, h, x);
    HighPassExact(first.state, x');
    v := first.state - HP_B * x' / 0x1_0000;
  }
}
