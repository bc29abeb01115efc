/** The streaming resampler of source.go: linear interpolation onto the 16 kHz grid,
    fed chunk by chunk. Positions and samples are exact reals. */
module Resampler {
  import opened Bytes

  const SAMPLE_RATE := 16000

  // ---- What the whole stream resamples to ----

  /** The point a fraction of the way from a to b. */
  function Between(a: real, b: real, frac: real): real {
    a * (1.0 - frac) + b * frac
  }

  /** The straight line between the two samples around position p. */
  function Interpolated(x: seq<real>, p: real): real
    requires 0.0 <= p && p.Floor + 1 < |x|
  {
    Between(x[p.Floor], x[p.Floor + 1], p - p.Floor as real)
  }

  /** Where output k sits among the input samples. */
  function Position(rate: nat, k: nat): real {
    (k * rate) as real / 16000.0
  }

  /** How many grid points have an input sample on both sides: ceil((n - 1) * 16000 / rate). */
  function Count(rate: nat, n: nat): nat
    requires rate >= 1
  {
    if n == 0 then 0 else ((n - 1) * SAMPLE_RATE + rate - 1) / rate
  }

  function Output(rate: nat, x: seq<real>, k: nat): real
    requires rate >= 1 && k < Count(rate, |x|)
  {
    CountExact(rate, |x|, k);
    Interpolated(x, Position(rate, k))
  }

  function Resampled(rate: nat, x: seq<real>): seq<real>
    requires rate >= 1
  {
    if rate == SAMPLE_RATE then x
    else seq(Count(rate, |x|), k requires 0 <= k < Count(rate, |x|) => Output(rate, x, k))
  }

  /** Output k has a sample after it exactly when k is below the count. */
  lemma CountExact(rate: nat, n: nat, k: nat)
    requires rate >= 1
    ensures 0.0 <= Position(rate, k)
    ensures k < Count(rate, n) <==> Position(rate, k).Floor + 1 < n
  {
    var p := k * rate;
    assert Position(rate, k).Floor == p / SAMPLE_RATE;
    if n > 0 {
      var a := (n - 1) * SAMPLE_RATE;
      assert p < a <==> p / SAMPLE_RATE < n - 1;
      CeilExact(a, rate, k);
    }
  }

  lemma CeilExact(a: nat, rate: nat, k: nat)
    requires rate >= 1
    ensures k < (a + rate - 1) / rate <==> k * rate < a
  {
    var c := (a + rate - 1) / rate;
    assert c * rate <= a + rate - 1 < c * rate + rate;
    CeilFrom(a, rate, k, c);
  }

  lemma CeilFrom(a: nat, rate: nat, k: nat, c: nat)
    requires a <= c * rate <= a + rate - 1
    ensures k < c <==> k * rate < a
  {
    if k < c {
      assert k * rate + rate == (k + 1) * rate <= c * rate;
    } else {
      assert k * rate >= c * rate;
    }
  }

  // ---- One call, as a function of the carried state ----

  datatype State = State(pos: real, last: real, havePrev: bool)
  datatype Yield = Yield(state: State, out: seq<real>)

  const FRESH := State(0.0, 0.0, false)

  function Step(rate: nat): real {
    rate as real / 16000.0
  }

  lemma StepPositive(rate: nat)
    requires rate >= 1
    ensures Step(rate) > 0.0
  {
  }

  /** The samples emitted from position p on, a step apart. */
  function Emitted(rate: nat, p: real, src: seq<real>): seq<real>
    requires rate >= 1 && 0.0 <= p
    decreases Left(p, src)
  {
    if p.Floor + 1 >= |src| then []
    else [Interpolated(src, p)] + Emitted(rate, p + Step(rate), src)
  }

  /** The first position no longer inside src. */
  function Stopped(rate: nat, p: real, src: seq<real>): (q: real)
    requires rate >= 1 && 0.0 <= p
    ensures q >= p && q.Floor + 1 >= |src|
    decreases Left(p, src)
  {
    if p.Floor + 1 >= |src| then p else Stopped(rate, p + Step(rate), src)
  }

  /** Sixteen-thousandths of a sample left in src after p. */
  function Left(p: real, src: seq<real>): nat {
    var d := ((|src| as real - p) * 16000.0).Floor;
    if d < 0 then 0 else d
  }

  /** One turn of the emitting loop. */
  lemma EmitOnce(rate: nat, p: real, src: seq<real>)
    requires rate >= 1 && 0.0 <= p
    ensures p.Floor + 1 >= |src| ==> Emitted(rate, p, src) == [] && Stopped(rate, p, src) == p
    ensures p.Floor + 1 < |src| ==>
      && Left(p + Step(rate), src) < Left(p, src)
      && Emitted(rate, p, src) == [Interpolated(src, p)] + Emitted(rate, p + Step(rate), src)
      && Stopped(rate, p, src) == Stopped(rate, p + Step(rate), src)
  {
  }

  function Source(s: State, mono: seq<real>): seq<real> {
    if s.havePrev then [s.last] + mono else mono
  }

  function Base(s: State): real {
    if s.havePrev then 1.0 else 0.0
  }

  /** States between calls: the read position is at most one sample behind the next chunk. */
  predicate Ready(s: State) {
    0.0 <= s.pos + Base(s)
  }

  function Processed(rate: nat, s: State, mono: seq<real>): (y: Yield)
    requires rate >= 1 && Ready(s)
    ensures Ready(y.state)
  {
    if mono == [] then Yield(s, [])
    else if rate == SAMPLE_RATE then Yield(s, mono)
    else
      var stop := Stopped(rate, s.pos + Base(s), Source(s, mono));
      Yield(State(stop - Base(s) - |mono| as real, mono[|mono| - 1], true),
            Emitted(rate, s.pos + Base(s), Source(s, mono)))
  }

  // ---- One call, as the source runs it ----

  class DownmixResampler {
    const inRate: nat
    var pos: real
    var last: real
    var havePrev: bool

    /** A WAVE header with a zero rate is refused before a resampler is made. */
    constructor (inRate: nat)
      requires inRate >= 1
      ensures this.inRate == inRate && Carried() == FRESH
    {
      this.inRate := inRate;
      pos := 0.0;
      last := 0.0;
      havePrev := false;
    }

    ghost function Carried(): State
      reads this
    {
      State(pos, last, havePrev)
    }

    method Process(mono: seq<real>) returns (out: seq<real>)
      requires inRate >= 1 && Ready(Carried())
      modifies this
      ensures Yield(Carried(), out) == Processed(inRate, old(Carried()), mono)
    {
      hide Emitted, Stopped, Left, Between, Step;
      if |mono| == 0 {
        return [];
      }
      if inRate == SAMPLE_RATE {
        return mono;
      }
      var step := Step(inRate);
      StepPositive(inRate);
      var src := mono;
      var base := 0.0;
      if havePrev {
        src := [last] + mono;
        base := 1.0;
      }
      out := [];
      ghost var first := pos + base;
      while true
        invariant 0.0 <= pos + base && last == old(last) && havePrev == old(havePrev)
        invariant Emitted(inRate, first, src) == out + Emitted(inRate, pos + base, src)
        invariant Stopped(inRate, first, src) == Stopped(inRate, pos + base, src)
        decreases Left(pos + base, src)
      {
        var idx := pos + base;
        EmitOnce(inRate, idx, src);
        var i := idx.Floor;
        if i + 1 >= |src| {
          break;
        }
        var frac := idx - i as real;
        var s := Between(src[i], src[i + 1], frac);
        ghost var rest := Emitted(inRate, idx + Step(inRate), src);
        assert out + ([s] + rest) == (out + [s]) + rest;
        out := out + [s];
        pos := pos + step;
        assert pos + base == idx + Step(inRate);
        assert Emitted(inRate, pos + base, src) == rest;
      }
      pos := pos - |mono| as real;
      last := mono[|mono| - 1];
      havePrev := true;
    }
  }

  // ---- Any cutting into chunks ----

  /** The state after the stream x, however it was fed. */
  function StateAfter(rate: nat, x: seq<real>): State
    requires rate >= 1
  {
    if x == [] || rate == SAMPLE_RATE then FRESH
    else State(Position(rate, Count(rate, |x|)) - |x| as real, x[|x| - 1], true)
  }

  lemma StateAfterReady(rate: nat, x: seq<real>)
    requires rate >= 1
    ensures Ready(StateAfter(rate, x))
  {
    if x != [] {
      CountExact(rate, |x|, Count(rate, |x|));
    }
  }

  /** A window of x that starts at sample o has the same lines, o further on. */
  lemma WindowInterpolates(x: seq<real>, o: nat, p: real)
    requires o <= |x| && o as real <= p && p.Floor + 1 < |x|
    ensures (p - o as real).Floor == p.Floor - o
    ensures Interpolated(x[o..], p - o as real) == Interpolated(x, p)
  {
    assert p - p.Floor as real == (p - o as real) - (p.Floor - o) as real;
  }

  lemma NextPosition(rate: nat, k: nat)
    ensures Position(rate, k + 1) == Position(rate, k) + Step(rate)
  {
    assert (k + 1) * rate == k * rate + rate;
  }

  /** Emission inside a window of x that starts at sample o is emission inside x. */
  lemma {:induction false} WindowEmits(rate: nat, x: seq<real>, o: nat, k: nat, p: real)
    requires rate >= 1 && rate != SAMPLE_RATE && p == Position(rate, k)
    requires o <= |x| && o as real <= p && k <= Count(rate, |x|)
    ensures Emitted(rate, p - o as real, x[o..]) == Resampled(rate, x)[k..]
    ensures Stopped(rate, p - o as real, x[o..]) == Position(rate, Count(rate, |x|)) - o as real
    decreases Count(rate, |x|) - k
  {
    hide Emitted, Stopped, Left, Position, Interpolated, Count, Step;
    var q := p - o as real;
    assert q.Floor == p.Floor - o;
    CountExact(rate, |x|, k);
    EmitOnce(rate, q, x[o..]);
    if k < Count(rate, |x|) {
      NextPosition(rate, k);
      assert Step(rate) >= 0.0 by {
        StepPositive(rate);
      }
      WindowEmits(rate, x, o, k + 1, p + Step(rate));
      WindowInterpolates(x, o, p);
      assert q + Step(rate) == p + Step(rate) - o as real;
      assert Resampled(rate, x)[k..] == [Output(rate, x, k)] + Resampled(rate, x)[k + 1..];
    }
  }

  lemma CountGrows(rate: nat, m: nat, n: nat)
    requires rate >= 1 && m <= n
    ensures Count(rate, m) <= Count(rate, n)
  {
    CountExact(rate, m, Count(rate, n));
    CountExact(rate, n, Count(rate, n));
  }

  /** Resampling more input only adds outputs. */
  lemma ResampledGrows(rate: nat, x: seq<real>, y: seq<real>)
    requires rate >= 1
    ensures Count(rate, |x|) <= Count(rate, |x + y|)
    ensures Resampled(rate, x + y)[..|Resampled(rate, x)|] == Resampled(rate, x)
  {
    CountGrows(rate, |x|, |x + y|);
    if rate != SAMPLE_RATE {
      forall k | 0 <= k < Count(rate, |x|)
        ensures Resampled(rate, x + y)[k] == Resampled(rate, x)[k]
      {
        CountExact(rate, |x|, k);
      }
    }
  }

  lemma StreamStart(rate: nat)
    requires rate >= 1
    ensures Count(rate, 0) == 0 && Position(rate, 0) == 0.0
  {
  }

  /** One call after the stream x returns what x + mono resamples to beyond what x did. */
  lemma CallExtends(rate: nat, x: seq<real>, mono: seq<real>)
    requires rate >= 1
    ensures Ready(StateAfter(rate, x))
    ensures Processed(rate, StateAfter(rate, x), mono).state == StateAfter(rate, x + mono)
    ensures Resampled(rate, x) + Processed(rate, StateAfter(rate, x), mono).out == Resampled(rate, x + mono)
  {
    hide Emitted, Stopped, Left, Position, Interpolated, Count;
    StateAfterReady(rate, x);
    StreamStart(rate);
    ResampledGrows(rate, x, mono);
    if mono == [] {
      assert x + mono == x;
    } else if rate != SAMPLE_RATE {
      hide Resampled;
      var s := StateAfter(rate, x);
      var o := if x == [] then 0 else |x| - 1;
      assert Source(s, mono) == (x + mono)[o..];
      var p := Position(rate, Count(rate, |x|));
      assert s.pos + Base(s) == p - o as real;
      WindowEmits(rate, x + mono, o, Count(rate, |x|), p);
    }
  }

  /** The calls one after another, outputs joined. */
  function Run(rate: nat, s: State, chunks: seq<seq<real>>): Yield
    requires rate >= 1 && Ready(s)
    decreases |chunks|
  {
    if chunks == [] then Yield(s, [])
    else
      var first := Processed(rate, s, chunks[0]);
      var rest := Run(rate, first.state, chunks[1..]);
      Yield(rest.state, first.out + rest.out)
  }

  /** After the stream x, however the continuation is cut: the outputs add up to the resampling
      of the whole, and the final state depends on the whole alone. */
  lemma {:induction false} RunResamples(rate: nat, x: seq<real>, chunks: seq<seq<real>>)
    requires rate >= 1
    ensures Ready(StateAfter(rate, x))
    ensures Run(rate, StateAfter(rate, x), chunks).state == StateAfter(rate, x + Joined(chunks))
    ensures Resampled(rate, x) + Run(rate, StateAfter(rate, x), chunks).out == Resampled(rate, x + Joined(chunks))
    decreases |chunks|
  {
    hide Processed, StateAfter, Resampled, Ready;
    StateAfterReady(rate, x);
    if chunks == [] {
      assert x + Joined(chunks) == x;
    } else {
      CallExtends(rate, x, chunks[0]);
      RunResamples(rate, x + chunks[0], chunks[1..]);
      assert x + chunks[0] + Joined(chunks[1..]) == x + Joined(chunks);
    }
  }

  /** One call on the whole stream does what any sequence of calls on its pieces does. */
  lemma ChunkInvariance(rate: nat, chunks: seq<seq<real>>)
    requires rate >= 1
    ensures Run(rate, FRESH, chunks) == Processed(rate, FRESH, Joined(chunks))
    ensures Run(rate, FRESH, chunks) == Yield(StateAfter(rate, Joined(chunks)), Resampled(rate, Joined(chunks)))
  {
    hide Processed, StateAfter, Resampled, Ready, Run;
    var x := Joined(chunks);
    NothingHeard(rate);
    RunResamples(rate, [], chunks);
    CallExtends(rate, [], x);
    assert [] + x == x;
    var y, z := Run(rate, FRESH, chunks), Processed(rate, FRESH, x);
    assert [] + y.out == y.out && [] + z.out == z.out;
  }

  lemma NothingHeard(rate: nat)
    requires rate >= 1
    ensures StateAfter(rate, []) == FRESH && Resampled(rate, []) == [] && Ready(FRESH)
  {
    StreamStart(rate);
  }

  /** n >= 1 samples give ceil((n - 1) * 16000 / rate) outputs: one fewer times the rate would not reach the last. */
  lemma CountIsCeiling(rate: nat, x: seq<real>)
    requires rate >= 1 && rate != SAMPLE_RATE && x != []
    ensures (|Resampled(rate, x)| - 1) * rate < (|x| - 1) * SAMPLE_RATE <= |Resampled(rate, x)| * rate
  {
    var a := (|x| - 1) * SAMPLE_RATE;
    var c := Count(rate, |x|);
    CeilExact(a, rate, c);
    if c > 0 {
      CeilExact(a, rate, c - 1);
    }
  }

  // ---- What the outputs are ----

  /** The point (p, y) lies on the straight line through the samples on both sides of p. */
  predicate OnLine(x: seq<real>, p: real, y: real) {
    var i := p.Floor;
    0 <= i && i + 1 < |x| && y - x[i] == (p - i as real) * (x[i + 1] - x[i])
  }

  lemma LineThrough(x: seq<real>, p: real)
    requires 0.0 <= p && p.Floor + 1 < |x|
    ensures OnLine(x, p, Interpolated(x, p))
  {
    var a, b, frac := x[p.Floor], x[p.Floor + 1], p - p.Floor as real;
    assert a * (1.0 - frac) == a - a * frac;
    assert frac * (b - a) == b * frac - a * frac;
  }

  lemma {:induction false} EmittedOnLines(rate: nat, p: real, src: seq<real>, j: nat)
    requires rate >= 1 && 0.0 <= p && j < |Emitted(rate, p, src)|
    ensures OnLine(src, p + Position(rate, j), Emitted(rate, p, src)[j])
    decreases j
  {
    hide OnLine, Emitted, Interpolated, Stopped;
    EmitOnce(rate, p, src);
    StepPositive(rate);
    if j == 0 {
      LineThrough(src, p);
      assert p + Position(rate, 0) == p;
    } else {
      EmittedOnLines(rate, p + Step(rate), src, j - 1);
      NextPosition(rate, j - 1);
      assert p + Step(rate) + Position(rate, j - 1) == p + Position(rate, j);
    }
  }

  /** In one call: output j lies on the lines through the carried sample and the chunk. */
  lemma CallOnLines(rate: nat, s: State, mono: seq<real>, j: nat)
    requires rate >= 1 && rate != SAMPLE_RATE && Ready(s) && j < |Processed(rate, s, mono).out|
    ensures OnLine(if s.havePrev then [s.last] + mono else mono,
                   s.pos + (if s.havePrev then 1.0 else 0.0) + Position(rate, j), Processed(rate, s, mono).out[j])
  {
    EmittedOnLines(rate, s.pos + Base(s), Source(s, mono), j);
  }

  /** Over whole runs, however cut: output k belongs at input sample k * rate / 16000. Between two
      samples it lies on their line, and at a sample it is that sample. */
  lemma RunOnLines(rate: nat, chunks: seq<seq<real>>, k: nat, x: seq<real>, i: nat)
    requires rate >= 1 && Ready(FRESH) && k < |Run(rate, FRESH, chunks).out|
    requires x == Joined(chunks) && i == k * rate / 16000
    ensures i < |x| && (k * rate % 16000 == 0 ==> Run(rate, FRESH, chunks).out[k] == x[i])
    ensures rate != 16000 ==>
              && i + 1 < |x|
              && Run(rate, FRESH, chunks).out[k] - x[i] == (k * rate % 16000) as real / 16000.0 * (x[i + 1] - x[i])
  {
    hide Run, Processed, Interpolated;
    ChunkInvariance(rate, chunks);
    if rate != SAMPLE_RATE {
      CountExact(rate, |x|, k);
      LineThrough(x, Position(rate, k));
      PositionParts(rate, k);
    }
  }

  lemma PositionParts(rate: nat, k: nat)
    ensures Position(rate, k).Floor == k * rate / 16000
    ensures Position(rate, k) - (k * rate / 16000) as real == (k * rate % 16000) as real / 16000.0
  {
  }

  /** A straight line resamples to the same line, however it is cut. */
  lemma RunKeepsLines(rate: nat, chunks: seq<seq<real>>, k: nat, a: real, b: real)
    requires rate >= 1 && Ready(FRESH) && k < |Run(rate, FRESH, chunks).out|
    requires forall i :: 0 <= i < |Joined(chunks)| ==> Joined(chunks)[i] == a * i as real + b
    ensures Run(rate, FRESH, chunks).out[k] == a * ((k * rate) as real / 16000.0) + b
  {
    hide Run;
    var x, i := Joined(chunks), k * rate / 16000;
    RunOnLines(rate, chunks, k, x, i);
    PositionParts(rate, k);
    assert Position(rate, k) == (k * rate) as real / 16000.0;
    if rate == 16000 {
      assert i == k && Position(rate, k) == k as real;
      assert k * rate % 16000 == 0;
    } else {
      var f := (k * rate % 16000) as real / 16000.0;
      OnTheLine(a, b, i as real, f);
      assert x[i + 1] == a * (i as real + 1.0) + b;
    }
  }

  lemma OnTheLine(a: real, b: real, i: real, f: real)
    ensures a * i + b + f * (a * (i + 1.0) + b - (a * i + b)) == a * (i + f) + b
  {
    assert a * (i + 1.0) == a * i + a && a * (i + f) == a * i + a * f;
  }
}
