/** Cutting a decoder's output into frames of equal length: frameSource of source.go.

    The decoder behind the closure `more` is a finite script of what its calls do. */
module Framing {
  import opened Bytes

  datatype Outcome = More | Exhausted | Failed

  /** One call of `more`: the samples it pushes, then what it returns. */
  datatype Step = Step(samples: seq<real>, outcome: Outcome)

  datatype Core = Core(pending: seq<real>, done: bool, script: seq<Step>)

  datatype Read = Frame(samples: seq<real>) | EndOfFile | Error

  datatype Pulled = Pulled(core: Core, failed: bool)

  // ---- The stream, and the frames it should give ----

  /** Everything the script pushes up to the first call that reports exhaustion. */
  function Delivered(script: seq<Step>): seq<real> {
    if script == [] then []
    else script[0].samples + if script[0].outcome == Exhausted then [] else Delivered(script[1..])
  }

  /** What is still to come out: the samples at hand and those not yet decoded. */
  function Remaining(c: Core): seq<real> {
    c.pending + if c.done then [] else Delivered(c.script)
  }

  function Silence(n: nat): seq<real> {
    seq(n, _ => 0.0)
  }

  function FirstFrame(size: nat, x: seq<real>): (f: seq<real>)
    ensures |f| == size
  {
    var n := Min(size, |x|);
    x[..n] + Silence(size - n)
  }

  function Rest(size: nat, x: seq<real>): seq<real> {
    x[Min(size, |x|)..]
  }

  function Frames(size: nat, x: seq<real>): seq<seq<real>>
    requires size >= 1
    decreases |x|
  {
    if x == [] then [] else [FirstFrame(size, x)] + Frames(size, Rest(size, x))
  }

  /** How many zeros complete the last frame. */
  function Padding(size: nat, x: seq<real>): int
    requires size >= 1
  {
    |Frames(size, x)| * size - |x|
  }

  lemma PaddingSteps(size: nat, x: seq<real>)
    requires size >= 1 && x != []
    ensures Padding(size, x) == Padding(size, Rest(size, x)) + size - Min(size, |x|)
  {
    var m := |Frames(size, Rest(size, x))|;
    assert |Frames(size, x)| == m + 1;
    assert (m + 1) * size == m * size + size;
  }

  /** The frames hold every sample once, in order, and then fewer than a frame of zeros. */
  lemma {:induction false} FramesConserve(size: nat, x: seq<real>)
    requires size >= 1
    ensures 0 <= Padding(size, x) < size
    ensures Joined(Frames(size, x)) == x + Silence(Padding(size, x))
    ensures forall i :: 0 <= i < |Frames(size, x)| ==> |Frames(size, x)[i]| == size
    decreases |x|
  {
    if x != [] {
      hide Padding;
      var y := Rest(size, x);
      FramesConserve(size, y);
      PaddingSteps(size, x);
      if |x| >= size {
        assert FirstFrame(size, x) + (y + Silence(Padding(size, y))) == x + Silence(Padding(size, x));
      } else {
        assert Padding(size, y) == 0 by {
          NoPadding(size);
        }
        assert FirstFrame(size, x) + (y + Silence(0)) == x + Silence(size - |x|);
      }
    }
  }

  lemma NoPadding(size: nat)
    requires size >= 1
    ensures Padding(size, []) == 0
  {
  }

  // ---- One read, as a function ----

  /** One call of `more`; a decoder with nothing left reports exhaustion. */
  function Decoded(c: Core): Core {
    if c.script == [] then c.(done := true)
    else Core(c.pending + c.script[0].samples, c.script[0].outcome == Exhausted, c.script[1..])
  }

  predicate Fails(c: Core) {
    c.script != [] && c.script[0].outcome == Failed
  }

  /** Decodes until a frame is at hand, the decoder is exhausted, or it fails. */
  function Pull(size: nat, c: Core): Pulled
    decreases !c.done, |c.script|
  {
    if |c.pending| >= size || c.done then Pulled(c, false)
    else if Fails(c) then Pulled(Decoded(c), true)
    else Pull(size, Decoded(c))
  }

  function ReadOne(size: nat, c: Core): (Core, Read)
  {
    var p := Pull(size, c);
    if p.failed then (p.core, Error)
    else if p.core.pending == [] then (p.core, EndOfFile)
    else (p.core.(pending := Rest(size, p.core.pending)), Frame(FirstFrame(size, p.core.pending)))
  }

  // ---- One read, as the source runs it ----

  class FrameSource {
    const frameSamples: nat
    var pending: seq<real>
    var done: bool
    var script: seq<Step>

    constructor (frameSamples: nat, script: seq<Step>)
      ensures this.frameSamples == frameSamples && State() == Core([], false, script)
    {
      this.frameSamples := frameSamples;
      pending := [];
      done := false;
      this.script := script;
    }

    ghost function State(): Core
      reads this
    {
      Core(pending, done, script)
    }

    method Push(samples: seq<real>)
      modifies `pending
      ensures pending == old(pending) + samples
    {
      pending := pending + samples;
    }

    /** The decoder's closure, run from its script. */
    method More() returns (outcome: Outcome)
      modifies `pending, `script
      ensures outcome == if old(script) == [] then Exhausted else old(script)[0].outcome
      ensures Core(pending, outcome == Exhausted, script) == Decoded(old(State()).(done := false))
    {
      if script == [] {
        return Exhausted;
      }
      var step := script[0];
      script := script[1..];
      Push(step.samples);
      outcome := step.outcome;
    }

    method ReadFrame() returns (r: Read)
      modifies this
      ensures (State(), r) == ReadOne(frameSamples, old(State()))
    {
      while |pending| < frameSamples && !done
        invariant Pull(frameSamples, State()) == Pull(frameSamples, old(State()))
        decreases !done, |script|
      {
        var outcome := More();
        if outcome == Failed {
          return Error;
        }
        if outcome == Exhausted {
          done := true;
        }
      }
      if |pending| == 0 {
        return EndOfFile;
      }
      var n := Min(frameSamples, |pending|);
      r := Frame(pending[..n] + Silence(frameSamples - n));
      pending := pending[n..];
    }
  }

  // ---- Whole runs ----

  /** A read takes the first frame off the stream; it fails without losing a sample, and ends only when none is left. */
  lemma {:induction false} ReadTakes(size: nat, c: Core)
    requires size >= 1
    ensures ReadOne(size, c).1 == Error ==>
      && Remaining(ReadOne(size, c).0) == Remaining(c)
      && |ReadOne(size, c).0.script| < |c.script|
    ensures ReadOne(size, c).1 != Error ==>
      && ReadOne(size, c).1 == (if Remaining(c) == [] then EndOfFile else Frame(FirstFrame(size, Remaining(c))))
      && Remaining(ReadOne(size, c).0) == Rest(size, Remaining(c))
  {
    PullKeeps(size, c);
    var p := Pull(size, c).core;
    if !Pull(size, c).failed && |p.pending| >= size {
      assert Remaining(p)[..size] == p.pending[..size];
      assert Remaining(p)[size..] == p.pending[size..] + Remaining(p)[|p.pending|..];
    }
  }

  lemma {:induction false} PullKeeps(size: nat, c: Core)
    ensures Remaining(Pull(size, c).core) == Remaining(c)
    ensures Pull(size, c).failed ==> |Pull(size, c).core.script| < |c.script|
    ensures !Pull(size, c).failed ==> |Pull(size, c).core.pending| >= size || Pull(size, c).core.done
    ensures |Pull(size, c).core.script| <= |c.script|
    decreases !c.done, |c.script|
  {
    if !(|c.pending| >= size || c.done) {
      if c.script != [] {
        var now, later := c.script[0].samples, Delivered(c.script[1..]);
        assert c.pending + (now + later) == c.pending + now + later;
      }
      if !Fails(c) {
        PullKeeps(size, Decoded(c));
      }
    }
  }

  /** What n reads return, one after another. */
  function Reads(size: nat, c: Core, n: nat): seq<Read>
    decreases n
  {
    if n == 0 then [] else [ReadOne(size, c).1] + Reads(size, ReadOne(size, c).0, n - 1)
  }

  /** The same results with the errors left out. */
  function Successes(r: seq<Read>): seq<Read> {
    if r == [] then [] else if r[0] == Error then Successes(r[1..]) else [r[0]] + Successes(r[1..])
  }

  /** Result k of an endless reader of x: frame k, then end of file forever. */
  function Ideal(size: nat, x: seq<real>, k: nat): Read
    requires size >= 1
  {
    if k < |Frames(size, x)| then Frame(Frames(size, x)[k]) else EndOfFile
  }

  lemma {:induction false} IdealShifts(size: nat, x: seq<real>, k: nat)
    requires size >= 1
    ensures Ideal(size, x, 0) == if x == [] then EndOfFile else Frame(FirstFrame(size, x))
    ensures Ideal(size, x, k + 1) == Ideal(size, Rest(size, x), k)
  {
    if x == [] {
      assert Rest(size, x) == [];
    }
  }

  /** What is read tells two streams apart whenever their frames differ. */
  lemma IdealDetermines(size: nat, x: seq<real>, y: seq<real>, n: nat)
    requires size >= 1 && n > |Frames(size, x)| && n > |Frames(size, y)|
    requires forall k :: 0 <= k < n ==> Ideal(size, x, k) == Ideal(size, y, k)
    ensures Frames(size, x) == Frames(size, y)
  {
    hide Frames;
    assert Ideal(size, x, |Frames(size, x)|) == Ideal(size, y, |Frames(size, x)|);
    assert Ideal(size, x, |Frames(size, y)|) == Ideal(size, y, |Frames(size, y)|);
    forall k | 0 <= k < |Frames(size, x)|
      ensures Frames(size, x)[k] == Frames(size, y)[k]
    {
      assert Ideal(size, x, k) == Ideal(size, y, k);
    }
  }

  /** Any run of reads, on any decoder, returns the frames of the stream and then end of file;
      only errors come in between, no more of them than the decoder has calls. */
  lemma {:induction false} RunIsIdeal(size: nat, c: Core, n: nat)
    requires size >= 1
    ensures forall k :: 0 <= k < |Successes(Reads(size, c, n))| ==>
              Successes(Reads(size, c, n))[k] == Ideal(size, Remaining(c), k)
    ensures n <= |Successes(Reads(size, c, n))| + |c.script|
    decreases n
  {
    if n > 0 {
      var d, r := ReadOne(size, c).0, ReadOne(size, c).1;
      ReadTakes(size, c);
      ReadShortens(size, c);
      RunIsIdeal(size, d, n - 1);
      var rest := Successes(Reads(size, d, n - 1));
      assert Reads(size, c, n)[1..] == Reads(size, d, n - 1);
      if r != Error {
        forall k | 0 <= k < |rest| + 1
          ensures ([r] + rest)[k] == Ideal(size, Remaining(c), k)
        {
          IdealShifts(size, Remaining(c), if k == 0 then 0 else k - 1);
        }
      }
    }
  }

  lemma ReadShortens(size: nat, c: Core)
    ensures |ReadOne(size, c).0.script| <= |c.script|
  {
    PullKeeps(size, c);
  }

  predicate ErrorFree(script: seq<Step>) {
    forall i :: 0 <= i < |script| ==> script[i].outcome != Failed
  }

  /** A decoder that never fails is read as its stream is, whatever the sizes of its pushes. */
  lemma {:induction false} ErrorFreeRun(size: nat, c: Core, n: nat)
    requires size >= 1 && ErrorFree(c.script)
    ensures |Reads(size, c, n)| == n
    ensures forall k :: 0 <= k < n ==> Reads(size, c, n)[k] == Ideal(size, Remaining(c), k)
    decreases n
  {
    if n > 0 {
      var d := ReadOne(size, c).0;
      PullErrorFree(size, c);
      ReadTakes(size, c);
      ErrorFreeRun(size, d, n - 1);
      forall k | 0 <= k < n
        ensures Reads(size, c, n)[k] == Ideal(size, Remaining(c), k)
      {
        IdealShifts(size, Remaining(c), if k == 0 then 0 else k - 1);
      }
    }
  }

  lemma {:induction false} PullErrorFree(size: nat, c: Core)
    requires ErrorFree(c.script)
    ensures !Pull(size, c).failed && ErrorFree(Pull(size, c).core.script)
    decreases !c.done, |c.script|
  {
    if !(|c.pending| >= size || c.done) {
      PullErrorFree(size, Decoded(c));
    }
  }
}
