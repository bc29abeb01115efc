/** WAVFile of source.go: 16-bit PCM read through a fixed buffer, collapsed to mono,
    resampled and framed. */
module Wav {
  import opened Bytes
  import Framing
  import Resampler

  const BUFFER := 8192

  // ---- Collapsing channels ----

  function Int16(lo: byte, hi: byte): (r: int)
    ensures -0x8000 <= r < 0x8000
  {
    if hi >= 0x80 then lo + 0x100 * hi - 0x1_0000 else lo + 0x100 * hi
  }

  /** The sum of the first n little-endian samples of b. */
  function Sum(b: bytes, n: nat): (s: int)
    requires 2 * n <= |b|
    ensures -0x8000 * n <= s <= 0x8000 * n
  {
    if n == 0 then 0 else Sum(b, n - 1) + Int16(b[2 * n - 2], b[2 * n - 1])
  }

  /** One sample per channel group, in [-1, 1). */
  function Mean(group: bytes, channels: nat): real
    requires channels >= 1 && |group| == 2 * channels
  {
    Scaled(Sum(group, channels), channels)
  }

  function Scaled(sum: int, channels: nat): real
    requires channels >= 1
  {
    sum as real / channels as real / 32768.0
  }

  /** The mono signal of interleaved PCM; bytes short of a whole group are dropped. */
  function Mono(b: bytes, channels: nat): seq<real>
    requires channels >= 1
    decreases |b|
  {
    if |b| < 2 * channels then []
    else [Mean(b[..2 * channels], channels)] + Mono(b[2 * channels..], channels)
  }

  /** n less its remainder: how much of n bytes holds whole channel groups. */
  function Trimmed(n: nat, channels: nat): (t: nat)
    requires channels >= 1
    ensures t <= n
  {
    n - n % (2 * channels)
  }

  lemma Remainder(n: nat, g: nat)
    requires g >= 1
    ensures n < g ==> n % g == n
    ensures n >= g ==> (n - g) % g == n % g
  {
    if n >= g {
      var q, r := n / g, n % g;
      assert n == q * g + r;
      assert n - g == (q - 1) * g + r;
      QuotientUnique(n - g, g, q - 1, r);
    }
  }

  lemma TrimmedSteps(n: nat, channels: nat)
    requires channels >= 1
    ensures n < 2 * channels ==> Trimmed(n, channels) == 0
    ensures n >= 2 * channels ==> Trimmed(n, channels) == 2 * channels + Trimmed(n - 2 * channels, channels)
  {
    Remainder(n, 2 * channels);
  }

  /** Whole groups in front are collapsed apart from what follows them. */
  lemma {:induction false} MonoSplits(b: bytes, channels: nat, t: nat)
    requires channels >= 1 && t <= |b| && Trimmed(t, channels) == t
    ensures Mono(b, channels) == Mono(b[..t], channels) + Mono(b[t..], channels)
    decreases t
  {
    hide Trimmed;
    var g := 2 * channels;
    TrimmedSteps(t, channels);
    if t == 0 {
      assert b[0..] == b;
    } else {
      MonoSplits(b[g..], channels, t - g);
      assert b[..t][g..] == b[g..][..t - g];
      assert b[..t][..g] == b[..g];
      assert b[t..] == b[g..][t - g..];
    }
  }

  lemma {:induction false} MonoOfRest(b: bytes, channels: nat)
    requires channels >= 1 && Trimmed(|b|, channels) == 0
    ensures Mono(b, channels) == []
  {
    TrimmedSteps(|b|, channels);
  }

  /** Where channel group i starts. */
  function GroupStart(i: nat, channels: nat): nat {
    2 * (i * channels)
  }

  lemma GroupEnd(i: nat, frames: nat, channels: nat)
    ensures GroupStart(0, channels) == 0
    ensures GroupStart(i + 1, channels) == GroupStart(i, channels) + 2 * channels
    ensures i < frames ==> GroupStart(i + 1, channels) <= GroupStart(frames, channels)
  {
    if i < frames {
      assert (i + 1) * channels <= frames * channels;
    }
  }

  lemma WholeGroups(n: nat, channels: nat)
    requires channels >= 1
    ensures GroupStart(n / (channels * 2), channels) <= n < GroupStart(n / (channels * 2), channels) + 2 * channels
  {
    var q := n / (channels * 2);
    assert n == (channels * 2) * q + n % (channels * 2);
    assert (channels * 2) * q == 2 * (q * channels);
  }

  lemma MonoNext(b: bytes, channels: nat, at: nat, mean: real)
    requires channels >= 1 && at + 2 * channels <= |b|
    requires mean == Mean(b[at..at + 2 * channels], channels)
    ensures Mono(b[at..], channels) == [mean] + Mono(b[at + 2 * channels..], channels)
  {
    assert b[at..][..2 * channels] == b[at..at + 2 * channels];
    assert b[at..][2 * channels..] == b[at + 2 * channels..];
  }

  lemma MonoEnd(b: bytes, channels: nat)
    requires channels >= 1 && |b| < 2 * channels
    ensures Mono(b, channels) == []
  {
  }

  /** Channel counts come from a 16-bit header field that is refused when zero; then the 32-bit sum
      cannot overflow. */
  method WavMono(b: bytes, channels: nat) returns (out: seq<real>)
    requires 1 <= channels < 0x1_0000
    ensures out == Mono(b, channels)
  {
    hide Mono, Sum, Scaled, GroupStart;
    var frames := |b| / (channels * 2);
    WholeGroups(|b|, channels);
    out := [];
    ghost var at := 0;
    GroupEnd(0, frames, channels);
    assert b[0..] == b;
    for i := 0 to frames
      invariant at == GroupStart(i, channels) && at <= GroupStart(frames, channels) <= |b|
      invariant out + Mono(b[at..], channels) == Mono(b, channels)
    {
      GroupEnd(i, frames, channels);
      var acc := SumGroup(b, i, channels, at);
      var mean := Scaled(acc, channels);
      MonoNext(b, channels, at, mean);
      ghost var later := Mono(b[at + 2 * channels..], channels);
      assert out + ([mean] + later) == out + [mean] + later;
      out := out + [mean];
      at := at + 2 * channels;
    }
    MonoEnd(b[at..], channels);
  }

  /** The inner loop: group i, which starts at byte `at`. */
  method SumGroup(b: bytes, i: nat, channels: nat, ghost at: nat) returns (acc: int32)
    requires 1 <= channels < 0x1_0000
    requires at == GroupStart(i, channels) && at + 2 * channels <= |b|
    ensures acc == Sum(b[at..at + 2 * channels], channels)
  {
    acc := 0;
    for c := 0 to channels
      invariant acc == Sum(b[at..at + 2 * channels], c)
    {
      var off := (i * channels + c) * 2;
      assert off == at + 2 * c;
      acc := acc + Int16(b[off], b[off + 1]);
    }
  }

  // ---- What the mono signal is ----

  predicate AllSamples(xs: seq<int>) {
    forall i :: 0 <= i < |xs| ==> -0x8000 <= xs[i] < 0x8000
  }

  /** Samples as the file holds them: 16-bit two's complement, low byte first. */
  function Encoded(xs: seq<int>): (b: bytes)
    ensures |b| == 2 * |xs|
  {
    if xs == [] then []
    else
      var u := xs[|xs| - 1] % 0x1_0000;
      Encoded(xs[..|xs| - 1]) + [u % 0x100, u / 0x100]
  }

  function Total(xs: seq<int>): int {
    if xs == [] then 0 else Total(xs[..|xs| - 1]) + xs[|xs| - 1]
  }

  function Interleaved(groups: seq<seq<int>>): bytes {
    if groups == [] then [] else Encoded(groups[0]) + Interleaved(groups[1..])
  }

  lemma SampleBack(x: int)
    requires -0x8000 <= x < 0x8000
    ensures var u := x % 0x1_0000; Int16(u % 0x100, u / 0x100) == x
  {
    if x < 0 {
      assert x % 0x1_0000 == x + 0x1_0000;
    }
  }

  lemma {:induction false} SumOfFront(a: bytes, b: bytes, n: nat)
    requires 2 * n <= |a|
    ensures Sum(a + b, n) == Sum(a, n)
  {
    if n > 0 {
      SumOfFront(a, b, n - 1);
    }
  }

  lemma {:induction false} SumOfEncoded(xs: seq<int>)
    requires AllSamples(xs)
    ensures Sum(Encoded(xs), |xs|) == Total(xs)
  {
    if xs != [] {
      var init, x := xs[..|xs| - 1], xs[|xs| - 1];
      var u := x % 0x1_0000;
      SumOfEncoded(init);
      SampleBack(x);
      SumOfFront(Encoded(init), [u % 0x100, u / 0x100], |init|);
    }
  }

  predicate Grouped(groups: seq<seq<int>>, channels: nat) {
    forall i :: 0 <= i < |groups| ==> |groups[i]| == channels && AllSamples(groups[i])
  }

  predicate IsMean(m: real, xs: seq<int>) {
    m * 32768.0 * |xs| as real == Total(xs) as real
  }

  lemma FirstMean(groups: seq<seq<int>>, channels: nat) returns (m: real)
    requires channels >= 1 && Grouped(groups, channels) && groups != []
    ensures IsMean(m, groups[0])
    ensures Mono(Interleaved(groups), channels) == [m] + Mono(Interleaved(groups[1..]), channels)
  {
    hide Sum, Encoded, Total, Scaled;
    var b, first := Interleaved(groups), groups[0];
    SumOfEncoded(first);
    assert b[..2 * channels] == Encoded(first) && b[2 * channels..] == Interleaved(groups[1..]);
    m := Mean(b[..2 * channels], channels);
    ScaledBack(Total(first), channels);
  }

  /** The mono signal of interleaved 16-bit PCM: each sample is the mean of its channels over 32768. */
  lemma {:induction false} MonoIsMean(groups: seq<seq<int>>, channels: nat)
    requires channels >= 1 && Grouped(groups, channels)
    ensures var mono := Mono(Interleaved(groups), channels);
            |mono| == |groups| && forall k :: 0 <= k < |mono| ==> IsMean(mono[k], groups[k])
    decreases |groups|
  {
    hide IsMean, Mono;
    if groups == [] {
      MonoEnd([], channels);
    } else {
      var m := FirstMean(groups, channels);
      MonoIsMean(groups[1..], channels);
      var mono, later := Mono(Interleaved(groups), channels), Mono(Interleaved(groups[1..]), channels);
      forall k | 0 <= k < |mono| ensures IsMean(mono[k], groups[k]) {
        assert k > 0 ==> mono[k] == later[k - 1] && groups[k] == groups[1..][k - 1];
      }
    }
  }

  lemma ScaledBack(sum: int, channels: nat)
    requires channels >= 1
    ensures Scaled(sum, channels) * 32768.0 * channels as real == sum as real
  {
  }

  // ---- Reading through the buffer ----

  /** The mono samples that the reads of a whole file produce, joined. */
  function Buffered(data: bytes, channels: nat): seq<real>
    requires channels >= 1
    decreases |data|
  {
    var n := Min(BUFFER, |data|);
    var t := Trimmed(n, channels);
    if t == 0 then [] else Mono(data[..t], channels) + Buffered(data[n..], channels)
  }

  /** The calls of `more`: the last short read reports more input exactly when a frame is
      already at hand, which `full` leaves open. */
  function Script(data: bytes, channels: nat, rate: nat, s: Resampler.State, full: bool): seq<Framing.Step>
    requires channels >= 1 && rate >= 1 && Resampler.Ready(s)
    decreases |data|
  {
    var n := Min(BUFFER, |data|);
    var t := Trimmed(n, channels);
    if t == 0 then [Framing.Step([], Framing.Exhausted)]
    else
      var y := Resampler.Processed(rate, s, Mono(data[..t], channels));
      var outcome := if n == BUFFER || full then Framing.More else Framing.Exhausted;
      [Framing.Step(y.out, outcome)] + Script(data[n..], channels, rate, y.state, full)
  }

  lemma TrimmedTwice(n: nat, channels: nat)
    requires channels >= 1
    ensures Trimmed(Trimmed(n, channels), channels) == Trimmed(n, channels)
    ensures Trimmed(n - Trimmed(n, channels), channels) == 0
  {
    var g := 2 * channels;
    QuotientUnique(Trimmed(n, channels), g, n / g, 0);
    Remainder(n % g, g);
  }

  /** When the buffer holds whole channel groups, the reads lose nothing. */
  lemma {:induction false} BufferedExact(data: bytes, channels: nat)
    requires channels >= 1 && Trimmed(BUFFER, channels) == BUFFER
    ensures Buffered(data, channels) == Mono(data, channels)
    decreases |data|
  {
    hide Trimmed, Mono;
    var n := Min(BUFFER, |data|);
    var t := Trimmed(n, channels);
    TrimmedTwice(n, channels);
    MonoSplits(data, channels, t);
    if n == BUFFER {
      BufferedExact(data[n..], channels);
    } else {
      MonoOfRest(data[t..], channels);
      assert data[..0] == [] && data[n..] == [];
      NothingLeft(channels);
    }
  }

  lemma NothingLeft(channels: nat)
    requires channels >= 1
    ensures Mono([], channels) == [] && Buffered([], channels) == []
  {
    TrimmedSteps(0, channels);
  }

  lemma FirstGroup(b: bytes, channels: nat)
    requires channels >= 1 && |b| >= 2 * channels
    ensures Mono(b, channels) == [Mean(b[..2 * channels], channels)] + Mono(b[2 * channels..], channels)
  {
  }

  lemma OneGroup(b: bytes, channels: nat)
    requires channels >= 1 && |b| == 2 * channels
    ensures Mono(b, channels) == [Mean(b, channels)]
  {
    assert b[2 * channels..] == [] && b[..2 * channels] == b;
  }

  lemma TooShort(b: bytes, channels: nat)
    requires channels >= 1 && |b| < 2 * channels && |b| <= BUFFER
    ensures Buffered(b, channels) == []
  {
    TrimmedSteps(|b|, channels);
  }

  /** A file that ends one group after the buffer's whole groups is decoded a sample short. */
  lemma ShortBy(data: bytes, channels: nat, t: nat)
    requires channels >= 1 && t == Trimmed(BUFFER, channels) == Trimmed(t, channels)
    requires |data| == t + 2 * channels && t < BUFFER < |data|
    ensures Mono(data, channels) == Buffered(data, channels) + [Mean(data[t..], channels)]
  {
    hide Trimmed, Mono;
    MonoSplits(data, channels, t);
    OneGroup(data[t..], channels);
    assert Min(BUFFER, |data|) == BUFFER;
    if t != 0 {
      TrimmedSteps(BUFFER, channels);
      TooShort(data[BUFFER..], channels);
    } else {
      assert data[..0] == [];
      NothingLeft(channels);
    }
  }

  /** Otherwise such a file exists. */
  lemma BufferedShort(channels: nat) returns (data: bytes, t: nat)
    requires channels >= 1 && Trimmed(BUFFER, channels) != BUFFER
    ensures |data| == t + 2 * channels && forall i :: t <= i < |data| ==> data[i] == 1
    ensures Mono(data, channels) == Buffered(data, channels) + [Mean(data[t..], channels)]
  {
    t := Trimmed(BUFFER, channels);
    TrimmedTwice(BUFFER, channels);
    assert 0 < BUFFER - t < 2 * channels by {
      TrimmedSteps(BUFFER - t, channels);
    }
    data := seq(t + 2 * channels, _ => 1);
    ShortBy(data, channels, t);
  }

  /** The first group decoded from the second read starts where the buffer ended, not where the
      groups decoded from the first read did: every later group is made of shifted bytes. */
  lemma SecondReadShifted(data: bytes, channels: nat, t: nat)
    requires channels >= 1 && t == Trimmed(BUFFER, channels) > 0 && |data| >= BUFFER + 2 * channels
    ensures var k := |Mono(data[..t], channels)|;
            && |Buffered(data, channels)| > k && |Mono(data, channels)| > k
            && Buffered(data, channels)[k] == Mean(data[BUFFER..BUFFER + 2 * channels], channels)
            && Mono(data, channels)[k] == Mean(data[t..t + 2 * channels], channels)
  {
    hide Trimmed, Mono, Mean;
    var g, rest := 2 * channels, data[BUFFER..];
    TrimmedTwice(BUFFER, channels);
    MonoSplits(data, channels, t);
    FirstGroup(data[t..], channels);
    assert data[t..][..g] == data[t..t + g];
    assert Min(BUFFER, |data|) == BUFFER;
    TrimmedSteps(BUFFER, channels);
    var n := Min(BUFFER, |rest|);
    TrimmedSteps(n, channels);
    FirstGroup(rest[..Trimmed(n, channels)], channels);
    assert rest[..Trimmed(n, channels)][..g] == data[BUFFER..BUFFER + g];
  }

  /** Every file decodes to its mono signal exactly when the channel count divides half the buffer. */
  lemma BufferedExactIff(channels: nat)
    requires channels >= 1
    ensures (forall data: bytes :: Buffered(data, channels) == Mono(data, channels)) <==> BUFFER % (2 * channels) == 0
  {
    if BUFFER % (2 * channels) == 0 {
      forall data: bytes
        ensures Buffered(data, channels) == Mono(data, channels)
      {
        BufferedExact(data, channels);
      }
    } else {
      var data, t := BufferedShort(channels);
    }
  }

  // ---- The whole path ----

  /** One read's push, and the rest. */
  lemma ScriptUnfolds(data: bytes, channels: nat, rate: nat, s: Resampler.State, full: bool, mono: seq<real>)
    requires channels >= 1 && rate >= 1 && Resampler.Ready(s)
    requires Trimmed(Min(BUFFER, |data|), channels) > 0
    requires mono == Mono(data[..Trimmed(Min(BUFFER, |data|), channels)], channels)
    ensures Framing.Delivered(Script(data, channels, rate, s, full)) ==
      Resampler.Processed(rate, s, mono).out
      + Framing.Delivered(Script(data[Min(BUFFER, |data|)..], channels, rate,
                                 Resampler.Processed(rate, s, mono).state, full))
    ensures Buffered(data, channels) == mono + Buffered(data[Min(BUFFER, |data|)..], channels)
  {
    hide Mono, Trimmed, Resampler.Processed;
    var n := Min(BUFFER, |data|);
    var y := Resampler.Processed(rate, s, mono);
    var script := Script(data, channels, rate, s, full);
    var rest := Script(data[n..], channels, rate, y.state, full);
    assert script[1..] == rest;
    if script[0].outcome == Framing.Exhausted {
      assert data[n..] == [];
      EmptyScript(channels, rate, y.state, full);
    }
  }

  lemma EmptyScript(channels: nat, rate: nat, s: Resampler.State, full: bool)
    requires channels >= 1 && rate >= 1 && Resampler.Ready(s)
    ensures Framing.Delivered(Script([], channels, rate, s, full)) == []
  {
    TrimmedSteps(0, channels);
  }

  /** The pushes deliver the resampling of what the reads decode, beyond what x already gave. */
  lemma {:induction false} ScriptDelivers(data: bytes, channels: nat, rate: nat, x: seq<real>, full: bool)
    requires channels >= 1 && rate >= 1
    ensures Resampler.Ready(Resampler.StateAfter(rate, x))
    ensures Resampler.Resampled(rate, x)
      + Framing.Delivered(Script(data, channels, rate, Resampler.StateAfter(rate, x), full))
      == Resampler.Resampled(rate, x + Buffered(data, channels))
    decreases |data|
  {
    hide Trimmed, Mono, Resampler.Processed, Resampler.Resampled, Resampler.StateAfter, Resampler.Ready;
    var n := Min(BUFFER, |data|);
    var t := Trimmed(n, channels);
    var s := Resampler.StateAfter(rate, x);
    Resampler.StateAfterReady(rate, x);
    if t == 0 {
      assert x + [] == x;
    } else {
      hide Script, Buffered, Framing.Delivered;
      var mono := Mono(data[..t], channels);
      Resampler.CallExtends(rate, x, mono);
      ScriptUnfolds(data, channels, rate, s, full, mono);
      ScriptDelivers(data[n..], channels, rate, x + mono, full);
      assert x + mono + Buffered(data[n..], channels) == x + (mono + Buffered(data[n..], channels));
    }
  }

  /** The calls that read a whole file, from the start. */
  function FileCore(data: bytes, channels: nat, rate: nat, full: bool): Framing.Core
    requires channels >= 1 && rate >= 1
  {
    Framing.Core([], false, Script(data, channels, rate, Resampler.FRESH, full))
  }

  /** The frames are those of what the reads decode, resampled. */
  lemma FileReads(data: bytes, channels: nat, rate: nat, size: nat, full: bool, n: nat, x: seq<real>)
    requires channels >= 1 && rate >= 1 && size >= 1
    requires x == Resampler.Resampled(rate, Buffered(data, channels))
    ensures |Framing.Reads(size, FileCore(data, channels, rate, full), n)| == n
    ensures forall k :: 0 <= k < n ==>
      Framing.Reads(size, FileCore(data, channels, rate, full), n)[k] == Framing.Ideal(size, x, k)
  {
    hide Buffered, Resampler.Resampled, Resampler.StateAfter, Script;
    var none: seq<real> := [];
    Resampler.NothingHeard(rate);
    ScriptDelivers(data, channels, rate, none, full);
    assert none + Buffered(data, channels) == Buffered(data, channels);
    var c := FileCore(data, channels, rate, full);
    assert Framing.Remaining(c) == Framing.Delivered(c.script) == none + Framing.Delivered(c.script) == x;
    ScriptErrorFree(data, channels, rate, Resampler.FRESH, full);
    Framing.ErrorFreeRun(size, c, n);
  }

  /** n reads of a file return the frames of its resampled mono signal, then end of file forever. */
  ghost predicate ReadsWhole(data: bytes, channels: nat, rate: nat, size: nat, full: bool, n: nat)
    requires channels >= 1 && size >= 1
  {
    rate >= 1 ==>
      && |Framing.Reads(size, FileCore(data, channels, rate, full), n)| == n
      && forall k :: 0 <= k < n ==>
        Framing.Reads(size, FileCore(data, channels, rate, full), n)[k]
        == Framing.Ideal(size, Resampler.Resampled(rate, Mono(data, channels)), k)
  }

  lemma WavFrames(data: bytes, channels: nat, rate: nat, size: nat, full: bool, n: nat)
    requires channels >= 1 && size >= 1 && BUFFER % (2 * channels) == 0
    ensures ReadsWhole(data, channels, rate, size, full, n)
  {
    hide Mono, Buffered, Resampler.Resampled, Framing.Reads, Framing.Ideal;
    if rate >= 1 {
      BufferedExact(data, channels);
      FileReads(data, channels, rate, size, full, n, Resampler.Resampled(rate, Buffered(data, channels)));
    }
  }

  lemma {:induction false} SumOfOnes(b: bytes, n: nat)
    requires 2 * n <= |b| && forall i :: 0 <= i < |b| ==> b[i] == 1
    ensures Sum(b, n) == 0x101 * n
  {
    if n > 0 {
      SumOfOnes(b, n - 1);
    }
  }

  lemma ScaledPositive(sum: int, channels: nat)
    requires channels >= 1 && sum > 0
    ensures Scaled(sum, channels) > 0.0
  {
  }

  /** A stream that ends in a nonzero sample has other frames than the stream without it. */
  lemma SampleSeen(size: nat, y: seq<real>, m: real)
    requires size >= 1 && m != 0.0
    ensures Framing.Frames(size, y + [m]) != Framing.Frames(size, y)
  {
    hide Framing.Frames, Framing.Padding, Joined;
    var x := y + [m];
    var px, py := Framing.Padding(size, x), Framing.Padding(size, y);
    Framing.FramesConserve(size, x);
    Framing.FramesConserve(size, y);
    var a, b := x + Framing.Silence(px), y + Framing.Silence(py);
    assert a[|y|] == m;
    assert |b| > |y| ==> b[|y|] == 0.0;
  }

  /** With any other channel count, whatever the frame length and the flag of the last short read,
      some 16 kHz file is misread. */
  lemma FileMisread(channels: nat, size: nat, full: bool) returns (data: bytes, n: nat)
    requires channels >= 1 && size >= 1 && BUFFER % (2 * channels) != 0
    ensures !ReadsWhole(data, channels, Resampler.SAMPLE_RATE, size, full, n)
  {
    hide Mono, Buffered, Framing.Reads, Framing.Frames, Scaled, Sum;
    var t: nat;
    data, t := BufferedShort(channels);
    var y, m := Buffered(data, channels), Mean(data[t..], channels);
    SumOfOnes(data[t..], channels);
    ScaledPositive(Sum(data[t..], channels), channels);
    SampleSeen(size, y, m);
    n := |Framing.Frames(size, y + [m])| + |Framing.Frames(size, y)| + 1;
    FileReads(data, channels, Resampler.SAMPLE_RATE, size, full, n, y);
    if ReadsWhole(data, channels, Resampler.SAMPLE_RATE, size, full, n) {
      Framing.IdealDetermines(size, y + [m], y, n);
    }
  }

  /** For every frame length: every file at every rate reads as its mono signal does, exactly when
      the channel count divides half the buffer. */
  lemma WavFramesIff(channels: nat, size: nat)
    requires channels >= 1 && size >= 1
    ensures (forall data: bytes, rate: nat, full: bool, n: nat :: ReadsWhole(data, channels, rate, size, full, n))
            <==> BUFFER % (2 * channels) == 0
  {
    hide ReadsWhole;
    if BUFFER % (2 * channels) == 0 {
      forall data: bytes, rate: nat, full: bool, n: nat
        ensures ReadsWhole(data, channels, rate, size, full, n)
      {
        WavFrames(data, channels, rate, size, full, n);
      }
    } else {
      var data, n := FileMisread(channels, size, false);
    }
  }

  lemma {:induction false} ScriptErrorFree(data: bytes, channels: nat, rate: nat, s: Resampler.State, full: bool)
    requires channels >= 1 && rate >= 1 && Resampler.Ready(s)
    ensures Framing.ErrorFree(Script(data, channels, rate, s, full))
    decreases |data|
  {
    var n := Min(BUFFER, |data|);
    if Trimmed(n, channels) != 0 {
      var y := Resampler.Processed(rate, s, Mono(data[..Trimmed(n, channels)], channels));
      ScriptErrorFree(data[n..], channels, rate, y.state, full);
    }
  }
}
