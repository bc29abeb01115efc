/** H.264 payloads (RFC 6184): single NAL units, FU-A fragments (section 5.8), STAP-A
    aggregates (section 5.7.1) and the depacketizer that takes them apart. */
module H264 {
  import opened Bytes

  const MTU := 800
  const FRAGMENT := 798
  const MAX_REASSEMBLY := 0x40_0000
  const STAP_A: byte := 24
  const FU_A: byte := 28

  /** The low five bits: the NAL unit type. */
  function NalType(b: byte): byte {
    b % 0x20
  }

  /** The top three bits: forbidden bit and reference indicator, in place. */
  function FNri(b: byte): byte {
    b - b % 0x20
  }

  // ---- Packetizer ----

  /** The fragment carrying body[off..end], with its start and end bits. */
  function Fragment(header: byte, body: bytes, off: nat, end: nat): bytes
    requires off <= end <= |body|
  {
    [FNri(header) + FU_A,
     NalType(header) + (if off == 0 then 0x80 else 0) + (if end == |body| then 0x40 else 0)]
    + body[off..end]
  }

  function FragmentEnd(body: bytes, off: nat): (end: nat)
    requires off <= |body|
    ensures off <= end <= |body| && (off < |body| ==> off < end)
  {
    Min(off + FRAGMENT, |body|)
  }

  function Fragments(header: byte, body: bytes, off: nat): seq<bytes>
    requires off <= |body|
    decreases |body| - off
  {
    if off == |body| then []
    else [Fragment(header, body, off, FragmentEnd(body, off))] + Fragments(header, body, FragmentEnd(body, off))
  }

  function Package(nalu: bytes): seq<bytes> {
    if nalu == [] then [] else if |nalu| <= MTU then [nalu] else Fragments(nalu[0], nalu[1..], 0)
  }

  method PackageH264NALU(nalu: bytes) returns (out: seq<bytes>)
    ensures out == Package(nalu)
  {
    if |nalu| == 0 {
      return [];
    }
    if |nalu| <= MTU {
      return [nalu];
    }
    var header, body := nalu[0], nalu[1..];
    var fuIndicator := FNri(header) + FU_A;
    out := [];
    var offset := 0;
    while offset < |body|
      invariant offset <= |body|
      invariant out + Fragments(header, body, offset) == Fragments(header, body, 0)
    {
      var end := offset + FRAGMENT;
      if end > |body| {
        end := |body|;
      }
      var fuHeader := NalType(header);
      if offset == 0 {
        fuHeader := fuHeader + 0x80;
      }
      if end == |body| {
        fuHeader := fuHeader + 0x40;
      }
      var pkt := [fuIndicator, fuHeader] + body[offset..end];
      assert pkt == Fragment(header, body, offset, FragmentEnd(body, offset));
      out := out + [pkt];
      offset := end;
    }
  }

  /** How many fragments are left, and that each fits the budget. */
  lemma {:induction false} FragmentsShape(header: byte, body: bytes, off: nat)
    requires off <= |body|
    ensures var fs := Fragments(header, body, off);
            |fs| == (|body| - off + FRAGMENT - 1) / FRAGMENT
            && forall i :: 0 <= i < |fs| ==>
                 2 < |fs[i]| <= 800 && (i < |fs| - 1 ==> |fs[i]| == 800)
                 && fs[i][0] == header / 0x20 * 0x20 + 28
                 && fs[i][1] == header % 0x20 + (if i == 0 && off == 0 then 0x80 else 0)
                                + (if i == |fs| - 1 then 0x40 else 0)
    decreases |body| - off
  {
    if off < |body| {
      var end := FragmentEnd(body, off);
      FragmentsShape(header, body, end);
      FragmentBits(header, body, off, end);
      CountStep(|body| - off, |body| - end);
    }
  }

  lemma CountStep(n: nat, m: nat)
    requires n > 0 && m == Max(n - FRAGMENT, 0)
    ensures (n + FRAGMENT - 1) / FRAGMENT == 1 + (m + FRAGMENT - 1) / FRAGMENT
  {
  }

  lemma FragmentBits(header: byte, body: bytes, off: nat, end: nat)
    requires off < end <= |body| && end - off <= FRAGMENT
    ensures var f := Fragment(header, body, off, end);
            2 < |f| <= MTU && NalType(f[0]) == FU_A && FNri(f[0]) == FNri(header) && f[2..] == body[off..end]
            && NalType(f[1]) == NalType(header)
            && (f[1] >= 0x80 <==> off == 0) && (f[1] / 0x40 % 2 == 1 <==> end == |body|)
  {
  }

  /** Every payload is nonempty and within 800 bytes; a large unit becomes at least two fragments of 798
      bytes, the last one shorter if need be, the first with only the start bit, the last with only the end bit. */
  lemma PayloadShape(nalu: bytes)
    ensures forall p :: p in Package(nalu) ==> 0 < |p| <= 800
    ensures |nalu| <= 800 ==> Package(nalu) == if nalu == [] then [] else [nalu]
    ensures |nalu| > 800 ==>
              var fs := Package(nalu);
              |fs| == (|nalu| + 796) / 798 && |fs| >= 2
              && forall i :: 0 <= i < |fs| ==>
                   2 < |fs[i]| && (i < |fs| - 1 ==> |fs[i]| == 800)
                   && fs[i][0] == nalu[0] / 0x20 * 0x20 + 28
                   && fs[i][1] == nalu[0] % 0x20 + (if i == 0 then 0x80 else 0) + (if i == |fs| - 1 then 0x40 else 0)
  {
    if |nalu| > MTU {
      FragmentsShape(nalu[0], nalu[1..], 0);
    }
  }

  // ---- STAP-A aggregation ----

  function StapSize(nalus: seq<bytes>): nat {
    if nalus == [] then 1 else StapSize(nalus[..|nalus| - 1]) + 2 + |nalus[|nalus| - 1]|
  }

  /** The highest reference indicator, in place. */
  function MaxNri(nalus: seq<bytes>): (r: byte)
    requires forall i :: 0 <= i < |nalus| ==> nalus[i] != []
    ensures r % 0x20 == 0 && r < 0x80
  {
    if nalus == [] then 0 else Max(MaxNri(nalus[..|nalus| - 1]), nalus[|nalus| - 1][0] / 0x20 % 4 * 0x20)
  }

  function StapBody(nalus: seq<bytes>): bytes
    requires forall i :: 0 <= i < |nalus| ==> |nalus[i]| <= 0xFFFF
  {
    if nalus == [] then []
    else StapBody(nalus[..|nalus| - 1]) + Be16(|nalus[|nalus| - 1]|) + nalus[|nalus| - 1]
  }

  /** At least two units, none empty or above 65535 bytes, together within the budget. */
  predicate Aggregable(nalus: seq<bytes>) {
    |nalus| >= 2 && (forall i :: 0 <= i < |nalus| ==> 0 < |nalus[i]| <= 0xFFFF) && StapSize(nalus) <= MTU
  }

  function Aggregate(nalus: seq<bytes>): Option<bytes> {
    if Aggregable(nalus) then Some([MaxNri(nalus) + STAP_A] + StapBody(nalus)) else None
  }

  lemma {:induction false} StapSizeMonotone(nalus: seq<bytes>, k: nat)
    requires k <= |nalus|
    ensures StapSize(nalus[..k]) <= StapSize(nalus)
    decreases |nalus|
  {
    if k < |nalus| {
      var init := nalus[..|nalus| - 1];
      StapSizeMonotone(init, k);
      assert init[..k] == nalus[..k];
    } else {
      assert nalus[..k] == nalus;
    }
  }

  lemma {:induction false} StapBodySize(nalus: seq<bytes>)
    requires forall i :: 0 <= i < |nalus| ==> |nalus[i]| <= 0xFFFF
    ensures |StapBody(nalus)| + 1 == StapSize(nalus)
  {
    if nalus != [] {
      StapBodySize(nalus[..|nalus| - 1]);
    }
  }

  /** The reference indicator of a unit, 0 to 3. */
  function Nri(b: byte): nat {
    b / 0x20 % 4
  }

  lemma {:induction false} MaxNriIs(nalus: seq<bytes>)
    requires forall i :: 0 <= i < |nalus| ==> nalus[i] != []
    ensures forall i :: 0 <= i < |nalus| ==> Nri(nalus[i][0]) <= Nri(MaxNri(nalus))
    ensures nalus != [] ==> exists i :: 0 <= i < |nalus| && Nri(nalus[i][0]) == Nri(MaxNri(nalus))
  {
    if nalus != [] {
      var init, last := nalus[..|nalus| - 1], nalus[|nalus| - 1];
      MaxNriIs(init);
      assert MaxNri(nalus) == Max(MaxNri(init), 0x20 * Nri(last[0]));
      if init != [] && Nri(MaxNri(nalus)) == Nri(MaxNri(init)) {
        var i :| 0 <= i < |init| && Nri(init[i][0]) == Nri(MaxNri(init));
        assert nalus[i] == init[i];
      } else {
        assert Nri(nalus[|nalus| - 1][0]) == Nri(MaxNri(nalus));
      }
    }
  }

  /** Two units or more, none empty or above 65535 bytes, are aggregated exactly when they fit 800 bytes
      together. The header byte has type 24 and the highest reference indicator among the units. */
  lemma AggregateHeader(nalus: seq<bytes>)
    ensures Aggregate(nalus).Some? <==>
            |nalus| >= 2 && (forall i :: 0 <= i < |nalus| ==> 0 < |nalus[i]| <= 0xFFFF) && |StapBody(nalus)| < 800
    ensures Aggregate(nalus).Some? ==>
              var b := Aggregate(nalus).value[0];
              && b % 0x20 == 24 && b < 0x80
              && (forall i :: 0 <= i < |nalus| ==> Nri(nalus[i][0]) <= Nri(b))
              && (exists i :: 0 <= i < |nalus| && Nri(nalus[i][0]) == Nri(b))
  {
    if |nalus| >= 2 && (forall i :: 0 <= i < |nalus| ==> 0 < |nalus[i]| <= 0xFFFF) {
      StapBodySize(nalus);
      MaxNriIs(nalus);
      assert Nri(MaxNri(nalus) + STAP_A) == Nri(MaxNri(nalus));
    }
  }

  method PackageH264STAPA(nalus: seq<bytes>) returns (r: Option<bytes>)
    ensures r == Aggregate(nalus)
  {
    hide StapSize, MaxNri, StapBody;
    if |nalus| < 2 {
      return None;
    }
    NothingAggregated(nalus);
    var total, maxNri: byte := 1, 0;
    for i := 0 to |nalus|
      invariant forall j :: 0 <= j < i ==> 0 < |nalus[j]| <= 0xFFFF
      invariant total == StapSize(nalus[..i]) <= MTU
      invariant maxNri == MaxNri(nalus[..i])
    {
      var n := nalus[i];
      if |n| == 0 || |n| > 0xFFFF {
        return None;
      }
      OneMoreUnit(nalus, i);
      total := total + 2 + |n|;
      if total > MTU {
        StapSizeMonotone(nalus, i + 1);
        return None;
      }
      var nri := n[0] / 0x20 % 4 * 0x20;
      if nri > maxNri {
        maxNri := nri;
      }
    }
    assert nalus[..|nalus|] == nalus;
    var out := [maxNri + STAP_A];
    for i := 0 to |nalus|
      invariant out == [maxNri + STAP_A] + StapBody(nalus[..i])
    {
      OneMoreUnit(nalus, i);
      out := out + Be16(|nalus[i]|) + nalus[i];
    }
    r := Some(out);
  }

  lemma NothingAggregated(nalus: seq<bytes>)
    ensures StapSize(nalus[..0]) == 1 && MaxNri(nalus[..0]) == 0 && StapBody(nalus[..0]) == []
  {
  }

  lemma OneMoreUnit(nalus: seq<bytes>, i: nat)
    requires i < |nalus| && forall j :: 0 <= j <= i ==> 0 < |nalus[j]| <= 0xFFFF
    ensures StapSize(nalus[..i + 1]) == StapSize(nalus[..i]) + 2 + |nalus[i]|
    ensures MaxNri(nalus[..i + 1]) == Max(MaxNri(nalus[..i]), nalus[i][0] / 0x20 % 4 * 0x20)
    ensures StapBody(nalus[..i + 1]) == StapBody(nalus[..i]) + Be16(|nalus[i]|) + nalus[i]
  {
    assert nalus[..i + 1][..i] == nalus[..i];
  }

  // ---- Depacketizer ----

  datatype Depack = Depack(buf: bytes, nalType: byte, fNri: byte, active: bool)

  const NEW_DEPACK := Depack([], 0, 0, false)

  /** Length-prefixed units up to the first one that does not fit. */
  function SplitStap(body: bytes): seq<bytes>
    decreases |body|
  {
    if |body| < 2 then []
    else
      var size, rest := FromBe16(body[0], body[1]), body[2..];
      if size <= 0 || size > |rest| then [] else [rest[..size]] + SplitStap(rest[size..])
  }

  method SplitAggregate(aggregate: bytes) returns (out: seq<bytes>)
    ensures out == SplitStap(aggregate)
  {
    var body := aggregate;
    out := [];
    while |body| >= 2
      invariant out + SplitStap(body) == SplitStap(aggregate)
      decreases |body|
    {
      var size, rest := FromBe16(body[0], body[1]), body[2..];
      if size <= 0 || size > |rest| {
        assert SplitStap(body) == [];
        return out;
      }
      out := out + [rest[..size]];
      body := rest[size..];
    }
  }

  function StepFu(d: Depack, payload: bytes): (Depack, seq<bytes>)
    requires |payload| >= 2
  {
    var fnri, start, end := FNri(payload[0]), payload[1] >= 0x80, payload[1] / 0x40 % 2 == 1;
    var body := payload[2..];
    if !start && !d.active then (d, [])
    else if !start && |d.buf| + |body| > MAX_REASSEMBLY then (d.(buf := [], active := false), [])
    else
      var d' := if start then Depack([fnri + NalType(payload[1])] + body, NalType(payload[1]), fnri, true)
                else d.(buf := d.buf + body);
      if end then (d'.(buf := [], active := false), [d'.buf]) else (d', [])
  }

  /** One payload: the next state and the NAL units it completes. */
  function Step(d: Depack, payload: bytes): (Depack, seq<bytes>) {
    if payload == [] then (d, [])
    else if 1 <= NalType(payload[0]) <= 23 then (d.(active := false), [payload])
    else if NalType(payload[0]) == STAP_A then (d.(active := false), SplitStap(payload[1..]))
    else if NalType(payload[0]) == FU_A && |payload| >= 2 then StepFu(d, payload)
    else (d.(active := false), [])
  }

  class H264Depacketizer {
    var fuBuf: bytes
    var fuType: byte
    var fuNriF: byte
    var fuActive: bool

    function State(): Depack
      reads this
    {
      Depack(fuBuf, fuType, fuNriF, fuActive)
    }

    constructor ()
      ensures State() == NEW_DEPACK
    {
      fuBuf, fuType, fuNriF, fuActive := [], 0, 0, false;
    }

    method Depacketize(payload: bytes) returns (out: seq<bytes>)
      modifies this
      ensures (State(), out) == Step(old(State()), payload)
    {
      if |payload| < 1 {
        return [];
      }
      var naluType, fbitAndNri := NalType(payload[0]), FNri(payload[0]);
      if 1 <= naluType <= 23 {
        fuActive := false;
        return [payload];
      } else if naluType == STAP_A {
        fuActive := false;
        out := SplitAggregate(payload[1..]);
      } else if naluType == FU_A {
        if |payload| < 2 {
          fuActive := false;
          return [];
        }
        var fuHeader, body := payload[1], payload[2..];
        var startBit, endBit, origType := fuHeader >= 0x80, fuHeader / 0x40 % 2 == 1, NalType(fuHeader);
        if startBit {
          fuActive := true;
          fuType := origType;
          fuNriF := fbitAndNri;
          fuBuf := [fbitAndNri + origType];
          fuBuf := fuBuf + body;
        } else if fuActive {
          if |fuBuf| + |body| > MAX_REASSEMBLY {
            fuActive := false;
            fuBuf := [];
            return [];
          }
          fuBuf := fuBuf + body;
        } else {
          return [];
        }
        if endBit && fuActive {
          fuActive := false;
          out := [fuBuf];
          fuBuf := [];
          return out;
        }
        return [];
      } else {
        fuActive := false;
        return [];
      }
    }
  }

  // ---- Streams of payloads ----

  function Run(d: Depack, payloads: seq<bytes>): (Depack, seq<bytes>)
    decreases |payloads|
  {
    if payloads == [] then (d, [])
    else
      var (d1, out) := Step(d, payloads[0]);
      var (d2, more) := Run(d1, payloads[1..]);
      (d2, out + more)
  }

  lemma {:induction false} RunConcat(d: Depack, a: seq<bytes>, b: seq<bytes>)
    ensures Run(d, a + b).0 == Run(Run(d, a).0, b).0
    ensures Run(d, a + b).1 == Run(d, a).1 + Run(Run(d, a).0, b).1
    decreases |a|
  {
    if a == [] {
      assert a + b == b;
    } else {
      assert (a + b)[1..] == a[1..] + b;
      var (d1, out) := Step(d, a[0]);
      RunConcat(d1, a[1..], b);
      assert out + (Run(d1, a[1..]).1 + Run(Run(d1, a[1..]).0, b).1)
             == out + Run(d1, a[1..]).1 + Run(Run(d1, a[1..]).0, b).1;
    }
  }

  /** What the fragments from off on make of a buffer holding everything before them. */
  lemma {:induction false} RunFragments(d: Depack, header: byte, body: bytes, off: nat)
    requires 0 < off < |body| && d.active && d.buf == [header] + body[..off]
    ensures var (d', out) := Run(d, Fragments(header, body, off));
            !d'.active && out == if 1 + |body| <= MAX_REASSEMBLY then [[header] + body] else []
    decreases |body| - off
  {
    hide Step, StepFu, Fragment;
    var end := FragmentEnd(body, off);
    var fs := Fragments(header, body, off);
    ContinueFragment(d, header, body, off, end);
    assert fs[0] == Fragment(header, body, off, end) && fs[1..] == Fragments(header, body, end);
    if |d.buf| + (end - off) > MAX_REASSEMBLY {
      IgnoredFragments(Step(d, fs[0]).0, header, body, end);
    } else if end < |body| {
      RunFragments(Step(d, fs[0]).0, header, body, end);
    } else {
      assert body[..end] == body;
    }
  }

  /** One more fragment of a unit whose beginning is buffered. */
  lemma ContinueFragment(d: Depack, header: byte, body: bytes, off: nat, end: nat)
    requires 0 < off < end <= |body| && end - off <= FRAGMENT && d.active && d.buf == [header] + body[..off]
    ensures var (d', out) := Step(d, Fragment(header, body, off, end));
            if 1 + end > MAX_REASSEMBLY then !d'.active && out == []
            else if end < |body| then d'.active && d'.buf == [header] + body[..end] && out == []
            else !d'.active && out == [[header] + body[..end]]
  {
    FragmentBits(header, body, off, end);
    assert d.buf + body[off..end] == [header] + body[..end];
  }

  /** After an overflow the rest of the fragments is ignored. */
  lemma {:induction false} IgnoredFragments(d: Depack, header: byte, body: bytes, off: nat)
    requires 0 < off <= |body| && !d.active
    ensures Run(d, Fragments(header, body, off)) == (d, [])
    decreases |body| - off
  {
    if off < |body| {
      var end := FragmentEnd(body, off);
      FragmentBits(header, body, off, end);
      var fs := Fragments(header, body, off);
      assert fs[0] == Fragment(header, body, off, end) && fs[1..] == Fragments(header, body, end);
      IgnoredFragments(d, header, body, end);
      var none: seq<bytes> := [];
      assert Step(d, fs[0]) == (d, none) && none + none == none;
    }
  }

  lemma RunLarge(d: Depack, nalu: bytes)
    requires |nalu| > 800
    ensures var (d', out) := Run(d, Package(nalu));
            !d'.active && out == if |nalu| <= 4194304 then [nalu] else []
  {
    hide Step, Fragment;
    var header, body := nalu[0], nalu[1..];
    var end := FragmentEnd(body, 0);
    FirstFragment(d, header, body, end);
    var fs := Fragments(header, body, 0);
    assert fs[0] == Fragment(header, body, 0, end) && fs[1..] == Fragments(header, body, end);
    RunFragments(Depack([header] + body[..end], NalType(header), FNri(header), true), header, body, end);
    assert [header] + body == nalu;
  }

  lemma FirstFragment(d: Depack, header: byte, body: bytes, end: nat)
    requires 0 < end < |body| && end <= FRAGMENT
    ensures Step(d, Fragment(header, body, 0, end))
            == (Depack([header] + body[..end], NalType(header), FNri(header), true), [])
  {
    FragmentBits(header, body, 0, end);
    assert FNri(header) + NalType(header) == header;
    assert body[0..end] == body[..end];
  }

  /** Units the packetizer can carry: nonempty, within 4 MiB, and, when sent whole, of a
      type that stands for itself. */
  predicate Carriable(nalu: bytes) {
    0 < |nalu| <= 4194304 && (|nalu| > 800 || 1 <= NalType(nalu[0]) <= 23)
  }

  /** From any state, the payloads of a carriable unit yield exactly that unit. */
  lemma PackageRoundTrip(d: Depack, nalu: bytes)
    requires Carriable(nalu)
    ensures Run(d, Package(nalu)).1 == [nalu] && !Run(d, Package(nalu)).0.active
  {
    if |nalu| > MTU {
      RunLarge(d, nalu);
    } else {
      assert Package(nalu)[1..] == [];
    }
  }

  lemma {:induction false} SplitStapShorter(body: bytes)
    ensures forall n :: n in SplitStap(body) ==> |n| + 2 <= |body|
    decreases |body|
  {
    if |body| >= 2 {
      var size, rest := FromBe16(body[0], body[1]), body[2..];
      if 0 < size <= |rest| {
        SplitStapShorter(rest[size..]);
      }
    }
  }

  /** Carriable is exact: any other unit is lost or altered, at the latest by a fresh
      depacketizer. */
  lemma PackageRoundTripIff(nalu: bytes)
    ensures (forall d :: Run(d, Package(nalu)).1 == [nalu]) <==> Carriable(nalu)
  {
    if Carriable(nalu) {
      forall d {
        PackageRoundTrip(d, nalu);
      }
    } else {
      var d := NEW_DEPACK;
      if |nalu| > MTU {
        RunLarge(d, nalu);
      } else if nalu != [] {
        assert Package(nalu)[1..] == [];
        assert Run(d, Package(nalu)).1 == Step(d, nalu).1;
        SplitStapShorter(nalu[1..]);
        assert forall n :: n in Step(d, nalu).1 ==> |n| < |nalu|;
        assert nalu in [nalu];
      }
      assert Run(d, Package(nalu)).1 != [nalu];
    }
  }

  /** Whatever came before and comes after, a carriable unit whose payloads arrive together
      comes out whole, between the units of what precedes and what follows it. */
  lemma Resynchronises(d: Depack, before: seq<bytes>, nalu: bytes, after: seq<bytes>)
    requires Carriable(nalu)
    ensures var d1 := Run(d, before).0;
            var d2 := Run(d1, Package(nalu)).0;
            Run(d, before + Package(nalu) + after).1 == Run(d, before).1 + [nalu] + Run(d2, after).1
  {
    var d1 := Run(d, before).0;
    RunConcat(d, before + Package(nalu), after);
    RunConcat(d, before, Package(nalu));
    PackageRoundTrip(d1, nalu);
  }

  function PackageAll(nalus: seq<bytes>): seq<bytes> {
    if nalus == [] then [] else Package(nalus[0]) + PackageAll(nalus[1..])
  }

  /** A whole stream of carriable units comes back as it was. */
  lemma {:induction false} StreamRoundTrip(d: Depack, nalus: seq<bytes>)
    requires forall i :: 0 <= i < |nalus| ==> Carriable(nalus[i])
    ensures Run(d, PackageAll(nalus)).1 == nalus
    decreases |nalus|
  {
    if nalus != [] {
      RunConcat(d, Package(nalus[0]), PackageAll(nalus[1..]));
      PackageRoundTrip(d, nalus[0]);
      StreamRoundTrip(Run(d, Package(nalus[0])).0, nalus[1..]);
    }
  }

  /** Splitting a body inverts building it, whatever else was split before it. */
  lemma {:induction false} SplitInvertsBody(nalus: seq<bytes>, tail: bytes)
    requires forall i :: 0 <= i < |nalus| ==> 0 < |nalus[i]| <= 0xFFFF
    ensures SplitStap(StapBody(nalus) + tail) == nalus + SplitStap(tail)
    decreases |nalus|
  {
    hide SplitStap;
    if nalus == [] {
      assert StapBody(nalus) + tail == tail;
    } else {
      var init, last := nalus[..|nalus| - 1], nalus[|nalus| - 1];
      var unit := Be16(|last|) + last + tail;
      assert StapBody(nalus) + tail == StapBody(init) + unit;
      SplitInvertsBody(init, unit);
      UnitSplits(last, tail);
      assert nalus == init + [last];
    }
  }

  lemma UnitSplits(unit: bytes, tail: bytes)
    requires 0 < |unit| <= 0xFFFF
    ensures SplitStap(Be16(|unit|) + unit + tail) == [unit] + SplitStap(tail)
  {
    var body := Be16(|unit|) + unit + tail;
    Be16Inverts(|unit|);
    assert body[0] == Be16(|unit|)[0] && body[1] == Be16(|unit|)[1];
    assert body[2..] == unit + tail;
    assert (unit + tail)[..|unit|] == unit && (unit + tail)[|unit|..] == tail;
  }

  /** An aggregate fits the budget and splits back into exactly its units, from any state. */
  lemma AggregateRoundTrip(d: Depack, nalus: seq<bytes>)
    requires Aggregable(nalus)
    ensures var payload := Aggregate(nalus).value;
            |payload| <= MTU && Step(d, payload) == (d.(active := false), nalus)
  {
    var payload := Aggregate(nalus).value;
    StapBodySize(nalus);
    SplitInvertsBody(nalus, []);
    assert payload[1..] == StapBody(nalus) + [];
    assert nalus + SplitStap([]) == nalus;
    assert NalType(payload[0]) == STAP_A;
  }

  /** Too short for a length, a length of zero, or one beyond the end. */
  predicate Broken(tail: bytes) {
    |tail| < 2 || FromBigEndian(tail[..2]) == 0 || FromBigEndian(tail[..2]) > |tail| - 2
  }

  /** The units of an aggregate, on every byte string: those in front of the first broken length. */
  lemma SplitStapIff(body: bytes, nalus: seq<bytes>)
    requires forall i :: 0 <= i < |nalus| ==> 0 < |nalus[i]| <= 0xFFFF
    ensures SplitStap(body) == nalus <==> exists tail :: Broken(tail) && body == StapBody(nalus) + tail
  {
    hide SplitStap, StapBody, Broken;
    if SplitStap(body) == nalus {
      var tail := StapTail(body);
    }
    forall tail | Broken(tail) && body == StapBody(nalus) + tail ensures SplitStap(body) == nalus {
      SplitInvertsBody(nalus, tail);
      BrokenSplits(tail);
    }
  }

  lemma LengthNumber(b: bytes)
    requires |b| >= 2
    ensures FromBigEndian(b[..2]) == FromBe16(b[0], b[1])
  {
    Be16OfBytes(b[0], b[1]);
    Be16Number(FromBe16(b[0], b[1]));
    assert b[..2] == [b[0], b[1]];
  }

  lemma BrokenSplits(tail: bytes)
    ensures Broken(tail) <==> SplitStap(tail) == []
  {
    if |tail| >= 2 {
      LengthNumber(tail);
    }
  }

  lemma StapBodyFront(first: bytes, rest: seq<bytes>)
    requires |first| <= 0xFFFF && forall i :: 0 <= i < |rest| ==> |rest[i]| <= 0xFFFF
    ensures StapBody([first] + rest) == Be16(|first|) + first + StapBody(rest)
    decreases |rest|
  {
    hide Be16;
    if rest == [] {
      assert StapBody([first] + rest) == StapBody([]) + Be16(|first|) + first;
    } else {
      var init, last := rest[..|rest| - 1], rest[|rest| - 1];
      assert ([first] + rest)[..|rest|] == [first] + init;
      StapBodyFront(first, init);
      assert Be16(|first|) + first + StapBody(init) + Be16(|last|) + last
             == Be16(|first|) + first + (StapBody(init) + Be16(|last|) + last);
    }
  }

  lemma FirstSplit(body: bytes) returns (first: bytes, rest: bytes)
    requires SplitStap(body) != []
    ensures 0 < |first| <= 0xFFFF && body == Be16(|first|) + (first + rest)
    ensures SplitStap(body) == [first] + SplitStap(rest)
  {
    var size := FromBe16(body[0], body[1]);
    first, rest := body[2..][..size], body[2..][size..];
    Be16OfBytes(body[0], body[1]);
    assert body == [body[0], body[1]] + body[2..];
    assert body[2..] == first + rest;
  }

  lemma {:induction false} StapTail(body: bytes) returns (tail: bytes)
    ensures Broken(tail) && forall i :: 0 <= i < |SplitStap(body)| ==> 0 < |SplitStap(body)[i]| <= 0xFFFF
    ensures body == StapBody(SplitStap(body)) + tail
    decreases |body|
  {
    hide Broken, StapBody, SplitStap, Be16;
    BrokenSplits(body);
    if SplitStap(body) == [] {
      tail := body;
      NoBody();
      assert [] + body == body;
    } else {
      var first, rest := FirstSplit(body);
      tail := StapTail(rest);
      var later := SplitStap(rest);
      StapBodyFront(first, later);
      assert Be16(|first|) + (first + (StapBody(later) + tail)) == Be16(|first|) + first + StapBody(later) + tail;
    }
  }

  lemma NoBody()
    ensures StapBody([]) == []
  {
  }

  // ---- What the depacketizer holds ----

  /** A fragment with the start bit and without the end bit. */
  predicate Opens(p: bytes) {
    |p| >= 2 && p[0] % 0x20 == 28 && 0x80 <= p[1] < 0xC0
  }

  /** An empty payload, or a fragment with neither bit. */
  predicate Continues(p: bytes) {
    p == [] || (|p| >= 2 && p[0] % 0x20 == 28 && p[1] < 0x40)
  }

  /** What the fragments carry, joined. */
  function Carried(ps: seq<bytes>): bytes {
    if ps == [] then [] else Carried(ps[..|ps| - 1]) + (var p := ps[|ps| - 1]; if |p| < 2 then [] else p[2..])
  }

  /** With its header, what payloads k to j carry is within 4 MiB. */
  predicate Small(ps: seq<bytes>, k: nat, j: nat)
    requires k <= j < |ps|
  {
    |Carried(ps[k..j + 1])| < 4194304
  }

  /** From payload k on a unit is being collected: k opens it, nothing but continuations follow, and every one
      keeps it within 4 MiB. */
  predicate Collects(ps: seq<bytes>, k: nat) {
    k < |ps| && Opens(ps[k])
    && forall j :: k < j < |ps| ==> Continues(ps[j]) && (ps[j] != [] ==> Small(ps, k, j))
  }

  /** The unit collected so far: the indicator's upper bits and the fragment's type, then what was carried. */
  function Collected(ps: seq<bytes>, k: nat): bytes
    requires k < |ps| && Opens(ps[k])
  {
    [ps[k][0] / 0x20 * 0x20 + ps[k][1] % 0x20] + Carried(ps[k..])
  }

  ghost predicate Holds(d: Depack, ps: seq<bytes>) {
    && (d.active ==> exists k: nat :: Collects(ps, k))
    && (forall k: nat :: Collects(ps, k) ==> HoldsAt(d, ps, k))
  }

  predicate HoldsAt(d: Depack, ps: seq<bytes>, k: nat)
    requires Collects(ps, k)
  {
    d.active && d.buf == Collected(ps, k)
  }

  lemma CollectsStep(ps: seq<bytes>, p: bytes, k: nat)
    ensures Collects(ps + [p], k) <==>
            if k == |ps| then Opens(p)
            else Collects(ps, k) && Continues(p) && (p != [] ==> |Carried(ps[k..] + [p])| < 4194304)
  {
    hide Opens, Continues, Carried;
    var all := ps + [p];
    assert forall j :: 0 <= j < |ps| ==> all[j] == ps[j];
    forall j: nat | k < j < |ps| ensures Small(all, k, j) <==> Small(ps, k, j) {
      assert all[k..j + 1] == ps[k..j + 1];
    }
    if k < |ps| {
      assert all[k..|ps| + 1] == ps[k..] + [p];
      assert all[|ps|] == p;
    }
  }

  lemma CollectedStep(ps: seq<bytes>, p: bytes, k: nat)
    requires k < |ps| && Opens(ps[k])
    ensures Carried(ps[k..] + [p]) == Carried(ps[k..]) + if |p| < 2 then [] else p[2..]
    ensures Opens((ps + [p])[k]) && Collected(ps + [p], k) == Collected(ps, k) + if |p| < 2 then [] else p[2..]
  {
    assert (ps + [p])[k..] == ps[k..] + [p];
    assert (ps[k..] + [p])[..|ps| - k] == ps[k..];
  }

  /** What one payload does to a collection that is going on. */
  lemma CollectingStep(d: Depack, ps: seq<bytes>, p: bytes, k: nat)
    requires Collects(ps, k) && d.active && d.buf == Collected(ps, k)
    ensures Step(d, p).0.active <==> Collects(ps + [p], k) || Opens(p)
    ensures Collects(ps + [p], k) ==> Step(d, p).0.buf == Collected(ps + [p], k)
  {
    hide Carried;
    CollectsStep(ps, p, k);
    CollectedStep(ps, p, k);
  }

  lemma OpeningStep(d: Depack, ps: seq<bytes>, p: bytes)
    requires Opens(p)
    ensures Step(d, p).0.active && Step(d, p).0.buf == Collected(ps + [p], |ps|)
  {
    assert (ps + [p])[|ps|..] == [p];
    assert Carried([p]) == Carried([]) + p[2..] == p[2..];
  }

  lemma IdleStep(d: Depack, p: bytes)
    requires !d.active && !Opens(p)
    ensures !Step(d, p).0.active
  {
  }

  lemma HoldsStep(d: Depack, ps: seq<bytes>, p: bytes)
    requires Holds(d, ps)
    ensures Holds(Step(d, p).0, ps + [p])
  {
    hide Opens, Continues, Collects, Collected, Step;
    var d', all := Step(d, p).0, ps + [p];
    CollectsStep(ps, p, |ps|);
    if Opens(p) {
      OpeningStep(d, ps, p);
    } else if d.active {
      var k: nat :| Collects(ps, k);
      CollectingStep(d, ps, p, k);
    } else {
      IdleStep(d, p);
    }
    forall k: nat | Collects(all, k) ensures HoldsAt(d', all, k) {
      CollectsWithin(all, k);
      if k < |ps| {
        CollectsStep(ps, p, k);
        NotBoth(p);
        CollectingStep(d, ps, p, k);
      } else {
        CollectsStep(ps, p, k);
      }
    }
  }

  lemma CollectsWithin(ps: seq<bytes>, k: nat)
    requires Collects(ps, k)
    ensures k < |ps| && Opens(ps[k])
  {
  }

  lemma NotBoth(p: bytes)
    ensures !(Opens(p) && Continues(p))
  {
  }

  /** After any payloads a fresh depacketizer is in the middle of a unit exactly when the latest of them collect
      one, and it holds what they carry: anything else in between ends the collection. */
  lemma {:induction false} RunHolds(ps: seq<bytes>)
    ensures Holds(Run(NEW_DEPACK, ps).0, ps)
  {
    hide Step, Holds;
    if ps == [] {
      NothingHeld();
    } else {
      var before, p := ps[..|ps| - 1], ps[|ps| - 1];
      RunHolds(before);
      RunConcat(NEW_DEPACK, before, [p]);
      RunOne(Run(NEW_DEPACK, before).0, p);
      HoldsStep(Run(NEW_DEPACK, before).0, before, p);
      assert ps == before + [p];
    }
  }

  lemma NothingHeld()
    ensures Holds(NEW_DEPACK, [])
  {
  }

  lemma RunOne(d: Depack, p: bytes)
    ensures Run(d, [p]).0 == Step(d, p).0
  {
    assert [p][1..] == [];
  }

  /** After any payloads, an end fragment completes exactly the unit being collected, if it stays within 4 MiB. */
  lemma EndCompletes(ps: seq<bytes>, p: bytes)
    requires |p| >= 2 && p[0] % 0x20 == 28 && 0x40 <= p[1] < 0x80
    ensures forall k: nat :: Collects(ps, k) ==>
              Step(Run(NEW_DEPACK, ps).0, p).1
              == if |Collected(ps, k) + p[2..]| <= 4194304 then [Collected(ps, k) + p[2..]] else []
    ensures (forall k: nat :: !Collects(ps, k)) ==> Step(Run(NEW_DEPACK, ps).0, p).1 == []
  {
    hide Collects, Collected, Run;
    RunHolds(ps);
  }
}
