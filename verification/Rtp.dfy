/** RTP framing: the header codec, the Opus payload classifiers and the send-side
    sequencer. */
module Rtp {
  import opened Bytes

  const PAYLOAD_TYPE_OPUS: byte := 120
  const EXTENSION_PROFILE: uint16 := 0xdebe
  const DTX_WORD: uint32 := 0x3001_0000
  const PIGGYBACK_START_PACKET := 2

  const PRIMING_FRAME_1: bytes :=
    [0x12, 0x36, 0x26, 0x2b, 0x4a, 0xc8, 0x2b, 0x09, 0xc9, 0x1f, 0x34, 0xc2, 0xd6, 0x7a, 0x01, 0x73, 0x1b, 0x2e]
  const PRIMING_FRAME_2: bytes := [0x90, 0xb8, 0x14, 0x14, 0xc4]

  // ---- Header codec ----

  datatype RtpHeader = RtpHeader(
    marker: bool,
    payloadType: byte,
    sequenceNumber: uint16,
    timestamp: uint32,
    ssrc: uint32,
    extensionWord: Option<uint32>,
    extensionBytes: bytes
  )

  function ByteSize(h: RtpHeader): (n: nat)
    ensures n >= 16
  {
    if |h.extensionBytes| > 0 then 16 + |h.extensionBytes| else if h.extensionWord.Some? then 20 else 16
  }

  /** The wire form, field after field (section 5.1 of RFC 3550, with the extension
      header of section 5.3.1). */
  function HeaderBytes(h: RtpHeader): (b: bytes)
    ensures |b| == ByteSize(h)
  {
    FixedPart(h) + Be16(EXTENSION_PROFILE) + ExtensionPart(h)
  }

  function FixedPart(h: RtpHeader): (b: bytes)
    ensures |b| == 12
  {
    [0x90, h.payloadType % 0x80 + if h.marker then 0x80 else 0] + Be16(h.sequenceNumber)
    + Be32(h.timestamp) + Be32(h.ssrc)
  }

  function ExtensionPart(h: RtpHeader): (b: bytes)
    ensures |b| == ByteSize(h) - 14
  {
    if |h.extensionBytes| > 0 then Be16(|h.extensionBytes| / 4 % 0x1_0000) + h.extensionBytes
    else match h.extensionWord
      case Some(w) => Be16(1) + Be32(w)
      case None => Be16(0)
  }

  method Put(buf: array<byte>, off: nat, data: bytes)
    requires off + |data| <= buf.Length
    modifies buf
    ensures buf[..] == old(buf[..off]) + data + old(buf[off + |data|..])
  {
    for i := 0 to |data|
      invariant forall k :: 0 <= k < buf.Length ==>
                  buf[k] == if off <= k < off + i then data[k - off] else old(buf[k])
    {
      buf[off + i] := data[i];
    }
  }

  method PutFixed(buf: array<byte>, h: RtpHeader)
    requires buf.Length >= 12 && buf[0] == 0x90
    modifies buf
    ensures buf[..] == FixedPart(h) + old(buf[12..])
  {
    buf[1] := h.payloadType % 0x80;
    if h.marker {
      buf[1] := buf[1] + 0x80;
    }
    ghost var first, rest := buf[..2], buf[12..];
    Put(buf, 2, Be16(h.sequenceNumber));
    assert buf[..4] == first + Be16(h.sequenceNumber) && buf[12..] == rest;
    Put(buf, 4, Be32(h.timestamp));
    assert buf[..8] == first + Be16(h.sequenceNumber) + Be32(h.timestamp) && buf[12..] == rest;
    Put(buf, 8, Be32(h.ssrc));
    assert buf[..12] == first + Be16(h.sequenceNumber) + Be32(h.timestamp) + Be32(h.ssrc) && buf[12..] == rest;
  }

  method PutExtension(buf: array<byte>, h: RtpHeader)
    requires buf.Length == ByteSize(h)
    modifies buf
    ensures buf[..] == old(buf[..14]) + ExtensionPart(h)
  {
    if |h.extensionBytes| > 0 {
      Put(buf, 14, Be16(|h.extensionBytes| / 4 % 0x1_0000));
      Put(buf, 16, h.extensionBytes);
    } else {
      Put(buf, 14, Be16(if h.extensionWord.Some? then 1 else 0));
    }
    if buf.Length >= 20 && h.extensionWord.Some? && |h.extensionBytes| == 0 {
      Put(buf, 16, Be32(h.extensionWord.value));
    }
  }

  /** Fills a zeroed buffer of the header's size. */
  method EncodeRtpHeader(h: RtpHeader) returns (out: bytes)
    ensures out == HeaderBytes(h)
  {
    var size := ByteSize(h);
    var buf := new byte[size](_ => 0);
    buf[0] := 2 * 0x40;
    if size > 12 {
      buf[0] := buf[0] + 0x10;
    }
    PutFixed(buf, h);
    if size >= 16 {
      Put(buf, 12, Be16(EXTENSION_PROFILE));
      PutExtension(buf, h);
    }
    out := buf[..];
  }

  /** Full header size on the wire: fixed part, CSRC list, extension; None if malformed. */
  function HeaderByteLength(data: bytes): (n: Option<nat>)
    ensures n.Some? ==> 12 <= n.value <= |data|
  {
    if |data| < 12 || data[0] / 0x40 != 2 then None
    else
      var base := 12 + data[0] % 0x10 * 4;
      if |data| < base then None
      else if data[0] / 0x10 % 2 != 1 then Some(base)
      else if |data| < base + 4 then None
      else
        var full := base + 4 + FromBe16(data[base + 2], data[base + 3]) * 4;
        if |data| < full then None else Some(full)
  }

  /** The fixed fields; the extension is skipped, not decoded. */
  function ParseRtpHeader(data: bytes): Option<RtpHeader> {
    if HeaderByteLength(data).None? then None
    else Some(RtpHeader(data[1] >= 0x80, data[1] % 0x80, FromBe16(data[2], data[3]),
                        FromBe32(data[4], data[5], data[6], data[7]),
                        FromBe32(data[8], data[9], data[10], data[11]), None, []))
  }

  /** What a receiver can recover of a header. */
  function FixedFields(h: RtpHeader): RtpHeader {
    RtpHeader(h.marker, h.payloadType % 0x80, h.sequenceNumber, h.timestamp, h.ssrc, None, [])
  }

  /** The extension length field counts 32-bit words in 16 bits. */
  predicate ExtensionFits(h: RtpHeader) {
    |h.extensionBytes| % 4 == 0 && |h.extensionBytes| < 0x4_0000
  }

  /** The extension length as written, in words. */
  function DeclaredWords(h: RtpHeader): uint16 {
    if |h.extensionBytes| > 0 then |h.extensionBytes| / 4 % 0x1_0000
    else if h.extensionWord.Some? then 1 else 0
  }

  lemma DeclaredWithin(h: RtpHeader)
    ensures 16 + 4 * DeclaredWords(h) <= ByteSize(h)
    ensures 16 + 4 * DeclaredWords(h) == ByteSize(h) <==> ExtensionFits(h)
  {
    var n := |h.extensionBytes|;
    assert n % 4 == 0 && n < 0x4_0000 <==> 4 * (n / 4 % 0x1_0000) == n;
  }

  lemma HeaderPrefix(h: RtpHeader, rest: bytes)
    ensures var data := HeaderBytes(h) + rest;
            data[..12] == FixedPart(h) && data[14..] == ExtensionPart(h) + rest
            && data[0] == 0x90 && [data[14], data[15]] == Be16(DeclaredWords(h))
  {
    var data, e := HeaderBytes(h) + rest, ExtensionPart(h);
    assert data[..12] == FixedPart(h) && data[14..] == e + rest;
    assert data[0] == data[..12][0];
    assert data[14] == e[0] && data[15] == e[1];
  }

  lemma DeclaredLengthFound(h: RtpHeader, rest: bytes)
    ensures HeaderByteLength(HeaderBytes(h) + rest) == Some(16 + 4 * DeclaredWords(h))
  {
    HeaderPrefix(h, rest);
    DeclaredWithin(h);
    Be16Inverts(DeclaredWords(h));
  }

  /** Whatever follows, the header's end is found exactly when its extension length is
      expressible. */
  lemma HeaderEndFoundIff(h: RtpHeader, rest: bytes)
    ensures HeaderByteLength(HeaderBytes(h) + rest) == Some(ByteSize(h)) <==> ExtensionFits(h)
  {
    DeclaredLengthFound(h, rest);
    DeclaredWithin(h);
  }

  /** Parsing inverts encoding on every fixed field, whatever follows the header. */
  lemma ParseInvertsEncode(h: RtpHeader, rest: bytes)
    ensures ParseRtpHeader(HeaderBytes(h) + rest) == Some(FixedFields(h))
  {
    DeclaredLengthFound(h, rest);
    HeaderPrefix(h, rest);
    FixedPartParses(h, HeaderBytes(h) + rest);
  }

  lemma FixedPartParses(h: RtpHeader, data: bytes)
    requires |data| >= 12 && data[..12] == FixedPart(h) && HeaderByteLength(data).Some?
    ensures ParseRtpHeader(data) == Some(FixedFields(h))
  {
    FixedPartBytes(h, data[..12]);
    assert forall k :: 0 <= k < 12 ==> data[k] == data[..12][k];
    Be16Inverts(h.sequenceNumber);
    Be32Inverts(h.timestamp);
    Be32Inverts(h.ssrc);
  }

  lemma FixedPartBytes(h: RtpHeader, f: bytes)
    requires f == FixedPart(h)
    ensures f[1] >= 0x80 <==> h.marker
    ensures f[1] % 0x80 == h.payloadType % 0x80
    ensures [f[2], f[3]] == Be16(h.sequenceNumber)
    ensures [f[4], f[5], f[6], f[7]] == Be32(h.timestamp)
    ensures [f[8], f[9], f[10], f[11]] == Be32(h.ssrc)
  {
  }

  /** The wire layout of section 5.1 of RFC 3550: version 2, no padding, an extension, no CSRC list;
      marker and payload type; then number, timestamp and SSRC, most significant byte first; then the
      extension's profile and its length in words. */
  lemma HeaderLayout(h: RtpHeader, rest: bytes)
    ensures var data := HeaderBytes(h) + rest;
            && data[0] == 0x90
            && (data[1] >= 0x80 <==> h.marker) && data[1] % 0x80 == h.payloadType % 0x80
            && FromBigEndian(data[2..4]) == h.sequenceNumber
            && FromBigEndian(data[4..8]) == h.timestamp
            && FromBigEndian(data[8..12]) == h.ssrc
            && data[12..14] == [0xde, 0xbe]
            && (ExtensionFits(h) ==> 16 + 4 * FromBigEndian(data[14..16]) == ByteSize(h))
  {
    hide Be16, Be32, FromBigEndian, ExtensionFits;
    var data, x := HeaderBytes(h) + rest, ExtensionPart(h);
    FixedPartBytes(h, FixedPart(h));
    assert data[..12] == FixedPart(h) && data[14..14 + |x|] == x;
    assert data[2..4] == data[..12][2..4] == Be16(h.sequenceNumber);
    assert data[4..8] == data[..12][4..8] == Be32(h.timestamp);
    assert data[8..12] == data[..12][8..12] == Be32(h.ssrc);
    assert data[12..14] == Be16(EXTENSION_PROFILE);
    assert data[14..16] == x[..2] == Be16(DeclaredWords(h));
    Be16Number(h.sequenceNumber);
    Be32Number(h.timestamp);
    Be32Number(h.ssrc);
    Be16Number(DeclaredWords(h));
    DeclaredWithin(h);
    ProfileBytes();
  }

  lemma ProfileBytes()
    ensures Be16(EXTENSION_PROFILE) == [0xde, 0xbe]
  {
  }

  /** A word is carried in full behind the length, and so are bytes. */
  lemma ExtensionLayout(h: RtpHeader, rest: bytes)
    ensures var data := HeaderBytes(h) + rest;
            && (h.extensionBytes != [] ==> data[16..16 + |h.extensionBytes|] == h.extensionBytes)
            && (h.extensionBytes == [] && h.extensionWord.Some? ==>
                  FromBigEndian(data[16..20]) == h.extensionWord.value)
  {
    hide Be16, Be32, FixedPart, FromBigEndian;
    var data, x := HeaderBytes(h) + rest, ExtensionPart(h);
    assert data[14..14 + |x|] == x;
    assert data[16..14 + |x|] == x[2..];
    if h.extensionBytes == [] && h.extensionWord.Some? {
      Be32Number(h.extensionWord.value);
    }
  }

  /** An extension as any sender may write it. */
  datatype Extension = Extension(profile: uint16, words: bytes)

  function ExtensionBytes(x: Option<Extension>): bytes {
    match x
    case None => []
    case Some(e) => Be16(e.profile) + Be16(|e.words| / 4 % 0x1_0000) + e.words
  }

  /** The end of any header is found: fixed part, CSRC list, extension if flagged. */
  lemma AnyHeaderLength(first: byte, fixed: bytes, csrc: bytes, x: Option<Extension>, payload: bytes)
    requires first / 0x40 == 2 && |fixed| == 11 && |csrc| == 4 * (first % 0x10)
    requires first / 0x10 % 2 == 1 <==> x.Some?
    requires x.Some? ==> |x.value.words| % 4 == 0 && |x.value.words| < 0x4_0000
    ensures HeaderByteLength([first] + fixed + csrc + ExtensionBytes(x) + payload)
            == Some(12 + |csrc| + |ExtensionBytes(x)|)
  {
    hide HeaderByteLength, Be16;
    var front, e := [first] + fixed + csrc, ExtensionBytes(x);
    var data := front + e + payload;
    assert data[0] == first && |front| == 12 + first % 0x10 * 4;
    if x.Some? {
      var n := |x.value.words| / 4;
      Be16Inverts(n);
      assert e[2..4] == Be16(n) && data[|front| + 2] == e[2..4][0] && data[|front| + 3] == e[2..4][1];
      FlaggedLength(data, |front|, n);
    } else {
      PlainLength(data, |front|);
    }
  }

  lemma FlaggedLength(data: bytes, base: nat, n: nat)
    requires |data| >= base + 4 + 4 * n && data[0] / 0x40 == 2 && base == 12 + data[0] % 0x10 * 4
    requires data[0] / 0x10 % 2 == 1 && n == FromBe16(data[base + 2], data[base + 3])
    ensures HeaderByteLength(data) == Some(base + 4 + 4 * n)
  {
  }

  lemma PlainLength(data: bytes, base: nat)
    requires |data| >= base && |data| >= 12 && data[0] / 0x40 == 2 && base == 12 + data[0] % 0x10 * 4
    requires data[0] / 0x10 % 2 != 1
    ensures HeaderByteLength(data) == Some(base)
  {
  }

  /** What any RTP packet of version 2 is made of, up to its padding. */
  ghost predicate WellFormed(data: bytes, first: byte, fixed: bytes, csrc: bytes, x: Option<Extension>,
      payload: bytes) {
    && first / 0x40 == 2 && |fixed| == 11 && |csrc| == 4 * (first % 0x10)
    && (first / 0x10 % 2 == 1 <==> x.Some?)
    && (x.Some? ==> |x.value.words| % 4 == 0 && |x.value.words| < 0x4_0000)
    && data == [first] + fixed + csrc + ExtensionBytes(x) + payload
  }

  lemma HeaderFound(data: bytes) returns (fixed: bytes, csrc: bytes, x: Option<Extension>)
    requires HeaderByteLength(data).Some?
    ensures WellFormed(data, data[0], fixed, csrc, x, data[HeaderByteLength(data).value..])
  {
    hide Be16, FromBe16;
    var base, n := 12 + data[0] % 0x10 * 4, HeaderByteLength(data).value;
    fixed, csrc, x := data[1..12], data[12..base], None;
    assert data[..base] == [data[0]] + fixed + csrc;
    if data[0] / 0x10 % 2 == 1 {
      var words := data[base + 4..n];
      x := Some(Extension(FromBe16(data[base], data[base + 1]), words));
      Be16OfBytes(data[base], data[base + 1]);
      Be16OfBytes(data[base + 2], data[base + 3]);
      assert |words| / 4 == FromBe16(data[base + 2], data[base + 3]);
      assert ExtensionBytes(x) == data[base..n];
    } else {
      assert ExtensionBytes(x) == data[base..n];
    }
    assert data == data[..base] + data[base..n] + data[n..];
  }

  /** On every byte string: a header has an end exactly if the packet is of this form, and the payload starts there. */
  lemma HeaderEndIff(data: bytes, n: nat)
    ensures HeaderByteLength(data) == Some(n) <==>
            exists first, fixed, csrc, x, payload ::
              WellFormed(data, first, fixed, csrc, x, payload) && n == |data| - |payload|
  {
    hide HeaderByteLength;
    if HeaderByteLength(data) == Some(n) {
      var fixed, csrc, x := HeaderFound(data);
      assert WellFormed(data, data[0], fixed, csrc, x, data[n..]);
    }
    forall first, fixed, csrc, x, payload | WellFormed(data, first, fixed, csrc, x, payload)
      ensures HeaderByteLength(data) == Some(|data| - |payload|)
    {
      AnyHeaderLength(first, fixed, csrc, x, payload);
    }
  }

  /** A header cut anywhere is refused. */
  lemma CutHeaderRefused(data: bytes, n: nat)
    requires HeaderByteLength(data).Some? && n < HeaderByteLength(data).value
    ensures HeaderByteLength(data[..n]) == None
  {
  }

  // ---- Payload classifiers ----

  predicate IsOpusDtxPayload(payload: bytes) {
    if |payload| == 0 then false
    else if |payload| == 1 then payload[0] == 0x10 || payload[0] == 0x88 || payload[0] == 0x90
    else if |payload| > 15 then false
    else if payload[0] / 8 == 1 || payload[0] == 0x0a then true
    else payload[0] / 16 == 3 && |payload| <= 6
  }

  /** Comfort noise, by length and first byte; the source's own test of 0x0a adds nothing. */
  lemma DtxIff(payload: bytes)
    ensures IsOpusDtxPayload(payload)
            <==> || (|payload| == 1 && payload[0] in {0x10, 0x88, 0x90})
                 || (2 <= |payload| <= 15 && 0x08 <= payload[0] <= 0x0f)
                 || (2 <= |payload| <= 6 && 0x30 <= payload[0] <= 0x3f)
  {
  }

  predicate IsOpusPrimingPayload(payload: bytes) {
    payload == PRIMING_FRAME_1 || payload == PRIMING_FRAME_2
  }

  predicate IsSpeech(payload: bytes) {
    !IsOpusDtxPayload(payload) && !IsOpusPrimingPayload(payload)
  }

  /** Speech is everything but comfort noise and the two priming frames, of 18 and 5 bytes. */
  lemma SpeechIff(payload: bytes)
    ensures !IsSpeech(payload) <==>
            || IsOpusDtxPayload(payload)
            || payload == [0x12, 0x36, 0x26, 0x2b, 0x4a, 0xc8, 0x2b, 0x09, 0xc9,
                           0x1f, 0x34, 0xc2, 0xd6, 0x7a, 0x01, 0x73, 0x1b, 0x2e]
            || payload == [0x90, 0xb8, 0x14, 0x14, 0xc4]
    ensures payload == [] ==> IsSpeech(payload)
  {
  }

  // ---- Send-side sequencer ----

  datatype StreamState = StreamState(
    ssrc: uint32,
    sn: uint16,
    timestamp: uint32,
    samplesPerPacket: uint32,
    speechStarted: bool,
    audioPacketIndex: nat,
    warpPiggyback: bool
  )

  function NewStream(ssrc: uint32, samplesPerPacket: uint32, warpPiggyback: bool): StreamState {
    StreamState(ssrc, 1, 0, samplesPerPacket, false, 0, warpPiggyback)
  }

  /** Extension word of the next packet, given how many audio packets went before. */
  function ExtensionFor(warpPiggyback: bool, audioPacketIndex: nat, dtx: bool): Option<uint32> {
    if dtx || (warpPiggyback && audioPacketIndex >= PIGGYBACK_START_PACKET) then Some(DTX_WORD) else None
  }

  function NextHeader(s: StreamState, payload: bytes, marker: bool): RtpHeader {
    RtpHeader(marker || (IsSpeech(payload) && !s.speechStarted), PAYLOAD_TYPE_OPUS, s.sn, s.timestamp, s.ssrc,
              ExtensionFor(s.warpPiggyback, s.audioPacketIndex, IsOpusDtxPayload(payload)), [])
  }

  function AfterPacket(s: StreamState, payload: bytes): StreamState {
    s.(sn := (s.sn + 1) % 0x1_0000,
       timestamp := (s.timestamp + s.samplesPerPacket) % 0x1_0000_0000,
       speechStarted := s.speechStarted || IsSpeech(payload),
       audioPacketIndex := s.audioPacketIndex + if s.warpPiggyback && !IsOpusDtxPayload(payload) then 1 else 0)
  }

  class RtpStream {
    const ssrc: uint32
    var sn: uint16
    var timestamp: uint32
    const samplesPerPacket: uint32
    var speechStarted: bool
    var audioPacketIndex: nat
    const warpPiggyback: bool

    function State(): StreamState
      reads this
    {
      StreamState(ssrc, sn, timestamp, samplesPerPacket, speechStarted, audioPacketIndex, warpPiggyback)
    }

    constructor (ssrc: uint32, samplesPerPacket: uint32, warpPiggyback: bool)
      ensures State() == NewStream(ssrc, samplesPerPacket, warpPiggyback)
    {
      this.ssrc, this.samplesPerPacket, this.warpPiggyback := ssrc, samplesPerPacket, warpPiggyback;
      sn, timestamp, speechStarted, audioPacketIndex := 1, 0, false, 0;
    }

    method ResolveWarpExtension(dtx: bool) returns (word: Option<uint32>)
      modifies this`audioPacketIndex
      ensures word == ExtensionFor(warpPiggyback, old(audioPacketIndex), dtx)
      ensures audioPacketIndex == old(audioPacketIndex) + if warpPiggyback && !dtx then 1 else 0
    {
      if dtx {
        return Some(DTX_WORD);
      }
      if !warpPiggyback {
        return None;
      }
      var idx := audioPacketIndex;
      audioPacketIndex := audioPacketIndex + 1;
      word := if idx < PIGGYBACK_START_PACKET then None else Some(DTX_WORD);
    }

    method NextPacket(payload: bytes, marker: bool) returns (header: RtpHeader)
      modifies this
      ensures header == NextHeader(old(State()), payload, marker)
      ensures State() == AfterPacket(old(State()), payload)
    {
      var dtx := IsOpusDtxPayload(payload);
      var priming := IsOpusPrimingPayload(payload);
      var speech := !dtx && !priming;
      var useMarker := marker || (speech && !speechStarted);
      if speech {
        speechStarted := true;
      }
      var word := ResolveWarpExtension(dtx);
      header := RtpHeader(useMarker, PAYLOAD_TYPE_OPUS, sn, timestamp, ssrc, word, []);
      sn := (sn + 1) % 0x1_0000;
      timestamp := (timestamp + samplesPerPacket) % 0x1_0000_0000;
    }
  }

  // ---- Whole runs of the sequencer ----

  function AfterPackets(s: StreamState, payloads: seq<bytes>): StreamState {
    if payloads == [] then s
    else AfterPacket(AfterPackets(s, payloads[..|payloads| - 1]), payloads[|payloads| - 1])
  }

  predicate AnySpeech(payloads: seq<bytes>) {
    exists i :: 0 <= i < |payloads| && IsSpeech(payloads[i])
  }

  /** Packets that are not comfort noise. */
  function AudioCount(payloads: seq<bytes>): nat {
    if payloads == [] then 0
    else AudioCount(payloads[..|payloads| - 1])
         + if IsOpusDtxPayload(payloads[|payloads| - 1]) then 0 else 1
  }

  /** The 32-bit timestamp of packet n. */
  function Stamp(n: nat, spp: uint32): uint32 {
    n * spp % 0x1_0000_0000
  }

  /** The sequencer's state after a run, from facts about the run alone. */
  function RunState(ssrc: uint32, spp: uint32, piggyback: bool, payloads: seq<bytes>): StreamState {
    StreamState(ssrc, (|payloads| + 1) % 0x1_0000, Stamp(|payloads|, spp), spp, AnySpeech(payloads),
                if piggyback then AudioCount(payloads) else 0, piggyback)
  }

  lemma {:induction false} AfterPacketsForm(ssrc: uint32, spp: uint32, piggyback: bool, payloads: seq<bytes>)
    ensures AfterPackets(NewStream(ssrc, spp, piggyback), payloads) == RunState(ssrc, spp, piggyback, payloads)
  {
    if payloads != [] {
      var n := |payloads| - 1;
      AfterPacketsForm(ssrc, spp, piggyback, payloads[..n]);
      RunStateStep(ssrc, spp, piggyback, payloads[..n], payloads[n]);
      assert payloads == payloads[..n] + [payloads[n]];
    }
  }

  lemma RunStateStep(ssrc: uint32, spp: uint32, piggyback: bool, init: seq<bytes>, last: bytes)
    ensures AfterPacket(RunState(ssrc, spp, piggyback, init), last) == RunState(ssrc, spp, piggyback, init + [last])
  {
    TimestampAdvances(|init|, spp);
    AnySpeechSnoc(init, last);
    AudioCountSnoc(init, last);
    NumberAdvances(|init|);
  }

  lemma AudioCountSnoc(init: seq<bytes>, last: bytes)
    ensures AudioCount(init + [last]) == AudioCount(init) + if IsOpusDtxPayload(last) then 0 else 1
  {
    assert (init + [last])[..|init|] == init;
  }

  lemma NumberAdvances(n: nat)
    ensures ((n + 1) % 0x1_0000 + 1) % 0x1_0000 == (n + 2) % 0x1_0000
  {
  }

  lemma AnySpeechSnoc(init: seq<bytes>, last: bytes)
    ensures AnySpeech(init + [last]) <==> AnySpeech(init) || IsSpeech(last)
  {
    var all := init + [last];
    if AnySpeech(init) {
      var i :| 0 <= i < |init| && IsSpeech(init[i]);
      assert IsSpeech(all[i]);
    }
    assert all[|init|] == last;
    if AnySpeech(all) && !IsSpeech(last) {
      var i :| 0 <= i < |all| && IsSpeech(all[i]);
      assert IsSpeech(init[i]);
    }
  }

  lemma TimestampAdvances(n: nat, spp: uint32)
    ensures (Stamp(n, spp) + spp) % 0x1_0000_0000 == Stamp(n + 1, spp)
  {
    assert (n + 1) * spp == n * spp + spp;
  }

  /** The header of packet k of a run: numbered k + 1, stamped k * spp, marked exactly when
      it is the first speech packet, and carrying the extension word exactly when it is
      comfort noise or piggybacking is on and two audio packets went before. */
  lemma RunHeader(ssrc: uint32, spp: uint32, piggyback: bool, payloads: seq<bytes>, k: nat)
    requires k < |payloads|
    ensures NextHeader(AfterPackets(NewStream(ssrc, spp, piggyback), payloads[..k]), payloads[k], false)
            == RtpHeader(IsSpeech(payloads[k]) && !AnySpeech(payloads[..k]), 120,
                         (k + 1) % 0x1_0000, Stamp(k, spp), ssrc,
                         if || IsOpusDtxPayload(payloads[k])
                            || (piggyback && AudioCount(payloads[..k]) >= 2)
                         then Some(0x3001_0000) else None, [])
  {
    AfterPacketsForm(ssrc, spp, piggyback, payloads[..k]);
  }
}
