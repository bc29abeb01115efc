/** The media pipeline: RTP header, end-to-end encryption and the WARP tag on the way
    out, the reverse on the way in, and what survives an unreliable network. */
module Session {
  import opened Bytes
  import opened Crypto
  import opened E2e
  import opened Rtp

  const WARP_MI_TAG_LEN := 4

  // ---- WARP tag ----

  function WarpMITag(p: Primitives, authKey: bytes, packet: bytes, roc: uint32): (tag: bytes)
    ensures |tag| == WARP_MI_TAG_LEN
  {
    p.hmacSha1(authKey, packet + Be32(roc))[..WARP_MI_TAG_LEN]
  }

  function AppendWarpMITag(p: Primitives, authKey: bytes, packet: bytes, roc: uint32): bytes {
    packet + WarpMITag(p, authKey, packet, roc)
  }

  /** The tag is the first four bytes of the HMAC over the packet and the rollover counter, most
      significant byte first, and stands last. */
  lemma TagLayout(p: Primitives, authKey: bytes, packet: bytes, roc: uint32)
    ensures var out := AppendWarpMITag(p, authKey, packet, roc);
            && |out| == |packet| + 4 && out[..|packet|] == packet
            && out[|packet|..] == p.hmacSha1(authKey, packet + BigEndian(roc, 4))[..4]
  {
    hide BigEndian;
    WordIsBigEndian(roc);
  }

  lemma WordIsBigEndian(n: uint32)
    ensures BigEndian(n, 4) == Be32(n)
  {
    assert n / 0x1_0000 / 0x1_0000 == 0;
    BigEndianSplitsLow16(n, 4);
    BigEndianSplitsLow16(n / 0x1_0000, 2);
    HalvesBytes(n / 0x1_0000, n % 0x1_0000, n);
  }

  // ---- One packet ----

  datatype Pipe = Pipe(sendKeys: E2eKeys, recvKeys: E2eKeys, stream: StreamState, sendRoc: SendRoc, recvRoc: RecvRoc)

  datatype Audio = Audio(header: RtpHeader, payload: bytes)

  /** Send keys come from the own id, receive keys from the peer's. */
  function NewPipe(p: Primitives, callKey: bytes, selfId: string, peerId: string, ssrc: uint32,
      spp: uint32): Option<Pipe> {
    match (DeriveE2eKeys(p, callKey, selfId), DeriveE2eKeys(p, callKey, peerId))
    case (Some(s), Some(r)) => Some(Pipe(s, r, NewStream(ssrc, spp, false), NEW_SEND_ROC, NEW_RECV_ROC))
    case _ => None
  }

  function Sealed(p: Primitives, keys: E2eKeys, h: RtpHeader, roc: uint32, payload: bytes): bytes {
    AppendWarpMITag(p, keys.authKey,
                    HeaderBytes(h) + CryptPayload(p, keys, h.ssrc, h.sequenceNumber, roc, payload), roc)
  }

  function Protect(p: Primitives, s: Pipe, payload: bytes): (Pipe, bytes) {
    var h := NextHeader(s.stream, payload, false);
    var t := Advanced(s.sendRoc, h.sequenceNumber);
    (s.(stream := AfterPacket(s.stream, payload), sendRoc := t), Sealed(p, s.sendKeys, h, t.roc, payload))
  }

  /** Every rejection happens before the tracker moves. */
  function Unprotect(p: Primitives, s: Pipe, packet: bytes): (Pipe, Option<Audio>) {
    if |packet| < 12 + WARP_MI_TAG_LEN then (s, None)
    else
      var withoutTag := packet[..|packet| - WARP_MI_TAG_LEN];
      match (ParseRtpHeader(withoutTag), HeaderByteLength(withoutTag))
      case (Some(h), Some(n)) =>
        if |withoutTag| <= n then (s, None)
        else
          var (t, roc) := Guessed(s.recvRoc, h.sequenceNumber);
          (s.(recvRoc := t),
           Some(Audio(h, CryptPayload(p, s.recvKeys, h.ssrc, h.sequenceNumber, roc, withoutTag[n..]))))
      case _ => (s, None)
  }

  class MediaPipeline {
    const p: Primitives
    const sendKeys: E2eKeys
    const recvKeys: E2eKeys
    const stream: RtpStream
    const sendRoc: RocTracker
    const recvRoc: RecvRocTracker

    function State(): Pipe
      reads stream, sendRoc, recvRoc
    {
      Pipe(sendKeys, recvKeys, stream.State(), sendRoc.State(), recvRoc.State())
    }

    constructor WithKeys(p: Primitives, sendKeys: E2eKeys, recvKeys: E2eKeys, ssrc: uint32, spp: uint32)
      ensures this.p == p && fresh(stream) && fresh(sendRoc) && fresh(recvRoc)
      ensures State() == Pipe(sendKeys, recvKeys, NewStream(ssrc, spp, false), NEW_SEND_ROC, NEW_RECV_ROC)
    {
      this.p, this.sendKeys, this.recvKeys := p, sendKeys, recvKeys;
      var st := new RtpStream(ssrc, spp, false);
      var sr := new RocTracker();
      var rr := new RecvRocTracker();
      stream, sendRoc, recvRoc := st, sr, rr;
    }

    static method New(p: Primitives, callKey: bytes, selfId: string, peerId: string, ssrc: uint32, spp: uint32)
      returns (r: Option<MediaPipeline>)
      ensures r.Some? <==> |callKey| >= 32
      ensures r.Some? ==> fresh(r.value) && r.value.p == p
                          && Some(r.value.State()) == NewPipe(p, callKey, selfId, peerId, ssrc, spp)
      ensures r.Some? ==> Some(r.value.sendKeys) == DeriveE2eKeys(p, callKey, selfId)
      ensures r.Some? ==> Some(r.value.recvKeys) == DeriveE2eKeys(p, callKey, peerId)
    {
      var s, k := DeriveE2eKeys(p, callKey, selfId), DeriveE2eKeys(p, callKey, peerId);
      if s.None? || k.None? {
        return None;
      }
      var pipeline := new MediaPipeline.WithKeys(p, s.value, k.value, ssrc, spp);
      r := Some(pipeline);
    }

    method ProtectAudio(opusPayload: bytes) returns (out: bytes)
      modifies stream, sendRoc
      ensures (State(), out) == Protect(p, old(State()), opusPayload)
    {
      var header := stream.NextPacket(opusPayload, false);
      var roc := sendRoc.Advance(header.sequenceNumber);
      var packet := EncodeRtpHeader(header);
      packet := packet + CryptPayload(p, sendKeys, header.ssrc, header.sequenceNumber, roc, opusPayload);
      out := AppendWarpMITag(p, sendKeys.authKey, packet, roc);
    }

    method UnprotectAudio(packet: bytes) returns (r: Option<Audio>)
      modifies recvRoc
      ensures (State(), r) == Unprotect(p, old(State()), packet)
    {
      if |packet| < 12 + WARP_MI_TAG_LEN {
        return None;
      }
      var withoutTag := packet[..|packet| - WARP_MI_TAG_LEN];
      var header := ParseRtpHeader(withoutTag);
      if header.None? {
        return None;
      }
      var headerLen := HeaderByteLength(withoutTag);
      if headerLen.None? || |withoutTag| <= headerLen.value {
        return None;
      }
      var h := header.value;
      var roc := recvRoc.GuessRoc(h.sequenceNumber);
      var plain := CryptPayload(p, recvKeys, h.ssrc, h.sequenceNumber, roc, withoutTag[headerLen.value..]);
      r := Some(Audio(h, plain));
    }
  }

  /** An intact packet: an empty payload is refused with the tracker untouched; otherwise
      the header comes back, and the payload is decrypted under the guessed counter. */
  lemma UnprotectSealed(p: Primitives, s: Pipe, h: RtpHeader, roc: uint32, payload: bytes)
    requires ExtensionFits(h)
    ensures var keys := s.recvKeys;
            var (t, guess) := Guessed(s.recvRoc, h.sequenceNumber);
            Unprotect(p, s, Sealed(p, keys, h, roc, payload))
            == if payload == [] then (s, None)
               else (s.(recvRoc := t),
                     Some(Audio(FixedFields(h),
                                CryptPayload(p, keys, h.ssrc, h.sequenceNumber, guess,
                                             CryptPayload(p, keys, h.ssrc, h.sequenceNumber, roc, payload)))))
  {
    var body := CryptPayload(p, s.recvKeys, h.ssrc, h.sequenceNumber, roc, payload);
    var withoutTag := HeaderBytes(h) + body;
    var packet := Sealed(p, s.recvKeys, h, roc, payload);
    assert packet[..|packet| - WARP_MI_TAG_LEN] == withoutTag;
    ParseInvertsEncode(h, body);
    HeaderEndFoundIff(h, body);
    assert withoutTag[ByteSize(h)..] == body;
  }

  /** Exactly these packets are refused: too short for a fixed header and a tag, or, without the tag,
      of malformed header or empty payload; a refused packet leaves everything as it was. */
  lemma RefusedIff(p: Primitives, s: Pipe, packet: bytes)
    ensures Unprotect(p, s, packet).1.None?
            <==> || |packet| < 16
                 || HeaderByteLength(packet[..|packet| - 4]).None?
                 || HeaderByteLength(packet[..|packet| - 4]) == Some(|packet| - 4)
    ensures Unprotect(p, s, packet).1.None? ==> Unprotect(p, s, packet).0 == s
  {
    hide CryptPayload, Guessed;
  }

  /** Decryption recovers the payload under every cipher exactly when the guessed counter
      is the one used. */
  lemma RecoveredIff(keys: E2eKeys, ssrc: uint32, sn: uint16, roc: uint32, guess: uint32, payload: bytes)
    requires payload != []
    ensures (forall p ::
               CryptPayload(p, keys, ssrc, sn, guess, CryptPayload(p, keys, ssrc, sn, roc, payload)) == payload)
            <==> guess == roc
  {
    if guess == roc {
      forall p {
        CtrCryptInvolutive(p, keys.cipherKey, RtpIv(keys.salt, ssrc, roc, sn), payload);
      }
    } else {
      var p := WrongCounterVisible(keys, ssrc, sn, roc, guess, payload);
    }
  }

  lemma WrongCounterVisible(keys: E2eKeys, ssrc: uint32, sn: uint16, roc: uint32, guess: uint32,
      payload: bytes) returns (p: Primitives)
    requires payload != [] && guess != roc
    ensures CryptPayload(p, keys, ssrc, sn, guess, CryptPayload(p, keys, ssrc, sn, roc, payload)) != payload
  {
    var iv, iv' := RtpIv(keys.salt, ssrc, roc, sn), RtpIv(keys.salt, ssrc, guess, sn);
    if CounterBlock(iv, 0) == CounterBlock(iv', 0) {
      CounterBlocksDistinct(keys.salt, ssrc, roc, sn, 0, ssrc, guess, sn, 0);
    }
    p := Marking(CounterBlock(iv, 0));
    var once := CryptPayload(p, keys, ssrc, sn, roc, payload);
    assert KeystreamByte(p, keys.cipherKey, iv, 0) == 1 && KeystreamByte(p, keys.cipherKey, iv', 0) == 0;
    assert once[0] == Xor(payload[0], 1);
    XorZero(once[0]);
    XorZero(payload[0]);
    if once[0] == payload[0] {
      XorInjective(payload[0], 1, 0);
    }
  }

  // ---- Whole runs ----

  function AfterSends(p: Primitives, s: Pipe, payloads: seq<bytes>): Pipe {
    if payloads == [] then s
    else Protect(p, AfterSends(p, s, payloads[..|payloads| - 1]), payloads[|payloads| - 1]).0
  }

  /** Packet k of the run that sends the payloads in order. */
  function SentPacket(p: Primitives, s: Pipe, payloads: seq<bytes>, k: nat): bytes
    requires k < |payloads|
  {
    Protect(p, AfterSends(p, s, payloads[..k]), payloads[k]).1
  }

  /** The 48-bit index of packet k is k + 1. */
  function PacketRoc(k: nat): uint32 {
    (k + 1) / 0x1_0000 % 0x1_0000_0000
  }

  function PacketSn(k: nat): uint16 {
    (k + 1) % 0x1_0000
  }

  lemma {:induction false} AfterSendsForm(p: Primitives, s: Pipe, payloads: seq<bytes>, ssrc: uint32, spp: uint32)
    requires s.stream == NewStream(ssrc, spp, false) && s.sendRoc == NEW_SEND_ROC
    ensures AfterSends(p, s, payloads)
            == s.(stream := AfterPackets(s.stream, payloads), sendRoc := AfterConsecutive(|payloads|))
  {
    if payloads != [] {
      var init := payloads[..|payloads| - 1];
      AfterSendsForm(p, s, init, ssrc, spp);
      AfterPacketsForm(ssrc, spp, false, init);
    }
  }

  /** The header of packet k of an audio run. */
  function AudioHeader(ssrc: uint32, spp: uint32, payloads: seq<bytes>, k: nat): RtpHeader
    requires k < |payloads|
  {
    RtpHeader(IsSpeech(payloads[k]) && !AnySpeech(payloads[..k]), 120, PacketSn(k), Stamp(k, spp), ssrc,
              if IsOpusDtxPayload(payloads[k]) then Some(0x3001_0000) else None, [])
  }

  /** Packet k of any run is sealed under index exactly k + 1. */
  lemma SentPacketForm(p: Primitives, s: Pipe, payloads: seq<bytes>, k: nat, ssrc: uint32, spp: uint32)
    requires s.stream == NewStream(ssrc, spp, false) && s.sendRoc == NEW_SEND_ROC
    requires k < |payloads|
    ensures SentPacket(p, s, payloads, k)
            == Sealed(p, s.sendKeys, AudioHeader(ssrc, spp, payloads, k), PacketRoc(k), payloads[k])
  {
    AfterSendsForm(p, s, payloads[..k], ssrc, spp);
    RunHeader(ssrc, spp, false, payloads, k);
    ConsecutiveRoc(k + 1);
  }

  /** Over a run, two packets share a counter block only if they are a multiple of 2^48
      apart; so none repeats in the first 2^48. */
  lemma RunBlocksDistinctIff(salt: Salt, ssrc: uint32, k: nat, i: nat, k': nat, j: nat)
    requires i < 0x1_0000 && j < 0x1_0000
    ensures CounterBlock(RtpIv(salt, ssrc, PacketRoc(k), PacketSn(k)), i)
            == CounterBlock(RtpIv(salt, ssrc, PacketRoc(k'), PacketSn(k')), j)
            <==> k % 0x1_0000_0000_0000 == k' % 0x1_0000_0000_0000 && i == j
  {
    SameIndexIff(k + 1, k' + 1);
    if CounterBlock(RtpIv(salt, ssrc, PacketRoc(k), PacketSn(k)), i)
       == CounterBlock(RtpIv(salt, ssrc, PacketRoc(k'), PacketSn(k')), j) {
      CounterBlocksDistinct(salt, ssrc, PacketRoc(k), PacketSn(k), i, ssrc, PacketRoc(k'), PacketSn(k'), j);
    }
  }

  lemma SameIndexIff(m: nat, n: nat)
    requires m > 0 && n > 0
    ensures m / 0x1_0000 % 0x1_0000_0000 == n / 0x1_0000 % 0x1_0000_0000 && m % 0x1_0000 == n % 0x1_0000
            <==> (m - 1) % 0x1_0000_0000_0000 == (n - 1) % 0x1_0000_0000_0000
  {
    IndexParts(m / 0x1_0000, m % 0x1_0000);
    IndexParts(n / 0x1_0000, n % 0x1_0000);
    PartsSpellIndex(m);
    PartsSpellIndex(n);
    ShiftedCongruence(m, n);
  }

  lemma ShiftedCongruence(m: int, n: int)
    ensures m % 0x1_0000_0000_0000 == n % 0x1_0000_0000_0000
            <==> (m - 1) % 0x1_0000_0000_0000 == (n - 1) % 0x1_0000_0000_0000
  {
  }

  /** Receiving a list of packets. */
  function AfterReceives(p: Primitives, s: Pipe, packets: seq<bytes>): Pipe {
    if packets == [] then s
    else Unprotect(p, AfterReceives(p, s, packets[..|packets| - 1]), packets[|packets| - 1]).0
  }

  function Received(p: Primitives, s: Pipe, packets: seq<bytes>, i: nat): Option<Audio>
    requires i < |packets|
  {
    Unprotect(p, AfterReceives(p, s, packets[..i]), packets[i]).1
  }

  /** What the network delivers: packet numbers of the run, in any order, with gaps and
      repetitions. */
  predicate Delivery(ds: seq<nat>, n: nat) {
    forall i :: 0 <= i < |ds| ==> ds[i] < n
  }

  function Deliver(p: Primitives, a: Pipe, payloads: seq<bytes>, ds: seq<nat>): (packets: seq<bytes>)
    requires Delivery(ds, |payloads|)
    ensures |packets| == |ds|
  {
    seq(|ds|, i requires 0 <= i < |ds| => SentPacket(p, a, payloads, ds[i]))
  }

  /** Highest packet number accepted so far, or -1: empty payloads are not accepted. */
  function TopAccepted(payloads: seq<bytes>, ds: seq<nat>): (top: int)
    requires Delivery(ds, |payloads|)
    ensures top >= -1
  {
    if ds == [] then -1
    else
      var top, last := TopAccepted(payloads, ds[..|ds| - 1]), ds[|ds| - 1];
      if payloads[last] == [] then top else Max(top, last)
  }

  /** The first accepted packet has index below 2^16, every later one lies strictly within
      2^15 of the highest accepted before it. */
  predicate InWindow(payloads: seq<bytes>, ds: seq<nat>)
    requires Delivery(ds, |payloads|)
  {
    forall i :: 0 <= i < |ds| && payloads[ds[i]] != [] ==>
      Near(ds[i], TopAccepted(payloads, ds[..i]))
  }

  /** Whether packet d comes back at a receiver that has accepted up to top. */
  predicate Recoverable(d: nat, top: int)
    requires top >= -1
  {
    if top < 0 then PacketRoc(d) == 0 else InGuessWindow(top + 1, d + 1)
  }

  /** Every delivered nonempty packet is within reach of the tracker as the packets before left it. */
  predicate AllRecoverable(payloads: seq<bytes>, ds: seq<nat>)
    requires Delivery(ds, |payloads|)
  {
    forall i :: 0 <= i < |ds| && payloads[ds[i]] != [] ==> Recoverable(ds[i], TopAccepted(payloads, ds[..i]))
  }

  lemma InWindowRecoverable(payloads: seq<bytes>, ds: seq<nat>)
    requires Delivery(ds, |payloads|) && InWindow(payloads, ds)
    ensures AllRecoverable(payloads, ds)
  {
    forall i | 0 <= i < |ds| && payloads[ds[i]] != []
      ensures Recoverable(ds[i], TopAccepted(payloads, ds[..i]))
    {
      assert Near(ds[i], TopAccepted(payloads, ds[..i]));
    }
  }

  /** The tracker after a delivery: untouched, or at the highest accepted index. */
  ghost predicate Follows(t: RecvRoc, top: int) {
    if top < 0 then t == NEW_RECV_ROC else Tracks(t, top + 1)
  }

  lemma {:induction false} ReceiverFollows(p: Primitives, a: Pipe, b: Pipe, payloads: seq<bytes>, ds: seq<nat>,
      ssrc: uint32, spp: uint32)
    requires a.stream == NewStream(ssrc, spp, false) && a.sendRoc == NEW_SEND_ROC
    requires b.recvKeys == a.sendKeys && b.recvRoc == NEW_RECV_ROC
    requires Delivery(ds, |payloads|) && AllRecoverable(payloads, ds)
    ensures var s := AfterReceives(p, b, Deliver(p, a, payloads, ds));
            s.recvKeys == a.sendKeys && Follows(s.recvRoc, TopAccepted(payloads, ds))
  {
    if ds != [] {
      hide SentPacket, Unprotect, AudioHeader, Recoverable, Follows, Deliver;
      var n := |ds| - 1;
      RecoverablePrefix(payloads, ds, n);
      ReceiverFollows(p, a, b, payloads, ds[..n], ssrc, spp);
      var packets := Deliver(p, a, payloads, ds);
      assert packets[..n] == Deliver(p, a, payloads, ds[..n]);
      assert packets[n] == SentPacket(p, a, payloads, ds[n]);
      OneReceived(p, a, AfterReceives(p, b, packets[..n]), payloads, ds[n], TopAccepted(payloads, ds[..n]), ssrc, spp);
    }
  }

  lemma RecoverablePrefix(payloads: seq<bytes>, ds: seq<nat>, n: nat)
    requires Delivery(ds, |payloads|) && n <= |ds|
    requires forall i :: 0 <= i < n && payloads[ds[i]] != [] ==> Recoverable(ds[i], TopAccepted(payloads, ds[..i]))
    ensures Delivery(ds[..n], |payloads|) && AllRecoverable(payloads, ds[..n])
  {
    forall i | 0 <= i < n ensures ds[..n][..i] == ds[..i] {
    }
  }

  /** Whether packet d falls inside the window of a receiver that has accepted up to top. */
  predicate Near(d: nat, top: int) {
    if top < 0 then d + 1 < 0x1_0000 else -0x8000 < d - top < 0x8000
  }

  lemma FirstFollows(d: nat)
    requires PacketRoc(d) == 0
    ensures Guessed(NEW_RECV_ROC, PacketSn(d)).1 == 0 && Tracks(Guessed(NEW_RECV_ROC, PacketSn(d)).0, d + 1)
  {
    IndexParts((d + 1) / 0x1_0000, (d + 1) % 0x1_0000);
    PartsSpellIndex(d + 1);
  }

  lemma GuessFollows(t: RecvRoc, d: nat, top: int)
    requires top >= -1 && Follows(t, top) && Recoverable(d, top)
    ensures Guessed(t, PacketSn(d)).1 == PacketRoc(d)
    ensures Follows(Guessed(t, PacketSn(d)).0, Max(top, d))
  {
    if top >= 0 {
      GuessInWindow(t, top + 1, d + 1);
      assert Max(top + 1, d + 1) == Max(top, d) + 1;
    } else {
      FirstFollows(d);
    }
  }

  /** One delivered packet within reach. */
  lemma OneReceived(p: Primitives, a: Pipe, s: Pipe, payloads: seq<bytes>, d: nat, top: int, ssrc: uint32, spp: uint32)
    requires a.stream == NewStream(ssrc, spp, false) && a.sendRoc == NEW_SEND_ROC
    requires d < |payloads| && top >= -1 && Follows(s.recvRoc, top) && s.recvKeys == a.sendKeys
    requires payloads[d] != [] ==> Recoverable(d, top)
    ensures var (s', r) := Unprotect(p, s, SentPacket(p, a, payloads, d));
            s'.recvKeys == s.recvKeys
            && Follows(s'.recvRoc, if payloads[d] == [] then top else Max(top, d))
            && r == if payloads[d] == [] then None
                    else Some(Audio(FixedFields(AudioHeader(ssrc, spp, payloads, d)), payloads[d]))
  {
    var h := AudioHeader(ssrc, spp, payloads, d);
    SentPacketForm(p, a, payloads, d, ssrc, spp);
    UnprotectSealed(p, s, h, PacketRoc(d), payloads[d]);
    if payloads[d] != [] {
      GuessFollows(s.recvRoc, d, top);
      var iv := RtpIv(s.recvKeys.salt, ssrc, PacketRoc(d), h.sequenceNumber);
      CtrCryptInvolutive(p, s.recvKeys.cipherKey, iv, payloads[d]);
    }
  }

  lemma GuessedIff(t: RecvRoc, d: nat, top: int)
    requires top >= -1 && Follows(t, top) && -0x8000_0000_0000 < d - top < 0x8000_0000_0000
    ensures Guessed(t, PacketSn(d)).1 == PacketRoc(d) <==> Recoverable(d, top)
  {
    if top >= 0 {
      GuessedRocIff(t, top + 1, d + 1);
    }
  }

  /** The window is exact: a delivered nonempty packet comes back under every cipher if and only if
      its index lies in the window of the receiver's tracker. */
  lemma DeliveredIff(a: Pipe, s: Pipe, payloads: seq<bytes>, d: nat, top: int, ssrc: uint32, spp: uint32)
    requires a.stream == NewStream(ssrc, spp, false) && a.sendRoc == NEW_SEND_ROC
    requires d < |payloads| && payloads[d] != [] && s.recvKeys == a.sendKeys
    requires top >= -1 && Follows(s.recvRoc, top) && -0x8000_0000_0000 < d - top < 0x8000_0000_0000
    ensures (forall p :: Unprotect(p, s, SentPacket(p, a, payloads, d)).1
                         == Some(Audio(FixedFields(AudioHeader(ssrc, spp, payloads, d)), payloads[d])))
            <==> Recoverable(d, top)
  {
    hide Unprotect, SentPacket, CryptPayload, Guessed, Follows, AudioHeader, Sealed, Recoverable;
    var h, guess := AudioHeader(ssrc, spp, payloads, d), Guessed(s.recvRoc, PacketSn(d)).1;
    AudioHeaderFits(ssrc, spp, payloads, d);
    forall p
      ensures Unprotect(p, s, SentPacket(p, a, payloads, d)).1
              == Some(Audio(FixedFields(h),
                            CryptPayload(p, s.recvKeys, ssrc, PacketSn(d), guess,
                                         CryptPayload(p, s.recvKeys, ssrc, PacketSn(d), PacketRoc(d), payloads[d]))))
    {
      SentPacketForm(p, a, payloads, d, ssrc, spp);
      UnprotectSealed(p, s, h, PacketRoc(d), payloads[d]);
    }
    RecoveredIff(s.recvKeys, ssrc, PacketSn(d), PacketRoc(d), guess, payloads[d]);
    GuessedIff(s.recvRoc, d, top);
  }

  lemma AudioHeaderFits(ssrc: uint32, spp: uint32, payloads: seq<bytes>, k: nat)
    requires k < |payloads|
    ensures var h := AudioHeader(ssrc, spp, payloads, k);
            ExtensionFits(h) && h.ssrc == ssrc && h.sequenceNumber == PacketSn(k)
  {
  }

  /** The tracker a receiver must have after accepting up to top. */
  function TrackerAt(top: int): RecvRoc
    requires top >= -1
  {
    if top < 0 then NEW_RECV_ROC else RecvRoc(IndexRoc(top + 1), IndexSn(top + 1), true)
  }

  lemma FollowsUnique(t: RecvRoc, top: int)
    requires top >= -1
    ensures Follows(t, top) <==> t == TrackerAt(top)
  {
    if top >= 0 {
      PartsSpellIndex(top + 1);
      IndexParts(t.roc, t.sL);
      IndexParts(IndexRoc(top + 1), IndexSn(top + 1));
    }
  }

  /** A packet out of reach is lost under some cipher, whatever else the receiver's state holds. */
  lemma OutOfReachLost(a: Pipe, payloads: seq<bytes>, d: nat, top: int, ssrc: uint32, spp: uint32)
    returns (p: Primitives)
    requires a.stream == NewStream(ssrc, spp, false) && a.sendRoc == NEW_SEND_ROC
    requires d < |payloads| && payloads[d] != [] && top >= -1 && !Recoverable(d, top)
    requires -0x8000_0000_0000 < d - top < 0x8000_0000_0000
    ensures forall s: Pipe :: s.recvKeys == a.sendKeys && Follows(s.recvRoc, top) ==>
              Unprotect(p, s, SentPacket(p, a, payloads, d)).1
              != Some(Audio(FixedFields(AudioHeader(ssrc, spp, payloads, d)), payloads[d]))
  {
    hide SentPacket, AudioHeader, Recoverable, Follows, TrackerAt;
    var t := a.(recvKeys := a.sendKeys, recvRoc := TrackerAt(top));
    FollowsUnique(TrackerAt(top), top);
    DeliveredIff(a, t, payloads, d, top, ssrc, spp);
    p :| Unprotect(p, t, SentPacket(p, a, payloads, d)).1
         != Some(Audio(FixedFields(AudioHeader(ssrc, spp, payloads, d)), payloads[d]));
    forall s: Pipe | s.recvKeys == a.sendKeys && Follows(s.recvRoc, top)
      ensures Unprotect(p, s, SentPacket(p, a, payloads, d)).1 == Unprotect(p, t, SentPacket(p, a, payloads, d)).1
    {
      FollowsUnique(s.recvRoc, top);
    }
  }

  /** Delivered packet i comes back as it was sent. */
  ghost predicate ComesBack(p: Primitives, a: Pipe, b: Pipe, payloads: seq<bytes>, ds: seq<nat>, i: nat,
      ssrc: uint32, spp: uint32)
    requires Delivery(ds, |payloads|)
  {
    i < |ds| && payloads[ds[i]] != [] ==>
      Received(p, b, Deliver(p, a, payloads, ds), i)
      == Some(Audio(FixedFields(AudioHeader(ssrc, spp, payloads, ds[i])), payloads[ds[i]]))
  }

  lemma PacketComesBack(p: Primitives, a: Pipe, b: Pipe, payloads: seq<bytes>, ds: seq<nat>, i: nat,
      ssrc: uint32, spp: uint32)
    requires a.stream == NewStream(ssrc, spp, false) && a.sendRoc == NEW_SEND_ROC
    requires b.recvKeys == a.sendKeys && b.recvRoc == NEW_RECV_ROC
    requires Delivery(ds, |payloads|) && AllRecoverable(payloads, ds) && i < |ds|
    ensures Received(p, b, Deliver(p, a, payloads, ds), i)
            == if payloads[ds[i]] == [] then None
               else Some(Audio(FixedFields(AudioHeader(ssrc, spp, payloads, ds[i])), payloads[ds[i]]))
  {
    hide SentPacket, Unprotect, AudioHeader, Recoverable, Follows;
    RecoverablePrefix(payloads, ds, i);
    ReceiverFollows(p, a, b, payloads, ds[..i], ssrc, spp);
    assert Deliver(p, a, payloads, ds)[..i] == Deliver(p, a, payloads, ds[..i]);
    OneReceived(p, a, AfterReceives(p, b, Deliver(p, a, payloads, ds[..i])), payloads, ds[i],
                TopAccepted(payloads, ds[..i]), ssrc, spp);
  }

  lemma FirstOutOfReach(payloads: seq<bytes>, ds: seq<nat>) returns (i: nat)
    requires Delivery(ds, |payloads|) && !AllRecoverable(payloads, ds)
    ensures i < |ds| && payloads[ds[i]] != [] && !Recoverable(ds[i], TopAccepted(payloads, ds[..i]))
    ensures forall j :: 0 <= j < i && payloads[ds[j]] != [] ==> Recoverable(ds[j], TopAccepted(payloads, ds[..j]))
  {
    i := 0;
    while payloads[ds[i]] == [] || Recoverable(ds[i], TopAccepted(payloads, ds[..i]))
      invariant i < |ds|
      invariant forall j :: 0 <= j < i && payloads[ds[j]] != [] ==> Recoverable(ds[j], TopAccepted(payloads, ds[..j]))
      decreases |ds| - i
    {
      i := i + 1;
    }
  }

  lemma WithinReach(p: Primitives, a: Pipe, b: Pipe, payloads: seq<bytes>, ds: seq<nat>, i: nat,
      ssrc: uint32, spp: uint32)
    requires a.stream == NewStream(ssrc, spp, false) && a.sendRoc == NEW_SEND_ROC
    requires b.recvKeys == a.sendKeys && b.recvRoc == NEW_RECV_ROC
    requires Delivery(ds, |payloads|) && AllRecoverable(payloads, ds)
    ensures ComesBack(p, a, b, payloads, ds, i, ssrc, spp)
  {
    hide AllRecoverable, Received, Deliver, AudioHeader;
    if i < |ds| {
      PacketComesBack(p, a, b, payloads, ds, i, ssrc, spp);
    }
  }

  /** The first packet out of reach is lost. */
  lemma PacketLost(a: Pipe, b: Pipe, payloads: seq<bytes>, ds: seq<nat>, i: nat, ssrc: uint32, spp: uint32)
    returns (p: Primitives)
    requires a.stream == NewStream(ssrc, spp, false) && a.sendRoc == NEW_SEND_ROC
    requires b.recvKeys == a.sendKeys && b.recvRoc == NEW_RECV_ROC
    requires Delivery(ds, |payloads|) && i < |ds| && payloads[ds[i]] != []
    requires !Recoverable(ds[i], TopAccepted(payloads, ds[..i]))
    requires -0x8000_0000_0000 < ds[i] - TopAccepted(payloads, ds[..i]) < 0x8000_0000_0000
    requires forall j :: 0 <= j < i && payloads[ds[j]] != [] ==> Recoverable(ds[j], TopAccepted(payloads, ds[..j]))
    ensures !ComesBack(p, a, b, payloads, ds, i, ssrc, spp)
  {
    hide Unprotect, SentPacket, AudioHeader, Recoverable, Follows, AllRecoverable, TopAccepted, AfterReceives;
    p := OutOfReachLost(a, payloads, ds[i], TopAccepted(payloads, ds[..i]), ssrc, spp);
    RecoverablePrefix(payloads, ds, i);
    ReceiverFollows(p, a, b, payloads, ds[..i], ssrc, spp);
    assert Deliver(p, a, payloads, ds)[..i] == Deliver(p, a, payloads, ds[..i]);
  }

  /** Over a whole delivery: every delivered nonempty packet comes back under every cipher if and only
      if each is within reach of the tracker as the packets before left it. */
  lemma RunRecoveredIff(a: Pipe, b: Pipe, payloads: seq<bytes>, ds: seq<nat>, ssrc: uint32, spp: uint32)
    requires a.stream == NewStream(ssrc, spp, false) && a.sendRoc == NEW_SEND_ROC
    requires b.recvKeys == a.sendKeys && b.recvRoc == NEW_RECV_ROC
    requires Delivery(ds, |payloads|)
    requires forall i :: 0 <= i < |ds| ==> -0x8000_0000_0000 < ds[i] - TopAccepted(payloads, ds[..i]) < 0x8000_0000_0000
    ensures (forall p, i: nat :: ComesBack(p, a, b, payloads, ds, i, ssrc, spp)) <==> AllRecoverable(payloads, ds)
  {
    hide ComesBack, AllRecoverable, Received, Deliver;
    if AllRecoverable(payloads, ds) {
      forall p, i: nat
        ensures ComesBack(p, a, b, payloads, ds, i, ssrc, spp)
      {
        WithinReach(p, a, b, payloads, ds, i, ssrc, spp);
      }
    } else {
      var i := FirstOutOfReach(payloads, ds);
      var p := PacketLost(a, b, payloads, ds, i, ssrc, spp);
    }
  }

  /** End to end: two parties share a call key, each knowing the other's id. Whatever the
      first sends, if the network drops, repeats and reorders packets within the window,
      the second gets back each delivered nonempty payload and its fixed header fields, and
      refuses exactly the empty ones. */
  lemma EndToEndRecovery(p: Primitives, callKey: bytes, x: string, y: string,
                         ssrc: uint32, spp: uint32, ssrc': uint32, spp': uint32,
                         payloads: seq<bytes>, ds: seq<nat>, i: nat)
    requires |callKey| >= 32
    requires Delivery(ds, |payloads|) && InWindow(payloads, ds) && i < |ds|
    ensures var a := NewPipe(p, callKey, x, y, ssrc, spp).value;
            var b := NewPipe(p, callKey, y, x, ssrc', spp').value;
            Received(p, b, Deliver(p, a, payloads, ds), i)
            == if payloads[ds[i]] == [] then None
               else Some(Audio(FixedFields(AudioHeader(ssrc, spp, payloads, ds[i])), payloads[ds[i]]))
  {
    var a := NewPipe(p, callKey, x, y, ssrc, spp).value;
    var b := NewPipe(p, callKey, y, x, ssrc', spp').value;
    InWindowRecoverable(payloads, ds);
    PacketComesBack(p, a, b, payloads, ds, i, ssrc, spp);
  }

  // ---- What a packet is made of ----

  /** Header in the clear, payload under AES counter mode with the cipher key, from the block of section 4.1.1 of
      RFC 3711, then the tag over both under the authentication key. */
  lemma SealedParts(p: Primitives, keys: E2eKeys, h: RtpHeader, roc: uint32, payload: bytes)
    ensures var out, front := Sealed(p, keys, h, roc, payload),
                HeaderBytes(h) + CtrCrypt(p, keys.cipherKey, RtpIv(keys.salt, h.ssrc, roc, h.sequenceNumber), payload);
            out == front + p.hmacSha1(keys.authKey, front + BigEndian(roc, 4))[..4]
  {
    hide BigEndian, HeaderBytes, CtrCrypt;
    var front := HeaderBytes(h) + CryptPayload(p, keys, h.ssrc, h.sequenceNumber, roc, payload);
    TagLayout(p, keys.authKey, front, roc);
    var out := Sealed(p, keys, h, roc, payload);
    assert out == out[..|front|] + out[|front|..];
  }

  // ---- Whose keys ----

  /** What one sends is sealed under the keys of one's own id, for every packet of every run. */
  lemma SealedUnderOwnId(p: Primitives, callKey: bytes, self: string, peer: string, ssrc: uint32, spp: uint32,
                         payloads: seq<bytes>, k: nat)
    requires |callKey| >= 32 && k < |payloads|
    ensures SentPacket(p, NewPipe(p, callKey, self, peer, ssrc, spp).value, payloads, k)
            == Sealed(p, DeriveE2eKeys(p, callKey, self).value, AudioHeader(ssrc, spp, payloads, k), PacketRoc(k),
                      payloads[k])
  {
    hide Sealed, AudioHeader, SentPacket;
    SentPacketForm(p, NewPipe(p, callKey, self, peer, ssrc, spp).value, payloads, k, ssrc, spp);
  }

  lemma {:induction false} ReceivesKeepKeys(p: Primitives, s: Pipe, packets: seq<bytes>)
    ensures AfterReceives(p, s, packets).recvKeys == s.recvKeys
  {
    if packets != [] {
      ReceivesKeepKeys(p, s, packets[..|packets| - 1]);
    }
  }

  /** What is sealed under the keys of the peer's id opens, after any packets whatever, as long as its
      index is within reach. */
  lemma PeerPacketOpens(p: Primitives, callKey: bytes, self: string, peer: string, ssrc: uint32, spp: uint32,
                        packets: seq<bytes>, top: int, h: RtpHeader, d: nat, payload: bytes)
    requires |callKey| >= 32 && top >= -1 && payload != []
    requires ExtensionFits(h) && h.sequenceNumber == PacketSn(d) && Recoverable(d, top)
    requires Follows(AfterReceives(p, NewPipe(p, callKey, self, peer, ssrc, spp).value, packets).recvRoc, top)
    ensures Unprotect(p, AfterReceives(p, NewPipe(p, callKey, self, peer, ssrc, spp).value, packets),
                      Sealed(p, DeriveE2eKeys(p, callKey, peer).value, h, PacketRoc(d), payload)).1
            == Some(Audio(FixedFields(h), payload))
  {
    hide AfterReceives, Sealed, Unprotect, Recoverable, Follows, CryptPayload, DeriveSessionKeys;
    var b, keys := NewPipe(p, callKey, self, peer, ssrc, spp).value, DeriveE2eKeys(p, callKey, peer).value;
    var s := AfterReceives(p, b, packets);
    ReceivesKeepKeys(p, b, packets);
    UnprotectSealed(p, s, h, PacketRoc(d), payload);
    GuessFollows(s.recvRoc, d, top);
    RecoveredIff(keys, h.ssrc, h.sequenceNumber, PacketRoc(d), PacketRoc(d), payload);
  }

  /** The first packet of a run, byte by byte up to its payload, if it holds speech. */
  lemma FirstHeaderBytes(ssrc: uint32, spp: uint32, payloads: seq<bytes>)
    requires payloads != [] && IsSpeech(payloads[0])
    ensures HeaderBytes(AudioHeader(ssrc, spp, payloads, 0))
            == [0x90, 0xf8, 0, 1, 0, 0, 0, 0] + Be32(ssrc) + [0xde, 0xbe, 0, 0]
  {
    hide IsSpeech, IsOpusDtxPayload;
    assert IsSpeech(payloads[0]) ==> !IsOpusDtxPayload(payloads[0]) by {
      SpeechIsNotDtx(payloads[0]);
    }
    var h := AudioHeader(ssrc, spp, payloads, 0);
    assert !AnySpeech(payloads[..0]);
    assert h.marker && h.sequenceNumber == 1 && h.timestamp == 0 && h.extensionWord == None;
    assert Be16(1) == [0, 1] && Be32(0) == [0, 0, 0, 0] && Be16(EXTENSION_PROFILE) == [0xde, 0xbe] && Be16(0) == [0, 0];
  }

  lemma SpeechIsNotDtx(payload: bytes)
    requires IsSpeech(payload)
    ensures !IsOpusDtxPayload(payload) && !IsOpusPrimingPayload(payload)
  {
  }
}
