/** STUN framing (RFC 5389): attribute encoding, message integrity, fingerprint, and the
    two walkers over received attributes. */
module Stun {
  import opened Bytes
  import opened Crypto

  const MAGIC: uint32 := 0x2112_a442
  const FINGERPRINT_XOR: bytes := [0x53, 0x54, 0x55, 0x4e]

  const MESSAGE_INTEGRITY: uint16 := 0x0008
  const ERROR_CODE: uint16 := 0x0009
  const FINGERPRINT: uint16 := 0x8028

  const MSG_ALLOCATE_ERROR: uint16 := 0x0113
  const MSG_BINDING_ERROR: uint16 := 0x0111

  type TransactionId = b: bytes | |b| == 12 witness Zeros(12)
  type Mac = (bytes, bytes) -> Digest
  type Crc = bytes -> uint32

  datatype Attribute = Attribute(attrType: uint16, value: bytes)

  function Pad4(n: nat): (p: nat)
    ensures p < 4 && (n + p) % 4 == 0
  {
    (4 - n % 4) % 4
  }

  // ---- Encoding ----

  /** Type, length, value, zeros up to a multiple of four (section 15). */
  function StunAttr(attrType: uint16, value: bytes): (b: bytes)
    ensures |b| == 4 + |value| + Pad4(|value|)
  {
    Be16(attrType) + Be16(|value| % 0x1_0000) + value + Zeros(Pad4(|value|))
  }

  function Header(msgType: uint16, msgLen: nat, tx: TransactionId): (h: bytes)
    ensures |h| == 20
  {
    Be16(msgType) + Be16(msgLen % 0x1_0000) + Be32(MAGIC) + tx
  }

  lemma HeaderFields(msgType: uint16, msgLen: nat, tx: TransactionId)
    ensures Header(msgType, msgLen, tx)[0] == msgType / 0x100
    ensures FromBe16(Header(msgType, msgLen, tx)[2], Header(msgType, msgLen, tx)[3]) == msgLen % 0x1_0000
    ensures Header(msgType, msgLen, tx)[..2] == Be16(msgType)
    ensures Header(msgType, msgLen, tx)[4..] == Be32(MAGIC) + tx
  {
    hide Be32;
    var h, len := Header(msgType, msgLen, tx), Be16(msgLen % 0x1_0000);
    assert h[..2] == Be16(msgType) && h[2..4] == len;
    assert h[0] == h[..2][0] && h[2] == h[2..4][0] && h[3] == h[2..4][1];
    Be16Inverts(msgLen % 0x1_0000);
  }

  function IntegrityValue(mac: Mac, key: bytes, msgType: uint16, tx: TransactionId, body: bytes): Digest {
    mac(key, Header(msgType, |body| + 24, tx) + body)
  }

  function FingerprintValue(crc: Crc, msgType: uint16, tx: TransactionId, body: bytes): (v: bytes)
    ensures |v| == 4
  {
    XorSeq(Be32(crc(Header(msgType, |body| + 8, tx) + body)), FINGERPRINT_XOR)
  }

  function Body(mac: Mac, crc: Crc, msgType: uint16, tx: TransactionId, attrs: bytes, key: Option<bytes>,
      fingerprint: bool): bytes {
    var body := match key
      case Some(k) => attrs + StunAttr(MESSAGE_INTEGRITY, IntegrityValue(mac, k, msgType, tx, attrs))
      case None => attrs;
    if fingerprint then body + StunAttr(FINGERPRINT, FingerprintValue(crc, msgType, tx, body)) else body
  }

  function Encode(mac: Mac, crc: Crc, msgType: uint16, tx: TransactionId, attrs: bytes, key: Option<bytes>,
      fingerprint: bool): bytes {
    var body := Body(mac, crc, msgType, tx, attrs, key, fingerprint);
    Header(msgType, |body|, tx) + body
  }

  /** Grows the body attribute by attribute, then puts the final header in front. */
  method EncodeStunRequest(mac: Mac, crc: Crc, msgType: uint16, tx: TransactionId, attrs: bytes,
      integrityKey: Option<bytes>, includeFingerprint: bool)
    returns (out: bytes)
    ensures out == Encode(mac, crc, msgType, tx, attrs, integrityKey, includeFingerprint)
  {
    hide StunAttr, XorSeq;
    var body := attrs;
    if integrityKey.Some? {
      var header := Header(msgType, |body| + 24, tx);
      body := body + StunAttr(MESSAGE_INTEGRITY, mac(integrityKey.value, header + body));
    }
    if includeFingerprint {
      var crcInput := Header(msgType, |body| + 8, tx) + body;
      body := body + StunAttr(FINGERPRINT, XorSeq(Be32(crc(crcInput)), FINGERPRINT_XOR));
    }
    out := Be16(msgType) + Be16(|body| % 0x1_0000);
    out := out + Be32(MAGIC);
    out := out + tx;
    assert out == Header(msgType, |body|, tx);
    out := out + body;
  }

  // ---- Parsing ----

  predicate IsStunPacket(data: bytes) {
    |data| >= 2 && data[0] / 0x40 == 0
  }

  function TypeAt(data: bytes, off: nat): uint16
    requires off + 4 <= |data|
  {
    FromBe16(data[off], data[off + 1])
  }

  function LengthAt(data: bytes, off: nat): uint16
    requires off + 4 <= |data|
  {
    FromBe16(data[off + 2], data[off + 3])
  }

  function NextOff(data: bytes, off: nat): (n: nat)
    requires off + 4 <= |data|
    ensures n >= off + 4
  {
    off + 4 + LengthAt(data, off) + Pad4(LengthAt(data, off))
  }

  function AttributeAt(data: bytes, off: nat): Attribute
    requires off + 4 <= |data| && off + 4 + LengthAt(data, off) <= |data|
  {
    Attribute(TypeAt(data, off), data[off + 4..off + 4 + LengthAt(data, off)])
  }

  /** Attributes from off on, up to the first one that is cut short. */
  function ParseFrom(data: bytes, off: nat): seq<Attribute>
    decreases |data| - off
  {
    if off + 4 > |data| || off + 4 + LengthAt(data, off) > |data| then []
    else [AttributeAt(data, off)] + ParseFrom(data, NextOff(data, off))
  }

  function ParseAttributes(data: bytes): seq<Attribute> {
    if !IsStunPacket(data) || |data| < 20 then [] else ParseFrom(data, 20)
  }

  method ParseStunAttributes(data: bytes) returns (attrs: seq<Attribute>)
    ensures attrs == ParseAttributes(data)
  {
    if !IsStunPacket(data) || |data| < 20 {
      return [];
    }
    hide TypeAt, LengthAt, Pad4, ParseFrom, AttributeAt;
    attrs := [];
    var off := 20;
    ghost var all := ParseFrom(data, off);
    assert attrs + all == all;
    while off + 4 <= |data|
      invariant attrs + ParseFrom(data, off) == all
      decreases |data| - off
    {
      var length := LengthAt(data, off);
      if off + 4 + length > |data| {
        break;
      }
      ParseStep(data, off, attrs);
      attrs := attrs + [AttributeAt(data, off)];
      off := off + 4 + length + Pad4(length);
    }
    ParseStops(data, off);
    assert attrs + [] == attrs;
  }

  lemma ParseStops(data: bytes, off: nat)
    requires off + 4 > |data| || off + 4 + LengthAt(data, off) > |data|
    ensures ParseFrom(data, off) == []
  {
  }

  lemma ParseStep(data: bytes, off: nat, attrs: seq<Attribute>)
    requires off + 4 <= |data| && off + 4 + LengthAt(data, off) <= |data|
    ensures var a := AttributeAt(data, off);
            var next := off + 4 + LengthAt(data, off) + Pad4(LengthAt(data, off));
            attrs + ParseFrom(data, off) == attrs + [a] + ParseFrom(data, next)
  {
  }

  // ---- Round trip ----

  predicate Encodable(attrs: seq<Attribute>) {
    forall i :: 0 <= i < |attrs| ==> |attrs[i].value| < 0x1_0000
  }

  function EncodeAttrs(attrs: seq<Attribute>): bytes {
    if attrs == [] then [] else StunAttr(attrs[0].attrType, attrs[0].value) + EncodeAttrs(attrs[1..])
  }

  lemma {:induction false} EncodeAttrsConcat(a: seq<Attribute>, b: seq<Attribute>)
    ensures EncodeAttrs(a + b) == EncodeAttrs(a) + EncodeAttrs(b)
  {
    if a == [] {
      assert a + b == b;
    } else {
      assert (a + b)[1..] == a[1..] + b;
      EncodeAttrsConcat(a[1..], b);
    }
  }

  /** An encoded attribute is found where it was put. */
  lemma AttrAt(data: bytes, off: nat, attrType: uint16, value: bytes, rest: bytes)
    requires off <= |data| && data[off..] == StunAttr(attrType, value) + rest && |value| < 0x1_0000
    ensures off + 4 + |value| <= |data|
    ensures TypeAt(data, off) == attrType && LengthAt(data, off) == |value|
    ensures data[off + 4..off + 4 + |value|] == value
    ensures NextOff(data, off) <= |data| && data[NextOff(data, off)..] == rest
  {
    hide StunAttr, Pad4, Be16;
    var d, a := data[off..], StunAttr(attrType, value);
    StunAttrParts(attrType, value);
    assert forall k :: 0 <= k < |a| ==> data[off + k] == d[k] == a[k];
    assert data[off + 4..off + 4 + |value|] == a[4..4 + |value|];
    assert data[off + |a|..] == d[|a|..] == rest;
  }

  lemma StunAttrParts(attrType: uint16, value: bytes)
    requires |value| < 0x1_0000
    ensures var a := StunAttr(attrType, value);
            FromBe16(a[0], a[1]) == attrType && FromBe16(a[2], a[3]) == |value| && a[4..4 + |value|] == value
  {
    var a := StunAttr(attrType, value);
    assert [a[0], a[1]] == Be16(attrType) && [a[2], a[3]] == Be16(|value|);
    Be16Inverts(attrType);
    Be16Inverts(|value|);
  }

  lemma {:induction false} ParseInvertsEncodeAttrs(data: bytes, off: nat, attrs: seq<Attribute>)
    requires Encodable(attrs) && off <= |data| && data[off..] == EncodeAttrs(attrs)
    ensures ParseFrom(data, off) == attrs
    decreases |attrs|
  {
    if attrs != [] {
      var a := attrs[0];
      AttrAt(data, off, a.attrType, a.value, EncodeAttrs(attrs[1..]));
      ParseInvertsEncodeAttrs(data, NextOff(data, off), attrs[1..]);
      assert attrs == [a] + attrs[1..];
    }
  }

  /** The attributes as sent: the caller's, then integrity, then fingerprint. */
  function SentAttrs(mac: Mac, crc: Crc, msgType: uint16, tx: TransactionId, attrs: seq<Attribute>,
      key: Option<bytes>, fingerprint: bool): seq<Attribute> {
    var protected := attrs + match key
      case Some(k) => [Attribute(MESSAGE_INTEGRITY, IntegrityValue(mac, k, msgType, tx, EncodeAttrs(attrs)))]
      case None => [];
    protected
    + if fingerprint then [Attribute(FINGERPRINT, FingerprintValue(crc, msgType, tx, EncodeAttrs(protected)))] else []
  }

  lemma EncodeOne(attrs: seq<Attribute>, a: Attribute)
    ensures EncodeAttrs(attrs + [a]) == EncodeAttrs(attrs) + StunAttr(a.attrType, a.value)
  {
    EncodeAttrsConcat(attrs, [a]);
    assert EncodeAttrs([a]) == StunAttr(a.attrType, a.value) + EncodeAttrs([]);
  }

  lemma BodyIsSentAttrs(mac: Mac, crc: Crc, msgType: uint16, tx: TransactionId, attrs: seq<Attribute>,
      key: Option<bytes>, fingerprint: bool)
    ensures Body(mac, crc, msgType, tx, EncodeAttrs(attrs), key, fingerprint)
            == EncodeAttrs(SentAttrs(mac, crc, msgType, tx, attrs, key, fingerprint))
  {
    var protected := attrs;
    if key.Some? {
      var a := Attribute(MESSAGE_INTEGRITY, IntegrityValue(mac, key.value, msgType, tx, EncodeAttrs(attrs)));
      EncodeOne(attrs, a);
      protected := attrs + [a];
    } else {
      assert attrs + [] == attrs;
    }
    if fingerprint {
      EncodeOne(protected, Attribute(FINGERPRINT, FingerprintValue(crc, msgType, tx, EncodeAttrs(protected))));
    } else {
      assert protected + [] == protected;
    }
  }

  /** Parsing an encoded message returns the attributes sent, followed by those the encoder
      added, whatever the message's length. */
  lemma ParseInvertsEncode(mac: Mac, crc: Crc, msgType: uint16, tx: TransactionId, attrs: seq<Attribute>,
      key: Option<bytes>, fingerprint: bool)
    requires Encodable(attrs) && msgType < 0x4000
    ensures ParseAttributes(Encode(mac, crc, msgType, tx, EncodeAttrs(attrs), key, fingerprint))
            == SentAttrs(mac, crc, msgType, tx, attrs, key, fingerprint)
  {
    var sent := SentAttrs(mac, crc, msgType, tx, attrs, key, fingerprint);
    var msg := Encode(mac, crc, msgType, tx, EncodeAttrs(attrs), key, fingerprint);
    hide Body, Header, EncodeAttrs, IntegrityValue, FingerprintValue;
    BodyIsSentAttrs(mac, crc, msgType, tx, attrs, key, fingerprint);
    HeaderFields(msgType, |EncodeAttrs(sent)|, tx);
    assert msg[20..] == EncodeAttrs(sent);
    ParseInvertsEncodeAttrs(msg, 20, sent);
  }

  // ---- Verification, written from RFC 5389 ----

  /** Section 6: the length field gives the size after the header. */
  predicate LengthOk(msg: bytes) {
    |msg| >= 20 && FromBe16(msg[2], msg[3]) == |msg| - 20
  }

  /** Offset of the first attribute of a type. */
  function FindAttr(msg: bytes, off: nat, attrType: uint16): (r: Option<nat>)
    ensures r.Some? ==> off <= r.value && r.value + 4 <= |msg| && r.value + 4 + LengthAt(msg, r.value) <= |msg|
    decreases |msg| - off
  {
    if off + 4 > |msg| || off + 4 + LengthAt(msg, off) > |msg| then None
    else if TypeAt(msg, off) == attrType then Some(off)
    else FindAttr(msg, NextOff(msg, off), attrType)
  }

  /** Section 15.4: the HMAC covers the message up to the attribute, with the length field
      counting through the attribute. */
  predicate IntegrityOk(mac: Mac, key: bytes, msg: bytes) {
    |msg| >= 20
    && var at := FindAttr(msg, 20, 0x0008);
    at.Some? && LengthAt(msg, at.value) == 20 && at.value - 20 + 24 < 0x1_0000
    && msg[at.value + 4..at.value + 24] == mac(key, msg[..2] + Be16(at.value - 20 + 24) + msg[4..at.value])
  }

  /** Section 15.5: the last attribute, the CRC of everything before it, exclusive-ored. */
  predicate FingerprintOk(crc: Crc, msg: bytes) {
    |msg| >= 28
    && var at := |msg| - 8;
    TypeAt(msg, at) == 0x8028 && LengthAt(msg, at) == 4
    && msg[at + 4..] == XorSeq(Be32(crc(msg[..at])), [0x53, 0x54, 0x55, 0x4e])
  }

  /** Section 6: the type, the magic cookie and the transaction id, in their places. */
  predicate HeaderOk(msg: bytes, msgType: uint16, tx: TransactionId) {
    |msg| >= 20 && FromBigEndian(msg[..2]) == msgType && msg[4..8] == [0x21, 0x12, 0xa4, 0x42] && msg[8..20] == tx
  }

  lemma HeaderAccepted(mac: Mac, crc: Crc, msgType: uint16, tx: TransactionId, attrs: bytes, key: Option<bytes>,
      fingerprint: bool)
    ensures HeaderOk(Encode(mac, crc, msgType, tx, attrs, key, fingerprint), msgType, tx)
  {
    hide Body, Header, HeaderOk;
    var body := Body(mac, crc, msgType, tx, attrs, key, fingerprint);
    HeaderOfMessage(Header(msgType, |body|, tx), body, msgType, tx) by {
      HeaderParts(msgType, |body|, tx);
    }
  }

  lemma HeaderParts(msgType: uint16, msgLen: nat, tx: TransactionId)
    ensures HeaderOk(Header(msgType, msgLen, tx), msgType, tx)
  {
    hide Be16, FromBigEndian;
    var h := Header(msgType, msgLen, tx);
    HeaderFields(msgType, msgLen, tx);
    Be16Number(msgType);
    CookieBytes();
    assert h[4..8] == h[4..][..4] && h[8..20] == h[4..][4..];
  }

  lemma CookieBytes()
    ensures Be32(MAGIC) == [0x21, 0x12, 0xa4, 0x42]
  {
  }

  lemma HeaderOfMessage(h: bytes, body: bytes, msgType: uint16, tx: TransactionId)
    requires |h| == 20 && HeaderOk(h, msgType, tx)
    ensures HeaderOk(h + body, msgType, tx)
  {
    hide FromBigEndian;
    var msg := h + body;
    assert msg[..2] == h[..2] && msg[4..8] == h[4..8] && msg[8..20] == h[8..20];
  }

  /** Section 15: type and length as 16-bit numbers, the value, zeros up to a multiple of four. */
  lemma AttrLayout(attrType: uint16, value: bytes)
    requires |value| < 0x1_0000
    ensures var a, end := StunAttr(attrType, value), 4 + |value|;
            && FromBigEndian(a[..2]) == attrType && FromBigEndian(a[2..4]) == |value| && a[4..end] == value
            && end <= |a| < end + 4 && |a| % 4 == 0 && forall k :: end <= k < |a| ==> a[k] == 0
  {
    hide Be16, FromBigEndian;
    var a := StunAttr(attrType, value);
    assert a[..2] == Be16(attrType) && a[2..4] == Be16(|value|);
    Be16Number(attrType);
    Be16Number(|value|);
  }

  /** The length field is right exactly when the body fits 16 bits. */
  lemma LengthOkIff(mac: Mac, crc: Crc, msgType: uint16, tx: TransactionId, attrs: bytes, key: Option<bytes>,
      fingerprint: bool)
    ensures LengthOk(Encode(mac, crc, msgType, tx, attrs, key, fingerprint))
            <==> |Body(mac, crc, msgType, tx, attrs, key, fingerprint)| < 0x1_0000
  {
    hide Body, Header, FromBe16;
    var body := Body(mac, crc, msgType, tx, attrs, key, fingerprint);
    HeaderFields(msgType, |body|, tx);
    var h, msg := Header(msgType, |body|, tx), Encode(mac, crc, msgType, tx, attrs, key, fingerprint);
    assert msg[2] == h[2] && msg[3] == h[3];
  }

  /** The first attribute of a type comes right behind attributes of other types. */
  lemma {:induction false} FindBehind(msg: bytes, off: nat, attrs: seq<Attribute>, t: uint16, value: bytes, rest: bytes)
    requires Encodable(attrs) && off <= |msg| && |value| < 0x1_0000
    requires msg[off..] == EncodeAttrs(attrs) + (StunAttr(t, value) + rest)
    requires forall i :: 0 <= i < |attrs| ==> attrs[i].attrType != t
    ensures FindAttr(msg, off, t) == Some(off + |EncodeAttrs(attrs)|)
    decreases |attrs|
  {
    hide StunAttr, TypeAt, LengthAt, NextOff;
    if attrs == [] {
      AttrAt(msg, off, t, value, rest);
    } else {
      var a, tail := attrs[0], EncodeAttrs(attrs[1..]) + (StunAttr(t, value) + rest);
      assert msg[off..] == StunAttr(a.attrType, a.value) + tail;
      AttrAt(msg, off, a.attrType, a.value, tail);
      FindBehind(msg, NextOff(msg, off), attrs[1..], t, value, rest);
    }
  }

  lemma IntegrityAccepted(mac: Mac, k: bytes, msgType: uint16, tx: TransactionId, attrs: seq<Attribute>,
      bodyLen: nat, rest: bytes, msg: bytes)
    requires Encodable(attrs) && forall i :: 0 <= i < |attrs| ==> attrs[i].attrType != MESSAGE_INTEGRITY
    requires |EncodeAttrs(attrs)| + 24 < 0x1_0000
    requires msg == Header(msgType, bodyLen, tx)
                    + (EncodeAttrs(attrs)
                       + (StunAttr(MESSAGE_INTEGRITY, IntegrityValue(mac, k, msgType, tx, EncodeAttrs(attrs))) + rest))
    ensures IntegrityOk(mac, k, msg)
  {
    hide EncodeAttrs, StunAttr, Header, FindAttr, TypeAt, LengthAt, IntegrityValue;
    var body := EncodeAttrs(attrs);
    var value := IntegrityValue(mac, k, msgType, tx, body);
    var at := 20 + |body|;
    assert msg[20..] == body + (StunAttr(MESSAGE_INTEGRITY, value) + rest);
    FindBehind(msg, 20, attrs, MESSAGE_INTEGRITY, value, rest);
    assert msg[at..] == StunAttr(MESSAGE_INTEGRITY, value) + rest;
    AttrAt(msg, at, MESSAGE_INTEGRITY, value, rest);
    CoveredByMac(mac, k, msgType, tx, bodyLen, body, msg);
  }

  /** Up to the attribute, with the length field replaced, the message is what was hashed. */
  lemma CoveredByMac(mac: Mac, k: bytes, msgType: uint16, tx: TransactionId, bodyLen: nat, body: bytes, msg: bytes)
    requires |body| + 24 < 0x1_0000 && Header(msgType, bodyLen, tx) + body <= msg
    ensures mac(k, msg[..2] + Be16(|body| + 24) + msg[4..20 + |body|]) == IntegrityValue(mac, k, msgType, tx, body)
  {
    var start := Header(msgType, bodyLen, tx) + body;
    HeaderFields(msgType, bodyLen, tx);
    assert msg[..2] == start[..2] == Be16(msgType);
    assert msg[4..20 + |body|] == start[4..] == Be32(MAGIC) + tx + body;
    assert Be16(msgType) + Be16(|body| + 24) + (Be32(MAGIC) + tx + body) == Header(msgType, |body| + 24, tx) + body;
  }

  lemma FingerprintAccepted(crc: Crc, msgType: uint16, tx: TransactionId, body: bytes, msg: bytes)
    requires msg == Header(msgType, |body| + 8, tx)
                    + (body + StunAttr(FINGERPRINT, FingerprintValue(crc, msgType, tx, body)))
    ensures FingerprintOk(crc, msg)
  {
    hide StunAttr, Header, TypeAt, LengthAt;
    var value, at := FingerprintValue(crc, msgType, tx, body), |msg| - 8;
    assert at == 20 + |body|;
    assert msg[at..] == StunAttr(FINGERPRINT, value) + [];
    AttrAt(msg, at, FINGERPRINT, value, []);
    assert msg[..at] == Header(msgType, |body| + 8, tx) + body;
    assert msg[at + 4..] == msg[at + 4..at + 8];
  }

  predicate OwnIntegrity(attrs: seq<Attribute>) {
    exists i :: 0 <= i < |attrs| && attrs[i].attrType == MESSAGE_INTEGRITY
  }

  /** A message whose body fits 16 bits passes the length and fingerprint checks of the standard,
      for every MAC and CRC, and the integrity check too unless the caller's own attributes
      already hold a MESSAGE-INTEGRITY. */
  lemma VerifierAccepts(mac: Mac, crc: Crc, msgType: uint16, tx: TransactionId, attrs: seq<Attribute>,
      key: Option<bytes>, fingerprint: bool)
    requires Encodable(attrs)
    requires |Body(mac, crc, msgType, tx, EncodeAttrs(attrs), key, fingerprint)| < 0x1_0000
    ensures var msg := Encode(mac, crc, msgType, tx, EncodeAttrs(attrs), key, fingerprint);
            LengthOk(msg) && (fingerprint ==> FingerprintOk(crc, msg))
            && (key.Some? && !OwnIntegrity(attrs) ==> IntegrityOk(mac, key.value, msg))
  {
    hide EncodeAttrs, StunAttr, Header, IntegrityOk, FingerprintOk, LengthOk, IntegrityValue, FingerprintValue;
    var plain := EncodeAttrs(attrs);
    var msg := Encode(mac, crc, msgType, tx, plain, key, fingerprint);
    var body := Body(mac, crc, msgType, tx, plain, key, fingerprint);
    LengthOkIff(mac, crc, msgType, tx, plain, key, fingerprint);
    var protected := Body(mac, crc, msgType, tx, plain, key, false);
    if key.Some? && !OwnIntegrity(attrs) {
      var mi := StunAttr(MESSAGE_INTEGRITY, IntegrityValue(mac, key.value, msgType, tx, plain));
      var rest := if fingerprint then StunAttr(FINGERPRINT, FingerprintValue(crc, msgType, tx, protected)) else [];
      assert body == plain + (mi + rest);
      IntegrityAccepted(mac, key.value, msgType, tx, attrs, |body|, rest, msg);
    }
    if fingerprint {
      FingerprintAccepted(crc, msgType, tx, protected, msg);
    }
  }

  lemma BodySize(mac: Mac, crc: Crc, msgType: uint16, tx: TransactionId, attrs: bytes, key: Option<bytes>,
      fingerprint: bool)
    ensures |Body(mac, crc, msgType, tx, attrs, key, fingerprint)|
            == |attrs| + (if key.Some? then 24 else 0) + (if fingerprint then 8 else 0)
  {
  }

  lemma FirstOwnIntegrity(attrs: seq<Attribute>) returns (j: nat)
    requires OwnIntegrity(attrs)
    ensures j < |attrs| && attrs[j].attrType == MESSAGE_INTEGRITY
    ensures forall i :: 0 <= i < j ==> attrs[i].attrType != MESSAGE_INTEGRITY
  {
    j := 0;
    while attrs[j].attrType != MESSAGE_INTEGRITY
      invariant j < |attrs| && forall i :: 0 <= i < j ==> attrs[i].attrType != MESSAGE_INTEGRITY
      decreases |attrs| - j
    {
      j := j + 1;
    }
  }

  /** A digest other than the value given. */
  function OtherDigest(value: bytes): (d: Digest)
    ensures d != value
  {
    assert Zeros(20)[0 := 1][0] != Zeros(20)[0];
    if value == Zeros(20) then Zeros(20)[0 := 1] else Zeros(20)
  }

  /** A verifier takes the caller's own attribute for the encoder's, and some MAC differs from it. */
  lemma OwnIntegrityMistaken(crc: Crc, k: bytes, msgType: uint16, tx: TransactionId, attrs: seq<Attribute>,
      fingerprint: bool) returns (mac: Mac)
    requires Encodable(attrs) && OwnIntegrity(attrs)
    ensures !IntegrityOk(mac, k, Encode(mac, crc, msgType, tx, EncodeAttrs(attrs), Some(k), fingerprint))
  {
    var j := FirstOwnIntegrity(attrs);
    var value := attrs[j].value;
    var other := OtherDigest(value);
    mac := (key: bytes, text: bytes) => other;
    var sent := SentAttrs(mac, crc, msgType, tx, attrs, Some(k), fingerprint);
    var msg := Encode(mac, crc, msgType, tx, EncodeAttrs(attrs), Some(k), fingerprint);
    BodyIsSentAttrs(mac, crc, msgType, tx, attrs, Some(k), fingerprint);
    assert msg[20..] == EncodeAttrs(sent);
    assert sent == attrs[..j] + ([attrs[j]] + sent[j + 1..]);
    var at := 20 + |EncodeAttrs(attrs[..j])|;
    FirstFound(msg, attrs[..j], value, sent[j + 1..], at);
    OtherValueRefused(mac, k, msg, at, value);
  }

  lemma FirstFound(msg: bytes, before: seq<Attribute>, value: bytes, after: seq<Attribute>, at: nat)
    requires Encodable(before) && |value| < 0x1_0000 && |msg| >= 20 && at == 20 + |EncodeAttrs(before)|
    requires forall i :: 0 <= i < |before| ==> before[i].attrType != MESSAGE_INTEGRITY
    requires msg[20..] == EncodeAttrs(before + ([Attribute(MESSAGE_INTEGRITY, value)] + after))
    ensures FindAttr(msg, 20, MESSAGE_INTEGRITY) == Some(at)
    ensures LengthAt(msg, at) == |value| && msg[at + 4..at + 4 + |value|] == value
  {
    hide StunAttr, EncodeAttrs, FindAttr, TypeAt, LengthAt, NextOff, Be16;
    var rest, own := EncodeAttrs(after), StunAttr(MESSAGE_INTEGRITY, value);
    EncodeAttrsCons(Attribute(MESSAGE_INTEGRITY, value), after);
    EncodeAttrsConcat(before, [Attribute(MESSAGE_INTEGRITY, value)] + after);
    FindBehind(msg, 20, before, MESSAGE_INTEGRITY, value, rest);
    assert msg[at..] == msg[20..][|EncodeAttrs(before)|..] == own + rest;
    AttrAt(msg, at, MESSAGE_INTEGRITY, value, rest);
  }

  lemma OtherValueRefused(mac: Mac, k: bytes, msg: bytes, at: nat, value: bytes)
    requires |msg| >= 20 && FindAttr(msg, 20, MESSAGE_INTEGRITY) == Some(at)
    requires LengthAt(msg, at) == |value| && at + 4 + |value| <= |msg| && msg[at + 4..at + 4 + |value|] == value
    requires forall key, text :: mac(key, text) != value
    ensures !IntegrityOk(mac, k, msg)
  {
    hide FindAttr, LengthAt;
  }

  lemma EncodeAttrsCons(a: Attribute, after: seq<Attribute>)
    ensures EncodeAttrs([a] + after) == StunAttr(a.attrType, a.value) + EncodeAttrs(after)
  {
    assert ([a] + after)[1..] == after;
  }

  /** Under every MAC the standard's integrity check accepts what the encoder protects, exactly
      when the caller's own attributes hold no MESSAGE-INTEGRITY. */
  lemma IntegrityAcceptedIff(crc: Crc, k: bytes, msgType: uint16, tx: TransactionId, attrs: seq<Attribute>,
      fingerprint: bool)
    requires Encodable(attrs) && |EncodeAttrs(attrs)| + 24 + (if fingerprint then 8 else 0) < 0x1_0000
    ensures (forall mac: Mac ::
               IntegrityOk(mac, k, Encode(mac, crc, msgType, tx, EncodeAttrs(attrs), Some(k), fingerprint)))
            <==> !OwnIntegrity(attrs)
  {
    hide IntegrityOk, Encode, EncodeAttrs, Encodable, Body;
    if OwnIntegrity(attrs) {
      var mac := OwnIntegrityMistaken(crc, k, msgType, tx, attrs, fingerprint);
    } else {
      forall mac: Mac
        ensures IntegrityOk(mac, k, Encode(mac, crc, msgType, tx, EncodeAttrs(attrs), Some(k), fingerprint))
      {
        BodySize(mac, crc, msgType, tx, EncodeAttrs(attrs), Some(k), fingerprint);
        VerifierAccepts(mac, crc, msgType, tx, attrs, Some(k), fingerprint);
      }
    }
  }

  // ---- The error-code walker ----

  /** Hundreds and rest of an error code. */
  function CodeOf(hundreds: int, number: int): uint16
    requires 0 <= hundreds < 0x100 && 0 <= number < 0x100
  {
    hundreds * 100 + number
  }

  function WalkError(data: bytes, off: nat, end: nat): Option<uint16>
    requires end <= |data|
    decreases end - off
  {
    if off + 4 > end then None
    else if TypeAt(data, off) == ERROR_CODE && LengthAt(data, off) >= 4 && off + 8 <= |data| then
      Some(CodeOf(data[off + 6], data[off + 7]))
    else WalkError(data, NextOff(data, off), end)
  }

  predicate IsErrorResponse(data: bytes) {
    |data| >= 20
    && var t := FromBe16(data[0] % 0x40, data[1]);
    t == MSG_ALLOCATE_ERROR || t == MSG_BINDING_ERROR
  }

  function ErrorCode(data: bytes): Option<uint16> {
    if !IsErrorResponse(data) then None
    else WalkError(data, 20, Min(20 + FromBe16(data[2], data[3]), |data|))
  }

  method ParseStunErrorCode(data: bytes) returns (r: Option<uint16>)
    ensures r == ErrorCode(data)
  {
    if |data| < 20 {
      return None;
    }
    var t := FromBe16(data[0] % 0x40, data[1]);
    if t != MSG_ALLOCATE_ERROR && t != 0x0111 {
      return None;
    }
    var bodyLen: int := FromBe16(data[2], data[3]);
    var end := Min(20 + bodyLen, |data|);
    var off := 20;
    while off + 4 <= end
      invariant off >= 20 && WalkError(data, off, end) == WalkError(data, 20, end)
      decreases end - off
    {
      var attrType, length := TypeAt(data, off), LengthAt(data, off);
      if attrType == ERROR_CODE && length >= 4 && off + 8 <= |data| {
        return Some(CodeOf(data[off + 6], data[off + 7]));
      }
      off := off + 4 + length + Pad4(length);
    }
    r := None;
  }

  /** The code in the first error attribute of at least four bytes. */
  function FirstError(attrs: seq<Attribute>): Option<uint16> {
    if attrs == [] then None
    else if attrs[0].attrType == ERROR_CODE && |attrs[0].value| >= 4 then
      Some(CodeOf(attrs[0].value[2], attrs[0].value[3]))
    else FirstError(attrs[1..])
  }

  /** No error attribute is found whole, and the first attribute that is cut short is an
      error code with its number still inside the message. */
  predicate CutErrorCode(data: bytes, off: nat)
    decreases |data| - off
  {
    off + 4 <= |data|
    && if off + 4 + LengthAt(data, off) > |data| then
         TypeAt(data, off) == ERROR_CODE && LengthAt(data, off) >= 4 && off + 8 <= |data|
       else !(TypeAt(data, off) == ERROR_CODE && LengthAt(data, off) >= 4) && CutErrorCode(data, NextOff(data, off))
  }

  lemma {:induction false} WalkersAgreeFrom(data: bytes, off: nat)
    ensures WalkError(data, off, |data|) == FirstError(ParseFrom(data, off)) <==> !CutErrorCode(data, off)
    decreases |data| - off
  {
    hide TypeAt, LengthAt, NextOff, FirstError, CodeOf;
    if off + 4 <= |data| {
      if off + 4 + LengthAt(data, off) <= |data| {
        ErrorFirst(AttributeAt(data, off), ParseFrom(data, NextOff(data, off)));
        WalkersAgreeFrom(data, NextOff(data, off));
      } else {
        NothingListed();
        NextPast(data, off);
        assert WalkError(data, NextOff(data, off), |data|) == None;
      }
    } else {
      NothingListed();
    }
  }

  lemma NextPast(data: bytes, off: nat)
    requires off + 4 <= |data|
    ensures NextOff(data, off) >= off + 4 + LengthAt(data, off)
  {
  }

  lemma NothingListed()
    ensures FirstError([]) == None
  {
  }

  lemma ErrorFirst(a: Attribute, rest: seq<Attribute>)
    ensures FirstError([a] + rest)
            == if a.attrType == ERROR_CODE && |a.value| >= 4 then Some(CodeOf(a.value[2], a.value[3]))
               else FirstError(rest)
  {
    assert ([a] + rest)[1..] == rest;
  }

  /** On an error response with a right length field the error-code walker finds the code of
      the first error attribute the general parser lists, or none if there is none, except
      exactly when the message is cut off inside its first error attribute. */
  lemma WalkersAgreeIff(data: bytes)
    requires IsErrorResponse(data) && IsStunPacket(data) && LengthOk(data)
    ensures ErrorCode(data) == FirstError(ParseAttributes(data)) <==> !CutErrorCode(data, 20)
  {
    hide WalkError, ParseFrom, CutErrorCode, FirstError;
    WalkersAgreeFrom(data, 20);
  }

  /** An error response of the right length that ends inside an ERROR-CODE attribute. */
  const CUT_RESPONSE: bytes :=
    [0x01, 0x13, 0x00, 0x08, 0x21, 0x12, 0xa4, 0x42, 0, 0, 0, 0, 0, 0, 0, 0, 0, 0, 0, 0,
     0x00, 0x09, 0x00, 0xff, 0x00, 0x00, 0x04, 0x01]

  /** The exception is real: here one walker finds 401 and the other lists nothing. */
  lemma CutResponse()
    ensures IsErrorResponse(CUT_RESPONSE) && IsStunPacket(CUT_RESPONSE) && LengthOk(CUT_RESPONSE)
    ensures CutErrorCode(CUT_RESPONSE, 20)
    ensures ErrorCode(CUT_RESPONSE) == Some(401) && ParseAttributes(CUT_RESPONSE) == []
  {
    assert |CUT_RESPONSE| == 28;
    assert TypeAt(CUT_RESPONSE, 20) == ERROR_CODE && LengthAt(CUT_RESPONSE, 20) == 0xff;
  }

  /** Whole attributes are never cut. */
  lemma {:induction false} WholeNeverCut(data: bytes, off: nat, attrs: seq<Attribute>)
    requires Encodable(attrs) && off <= |data| && data[off..] == EncodeAttrs(attrs)
    ensures !CutErrorCode(data, off)
    decreases |attrs|
  {
    if attrs != [] {
      var a := attrs[0];
      AttrAt(data, off, a.attrType, a.value, EncodeAttrs(attrs[1..]));
      WholeNeverCut(data, NextOff(data, off), attrs[1..]);
    }
  }

  /** So on every error response made of whole attributes the walker finds the first error code among them. */
  lemma WholeResponse(data: bytes, attrs: seq<Attribute>)
    requires IsErrorResponse(data) && IsStunPacket(data) && LengthOk(data)
    requires Encodable(attrs) && data[20..] == EncodeAttrs(attrs)
    ensures ErrorCode(data) == FirstError(attrs)
  {
    ParseInvertsEncodeAttrs(data, 20, attrs);
    WholeNeverCut(data, 20, attrs);
    WalkersAgreeIff(data);
  }

  /** Error responses are those of type 0x0111 or 0x0113, whatever the two top bits. */
  lemma ErrorResponseIff(data: bytes)
    ensures IsErrorResponse(data) <==>
            |data| >= 20 && FromBigEndian([data[0] % 0x40, data[1]]) in {0x0111, 0x0113}
    ensures !IsErrorResponse(data) ==> ErrorCode(data) == None
  {
    if |data| >= 20 {
      var t := FromBe16(data[0] % 0x40, data[1]);
      Be16Number(t);
      Be16OfBytes(data[0] % 0x40, data[1]);
    }
  }

  /** The walker lists what lies in front of the end, whatever lies behind. */
  lemma {:induction false} WalkWhole(data: bytes, off: nat, end: nat, attrs: seq<Attribute>)
    requires Encodable(attrs) && off <= end <= |data| && data[off..end] == EncodeAttrs(attrs)
    ensures WalkError(data, off, end) == FirstError(attrs)
    decreases |attrs|
  {
    hide TypeAt, LengthAt, NextOff, StunAttr, CodeOf;
    if attrs != [] {
      var a, tail := attrs[0], EncodeAttrs(attrs[1..]) + data[end..];
      assert data[off..] == data[off..end] + data[end..] == StunAttr(a.attrType, a.value) + tail;
      AttrAt(data, off, a.attrType, a.value, tail);
      var next := NextOff(data, off);
      assert |data[next..]| == |tail|;
      assert data[next..end] == data[next..][..end - next] == EncodeAttrs(attrs[1..]);
      WalkWhole(data, next, end, attrs[1..]);
      assert a.value == data[off + 4..off + 4 + |a.value|];
    }
  }

  /** The first error attribute within the declared length carries the hundreds of the code in byte 2 and the rest
      in byte 3; bytes behind that length play no part. */
  lemma ErrorIsRead(data: bytes, end: nat, before: seq<Attribute>, value: bytes, after: seq<Attribute>, code: uint16)
    requires IsErrorResponse(data) && end == 20 + FromBe16(data[2], data[3]) <= |data|
    requires var attrs := before + ([Attribute(0x0009, value)] + after);
             Encodable(attrs) && data[20..end] == EncodeAttrs(attrs)
    requires forall i :: 0 <= i < |before| ==> before[i].attrType != 0x0009
    requires |value| >= 4 && value[2] == code / 100 && value[3] == code % 100
    ensures ErrorCode(data) == Some(code)
  {
    hide EncodeAttrs, WalkError;
    WalkWhole(data, 20, end, before + ([Attribute(0x0009, value)] + after));
    FirstBehind(before, value, after);
  }

  /** No error attribute of four bytes within the declared length: no code, whatever lies behind. */
  lemma NoErrorToRead(data: bytes, end: nat, attrs: seq<Attribute>)
    requires IsErrorResponse(data) && end == 20 + FromBe16(data[2], data[3]) <= |data|
    requires Encodable(attrs) && data[20..end] == EncodeAttrs(attrs)
    requires forall i :: 0 <= i < |attrs| ==> attrs[i].attrType != 0x0009 || |attrs[i].value| < 4
    ensures ErrorCode(data) == None
  {
    hide EncodeAttrs, WalkError;
    WalkWhole(data, 20, end, attrs);
    NothingFound(attrs);
  }

  lemma {:induction false} NothingFound(attrs: seq<Attribute>)
    requires forall i :: 0 <= i < |attrs| ==> attrs[i].attrType != 0x0009 || |attrs[i].value| < 4
    ensures FirstError(attrs) == None
  {
    if attrs != [] {
      NothingFound(attrs[1..]);
    }
  }

  lemma {:induction false} FirstBehind(before: seq<Attribute>, value: bytes, after: seq<Attribute>)
    requires (forall i :: 0 <= i < |before| ==> before[i].attrType != 0x0009) && |value| >= 4
    ensures FirstError(before + ([Attribute(0x0009, value)] + after)) == Some(CodeOf(value[2], value[3]))
  {
    var attrs := before + ([Attribute(0x0009, value)] + after);
    if before != [] {
      assert attrs[1..] == before[1..] + ([Attribute(0x0009, value)] + after);
      FirstBehind(before[1..], value, after);
    }
  }

  // ---- What the general walker lists ----

  /** Attributes as any sender may write them: the padding is of any bytes. */
  datatype Written = Written(attr: Attribute, pad: bytes)

  function OnWire(w: Written): bytes {
    Be16(w.attr.attrType) + Be16(|w.attr.value| % 0x1_0000) + w.attr.value + w.pad
  }

  function Laid(ws: seq<Written>): bytes {
    if ws == [] then [] else OnWire(ws[0]) + Laid(ws[1..])
  }

  function Attributes(ws: seq<Written>): seq<Attribute> {
    if ws == [] then [] else [ws[0].attr] + Attributes(ws[1..])
  }

  /** Values fit their length field and are padded to a multiple of four; at the very end of the message the padding
      may be cut. */
  predicate Padded(ws: seq<Written>, tail: bytes) {
    forall i :: 0 <= i < |ws| ==>
      && |ws[i].attr.value| < 0x1_0000 && |ws[i].pad| <= Pad4(|ws[i].attr.value|)
      && (i < |ws| - 1 || tail != [] ==> |ws[i].pad| == Pad4(|ws[i].attr.value|))
  }

  /** Too short for type and length, or shorter than the length says. */
  predicate Unfinished(tail: bytes) {
    |tail| < 4 || FromBigEndian(tail[2..4]) > |tail| - 4
  }

  lemma UnfinishedLists(data: bytes, off: nat)
    requires off <= |data|
    ensures Unfinished(data[off..]) <==> ParseFrom(data, off) == []
  {
    if off + 4 <= |data| {
      var tail := data[off..];
      Be16OfBytes(data[off + 2], data[off + 3]);
      Be16Number(LengthAt(data, off));
      assert tail[2..4] == [data[off + 2], data[off + 3]];
    }
  }

  /** One attribute, padded in full or cut at the end. */
  lemma WrittenAt(data: bytes, off: nat, w: Written, rest: bytes)
    requires off <= |data| && data[off..] == OnWire(w) + rest && |w.attr.value| < 0x1_0000
    requires |w.pad| <= Pad4(|w.attr.value|) && (rest != [] ==> |w.pad| == Pad4(|w.attr.value|))
    ensures off + 4 + LengthAt(data, off) <= |data|
    ensures Attribute(TypeAt(data, off), data[off + 4..off + 4 + LengthAt(data, off)]) == w.attr
    ensures if NextOff(data, off) <= |data| then data[NextOff(data, off)..] == rest else rest == []
  {
    hide Be16, FromBe16, Pad4;
    var d, v := data[off..], w.attr.value;
    Be16Inverts(w.attr.attrType);
    Be16Inverts(|v|);
    assert d[..2] == Be16(w.attr.attrType) && d[2..4] == Be16(|v|) && d[4..4 + |v|] == v;
    assert data[off] == d[..2][0] && data[off + 1] == d[..2][1];
    assert data[off + 2] == d[2..4][0] && data[off + 3] == d[2..4][1];
    assert data[off + 4..off + 4 + |v|] == d[4..4 + |v|];
    if NextOff(data, off) <= |data| {
      assert data[NextOff(data, off)..] == d[4 + |v| + Pad4(|v|)..];
    }
  }

  lemma {:induction false} ListsLaid(data: bytes, off: nat, ws: seq<Written>, tail: bytes)
    requires off <= |data| && data[off..] == Laid(ws) + tail && Padded(ws, tail) && Unfinished(tail)
    ensures ParseFrom(data, off) == Attributes(ws)
    decreases |ws|
  {
    hide TypeAt, LengthAt, NextOff, OnWire, Unfinished;
    if ws == [] {
      assert data[off..] == tail;
      UnfinishedLists(data, off);
    } else {
      var rest := Laid(ws[1..]) + tail;
      assert data[off..] == OnWire(ws[0]) + rest;
      LaidEmptyIff(ws[1..]);
      WrittenAt(data, off, ws[0], rest);
      var next := NextOff(data, off);
      if next <= |data| {
        assert Padded(ws[1..], tail) by {
          assert forall i :: 0 <= i < |ws| - 1 ==> ws[1..][i] == ws[i + 1];
        }
        ListsLaid(data, next, ws[1..], tail);
      } else {
        assert ws[1..] == [];
      }
    }
  }

  lemma LaidEmptyIff(ws: seq<Written>)
    ensures Laid(ws) == [] <==> ws == []
  {
  }

  lemma {:induction false} LaidOut(data: bytes, off: nat) returns (ws: seq<Written>, tail: bytes)
    requires off <= |data|
    ensures data[off..] == Laid(ws) + tail && Padded(ws, tail) && Unfinished(tail)
    ensures Attributes(ws) == ParseFrom(data, off)
    decreases |data| - off
  {
    hide Unfinished, Pad4, OnWire;
    UnfinishedLists(data, off);
    if ParseFrom(data, off) == [] {
      ws, tail := [], data[off..];
    } else {
      var w := OneWritten(data, off);
      var next := NextOff(data, off);
      if next <= |data| {
        ws, tail := LaidOut(data, next);
      } else {
        ws, tail := [], [];
        NothingLeft();
      }
      assert data[off..] == OnWire(w) + (Laid(ws) + tail) == (OnWire(w) + Laid(ws)) + tail;
      ws := [w] + ws;
    }
  }

  lemma NothingLeft()
    ensures Unfinished([])
  {
  }

  lemma OneWritten(data: bytes, off: nat) returns (w: Written)
    requires off <= |data| && ParseFrom(data, off) != []
    ensures off + 4 + LengthAt(data, off) <= |data| && |w.attr.value| < 0x1_0000
    ensures w.attr == Attribute(TypeAt(data, off), data[off + 4..off + 4 + LengthAt(data, off)])
    ensures |w.pad| <= Pad4(|w.attr.value|) && (NextOff(data, off) <= |data| ==> |w.pad| == Pad4(|w.attr.value|))
    ensures data[off..] == OnWire(w) + if NextOff(data, off) <= |data| then data[NextOff(data, off)..] else []
  {
    hide Be16, FromBe16, Pad4;
    var n := LengthAt(data, off);
    var value, end := data[off + 4..off + 4 + n], Min(NextOff(data, off), |data|);
    w := Written(Attribute(TypeAt(data, off), value), data[off + 4 + n..end]);
    Be16OfBytes(data[off], data[off + 1]);
    Be16OfBytes(data[off + 2], data[off + 3]);
    assert data[off..end] == [data[off], data[off + 1]] + [data[off + 2], data[off + 3]] + value + w.pad;
    assert data[off..] == data[off..end] + data[end..];
  }

  /** The walker, on every message: the attributes in front of the first that is cut short, however they are padded. */
  lemma ListIff(data: bytes, attrs: seq<Attribute>)
    requires IsStunPacket(data) && |data| >= 20
    ensures ParseAttributes(data) == attrs <==>
            exists ws, tail :: data[20..] == Laid(ws) + tail && Padded(ws, tail) && Unfinished(tail)
                               && attrs == Attributes(ws)
  {
    hide Laid, Padded, Unfinished, Attributes, ParseFrom;
    var ws, tail := LaidOut(data, 20);
    forall ws, tail | data[20..] == Laid(ws) + tail && Padded(ws, tail) && Unfinished(tail)
      ensures ParseFrom(data, 20) == Attributes(ws)
    {
      ListsLaid(data, 20, ws, tail);
    }
  }

  /** Anything else is not STUN: too short, or not zero in its first two bits. */
  lemma NotStunIff(data: bytes)
    ensures IsStunPacket(data) <==> |data| >= 2 && data[0] < 0x40
    ensures !IsStunPacket(data) || |data| < 20 ==> ParseAttributes(data) == []
  {
  }
}
