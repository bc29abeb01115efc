/** The end-to-end SRTP cipher: session keys, the per-packet counter block and the
    two rollover-counter trackers. */
module E2e {
  import opened Bytes
  import opened Crypto

  datatype E2eKeys = E2eKeys(cipherKey: Block, salt: Salt, authKey: Digest)

  // ---- Session keys ----

  /** The AES-CM key derivation: keystream from the master salt with the label byte folded
      into byte 7. */
  function AesCmKdf(p: Primitives, masterKey: Block, masterSalt: Salt, purpose: byte, length: nat): (out: bytes)
    ensures |out| == length
  {
    var iv: Block := masterSalt[7 := Xor(masterSalt[7], purpose)] + [0, 0];
    CtrCrypt(p, masterKey, iv, Zeros(length))
  }

  function DeriveSessionKeys(p: Primitives, master: Master): E2eKeys {
    var key, salt := master[..16], master[16..30];
    E2eKeys(AesCmKdf(p, key, salt, 0, 16), AesCmKdf(p, key, salt, 2, 14), AesCmKdf(p, key, salt, 1, 20))
  }

  /** Keys of one participant; a call key below 32 bytes is refused. */
  function DeriveE2eKeys(p: Primitives, callKey: bytes, lid: string): Option<E2eKeys> {
    if |callKey| < 32 then None
    else Some(DeriveSessionKeys(p, p.hkdf46(Zeros(32), callKey[..32], lid)))
  }

  /** Section 4.3.1 of RFC 3711: counting starts at (salt XOR label * 2^48) * 2^16. */
  function KdfStart(salt: Salt, purpose: byte): Block {
    XorSeq(salt, BigEndian(purpose * 0x1_0000_0000_0000, 14)) + [0, 0]
  }

  lemma {:induction false} BigEndianOfZero(w: nat)
    ensures BigEndian(0, w) == Zeros(w)
  {
    if w > 0 {
      BigEndianOfZero(w - 1);
    }
  }

  lemma {:induction false} BigEndianShifted(b: byte, w: nat, k: nat)
    requires w >= 1
    ensures BigEndian(b * Pow256(k), w + k) == Zeros(w - 1) + [b] + Zeros(k)
    decreases k
  {
    if k == 0 {
      BigEndianOfZero(w - 1);
      assert b * Pow256(0) == b && Zeros(0) == [];
      assert BigEndian(b, w) == BigEndian(0, w - 1) + [b];
    } else {
      BigEndianShifted(b, w, k - 1);
      var n := b * Pow256(k - 1);
      assert b * Pow256(k) == 256 * n;
      assert 256 * n / 256 == n && 256 * n % 256 == 0;
      assert Zeros(k) == Zeros(k - 1) + [0];
    }
  }

  lemma LabelPlaced(purpose: byte)
    ensures BigEndian(purpose * 0x1_0000_0000_0000, 14) == Zeros(14)[7 := purpose]
  {
    assert Pow256(6) == 0x1_0000_0000_0000;
    BigEndianShifted(purpose, 8, 6);
    assert Zeros(7) + [purpose] + Zeros(6) == Zeros(14)[7 := purpose];
  }

  /** The derivation is AES in counter mode from that block. */
  lemma KdfIsStandard(p: Primitives, key: Block, salt: Salt, purpose: byte, length: nat)
    ensures AesCmKdf(p, key, salt, purpose, length) == CtrCrypt(p, key, KdfStart(salt, purpose), Zeros(length))
  {
    hide CtrCrypt, BigEndian, Xor;
    LabelPlaced(purpose);
    var iv := salt[7 := Xor(salt[7], purpose)] + [0, 0];
    forall k | 0 <= k < 16 ensures iv[k] == KdfStart(salt, purpose)[k] {
      if k < 14 {
        XorZero(salt[k]);
      }
    }
    assert iv == KdfStart(salt, purpose);
  }

  /** Section 4.3.2 of RFC 3711 on the HKDF output of the first 32 bytes of the call key: master key
      and salt in front, label 0 for the cipher key, 1 for authentication, 2 for the salt. */
  lemma KeysAreStandard(p: Primitives, callKey: bytes, lid: string)
    requires |callKey| >= 32
    ensures var m := p.hkdf46(Zeros(32), callKey[..32], lid);
            DeriveE2eKeys(p, callKey, lid)
            == Some(E2eKeys(CtrCrypt(p, m[..16], KdfStart(m[16..30], 0), Zeros(16)),
                            CtrCrypt(p, m[..16], KdfStart(m[16..30], 2), Zeros(14)),
                            CtrCrypt(p, m[..16], KdfStart(m[16..30], 1), Zeros(20))))
  {
    hide AesCmKdf, CtrCrypt, KdfStart;
    var m := p.hkdf46(Zeros(32), callKey[..32], lid);
    KdfIsStandard(p, m[..16], m[16..30], 0, 16);
    KdfIsStandard(p, m[..16], m[16..30], 1, 20);
    KdfIsStandard(p, m[..16], m[16..30], 2, 14);
  }

  // ---- The counter block of a packet ----

  /** Section 4.1.1 of RFC 3711: (salt * 2^16) XOR (SSRC * 2^64) XOR (index * 2^16),
      where index = 2^16 * roc + sn. */
  function RtpIv(salt: bytes, ssrc: uint32, roc: uint32, sn: uint16): (iv: Block)
    requires |salt| <= 14
  {
    XorSeq(Zeros(14 - |salt|) + salt + [0, 0], PacketMask(ssrc, roc, sn))
  }

  function PacketMask(ssrc: uint32, roc: uint32, sn: uint16): (m: Block) {
    Zeros(4) + Be32(ssrc) + Be32(roc) + Be16(sn) + [0, 0]
  }

  /** Fills the block in place: salt first, then SSRC and the 48-bit index folded in. */
  method BuildE2eRtpIV(salt: bytes, ssrc: uint32, roc: uint32, sn: uint16) returns (iv: Block)
    requires |salt| <= 14
    ensures iv == RtpIv(salt, ssrc, roc, sn)
  {
    hide Xor, XorSeq, XoredAt, PacketMask, Be16, Be32;
    var a := new byte[16](_ => 0);
    var off := 14 - |salt|;
    for i := 0 to |salt|
      invariant forall k :: 0 <= k < 16 ==> a[k] == if off <= k < off + i then salt[k - off] else 0
    {
      a[off + i] := salt[i];
    }
    ghost var padded := Zeros(14 - |salt|) + salt + [0, 0];
    assert a[..] == padded;
    XorInto(a, 4, Be32(ssrc));
    var packetIndex := roc * 0x1_0000 + sn;
    var hi16 := packetIndex / 0x1_0000_0000 % 0x1_0000;
    var lo32 := packetIndex % 0x1_0000_0000;
    XorInto(a, 8, Be16(hi16));
    XorInto(a, 10, Be32(lo32));
    iv := a[..];
    IndexBytes(roc, sn, hi16, lo32);
    SpelledOut(padded, ssrc, roc, sn, hi16, lo32);
  }

  lemma SpelledOut(padded: Block, ssrc: uint32, roc: uint32, sn: uint16, hi: uint16, lo: uint32)
    requires Be16(hi) + Be32(lo) == Be32(roc) + Be16(sn)
    ensures XoredAt(XoredAt(XoredAt(padded, 4, Be32(ssrc)), 8, Be16(hi)), 10, Be32(lo))
            == XorSeq(padded, PacketMask(ssrc, roc, sn))
  {
    var mask := PacketMask(ssrc, roc, sn);
    var index := Be16(hi) + Be32(lo);
    assert mask == Zeros(4) + Be32(ssrc) + index + [0, 0];
    forall k | 0 <= k < 16
      ensures XoredAt(XoredAt(XoredAt(padded, 4, Be32(ssrc)), 8, Be16(hi)), 10, Be32(lo))[k] == Xor(padded[k], mask[k])
    {
      XorZero(padded[k]);
    }
  }

  /** The index split as 16 + 32 bits spells the rollover counter and the sequence number. */
  lemma IndexBytes(roc: uint32, sn: uint16, hi: uint16, lo: uint32)
    requires var i := roc * 0x1_0000 + sn;
             hi == i / 0x1_0000_0000 % 0x1_0000 && lo == i % 0x1_0000_0000
    ensures Be16(hi) + Be32(lo) == Be32(roc) + Be16(sn)
  {
    var high, low := roc / 0x1_0000, roc % 0x1_0000;
    IndexHalves(high, low, sn, roc, hi, lo);
    HalvesBytes(low, sn, lo);
    HalvesBytes(high, low, roc);
    assert Be16(high) + (Be16(low) + Be16(sn)) == (Be16(high) + Be16(low)) + Be16(sn);
  }

  lemma IndexHalves(high: uint16, low: uint16, sn: uint16, roc: uint32, hi: uint16, lo: uint32)
    requires roc == high * 0x1_0000 + low
    requires var i := roc * 0x1_0000 + sn;
             hi == i / 0x1_0000_0000 % 0x1_0000 && lo == i % 0x1_0000_0000
    ensures hi == high && lo == low * 0x1_0000 + sn
  {
    var i := roc * 0x1_0000 + sn;
    assert i == high * 0x1_0000_0000 + (low * 0x1_0000 + sn);
  }

  lemma HalvesBytes(low: uint16, sn: uint16, lo: uint32)
    requires lo == low * 0x1_0000 + sn
    ensures Be32(lo) == Be16(low) + Be16(sn)
  {
    var a, b := low / 0x100, low % 0x100;
    assert lo == a * 0x100_0000 + (b * 0x1_0000 + sn);
    assert lo / 0x1_0000 == low;
    assert lo / 0x100 == low * 0x100 + sn / 0x100;
  }

  lemma AppendedNumbers(a: bytes, n: uint16, m: uint32)
    ensures FromBigEndian(a + Be16(n)) == 0x1_0000 * FromBigEndian(a) + n
    ensures FromBigEndian(a + Be32(m)) == 0x1_0000_0000 * FromBigEndian(a) + m
  {
    var hi, lo := m / 0x1_0000, m % 0x1_0000;
    AppendedShort(a, n);
    HalvesBytes(hi, lo, m);
    AppendedShort(a, hi);
    AppendedShort(a + Be16(hi), lo);
    assert a + Be32(m) == a + Be16(hi) + Be16(lo);
  }

  lemma AppendedShort(a: bytes, n: uint16)
    ensures FromBigEndian(a + Be16(n)) == 0x1_0000 * FromBigEndian(a) + n
  {
    hide FromBigEndian;
    FromBigEndianTwo(a, n / 0x100, n % 0x100);
    Be16Inverts(n);
    assert a + Be16(n) == a + [n / 0x100] + [n % 0x100];
  }

  lemma {:induction false} ZerosAreZero(n: nat)
    ensures FromBigEndian(Zeros(n)) == 0
  {
    if n > 0 {
      ZerosAreZero(n - 1);
      assert Zeros(n)[..n - 1] == Zeros(n - 1);
    }
  }

  /** Section 4.1.1 of RFC 3711 as arithmetic: the mask is the number SSRC * 2^64 + index * 2^16,
      where index = 2^16 * roc + sn. */
  lemma PacketMaskNumber(ssrc: uint32, roc: uint32, sn: uint16)
    ensures FromBigEndian(PacketMask(ssrc, roc, sn))
            == ssrc * 0x1_0000_0000_0000_0000 + (roc * 0x1_0000 + sn) * 0x1_0000
  {
    hide FromBigEndian, Be16, Be32;
    var a := Zeros(4) + Be32(ssrc);
    var b := a + Be32(roc);
    var c := b + Be16(sn);
    ZerosAreZero(4);
    AppendedNumbers(Zeros(4), 0, ssrc);
    AppendedNumbers(a, 0, roc);
    AppendedNumbers(b, sn, 0);
    FromBigEndianTwo(c, 0, 0);
    assert PacketMask(ssrc, roc, sn) == c + [0] + [0];
  }

  lemma PacketMaskInjective(ssrc: uint32, roc: uint32, sn: uint16, ssrc': uint32, roc': uint32, sn': uint16)
    requires PacketMask(ssrc, roc, sn)[..14] == PacketMask(ssrc', roc', sn')[..14]
    ensures ssrc == ssrc' && roc == roc' && sn == sn'
  {
    var m, m' := PacketMask(ssrc, roc, sn)[..14], PacketMask(ssrc', roc', sn')[..14];
    assert m[4..8] == Be32(ssrc) && m[8..12] == Be32(roc) && m[12..14] == Be16(sn);
    assert m'[4..8] == Be32(ssrc') && m'[8..12] == Be32(roc') && m'[12..14] == Be16(sn');
    Be32Inverts(ssrc);
    Be32Inverts(ssrc');
    Be32Inverts(roc);
    Be32Inverts(roc');
    Be16Inverts(sn);
    Be16Inverts(sn');
  }

  lemma RtpIvLowCounter(salt: Salt, ssrc: uint32, roc: uint32, sn: uint16)
    ensures LowCounter(RtpIv(salt, ssrc, roc, sn)) == 0
  {
    XorZero(0);
  }

  /** Under one salt, different packets never share a counter block while payloads stay
      within 2^16 blocks (2^20 bytes). */
  lemma CounterBlocksDistinct(salt: Salt, ssrc: uint32, roc: uint32, sn: uint16, i: nat,
                              ssrc': uint32, roc': uint32, sn': uint16, j: nat)
    requires i < 0x1_0000 && j < 0x1_0000
    requires CounterBlock(RtpIv(salt, ssrc, roc, sn), i) == CounterBlock(RtpIv(salt, ssrc', roc', sn'), j)
    ensures ssrc == ssrc' && roc == roc' && sn == sn' && i == j
  {
    RtpIvLowCounter(salt, ssrc, roc, sn);
    RtpIvLowCounter(salt, ssrc', roc', sn');
    BlockParts(RtpIv(salt, ssrc, roc, sn), i, RtpIv(salt, ssrc', roc', sn'), j);
    var m, m' := PacketMask(ssrc, roc, sn)[..14], PacketMask(ssrc', roc', sn')[..14];
    RtpIvHighPart(salt, ssrc, roc, sn);
    RtpIvHighPart(salt, ssrc', roc', sn');
    XorSeqInjective(salt, m, m');
    PacketMaskInjective(ssrc, roc, sn, ssrc', roc', sn');
  }

  lemma RtpIvHighPart(salt: Salt, ssrc: uint32, roc: uint32, sn: uint16)
    ensures HighPart(RtpIv(salt, ssrc, roc, sn)) == XorSeq(salt, PacketMask(ssrc, roc, sn)[..14])
  {
    assert Zeros(0) + salt + [0, 0] == salt + [0, 0];
  }

  lemma BlockParts(c: Block, i: nat, c': Block, j: nat)
    requires LowCounter(c) == LowCounter(c') == 0 && i < 0x1_0000 && j < 0x1_0000
    requires CounterBlock(c, i) == CounterBlock(c', j)
    ensures HighPart(c) == HighPart(c') && i == j
  {
    CounterWithoutCarry(c, i, i);
    CounterWithoutCarry(c', j, j);
    var block := CounterBlock(c, i);
    assert block[..14] == HighPart(c) == HighPart(c');
    assert block[14..] == Be16(i) == Be16(j);
    Be16Inverts(i);
    Be16Inverts(j);
  }

  // ---- Payload encryption ----

  function CryptPayload(p: Primitives, keys: E2eKeys, ssrc: uint32, sn: uint16, roc: uint32,
      payload: bytes): (out: bytes)
    ensures |out| == |payload|
  {
    CtrCrypt(p, keys.cipherKey, RtpIv(keys.salt, ssrc, roc, sn), payload)
  }

  // ---- Send side ----

  datatype SendRoc = SendRoc(roc: uint32, lastSeq: uint16, initialized: bool)

  const NEW_SEND_ROC := SendRoc(0, 0, false)

  /** The tracker after seeing sn: the counter moves on exactly when sn falls more
      than 32768 below its predecessor. */
  function Advanced(t: SendRoc, sn: uint16): SendRoc {
    SendRoc(if t.initialized && t.lastSeq - sn > 0x8000 then (t.roc + 1) % 0x1_0000_0000 else t.roc, sn, true)
  }

  class RocTracker {
    var roc: uint32
    var lastSeq: uint16
    var initialized: bool

    function State(): SendRoc
      reads this
    {
      SendRoc(roc, lastSeq, initialized)
    }

    constructor ()
      ensures State() == NEW_SEND_ROC
    {
      roc, lastSeq, initialized := 0, 0, false;
    }

    method Advance(sn: uint16) returns (r: uint32)
      modifies this
      ensures State() == Advanced(old(State()), sn)
      ensures r == roc
    {
      if !initialized {
        lastSeq := sn;
        initialized := true;
        return roc;
      }
      if sn - lastSeq < -32768 {
        roc := (roc + 1) % 0x1_0000_0000;
      }
      lastSeq := sn;
      return roc;
    }
  }

  /** The tracker after the consecutive packet indices 1, 2, ..., n. */
  function AfterConsecutive(n: nat): SendRoc {
    if n == 0 then NEW_SEND_ROC else Advanced(AfterConsecutive(n - 1), n % 0x1_0000)
  }

  /** On a gapless run the tracker spells the 48-bit packet index. */
  lemma {:induction false} ConsecutiveRoc(n: nat)
    ensures n > 0 ==> AfterConsecutive(n) == SendRoc(n / 0x1_0000 % 0x1_0000_0000, n % 0x1_0000, true)
  {
    if n > 1 {
      ConsecutiveRoc(n - 1);
      NextIndex(n - 1);
      NextRoc((n - 1) / 0x1_0000);
    }
  }

  /** A tracker that spells index i. */
  function Spelling(i: nat): SendRoc {
    SendRoc(i / 0x1_0000 % 0x1_0000_0000, i % 0x1_0000, true)
  }

  /** A forward step of d is spelled out exactly when it is below 2^15 or does not wrap: a wrap is
      noticed when the sequence number falls by more than 32768, no sooner and no later. */
  lemma AdvanceExactIff(i: nat, d: nat)
    requires d < 0x1_0000
    ensures Advanced(Spelling(i), (i + d) % 0x1_0000) == Spelling(i + d)
            <==> d < 0x8000 || i % 0x1_0000 + d < 0x1_0000
  {
    var r, sn := i / 0x1_0000, i % 0x1_0000;
    NextRoc(r);
    if sn + d < 0x1_0000 {
      assert (i + d) / 0x1_0000 == r && (i + d) % 0x1_0000 == sn + d;
    } else {
      assert (i + d) / 0x1_0000 == r + 1 && (i + d) % 0x1_0000 == sn + d - 0x1_0000;
      assert (r + 1) % 0x1_0000_0000 != r % 0x1_0000_0000;
    }
  }

  /** A step backwards by at most 2^15 within one turn of the sequence space keeps the counter. */
  lemma AdvanceKeeps(t: SendRoc, sn: uint16)
    requires t.initialized && t.lastSeq - 0x8000 <= sn
    ensures Advanced(t, sn) == SendRoc(t.roc, sn, true)
  {
  }

  lemma NextRoc(r: nat)
    ensures (r % 0x1_0000_0000 + 1) % 0x1_0000_0000 == (r + 1) % 0x1_0000_0000
  {
  }

  lemma NextIndex(m: nat)
    ensures m % 0x1_0000 == 0xFFFF ==> (m + 1) % 0x1_0000 == 0 && (m + 1) / 0x1_0000 == m / 0x1_0000 + 1
    ensures m % 0x1_0000 != 0xFFFF ==> (m + 1) % 0x1_0000 == m % 0x1_0000 + 1 && (m + 1) / 0x1_0000 == m / 0x1_0000
  {
  }

  // ---- Receive side ----

  datatype RecvRoc = RecvRoc(roc: uint32, sL: uint16, initialized: bool)

  const NEW_RECV_ROC := RecvRoc(0, 0, false)

  /** Highest index folded in so far. */
  function Highest(t: RecvRoc): (h: nat)
    ensures h < 0x1_0000_0000_0000
  {
    t.roc * 0x1_0000 + t.sL
  }

  /** The rollover counter of an index, modulo 2^32, and its sequence number. */
  function IndexRoc(i: int): uint32 {
    i % 0x1_0000_0000_0000 / 0x1_0000
  }

  function IndexSn(i: int): uint16 {
    i % 0x1_0000_0000_0000 % 0x1_0000
  }

  /** Section 3.3.1 of RFC 3711: of the numbers congruent to sn, the one nearest to h.
      At distance exactly 2^15 two are nearest; the upper one is taken when the low half
      of h is below 2^15, the lower one otherwise. May be negative near the origin. */
  function NearestIndex(h: nat, sn: uint16): (i: int)
    ensures i % 0x1_0000 == sn
    ensures -0x8000 <= i - h <= 0x8000
  {
    var d := (sn - h) % 0x1_0000;
    if d < 0x8000 || (d == 0x8000 && h % 0x1_0000 < 0x8000) then h + d else h + d - 0x1_0000
  }

  /** The state after sn, and the guessed rollover counter (both modulo 2^32). */
  function Guessed(t: RecvRoc, sn: uint16): (RecvRoc, uint32) {
    if !t.initialized then (RecvRoc(t.roc, sn, true), t.roc)
    else
      var i := NearestIndex(Highest(t), sn);
      var top := Max(Highest(t), i);
      (RecvRoc(IndexRoc(top), IndexSn(top), true), IndexRoc(i))
  }

  /** A 48-bit index splits into its parts modulo 2^32 and 2^16. */
  lemma IndexParts(r: int, sn: uint16)
    ensures IndexRoc(r * 0x1_0000 + sn) == r % 0x1_0000_0000
    ensures IndexSn(r * 0x1_0000 + sn) == sn
  {
    var q, d := r / 0x1_0000_0000, r % 0x1_0000_0000;
    assert r * 0x1_0000 + sn == q * 0x1_0000_0000_0000 + (d * 0x1_0000 + sn);
  }

  /** Where the nearest index falls, by the halves of the sequence space. */
  lemma BranchesNearest(roc: uint32, sL: uint16, sn: uint16)
    ensures NearestIndex(roc * 0x1_0000 + sL, sn)
            == (if sL < 0x8000 && sn - sL > 0x8000 then roc - 1
                else if sL >= 0x8000 && sL - sn > 0x8000 then roc + 1
                else roc) * 0x1_0000 + sn
  {
    var h := roc * 0x1_0000 + sL;
    assert (sn - h) % 0x1_0000 == if sn >= sL then sn - sL else sn - sL + 0x1_0000;
    assert h % 0x1_0000 == sL;
  }

  lemma GuessedFrom(t: RecvRoc, sn: uint16, r: int)
    requires t.initialized && NearestIndex(Highest(t), sn) == r * 0x1_0000 + sn
    ensures Guessed(t, sn) == (if r * 0x1_0000 + sn > Highest(t) then RecvRoc(r % 0x1_0000_0000, sn, true) else t,
                               r % 0x1_0000_0000)
  {
    hide NearestIndex, IndexRoc, IndexSn;
    IndexParts(r, sn);
    IndexParts(t.roc, t.sL);
    assert t == RecvRoc(IndexRoc(Highest(t)), IndexSn(Highest(t)), true);
  }

  lemma GuessedByBranch(roc: uint32, sL: uint16, sn: uint16)
    ensures Guessed(RecvRoc(roc, sL, true), sn)
            == if sL < 0x8000 && sn - sL > 0x8000 then
                 (RecvRoc(roc, sL, true), (roc - 1) % 0x1_0000_0000)
               else if sL >= 0x8000 && sL - sn > 0x8000 then
                 (RecvRoc((roc + 1) % 0x1_0000_0000, sn, true), (roc + 1) % 0x1_0000_0000)
               else
                 (RecvRoc(roc, Max(sL, sn), true), roc)
  {
    hide NearestIndex, Guessed;
    var t := RecvRoc(roc, sL, true);
    BranchesNearest(roc, sL, sn);
    if sL < 0x8000 && sn - sL > 0x8000 {
      GuessedFrom(t, sn, roc - 1);
    } else if sL >= 0x8000 && sL - sn > 0x8000 {
      GuessedFrom(t, sn, roc + 1);
    } else {
      GuessedFrom(t, sn, roc);
    }
  }

  lemma GuessedSeed(t: RecvRoc, sn: uint16)
    requires !t.initialized
    ensures Guessed(t, sn) == (RecvRoc(t.roc, sn, true), t.roc)
  {
  }

  class RecvRocTracker {
    var roc: uint32
    var sL: uint16
    var initialized: bool

    function State(): RecvRoc
      reads this
    {
      RecvRoc(roc, sL, initialized)
    }

    constructor ()
      ensures State() == NEW_RECV_ROC
    {
      roc, sL, initialized := 0, 0, false;
    }

    /** The branching estimator, with uint32 wrap-around, finds the nearest index. */
    method GuessRoc(sn: uint16) returns (v: uint32)
      modifies this
      ensures (State(), v) == Guessed(old(State()), sn)
    {
      hide Guessed, NearestIndex;
      if !initialized {
        GuessedSeed(State(), sn);
        sL := sn;
        initialized := true;
        return roc;
      }
      GuessedByBranch(roc, sL, sn);
      if sL < 0x8000 {
        v := if sn - sL > 0x8000 then (roc - 1) % 0x1_0000_0000 else roc;
      } else if sL - sn > 0x8000 {
        v := (roc + 1) % 0x1_0000_0000;
      } else {
        v := roc;
      }
      if v == roc {
        if sn > sL {
          sL := sn;
        }
      } else if v == (roc + 1) % 0x1_0000_0000 {
        roc := v;
        sL := sn;
      }
    }
  }

  /** Index i lies within 2^15 of h, or at distance 2^15 on the side ties are broken towards. */
  predicate InGuessWindow(h: nat, i: int) {
    || -0x8000 < i - h < 0x8000
    || (i - h == 0x8000 && h % 0x1_0000 < 0x8000)
    || (i - h == -0x8000 && h % 0x1_0000 >= 0x8000)
  }

  /** The guess is the true index i (modulo 2^48) exactly when i lies in that window. */
  lemma GuessExactIff(h: nat, i: int)
    requires -0x8000_0000_0000 < i - h < 0x8000_0000_0000
    ensures NearestIndex(h, i % 0x1_0000) % 0x1_0000_0000_0000 == i % 0x1_0000_0000_0000 <==> InGuessWindow(h, i)
  {
    var g := NearestIndex(h, i % 0x1_0000);
    if g % 0x1_0000_0000_0000 == i % 0x1_0000_0000_0000 {
      assert g == i;
    }
  }

  /** A tracker that follows an unbounded run: its state is the highest index, modulo 2^48. */
  ghost predicate Tracks(t: RecvRoc, h: nat) {
    t.initialized && Highest(t) == h % 0x1_0000_0000_0000
  }

  /** Inside the window the guess is exact and the highest index becomes the maximum. */
  lemma GuessInWindow(t: RecvRoc, h: nat, i: nat)
    requires Tracks(t, h) && InGuessWindow(h, i)
    ensures Tracks(Guessed(t, i % 0x1_0000).0, Max(h, i))
    ensures Guessed(t, i % 0x1_0000).1 == i / 0x1_0000 % 0x1_0000_0000
  {
    var low, sn, k := Highest(t), i % 0x1_0000, h / 0x1_0000_0000_0000;
    var j := i - k * 0x1_0000_0000_0000;
    assert h == k * 0x1_0000_0000_0000 + low;
    SameWindow(low, h, j, i, k);
    NearestIsUnique(low, j, sn);
    Reduced(i, j, k);
    Reduced(Max(h, i), Max(low, j), k);
  }

  lemma PartsSpellIndex(x: int)
    ensures IndexRoc(x) * 0x1_0000 + IndexSn(x) == x % 0x1_0000_0000_0000
  {
  }

  lemma RocSpellsIndex(x: int, y: int)
    requires x % 0x1_0000 == y % 0x1_0000
    ensures IndexRoc(x) == IndexRoc(y) <==> x % 0x1_0000_0000_0000 == y % 0x1_0000_0000_0000
  {
    hide IndexRoc, IndexSn;
    IndexParts(x / 0x1_0000, x % 0x1_0000);
    IndexParts(y / 0x1_0000, y % 0x1_0000);
    assert x / 0x1_0000 * 0x1_0000 + x % 0x1_0000 == x;
    assert y / 0x1_0000 * 0x1_0000 + y % 0x1_0000 == y;
    PartsSpellIndex(x);
    PartsSpellIndex(y);
  }

  /** A tracker at h guesses the counter of index i exactly when i lies in the window. */
  lemma GuessedRocIff(t: RecvRoc, h: nat, i: nat)
    requires Tracks(t, h) && -0x8000_0000_0000 < i - h < 0x8000_0000_0000
    ensures Guessed(t, i % 0x1_0000).1 == i / 0x1_0000 % 0x1_0000_0000 <==> InGuessWindow(h, i)
  {
    var low, sn, k := Highest(t), i % 0x1_0000, h / 0x1_0000_0000_0000;
    var j := i - k * 0x1_0000_0000_0000;
    assert h == k * 0x1_0000_0000_0000 + low;
    Reduced(i, j, k);
    SameWindow(low, h, j, i, k);
    GuessExactIff(low, j);
    RocSpellsIndex(NearestIndex(low, sn), j);
  }

  lemma SameLowHalf(a: int, b: int, m: int)
    requires a == 0x1_0000 * m + b
    ensures a % 0x1_0000 == b % 0x1_0000
  {
  }

  lemma SameWindow(low: nat, h: nat, j: int, i: nat, k: nat)
    requires h == k * 0x1_0000_0000_0000 + low && i == k * 0x1_0000_0000_0000 + j
    ensures InGuessWindow(low, j) <==> InGuessWindow(h, i)
    ensures j % 0x1_0000 == i % 0x1_0000
  {
    SameLowHalf(h, low, k * 0x1_0000_0000);
    SameLowHalf(i, j, k * 0x1_0000_0000);
  }

  /** The first packet seeds the tracker, with rollover counter 0. */
  lemma GuessFirst(i: nat)
    requires i < 0x1_0000
    ensures Tracks(Guessed(NEW_RECV_ROC, i).0, i) && Guessed(NEW_RECV_ROC, i).1 == 0
  {
  }

  lemma Reduced(i: nat, j: int, k: int)
    requires i == j + k * 0x1_0000_0000_0000
    ensures IndexRoc(j) == i / 0x1_0000 % 0x1_0000_0000
    ensures IndexRoc(j) * 0x1_0000 + IndexSn(j) == i % 0x1_0000_0000_0000
  {
    assert j % 0x1_0000_0000_0000 == i % 0x1_0000_0000_0000;
    IndexParts(i / 0x1_0000, i % 0x1_0000);
  }

  lemma NearestIsUnique(h: nat, i: int, sn: uint16)
    requires i % 0x1_0000 == sn && InGuessWindow(h, i)
    ensures NearestIndex(h, sn) == i
  {
  }

  /** On any input sequence the highest index only moves forward, by at most 2^15. */
  lemma HighestNeverRetreats(t: RecvRoc, sn: uint16)
    requires t.initialized
    ensures (Highest(Guessed(t, sn).0) - Highest(t)) % 0x1_0000_0000_0000 <= 0x8000
  {
    var h := Highest(t);
    var step := Max(h, NearestIndex(h, sn)) - h;
    SmallStep(h, step);
  }

  lemma SmallStep(h: nat, step: nat)
    requires h < 0x1_0000_0000_0000 && step <= 0x8000
    ensures var top := (h + step) % 0x1_0000_0000_0000;
            (top - h) % 0x1_0000_0000_0000 == step
            && IndexRoc(h + step) * 0x1_0000 + IndexSn(h + step) == top
  {
  }
}
