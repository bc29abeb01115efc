/** The hop-by-hop SRTP cipher: libsrtp's AES-ICM with its two-byte counter, and its
    agreement with the end-to-end cipher. */
module Hbh {
  import opened Bytes
  import opened Crypto
  import E2e

  type Key30 = b: bytes | |b| == 30 witness Zeros(30)

  datatype KeyingMaterial = KeyingMaterial(masterKey: Block, masterSalt: Salt)
  datatype SessionKeys = SessionKeys(sessionKey: Block, sessionSalt: Salt, authKey: Digest)

  function KeyingFromCryptoKey(cryptoKey: Key30): KeyingMaterial {
    KeyingMaterial(cryptoKey[0..16], cryptoKey[16..30])
  }

  // ---- AES-ICM ----

  function IcmByte(p: Primitives, key: Block, start: Block, i: nat): byte {
    p.aes(key, IcmBlock(start, i / 16))[i % 16]
  }

  /** Byte i is masked by byte i % 16 of the encryption of counter block i / 16, where
      only the last two bytes of the block count. */
  function IcmCrypt(p: Primitives, key30: Key30, iv: Block, data: bytes): (out: bytes)
    ensures |out| == |data|
  {
    var start: Block := XorSeq(key30[16..] + [0, 0], iv);
    seq(|data|, i requires 0 <= i < |data| => Xor(data[i], IcmByte(p, key30[..16], start, i)))
  }

  /** The counter starts as the zero-padded salt with the nonce folded in. */
  method LoadCounter(salt: Salt, iv: Block) returns (counter: array<byte>)
    ensures fresh(counter) && counter.Length == 16
    ensures counter[..] == XorSeq(salt + [0, 0], iv)
  {
    counter := new byte[16](_ => 0);
    for i := 0 to 14
      invariant forall k :: 0 <= k < 16 ==> counter[k] == if k < i then salt[k] else 0
    {
      counter[i] := salt[i];
    }
    assert counter[..] == salt + [0, 0];
    XorInto(counter, 0, iv);
  }

  /** Byte 15 counts up and carries into byte 14 only. */
  method StepCounter(counter: array<byte>, ghost start: Block, ghost j: nat)
    requires counter.Length == 16 && counter[..] == IcmBlock(start, j)
    modifies counter
    ensures counter[..] == IcmBlock(start, j + 1)
  {
    IcmBlockStep(start, j);
    counter[15] := IncByte(counter[15]);
    if counter[15] == 0 {
      counter[14] := IncByte(counter[14]);
    }
  }

  ghost predicate MaskedUpTo(p: Primitives, key: Block, start: Block, data: bytes, out: bytes, pos: nat) {
    |out| == |data|
    && forall k :: 0 <= k < |data| ==>
         out[k] == if k < pos then Xor(data[k], IcmByte(p, key, start, k)) else data[k]
  }

  lemma MaskedMore(p: Primitives, key: Block, start: Block, data: bytes, out: bytes, out': bytes, j: nat, n: nat)
    requires MaskedUpTo(p, key, start, data, out, 16 * j)
    requires n <= 16 && 16 * j + n <= |data|
    requires out' == XoredAt(out, 16 * j, p.aes(key, IcmBlock(start, j))[..n])
    ensures MaskedUpTo(p, key, start, data, out', 16 * j + n)
  {
    hide IcmByte, IcmBlock, Xor;
    forall k | 16 * j <= k < 16 * j + n
      ensures IcmByte(p, key, start, k) == p.aes(key, IcmBlock(start, j))[k - 16 * j]
    {
      ByteOfBlock(p, key, start, j, k);
    }
  }

  lemma ByteOfBlock(p: Primitives, key: Block, start: Block, j: nat, k: nat)
    requires 16 * j <= k < 16 * j + 16
    ensures IcmByte(p, key, start, k) == p.aes(key, IcmBlock(start, j))[k - 16 * j]
  {
    assert k / 16 == j && k % 16 == k - 16 * j;
  }

  lemma MaskedAll(p: Primitives, key30: Key30, iv: Block, start: Block, data: bytes, out: bytes)
    requires start == XorSeq(key30[16..] + [0, 0], iv)
    requires MaskedUpTo(p, key30[..16], start, data, out, |data|)
    ensures out == IcmCrypt(p, key30, iv, data)
  {
  }

  /** One block: encrypt the counter, fold it in, step the counter. */
  method CryptBlock(p: Primitives, key: Block, counter: array<byte>, out: array<byte>, pos: nat,
                    ghost start: Block, ghost data: bytes, ghost j: nat) returns (next: nat)
    requires counter != out && counter.Length == 16 && counter[..] == IcmBlock(start, j)
    requires pos == 16 * j < out.Length && MaskedUpTo(p, key, start, data, out[..], pos)
    modifies counter, out
    ensures counter[..] == IcmBlock(start, j + 1)
    ensures next == Min(16 * (j + 1), out.Length) && MaskedUpTo(p, key, start, data, out[..], next)
  {
    var ks := p.aes(key, counter[..]);
    var n := if out.Length - pos < 16 then out.Length - pos else 16;
    ghost var before := out[..];
    XorInto(out, pos, ks[..n]);
    MaskedMore(p, key, start, data, before, out[..], j, n);
    StepCounter(counter, start, j);
    next := pos + n;
  }

  /** Block by block; the last block may be short. */
  method AesIcmCrypt(p: Primitives, key30: Key30, iv: Block, data: bytes) returns (result: bytes)
    ensures result == IcmCrypt(p, key30, iv, data)
  {
    var counter := LoadCounter(key30[16..], iv);
    ghost var start: Block := counter[..];
    IcmBlockStart(start);
    var out := new byte[|data|](i requires 0 <= i < |data| => data[i]);
    var pos := 0;
    ghost var j := 0;
    while pos < out.Length
      invariant pos == Min(16 * j, out.Length)
      invariant counter[..] == IcmBlock(start, j)
      invariant MaskedUpTo(p, key30[..16], start, data, out[..], pos)
    {
      pos := CryptBlock(p, key30[..16], counter, out, pos, start, data, j);
      j := j + 1;
    }
    result := out[..];
    MaskedAll(p, key30, iv, start, data, result);
  }

  lemma IcmBlockStart(start: Block)
    ensures IcmBlock(start, 0) == start
  {
    assert start == HighPart(start) + [start[14], start[15]];
  }

  lemma IcmBlockStep(start: Block, j: nat)
    ensures var c, c' := IcmBlock(start, j), IcmBlock(start, j + 1);
            c'[..14] == c[..14] && c'[15] == IncByte(c[15])
            && c'[14] == if c'[15] == 0 then IncByte(c[14]) else c[14]
  {
    NextLow16(LowCounter(start) + j);
  }

  lemma NextLow16(n: nat)
    ensures var b, b' := Be16(n % 0x1_0000), Be16((n + 1) % 0x1_0000);
            b'[1] == IncByte(b[1]) && b'[0] == if b'[1] == 0 then IncByte(b[0]) else b[0]
  {
    var m := n % 0x1_0000;
    assert (n + 1) % 0x1_0000 == if m == 0xFFFF then 0 else m + 1;
    var hi, lo := m / 0x100, m % 0x100;
    assert m == hi * 0x100 + lo;
    if lo < 0xFF {
      assert (m + 1) / 0x100 == hi && (m + 1) % 0x100 == lo + 1;
    } else if hi < 0xFF {
      assert m + 1 == (hi + 1) * 0x100;
    }
  }

  /** While the 16-bit counter does not wrap, AES-ICM is plain counter mode. */
  lemma IcmIsCounterMode(p: Primitives, key: Block, salt: Salt, iv: Block, data: bytes, start: Block)
    requires start == XorSeq(salt + [0, 0], iv)
    requires LowCounter(start) == 0 && |data| <= 0x10_0000
    ensures IcmCrypt(p, key + salt, iv, data) == CtrCrypt(p, key, start, data)
  {
    assert (key + salt)[..16] == key && (key + salt)[16..] == salt;
    forall i | 0 <= i < |data|
      ensures IcmByte(p, key, start, i) == KeystreamByte(p, key, start, i)
    {
      CountersAgreeIff(start, i / 16, i / 16);
    }
  }

  // ---- Session keys and payloads ----

  function DeriveSessionBytes(p: Primitives, masterKey: Block, masterSalt: Salt, purpose: byte,
      length: nat): (out: bytes)
    ensures |out| == length
  {
    IcmCrypt(p, masterKey + masterSalt, Zeros(16)[7 := purpose], Zeros(length))
  }

  function ExpandSessionKeys(p: Primitives, k: KeyingMaterial): SessionKeys {
    SessionKeys(DeriveSessionBytes(p, k.masterKey, k.masterSalt, 0, 16),
                DeriveSessionBytes(p, k.masterKey, k.masterSalt, 2, 14),
                DeriveSessionBytes(p, k.masterKey, k.masterSalt, 1, 20))
  }

  function Be64(n: uint64): (r: bytes)
    ensures |r| == 8
  {
    Be32(n / 0x1_0000_0000) + Be32(n % 0x1_0000_0000)
  }

  /** The packet index shifted left by 16 in 64 bits; what leaves the top is lost. */
  function RtpIcmNonce(ssrc: uint32, packetIndex: uint64): Block {
    Zeros(4) + Be32(ssrc) + Be64(packetIndex * 0x1_0000 % 0x1_0000_0000_0000_0000)
  }

  function CryptRtpPayload(p: Primitives, k: SessionKeys, ssrc: uint32, packetIndex: uint64,
      payload: bytes): (out: bytes)
    ensures |out| == |payload|
  {
    IcmCrypt(p, k.sessionKey + k.sessionSalt, RtpIcmNonce(ssrc, packetIndex), payload)
  }

  lemma NonceIsPacketMask(ssrc: uint32, roc: uint32, sn: uint16, index: uint64)
    requires index == roc * 0x1_0000 + sn
    ensures RtpIcmNonce(ssrc, index) == E2e.PacketMask(ssrc, roc, sn)
  {
    ShiftedIndex(roc, sn, index * 0x1_0000);
    var tail := [0, 0];
    assert Be32(sn * 0x1_0000) == Be16(sn) + tail;
    assert Be32(roc) + (Be16(sn) + tail) == Be32(roc) + Be16(sn) + tail;
  }

  lemma ShiftedIndex(roc: uint32, sn: uint16, x: nat)
    requires x == (roc * 0x1_0000 + sn) * 0x1_0000
    ensures x % 0x1_0000_0000_0000_0000 == x
    ensures x / 0x1_0000_0000 == roc && x % 0x1_0000_0000 == sn * 0x1_0000
  {
    assert x == roc * 0x1_0000_0000 + sn * 0x1_0000;
  }

  /** The two key expansions produce the same session keys from the same master. */
  lemma ExpansionsAgree(p: Primitives, master: Master)
    ensures var e, h := E2e.DeriveSessionKeys(p, master), ExpandSessionKeys(p, KeyingFromCryptoKey(master[..30]));
            h.sessionKey == e.cipherKey && h.sessionSalt == e.salt && h.authKey == e.authKey
  {
    var key, salt := master[..16], master[16..30];
    assert KeyingFromCryptoKey(master[..30]) == KeyingMaterial(key, salt);
    SessionBytesAgree(p, key, salt, 0, 16);
    SessionBytesAgree(p, key, salt, 1, 20);
    SessionBytesAgree(p, key, salt, 2, 14);
  }

  lemma StartFacts(salt: Salt, purpose: byte)
    ensures E2e.KdfStart(salt, purpose) == XorSeq(salt + [0, 0], Zeros(16)[7 := purpose])
    ensures LowCounter(E2e.KdfStart(salt, purpose)) == 0
  {
    hide BigEndian, Xor;
    E2e.LabelPlaced(purpose);
    XorZero(0);
    assert XorSeq(salt + [0, 0], Zeros(16)[7 := purpose]) == E2e.KdfStart(salt, purpose);
  }

  lemma DeriveForm(p: Primitives, key: Block, salt: Salt, purpose: byte, length: nat)
    ensures DeriveSessionBytes(p, key, salt, purpose, length)
            == IcmCrypt(p, key + salt, Zeros(16)[7 := purpose], Zeros(length))
  {
    hide IcmCrypt;
  }

  lemma SessionBytesAgree(p: Primitives, key: Block, salt: Salt, purpose: byte, length: nat)
    requires length <= 0x10_0000
    ensures DeriveSessionBytes(p, key, salt, purpose, length) == E2e.AesCmKdf(p, key, salt, purpose, length)
  {
    hide *;
    StartFacts(salt, purpose);
    DeriveForm(p, key, salt, purpose, length);
    E2e.KdfIsStandard(p, key, salt, purpose, length);
    IcmIsCounterMode(p, key, salt, Zeros(16)[7 := purpose], Zeros(length), E2e.KdfStart(salt, purpose));
  }

  /** The hop-by-hop keys with the end-to-end cipher's key and salt. */
  function SameKeys(e: E2e.E2eKeys): SessionKeys {
    SessionKeys(e.cipherKey, e.salt, e.authKey)
  }

  lemma HopStart(salt: Salt, ssrc: uint32, roc: uint32, sn: uint16, index: uint64)
    requires index == roc * 0x1_0000 + sn
    ensures XorSeq(salt + [0, 0], RtpIcmNonce(ssrc, index)) == E2e.RtpIv(salt, ssrc, roc, sn)
  {
    NonceIsPacketMask(ssrc, roc, sn, index);
    assert Zeros(0) + salt + [0, 0] == salt + [0, 0];
  }

  /** Same key, salt, SSRC and index: the same bytes, up to 2^20 of them. */
  lemma CiphersAgree(p: Primitives, e: E2e.E2eKeys, ssrc: uint32, roc: uint32, sn: uint16, index: uint64,
      payload: bytes)
    requires index == roc * 0x1_0000 + sn && |payload| <= 0x10_0000
    ensures CryptRtpPayload(p, SameKeys(e), ssrc, index, payload) == E2e.CryptPayload(p, e, ssrc, sn, roc, payload)
  {
    HopStart(e.salt, ssrc, roc, sn, index);
    E2e.RtpIvLowCounter(e.salt, ssrc, roc, sn);
    IcmIsCounterMode(p, e.cipherKey, e.salt, RtpIcmNonce(ssrc, index), payload, E2e.RtpIv(e.salt, ssrc, roc, sn));
  }

  /** Past 2^20 bytes some block cipher tells the two counter modes apart. */
  lemma CounterModesDiffer(p: Primitives, key: Block, salt: Salt, iv: Block, data: bytes, start: Block)
    requires start == XorSeq(salt + [0, 0], iv)
    requires LowCounter(start) == 0 && |data| > 0x10_0000
    requires p == Marking(CounterBlock(start, 0x1_0000))
    ensures IcmCrypt(p, key + salt, iv, data) != CtrCrypt(p, key, start, data)
  {
    assert (key + salt)[..16] == key && (key + salt)[16..] == salt;
    var i := 0x10_0000;
    CountersAgreeIff(start, i / 16, i / 16);
    assert KeystreamByte(p, key, start, i) == 1 && IcmByte(p, key, start, i) == 0;
    var icm, ctr := IcmCrypt(p, key + salt, iv, data), CtrCrypt(p, key, start, data);
    assert icm[i] == Xor(data[i], 0) && ctr[i] == Xor(data[i], 1);
    if icm[i] == ctr[i] {
      XorInjective(data[i], 0, 1);
    }
  }

  lemma CiphersDiffer(e: E2e.E2eKeys, ssrc: uint32, roc: uint32, sn: uint16, index: uint64,
      payload: bytes) returns (p: Primitives)
    requires index == roc * 0x1_0000 + sn && |payload| > 0x10_0000
    ensures CryptRtpPayload(p, SameKeys(e), ssrc, index, payload) != E2e.CryptPayload(p, e, ssrc, sn, roc, payload)
  {
    var start := E2e.RtpIv(e.salt, ssrc, roc, sn);
    p := Marking(CounterBlock(start, 0x1_0000));
    HopStart(e.salt, ssrc, roc, sn, index);
    E2e.RtpIvLowCounter(e.salt, ssrc, roc, sn);
    CounterModesDiffer(p, e.cipherKey, e.salt, RtpIcmNonce(ssrc, index), payload, start);
  }

  /** The bound is exact: the ciphers agree under every block cipher exactly up to 2^20 bytes. */
  lemma CiphersAgreeIff(e: E2e.E2eKeys, ssrc: uint32, roc: uint32, sn: uint16, index: uint64, payload: bytes)
    requires index == roc * 0x1_0000 + sn
    ensures (forall p :: CryptRtpPayload(p, SameKeys(e), ssrc, index, payload)
                         == E2e.CryptPayload(p, e, ssrc, sn, roc, payload))
            <==> |payload| <= 0x10_0000
  {
    if |payload| <= 0x10_0000 {
      forall p {
        CiphersAgree(p, e, ssrc, roc, sn, index, payload);
      }
    } else {
      var p := CiphersDiffer(e, ssrc, roc, sn, index, payload);
    }
  }
}
