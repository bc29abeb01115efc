/** The cryptographic primitives, as arbitrary functions of the right types, and the
    two counter modes built on the AES block. Every result holds for all primitives. */
module Crypto {
  import opened Bytes

  type Block = b: bytes | |b| == 16 witness Zeros(16)
  type Salt = b: bytes | |b| == 14 witness Zeros(14)
  type Digest = b: bytes | |b| == 20 witness Zeros(20)
  type Master = b: bytes | |b| == 46 witness Zeros(46)
  type Key32 = b: bytes | |b| == 32 witness Zeros(32)

  datatype Primitives = Primitives(
    aes: (Block, Block) -> Block,              // key, block
    hmacSha1: (bytes, bytes) -> Digest,        // key, message
    hkdf46: (bytes, bytes, string) -> Master,  // salt, input key, info
    hkdf32: (bytes, bytes, string) -> Key32
  )

  /** A block cipher that tells one block from all others. */
  function Marking(mark: Block): Primitives {
    Primitives((k: Block, b: Block) => if b == mark then Zeros(16)[0 := 1] else Zeros(16),
               (k, m) => Zeros(20), (s, k, i) => Zeros(46), (s, k, i) => Zeros(32))
  }

  // ---- Numbers behind the counters ----

  function Pow256(n: nat): (p: nat)
    ensures p >= 1
  {
    if n == 0 then 1 else 256 * Pow256(n - 1)
  }

  lemma ModulusDecomposes(n: nat, m: nat, p: nat)
    requires p >= 1
    ensures 256 * (n % p) + m % 256 == (256 * n + m % 256) % (256 * p)
  {
    var q, r := n / p, n % p;
    assert n == q * p + r;
    assert 256 * n + m % 256 == q * (256 * p) + (256 * r + m % 256);
    var d := 256 * r + m % 256;
    assert 0 <= d < 256 * p;
    QuotientUnique(256 * n + m % 256, 256 * p, q, d);
  }

  /** A big-endian string of w digits holds the number modulo 256^w. */
  lemma {:induction false} BigEndianValue(n: nat, w: nat)
    ensures FromBigEndian(BigEndian(n, w)) == n % Pow256(w)
    decreases w
  {
    if w > 0 {
      BigEndianValue(n / 256, w - 1);
      FromBigEndianSnoc(BigEndian(n / 256, w - 1), n % 256);
      ModulusDecomposes(n / 256, n, Pow256(w - 1));
      assert 256 * (n / 256) + n % 256 == n;
    }
  }

  lemma {:induction false} FromBigEndianBound(b: bytes)
    ensures FromBigEndian(b) < Pow256(|b|)
    decreases |b|
  {
    if b != [] {
      FromBigEndianBound(b[..|b| - 1]);
    }
  }

  lemma BigEndianSplitsLow16(n: nat, w: nat)
    requires w >= 2
    ensures BigEndian(n, w) == BigEndian(n / 0x1_0000, w - 2) + Be16(n % 0x1_0000)
  {
    assert n / 256 / 256 == n / 0x1_0000;
    assert n / 256 % 256 == n % 0x1_0000 / 0x100;
    assert n % 256 == n % 0x1_0000 % 0x100;
    assert BigEndian(n / 256, w - 1) == BigEndian(n / 256 / 256, w - 2) + [n / 256 % 256];
  }

  // ---- 128-bit counter mode ----

  /** The counter block j steps after c: the bytes read as one number, plus j, modulo
      the block's range. */
  function CounterAfter(c: bytes, j: nat): (r: bytes)
    ensures |r| == |c|
  {
    BigEndian(FromBigEndian(c) + j, |c|)
  }

  function CounterBlock(iv: Block, j: nat): Block {
    CounterAfter(iv, j)
  }

  function KeystreamByte(p: Primitives, key: Block, iv: Block, i: nat): byte {
    p.aes(key, CounterBlock(iv, i / 16))[i % 16]
  }

  /** AES-CTR: byte i is masked by byte i % 16 of the encrypted counter block i / 16. */
  function CtrCrypt(p: Primitives, key: Block, iv: Block, data: bytes): (out: bytes)
    ensures |out| == |data|
  {
    seq(|data|, i requires 0 <= i < |data| =>
      Xor(data[i], KeystreamByte(p, key, iv, i)))
  }

  /** Encrypting twice under one key and counter gives the data back. */
  lemma CtrCryptInvolutive(p: Primitives, key: Block, iv: Block, data: bytes)
    ensures CtrCrypt(p, key, iv, CtrCrypt(p, key, iv, data)) == data
  {
    forall i | 0 <= i < |data|
      ensures CtrCrypt(p, key, iv, CtrCrypt(p, key, iv, data))[i] == data[i]
    {
      XorInvolutive(data[i], KeystreamByte(p, key, iv, i));
    }
  }

  // ---- The libsrtp counter: a 16-bit counter in the last two bytes ----

  function LowCounter(c: bytes): uint16
    requires |c| >= 2
  {
    FromBe16(c[|c| - 2], c[|c| - 1])
  }

  function HighPart(c: bytes): (r: bytes)
    requires |c| >= 2
    ensures |r| == |c| - 2
  {
    c[..|c| - 2]
  }

  function IcmAfter(c: bytes, j: nat): (r: bytes)
    requires |c| >= 2
    ensures |r| == |c|
  {
    HighPart(c) + Be16((LowCounter(c) + j) % 0x1_0000)
  }

  function IcmBlock(c: Block, j: nat): Block {
    IcmAfter(c, j)
  }

  lemma FromBigEndianTwo(h: bytes, x: byte, y: byte)
    ensures FromBigEndian(h + [x] + [y]) == 0x1_0000 * FromBigEndian(h) + FromBe16(x, y)
  {
    hide FromBigEndian;
    FromBigEndianSnoc(h, x);
    FromBigEndianSnoc(h + [x], y);
  }

  lemma CounterValue(c: bytes)
    requires |c| >= 2
    ensures FromBigEndian(c) == 0x1_0000 * FromBigEndian(HighPart(c)) + LowCounter(c)
  {
    hide FromBigEndian, FromBe16;
    FromBigEndianTwo(HighPart(c), c[|c| - 2], c[|c| - 1]);
    assert c == HighPart(c) + [c[|c| - 2]] + [c[|c| - 1]];
  }

  /** Adding to the counter adds to the low 16 bits and carries into the rest. */
  lemma CounterSplits(c: bytes, j: nat, v: nat, low: nat)
    requires |c| >= 2
    requires v == FromBigEndian(HighPart(c)) && low == LowCounter(c) + j
    ensures CounterAfter(c, j) == BigEndian(v + low / 0x1_0000, |c| - 2) + Be16(low % 0x1_0000)
  {
    CounterValue(c);
    SplitAboveLow16(FromBigEndian(c) + j, v, low, |c|);
  }

  lemma SplitAboveLow16(n: nat, v: nat, low: nat, w: nat)
    requires w >= 2 && n == 0x1_0000 * v + low
    ensures BigEndian(n, w) == BigEndian(v + low / 0x1_0000, w - 2) + Be16(low % 0x1_0000)
  {
    BigEndianSplitsLow16(n, w);
    assert n / 0x1_0000 == v + low / 0x1_0000 && n % 0x1_0000 == low % 0x1_0000;
  }

  /** Without a carry the rest of the block stays as it was. */
  lemma CounterWithoutCarry(c: bytes, j: nat, low: nat)
    requires |c| >= 2 && low == LowCounter(c) + j < 0x1_0000
    ensures CounterAfter(c, j) == HighPart(c) + Be16(low)
  {
    hide FromBigEndian, BigEndian, Be16, LowCounter;
    CounterSplits(c, j, FromBigEndian(HighPart(c)), low);
    BigEndianInverts(HighPart(c));
  }

  lemma CounterWithCarry(c: bytes, j: nat, v: nat, q: nat, low: nat)
    requires |c| >= 2 && v == FromBigEndian(HighPart(c)) && low == LowCounter(c) + j
    requires q == low / 0x1_0000 && 0 < q < Pow256(|c| - 2)
    ensures HighPart(CounterAfter(c, j)) != HighPart(c)
  {
    CounterSplits(c, j, v, low);
    HighMoves(HighPart(c), v, q);
    assert HighPart(CounterAfter(c, j)) == BigEndian(v + q, |HighPart(c)|);
  }

  lemma HighMoves(high: bytes, v: nat, q: nat)
    requires v == FromBigEndian(high) && 0 < q < Pow256(|high|)
    ensures BigEndian(v + q, |high|) != high
  {
    BigEndianInverts(high);
    FromBigEndianBound(high);
    ShiftVisible(v, q, |high|);
  }

  lemma ShiftVisible(v: nat, q: nat, w: nat)
    requires v < Pow256(w) && 0 < q < Pow256(w)
    ensures BigEndian(v + q, w) != BigEndian(v, w)
  {
    BigEndianValue(v, w);
    BigEndianValue(v + q, w);
    if BigEndian(v + q, w) == BigEndian(v, w) {
      SmallShiftVisible(v, q, Pow256(w));
    }
  }

  lemma SmallShiftVisible(v: nat, q: nat, p: nat)
    requires v < p && q < p && v % p == (v + q) % p
    ensures q == 0
  {
    QuotientUnique(v, p, 0, v);
    if v + q < p {
      QuotientUnique(v + q, p, 0, v + q);
    } else {
      QuotientUnique(v + q, p, 1, v + q - p);
    }
  }

  lemma Pow256Large(w: nat)
    requires w == 14
    ensures Pow256(w) > 0x8000_0000_0000_0000_0000
  {
    assert Pow256(6) == 0x1_0000_0000_0000;
    assert Pow256(10) == 0x1_0000_0000_0000_0000_0000;
  }

  /** The two counters agree exactly while the low 16 bits have not wrapped. */
  lemma CountersAgreeIff(c: Block, j: nat, low: nat)
    requires j < 0x8000_0000_0000_0000 && low == LowCounter(c) + j
    ensures IcmBlock(c, j) == CounterBlock(c, j) <==> low < 0x1_0000
  {
    hide FromBigEndian, BigEndian, Pow256, LowCounter, Be16, HighPart;
    if low < 0x1_0000 {
      CounterWithoutCarry(c, j, low);
    } else {
      Pow256Large(|c| - 2);
      CounterWithCarry(c, j, FromBigEndian(HighPart(c)), low / 0x1_0000, low);
      IcmKeepsHigh(c, j);
    }
  }

  lemma IcmKeepsHigh(c: Block, j: nat)
    ensures HighPart(IcmBlock(c, j)) == HighPart(c)
  {
  }
}
