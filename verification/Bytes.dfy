/** Bytes, fixed-width integers, exclusive-or and big-endian encodings.

    A byte is an integer, so masks and shifts by constants appear as division and
    remainder: b & 0x1F is b % 32, b & 0xE0 is b - b % 32, b >> 6 is b / 64. */
module Bytes {
  type byte = x: int | 0 <= x < 0x100
  type uint16 = x: int | 0 <= x < 0x1_0000
  type uint32 = x: int | 0 <= x < 0x1_0000_0000
  type uint64 = x: int | 0 <= x < 0x1_0000_0000_0000_0000
  type int32 = x: int | -0x8000_0000 <= x < 0x8000_0000
  type bytes = seq<byte>

  datatype Option<+T> = None | Some(value: T) {
    predicate IsFailure() {
      None?
    }

    function PropagateFailure<U>(): Option<U>
      requires None?
    {
      None
    }

    function Extract(): T
      requires Some?
    {
      value
    }
  }

  function Max(a: int, b: int): int {
    if a >= b then a else b
  }

  function Min(a: int, b: int): int {
    if a <= b then a else b
  }

  /** One more, with 8-bit wrap-around. */
  function IncByte(b: byte): byte {
    if b == 0xFF then 0 else b + 1
  }

  function Joined<T>(parts: seq<seq<T>>): seq<T> {
    if parts == [] then [] else parts[0] + Joined(parts[1..])
  }

  lemma QuotientUnique(x: int, p: int, q: int, d: int)
    requires 0 <= d < p && x == q * p + d
    ensures x % p == d
  {
    var k := x / p - q;
    assert x % p - d == -k * p;
    NonzeroMultiple(k, p);
  }

  lemma NonzeroMultiple(k: int, p: int)
    requires p >= 1
    ensures k >= 1 ==> k * p >= p
    ensures k <= -1 ==> k * p <= -p
  {
  }

  // ---- Exclusive or ----

  function Pow2(n: nat): (p: int)
    ensures p >= 1
  {
    if n == 0 then 1 else 2 * Pow2(n - 1)
  }

  /** The low n bits of a ^ b, bit by bit. */
  function XorBits(a: nat, b: nat, n: nat): (r: nat)
    ensures r < Pow2(n)
    decreases n
  {
    if n == 0 then 0 else (a % 2 + b % 2) % 2 + 2 * XorBits(a / 2, b / 2, n - 1)
  }

  function Xor(a: byte, b: byte): byte {
    assert Pow2(8) == 256;
    XorBits(a, b, 8)
  }

  lemma {:induction false} XorBitsInvolutive(a: nat, b: nat, n: nat)
    requires a < Pow2(n)
    ensures XorBits(XorBits(a, b, n), b, n) == a
    decreases n
  {
    if n > 0 {
      XorBitsInvolutive(a / 2, b / 2, n - 1);
      var high := XorBits(a / 2, b / 2, n - 1);
      ParityInvolutive(a, b, high);
    }
  }

  lemma ParityInvolutive(a: nat, b: nat, high: nat)
    ensures var r := (a % 2 + b % 2) % 2 + 2 * high;
            r / 2 == high && (r % 2 + b % 2) % 2 == a % 2
  {
  }

  lemma {:induction false} XorBitsZero(a: nat, n: nat)
    requires a < Pow2(n)
    ensures XorBits(a, 0, n) == a && XorBits(0, a, n) == a
    decreases n
  {
    if n > 0 {
      XorBitsZero(a / 2, n - 1);
    }
  }

  lemma {:induction false} XorBitsCommutes(a: nat, b: nat, n: nat)
    ensures XorBits(a, b, n) == XorBits(b, a, n)
    decreases n
  {
    if n > 0 {
      XorBitsCommutes(a / 2, b / 2, n - 1);
    }
  }

  /** Applying the same mask twice gives the byte back. */
  lemma XorInvolutive(a: byte, b: byte)
    ensures Xor(Xor(a, b), b) == a
  {
    assert Pow2(8) == 256;
    XorBitsInvolutive(a, b, 8);
  }

  lemma XorZero(a: byte)
    ensures Xor(a, 0) == a && Xor(0, a) == a
  {
    assert Pow2(8) == 256;
    XorBitsZero(a, 8);
  }

  lemma XorCommutes(a: byte, b: byte)
    ensures Xor(a, b) == Xor(b, a)
  {
    XorBitsCommutes(a, b, 8);
  }

  lemma XorInjective(a: byte, b: byte, c: byte)
    requires Xor(a, b) == Xor(a, c)
    ensures b == c
  {
    XorCommutes(a, b);
    XorCommutes(a, c);
    XorInvolutive(b, a);
    XorInvolutive(c, a);
  }

  /** Position-wise exclusive or of two equally long strings. */
  function XorSeq(a: bytes, b: bytes): (r: bytes)
    requires |a| == |b|
    ensures |r| == |a|
    ensures forall i :: 0 <= i < |a| ==> r[i] == Xor(a[i], b[i])
  {
    seq(|a|, i requires 0 <= i < |a| => Xor(a[i], b[i]))
  }

  lemma XorSeqInjective(a: bytes, b: bytes, c: bytes)
    requires |a| == |b| == |c|
    requires XorSeq(a, b) == XorSeq(a, c)
    ensures b == c
  {
    forall i | 0 <= i < |a| ensures b[i] == c[i] {
      assert XorSeq(a, b)[i] == XorSeq(a, c)[i];
      XorInjective(a[i], b[i], c[i]);
    }
  }

  /** s with the mask folded in from position off on. */
  function XoredAt(s: bytes, off: nat, mask: bytes): (r: bytes)
    requires off + |mask| <= |s|
    ensures |r| == |s|
  {
    seq(|s|, k requires 0 <= k < |s| => if off <= k < off + |mask| then Xor(s[k], mask[k - off]) else s[k])
  }

  /** Folds a mask into a buffer, byte by byte. */
  method XorInto(a: array<byte>, off: nat, mask: bytes)
    requires off + |mask| <= a.Length
    modifies a
    ensures a[..] == XoredAt(old(a[..]), off, mask)
  {
    hide Xor;
    for i := 0 to |mask|
      invariant forall k :: 0 <= k < a.Length ==>
                  a[k] == if off <= k < off + i then Xor(old(a[k]), mask[k - off]) else old(a[k])
    {
      a[off + i] := Xor(a[off + i], mask[i]);
    }
  }

  function Zeros(n: nat): (z: bytes)
    ensures |z| == n
  {
    seq(n, _ => 0)
  }

  // ---- Big-endian numbers ----

  /** The last `width` base-256 digits of n, most significant first. */
  function BigEndian(n: nat, width: nat): (r: bytes)
    ensures |r| == width
    decreases width
  {
    if width == 0 then [] else BigEndian(n / 256, width - 1) + [n % 256]
  }

  function FromBigEndian(b: bytes): nat {
    if b == [] then 0 else 256 * FromBigEndian(b[..|b| - 1]) + b[|b| - 1]
  }

  lemma {:induction false} BigEndianInverts(b: bytes)
    ensures BigEndian(FromBigEndian(b), |b|) == b
    decreases |b|
  {
    if b != [] {
      var init, last := b[..|b| - 1], b[|b| - 1];
      BigEndianInverts(init);
      var n := 256 * FromBigEndian(init) + last;
      assert n / 256 == FromBigEndian(init) && n % 256 == last;
      assert init + [last] == b;
    }
  }

  lemma FromBigEndianSnoc(p: bytes, x: byte)
    ensures FromBigEndian(p + [x]) == 256 * FromBigEndian(p) + x
  {
    assert (p + [x])[..|p|] == p;
  }

  function Be16(n: uint16): (r: bytes)
    ensures |r| == 2
  {
    [n / 0x100, n % 0x100]
  }

  function Be32(n: uint32): (r: bytes)
    ensures |r| == 4
  {
    [n / 0x100_0000, n / 0x1_0000 % 0x100, n / 0x100 % 0x100, n % 0x100]
  }

  function FromBe16(hi: byte, lo: byte): uint16 {
    hi * 0x100 + lo
  }

  function FromBe32(b3: byte, b2: byte, b1: byte, b0: byte): uint32 {
    b3 * 0x100_0000 + b2 * 0x1_0000 + b1 * 0x100 + b0
  }

  lemma Be16Inverts(n: uint16)
    ensures FromBe16(Be16(n)[0], Be16(n)[1]) == n
  {
  }

  lemma Be32Inverts(n: uint32)
    ensures FromBe32(Be32(n)[0], Be32(n)[1], Be32(n)[2], Be32(n)[3]) == n
  {
    var high, low := n / 0x1_0000, n % 0x1_0000;
    assert n / 0x100_0000 == high / 0x100 && n / 0x1_0000 % 0x100 == high % 0x100;
    assert n / 0x100 == high * 0x100 + low / 0x100;
    assert n / 0x100 % 0x100 == low / 0x100 && n % 0x100 == low % 0x100;
  }

  lemma Be16OfBytes(hi: byte, lo: byte)
    ensures Be16(FromBe16(hi, lo)) == [hi, lo]
  {
  }

  /** The fixed-width forms hold their number, most significant byte first. */
  lemma Be16Number(n: uint16)
    ensures FromBigEndian(Be16(n)) == n
  {
    FromBigEndianSnoc([], n / 0x100);
    FromBigEndianSnoc([n / 0x100], n % 0x100);
    assert Be16(n) == [] + [n / 0x100] + [n % 0x100] && [] + [n / 0x100] == [n / 0x100];
  }

  lemma Be32Number(n: uint32)
    ensures FromBigEndian(Be32(n)) == n
  {
    var a, b, c, d := n / 0x100_0000, n / 0x1_0000 % 0x100, n / 0x100 % 0x100, n % 0x100;
    FromBigEndianSnoc([], a);
    FromBigEndianSnoc([a], b);
    FromBigEndianSnoc([a, b], c);
    FromBigEndianSnoc([a, b, c], d);
    assert [] + [a] == [a] && [a] + [b] == [a, b] && [a, b] + [c] == [a, b, c] && [a, b, c] + [d] == Be32(n);
    Be32Inverts(n);
  }
}
