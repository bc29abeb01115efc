/** SFrame: a varint trailer behind AES-GCM ciphertext, keyed per direction. */
module Sframe {
  import opened Bytes
  import opened Crypto

  const GCM_TAG_LEN := 16
  const SFRAME_LABEL := "e2e sframe key"

  /** AES-128-GCM with a 16-byte nonce: key, nonce, text. */
  datatype Gcm = Gcm(seal: (Block, Block, bytes) -> bytes, open: (Block, Block, bytes) -> Option<bytes>)

  /** All that is asked of it: a 16-byte tag, and opening undoes sealing. */
  ghost predicate Sound(g: Gcm) {
    forall k, n, text :: |g.seal(k, n, text)| == |text| + GCM_TAG_LEN && g.open(k, n, g.seal(k, n, text)) == Some(text)
  }

  // ---- Varints (base-128, least significant group first) ----

  function AppendUvarint(x: nat): (b: bytes)
    ensures |b| >= 1
  {
    if x < 0x80 then [x] else [x % 0x80 + 0x80] + AppendUvarint(x / 0x80)
  }

  /** How large the rest of a 64-bit varint may be from byte i on. */
  function Room(i: nat): (r: nat)
    ensures i <= 8 ==> r >= 0x100
    decreases 10 - i
  {
    if i >= 10 then 0 else if i == 9 then 2 else 0x80 * Room(i + 1)
  }

  datatype Varint = Varint(value: nat, size: nat)

  /** Reads a varint whose first byte is byte i of it: at most ten bytes, the tenth at most 1. */
  function UvarintAt(buf: bytes, i: nat): (r: Option<Varint>)
    ensures r.Some? ==> 0 < r.value.size <= |buf| && r.value.value < Room(i)
    decreases |buf|
  {
    if buf == [] || i >= 10 then None
    else if buf[0] < 0x80 then (if i == 9 && buf[0] > 1 then None else Some(Varint(buf[0], 1)))
    else match UvarintAt(buf[1..], i + 1)
      case None => None
      case Some(v) => Some(Varint(buf[0] % 0x80 + 0x80 * v.value, v.size + 1))
  }

  function Uvarint(buf: bytes): (r: Option<Varint>)
    ensures r.Some? ==> 0 < r.value.size <= |buf| && r.value.value < 0x1_0000_0000_0000_0000
  {
    Room64();
    UvarintAt(buf, 0)
  }

  lemma Room64()
    ensures Room(0) == 0x1_0000_0000_0000_0000
  {
    assert Room(8) == 0x100;
    assert Room(4) == 0x10_0000_0000;
  }

  lemma {:induction false} UvarintInverts(x: nat, i: nat, rest: bytes)
    requires x < Room(i)
    ensures |AppendUvarint(x)| <= 10 - i
    ensures UvarintAt(AppendUvarint(x) + rest, i) == Some(Varint(x, |AppendUvarint(x)|))
    decreases x
  {
    var b := AppendUvarint(x) + rest;
    if x >= 0x80 {
      assert i < 9;
      UvarintInverts(x / 0x80, i + 1, rest);
      assert b[1..] == AppendUvarint(x / 0x80) + rest;
      assert b[0] == x % 0x80 + 0x80;
      assert b[0] % 0x80 == x % 0x80;
    }
  }

  function Pow128(n: nat): (p: nat)
    ensures p >= 1
  {
    if n == 0 then 1 else 0x80 * Pow128(n - 1)
  }

  /** Byte i holds the group of weight 128^i and, unless it is the last, the continuation bit; no leading group
      is wasted. */
  lemma {:induction false} UvarintLayout(x: nat, i: nat)
    requires i < |AppendUvarint(x)|
    ensures AppendUvarint(x)[i] == x / Pow128(i) % 0x80 + if i < |AppendUvarint(x)| - 1 then 0x80 else 0
    ensures x < Pow128(|AppendUvarint(x)|)
    ensures |AppendUvarint(x)| == 1 || Pow128(|AppendUvarint(x)| - 1) <= x
    decreases x
  {
    if x >= 0x80 {
      var rest := AppendUvarint(x / 0x80);
      UvarintLayout(x / 0x80, if i == 0 then 0 else i - 1);
      assert AppendUvarint(x)[1..] == rest;
      if i > 0 {
        Divided(x, 0x80, Pow128(i - 1));
        assert AppendUvarint(x)[i] == rest[i - 1];
      }
    }
  }

  lemma Divided(x: nat, b: nat, p: nat)
    requires b >= 1 && p >= 1
    ensures x / b / p == x / (b * p)
  {
    var q, low := x / b / p, x / b % p;
    assert x / b == q * p + low;
    assert x == (q * p + low) * b + x % b;
    Carried(low, p, b, x % b);
    assert x == (b * p) * q + (low * b + x % b);
    QuotientUnique(x, b * p, q, low * b + x % b);
  }

  lemma Carried(low: nat, p: nat, b: nat, r: nat)
    requires low < p && r < b
    ensures low * b + r < b * p
  {
    assert (low + 1) * b <= p * b;
  }

  // ---- Trailer and nonce ----

  /** Counter, key id, and the trailer's own length. */
  function BuildHeader(counter: uint64, keyId: uint64): (h: bytes)
    ensures 3 <= |h| <= 21 && h[|h| - 1] == |h|
  {
    Room64();
    UvarintInverts(counter, 0, []);
    UvarintInverts(keyId, 0, []);
    var h := AppendUvarint(counter) + AppendUvarint(keyId);
    h + [|h| + 1]
  }

  function ParseHeader(header: bytes): Option<(uint64, uint64)> {
    if |header| < 2 || header[|header| - 1] != |header| then None
    else
      var body := header[..|header| - 1];
      match Uvarint(body)
      case None => None
      case Some(c) =>
        match Uvarint(body[c.size..])
        case None => None
        case Some(k) => Some((c.value, k.value))
  }

  /** Parsing inverts building, for all 64-bit counters and key ids. */
  lemma HeaderRoundTrip(counter: uint64, keyId: uint64)
    ensures ParseHeader(BuildHeader(counter, keyId)) == Some((counter, keyId))
  {
    var c, k := AppendUvarint(counter), AppendUvarint(keyId);
    var h := BuildHeader(counter, keyId);
    Room64();
    UvarintInverts(counter, 0, k);
    UvarintInverts(keyId, 0, []);
    assert h[..|h| - 1] == c + k;
    assert (c + k)[|c|..] == k && k + [] == k;
  }

  function LittleEndian(n: nat, width: nat): (r: bytes)
    ensures |r| == width
    decreases width
  {
    if width == 0 then [] else [n % 0x100] + LittleEndian(n / 0x100, width - 1)
  }

  lemma {:induction false} LittleEndianInjective(m: nat, n: nat, width: nat)
    requires m < Pow256(width) && n < Pow256(width) && LittleEndian(m, width) == LittleEndian(n, width)
    ensures m == n
    decreases width
  {
    if width > 0 {
      var a, b := LittleEndian(m, width), LittleEndian(n, width);
      assert a[0] == b[0] && a[1..] == b[1..];
      assert a[1..] == LittleEndian(m / 0x100, width - 1) && b[1..] == LittleEndian(n / 0x100, width - 1);
      LittleEndianInjective(m / 0x100, n / 0x100, width - 1);
    }
  }

  function CounterToIv(counter: uint64): Block {
    Zeros(8) + LittleEndian(counter, 8)
  }

  lemma {:induction false} LittleEndianAt(n: nat, width: nat, i: nat)
    requires i < width
    ensures LittleEndian(n, width)[i] == n / Pow256(i) % 0x100
    decreases width
  {
    if i > 0 {
      LittleEndianAt(n / 0x100, width - 1, i - 1);
      Divided(n, 0x100, Pow256(i - 1));
    }
  }

  /** Eight zero bytes, then the counter, its byte of weight 256^i at place 8 + i. */
  lemma NonceLayout(counter: uint64, i: nat)
    requires i < 8
    ensures CounterToIv(counter)[i] == 0 && CounterToIv(counter)[8 + i] == counter / Pow256(i) % 0x100
  {
    hide LittleEndian;
    LittleEndianAt(counter, 8, i);
  }

  lemma NoncesDistinct(c: uint64, c': uint64)
    requires CounterToIv(c) == CounterToIv(c')
    ensures c == c'
  {
    assert CounterToIv(c)[8..] == LittleEndian(c, 8) && CounterToIv(c')[8..] == LittleEndian(c', 8);
    assert Pow256(8) == 0x1_0000_0000_0000_0000;
    LittleEndianInjective(c, c', 8);
  }

  // ---- Sessions ----

  datatype Keys = Keys(encryptKey: Block, decryptKey: Block)

  function DeriveKey(p: Primitives, callKey: bytes, participant: string): Option<Key32> {
    if |callKey| != 32 then None else Some(p.hkdf32(callKey[..16], callKey[16..32], SFRAME_LABEL + participant))
  }

  /** Frames are encrypted for the peer and decrypted for oneself. */
  function SessionKeys(p: Primitives, callKey: bytes, selfId: string, peerId: string): Option<Keys> {
    match (DeriveKey(p, callKey, peerId), DeriveKey(p, callKey, selfId))
    case (Some(send), Some(recv)) => Some(Keys(send[..16], recv[..16]))
    case _ => None
  }

  function Seal(g: Gcm, key: Block, counter: uint64, plaintext: bytes): bytes {
    g.seal(key, CounterToIv(counter), plaintext) + BuildHeader(counter, 0)
  }

  /** Anything that does not look like a frame, or does not authenticate, is refused. */
  function Open(g: Gcm, key: Block, frame: bytes): Option<bytes> {
    if |frame| < GCM_TAG_LEN + 3 then None
    else
      var headerLen := frame[|frame| - 1];
      if headerLen < 3 || headerLen > |frame| then None
      else
        var headerStart := |frame| - headerLen;
        var header, ciphertext := frame[headerStart..], frame[..headerStart];
        if |ciphertext| < GCM_TAG_LEN + 1 then None
        else match ParseHeader(header)
          case None => None
          case Some(ck) => g.open(key, CounterToIv(ck.0), ciphertext)
  }

  /** The keys of the standard derivation: encrypting under the peer's id, decrypting under the own one. */
  lemma KeyDirections(p: Primitives, callKey: bytes, selfId: string, peerId: string)
    ensures SessionKeys(p, callKey, selfId, peerId).Some? <==> |callKey| == 32
    ensures |callKey| == 32 ==>
              var k := SessionKeys(p, callKey, selfId, peerId).value;
              && k.encryptKey == p.hkdf32(callKey[..16], callKey[16..], "e2e sframe key" + peerId)[..16]
              && k.decryptKey == p.hkdf32(callKey[..16], callKey[16..], "e2e sframe key" + selfId)[..16]
  {
    if |callKey| == 32 {
      assert callKey[16..32] == callKey[16..];
    }
  }

  class SframeSession {
    const g: Gcm
    const keys: Keys
    var txCounter: uint64

    /** Any call key but one of 32 bytes is refused. */
    static method New(p: Primitives, g: Gcm, callKey: bytes, selfId: string, peerId: string)
      returns (r: Option<SframeSession>)
      ensures r.Some? <==> |callKey| == 32
      ensures r.Some? ==> fresh(r.value) && r.value.g == g && r.value.txCounter == 0
      ensures r.Some? ==>
                var salt, ikm := callKey[..16], callKey[16..];
                && r.value.keys.encryptKey == p.hkdf32(salt, ikm, "e2e sframe key" + peerId)[..16]
                && r.value.keys.decryptKey == p.hkdf32(salt, ikm, "e2e sframe key" + selfId)[..16]
    {
      KeyDirections(p, callKey, selfId, peerId);
      var send := DeriveKey(p, callKey, peerId);
      if send.None? {
        return None;
      }
      var recv := DeriveKey(p, callKey, selfId);
      if recv.None? {
        return None;
      }
      var session := new SframeSession(g, Keys(send.value[..16], recv.value[..16]));
      r := Some(session);
    }

    constructor (g: Gcm, keys: Keys)
      ensures this.g == g && this.keys == keys && txCounter == 0
    {
      this.g, this.keys, txCounter := g, keys, 0;
    }

    /** Sealed under the counter as it was, which then moves on, modulo 2^64. */
    method Encrypt(plaintext: bytes) returns (out: bytes)
      modifies this
      ensures out == Seal(g, keys.encryptKey, old(txCounter), plaintext)
      ensures txCounter == (old(txCounter) + 1) % 0x1_0000_0000_0000_0000
    {
      var counter := txCounter;
      txCounter := (txCounter + 1) % 0x1_0000_0000_0000_0000;
      var header := BuildHeader(counter, 0);
      var encrypted := g.seal(keys.encryptKey, CounterToIv(counter), plaintext);
      out := [];
      out := out + encrypted;
      out := out + header;
    }

    /** Each guard refuses before anything behind it is looked at; no state is kept. */
    method Decrypt(frame: bytes) returns (r: Option<bytes>)
      ensures r == Open(g, keys.decryptKey, frame)
    {
      hide ParseHeader, CounterToIv;
      if |frame| < GCM_TAG_LEN + 3 {
        return None;
      }
      var headerLen := frame[|frame| - 1];
      if headerLen < 3 || headerLen > |frame| {
        return None;
      }
      var headerStart := |frame| - headerLen;
      var header := frame[headerStart..];
      var encrypted := frame[..headerStart];
      if |encrypted| < GCM_TAG_LEN + 1 {
        return None;
      }
      var parsed := ParseHeader(header);
      if parsed.None? {
        return None;
      }
      var nonce := CounterToIv(parsed.value.0);
      r := g.open(keys.decryptKey, nonce, encrypted);
    }
  }

  /** A sealed frame opens to its plaintext, unless the plaintext is empty: then the frame
      is taken for plain audio. */
  lemma OpenInvertsSeal(g: Gcm, key: Block, counter: uint64, plaintext: bytes)
    requires Sound(g)
    ensures Open(g, key, Seal(g, key, counter, plaintext)) == if plaintext == [] then None else Some(plaintext)
  {
    hide ParseHeader, BuildHeader, CounterToIv;
    var sealed, header := g.seal(key, CounterToIv(counter), plaintext), BuildHeader(counter, 0);
    var frame := sealed + header;
    HeaderRoundTrip(counter, 0);
    assert frame[|frame| - 1] == header[|header| - 1];
    assert frame[|frame| - |header|..] == header && frame[..|frame| - |header|] == sealed;
  }

  /** The frame from its end: its trailer's length, the zero key id, the counter as a varint; in front of the
      trailer the ciphertext and tag, under the nonce of the counter. */
  lemma FrameLayout(g: Gcm, key: Block, counter: uint64, plaintext: bytes)
    requires Sound(g)
    ensures var frame, c := Seal(g, key, counter, plaintext), AppendUvarint(counter);
            && |frame| == |plaintext| + 16 + |c| + 2
            && frame[|plaintext| + 16..] == c + [0, |c| + 2]
            && frame[..|plaintext| + 16] == g.seal(key, CounterToIv(counter), plaintext)
  {
    hide CounterToIv;
    var c := AppendUvarint(counter);
    assert AppendUvarint(0) == [0];
    assert BuildHeader(counter, 0) == c + [0, |c| + 2];
  }

  /** A trailer written out. */
  lemma TrailerExample()
    ensures BuildHeader(300, 0) == [0xAC, 0x02, 0x00, 0x04] && BuildHeader(5, 200) == [0x05, 0xC8, 0x01, 0x04]
  {
    assert AppendUvarint(300) == [0xAC, 0x02] && AppendUvarint(200) == [0xC8, 0x01];
  }

  /** Whatever was sealed under the derived key of one's own id opens. */
  lemma OpensForSelf(p: Primitives, g: Gcm, callKey: bytes, selfId: string, peerId: string, counter: uint64,
      text: bytes)
    requires Sound(g) && |callKey| == 32 && text != []
    ensures var key := p.hkdf32(callKey[..16], callKey[16..], "e2e sframe key" + selfId)[..16];
            Open(g, SessionKeys(p, callKey, selfId, peerId).value.decryptKey, Seal(g, key, counter, text)) == Some(text)
  {
    hide Open, Seal;
    KeyDirections(p, callKey, selfId, peerId);
    OpenInvertsSeal(g, SessionKeys(p, callKey, selfId, peerId).value.decryptKey, counter, text);
  }

  // ---- Whole runs ----

  /** The counter after n frames from a fresh session. */
  function CounterAfter(n: nat): uint64 {
    if n == 0 then 0 else (CounterAfter(n - 1) + 1) % 0x1_0000_0000_0000_0000
  }

  lemma {:induction false} CounterAfterForm(n: nat)
    ensures CounterAfter(n) == n % 0x1_0000_0000_0000_0000
  {
    if n > 0 {
      CounterAfterForm(n - 1);
      NextModulo(n - 1);
    }
  }

  lemma NextModulo(n: nat)
    ensures (n % 0x1_0000_0000_0000_0000 + 1) % 0x1_0000_0000_0000_0000 == (n + 1) % 0x1_0000_0000_0000_0000
  {
  }

  /** The frames of a run of encryptions, the counter moving on from one to the next. */
  function Sealed(g: Gcm, key: Block, counter: uint64, plaintexts: seq<bytes>): (frames: seq<bytes>)
    ensures |frames| == |plaintexts|
    decreases |plaintexts|
  {
    if plaintexts == [] then []
    else [Seal(g, key, counter, plaintexts[0])]
         + Sealed(g, key, (counter + 1) % 0x1_0000_0000_0000_0000, plaintexts[1..])
  }

  lemma {:induction false} SealedAt(g: Gcm, key: Block, plaintexts: seq<bytes>, c: nat, k: nat)
    requires k < |plaintexts|
    ensures Sealed(g, key, CounterAfter(c), plaintexts)[k] == Seal(g, key, CounterAfter(c + k), plaintexts[k])
    decreases k
  {
    hide CounterAfter, Seal;
    if k > 0 {
      CounterMoves(c);
      SealedAt(g, key, plaintexts[1..], c + 1, k - 1);
      assert c + 1 + (k - 1) == c + k;
    } else {
      assert c + k == c;
    }
  }

  lemma CounterMoves(c: nat)
    ensures CounterAfter(c + 1) == (CounterAfter(c) + 1) % 0x1_0000_0000_0000_0000
  {
  }

  /** Two parties share a call key, each knowing the other's id. Every nonempty frame of any run of
      the first opens at the second to what was sealed; opening keeps no state, so neither order nor
      repetition nor loss of other frames plays a part. */
  lemma RunRecovery(p: Primitives, g: Gcm, callKey: bytes, x: string, y: string, plaintexts: seq<bytes>, k: nat)
    requires Sound(g) && |callKey| == 32 && k < |plaintexts|
    ensures var a, b := SessionKeys(p, callKey, x, y).value, SessionKeys(p, callKey, y, x).value;
            Open(g, b.decryptKey, Sealed(g, a.encryptKey, 0, plaintexts)[k])
            == if plaintexts[k] == [] then None else Some(plaintexts[k])
  {
    hide Seal, Open, Sound;
    var a := SessionKeys(p, callKey, x, y).value;
    SealedAt(g, a.encryptKey, plaintexts, 0, k);
    OpenInvertsSeal(g, a.encryptKey, CounterAfter(k), plaintexts[k]);
  }

  /** Two frames of a run share a nonce exactly when a multiple of 2^64 lies between them. */
  lemma RunNoncesDistinctIff(k: nat, k': nat)
    ensures CounterToIv(CounterAfter(k)) == CounterToIv(CounterAfter(k'))
            <==> k % 0x1_0000_0000_0000_0000 == k' % 0x1_0000_0000_0000_0000
  {
    CounterAfterForm(k);
    CounterAfterForm(k');
    if CounterToIv(CounterAfter(k)) == CounterToIv(CounterAfter(k')) {
      NoncesDistinct(CounterAfter(k), CounterAfter(k'));
    }
  }
}
