/** Encryption of cookies and sessions (encrypt_zval and decrypt_zval of src/sp_crypt.c): buffer
    layout and length arithmetic.  The nonce and the key are parameters; base64 is applied to
    what Encrypt returns and undone before Decrypt, as a pair of inverse functions. */
module CookieCrypt {
  import opened Bits
  import opened Digits
  import Poly1305
  import opened Salsa20
  import opened Stream
  import opened Secretbox
  import opened Wrappers

  type Nonce = s: seq<int> | |s| == 24 witness Zeros(24)

  // The key stream that a nonce selects.
  type StreamOf = Nonce -> (nat -> int)

  function StreamFor(key: seq<int>): StreamOf
    requires |key| == 32
  {
    (nonce: Nonce) => XSalsa20Stream(nonce, key)
  }

  const SIZE_LIMIT := 0x1_0000_0000_0000_0000

  // Subtraction of size_t values.
  function SizeSub(x: int, y: int): int {
    (x - y) % SIZE_LIMIT
  }

  function SizeAdd(x: int, y: int): int {
    (x + y) % SIZE_LIMIT
  }

  // ZEND_HASH_APPLY_KEEP, with the value as it was or replaced; ZEND_HASH_APPLY_REMOVE.
  // Wrapped: the length of the new value, computed as a size_t, is out of the buffer.
  datatype Outcome = KeepAsIs | Replace(value: seq<int>) | Remove | Wrapped(length: int)

  function Refused(simulation: bool): Outcome {
    if simulation then KeepAsIs else Remove
  }

  // What becomes of a decoded value of this size, once it has been opened or not.
  function Delivered(size: nat, message: Option<seq<int>>, simulation: bool): Outcome {
    match message
    case None => Refused(simulation)
    case Some(m) =>
      var length := SizeSub(size, 57);
      if length + 32 <= |m| then Replace(m[32..32 + length]) else Wrapped(length)
  }

  function Packed(data: seq<int>): (m: seq<int>)
    ensures |m| == 32 + |data| + 1
  {
    Zeros(32) + data + [0]
  }

  // The part after the nonce, opened with the key stream f.
  function Unpacked(c: seq<int>, f: nat -> int, simulation: bool): Outcome
    requires |c| >= 24
  {
    Delivered(|c|, Unbox(c[24..], f), simulation)
  }

  // base64 aside: nonce | box(32 zeros, data, a terminating zero)
  function Encrypted(data: seq<int>, nonce: Nonce, stream: StreamOf): (c: seq<int>)
    ensures |c| == 24 + 32 + |data| + 1
  {
    nonce[..] + Box(Packed(data), stream(nonce))
  }

  // None: not base64.
  function Decrypted(debase64: Option<seq<int>>, stream: StreamOf, simulation: bool): Outcome {
    match debase64
    case None => Remove
    case Some(c) =>
      if |c| < 24 || SizeAdd(|c|, 32) < |c| then Refused(simulation)
      else Unpacked(c, stream(c[..24]), simulation)
  }

  lemma PackedRoundTrip(data: seq<int>, nonce: seq<int>, f: nat -> int, simulation: bool)
    requires |nonce| == 24 && |data| + 57 < SIZE_LIMIT
    ensures Unpacked(nonce + Box(Packed(data), f), f, simulation) == Replace(data)
  {
    var m, c := Packed(data), nonce + Box(Packed(data), f);
    assert c[24..] == Box(m, f);
    assert m[..32] == Zeros(32);
    PaddedRoundTrip(m, f);
    assert SizeSub(|c|, 57) == |data|;
    assert m[32..32 + |data|] == data;
  }

  // Whatever was encrypted comes back, byte for byte and with its length.
  lemma RoundTrip(data: seq<int>, nonce: Nonce, stream: StreamOf, simulation: bool)
    requires |data| + 57 + 32 < SIZE_LIMIT
    ensures Decrypted(Some(Encrypted(data, nonce, stream)), stream, simulation) == Replace(data)
  {
    var c := Encrypted(data, nonce, stream);
    assert c[..24] == nonce;
    PackedRoundTrip(data, nonce, stream(nonce), simulation);
  }

  // The new length is computed exactly, unless what opens is a box of nothing, 24 + 32 bytes in
  // all; no encryption produces one, as a terminator is always boxed.
  lemma LengthIsExact(c: seq<int>, f: nat -> int, simulation: bool)
    requires 24 <= |c| < SIZE_LIMIT && Unbox(c[24..], f).Some?
    ensures |c| >= 56
    ensures Unpacked(c, f, simulation).Replace? <==> |c| != 56
    ensures |c| != 56 ==> |Unpacked(c, f, simulation).value| == |c| - 24 - 32 - 1
  {
    var m := Unbox(c[24..], f).value;
    assert |m| == |c| - 24;
  }

  lemma EmptyBox(nonce: seq<int>, f: nat -> int, simulation: bool)
    requires |nonce| == 24
    ensures Unpacked(nonce + Box(Zeros(32), f), f, simulation) == Wrapped(SIZE_LIMIT - 1)
  {
    PaddedRoundTrip(Zeros(32), f);
    AfterNonce(nonce, Box(Zeros(32), f));
  }

  lemma AfterNonce(nonce: seq<int>, b: seq<int>)
    requires |nonce| == 24
    ensures (nonce + b)[24..] == b && |nonce + b| == 24 + |b|
  {
  }

  // ---- which bytes are accepted, and as what ----

  // The first 32 bytes of the stream.
  function OneTime(f: nat -> int): (k: seq<int>)
    ensures |k| == 32
  {
    seq(32, i requires 0 <= i < 32 => f(i))
  }

  // Behind the nonce and sixteen bytes of padding, the tag of all that follows it.
  predicate Authentic(c: seq<int>, stream: StreamOf) {
    |c| >= 56 && c[40..56] == Poly1305.Tag(c[56..], OneTime(stream(c[..24])))
  }

  lemma StreamKey(f: nat -> int)
    ensures Xored(Zeros(32), f) == OneTime(f)
  {
    forall i: nat | i < 32 ensures Xored(Zeros(32), f)[i] == f(i) {
      XorZero(f(i));
    }
  }

  lemma OpensAuthentic(c: seq<int>, stream: StreamOf)
    requires |c| >= 24
    ensures Unbox(c[24..], stream(c[..24])).Some? <==> Authentic(c, stream)
  {
    StreamKey(stream(c[..24]));
    if |c| >= 56 {
      assert c[24..][16..32] == c[40..56] && c[24..][32..] == c[56..];
    }
  }

  /** What is not base64 is removed. Anything else that does not carry the tag of its contents is removed, or
      left as it is in simulation; what does carry it is replaced. */
  lemma Outcomes(c: seq<int>, stream: StreamOf, simulation: bool)
    requires |c| + 32 < SIZE_LIMIT
    ensures Decrypted(None, stream, simulation) == Remove
    ensures var o := Decrypted(Some(c), stream, simulation);
            && (o == Remove <==> !Authentic(c, stream) && !simulation)
            && (o == KeepAsIs <==> !Authentic(c, stream) && simulation)
            && (o.Replace? <==> Authentic(c, stream) && |c| > 56)
            && (o.Wrapped? <==> Authentic(c, stream) && |c| == 56)
  {
    if |c| >= 24 {
      OpensAuthentic(c, stream);
      if Authentic(c, stream) {
        LengthIsExact(c, stream(c[..24]), simulation);
      }
    }
  }

  // A length that does not fit together with the padding counts as a broken cookie.
  lemma TooLong(c: seq<int>, stream: StreamOf, simulation: bool)
    requires SIZE_LIMIT <= |c| + 32 < SIZE_LIMIT + 32
    ensures SIZE_LIMIT == Pow2(64)
    ensures Decrypted(Some(c), stream, simulation) == if simulation then KeepAsIs else Remove
  {
    Pow2Values();
    assert SizeAdd(|c|, 32) == |c| + 32 - SIZE_LIMIT;
  }

  /** The new value: the bytes behind the tag, less the last one, each with its byte of the stream. */
  lemma ReplacedBy(c: seq<int>, stream: StreamOf, simulation: bool, i: nat)
    requires 56 < |c| && |c| + 32 < SIZE_LIMIT && Authentic(c, stream) && i < |c| - 57
    ensures var o := Decrypted(Some(c), stream, simulation);
            o.Replace? && |o.value| == |c| - 57 && o.value[i] == Xor(c[56 + i], stream(c[..24])(32 + i))
  {
    var f, s := stream(c[..24]), c[24..];
    OpensAuthentic(c, stream);
    LengthIsExact(c, f, simulation);
    var m := Zeros(32) + Xored(s, f)[32..];
    assert Unbox(s, f) == Some(m);
    MessageByte(s, f, m, i);
    assert Unpacked(c, f, simulation) == Replace(m[32..32 + (|c| - 57)]);
  }

  lemma MessageByte(s: seq<int>, f: nat -> int, m: seq<int>, i: nat)
    requires 32 + i < |s| && m == Zeros(32) + Xored(s, f)[32..]
    ensures |m| == |s| && m[32 + i] == Xor(s[32 + i], f(32 + i))
  {
  }

  /** The bytes that are sent: the nonce, sixteen zeros, the tag, and the data with a terminator, each byte with
      its byte of the stream. */
  lemma EncryptedBytes(data: seq<int>, nonce: Nonce, stream: StreamOf)
    ensures var c := Encrypted(data, nonce, stream);
            && c[..24] == nonce && c[24..40] == Zeros(16) && Authentic(c, stream)
            && forall i :: 0 <= i <= |data| ==>
                 c[56 + i] == Xor(if i < |data| then data[i] else 0, stream(nonce)(32 + i))
  {
    var f, m, c := stream(nonce), Packed(data), Encrypted(data, nonce, stream);
    var x := Xored(m, f);
    assert c == nonce[..] + (Zeros(16) + Poly1305.Tag(x[32..], x[..32]) + x[32..]);
    XoredPrefix(m, f, 32);
    assert m[..32] == Zeros(32);
    StreamKey(f);
    assert c[..24] == nonce && c[40..56] == Poly1305.Tag(x[32..], x[..32]) && c[56..] == x[32..];
    forall i | 0 <= i <= |data| ensures c[56 + i] == Xor(if i < |data| then data[i] else 0, f(32 + i)) {
      assert c[56 + i] == c[56..][i] == x[32 + i] && m[32 + i] == if i < |data| then data[i] else 0;
    }
  }

  method ToArray(s: seq<u8>, size: nat, at: nat) returns (a: array<u8>)
    requires at + |s| <= size
    ensures fresh(a) && a.Length == size
    ensures a[..] == Zeros(at) + s + Zeros(size - at - |s|)
  {
    a := new u8[size](_ => 0);
    for i := 0 to |s|
      invariant forall j :: 0 <= j < size ==> a[j] == if at <= j < at + i then s[j - at] else 0
    {
      a[at + i] := s[i];
    }
  }

  method EncryptZval(w: nat, data: seq<u8>, nonce: seq<u8>, key: seq<u8>) returns (encrypted: array<u8>)
    requires IsWidth(w) && |nonce| == 24 && |key| == 32
    ensures encrypted[..] == Encrypted(data, nonce, StreamFor(key))
  {
    var boxed := 32 + |data| + 1;
    var message := ToArray(data, boxed, 32);
    var n := ToArray(nonce, 24, 0);
    var k := ToArray(key, 32, 0);
    encrypted := ToArray(nonce, boxed + 24, 0);
    assert Slice(message, 0, boxed) == Packed(data);
    assert Slice(n, 0, 24) == nonce && Slice(k, 0, 32) == key;
    assert encrypted[..24] == nonce;
    BoxAfterNonce(w, encrypted, message, boxed, n, k);
  }

  method BoxAfterNonce(w: nat, encrypted: array<u8>, message: array<u8>, boxed: nat, n: array<u8>, k: array<u8>)
    requires IsWidth(w) && boxed >= 32 && message.Length == boxed && encrypted.Length == boxed + 24
    requires n.Length == 24 && k.Length == 32 && message != encrypted
    modifies encrypted
    ensures encrypted[..] == old(encrypted[..24])
      + Box(old(Slice(message, 0, boxed)), StreamFor(old(Slice(k, 0, 32)))(old(Slice(n, 0, 24))))
  {
    ghost var head := encrypted[..];
    ghost var body := Box(Slice(message, 0, boxed), XSalsa20Stream(Slice(n, 0, 24), Slice(k, 0, 32)));
    var err := CryptoSecretbox(w, encrypted, 24, message, 0, boxed, n, 0, k, 0);
    assert err == 0;
    Joined(encrypted[..], head, body);
  }

  lemma Joined(s: seq<int>, head: seq<int>, body: seq<int>)
    requires |s| == |head| == 24 + |body| && s[24..24 + |body|] == body
    requires forall i :: 0 <= i < 24 ==> s[i] == head[i]
    ensures s == head[..24] + body
  {
    assert s == s[..24] + s[24..24 + |body|];
    assert s[..24] == head[..24];
  }

  // Opens c[24..] with the nonce c[..24] into a fresh buffer.
  method OpenAfterNonce(w: nat, c: array<u8>, k: array<u8>) returns (ret: int, decrypted: array<u8>)
    requires IsWidth(w) && c.Length >= 24 && k.Length == 32
    ensures fresh(decrypted) && decrypted.Length == c.Length + 32
    ensures var message := Unbox(c[24..], StreamFor(Slice(k, 0, 32))(c[..24]));
            if message.Some? then ret == 0 && decrypted[..c.Length - 24] == message.value else ret == -1
  {
    var size := c.Length - 24;
    assert Slice(c, 24, size) == c[24..] && Slice(c, 0, 24) == c[..24];
    decrypted := new u8[c.Length + 32](_ => 0);
    ret := CryptoSecretboxOpen(w, decrypted, 0, c, 24, size, c, 0, k, 0);
    assert decrypted[..size] == decrypted[0..0 + size];
  }

  method DecryptZval(w: nat, debase64: Option<seq<u8>>, key: seq<u8>, simulation: bool)
      returns (outcome: Outcome)
    requires IsWidth(w) && |key| == 32
    ensures outcome == Decrypted(debase64, StreamFor(key), simulation)
  {
    if debase64.None? {
      return Remove;
    }
    var size := |debase64.value|;
    if size < 24 {
      return Refused(simulation);
    }
    if SizeAdd(size, 32) < size {
      return Refused(simulation);
    }
    var c := ToArray(debase64.value, size, 0);
    var k := ToArray(key, 32, 0);
    assert c[..] == debase64.value && Slice(k, 0, 32) == key;
    assert c[24..] == c[..][24..] && c[..24] == c[..][..24];
    var ret, decrypted := OpenAfterNonce(w, c, k);
    outcome := Deliver(size, ret, decrypted, simulation, Unbox(c[24..], StreamFor(Slice(k, 0, 32))(c[..24])));
  }

  // What follows the call of crypto_secretbox_open.
  method Deliver(size: nat, ret: int, decrypted: array<u8>, simulation: bool, ghost message: Option<seq<int>>)
      returns (outcome: Outcome)
    requires decrypted.Length == size + 32 && size >= 24
    requires if message.Some? then ret == 0 && decrypted[..size - 24] == message.value else ret == -1
    ensures outcome == Delivered(size, message, simulation)
  {
    if ret == -1 {
      return Refused(simulation);
    }
    var length := SizeSub(size, 24 + 1 + 32);
    if length + 32 > size - 24 {
      return Wrapped(length);
    }
    SubRange(decrypted[..], 0, size - 24, 32, 32 + length);
    outcome := Replace(decrypted[32..32 + length]);
  }
}
