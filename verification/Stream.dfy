/** The XSalsa20 stream (crypto_stream_salsa20_xor .. crypto_stream_xor of src/tweetnacl.c). */
module Stream {
  import opened Bits
  import opened Digits
  import opened Salsa20

  function Sigma(): (s: seq<int>)
    ensures |s| == 16 && AreDigits(s, 256)
  {
    // "expand 32-byte k"
    [101, 120, 112, 97, 110, 100, 32, 51, 50, 45, 98, 121, 116, 101, 32, 107]
  }

  // ---- the stream as a function ----

  // Block i of the Salsa20 stream of an 8-byte nonce: the counter is 64 bits, little-endian.
  function KeyBlock(nonce: seq<int>, k: seq<int>, i: nat): (s: seq<int>)
    requires |nonce| == 8 && |k| == 32
    ensures |s| == 64 && AreDigits(s, 256)
  {
    Salsa20Block(nonce + ToBytes(i, 8), k, Sigma())
  }

  function KeyByte(nonce: seq<int>, k: seq<int>, i: nat): (b: int)
    requires |nonce| == 8 && |k| == 32
    ensures 0 <= b < 256
  {
    KeyBlock(nonce, k, i / 64)[i % 64]
  }

  function Xored(m: seq<int>, f: nat -> int): (c: seq<int>)
    ensures |c| == |m|
  {
    seq(|m|, i requires 0 <= i < |m| => Xor(m[i], f(i)))
  }

  function Salsa20Stream(nonce: seq<int>, k: seq<int>): nat -> int
    requires |nonce| == 8 && |k| == 32
  {
    (i: nat) => KeyByte(nonce, k, i)
  }

  // XSalsa20: a 24-byte nonce, whose first 16 bytes derive the key.
  function XSalsa20Stream(nonce: seq<int>, k: seq<int>): nat -> int
    requires |nonce| == 24 && |k| == 32
  {
    Salsa20Stream(nonce[16..], HSalsa20(nonce[..16], k, Sigma()))
  }

  function Zeros(n: nat): (s: seq<int>)
    ensures |s| == n && AreDigits(s, 256)
  {
    seq(n, _ => 0)
  }

  lemma XorByte(x: int, y: int)
    requires 0 <= x < 256 && 0 <= y < 256
    ensures 0 <= Xor(x, y) < 256
  {
    Pow2Values();
    XorRange(x, y, 8);
  }

  // Decryption is encryption, wherever the ciphertext is intact.
  lemma XoredTwice(c: seq<int>, m: seq<int>, f: nat -> int, n: nat)
    requires n <= |c| == |m| && c[n..] == Xored(m, f)[n..]
    ensures Xored(c, f)[n..] == m[n..]
  {
    var x, y := Xored(c, f), Xored(m, f);
    forall i | n <= i < |m| ensures x[i] == m[i] {
      assert c[i] == c[n..][i - n] == y[n..][i - n] == y[i];
      XorCancelsRight(m[i], f(i));
    }
  }

  // A byte of the stream depends on its position only, not on the length of the message.
  lemma XoredPrefix(m: seq<int>, f: nat -> int, n: nat)
    requires n <= |m|
    ensures Xored(m[..n], f) == Xored(m, f)[..n]
  {
  }

  // ---- the counter ----

  lemma {:induction false} IncrementCarry(s: seq<int>, k: nat)
    requires k <= |s| && AreDigits(s, 256)
    ensures 0 <= CarryIn(s, 256, 1, k) <= 1
  {
    if k > 0 {
      IncrementCarry(s, k - 1);
    }
  }

  lemma Incremented(v: nat, s: seq<int>)
    requires s == ToBytes(v, 8)
    ensures Remainders(s, 256, 1) == ToBytes(v + 1, 8)
  {
    var r, c := Remainders(s, 256, 1), CarryIn(s, 256, 1, 8);
    RemaindersSum(s, 256, 1, 8);
    ValueOfBytes(v, 8);
    BytesOfValue(r);
    Below(r);
    CountUp(v, Pow(256, 8), c, Value(r, 256));
    BytesIgnoreMod(v + 1, 8);
  }

  lemma Below(r: seq<int>)
    requires |r| == 8 && AreDigits(r, 256)
    ensures 0 <= Value(r, 256) < Pow(256, 8)
  {
    SumBounds(r, 256, 8);
  }

  lemma CountUp(v: int, p: int, c: int, r: int)
    requires p > 0 && r == v % p + 1 - c * p && 0 <= r < p
    ensures r == (v + 1) % p
  {
    assert v == p * (v / p) + v % p;
    assert v + 1 == p * (v / p + c) + r by {
      assert p * (v / p + c) == p * (v / p) + c * p;
    }
    ModUnique(v + 1, p, v / p + c, r);
  }

  // Adds 1 to the counter in the upper half of z, with a carry from byte to byte.
  method Increment(z: array<u8>, ghost v: nat)
    requires z.Length == 16 && z[8..16] == ToBytes(v, 8)
    modifies z
    ensures z[..8] == old(z[..8]) && z[8..16] == ToBytes(v + 1, 8)
  {
    ghost var s, r := z[8..16], Remainders(z[8..16], 256, 1);
    var u: word := 1;
    for i := 8 to 16
      invariant u == CarryIn(s, 256, 1, i - 8)
      invariant forall j :: 8 <= j < i ==> z[j] == r[j - 8]
      invariant forall j :: i <= j < 16 ==> z[j] == s[j - 8]
      invariant z[..8] == old(z[..8])
    {
      IncrementCarry(s, i - 8);
      assert r[i - 8] == (s[i - 8] + CarryIn(s, 256, 1, i - 8)) % 256;
      var byte: word := z[i];
      u := u + byte;
      z[i] := u % 256;
      u := u / 256;
    }
    assert z[8..16] == r;
    Incremented(v, s);
  }

  // ---- the chunked loop ----

  ghost function Message(m: array?<u8>, at: nat, n: nat): (s: seq<int>)
    requires m != null ==> at + n <= m.Length
    reads m
    ensures |s| == n && AreDigits(s, 256)
  {
    if m == null then Zeros(n) else m[at..at + n]
  }

  // After `done` bytes the output holds that much of the target, and nothing else has changed ...
  ghost predicate Progress(c: array<u8>, old_c: seq<int>, cAt: nat, target: seq<int>, done: nat)
    reads c
  {
    && c.Length == |old_c| && done <= |target| && cAt + |target| <= c.Length
    && (forall j :: cAt <= j < cAt + done ==> c[j] == target[j - cAt])
    && (forall j :: 0 <= j < cAt || cAt + done <= j < c.Length ==> c[j] == old_c[j])
  }

  // ... and the message is still there from `done` on, even when it is overwritten in place.
  ghost predicate Unread(m: array?<u8>, mAt: nat, s: seq<int>, done: nat)
    reads m
  {
    && (m != null ==> mAt + |s| <= m.Length)
    && forall j :: done <= j < |s| ==> s[j] == (if m == null then 0 else m[mAt + j])
  }

  // Combines the next bytes of the message, or zeros, with the block.
  method XorChunk(c: array<u8>, cAt: nat, m: array?<u8>, mAt: nat, x: array<u8>, n: nat, done: nat,
                  ghost s: seq<int>, ghost target: seq<int>, ghost old_c: seq<int>, ghost f: nat -> int)
    requires x != c && x != m && x.Length == 64 && n <= 64 && done + n <= |target| == |s|
    requires m != c || mAt == cAt
    requires Progress(c, old_c, cAt, target, done) && Unread(m, mAt, s, done)
    requires target == Xored(s, f) && forall j :: 0 <= j < n ==> x[j] == f(done + j)
    modifies c
    ensures Progress(c, old_c, cAt, target, done + n) && Unread(m, mAt, s, done + n)
  {
    ghost var t := x[..];
    for i := 0 to n
      invariant Progress(c, old_c, cAt, target, done + i) && Unread(m, mAt, s, done + i)
      invariant x[..] == t
    {
      var byte: int := if m == null then 0 else m[mAt + (done + i)];
      assert byte == s[done + i] && x[i] == t[i];
      XorByte(byte, x[i]);
      c[cAt + done + i] := Xor(byte, x[i]);
    }
  }

  lemma BlockPosition(v: nat, j: nat)
    requires j < 64
    ensures (64 * v + j) / 64 == v && (64 * v + j) % 64 == j
  {
  }

  // The bytes of one block, for any sequence of blocks.
  lemma BytesOfBlock(f: nat -> int, block: nat -> seq<int>, v: nat)
    requires |block(v)| == 64
    requires forall p: nat :: p / 64 == v ==> f(p) == block(v)[p % 64]
    ensures forall j :: 0 <= j < 64 ==> f(64 * v + j) == block(v)[j]
  {
    forall j | 0 <= j < 64 ensures f(64 * v + j) == block(v)[j] {
      BlockPosition(v, j);
    }
  }

  // One block of the stream, for the counter in z.
  method NextBlock(w: nat, x: array<u8>, z: array<u8>, k: array<u8>, kAt: nat, sigma: array<u8>,
                   ghost nonce: seq<int>, ghost key: seq<int>, ghost v: nat, ghost f: nat -> int)
    requires IsWidth(w) && kAt + 32 <= k.Length && z.Length == 16 && x.Length == 64
    requires sigma.Length == 16 && sigma[..] == Sigma() && x != z && x != k && x != sigma
    requires z[..8] == nonce && z[8..16] == ToBytes(v, 8) && Slice(k, kAt, 32) == key
    requires |key| == 32 && f == Salsa20Stream(nonce, key)
    modifies x
    ensures forall j :: 0 <= j < 64 ==> x[j] == f(64 * v + j)
  {
    ghost var input := Slice(z, 0, 16);
    Halves(input, z[..8], z[8..16]);
    StreamBlock(nonce, key, v, input);
    assert Slice(sigma, 0, 16) == sigma[..];
    Block(w, x, z, k, kAt, sigma);
  }

  lemma Halves(s: seq<int>, a: seq<int>, b: seq<int>)
    requires |s| == 16 && |a| == |b| == 8 && forall i :: 0 <= i < 8 ==> s[i] == a[i] && s[8 + i] == b[i]
    ensures s[..8] == a && s[8..16] == b
  {
  }

  method Block(w: nat, x: array<u8>, z: array<u8>, k: array<u8>, kAt: nat, sigma: array<u8>)
    requires IsWidth(w) && kAt + 32 <= k.Length && z.Length == 16 && x.Length == 64 && sigma.Length == 16
    modifies x
    ensures x[..] == Salsa20Block(old(Slice(z, 0, 16)), old(Slice(k, kAt, 32)), old(Slice(sigma, 0, 16)))
  {
    CoreSalsa20(w, x, 0, z, 0, k, kAt, sigma);
    assert x[..] == x[0..64];
  }

  lemma StreamBlock(nonce: seq<int>, key: seq<int>, v: nat, input: seq<int>)
    requires |nonce| == 8 && |key| == 32 && |input| == 16
    requires input[..8] == nonce && input[8..16] == ToBytes(v, 8)
    ensures forall j :: 0 <= j < 64 ==> Salsa20Block(input, key, Sigma())[j] == Salsa20Stream(nonce, key)(64 * v + j)
  {
    var b := Salsa20Block(input, key, Sigma());
    BlockInput(nonce, key, v, input);
    BytesOfBlock(Salsa20Stream(nonce, key), _ => b, v);
  }

  lemma BlockInput(nonce: seq<int>, key: seq<int>, i: nat, input: seq<int>)
    requires |nonce| == 8 && |key| == 32 && |input| == 16
    requires input[..8] == nonce && input[8..16] == ToBytes(i, 8)
    ensures Salsa20Block(input, key, Sigma()) == KeyBlock(nonce, key, i)
  {
    assert input == nonce + ToBytes(i, 8);
  }

  method Chunk(w: nat, c: array<u8>, cAt: nat, m: array?<u8>, mAt: nat, n: nat, done: nat,
               z: array<u8>, x: array<u8>, k: array<u8>, kAt: nat, sigma: array<u8>,
               ghost v: nat, ghost nonce: seq<int>, ghost key: seq<int>, ghost f: nat -> int, ghost s: seq<int>,
               ghost target: seq<int>, ghost old_c: seq<int>)
    requires IsWidth(w) && n <= 64 && done == 64 * v && done + n <= |target| == |s|
    requires kAt + 32 <= k.Length && z.Length == 16 && x.Length == 64
    requires sigma.Length == 16 && sigma[..] == Sigma() && (m != c || mAt == cAt)
    requires x != c && x != z && x != k && x != sigma && x != m
    requires z[..8] == nonce && z[8..16] == ToBytes(v, 8) && Slice(k, kAt, 32) == key
    requires |key| == 32 && f == Salsa20Stream(nonce, key)
    requires target == Xored(s, f)
    requires Progress(c, old_c, cAt, target, done) && Unread(m, mAt, s, done)
    modifies c, x
    ensures Progress(c, old_c, cAt, target, done + n) && Unread(m, mAt, s, done + n)
  {
    NextBlock(w, x, z, k, kAt, sigma, nonce, key, v, f);
    XorChunk(c, cAt, m, mAt, x, n, done, s, target, old_c, f);
  }

  // The body of the while loop.
  method FullChunk(w: nat, c: array<u8>, cAt: nat, m: array?<u8>, mAt: nat, done: nat,
                   z: array<u8>, x: array<u8>, k: array<u8>, kAt: nat, sigma: array<u8>,
                   ghost v: nat, ghost nonce: seq<int>, ghost key: seq<int>, ghost f: nat -> int, ghost s: seq<int>,
                   ghost target: seq<int>, ghost old_c: seq<int>)
    requires IsWidth(w) && done == 64 * v && done + 64 <= |target| == |s|
    requires kAt + 32 <= k.Length && z.Length == 16 && x.Length == 64
    requires sigma.Length == 16 && sigma[..] == Sigma() && (m != c || mAt == cAt)
    requires x != c && x != z && x != k && x != sigma && x != m && z != c && z != m
    requires z[..8] == nonce && z[8..16] == ToBytes(v, 8) && Slice(k, kAt, 32) == key
    requires |key| == 32 && f == Salsa20Stream(nonce, key)
    requires target == Xored(s, f)
    requires Progress(c, old_c, cAt, target, done) && Unread(m, mAt, s, done)
    modifies c, x, z
    ensures Progress(c, old_c, cAt, target, done + 64) && Unread(m, mAt, s, done + 64)
    ensures z[..8] == nonce && z[8..16] == ToBytes(v + 1, 8)
  {
    Chunk(w, c, cAt, m, mAt, 64, done, z, x, k, kAt, sigma, v, nonce, key, f, s, target, old_c);
    Advance(z, v, c, old_c, cAt, target, m, mAt, s, done + 64);
  }

  // The counter goes on, and what has been written stays.
  method Advance(z: array<u8>, ghost v: nat, c: array<u8>, ghost old_c: seq<int>, ghost cAt: nat,
                 ghost target: seq<int>, m: array?<u8>, ghost mAt: nat, ghost s: seq<int>, ghost done: nat)
    requires z.Length == 16 && z != c && z != m && z[8..16] == ToBytes(v, 8)
    requires Progress(c, old_c, cAt, target, done) && Unread(m, mAt, s, done)
    modifies z
    ensures z[..8] == old(z[..8]) && z[8..16] == ToBytes(v + 1, 8)
    ensures Progress(c, old_c, cAt, target, done) && Unread(m, mAt, s, done)
  {
    Increment(z, v);
  }

  method CopyNonce(z: array<u8>, n: array<u8>, nAt: nat)
    requires z != n && z.Length == 16 && nAt + 8 <= n.Length
    modifies z
    ensures z[..8] == n[nAt..nAt + 8] && z[8..16] == ToBytes(0, 8)
  {
    ghost var s := n[nAt..nAt + 8];
    for i := 0 to 16
      invariant forall j :: 0 <= j < i ==> z[j] == 0
    {
      z[i] := 0;
    }
    for i := 0 to 8
      invariant forall j :: 0 <= j < i ==> z[j] == s[j]
      invariant forall j :: 8 <= j < 16 ==> z[j] == 0
    {
      assert n[nAt + i] == s[i];
      z[i] := n[nAt + i];
    }
    SumZero(z[8..16], 256, 8);
    BytesOfValue(z[8..16]);
  }

  // The while loop and the last, shorter chunk.
  method Chunks(w: nat, c: array<u8>, cAt: nat, m: array?<u8>, mAt: nat, b: nat,
                z: array<u8>, k: array<u8>, kAt: nat,
                ghost nonce: seq<int>, ghost key: seq<int>, ghost f: nat -> int, ghost s: seq<int>,
                ghost target: seq<int>, ghost old_c: seq<int>)
    requires IsWidth(w) && kAt + 32 <= k.Length && z.Length == 16 && c != k && c != z && m != z && z != k
    requires b == |target| == |s| && (m != c || mAt == cAt)
    requires z[..8] == nonce && z[8..16] == ToBytes(0, 8) && Slice(k, kAt, 32) == key
    requires |key| == 32 && f == Salsa20Stream(nonce, key)
    requires target == Xored(s, f)
    requires Progress(c, old_c, cAt, target, 0) && Unread(m, mAt, s, 0)
    modifies c, z
    ensures Progress(c, old_c, cAt, target, b)
  {
    var x := new u8[64];
    var sigma := SigmaBytes();
    var left, done := b, 0;
    ghost var v := 0;
    while left >= 64
      invariant done + left == b && done == 64 * v
      invariant Slice(k, kAt, 32) == key && sigma[..] == Sigma()
      invariant z[..8] == nonce && z[8..16] == ToBytes(v, 8)
      invariant Progress(c, old_c, cAt, target, done) && Unread(m, mAt, s, done)
      decreases left
    {
      FullChunk(w, c, cAt, m, mAt, done, z, x, k, kAt, sigma, v, nonce, key, f, s, target, old_c);
      left := left - 64;
      done, v := done + 64, v + 1;
    }
    if left > 0 {
      Chunk(w, c, cAt, m, mAt, left, done, z, x, k, kAt, sigma, v, nonce, key, f, s, target, old_c);
    }
  }

  method CryptoStreamSalsa20Xor(w: nat, c: array<u8>, cAt: nat, m: array?<u8>, mAt: nat, b: nat,
                                n: array<u8>, nAt: nat, k: array<u8>, kAt: nat)
    requires IsWidth(w) && cAt + b <= c.Length && nAt + 8 <= n.Length && kAt + 32 <= k.Length
    requires m != null ==> mAt + b <= m.Length && (m != c || mAt == cAt)
    requires c != k
    modifies c
    ensures c[cAt..cAt + b]
         == Xored(old(Message(m, mAt, b)), Salsa20Stream(old(Slice(n, nAt, 8)), old(Slice(k, kAt, 32))))
    ensures forall i :: 0 <= i < cAt || cAt + b <= i < c.Length ==> c[i] == old(c[i])
  {
    if b == 0 {
      return;
    }
    ghost var s, nonce, key := Message(m, mAt, b), Slice(n, nAt, 8), Slice(k, kAt, 32);
    ghost var f := Salsa20Stream(nonce, key);
    ghost var target := Xored(s, f);
    var z := new u8[16];
    CopyNonce(z, n, nAt);
    Start(c, cAt, m, mAt, s, target);
    Chunks(w, c, cAt, m, mAt, b, z, k, kAt, nonce, key, f, s, target, c[..]);
    Finished(c, old(c[..]), cAt, target);
  }

  lemma Start(c: array<u8>, cAt: nat, m: array?<u8>, mAt: nat, s: seq<int>, target: seq<int>)
    requires |s| == |target| && cAt + |s| <= c.Length
    requires m != null ==> mAt + |s| <= m.Length
    requires s == Message(m, mAt, |s|)
    ensures Progress(c, c[..], cAt, target, 0) && Unread(m, mAt, s, 0)
  {
  }

  lemma Finished(c: array<u8>, old_c: seq<int>, cAt: nat, target: seq<int>)
    requires Progress(c, old_c, cAt, target, |target|)
    ensures c[cAt..cAt + |target|] == target
  {
  }

  method SigmaBytes() returns (sigma: array<u8>)
    ensures fresh(sigma) && sigma.Length == 16 && sigma[..] == Sigma()
  {
    sigma := new u8[] [101, 120, 112, 97, 110, 100, 32, 51, 50, 45, 98, 121, 116, 101, 32, 107];
  }

  // The derived key of XSalsa20.
  method DeriveKey(w: nat, s: array<u8>, n: array<u8>, nAt: nat, k: array<u8>, kAt: nat)
    requires IsWidth(w) && s.Length == 32 && nAt + 16 <= n.Length && kAt + 32 <= k.Length
    modifies s
    ensures s[..] == HSalsa20(old(Slice(n, nAt, 16)), old(Slice(k, kAt, 32)), Sigma())
  {
    var sigma := SigmaBytes();
    assert Slice(sigma, 0, 16) == sigma[..];
    WriteKey(w, s, n, nAt, k, kAt, sigma);
  }

  method WriteKey(w: nat, s: array<u8>, n: array<u8>, nAt: nat, k: array<u8>, kAt: nat, sigma: array<u8>)
    requires IsWidth(w) && s.Length == 32 && nAt + 16 <= n.Length && kAt + 32 <= k.Length && sigma.Length == 16
    modifies s
    ensures s[..] == HSalsa20(old(Slice(n, nAt, 16)), old(Slice(k, kAt, 32)), old(Slice(sigma, 0, 16)))
  {
    CoreHsalsa20(w, s, 0, n, nAt, k, kAt, sigma);
    assert s[..] == s[0..32];
  }

  // crypto_stream_xor; crypto_stream is the same with a null message.
  method CryptoStreamXor(w: nat, c: array<u8>, cAt: nat, m: array?<u8>, mAt: nat, d: nat,
                         n: array<u8>, nAt: nat, k: array<u8>, kAt: nat)
    requires IsWidth(w) && cAt + d <= c.Length && nAt + 24 <= n.Length && kAt + 32 <= k.Length
    requires m != null ==> mAt + d <= m.Length && (m != c || mAt == cAt)
    modifies c
    ensures c[cAt..cAt + d]
         == Xored(old(Message(m, mAt, d)), XSalsa20Stream(old(Slice(n, nAt, 24)), old(Slice(k, kAt, 32))))
    ensures forall i :: 0 <= i < cAt || cAt + d <= i < c.Length ==> c[i] == old(c[i])
  {
    ghost var nonce := Slice(n, nAt, 24);
    assert nonce[..16] == Slice(n, nAt, 16) && nonce[16..] == Slice(n, nAt + 16, 8);
    var s := new u8[32];
    DeriveKey(w, s, n, nAt, k, kAt);
    assert Slice(s, 0, 32) == s[..];
    CryptoStreamSalsa20Xor(w, c, cAt, m, mAt, d, n, nAt + 16, s, 0);
  }
}
