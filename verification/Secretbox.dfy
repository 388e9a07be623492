/** Authenticated encryption (crypto_verify_16, crypto_secretbox and crypto_secretbox_open of
    src/tweetnacl.c). */
module Secretbox {
  import opened Bits
  import opened Digits
  import Poly1305
  import opened Salsa20
  import opened Stream
  import opened Wrappers

  // ---- what the two functions compute, for any key stream f ----

  function Box(m: seq<int>, f: nat -> int): (c: seq<int>)
    requires |m| >= 32
    ensures |c| == |m|
  {
    Sealed(Xored(m, f))
  }

  // The first 32 bytes of the cipher text are the one-time key; a tag takes their place.
  function Sealed(x: seq<int>): (c: seq<int>)
    requires |x| >= 32
    ensures |c| == |x|
  {
    Zeros(16) + Poly1305.Tag(x[32..], x[..32]) + x[32..]
  }

  function Unbox(c: seq<int>, f: nat -> int): Option<seq<int>> {
    if |c| < 32 || c[16..32] != Poly1305.Tag(c[32..], Xored(Zeros(32), f)) then None
    else Some(Zeros(32) + Xored(c, f)[32..])
  }

  // Opening a box gives the message back, its first 32 bytes cleared, exactly when both sides
  // take the same one-time key, that is, at least when the message starts with 32 zeros.
  lemma UnboxBox(m: seq<int>, f: nat -> int)
    requires |m| >= 32
    ensures var x := Xored(m, f);
            var same := Poly1305.Tag(x[32..], x[..32]) == Poly1305.Tag(x[32..], Xored(Zeros(32), f));
            Unbox(Box(m, f), f) == if same then Some(Zeros(32) + m[32..]) else None
  {
    var c, x := Box(m, f), Xored(m, f);
    assert c[32..] == x[32..];
    assert c[16..32] == Poly1305.Tag(x[32..], x[..32]);
    XoredTwice(c, m, f, 32);
  }

  lemma PaddedRoundTrip(m: seq<int>, f: nat -> int)
    requires |m| >= 32 && m[..32] == Zeros(32)
    ensures Unbox(Box(m, f), f) == Some(m)
  {
    UnboxBox(m, f);
    XoredPrefix(m, f, 32);
    assert Zeros(32) + m[32..] == m;
  }

  // ---- the comparison ----

  // The difference less 1 has bit 8 set, in w bits, only when there is none; 1 is taken from that bit.
  lemma ZeroTest(w: nat, d: nat)
    requires IsWidth(w) && d < 256
    ensures Wrap(w, d - 1) / 256 % 2 - 1 == if d == 0 then 0 else -1
  {
  }

  method CryptoVerify16(w: nat, x: array<u8>, xAt: nat, y: array<u8>, yAt: nat) returns (r: int)
    requires IsWidth(w) && xAt + 16 <= x.Length && yAt + 16 <= y.Length
    ensures r == if x[xAt..xAt + 16] == y[yAt..yAt + 16] then 0 else -1
  {
    ghost var s, t := x[xAt..xAt + 16], y[yAt..yAt + 16];
    var d: word := 0;
    Pow2Values();
    for i := 0 to 16
      invariant d < 256
      invariant d == 0 <==> forall j :: 0 <= j < i ==> s[j] == t[j]
    {
      assert s[i] == x[xAt + i] && t[i] == y[yAt + i];
      XorByte(s[i], t[i]);
      XorIsZero(s[i], t[i]);
      OrRange(d, Xor(s[i], t[i]), 8);
      d := Or(d, Xor(x[xAt + i], y[yAt + i]));
    }
    ZeroTest(w, d);
    var e: int := d;
    r := Wrap(w, e - 1) / 256 % 2 - 1;
  }

  method CryptoOnetimeauthVerify(w: nat, h: array<u8>, hAt: nat, m: array<u8>, mAt: nat, n: nat,
                                 k: array<u8>, kAt: nat) returns (r: int)
    requires IsWidth(w) && hAt + 16 <= h.Length && mAt + n <= m.Length && kAt + 32 <= k.Length
    ensures r == if h[hAt..hAt + 16] == Poly1305.Tag(m[mAt..mAt + n], k[kAt..kAt + 32]) then 0 else -1
  {
    var x := new u8[16];
    Poly1305.CryptoOnetimeauth(x, 0, m, mAt, n, k, kAt, w);
    r := CryptoVerify16(w, h, hAt, x, 0);
  }

  // ---- the box ----

  // The tag overwrites the second half of the one-time key that it is computed with; then the
  // first half is cleared.
  method Seal(w: nat, c: array<u8>, cAt: nat, d: nat)
    requires IsWidth(w) && d >= 32 && cAt + d <= c.Length
    modifies c
    ensures c[cAt..cAt + d] == Sealed(old(c[cAt..cAt + d]))
    ensures forall i :: 0 <= i < c.Length && !(cAt <= i < cAt + d) ==> c[i] == old(c[i])
  {
    ghost var x := c[cAt..cAt + d];
    PutTag(w, c, cAt, d);
    ghost var tag, tagged := c[cAt + 16..cAt + 32], c[..];
    ClearHead(c, cAt);
    Kept(c[..], tagged, cAt + 16, cAt + 32);
    Kept(c[..], tagged, cAt + 32, cAt + d);
    Join(c[..], cAt, d, tag, x);
  }

  method PutTag(w: nat, c: array<u8>, cAt: nat, d: nat)
    requires IsWidth(w) && d >= 32 && cAt + d <= c.Length
    modifies c
    ensures var x := old(c[cAt..cAt + d]);
            c[cAt + 16..cAt + 32] == Poly1305.Tag(x[32..], x[..32]) && c[cAt + 32..cAt + d] == x[32..]
    ensures forall i :: 0 <= i < c.Length && !(cAt + 16 <= i < cAt + 32) ==> c[i] == old(c[i])
  {
    ghost var x, all := c[cAt..cAt + d], c[..];
    assert c[cAt + 32..cAt + 32 + (d - 32)] == x[32..] && c[cAt..cAt + 32] == x[..32];
    Poly1305.CryptoOnetimeauth(c, cAt + 16, c, cAt + 32, d - 32, c, cAt, w);
    Kept(c[..], all, cAt + 32, cAt + d);
  }

  method ClearHead(c: array<u8>, cAt: nat)
    requires cAt + 16 <= c.Length
    modifies c
    ensures forall j :: cAt <= j < cAt + 16 ==> c[j] == 0
    ensures forall j :: 0 <= j < c.Length && !(cAt <= j < cAt + 16) ==> c[j] == old(c[j])
  {
    for i := 0 to 16
      invariant forall j :: cAt <= j < cAt + i ==> c[j] == 0
      invariant forall j :: 0 <= j < c.Length && !(cAt <= j < cAt + 16) ==> c[j] == old(c[j])
    {
      c[cAt + i] := 0;
    }
  }

  lemma Kept(a: seq<int>, b: seq<int>, i: nat, j: nat)
    requires |a| == |b| && i <= j <= |a| && forall k :: i <= k < j ==> a[k] == b[k]
    ensures a[i..j] == b[i..j]
  {
  }

  lemma Join(c: seq<int>, cAt: nat, d: nat, tag: seq<int>, x: seq<int>)
    requires d >= 32 && cAt + d <= |c| && |tag| == 16 && |x| == d
    requires forall j :: cAt <= j < cAt + 16 ==> c[j] == 0
    requires c[cAt + 16..cAt + 32] == tag && c[cAt + 32..cAt + d] == x[32..]
    ensures c[cAt..cAt + d] == Zeros(16) + tag + x[32..]
  {
    assert c[cAt..cAt + d] == c[cAt..cAt + 16] + c[cAt + 16..cAt + 32] + c[cAt + 32..cAt + d];
    assert c[cAt..cAt + 16] == Zeros(16);
  }

  method CryptoSecretbox(w: nat, c: array<u8>, cAt: nat, m: array<u8>, mAt: nat, d: nat,
                         n: array<u8>, nAt: nat, k: array<u8>, kAt: nat) returns (r: int)
    requires IsWidth(w) && cAt + d <= c.Length && mAt + d <= m.Length && (m != c || mAt == cAt)
    requires nAt + 24 <= n.Length && kAt + 32 <= k.Length
    modifies c
    ensures r == if d < 32 then -1 else 0
    ensures d >= 32 ==>
      c[cAt..cAt + d] == Box(old(Slice(m, mAt, d)), XSalsa20Stream(old(Slice(n, nAt, 24)), old(Slice(k, kAt, 32))))
    ensures forall i :: 0 <= i < c.Length && (d < 32 || i < cAt || cAt + d <= i) ==> c[i] == old(c[i])
  {
    if d < 32 {
      return -1;
    }
    ghost var s, f := Slice(m, mAt, d), XSalsa20Stream(Slice(n, nAt, 24), Slice(k, kAt, 32));
    assert Message(m, mAt, d) == s;
    CryptoStreamXor(w, c, cAt, m, mAt, d, n, nAt, k, kAt);
    assert c[cAt..cAt + d] == Xored(s, f);
    Seal(w, c, cAt, d);
    assert c[cAt..cAt + d] == Box(s, f);
    r := 0;
  }

  // Clears the first 32 bytes.
  method ClearPad(m: array<u8>, mAt: nat, d: nat)
    requires d >= 32 && mAt + d <= m.Length
    modifies m
    ensures m[mAt..mAt + d] == Zeros(32) + old(m[mAt..mAt + d])[32..]
    ensures forall i :: 0 <= i < m.Length && !(mAt <= i < mAt + d) ==> m[i] == old(m[i])
  {
    ghost var all := m[..];
    for i := 0 to 32
      invariant forall j :: mAt <= j < mAt + i ==> m[j] == 0
      invariant forall j :: 0 <= j < m.Length && !(mAt <= j < mAt + i) ==> m[j] == all[j]
    {
      m[mAt + i] := 0;
    }
    assert m[mAt..mAt + 32] == Zeros(32);
    assert m[mAt + 32..mAt + d] == all[mAt + 32..mAt + d] == all[mAt..mAt + d][32..];
    assert m[mAt..mAt + d] == m[mAt..mAt + 32] + m[mAt + 32..mAt + d];
  }

  lemma SubRange(x: seq<u8>, at: nat, n: nat, i: nat, j: nat)
    requires at + n <= |x| && i <= j <= n
    ensures x[at + i..at + j] == x[at..at + n][i..j]
  {
    var a, b := x[at + i..at + j], x[at..at + n][i..j];
    assert |a| == |b| && forall k :: 0 <= k < j - i ==> a[k] == b[k];
  }

  // The tag check of crypto_secretbox_open.
  method CheckTag(w: nat, c: array<u8>, cAt: nat, d: nat, x: array<u8>) returns (r: int)
    requires IsWidth(w) && d >= 32 && cAt + d <= c.Length && x.Length == 32
    ensures var s := Slice(c, cAt, d);
            r == if s[16..32] == Poly1305.Tag(s[32..], x[..]) then 0 else -1
  {
    ghost var s := Slice(c, cAt, d);
    SubRange(c[..], cAt, d, 16, 32);
    SubRange(c[..], cAt, d, 32, d);
    assert c[cAt + 32..cAt + 32 + (d - 32)] == s[32..d] == s[32..];
    assert x[0..32] == x[..];
    r := CryptoOnetimeauthVerify(w, c, cAt + 16, c, cAt + 32, d - 32, x, 0);
  }

  // The one-time key: the first 32 bytes of the stream.
  method OneTimeKey(w: nat, x: array<u8>, n: array<u8>, nAt: nat, k: array<u8>, kAt: nat)
    requires IsWidth(w) && x.Length == 32 && nAt + 24 <= n.Length && kAt + 32 <= k.Length
    modifies x
    ensures x[..] == Xored(Zeros(32), XSalsa20Stream(old(Slice(n, nAt, 24)), old(Slice(k, kAt, 32))))
  {
    assert Message(null, 0, 32) == Zeros(32);
    CryptoStreamXor(w, x, 0, null, 0, 32, n, nAt, k, kAt);
    assert x[..] == x[0..0 + 32];
  }

  // Whether the box carries the tag of its cipher text.
  method Authenticate(w: nat, c: array<u8>, cAt: nat, d: nat, n: array<u8>, nAt: nat, k: array<u8>, kAt: nat)
    returns (r: int)
    requires IsWidth(w) && d >= 32 && cAt + d <= c.Length && nAt + 24 <= n.Length && kAt + 32 <= k.Length
    ensures r == if Unbox(Slice(c, cAt, d), XSalsa20Stream(Slice(n, nAt, 24), Slice(k, kAt, 32))).Some? then 0 else -1
  {
    var x := new u8[32];
    ghost var s := Slice(c, cAt, d);
    OneTimeKey(w, x, n, nAt, k, kAt);
    assert Slice(c, cAt, d) == s;
    r := CheckTag(w, c, cAt, d, x);
  }

  // The message, with the first 32 bytes cleared.
  method Decrypt(w: nat, m: array<u8>, mAt: nat, c: array<u8>, cAt: nat, d: nat,
                 n: array<u8>, nAt: nat, k: array<u8>, kAt: nat)
    requires IsWidth(w) && d >= 32 && cAt + d <= c.Length && mAt + d <= m.Length && (m != c || mAt == cAt)
    requires nAt + 24 <= n.Length && kAt + 32 <= k.Length
    modifies m
    ensures m[mAt..mAt + d] == Zeros(32)
         + Xored(old(Slice(c, cAt, d)), XSalsa20Stream(old(Slice(n, nAt, 24)), old(Slice(k, kAt, 32))))[32..]
    ensures forall i :: 0 <= i < m.Length && !(mAt <= i < mAt + d) ==> m[i] == old(m[i])
  {
    ghost var s, f := Slice(c, cAt, d), XSalsa20Stream(Slice(n, nAt, 24), Slice(k, kAt, 32));
    assert Message(c, cAt, d) == s;
    CryptoStreamXor(w, m, mAt, c, cAt, d, n, nAt, k, kAt);
    assert m[mAt..mAt + d] == Xored(s, f);
    ClearPad(m, mAt, d);
  }

  method CryptoSecretboxOpen(w: nat, m: array<u8>, mAt: nat, c: array<u8>, cAt: nat, d: nat,
                             n: array<u8>, nAt: nat, k: array<u8>, kAt: nat) returns (r: int)
    requires IsWidth(w) && cAt + d <= c.Length && mAt + d <= m.Length && (m != c || mAt == cAt)
    requires nAt + 24 <= n.Length && kAt + 32 <= k.Length
    modifies m
    ensures var message := Unbox(old(Slice(c, cAt, d)), XSalsa20Stream(old(Slice(n, nAt, 24)), old(Slice(k, kAt, 32))));
            if message.Some? then r == 0 && m[mAt..mAt + d] == message.value
            else r == -1 && m[..] == old(m[..])
    ensures forall i :: 0 <= i < m.Length && !(mAt <= i < mAt + d) ==> m[i] == old(m[i])
  {
    if d < 32 {
      return -1;
    }
    ghost var s, f := Slice(c, cAt, d), XSalsa20Stream(Slice(n, nAt, 24), Slice(k, kAt, 32));
    r := Authenticate(w, c, cAt, d, n, nAt, k, kAt);
    if r != 0 {
      return -1;
    }
    Decrypt(w, m, mAt, c, cAt, d, n, nAt, k, kAt);
    assert m[mAt..mAt + d] == Zeros(32) + Xored(s, f)[32..];
    r := 0;
  }
}
