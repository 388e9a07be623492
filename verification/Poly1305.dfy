/** The one-time authenticator (add1305 and crypto_onetimeauth of src/tweetnacl.c) against
    section 2.5 of RFC 8439.  `u32` is an `unsigned long`, which has 32 or 64 bits: every stored
    value stays below 2^32, so the width never shows, save in the mask -(h[16]>>7), where it is
    the parameter w. */
module Poly1305 {
  import opened Bits
  import opened Digits

  type u32 = x: int | 0 <= x < 0x1_0000_0000

  const Q: int := 0x3_ffffffff_ffffffff_ffffffff_fffffffb

  // ---- the function of RFC 8439, section 2.5 ----

  // Clamping: the top four bits of bytes 3, 7, 11, 15 and the bottom two of 4, 8, 12 are cleared.
  function Clamp(k: seq<int>): (r: seq<int>)
    requires |k| >= 16
    ensures |r| == 17
  {
    [k[0], k[1], k[2], k[3] % 16, k[4] - k[4] % 4, k[5], k[6], k[7] % 16,
     k[8] - k[8] % 4, k[9], k[10], k[11] % 16, k[12] - k[12] % 4, k[13], k[14], k[15] % 16, 0]
  }

  function Min(x: int, y: int): int {
    if x <= y then x else y
  }

  // A block with its end marker.
  function Block(m: seq<int>): int {
    Value(m + [1], 256)
  }

  function Accumulate(a: int, m: seq<int>, r: int): int
    decreases |m|
  {
    if m == [] then a
    else
      var n := Min(16, |m|);
      Accumulate((a + Block(m[..n])) * r % Q, m[n..], r)
  }

  function Tag(m: seq<int>, k: seq<int>): seq<int>
    requires |k| == 32
  {
    ToBytes(Accumulate(0, m, Value(Clamp(k), 256)) + Value(k[16..], 256), 16)
  }

  // ---- the accumulator as a polynomial in r ----

  function Blocks(m: seq<int>): nat
    decreases |m|
  {
    if m == [] then 0 else 1 + Blocks(m[Min(16, |m|)..])
  }

  // The blocks, each times the power of r that its position gives it.
  function Polynomial(m: seq<int>, r: int): int
    decreases |m|
  {
    if m == [] then 0
    else
      var n := Min(16, |m|);
      Block(m[..n]) * Pow(r, Blocks(m)) + Polynomial(m[n..], r)
  }

  lemma {:induction false} AccumulateIsPolynomial(a: int, m: seq<int>, r: int)
    requires 0 <= a < Q
    ensures Accumulate(a, m, r) == (a * Pow(r, Blocks(m)) + Polynomial(m, r)) % Q
    decreases |m|
  {
    if m == [] {
      assert a * Pow(r, 0) == a;
    } else {
      var n := Min(16, |m|);
      var b, rest := Block(m[..n]), m[n..];
      var p := Pow(r, Blocks(rest));
      AccumulateIsPolynomial((a + b) * r % Q, rest, r);
      HornerStep(a, b, r, p, Polynomial(rest, r));
    }
  }

  lemma HornerStep(a: int, b: int, r: int, p: int, z: int)
    ensures ((a + b) * r % Q * p + z) % Q == (a * (r * p) + (b * (r * p) + z)) % Q
  {
    var x := (a + b) * r;
    var q := x / Q;
    assert (a + b) * r * p == a * (r * p) + b * (r * p);
    assert x * p == Q * (q * p) + x % Q * p by {
      assert x == Q * q + x % Q;
      assert (Q * q + x % Q) * p == Q * q * p + x % Q * p;
    }
    ModShift(x % Q * p + z, Q, q * p);
  }

  // ---- add1305 ----

  function Plus(s: seq<int>, t: seq<int>): (d: seq<int>)
    requires |s| == |t|
    ensures |d| == |s|
  {
    seq(|s|, i requires 0 <= i < |s| => s[i] + t[i])
  }

  lemma {:induction false} PlusCarry(s: seq<int>, t: seq<int>, k: nat)
    requires |s| == |t| && k <= |s| && AreDigits(s, 256) && AreDigits(t, 256)
    ensures 0 <= CarryIn(Plus(s, t), 256, 0, k) <= 1
  {
    if k > 0 {
      PlusCarry(s, t, k - 1);
    }
  }

  lemma PlusValue(s: seq<int>, t: seq<int>)
    requires |s| == |t| == 17 && AreDigits(s, 256) && AreDigits(t, 256)
    ensures AreDigits(Remainders(Plus(s, t), 256, 0), 256)
    ensures Value(Remainders(Plus(s, t), 256, 0), 256) == (Value(s, 256) + Value(t, 256)) % Pow(256, 17)
  {
    var d := Plus(s, t);
    var r, c := Remainders(d, 256, 0), CarryIn(d, 256, 0, 17);
    SumOfSums(d, s, t, 1, 256, 17);
    RemaindersSum(d, 256, 0, 17);
    SumBounds(r, 256, 17);
    WithoutTop(Value(s, 256) + Value(t, 256), Pow(256, 17), c, Value(r, 256));
  }

  lemma WithoutTop(v: int, p: int, c: int, r: int)
    requires 0 <= r < p && r == v - c * p
    ensures r == v % p
  {
    ModUnique(v, p, c, r);
  }

  method Add1305(h: array<u32>, c: array<u32>)
    requires h != c && h.Length == 17 && c.Length == 17
    requires AreDigits(h[..], 256) && AreDigits(c[..], 256)
    modifies h
    ensures AreDigits(h[..], 256)
    ensures Value(h[..], 256) == (old(Value(h[..], 256)) + Value(c[..], 256)) % Pow(256, 17)
  {
    ghost var s, t, d := h[..], c[..], Plus(h[..], c[..]);
    ghost var r := Remainders(d, 256, 0);
    var u: u32 := 0;
    for j := 0 to 17
      invariant u == CarryIn(d, 256, 0, j)
      invariant forall k :: 0 <= k < j ==> h[k] == r[k]
      invariant forall k :: j <= k < 17 ==> h[k] == s[k]
    {
      PlusCarry(s, t, j);
      CarryAt(d, 256, 0, j);
      assert c[j] == t[j] < 256 && h[j] == s[j] < 256 && d[j] == s[j] + t[j];
      u := u + h[j] + c[j];
      h[j] := u % 256;
      u := u / 256;
    }
    assert h[..] == r;
    PlusValue(s, t);
  }

  // ---- the product modulo 2^130 - 5 ----

  // The factor of h[j] in limb i of the product: 256^17 is 320 modulo Q.
  function Coefficient(r: seq<int>, i: nat, j: nat): int
    requires |r| == 17 && i < 17 && j < 17
  {
    if j <= i then r[i - j] else 320 * r[i + 17 - j]
  }

  function Limb(h: seq<int>, r: seq<int>, i: nat, k: nat): int
    requires |h| == |r| == 17 && i < 17 && k <= 17
  {
    if k == 0 then 0 else Limb(h, r, i, k - 1) + h[k - 1] * Coefficient(r, i, k - 1)
  }

  // The limbs of the product of the first k digits of h with r.
  function Limbs(h: seq<int>, r: seq<int>, k: nat): (x: seq<int>)
    requires |h| == |r| == 17 && k <= 17
    ensures |x| == 17
  {
    seq(17, i requires 0 <= i < 17 => Limb(h, r, i, k))
  }

  function Row(r: seq<int>, j: nat): (x: seq<int>)
    requires |r| == 17 && j < 17
    ensures |x| == 17
  {
    seq(17, i requires 0 <= i < 17 => Coefficient(r, i, j))
  }

  lemma {:induction false} SumScale(s: seq<int>, x: seq<int>, c: int, b: int, k: nat)
    requires k <= |s| && k <= |x| && forall i :: 0 <= i < k ==> s[i] == c * x[i]
    ensures Sum(s, b, k) == c * Sum(x, b, k)
  {
    if k > 0 {
      SumScale(s, x, c, b, k - 1);
      Linear(0, x[k - 1], c, Pow(b, k - 1), Sum(x, b, k - 1));
    }
  }

  lemma Radix17()
    ensures Pow(256, 17) == 64 * Q + 320
  {
    PowAdd(256, 8, 9);
    PowAdd(256, 4, 4);
    PowAdd(256, 4, 5);
    assert Pow(256, 4) == 0x1_0000_0000;
    assert Pow(256, 5) == 256 * Pow(256, 4);
  }

  lemma RowValue(r: seq<int>, j: nat)
    requires |r| == 17 && j < 17
    ensures Value(Row(r, j), 256) == Pow(256, j) * Value(r, 256) - 64 * Q * Sum(r[17 - j..], 256, j)
  {
    var p, q := Pow(256, j), Pow(256, 17 - j);
    RowParts(r, j);
    SumSplit(r, 256, 17 - j, j);
    PowAdd(256, j, 17 - j);
    Radix17();
    FoldRow(p, q, Sum(r, 256, 17 - j), Sum(r[17 - j..], 256, j));
  }

  lemma RowParts(r: seq<int>, j: nat)
    requires |r| == 17 && j < 17
    ensures Value(Row(r, j), 256) == 320 * Sum(r[17 - j..], 256, j) + Pow(256, j) * Sum(r, 256, 17 - j)
  {
    var row := Row(r, j);
    SumSplit(row, 256, j, 17 - j);
    assert forall i :: 0 <= i < 17 - j ==> row[j..][i] == r[i];
    assert row[j..] == r[..17 - j];
    SumDepends(row[j..], r, 256, 17 - j);
    SumScale(row, r[17 - j..], 320, 256, j);
  }

  lemma FoldRow(p: int, q: int, low: int, high: int)
    requires p * q == 64 * Q + 320
    ensures 320 * high + p * low == p * (low + q * high) - 64 * Q * high
  {
    assert p * (low + q * high) == p * low + p * q * high;
  }

  function Excess(h: seq<int>, r: seq<int>, k: nat): int
    requires |h| == |r| == 17 && k <= 17
  {
    if k == 0 then 0 else Excess(h, r, k - 1) + h[k - 1] * Sum(r[18 - k..], 256, k - 1)
  }

  lemma {:induction false} LimbsValue(h: seq<int>, r: seq<int>, k: nat)
    requires |h| == |r| == 17 && k <= 17
    ensures Value(Limbs(h, r, k), 256) == Sum(h, 256, k) * Value(r, 256) - 64 * Q * Excess(h, r, k)
  {
    if k == 0 {
      SumZero(Limbs(h, r, 0), 256, 17);
    } else {
      var j := k - 1;
      LimbsValue(h, r, j);
      assert forall i :: 0 <= i < 17 ==> Limbs(h, r, k)[i] == Limbs(h, r, j)[i] + h[j] * Row(r, j)[i];
      SumOfSums(Limbs(h, r, k), Limbs(h, r, j), Row(r, j), h[j], 256, 17);
      RowValue(r, j);
      AddRow(Sum(h, 256, j), h[j], Pow(256, j), Value(r, 256), Excess(h, r, j), Sum(r[17 - j..], 256, j));
    }
  }

  lemma AddRow(v: int, x: int, p: int, r: int, e: int, f: int)
    ensures v * r - 64 * Q * e + x * (p * r - 64 * Q * f) == (v + x * p) * r - 64 * Q * (e + x * f)
  {
  }

  lemma {:induction false} LimbBound(h: seq<int>, r: seq<int>, i: nat, k: nat)
    requires |h| == |r| == 17 && i < 17 && k <= 17
    requires AreDigits(h, 256) && AreDigits(r, 256)
    ensures 0 <= Limb(h, r, i, k) <= k * (255 * 320 * 255)
  {
    if k > 0 {
      LimbBound(h, r, i, k - 1);
      ByteProduct(h[k - 1], Coefficient(r, i, k - 1));
    }
  }

  lemma ByteProduct(x: int, y: int)
    requires 0 <= x <= 255 && 0 <= y <= 320 * 255
    ensures 0 <= x * y <= 255 * 320 * 255
  {
    assert x * y <= 255 * y;
  }

  // The product, limb by limb: every partial sum fits in 32 bits.
  method Multiply(x: array<u32>, h: array<u32>, r: array<u32>)
    requires x != h && x != r && x.Length == h.Length == r.Length == 17
    requires AreDigits(h[..], 256) && AreDigits(r[..], 256)
    modifies x
    ensures x[..] == Limbs(h[..], r[..], 17)
  {
    ghost var s, t := h[..], r[..];
    for i := 0 to 17
      invariant forall k :: 0 <= k < i ==> x[k] == Limb(s, t, k, 17)
    {
      x[i] := 0;
      for j := 0 to 17
        invariant forall k :: 0 <= k < i ==> x[k] == Limb(s, t, k, 17)
        invariant x[i] == Limb(s, t, i, j)
      {
        assert h[j] == s[j] && (if j <= i then r[i - j] == t[i - j] else r[i + 17 - j] == t[i + 17 - j]);
        var factor: u32 := if j <= i then r[i - j] else 320 * r[i + 17 - j];
        LimbBound(s, t, i, j);
        LimbBound(s, t, i, j + 1);
        assert Limb(s, t, i, j + 1) == Limb(s, t, i, j) + s[j] * factor;
        x[i] := x[i] + h[j] * factor;
      }
    }
    assert x[..] == Limbs(s, t, 17);
  }

  // ---- the two carry passes of the loop ----

  lemma {:induction false} FirstCarry(x: seq<int>, k: nat)
    requires k <= 16 && |x| == 17 && forall i :: 0 <= i < 17 ==> 0 <= x[i] < 0x2000_0000
    ensures 0 <= CarryIn(x, 256, 0, k) < 0x40_0000
  {
    if k > 0 {
      FirstCarry(x, k - 1);
    }
  }

  // The bound on the second carry after k limbs.
  function CarryLimit(k: nat): int {
    if k == 0 then 0x4000_0000 else if k == 1 then 0x40_0001 else if k == 2 then 0x4002 else if k == 3 then 0x42 else 1
  }

  lemma {:induction false} SecondCarry(y: seq<int>, w: int, k: nat)
    requires k <= 16 && |y| == 16 && AreDigits(y, 256) && 0 <= w <= 0x4000_0000
    ensures 0 <= CarryIn(y, 256, w, k) <= CarryLimit(k)
  {
    if k > 0 {
      SecondCarry(y, w, k - 1);
    }
  }

  predicate Squeezed(h: seq<int>) {
    |h| == 17 && AreDigits(h[..16], 256) && 0 <= h[16] <= 4
  }

  // Every sum of the carry loop that starts with u fits in 32 bits.
  predicate Fits(s: seq<int>, u: int) {
    forall k :: 0 <= k < |s| ==> 0 <= s[k] + CarryIn(s, 256, u, k) < 0x1_0000_0000
  }

  lemma FirstPassFits(x: seq<int>)
    requires |x| == 17 && forall i :: 0 <= i < 17 ==> 0 <= x[i] < 0x2000_0000
    ensures Fits(x[..16], 0) && 0 <= CarryIn(x[..16], 256, 0, 16) < 0x40_0000
  {
    forall k | 0 <= k <= 16 ensures 0 <= CarryIn(x[..16], 256, 0, k) < 0x40_0000 {
      FirstCarry(x, k);
      CarryDepends(x[..16], x, 256, 0, k);
    }
  }

  lemma SecondPassFits(y: seq<int>, w: int)
    requires |y| == 16 && AreDigits(y, 256) && 0 <= w <= 0x4000_0000
    ensures Fits(y, w) && 0 <= CarryIn(y, 256, w, 16) <= 1
  {
    forall k | 0 <= k <= 16 ensures 0 <= CarryIn(y, 256, w, k) <= 0x4000_0000 {
      SecondCarry(y, w, k);
    }
    SecondCarry(y, w, 16);
  }

  // One of the two carry passes: u enters at the bottom and leaves at the top.
  method CarryPass(h: array<u32>, u: u32) returns (out: u32)
    requires h.Length == 17
    requires Fits(h[..16], u)
    modifies h
    ensures h[..16] == Remainders(old(h[..16]), 256, u) && h[16] == old(h[16])
    ensures out == CarryIn(old(h[..16]), 256, u, 16)
  {
    ghost var s, r := h[..16], Remainders(h[..16], 256, u);
    out := u;
    for j := 0 to 16
      invariant out == CarryIn(s, 256, u, j)
      invariant forall k :: 0 <= k < j ==> h[k] == r[k]
      invariant forall k :: j <= k < 16 ==> h[k] == s[k]
      invariant h[16] == old(h[16])
    {
      CarryAt(s, 256, u, j);
      assert 0 <= s[j] + CarryIn(s, 256, u, j) < 0x1_0000_0000 && h[j] == s[j];
      out := out + h[j];
      h[j] := out % 256;
      out := out / 256;
    }
    assert h[..16] == r;
  }

  lemma Radix16()
    ensures Pow(256, 16) * 4 == Q + 5
  {
    Radix17();
    assert Pow(256, 17) == 256 * Pow(256, 16);
  }

  lemma SqueezeValue(x: seq<int>, y: seq<int>, z: seq<int>, top: int, w: int)
    requires |x| == 17 && |y| == 16 && |z| == 17
    requires y == Remainders(x[..16], 256, 0) && top == x[16] + CarryIn(x[..16], 256, 0, 16)
    requires w == 5 * (top / 4)
    requires z[..16] == Remainders(y, 256, w) && z[16] == top % 4 + CarryIn(y, 256, w, 16)
    ensures Value(z, 256) % Q == Value(x, 256) % Q
  {
    var p := Pow(256, 16);
    SumDepends(x, x[..16], 256, 16);
    SumDepends(z, z[..16], 256, 16);
    RemaindersSum(x[..16], 256, 0, 16);
    RemaindersSum(y, 256, w, 16);
    Radix16();
    FoldTop(Sum(x, 256, 16), x[16], CarryIn(x[..16], 256, 0, 16), CarryIn(y, 256, w, 16), top, p);
    ModShift(Value(z, 256), Q, top / 4);
  }

  lemma FoldTop(v: int, x: int, c: int, d: int, top: int, p: int)
    requires p * 4 == Q + 5 && top == x + c
    ensures v - c * p + 5 * (top / 4) - d * p + (top % 4 + d) * p == v + x * p - Q * (top / 4)
  {
    assert top == 4 * (top / 4) + top % 4;
    assert (top % 4 + d) * p == top % 4 * p + d * p;
    assert (x + c) * p == x * p + c * p;
    assert (4 * (top / 4) + top % 4) * p == (top / 4) * (p * 4) + top % 4 * p;
  }

  // The first carry pass; what exceeds 130 bits comes out, times 5.
  method SplitTop(h: array<u32>) returns (u: u32, ghost top: int)
    requires h.Length == 17 && forall i :: 0 <= i < 17 ==> h[i] < 0x2000_0000
    modifies h
    ensures top == old(h[16]) + CarryIn(old(h[..16]), 256, 0, 16)
    ensures h[..16] == Remainders(old(h[..16]), 256, 0) && h[16] == top % 4
    ensures u == 5 * (top / 4) <= 0x4000_0000
  {
    ghost var x := h[..];
    assert h[..16] == x[..16];
    FirstPassFits(x);
    u := CarryPass(h, 0);
    ghost var y := h[..16];
    var t: int := u + h[16];
    TopBounds(t);
    top := t;
    h[16] := t % 4;
    u := 5 * (t / 4);
    assert h[..16] == y;
  }

  lemma TopBounds(t: int)
    requires 0 <= t < 0x2040_0000
    ensures 0 <= t % 4 < 4 && 0 <= 5 * (t / 4) <= 0x4000_0000
  {
  }

  method Squeeze(h: array<u32>)
    requires h.Length == 17 && forall i :: 0 <= i < 17 ==> h[i] < 0x2000_0000
    modifies h
    ensures Squeezed(h[..])
    ensures Value(h[..], 256) % Q == old(Value(h[..], 256)) % Q
  {
    ghost var x := h[..];
    assert h[..16] == x[..16];
    ghost var top;
    var u;
    u, top := SplitTop(h);
    ghost var y := h[..16];
    SecondPassFits(y, u);
    SecondPass(h, u);
    ghost var z := h[..];
    SqueezeValue(x, y, z, top, u);
    IsSqueezed(y, u, z, top % 4);
  }

  lemma IsSqueezed(y: seq<int>, w: int, z: seq<int>, top: int)
    requires |y| == 16 && |z| == 17 && 0 <= top < 4 && 0 <= CarryIn(y, 256, w, 16) <= 1
    requires z[..16] == Remainders(y, 256, w) && z[16] == top + CarryIn(y, 256, w, 16)
    ensures Squeezed(z)
  {
    var r := Remainders(y, 256, w);
    forall k | 0 <= k < 16 ensures 0 <= r[k] < 256 {
    }
  }

  // The second carry pass; what leaves at the top stays in the top limb.
  method SecondPass(h: array<u32>, u: u32)
    requires h.Length == 17 && Fits(h[..16], u) && h[16] < 4 && 0 <= CarryIn(h[..16], 256, u, 16) <= 1
    modifies h
    ensures h[..][..16] == Remainders(old(h[..16]), 256, u)
    ensures h[..][16] == old(h[16]) + CarryIn(old(h[..16]), 256, u, 16)
  {
    var out := CarryPass(h, u);
    out := out + h[16];
    h[16] := out;
    assert h[..][..16] == h[..16];
  }

  lemma {:induction false} CarryDepends(s: seq<int>, t: seq<int>, b: int, u: int, k: nat)
    requires b > 0 && k <= |s| <= |t| && s == t[..|s|]
    ensures CarryIn(s, b, u, k) == CarryIn(t, b, u, k)
  {
    if k > 0 {
      CarryDepends(s, t, b, u, k - 1);
    }
  }

  // ---- the final subtraction ----

  // All ones in w bits when there was a borrow, and zero otherwise.
  function Mask(w: nat, borrow: int): int {
    (Pow2(w) - borrow) % Pow2(w)
  }

  lemma MaskValue(p: int, borrow: int)
    requires p > 1 && 0 <= borrow <= 1
    ensures (p - borrow) % p == if borrow == 1 then p - 1 else 0
  {
    ModUnique(p - borrow, p, 1 - borrow, borrow * (p - 1));
  }

  // The masked difference turns one limb into the other or leaves it, for either width of u32.
  lemma Select(w: nat, borrow: int, g: int, h: int)
    requires (w == 32 || w == 64) && 0 <= borrow <= 1
    requires 0 <= g < 256 && 0 <= h < 256
    ensures Xor(h, And(Mask(w, borrow), Xor(g, h))) == if borrow == 1 then g else h
  {
    var x, p := Xor(g, h), Pow2(w);
    Pow2Values();
    MaskValue(p, borrow);
    XorRange(g, h, 8);
    if borrow == 1 {
      AndLowMask(w, x);
      ModUnique(x, p, 0, x);
      XorCommutes(g, h);
      XorCancels(h, g);
    } else {
      AndZero(x);
      XorZero(h);
    }
  }

  function MinusQ(): (s: seq<int>)
    ensures |s| == 17 && AreDigits(s, 256)
  {
    [5] + seq(15, _ => 0) + [252]
  }

  lemma MinusQValue()
    ensures Value(MinusQ(), 256) == Pow(256, 17) - Q
  {
    var s := MinusQ();
    SumSplit(s, 256, 1, 15);
    SumZero(s[1..], 256, 15);
    assert Pow(256, 0) == 1;
    assert Sum(s, 256, 1) == Sum(s, 256, 0) + 5 * Pow(256, 0);
    assert Value(s, 256) == Sum(s, 256, 16) + 252 * Pow(256, 16);
    Radix16();
    Radix17();
  }

  // The top limb of h + MinusQ() tells whether h was below Q.
  lemma Borrow(v: int, h: seq<int>)
    requires |h| == 17 && AreDigits(h, 256) && 0 <= v < 2 * Q
    ensures Value(h, 256) == (v + Value(MinusQ(), 256)) % Pow(256, 17) ==>
            h[16] / 128 == (if v < Q then 1 else 0) && (v >= Q ==> Value(h, 256) == v - Q)
  {
    var p := Pow(256, 16);
    MinusQValue();
    Radix16();
    Radix17();
    SumBounds(h, 256, 16);
    assert Value(h, 256) == Sum(h, 256, 16) + h[16] * p;
    if v < Q {
      ModUnique(v + Pow(256, 17) - Q, Pow(256, 17), 0, v + Pow(256, 17) - Q);
      TopDigit(Sum(h, 256, 16), h[16], p, 252);
    } else {
      ModUnique(v + Pow(256, 17) - Q, Pow(256, 17), 1, v - Q);
      TopDigit(Sum(h, 256, 16), h[16], p, 4);
    }
  }

  lemma TopDigit(low: int, x: int, p: int, k: int)
    requires 0 <= low < p
    ensures low + x * p >= k * p ==> x >= k
    ensures low + x * p < k * p ==> x < k
  {
    if x >= k {
      assert x * p >= k * p;
    } else {
      assert x * p <= (k - 1) * p == k * p - p;
    }
  }

  lemma SqueezedValue(h: seq<int>)
    requires Squeezed(h)
    ensures AreDigits(h, 256) && 0 <= Value(h, 256) < 2 * Q
  {
    var p := Pow(256, 16);
    forall i | 0 <= i < 17 ensures 0 <= h[i] < 256 {
      if i < 16 {
        assert h[i] == h[..16][i];
      }
    }
    SumBounds(h, 256, 16);
    Radix16();
    assert h[16] * p <= 4 * p;
  }

  method SelectLimbs(h: array<u32>, g: array<u32>, w: nat)
    requires h != g && h.Length == g.Length == 17 && (w == 32 || w == 64)
    requires AreDigits(h[..], 256) && AreDigits(g[..], 256)
    modifies h
    ensures h[..] == if old(h[16]) / 128 == 1 then g[..] else old(h[..])
  {
    ghost var x, y := g[..], h[..];
    var borrow := h[16] / 128;
    var s := Mask(w, borrow);
    for j := 0 to 17
      invariant forall k :: 0 <= k < j ==> h[k] == if borrow == 1 then x[k] else y[k]
      invariant forall k :: j <= k < 17 ==> h[k] == y[k]
    {
      assert g[j] == x[j] && h[j] == y[j];
      h[j] := SelectLimb(w, borrow, s, g[j], h[j]);
    }
  }

  method SelectLimb(w: nat, borrow: int, s: int, g: u32, h: u32) returns (r: u32)
    requires (w == 32 || w == 64) && 0 <= borrow <= 1 && s == Mask(w, borrow) && g < 256 && h < 256
    ensures r == if borrow == 1 then g else h
  {
    Select(w, borrow, g, h);
    r := Xor(h, And(s, Xor(g, h)));
  }

  method CopyOf(h: array<u32>) returns (g: array<u32>)
    requires h.Length == 17
    ensures fresh(g) && g.Length == 17 && g[..] == h[..]
  {
    g := new u32[17];
    for j := 0 to 17
      invariant forall k :: 0 <= k < j ==> g[k] == h[k]
    {
      g[j] := h[j];
    }
  }

  // One masked subtraction leaves the canonical residue.
  method Freeze(h: array<u32>, minusp: array<u32>, w: nat)
    requires h != minusp && h.Length == minusp.Length == 17 && (w == 32 || w == 64)
    requires Squeezed(h[..]) && minusp[..] == MinusQ()
    modifies h
    ensures AreDigits(h[..], 256)
    ensures Value(h[..], 256) == old(Value(h[..], 256)) % Q
  {
    ghost var s := h[..];
    SqueezedValue(s);
    var g := CopyOf(h);
    SubtractQ(h, minusp);
    SelectLimbs(h, g, w);
    Reduced(Value(s, 256), Value(h[..], 256));
  }

  method SubtractQ(h: array<u32>, minusp: array<u32>)
    requires h != minusp && h.Length == minusp.Length == 17
    requires AreDigits(h[..], 256) && 0 <= Value(h[..], 256) < 2 * Q && minusp[..] == MinusQ()
    modifies h
    ensures AreDigits(h[..], 256)
    ensures h[16] / 128 == if old(Value(h[..], 256)) < Q then 1 else 0
    ensures old(Value(h[..], 256)) >= Q ==> Value(h[..], 256) == old(Value(h[..], 256)) - Q
  {
    ghost var v, minus := Value(h[..], 256), Value(minusp[..], 256);
    Add1305(h, minusp);
    ghost var less := h[..];
    assert Value(less, 256) == (v + minus) % Pow(256, 17);
    Borrow(v, less);
  }

  lemma Reduced(v: int, r: int)
    requires 0 <= v < 2 * Q && r == (if v < Q then v else v - Q)
    ensures r == v % Q
  {
    ModUnique(v, Q, if v < Q then 0 else 1, r);
  }

  // ---- the authenticator ----

  lemma PaddedValue(c: seq<int>, m: seq<int>)
    requires |m| <= 16 && |c| == 17 && c[..|m|] == m && c[|m|] == 1
    requires forall i :: |m| < i < 17 ==> c[i] == 0
    ensures Value(c, 256) == Block(m)
  {
    var n := |m| + 1;
    SumSplit(c, 256, n, 17 - n);
    SumZero(c[n..], 256, 17 - n);
    assert c[..n] == m + [1];
    SumDepends(c, m + [1], 256, n);
  }

  // c receives the next block of at most 16 bytes, its end marker and zeros.
  method LoadBlock(c: array<u32>, m: array<u8>, mAt: nat, n: nat) returns (j: nat)
    requires c.Length == 17 && n > 0 && mAt + n <= m.Length
    modifies c
    ensures j == Min(16, n)
    ensures AreDigits(c[..], 256) && Value(c[..], 256) == Block(m[mAt..mAt + j])
  {
    for i := 0 to 17
      invariant forall k :: 0 <= k < i ==> c[k] == 0
    {
      c[i] := 0;
    }
    ghost var s := m[mAt..mAt + n];
    j := 0;
    while j < 16 && j < n
      invariant 0 <= j <= Min(16, n)
      invariant forall k :: 0 <= k < j ==> c[k] == s[k]
      invariant forall k :: j <= k < 17 ==> c[k] == 0
    {
      assert m[mAt + j] == s[j];
      c[j] := m[mAt + j];
      j := j + 1;
    }
    c[j] := 1;
    assert c[..j] == s[..j] == m[mAt..mAt + j];
    assert forall k :: 0 <= k < j ==> 0 <= s[k] < 256;
    PaddedValue(c[..], s[..j]);
  }

  lemma BlockBound(m: seq<int>)
    requires |m| <= 16 && AreDigits(m, 256)
    ensures 0 <= Block(m) < 2 * Pow(256, 16)
  {
    SumBounds(m, 256, |m|);
    SumDepends(m + [1], m, 256, |m|);
    PowMonotone(256, |m|, 16);
    assert Block(m) == Value(m, 256) + 1 * Pow(256, |m|);
  }

  // The step of the loop, modulo Q, on limbs that are not reduced.
  lemma StepMod(v: int, b: int, r: int, e: int, x: int)
    requires x == (v + b) * r - 64 * Q * e
    ensures x % Q == (v % Q + b) * r % Q
  {
    var q := v / Q;
    assert v == Q * q + v % Q;
    assert (v + b) * r == Q * (q * r) + (v % Q + b) * r by {
      assert (Q * q + (v % Q + b)) * r == Q * q * r + (v % Q + b) * r;
    }
    ModShift((v % Q + b) * r, Q, q * r - 64 * e);
  }

  method AbsorbBlock(h: array<u32>, c: array<u32>, x: array<u32>, r: array<u32>)
    requires h != c && h != x && h != r && c != x && c != r && x != r
    requires h.Length == c.Length == x.Length == r.Length == 17
    requires Squeezed(h[..]) && AreDigits(c[..], 256) && AreDigits(r[..], 256)
    requires Value(c[..], 256) < 2 * Pow(256, 16)
    modifies h, x
    ensures Squeezed(h[..])
    ensures Value(h[..], 256) % Q
         == (old(Value(h[..], 256)) % Q + Value(c[..], 256)) * Value(r[..], 256) % Q
  {
    ghost var v, b, t := Value(h[..], 256), Value(c[..], 256), r[..];
    SqueezedValue(h[..]);
    SumBounds(c[..], 256, 17);
    Radix16();
    Radix17();
    Add1305(h, c);
    ModUnique(v + b, Pow(256, 17), 0, v + b);
    ghost var s := h[..];
    Multiply(x, h, r);
    LimbsValue(s, t, 17);
    for i := 0 to 17
      modifies h
      invariant forall k :: 0 <= k < i ==> h[k] == x[k]
    {
      h[i] := x[i];
    }
    assert h[..] == x[..] == Limbs(s, t, 17);
    forall i | 0 <= i < 17 ensures h[i] < 0x2000_0000 {
      LimbBound(s, t, i, 17);
      assert h[i] == Limbs(s, t, 17)[i];
    }
    StepMod(v, b, Value(t, 256), Excess(s, t, 17), Value(h[..], 256));
    Squeeze(h);
  }

  // r: the clamped first half of the key.
  method LoadKey(r: array<u32>, h: array<u32>, k: array<u8>, kAt: nat)
    requires r != h && r.Length == h.Length == 17 && kAt + 32 <= k.Length
    modifies r, h
    ensures r[..] == Clamp(k[kAt..kAt + 32]) && AreDigits(r[..], 256)
    ensures h[..] == seq(17, _ => 0)
  {
    ghost var s := k[kAt..kAt + 32];
    for j := 0 to 17
      invariant forall i :: 0 <= i < j ==> r[i] == h[i] == 0
    {
      h[j] := 0;
      r[j] := h[j];
    }
    for j := 0 to 16
      modifies r
      invariant forall i :: 0 <= i < j ==> r[i] == s[i]
      invariant r[16] == 0
    {
      assert k[kAt + j] == s[j];
      r[j] := k[kAt + j];
    }
    assert forall i :: 0 <= i < 16 ==> 0 <= s[i] < 256;
    ClampLimbs(r, s);
  }

  method ClampLimbs(r: array<u32>, ghost s: seq<int>)
    requires r.Length == 17 && |s| >= 16 && AreDigits(s, 256)
    requires r[16] == 0 && forall i :: 0 <= i < 16 ==> r[i] == s[i]
    modifies r
    ensures r[..] == Clamp(s) && AreDigits(r[..], 256)
  {
    r[3] := r[3] % 16;
    r[4] := r[4] - r[4] % 4;
    r[7] := r[7] % 16;
    r[8] := r[8] - r[8] % 4;
    r[11] := r[11] % 16;
    r[12] := r[12] - r[12] % 4;
    r[15] := r[15] % 16;
    Clamped(r[..], s);
  }

  lemma Clamped(r: seq<int>, s: seq<int>)
    requires |r| == 17 && |s| >= 16 && AreDigits(s, 256)
    requires r[0] == s[0] && r[1] == s[1] && r[2] == s[2] && r[3] == s[3] % 16
    requires r[4] == s[4] - s[4] % 4 && r[5] == s[5] && r[6] == s[6] && r[7] == s[7] % 16
    requires r[8] == s[8] - s[8] % 4 && r[9] == s[9] && r[10] == s[10] && r[11] == s[11] % 16
    requires r[12] == s[12] - s[12] % 4 && r[13] == s[13] && r[14] == s[14] && r[15] == s[15] % 16 && r[16] == 0
    ensures r == Clamp(s) && AreDigits(r, 256)
  {
  }

  lemma ZeroSqueezed(h: seq<int>)
    requires |h| == 17 && forall i :: 0 <= i < 17 ==> h[i] == 0
    ensures Squeezed(h) && Value(h, 256) % Q == 0
  {
    SumZero(h, 256, 17);
  }

  // The main loop: h modulo Q is the RFC's accumulator at every block boundary.
  method AbsorbNext(h: array<u32>, r: array<u32>, c: array<u32>, x: array<u32>, m: array<u8>, at: nat, left: nat)
      returns (j: nat)
    requires h.Length == r.Length == c.Length == x.Length == 17 && at + left <= m.Length && left > 0
    requires h != r && c != h && c != r && x != h && x != r && x != c
    requires Squeezed(h[..]) && AreDigits(r[..], 256)
    modifies h, c, x
    ensures 0 < j <= left && Squeezed(h[..])
    ensures Accumulate(Value(h[..], 256) % Q, m[at + j..at + left], Value(r[..], 256))
         == Accumulate(old(Value(h[..], 256)) % Q, m[at..at + left], Value(r[..], 256))
  {
    j := LoadBlock(c, m, at, left);
    ghost var rest := m[at..at + left];
    assert rest[..j] == m[at..at + j] && rest[j..] == m[at + j..at + left];
    BlockBound(rest[..j]);
    AbsorbBlock(h, c, x, r);
  }

  method AbsorbAll(h: array<u32>, r: array<u32>, m: array<u8>, mAt: nat, n: nat)
    requires h != r && h.Length == r.Length == 17 && mAt + n <= m.Length
    requires AreDigits(r[..], 256) && forall i :: 0 <= i < 17 ==> h[i] == 0
    modifies h
    ensures Squeezed(h[..])
    ensures Value(h[..], 256) % Q == Accumulate(0, m[mAt..mAt + n], Value(r[..], 256))
  {
    var c, x := new u32[17], new u32[17];
    var at, left := mAt, n;
    ghost var message, t := m[mAt..mAt + n], Value(r[..], 256);
    ZeroSqueezed(h[..]);
    while left > 0
      invariant at + left == mAt + n
      invariant m[mAt..mAt + n] == message && Value(r[..], 256) == t && AreDigits(r[..], 256)
      invariant Squeezed(h[..])
      invariant Accumulate(Value(h[..], 256) % Q, m[at..at + left], t) == Accumulate(0, message, t)
      decreases left
    {
      var j := AbsorbNext(h, r, c, x, m, at, left);
      at := at + j;
      left := left - j;
    }
    assert m[at..at + left] == [];
  }

  lemma PadValue(c: seq<int>, s: seq<int>)
    requires |c| == 17 && |s| == 16 && AreDigits(s, 256)
    requires c[16] == 0 && forall i :: 0 <= i < 16 ==> c[i] == s[i]
    ensures AreDigits(c, 256) && Value(c, 256) == Value(s, 256)
    ensures 0 <= Value(s, 256) < Pow(256, 16)
  {
    SumDepends(c, s, 256, 16);
    SumBounds(s, 256, 16);
    assert Value(c, 256) == Sum(c, 256, 16) + 0 * Pow(256, 16);
  }

  lemma NoWrap(v: int, k: int)
    requires 0 <= v < Q && 0 <= k < Pow(256, 16)
    ensures (v + k) % Pow(256, 17) == v + k
  {
    Radix16();
    Radix17();
    ModUnique(v + k, Pow(256, 17), 0, v + k);
  }

  method LoadPad(k: array<u8>, kAt: nat) returns (c: array<u32>)
    requires kAt + 32 <= k.Length
    ensures fresh(c) && c.Length == 17 && AreDigits(c[..], 256)
    ensures Value(c[..], 256) == Value(k[kAt..kAt + 32][16..], 256)
    ensures 0 <= Value(c[..], 256) < Pow(256, 16)
  {
    c := new u32[17];
    ghost var s := k[kAt..kAt + 32][16..];
    for j := 0 to 16
      invariant forall i :: 0 <= i < j ==> c[i] == s[i]
    {
      assert k[kAt + 16 + j] == s[j];
      c[j] := k[j + kAt + 16];
    }
    c[16] := 0;
    assert forall i :: 0 <= i < 16 ==> 0 <= s[i] < 256;
    PadValue(c[..], s);
  }

  // The key's second half is added; the low 16 bytes are the tag.
  method AddKey(h: array<u32>, k: array<u8>, kAt: nat)
    requires h.Length == 17 && kAt + 32 <= k.Length
    requires AreDigits(h[..], 256) && Value(h[..], 256) < Q
    modifies h
    ensures AreDigits(h[..], 256)
    ensures h[..16] == ToBytes(old(Value(h[..], 256)) + Value(old(k[kAt..kAt + 32])[16..], 256), 16)
  {
    ghost var s, v := k[kAt..kAt + 32][16..], Value(h[..], 256);
    SumBounds(h[..], 256, 17);
    var c := LoadPad(k, kAt);
    Add1305(h, c);
    NoWrap(v, Value(s, 256));
    SumOfKey(h[..], v + Value(s, 256));
  }

  lemma SumOfKey(h: seq<int>, v: int)
    requires |h| == 17 && AreDigits(h, 256) && Value(h, 256) == v
    ensures h[..16] == ToBytes(v, 16)
  {
    BytesOfValue(h);
    ToBytesPrefix(v, 17, 16);
  }

  // out may overlap k and m: secretbox writes the tag over the second half of the key.
  method CryptoOnetimeauth(out: array<u8>, outAt: nat, m: array<u8>, mAt: nat, n: nat,
                           k: array<u8>, kAt: nat, w: nat)
    requires outAt + 16 <= out.Length && mAt + n <= m.Length && kAt + 32 <= k.Length
    requires w == 32 || w == 64
    modifies out
    ensures out[outAt..outAt + 16] == Tag(old(m[mAt..mAt + n]), old(k[kAt..kAt + 32]))
    ensures forall i :: 0 <= i < out.Length && !(outAt <= i < outAt + 16) ==> out[i] == old(out[i])
  {
    var r, h := new u32[17], new u32[17];
    var minusp := new u32[17](i => if i == 0 then 5 else if i == 16 then 252 else 0);
    assert minusp[..] == MinusQ();
    LoadKey(r, h, k, kAt);
    AbsorbAll(h, r, m, mAt, n);
    Freeze(h, minusp, w);
    AddKey(h, k, kAt);
    StoreTag(out, outAt, h);
  }

  method StoreTag(out: array<u8>, outAt: nat, h: array<u32>)
    requires outAt + 16 <= out.Length && h.Length == 17 && AreDigits(h[..16], 256)
    modifies out
    ensures out[outAt..outAt + 16] == h[..16]
    ensures forall i :: 0 <= i < out.Length && !(outAt <= i < outAt + 16) ==> out[i] == old(out[i])
  {
    ghost var tag := h[..16];
    for j := 0 to 16
      invariant forall i :: 0 <= i < j ==> out[outAt + i] == tag[i]
      invariant forall i :: 0 <= i < out.Length && !(outAt <= i < outAt + 16) ==> out[i] == old(out[i])
    {
      assert h[j] == tag[j];
      out[outAt + j] := h[j];
    }
    assert out[outAt..outAt + 16] == tag;
  }
}
