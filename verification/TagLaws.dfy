/** The authenticator of Poly1305 in closed form: the sum of section 2.5 of RFC 8439, with the key masked by
    the constant that the section gives. */
module TagLaws {
  import opened Bits
  import opened Digits
  import opened Poly1305

  const CLAMP: int := 0x0ffffffc_0ffffffc_0ffffffc_0fffffff

  // How many blocks a message has.
  function Count(n: nat): nat {
    (n + 15) / 16
  }

  // Block i as a number, with a one beyond its last byte.
  function Term(m: seq<int>, i: nat): int
    requires 16 * i < |m|
  {
    var n := Min(16, |m| - 16 * i);
    Value(m[16 * i..16 * i + n], 256) + Pow2(8 * n)
  }

  // The blocks from i on: the first of all times the highest power of r, the last one times r.
  function SumFrom(m: seq<int>, r: int, i: nat): int
    decreases |m| - 16 * i
  {
    if 16 * i >= |m| then 0 else Term(m, i) * Pow(r, Count(|m|) - i) + SumFrom(m, r, i + 1)
  }

  lemma BlockIsTerm(s: seq<int>)
    ensures Block(s) == Value(s, 256) + Pow2(8 * |s|)
  {
    ValueSnoc(s, 1, 256);
    Pow256(|s|);
  }

  lemma {:induction false} BlocksLeft(m: seq<int>)
    ensures Blocks(m) == Count(|m|)
    decreases |m|
  {
    if m != [] {
      BlocksLeft(m[Min(16, |m|)..]);
    }
  }

  lemma {:induction false} PolynomialIsSum(m: seq<int>, r: int, i: nat)
    requires 16 * i <= |m| + 15
    ensures Polynomial(m[Min(16 * i, |m|)..], r) == SumFrom(m, r, i)
    decreases |m| - 16 * i
  {
    if 16 * i < |m| {
      var t, n := m[16 * i..], Min(16, |m| - 16 * i);
      BlocksLeft(t);
      BlockIsTerm(t[..n]);
      NextBlock(m, i, n);
      PolynomialIsSum(m, r, i + 1);
    }
  }

  lemma NextBlock(m: seq<int>, i: nat, n: nat)
    requires 16 * i < |m| && n == Min(16, |m| - 16 * i)
    ensures m[16 * i..][..n] == m[16 * i..16 * i + n]
    ensures m[16 * i..][n..] == m[Min(16 * (i + 1), |m|)..]
    ensures Count(|m| - 16 * i) == Count(|m|) - i
  {
  }

  // ---- the mask ----

  lemma AndHalf(x: nat, y: nat)
    ensures And(x, y) == 2 * And(x / 2, y / 2) + (x % 2) * (y % 2)
  {
  }

  // x and y below 2^n, and u and v multiples of it.
  lemma {:induction false} AndShift(a: nat, b: nat, x: nat, y: nat, n: nat, u: nat, v: nat)
    requires x < Pow2(n) && y < Pow2(n) && u == Pow2(n) * a && v == Pow2(n) * b
    ensures And(u + x, v + y) == Pow2(n) * And(a, b) + And(x, y)
    decreases n
  {
    if n > 0 {
      HalfOfProduct(Pow2(n - 1), a, u);
      HalfOfProduct(Pow2(n - 1), b, v);
      AndShift(a, b, x / 2, y / 2, n - 1, u / 2, v / 2);
      AndShiftStep(x, y, u, v, Pow2(n - 1) * And(a, b));
      Twice(Pow2(n - 1), And(a, b));
    }
  }

  lemma HalfOfProduct(p: nat, a: nat, u: nat)
    requires u == 2 * p * a
    ensures u % 2 == 0 && u / 2 == p * a
  {
    Twice(p, a);
  }

  lemma Twice(p: int, a: int)
    ensures 2 * p * a == 2 * (p * a)
  {
  }

  lemma AndShiftStep(x: nat, y: nat, u: nat, v: nat, m: int)
    requires u % 2 == 0 && v % 2 == 0 && And(u / 2 + x / 2, v / 2 + y / 2) == m + And(x / 2, y / 2)
    ensures And(u + x, v + y) == 2 * m + And(x, y)
  {
    AndHalf(x, y);
    AndHalf(u + x, v + y);
  }

  function Ands(s: seq<int>, t: seq<int>): (u: seq<int>)
    requires |s| == |t|
    ensures |u| == |s|
  {
    seq(|s|, i requires 0 <= i < |s| => And(s[i], t[i]))
  }

  lemma AndByte(a: nat, b: nat, x: nat, y: nat)
    requires x < 256 && y < 256
    ensures And(256 * a + x, 256 * b + y) == 256 * And(a, b) + And(x, y)
  {
    Pow2Values();
    AndShift(a, b, x, y, 8, 256 * a, 256 * b);
  }

  lemma AndsCons(s: seq<int>, t: seq<int>)
    requires |s| == |t| > 0
    ensures Ands(s, t) == [And(s[0], t[0])] + Ands(s[1..], t[1..])
  {
  }

  lemma AndsHead(s: seq<int>, t: seq<int>)
    requires |s| == |t| > 0
    ensures Value(Ands(s, t), 256) == 256 * Value(Ands(s[1..], t[1..]), 256) + And(s[0], t[0])
  {
    AndsCons(s, t);
    ValueCons(And(s[0], t[0]), Ands(s[1..], t[1..]), 256);
  }

  lemma ValueHead(s: seq<int>)
    requires s != [] && AreDigits(s, 256)
    ensures Value(s, 256) == 256 * Value(s[1..], 256) + s[0] && Value(s[1..], 256) >= 0
  {
    assert s == [s[0]] + s[1..];
    ValueCons(s[0], s[1..], 256);
    SumBounds(s[1..], 256, |s| - 1);
  }

  // Bytes are masked one by one.
  lemma {:induction false} ValueOfAnds(s: seq<int>, t: seq<int>)
    requires |s| == |t| && AreDigits(s, 256) && AreDigits(t, 256)
    ensures And(Value(s, 256), Value(t, 256)) == Value(Ands(s, t), 256)
    decreases |s|
  {
    if s == [] {
      assert Ands(s, t) == [];
    } else {
      ValueHead(s);
      ValueHead(t);
      ValueOfAnds(s[1..], t[1..]);
      AndByte(Value(s[1..], 256), Value(t[1..], 256), s[0], t[0]);
      AndsHead(s, t);
    }
  }

  function MaskBytes(): (s: seq<int>)
    ensures |s| == 16 && AreDigits(s, 256)
  {
    [255, 255, 255, 15, 252, 255, 255, 15, 252, 255, 255, 15, 252, 255, 255, 15]
  }

  lemma MaskValue()
    ensures Value(MaskBytes(), 256) == CLAMP
  {
    var a, b := [255, 255, 255, 15], [252, 255, 255, 15];
    FourBytes(a);
    FourBytes(b);
    SixteenBytes(a, b, b, b);
    assert MaskBytes() == a + b + b + b;
  }

  lemma MaskLow(x: nat, n: nat, mask: nat)
    requires Pow2(n) == mask + 1
    ensures And(mask, x) == x % (mask + 1)
    ensures x <= mask ==> And(mask, x) == x
  {
    AndLowMask(n, x);
    if x <= mask {
      ModUnique(x, mask + 1, 0, x);
    }
  }

  lemma AndQuad(m: nat, h: nat, r: nat)
    requires r < 4
    ensures And(4 * m, 4 * h + r) == 4 * And(m, h)
  {
    assert Pow2(2) == 4;
    AndZero(r);
    AndShift(m, h, 0, r, 2, 4 * m, 4 * h);
  }

  lemma MaskHigh(x: nat)
    requires x < 256
    ensures And(252, x) == x - x % 4
  {
    assert Pow2(6) == 64;
    MaskLow(x / 4, 6, 63);
    AndQuad(63, x / 4, x % 4);
  }

  lemma MaskByte(x: nat)
    requires x < 256
    ensures And(255, x) == x
  {
    Pow2Values();
    MaskLow(x, 8, 255);
  }

  lemma MaskNibble(x: nat)
    ensures And(15, x) == x % 16
  {
    assert Pow2(4) == 16;
    MaskLow(x, 4, 15);
  }

  // The clamped key is the masked one.
  lemma ClampIsMask(k: seq<int>)
    requires |k| == 32 && AreDigits(k, 256)
    ensures Value(Clamp(k), 256) == And(CLAMP, Value(k[..16], 256))
  {
    var low, r := k[..16], Clamp(k);
    ClampedBytes(k);
    ValueOfAnds(MaskBytes(), low);
    MaskValue();
    assert r == r[..16] + [0];
    ValueSnoc(r[..16], 0, 256);
  }

  lemma ClampedBytes(k: seq<int>)
    requires |k| == 32 && AreDigits(k, 256)
    ensures Clamp(k)[..16] == Ands(MaskBytes(), k[..16])
  {
    var u, r := Ands(MaskBytes(), k[..16]), Clamp(k);
    forall i | 0 <= i < 16 ensures u[i] == r[i] {
      MaskByte(k[i]);
      MaskNibble(k[i]);
      MaskHigh(k[i]);
    }
  }

  // ---- the tag ----

  lemma QIs()
    ensures Q == Pow2(130) - 5
  {
    Pow2Values();
    Pow2Add(64, 64);
    Pow2Add(128, 2);
    assert Pow2(2) == 4;
  }

  /** The tag of section 2.5 of RFC 8439: all blocks, each with a one beyond its last byte, times the powers of the
      masked first half of the key, modulo 2^130 - 5, plus the second half of the key. */
  lemma TagInClosedForm(m: seq<int>, k: seq<int>)
    requires |k| == 32 && AreDigits(k, 256)
    ensures Tag(m, k) == ToBytes(SumFrom(m, And(CLAMP, Value(k[..16], 256)), 0) % Q + Value(k[16..], 256), 16)
  {
    ClampIsMask(k);
    AccumulatedSum(m, Value(Clamp(k), 256));
  }

  lemma AccumulatedSum(m: seq<int>, r: int)
    ensures Accumulate(0, m, r) == SumFrom(m, r, 0) % Q
  {
    AccumulateIsPolynomial(0, m, r);
    PolynomialIsSum(m, r, 0);
    assert m[0..] == m;
  }
}
