/** Reduction modulo the order of the Ed25519 group (modL of src/tweetnacl.c; the order is the L
    of section 5.1 of RFC 8032). */
module GroupOrder {
  import opened Bits
  import opened Digits
  import opened Field25519

  const ORDER: int := 0x10000000_00000000_00000000_00000000_14def9de_a2f79cd6_5812631a_5cf5d3ed

  function Order(): (s: seq<int>)
    ensures |s| == 32 && AreDigits(s, 256)
  {
    [0xed, 0xd3, 0xf5, 0x5c, 0x1a, 0x63, 0x12, 0x58, 0xd6, 0x9c, 0xf7, 0xa2, 0xde, 0xf9, 0xde, 0x14,
     0, 0, 0, 0, 0, 0, 0, 0, 0, 0, 0, 0, 0, 0, 0, 0x10]
  }

  // What the proofs use of these bytes.
  ghost predicate IsOrder(l: seq<int>) {
    && |l| == 32 && AreDigits(l, 256)
    && Sum(l, 256, 20) == LOW && Value(l, 256) == ORDER
    && forall t :: 16 <= t < 20 ==> l[t] == 0
  }

  // The order below its top byte.
  const LOW: int := 0x14def9de_a2f79cd6_5812631a_5cf5d3ed

  lemma OrderBytes()
    ensures IsOrder(Order())
  {
    LowOrder();
    TopByte(Order(), 16);
  }

  lemma TopByte(l: seq<int>, top: int)
    requires |l| == 32 && Sum(l, 256, 16) == LOW && l[31] == top == 16 && forall t :: 16 <= t < 31 ==> l[t] == 0
    ensures Sum(l, 256, 20) == LOW && Value(l, 256) == ORDER
  {
    ZerosAbove(l, 4);
    ZerosAbove(l, 15);
    TopPower();
    assert Value(l, 256) == Sum(l, 256, 31) + top * Pow(256, 31);
  }

  lemma ZerosAbove(l: seq<int>, n: nat)
    requires |l| == 32 && n <= 15 && forall t :: 16 <= t < 31 ==> l[t] == 0
    ensures Sum(l, 256, 16 + n) == Sum(l, 256, 16)
  {
    SumSplit(l, 256, 16, n);
    SumZero(l[16..], 256, n);
  }

  lemma TopPower()
    ensures Pow(256, 31) * 16 == ORDER - LOW
    ensures Pow(256, 32) == 16 * (ORDER - LOW)
  {
    PowAdd(256, 16, 16);
    PowAdd(256, 8, 8);
    PowAdd(256, 4, 4);
    assert Pow(256, 4) == 0x1_0000_0000;
    assert Pow(256, 32) == 256 * Pow(256, 31);
  }

  /** The order of section 5.1 of RFC 8032. */
  lemma OrderIs()
    ensures ORDER == Pow2(252) + 27742317777372353535851937790883648493
  {
    TopPower();
    Pow256(31);
    assert Pow2(4) == 16;
    Pow2Add(248, 4);
  }

  lemma LowOrder()
    ensures Sum(Order(), 256, 16) == LOW
  {
    var a, b := [0xed, 0xd3, 0xf5, 0x5c], [0x1a, 0x63, 0x12, 0x58];
    var c, d := [0xd6, 0x9c, 0xf7, 0xa2], [0xde, 0xf9, 0xde, 0x14];
    assert Order()[..16] == a + b + c + d;
    SumDepends(Order(), a + b + c + d, 256, 16);
    SixteenBytes(a, b, c, d);
    FourBytes(a);
    FourBytes(b);
    FourBytes(c);
    FourBytes(d);
  }

  // ---- the balanced carry: digits in [-128, 128) ----

  function Shifted(s: seq<int>): (d: seq<int>)
    ensures |d| == |s|
  {
    seq(|s|, i requires 0 <= i < |s| => s[i] + 128)
  }

  function Balanced(s: seq<int>): (b: seq<int>)
    ensures |b| == |s| && forall i :: 0 <= i < |s| ==> -128 <= b[i] < 128
  {
    var r := Remainders(Shifted(s), 256, 0);
    seq(|s|, i requires 0 <= i < |s| => r[i] - 128)
  }

  function CarryOut(s: seq<int>, k: nat): int
    requires k <= |s|
  {
    CarryIn(Shifted(s), 256, 0, k)
  }

  lemma BalancedSum(s: seq<int>)
    ensures Value(Balanced(s), 256) == Value(s, 256) - CarryOut(s, |s|) * Pow(256, |s|)
  {
    var d, r, ones := Shifted(s), Remainders(Shifted(s), 256, 0), seq(|s|, _ => 128);
    SumOfSums(d, s, ones, 1, 256, |s|);
    SumOfSums(Balanced(s), r, ones, -1, 256, |s|);
    RemaindersSum(d, 256, 0, |s|);
  }

  // ---- one round: limb i is traded for a multiple of the order ----

  function Window(x: seq<int>, l: seq<int>, i: nat): (w: seq<int>)
    requires IsOrder(l)
    requires |x| == 64 && 32 <= i < 64
    ensures |w| == 20
  {
    seq(20, t requires 0 <= t < 20 => x[i - 32 + t] - 16 * x[i] * l[t])
  }

  function Round(x: seq<int>, l: seq<int>, i: nat): (z: seq<int>)
    requires IsOrder(l)
    requires |x| == 64 && 32 <= i < 64
    ensures |z| == 64
  {
    var w := Window(x, l, i);
    x[..i - 32] + Balanced(w) + [x[i - 12] + CarryOut(w, 20)] + x[i - 11..i] + [0] + x[i + 1..]
  }

  lemma WindowSum(x: seq<int>, l: seq<int>, i: nat)
    requires IsOrder(l)
    requires |x| == 64 && 32 <= i < 64
    ensures Value(Window(x, l, i), 256) == Sum(x[i - 32..], 256, 20) - 16 * x[i] * LOW
  {
    var w, y, c := Window(x, l, i), x[i - 32..], -16 * x[i];
    forall t | 0 <= t < 20 ensures w[t] == y[t] + c * l[t] {
    }
    SumOfSums(w, y, l, c, 256, 20);
    assert c * LOW == -(16 * x[i] * LOW);
  }

  // The limbs above the window, and what the round does to them.
  lemma UpperSum(u: seq<int>, carry: int)
    requires |u| >= 13
    ensures Value(u[0 := u[0] + carry][12 := 0], 256) == Value(u, 256) + carry - u[12] * Pow(256, 12)
  {
    SumAddLow(u, 256, |u|, carry);
    var v := u[0 := u[0] + carry];
    SumAdd(v, 256, |u|, 12, -u[12]);
    assert -u[12] * Pow(256, 12) == -(u[12] * Pow(256, 12));
  }

  lemma Assemble(a: int, p: int, w: int, b: int, c: int, q: int, u: int, v: int, y: int, r: int)
    requires b == w - 16 * y * LOW - c * q && v == u + c - y * r && q * r == 16 * (ORDER - LOW)
    ensures Glue(a, p, b, q, v) == Glue(a, p, w, q, u) - 16 * ORDER * y * p
  {
    assert q * v == q * u + q * c - y * (q * r) by {
      assert q * (u + c - y * r) == q * u + q * c - q * (y * r);
      assert q * (y * r) == y * (q * r);
    }
    assert b + q * v == w + q * u - 16 * ORDER * y;
    assert p * (w + q * u - 16 * ORDER * y) == p * (w + q * u) - p * (16 * ORDER * y);
  }

  // Three consecutive stretches of digits: a below p, then w below q, then u.
  function Glue(a: int, p: int, w: int, q: int, u: int): int {
    a + p * (w + q * u)
  }

  lemma ThreeParts(x: seq<int>, j: nat)
    requires j + 20 <= |x|
    ensures Value(x, 256)
         == Glue(Sum(x, 256, j), Pow(256, j), Sum(x[j..], 256, 20), Pow(256, 20), Value(x[j + 20..], 256))
  {
    var n := |x| - j;
    SumSplit(x, 256, j, n);
    SumSplit(x[j..], 256, 20, n - 20);
    assert x[j..][20..] == x[j + 20..];
    Regroup(Value(x, 256), Sum(x, 256, j), Pow(256, j), Sum(x[j..], 256, n), Sum(x[j..], 256, 20), Pow(256, 20),
            Value(x[j + 20..], 256));
  }

  lemma Regroup(v: int, a: int, p: int, t: int, w: int, q: int, u: int)
    requires v == a + p * t && t == w + q * u
    ensures v == Glue(a, p, w, q, u)
  {
  }

  lemma RoundShape(x: seq<int>, l: seq<int>, i: nat)
    requires IsOrder(l)
    requires |x| == 64 && 32 <= i < 64
    ensures var z, w, u := Round(x, l, i), Window(x, l, i), x[i - 12..];
            && z[..i - 32] == x[..i - 32]
            && z[i - 32..][..20] == Balanced(w)
            && z[i - 12..] == u[0 := u[0] + CarryOut(w, 20)][12 := 0]
  {
    var z, w := Round(x, l, i), Window(x, l, i);
    assert z[i - 32..][..20] == z[i - 32..i - 12];
  }

  lemma WindowPart(x: seq<int>, l: seq<int>, i: nat)
    requires IsOrder(l)
    requires |x| == 64 && 32 <= i < 64
    ensures var w := Window(x, l, i);
            Value(Balanced(w), 256) == Sum(x[i - 32..], 256, 20) - 16 * x[i] * LOW - CarryOut(w, 20) * Pow(256, 20)
  {
    BalancedSum(Window(x, l, i));
    WindowSum(x, l, i);
  }

  lemma LowerParts(x: seq<int>, l: seq<int>, i: nat)
    requires IsOrder(l)
    requires |x| == 64 && 32 <= i < 64
    ensures var z, w := Round(x, l, i), Window(x, l, i);
            && Sum(z, 256, i - 32) == Sum(x, 256, i - 32)
            && Sum(z[i - 32..], 256, 20) == Value(Balanced(w), 256)
  {
    var z, w := Round(x, l, i), Window(x, l, i);
    RoundShape(x, l, i);
    SumDepends(x, z, 256, i - 32);
    assert Balanced(w)[..20] == Balanced(w);
    SumDepends(z[i - 32..], Balanced(w), 256, 20);
  }

  lemma UpperPart(x: seq<int>, l: seq<int>, i: nat)
    requires IsOrder(l)
    requires |x| == 64 && 32 <= i < 64
    ensures Value(Round(x, l, i)[i - 12..], 256) ==
            Value(x[i - 12..], 256) + CarryOut(Window(x, l, i), 20) - x[i] * Pow(256, 12)
  {
    RoundShape(x, l, i);
    UpperSum(x[i - 12..], CarryOut(Window(x, l, i), 20));
  }

  lemma RoundValue(x: seq<int>, l: seq<int>, i: nat)
    requires IsOrder(l)
    requires |x| == 64 && 32 <= i < 64
    ensures Value(Round(x, l, i), 256) == Value(x, 256) - 16 * ORDER * x[i] * Pow(256, i - 32)
  {
    var z, c, j := Round(x, l, i), CarryOut(Window(x, l, i), 20), i - 32;
    ThreeParts(x, j);
    ThreeParts(z, j);
    LowerParts(x, l, i);
    UpperPart(x, l, i);
    WindowPart(x, l, i);
    PowAdd(256, 20, 12);
    TopPower();
    Assemble(Sum(x, 256, j), Pow(256, j), Sum(x[j..], 256, 20), Sum(z[j..], 256, 20), c, Pow(256, 20),
             Value(x[i - 12..], 256), Value(z[i - 12..], 256), x[i], Pow(256, 12));
  }

  // ---- the sizes of the limbs through the rounds ----

  const INPUT := 0x20_0000
  const LIMB := 0x40_0000

  lemma {:induction false} CarrySize(w: seq<int>, k: nat)
    requires k <= |w| && Field25519.Within(w, 0x8_0000_0000)
    ensures -0x1000_0000 <= CarryOut(w, k) <= 0x1000_0000
  {
    if k > 0 {
      CarrySize(w, k - 1);
    }
  }

  lemma WindowSize(x: seq<int>, l: seq<int>, i: nat)
    requires IsOrder(l)
    requires |x| == 64 && 32 <= i < 64 && Field25519.Within(x, LIMB)
    ensures Field25519.Within(Window(x, l, i), 0x8_0000_0000)
  {
    forall t | 0 <= t < 20 ensures -0x8_0000_0000 <= Window(x, l, i)[t] <= 0x8_0000_0000 {
      TermSize(x[i], l[t]);
    }
  }

  lemma TermSize(y: int, l: int)
    requires -LIMB <= y <= LIMB && 0 <= l < 256
    ensures -0x4_0000_0000 <= 16 * y * l <= 0x4_0000_0000
  {
    assert -LIMB * l <= y * l <= LIMB * l;
    assert 16 * y * l == 16 * (y * l);
  }

  predicate SmallDigit(v: int) {
    -128 <= v < 128
  }

  lemma WindowTop(x: seq<int>, l: seq<int>, i: nat, t: nat)
    requires IsOrder(l)
    requires |x| == 64 && 32 <= i < 64 && 16 <= t < 20
    ensures Window(x, l, i)[t] == x[i - 32 + t]
  {
    assert l[t] == 0;
  }

  // The four zero bytes of the order above byte 16 let the carry die out.
  lemma CarryDies(x: seq<int>, l: seq<int>, i: nat)
    requires IsOrder(l)
    requires |x| == 64 && 32 <= i < 64 && Field25519.Within(x, LIMB)
    ensures -0x8000 <= CarryOut(Window(x, l, i), 20) <= 0x8000
    ensures SmallDigit(x[i - 16]) && SmallDigit(x[i - 15]) && SmallDigit(x[i - 14]) && SmallDigit(x[i - 13])
        ==> -1 <= CarryOut(Window(x, l, i), 20) <= 1
  {
    var w := Window(x, l, i);
    WindowSize(x, l, i);
    CarrySize(w, 16);
    WindowTop(x, l, i, 16);
    WindowTop(x, l, i, 17);
    WindowTop(x, l, i, 18);
    WindowTop(x, l, i, 19);
    CarryStepOut(w, 17);
    CarryStepOut(w, 18);
    CarryStepOut(w, 19);
    CarryStepOut(w, 20);
  }

  lemma CarryStepOut(w: seq<int>, k: nat)
    requires 0 < k <= |w|
    ensures CarryOut(w, k) == (w[k - 1] + 128 + CarryOut(w, k - 1)) / 256
  {
  }

  // Before limb i is removed: the limbs above it are gone; those that a window has passed over
  // are small digits, up to one more carry; the others are as given.
  ghost predicate Stage(x: seq<int>, i: int) {
    && |x| == 64 && 31 <= i < 64
    && (forall k :: i < k < 64 ==> x[k] == 0)
    && (forall k :: 0 <= k <= i ==> -(INPUT + 0x8000) <= x[k] <= INPUT + 0x8000)
    && (forall k :: 0 <= k <= i - 12 ==> -INPUT <= x[k] <= INPUT)
    && (i < 63 ==> forall k :: i - 31 <= k <= i - 12 ==> SmallDigit(x[k]))
    && (forall k :: i - 12 < k <= i && k <= 50 ==> -129 <= x[k] <= 128)
  }

  lemma NextStage(x: seq<int>, l: seq<int>, i: nat)
    requires IsOrder(l)
    requires 32 <= i < 64 && Stage(x, i)
    ensures Stage(Round(x, l, i), i - 1)
  {
    var b, c := Balanced(Window(x, l, i)), CarryOut(Window(x, l, i), 20);
    assert Field25519.Within(x, LIMB);
    CarryDies(x, l, i);
    RoundEntries(x, l, i);
    StageOf(x, Round(x, l, i), i, b, c);
  }

  predicate Entries(x: seq<int>, z: seq<int>, i: nat, b: seq<int>, c: int) {
    && |x| == |z| == 64 && 32 <= i < 64 && |b| == 20
    && forall k :: 0 <= k < 64 ==>
         z[k] == if k < i - 32 then x[k] else if k < i - 12 then b[k - (i - 32)]
                 else if k == i - 12 then x[k] + c else if k == i then 0 else x[k]
  }

  lemma RoundEntries(x: seq<int>, l: seq<int>, i: nat)
    requires IsOrder(l) && |x| == 64 && 32 <= i < 64
    ensures Entries(x, Round(x, l, i), i, Balanced(Window(x, l, i)), CarryOut(Window(x, l, i), 20))
  {
  }

  lemma StageOf(x: seq<int>, z: seq<int>, i: nat, b: seq<int>, c: int)
    requires 32 <= i < 64 && Stage(x, i) && Entries(x, z, i, b, c)
    requires (forall k :: 0 <= k < 20 ==> SmallDigit(b[k])) && -0x8000 <= c <= 0x8000
    requires SmallDigit(x[i - 16]) && SmallDigit(x[i - 15]) && SmallDigit(x[i - 14]) && SmallDigit(x[i - 13]) ==>
               -1 <= c <= 1
    ensures Stage(z, i - 1)
  {
  }

  lemma RoundResidue(x: seq<int>, l: seq<int>, i: nat)
    requires IsOrder(l)
    requires |x| == 64 && 32 <= i < 64
    ensures Value(Round(x, l, i), 256) % ORDER == Value(x, 256) % ORDER
  {
    RoundValue(x, l, i);
    Rearrange(ORDER, x[i], Pow(256, i - 32));
    ModShift(Value(x, 256), ORDER, -16 * x[i] * Pow(256, i - 32));
  }

  lemma Rearrange(m: int, x: int, p: int)
    ensures m * (-16 * x * p) == -(16 * m * x * p)
  {
    assert m * (-16 * x * p) == -16 * (m * (x * p));
    assert 16 * m * x * p == 16 * (m * (x * p));
  }

  // The inner loop of the first phase.  C multiplies by the unsigned L modulo 2^64, which is the
  // same: every product and sum fits in 64 signed bits.
  method ReduceWindow(x: array<i64>, l: seq<int>, i: nat) returns (carry: i64)
    requires IsOrder(l)
    requires x.Length == 64 && 32 <= i < 64 && Field25519.Within(x[..], LIMB)
    modifies x
    ensures var w := Window(old(x[..]), l, i);
            carry == CarryOut(w, 20) && forall k :: 0 <= k < 20 ==> x[i - 32 + k] == Balanced(w)[k]
    ensures forall k :: 0 <= k < 64 && !(i - 32 <= k < i - 12) ==> x[k] == old(x[k])
  {
    ghost var s, w, b := x[..], Window(x[..], l, i), Balanced(Window(x[..], l, i));
    carry := 0;
    for t := 0 to 20
      invariant carry == CarryOut(w, t)
      invariant forall k :: 0 <= k < t ==> x[i - 32 + k] == b[k]
      invariant forall k :: 0 <= k < 64 && !(i - 32 <= k < i - 32 + t) ==> x[k] == s[k]
    {
      WindowStep(s, l, i, t);
      var factor: i64 := 16 * x[i];
      var product: i64 := factor * l[t];
      var j := i - 32 + t;
      x[j] := x[j] + carry - product;
      carry := (x[j] + 128) / 256;
      x[j] := x[j] - carry * 256;
    }
  }

  method ReduceLimb(x: array<i64>, l: seq<int>, i: nat)
    requires IsOrder(l)
    requires x.Length == 64 && 32 <= i < 64 && Field25519.Within(x[..], LIMB)
    modifies x
    ensures x[..] == Round(old(x[..]), l, i)
  {
    ghost var s := x[..];
    WindowSize(s, l, i);
    CarrySize(Window(s, l, i), 20);
    var carry := ReduceWindow(x, l, i);
    x[i - 12] := x[i - 12] + carry;
    x[i] := 0;
    RoundIs(s, l, i, x[..]);
  }

  lemma RoundIs(s: seq<int>, l: seq<int>, i: nat, z: seq<int>)
    requires IsOrder(l) && |s| == |z| == 64 && 32 <= i < 64
    requires forall k :: 0 <= k < 20 ==> z[i - 32 + k] == Balanced(Window(s, l, i))[k]
    requires z[i - 12] == s[i - 12] + CarryOut(Window(s, l, i), 20) && z[i] == 0
    requires forall k :: 0 <= k < 64 && !(i - 32 <= k <= i - 12) && k != i ==> z[k] == s[k]
    ensures z == Round(s, l, i)
  {
    var b, r := Balanced(Window(s, l, i)), Round(s, l, i);
    forall k | 0 <= k < 64 ensures z[k] == r[k] {
      if i - 32 <= k < i - 12 {
        assert z[i - 32 + (k - (i - 32))] == b[k - (i - 32)];
      }
    }
  }

  // What one turn of the inner loop computes, and that it fits.
  lemma WindowStep(s: seq<int>, l: seq<int>, i: nat, t: nat)
    requires IsOrder(l) && |s| == 64 && 32 <= i < 64 && t < 20 && Field25519.Within(s, LIMB)
    ensures var w := Window(s, l, i);
            && w[t] == s[i - 32 + t] - 16 * s[i] * l[t]
            && -0x4_0000_0000 <= 16 * s[i] * l[t] <= 0x4_0000_0000
            && -0x1000_0000 <= CarryOut(w, t) <= 0x1000_0000
            && CarryOut(w, t + 1) == (w[t] + CarryOut(w, t) + 128) / 256
            && -0x1000_0000 <= CarryOut(w, t + 1) <= 0x1000_0000
            && Balanced(w)[t] == w[t] + CarryOut(w, t) - CarryOut(w, t + 1) * 256
  {
    var w := Window(s, l, i);
    WindowSize(s, l, i);
    CarrySize(w, t);
    CarrySize(w, t + 1);
    CarryStepOut(w, t + 1);
    TermSize(s[i], l[t]);
    BalancedDigit(w, t);
  }

  lemma BalancedDigit(w: seq<int>, t: nat)
    requires t < |w|
    ensures Balanced(w)[t] == w[t] + CarryOut(w, t) - 256 * CarryOut(w, t + 1)
  {
    CarryStepOut(w, t + 1);
    assert Remainders(Shifted(w), 256, 0)[t] == (w[t] + 128 + CarryOut(w, t)) % 256;
  }

  // The first phase: the limbs from 32 on are gone, those below are small digits.
  method RemoveUpperLimbs(x: array<i64>, l: seq<int>)
    requires IsOrder(l)
    requires x.Length == 64 && Field25519.Within(x[..], INPUT)
    modifies x
    ensures Stage(x[..], 31)
    ensures Value(x[..], 256) % ORDER == old(Value(x[..], 256)) % ORDER
  {
    var i := 63;
    while i >= 32
      invariant 31 <= i < 64 && Stage(x[..], i)
      invariant Value(x[..], 256) % ORDER == old(Value(x[..], 256)) % ORDER
    {
      NextStage(x[..], l, i);
      RoundResidue(x[..], l, i);
      StageWithin(x[..], i);
      ReduceLimb(x, l, i);
      i := i - 1;
    }
  }

  lemma StageWithin(x: seq<int>, i: nat)
    requires Stage(x, i)
    ensures Field25519.Within(x, LIMB)
  {
  }

  // ---- the second phase: one estimated multiple, and one correction ----

  lemma {:induction false} SmallSum(y: seq<int>, k: nat)
    requires k <= |y| && forall i :: 0 <= i < k ==> -129 <= y[i] <= 129
    ensures -129 * (Pow(256, k) - 1) <= 255 * Sum(y, 256, k) <= 129 * (Pow(256, k) - 1)
  {
    if k > 0 {
      SmallSum(y, k - 1);
      SmallTerm(y[k - 1], Pow(256, k - 1));
    }
  }

  lemma SmallTerm(y: int, p: int)
    requires -129 <= y <= 129 && p > 0
    ensures -129 * p <= y * p <= 129 * p
  {
  }

  // After taking off the order as often as the top limb says, the value lies strictly between -ORDER and ORDER.
  lemma Estimate(y: seq<int>, q: int)
    requires |y| == 32 && q == y[31] / 16 && forall i :: 0 <= i < 32 ==> -129 <= y[i] <= 128
    ensures -ORDER < Value(y, 256) - q * ORDER < ORDER
  {
    var p, m := Pow(256, 31), y[31] - 16 * q;
    SmallSum(y, 31);
    TopPower();
    assert 0 <= m * p <= 15 * p;
    assert y[31] * p == m * p + q * (16 * p) by {
      assert (m + 16 * q) * p == m * p + 16 * q * p;
    }
    assert q * (16 * p) == q * ORDER - q * LOW;
    assert Value(y, 256) == Sum(y, 256, 31) + y[31] * p;
  }

  function Less(y: seq<int>, l: seq<int>, c: int): (s: seq<int>)
    requires IsOrder(l)
    requires |y| == 32
    ensures |s| == 32
  {
    seq(32, i requires 0 <= i < 32 => y[i] - c * l[i])
  }

  lemma LessValue(y: seq<int>, l: seq<int>, c: int)
    requires IsOrder(l)
    requires |y| == 32
    ensures Value(Less(y, l, c), 256) == Value(y, 256) - c * ORDER
  {
    var s := Less(y, l, c);
    forall i | 0 <= i < 32 ensures s[i] == y[i] + -c * l[i] {
    }
    SumOfSums(s, y, l, -c, 256, 32);
  }

  // The digits that the carry loop stores, and the carry that it leaves.
  lemma CarriedValue(s: seq<int>)
    requires |s| == 32
    ensures var r, c := Remainders(s, 256, 0), CarryIn(s, 256, 0, 32);
            && Value(r, 256) == Value(s, 256) - c * Pow(256, 32)
            && 0 <= Value(r, 256) < Pow(256, 32)
  {
    RemaindersSum(s, 256, 0, 32);
    SumBounds(Remainders(s, 256, 0), 256, 32);
  }

  function Corrected(y: seq<int>, l: seq<int>, q: int): (r: seq<int>)
    requires IsOrder(l)
    requires |y| == 32
    ensures |r| == 32
  {
    var s := Less(y, l, q);
    Remainders(Less(Remainders(s, 256, 0), l, CarryIn(s, 256, 0, 32)), 256, 0)
  }

  lemma CorrectionArithmetic(t: int, m: int, c: int, a: int, b: int, c': int)
    requires -ORDER < t < ORDER < m && 0 <= a < m && a == t - c * m
    requires b == a - c * ORDER - c' * m && 0 <= b < m
    ensures b == t % ORDER
    ensures -1 <= c <= 0
  {
    MultipleGap(c, m);
    if t >= 0 {
      SmallMultiple(c', m, t - b);
      ModUnique(t, ORDER, 0, t);
    } else {
      SmallMultiple(1 - c', m, b - t - ORDER);
      ModUnique(t, ORDER, -1, t + ORDER);
    }
  }

  lemma MultipleGap(k: int, m: int)
    requires m > 0
    ensures k >= 1 ==> k * m >= m
    ensures k <= -1 ==> k * m <= -m
    ensures k <= -2 ==> k * m <= -2 * m
  {
    if k >= 1 {
      assert k * m == m + (k - 1) * m;
    } else if k <= -1 {
      assert k * m == -m + (k + 1) * m;
      if k <= -2 {
        assert k * m == -2 * m + (k + 2) * m;
      }
    }
  }

  lemma SmallMultiple(k: int, m: int, d: int)
    requires d == k * m && -m < d < m
    ensures d == 0
  {
    MultipleGap(k, m);
  }

  lemma CorrectedIsResidue(y: seq<int>, l: seq<int>, q: int)
    requires IsOrder(l)
    requires |y| == 32 && q == y[31] / 16 && forall i :: 0 <= i < 32 ==> -129 <= y[i] <= 128
    ensures Corrected(y, l, q) == ToBytes(Value(y, 256) % ORDER, 32)
    ensures -1 <= CarryIn(Less(y, l, q), 256, 0, 32) <= 0
  {
    var s := Less(y, l, q);
    EstimateResidue(y, l, q);
    CarryResidue(s, l);
    BytesOfValue(Corrected(y, l, q));
  }

  lemma EstimateResidue(y: seq<int>, l: seq<int>, q: int)
    requires IsOrder(l)
    requires |y| == 32 && q == y[31] / 16 && forall i :: 0 <= i < 32 ==> -129 <= y[i] <= 128
    ensures var t := Value(Less(y, l, q), 256);
            -ORDER < t < ORDER && t % ORDER == Value(y, 256) % ORDER
  {
    LessValue(y, l, q);
    Estimate(y, q);
    LessMultiple(Value(y, 256), q);
  }

  // Carrying, and taking off the order as often as the last carry says.
  lemma CarryResidue(s: seq<int>, l: seq<int>)
    requires IsOrder(l)
    requires |s| == 32 && -ORDER < Value(s, 256) < ORDER
    ensures var c := CarryIn(s, 256, 0, 32);
            -1 <= c <= 0 &&
            Value(Remainders(Less(Remainders(s, 256, 0), l, c), 256, 0), 256) == Value(s, 256) % ORDER
  {
    var a, c := Remainders(s, 256, 0), CarryIn(s, 256, 0, 32);
    var z := Less(a, l, c);
    CarriedValue(s);
    LessValue(a, l, c);
    CarriedValue(z);
    OrderBelow();
    CorrectionArithmetic(Value(s, 256), Pow(256, 32), c, Value(a, 256), Value(Remainders(z, 256, 0), 256),
                         CarryIn(z, 256, 0, 32));
  }

  lemma OrderBelow()
    ensures ORDER < Pow(256, 32)
  {
    TopPower();
  }

  lemma LessMultiple(v: int, q: int)
    ensures (v - q * ORDER) % ORDER == v % ORDER
  {
    assert -q * ORDER == ORDER * -q;
    ModShift(v, ORDER, -q);
  }

  lemma {:induction false} SmallCarry(s: seq<int>, k: nat)
    requires k <= |s| && Field25519.Within(s, 0x1000)
    ensures -0x11 <= CarryIn(s, 256, 0, k) <= 0x11
  {
    if k > 0 {
      SmallCarry(s, k - 1);
    }
  }

  lemma LessSize(y: seq<int>, l: seq<int>, c: int, bound: int)
    requires IsOrder(l)
    requires |y| == 32 && -9 <= c <= 9 && 0 <= bound <= 0x100 && Field25519.Within(y, bound)
    ensures Field25519.Within(Less(y, l, c), 0x1000)
  {
    forall i | 0 <= i < 32 ensures -0x1000 <= Less(y, l, c)[i] <= 0x1000 {
      LessAt(y[i], c, l[i]);
    }
  }

  lemma LessAt(y: int, c: int, l: int)
    requires -0x100 <= y <= 0x100 && -9 <= c <= 9 && 0 <= l < 256
    ensures -0x1000 <= y - c * l <= 0x1000
  {
    assert -9 * l <= c * l <= 9 * l;
  }

  // What one turn of the second loop computes, and that it fits.
  lemma EstimateStep(y: seq<int>, l: seq<int>, q: int, j: nat)
    requires IsOrder(l) && |y| == 32 && j < 32 && -9 <= q <= 9 && Field25519.Within(y, 129)
    ensures var s := Less(y, l, q);
            && s[j] == y[j] - q * l[j] && -0x1000 <= q * l[j] <= 0x1000
            && -0x11 <= CarryIn(s, 256, 0, j) <= 0x11 && -0x11 <= CarryIn(s, 256, 0, j + 1) <= 0x11
            && CarryIn(s, 256, 0, j + 1) == (s[j] + CarryIn(s, 256, 0, j)) / 256
            && Remainders(s, 256, 0)[j] == (s[j] + CarryIn(s, 256, 0, j)) % 256
  {
    var s := Less(y, l, q);
    LessSize(y, l, q, 129);
    SmallCarry(s, j);
    SmallCarry(s, j + 1);
    CarryAt(s, 256, 0, j);
    SmallProduct(q, l[j]);
  }

  lemma SmallProduct(q: int, l: int)
    requires -9 <= q <= 9 && 0 <= l < 256
    ensures -0x1000 <= q * l <= 0x1000
  {
    assert -9 * l <= q * l <= 9 * l;
  }

  // Subtracts the estimated multiple of the order; the top limb is read before its own turn.
  method SubtractEstimate(x: array<i64>, l: seq<int>) returns (carry: i64)
    requires IsOrder(l)
    requires x.Length == 64 && forall i :: 0 <= i < 32 ==> -129 <= x[i] <= 128
    modifies x
    ensures var s := Less(old(x[..32]), l, old(x[31]) / 16);
            x[..32] == Remainders(s, 256, 0) && carry == CarryIn(s, 256, 0, 32)
    ensures x[32] == old(x[32])
  {
    ghost var y, q := x[..32], x[31] / 16;
    ghost var s, r := Less(y, l, q), Remainders(Less(y, l, q), 256, 0);
    LessSize(y, l, q, 129);
    carry := 0;
    for j := 0 to 32
      invariant carry == CarryIn(s, 256, 0, j)
      invariant forall k :: 0 <= k < j ==> x[k] == r[k]
      invariant forall k :: j <= k < 32 ==> x[k] == y[k]
      invariant x[32] == old(x[32])
    {
      EstimateStep(y, l, q, j);
      assert x[31] == y[31] && x[j] == y[j];
      var product: i64 := (x[31] / 16) * l[j];
      x[j] := x[j] + carry - product;
      carry := x[j] / 256;
      x[j] := x[j] % 256;
    }
    assert x[..32] == r;
  }

  method SubtractCarry(x: array<i64>, l: seq<int>, carry: i64)
    requires IsOrder(l)
    requires x.Length == 64 && -1 <= carry <= 0 && forall i :: 0 <= i < 32 ==> 0 <= x[i] < 256
    modifies x
    ensures x[..32] == Less(old(x[..32]), l, carry) && x[32] == old(x[32])
  {
    ghost var y := x[..32];
    for j := 0 to 32
      invariant forall k :: 0 <= k < j ==> x[k] == Less(y, l, carry)[k]
      invariant forall k :: j <= k < 32 ==> x[k] == y[k]
      invariant x[32] == old(x[32])
    {
      var product: i64 := carry * l[j];
      assert Less(y, l, carry)[j] == y[j] - product;
      x[j] := x[j] - product;
    }
    assert x[..32] == Less(y, l, carry);
  }

  method StoreResidue(r: array<u8>, rAt: nat, x: array<i64>)
    requires rAt + 32 <= r.Length && x.Length == 64
    requires Field25519.Within(x[..32], 0x1000) && -0x1000 <= x[32] <= 0x1000
    modifies r, x
    ensures r[rAt..rAt + 32] == Remainders(old(x[..32]), 256, 0)
    ensures forall k :: 0 <= k < r.Length && !(rAt <= k < rAt + 32) ==> r[k] == old(r[k])
  {
    ghost var z, b := x[..32], Remainders(x[..32], 256, 0);
    for i := 0 to 32
      invariant i < 32 ==> x[i] == z[i] + CarryIn(z, 256, 0, i)
      invariant forall k :: i < k < 32 ==> x[k] == z[k]
      invariant i < 32 ==> x[32] == old(x[32])
      invariant forall k :: 0 <= k < i ==> r[rAt + k] == b[k]
      invariant forall k :: 0 <= k < r.Length && !(rAt <= k < rAt + 32) ==> r[k] == old(r[k])
    {
      SmallCarry(z, i);
      assert z[i] == old(x[i]) && (i < 31 ==> x[i + 1] == z[i + 1]);
      assert b[i] == (z[i] + CarryIn(z, 256, 0, i)) % 256;
      x[i + 1] := x[i + 1] + x[i] / 256;
      r[rAt + i] := x[i] % 256;
    }
    assert r[rAt..rAt + 32] == b;
  }

  // The residue in [0, ORDER) of any 64-limb integer of the callers' range, as 32 bytes.
  method ModL(r: array<u8>, rAt: nat, x: array<i64>)
    requires rAt + 32 <= r.Length && x.Length == 64 && Field25519.Within(x[..], INPUT)
    modifies r, x
    ensures r[rAt..rAt + 32] == ToBytes(old(Value(x[..], 256)) % ORDER, 32)
    ensures forall k :: 0 <= k < r.Length && !(rAt <= k < rAt + 32) ==> r[k] == old(r[k])
  {
    OrderBytes();
    var l := Order();
    RemoveUpperLimbs(x, l);
    ghost var y := x[..32];
    LowValue(x[..]);
    CorrectedIsResidue(y, l, y[31] / 16);
    var carry := SubtractEstimate(x, l);
    ghost var a := x[..32];
    assert forall i :: 0 <= i < 32 ==> x[i] == a[i];
    LessSize(a, l, carry, 0x100);
    SubtractCarry(x, l, carry);
    StoreResidue(r, rAt, x);
  }

  lemma LowValue(x: seq<int>)
    requires Stage(x, 31)
    ensures Value(x, 256) == Value(x[..32], 256) && x[32] == 0
    ensures forall i :: 0 <= i < 32 ==> -129 <= x[i] <= 128
  {
    ZeroTop(x);
  }

  lemma ZeroTop(x: seq<int>)
    requires |x| == 64 && forall i :: 32 <= i < 64 ==> x[i] == 0
    ensures Value(x, 256) == Value(x[..32], 256)
  {
    SumSplit(x, 256, 32, 32);
    SumZero(x[32..], 256, 32);
    SumDepends(x, x[..32], 256, 32);
  }

  // reduce: 64 bytes become 32.
  method Reduce(r: array<u8>)
    requires r.Length == 64
    modifies r
    ensures r[..32] == ToBytes(old(Value(r[..], 256)) % ORDER, 32)
    ensures forall k :: 32 <= k < 64 ==> r[k] == 0
  {
    var x := new i64[64];
    ghost var s := r[..];
    for i := 0 to 64
      modifies x
      invariant forall k :: 0 <= k < i ==> x[k] == s[k]
    {
      assert r[i] == s[i];
      x[i] := r[i];
    }
    assert x[..] == s;
    for i := 0 to 64
      modifies r
      invariant forall k :: 0 <= k < i ==> r[k] == 0
      invariant x[..] == s
    {
      r[i] := 0;
    }
    assert x[..] == s && forall k :: 0 <= k < 64 ==> 0 <= s[k] < 256;
    ModL(r, 0, x);
    assert r[..32] == r[0..0 + 32];
  }
}
