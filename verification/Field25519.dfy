/** Arithmetic modulo 2^255 - 19 on sixteen signed 64-bit limbs of radix 2^16
    (car25519 .. pow2523 of src/tweetnacl.c).  Every store goes into an `i64`, and products are
    first held in `i64` locals, so verification shows that no 64-bit operation overflows. */
module Field25519 {
  import opened Bits
  import opened Digits

  const P: int := 0x7fffffff_ffffffff_ffffffff_ffffffff_ffffffff_ffffffff_ffffffff_ffffffed

  type i64 = x: int | -0x8000_0000_0000_0000 <= x < 0x8000_0000_0000_0000

  // The integer and the field element that sixteen limbs denote.
  function Int(s: seq<int>): int {
    Value(s, 65536)
  }

  function Fe(s: seq<int>): int {
    Int(s) % P
  }

  function FAdd(x: int, y: int): int { (x + y) % P }
  function FSub(x: int, y: int): int { (x - y) % P }
  function FMul(x: int, y: int): int { x * y % P }
  function FPow(x: int, e: nat): int { Pow(x, e) % P }

  predicate Within(s: seq<int>, bound: int) {
    forall i :: 0 <= i < |s| ==> -bound <= s[i] <= bound
  }

  predicate Normal(s: seq<int>) {
    forall i :: 0 <= i < |s| ==> 0 <= s[i] < 65536
  }

  // What two carry passes leave: normal limbs, but for a margin of 38 on the lowest one.
  predicate Tight(s: seq<int>) {
    |s| == 16 && -38 <= s[0] < 65536 + 38 && Normal(s[1..])
  }

  // ---- carries ----

  // The carry out of the top limb returns to the lowest one, times 38.
  function Wrapped(r: seq<int>, c: int): (t: seq<int>)
    requires |r| == 16
    ensures |t| == 16
  {
    r[0 := r[0] + 38 * c]
  }

  // One carry pass.
  function Carried(s: seq<int>): (r: seq<int>)
    requires |s| == 16
    ensures |r| == 16
  {
    Wrapped(Remainders(s, 65536, 0), CarryIn(s, 65536, 0, 16))
  }

  lemma WrappedInt(r: seq<int>, c: int)
    requires |r| == 16
    ensures Int(Wrapped(r, c)) == Int(r) + 38 * c
  {
    SumAddLow(r, 65536, 16, 38 * c);
  }

  lemma Radix16()
    ensures Pow(65536, 16) == 2 * P + 38
  {
    PowAdd(65536, 8, 8);
    PowAdd(65536, 4, 4);
    assert Pow(65536, 4) == 0x1_0000_0000_0000_0000;
  }

  lemma FoldCarry(v: int, r: int, t: int, c: int, q: int)
    requires q == 2 * P + 38 && r == v - c * q && t == r + 38 * c
    ensures t == v - 2 * P * c
  {
    assert c * q == 2 * P * c + 38 * c;
  }

  lemma CarriedInt(s: seq<int>)
    requires |s| == 16
    ensures Int(Carried(s)) == Int(s) - 2 * P * CarryIn(s, 65536, 0, 16)
  {
    var r, c := Remainders(s, 65536, 0), CarryIn(s, 65536, 0, 16);
    WrappedInt(r, c);
    RemaindersSum(s, 65536, 0, 16);
    Radix16();
    FoldCarry(Int(s), Int(r), Int(Carried(s)), c, Pow(65536, 16));
  }

  lemma CarriedFe(s: seq<int>)
    requires |s| == 16
    ensures Fe(Carried(s)) == Fe(s)
  {
    CarriedInt(s);
    ModShift(Int(s), P, -2 * CarryIn(s, 65536, 0, 16));
  }

  lemma {:induction false} CarryBound(s: seq<int>, k: nat)
    requires k <= |s| && Within(s, 0x4000_0000_0000_0000)
    ensures -0x4001_0000_0000 <= CarryIn(s, 65536, 0, k) <= 0x4001_0000_0000
  {
    if k > 0 {
      CarryBound(s, k - 1);
    }
  }

  // The first pass leaves only the lowest limb large; its excess dies out within four limbs.
  predicate LowHeavy(s: seq<int>) {
    |s| == 16 && -0x10_0000_0000_0000 <= s[0] <= 0x10_0000_0000_0000 && Normal(s[1..])
  }

  lemma FirstPass(s: seq<int>)
    requires |s| == 16 && Within(s, 0x4000_0000_0000_0000)
    ensures LowHeavy(Carried(s))
  {
    CarryBound(s, 16);
  }

  lemma {:induction false} SecondPassCarry(s: seq<int>, k: nat)
    requires LowHeavy(s) && 4 <= k <= 16
    ensures -1 <= CarryIn(s, 65536, 0, k) <= 1
  {
    assert s[k - 1] == s[1..][k - 2];
    if k == 4 {
      assert s[2] == s[1..][1] && s[1] == s[1..][0];
      assert CarryIn(s, 65536, 0, 1) == s[0] / 65536;
      assert CarryIn(s, 65536, 0, 2) == (s[1] + CarryIn(s, 65536, 0, 1)) / 65536;
      assert CarryIn(s, 65536, 0, 3) == (s[2] + CarryIn(s, 65536, 0, 2)) / 65536;
    } else {
      SecondPassCarry(s, k - 1);
    }
  }

  lemma SecondPass(s: seq<int>)
    requires LowHeavy(s)
    ensures Tight(Carried(s))
  {
    SecondPassCarry(s, 16);
  }

  lemma {:induction false} ThirdPassCarry(s: seq<int>, k: nat)
    requires Tight(s) && k <= 16
    ensures s[0] < 0 ==> -1 <= CarryIn(s, 65536, 0, k) <= 0
    ensures s[0] >= 65536 ==> 0 <= CarryIn(s, 65536, 0, k) <= 1
    ensures 0 <= s[0] < 65536 ==> CarryIn(s, 65536, 0, k) == 0
  {
    if k > 1 {
      assert s[k - 1] == s[1..][k - 2];
      ThirdPassCarry(s, k - 1);
    }
  }

  lemma ThirdPass(s: seq<int>)
    requires Tight(s)
    ensures Normal(Carried(s))
  {
    ThirdPassCarry(s, 16);
    assert CarryIn(s, 65536, 0, 0) == 0;
  }

  ghost function Limbs(o: array<i64>, at: nat): (s: seq<int>)
    requires at + 16 <= o.Length
    reads o
    ensures |s| == 16
  {
    o[at..at + 16]
  }

  twostate predicate OnlyLimbs(o: array<i64>, at: nat)
    requires at + 16 <= o.Length
    reads o
  {
    forall k :: 0 <= k < o.Length && !(at <= k < at + 16) ==> o[k] == old(o[k])
  }

  function Next(i: nat): nat {
    if i < 15 then i + 1 else 0
  }

  // The body of the carry loop: limb i is reduced and its carry added to the next limb.
  method CarryLimb(o: array<i64>, at: nat, i: nat)
    requires i < 16 && at + 16 <= o.Length
    requires -0x5000_0000_0000_0000 <= o[at + i] <= 0x5000_0000_0000_0000
    requires -0x5000_0000_0000_0000 <= o[at + Next(i)] <= 0x5000_0000_0000_0000
    modifies o
    ensures o[at + i] == old(o[at + i]) % 65536
    ensures o[at + Next(i)]
         == old(o[at + Next(i)]) + (if i < 15 then 1 else 38) * (old(o[at + i]) / 65536)
    ensures forall k :: 0 <= k < o.Length && k != at + i && k != at + Next(i) ==> o[k] == old(o[k])
  {
    o[at + i] := o[at + i] + 65536;
    var c: i64 := o[at + i] / 65536;
    o[at + Next(i)] := o[at + Next(i)] + (c - 1 + 37 * (c - 1) * (if i == 15 then 1 else 0));
    o[at + i] := o[at + i] - c * 65536;
  }

  method Car25519(o: array<i64>, at: nat)
    requires at + 16 <= o.Length
    requires Within(Limbs(o, at), 0x4000_0000_0000_0000)
    modifies o
    ensures Limbs(o, at) == Carried(old(Limbs(o, at)))
    ensures OnlyLimbs(o, at)
  {
    ghost var s, r := Limbs(o, at), Remainders(Limbs(o, at), 65536, 0);
    for i := 0 to 16
      invariant forall k :: 0 < k < i ==> o[at + k] == r[k]
      invariant 0 < i < 16 ==> o[at] == r[0]
      invariant i == 16 ==> o[at] == r[0] + 38 * CarryIn(s, 65536, 0, |s|)
      invariant i < 16 ==> o[at + i] == s[i] + CarryIn(s, 65536, 0, i)
      invariant forall k :: i < k < 16 ==> o[at + k] == s[k]
      invariant OnlyLimbs(o, at)
    {
      CarryBound(s, i);
      assert r[i] == (s[i] + CarryIn(s, 65536, 0, i)) % 65536;
      assert CarryIn(s, 65536, 0, i + 1) == (s[i] + CarryIn(s, 65536, 0, i)) / 65536;
      assert if i < 15 then o[at + Next(i)] == s[i + 1] else o[at] == r[0] < 65536;
      CarryLimb(o, at, i);
    }
    assert Limbs(o, at) == Carried(s);
  }

  // ---- addition, subtraction, multiplication ----

  method A(o: array<i64>, a: array<i64>, b: array<i64>)
    requires o.Length >= 16 && a.Length >= 16 && b.Length >= 16
    requires Within(Limbs(a, 0), 0x200_0000) && Within(Limbs(b, 0), 0x200_0000)
    modifies o
    ensures forall k :: 0 <= k < 16 ==> o[k] == old(a[k]) + old(b[k])
    ensures Within(Limbs(o, 0), 0x400_0000)
    ensures Fe(Limbs(o, 0)) == FAdd(old(Fe(Limbs(a, 0))), old(Fe(Limbs(b, 0))))
    ensures OnlyLimbs(o, 0)
  {
    ghost var x, y := Limbs(a, 0), Limbs(b, 0);
    for i := 0 to 16
      invariant forall k :: 0 <= k < i ==> o[k] == x[k] + y[k]
      invariant forall k :: i <= k < 16 ==> a[k] == x[k] && b[k] == y[k]
      invariant OnlyLimbs(o, 0)
    {
      o[i] := a[i] + b[i];
    }
    SumOfSums(Limbs(o, 0), x, y, 1, 65536, 16);
    AddFe(Int(x), Int(y));
  }

  method Z(o: array<i64>, a: array<i64>, b: array<i64>)
    requires o.Length >= 16 && a.Length >= 16 && b.Length >= 16
    requires Within(Limbs(a, 0), 0x200_0000) && Within(Limbs(b, 0), 0x200_0000)
    modifies o
    ensures forall k :: 0 <= k < 16 ==> o[k] == old(a[k]) - old(b[k])
    ensures Within(Limbs(o, 0), 0x400_0000)
    ensures Fe(Limbs(o, 0)) == FSub(old(Fe(Limbs(a, 0))), old(Fe(Limbs(b, 0))))
    ensures OnlyLimbs(o, 0)
  {
    ghost var x, y := Limbs(a, 0), Limbs(b, 0);
    for i := 0 to 16
      invariant forall k :: 0 <= k < i ==> o[k] == x[k] - y[k]
      invariant forall k :: i <= k < 16 ==> a[k] == x[k] && b[k] == y[k]
      invariant OnlyLimbs(o, 0)
    {
      o[i] := a[i] - b[i];
    }
    SumOfSums(Limbs(o, 0), x, y, -1, 65536, 16);
    SubFe(Int(x), Int(y));
  }

  lemma AddFe(u: int, v: int)
    ensures (u + v) % P == FAdd(u % P, v % P)
  {
  }

  lemma SubFe(u: int, v: int)
    ensures (u - v) % P == FSub(u % P, v % P)
  {
  }

  const PRODUCT_BOUND := 0x10_0000_0000_0000

  lemma ProductBound(x: int, y: int)
    requires -0x400_0000 <= x <= 0x400_0000 && -0x400_0000 <= y <= 0x400_0000
    ensures -PRODUCT_BOUND <= x * y <= PRODUCT_BOUND
  {
    var u, v := Size(x), Size(y);
    assert u * v <= 0x400_0000 * v <= PRODUCT_BOUND;
    assert x * y == u * v || x * y == -(u * v);
  }

  lemma ProductStep(v: int, x: int, y: int, p: int, q: int, z: int)
    ensures v + x * p * z + x * y * (p * q) == v + x * p * (z + y * q)
  {
  }

  lemma ProductRow(v: int, x: int, p: int, z: int)
    ensures v * z + x * p * z == (v + x * p) * z
  {
  }

  lemma IntAdd(s: seq<int>, i: nat, d: int)
    requires i < |s|
    ensures Int(s[i := s[i] + d]) == Int(s) + d * Pow(65536, i)
  {
    SumAdd(s, 65536, |s|, i, d);
  }

  // The inner loop of M: x[i] times b is added to t at limb i.
  method AddRow(t: array<i64>, a: array<i64>, aAt: nat, b: array<i64>, bAt: nat, i: nat)
    requires t.Length == 31 && t != a && t != b && i < 16
    requires aAt + 16 <= a.Length && bAt + 16 <= b.Length
    requires Within(Limbs(a, aAt), 0x400_0000) && Within(Limbs(b, bAt), 0x400_0000)
    requires Within(t[..], i * PRODUCT_BOUND)
    modifies t
    ensures Int(t[..]) == old(Int(t[..])) + a[aAt + i] * Pow(65536, i) * Int(Limbs(b, bAt))
    ensures Within(t[..], (i + 1) * PRODUCT_BOUND)
  {
    ghost var x, y, v := Limbs(a, aAt)[i], Limbs(b, bAt), Int(t[..]);
    for j := 0 to 16
      invariant Int(t[..]) == v + x * Pow(65536, i) * Sum(y, 65536, j)
      invariant Within(t[..], (i + 1) * PRODUCT_BOUND)
      invariant Within(t[i + j..], i * PRODUCT_BOUND)
    {
      ProductBound(x, y[j]);
      var product: i64 := a[aAt + i] * b[bAt + j];
      ghost var before := t[..];
      IntAdd(before, i + j, product);
      PowAdd(65536, i, j);
      ProductStep(v, x, y[j], Pow(65536, i), Pow(65536, j), Sum(y, 65536, j));
      assert before[i + j] == before[i + j..][0];
      t[i + j] := t[i + j] + product;
      assert t[..] == before[i + j := before[i + j] + product];
      assert t[i + j + 1..] == before[i + j..][1..];
    }
  }

  // The schoolbook product of M: 31 limbs that denote the product of the two integers.
  method Product(t: array<i64>, a: array<i64>, aAt: nat, b: array<i64>, bAt: nat)
    requires t.Length == 31 && t != a && t != b
    requires aAt + 16 <= a.Length && bAt + 16 <= b.Length
    requires Within(Limbs(a, aAt), 0x400_0000) && Within(Limbs(b, bAt), 0x400_0000)
    modifies t
    ensures Int(t[..]) == Int(Limbs(a, aAt)) * Int(Limbs(b, bAt))
    ensures Within(t[..], 16 * PRODUCT_BOUND)
  {
    ghost var x, y := Limbs(a, aAt), Limbs(b, bAt);
    for i := 0 to 31
      invariant forall k :: 0 <= k < i ==> t[k] == 0
    {
      t[i] := 0;
    }
    SumZero(t[..], 65536, 31);
    for i := 0 to 16
      invariant Int(t[..]) == Sum(x, 65536, i) * Int(y)
      invariant Within(t[..], i * PRODUCT_BOUND)
    {
      AddRow(t, a, aAt, b, bAt, i);
      ProductRow(Sum(x, 65536, i), x[i], Pow(65536, i), Int(y));
    }
  }

  // The reduction loop of M: 2^256 is 38 modulo P, so the high limbs return times 38.
  method FoldProduct(t: array<i64>)
    requires t.Length == 31
    requires Within(t[..], 16 * PRODUCT_BOUND)
    modifies t
    ensures Fe(Limbs(t, 0)) == old(Fe(t[..]))
    ensures Within(Limbs(t, 0), 0x4000_0000_0000_0000)
  {
    ghost var s, low, high := t[..], t[..16], t[16..];
    assert Limbs(t, 0) == low;
    for i := 0 to 15
      invariant Int(Limbs(t, 0)) == Int(low) + 38 * Sum(high, 65536, i)
      invariant forall k :: i <= k < 31 ==> t[k] == s[k]
      invariant forall k :: 0 <= k < i ==> -624 * PRODUCT_BOUND <= t[k] <= 624 * PRODUCT_BOUND
    {
      ghost var before := Limbs(t, 0);
      var folded: i64 := 38 * t[i + 16];
      IntAdd(before, i, folded);
      FoldStep(Int(low), Sum(high, 65536, i), high[i], Pow(65536, i));
      t[i] := t[i] + folded;
      assert Limbs(t, 0) == before[i := before[i] + folded];
    }
    FoldHigh(s);
  }

  lemma FoldStep(v: int, h: int, x: int, p: int)
    ensures v + 38 * (h + x * p) == v + 38 * h + 38 * x * p
  {
  }

  lemma FoldHigh(s: seq<int>)
    requires |s| == 31
    ensures (Int(s[..16]) + 38 * Int(s[16..])) % P == Fe(s)
  {
    SumSplit(s, 65536, 16, 15);
    SumDepends(s, s[..16], 65536, 16);
    Radix16();
    FoldMod(Int(s[..16]), Int(s[16..]), Pow(65536, 16));
  }

  lemma FoldMod(v: int, h: int, q: int)
    requires q == 2 * P + 38
    ensures (v + 38 * h) % P == (v + q * h) % P
  {
    assert v + q * h == P * (2 * h) + (v + 38 * h);
    ModShift(v + 38 * h, P, 2 * h);
  }

  method M(o: array<i64>, oAt: nat, a: array<i64>, aAt: nat, b: array<i64>, bAt: nat)
    requires oAt + 16 <= o.Length && aAt + 16 <= a.Length && bAt + 16 <= b.Length
    requires Within(Limbs(a, aAt), 0x400_0000) && Within(Limbs(b, bAt), 0x400_0000)
    modifies o
    ensures Fe(Limbs(o, oAt)) == FMul(old(Fe(Limbs(a, aAt))), old(Fe(Limbs(b, bAt))))
    ensures Tight(Limbs(o, oAt)) && Within(Limbs(o, oAt), 0x200_0000)
    ensures OnlyLimbs(o, oAt)
  {
    ghost var u, v := Int(Limbs(a, aAt)), Int(Limbs(b, bAt));
    var t := new i64[31];
    Product(t, a, aAt, b, bAt);
    FoldProduct(t);
    ghost var s := Limbs(t, 0);
    for i := 0 to 16
      invariant forall k :: 0 <= k < i ==> o[oAt + k] == s[k]
      invariant Limbs(t, 0) == s
      invariant OnlyLimbs(o, oAt)
    {
      assert t[i] == Limbs(t, 0)[i];
      o[oAt + i] := t[i];
    }
    assert Limbs(o, oAt) == s;
    ModMul(u, v, P);
    TwoPasses(s);
    Car25519(o, oAt);
    Car25519(o, oAt);
    TightWithin(Limbs(o, oAt));
  }

  lemma TwoPasses(s: seq<int>)
    requires |s| == 16 && Within(s, 0x4000_0000_0000_0000)
    ensures Within(Carried(s), 0x4000_0000_0000_0000)
    ensures Tight(Carried(Carried(s)))
    ensures Fe(Carried(Carried(s))) == Fe(s)
  {
    FirstPass(s);
    LowHeavyWithin(Carried(s));
    SecondPass(Carried(s));
    CarriedFe(s);
    CarriedFe(Carried(s));
  }

  lemma LowHeavyWithin(s: seq<int>)
    requires LowHeavy(s)
    ensures Within(s, 0x4000_0000_0000_0000)
  {
    forall i | 0 <= i < |s| ensures -0x4000_0000_0000_0000 <= s[i] <= 0x4000_0000_0000_0000 {
      if i > 0 {
        assert s[i] == s[1..][i - 1];
      }
    }
  }

  lemma TightWithin(s: seq<int>)
    requires Tight(s)
    ensures Within(s, 0x1_0026)
  {
    forall i | 0 <= i < |s| ensures -0x1_0026 <= s[i] <= 0x1_0026 {
      if i > 0 {
        assert s[i] == s[1..][i - 1];
      }
    }
  }

  method S(o: array<i64>, oAt: nat, a: array<i64>, aAt: nat)
    requires oAt + 16 <= o.Length && aAt + 16 <= a.Length
    requires Within(Limbs(a, aAt), 0x400_0000)
    modifies o
    ensures Fe(Limbs(o, oAt)) == FMul(old(Fe(Limbs(a, aAt))), old(Fe(Limbs(a, aAt))))
    ensures Tight(Limbs(o, oAt)) && Within(Limbs(o, oAt), 0x200_0000)
    ensures OnlyLimbs(o, oAt)
  {
    M(o, oAt, a, aAt, a, aAt);
  }

  // ---- powers ----

  lemma FPowAdd(x: int, e: nat, f: nat)
    ensures FMul(FPow(x, e), FPow(x, f)) == FPow(x, e + f)
  {
    PowAdd(x, e, f);
    ModMul(Pow(x, e), Pow(x, f), P);
  }

  lemma FPowOne(x: int)
    requires 0 <= x < P
    ensures FPow(x, 1) == x
  {
    assert Pow(x, 1) == x * Pow(x, 0) == x;
  }

  method CopyLimbs(o: array<i64>, oAt: nat, a: array<i64>, aAt: nat)
    requires o != a && oAt + 16 <= o.Length && aAt + 16 <= a.Length
    modifies o
    ensures Limbs(o, oAt) == Limbs(a, aAt)
    ensures OnlyLimbs(o, oAt)
  {
    ghost var s := Limbs(a, aAt);
    for i := 0 to 16
      invariant forall k :: 0 <= k < i ==> o[oAt + k] == s[k]
      invariant OnlyLimbs(o, oAt)
    {
      assert a[aAt + i] == s[i];
      o[oAt + i] := a[aAt + i];
    }
    assert Limbs(o, oAt) == s;
  }

  // One round of the power loops: square, and multiply by the base if asked to.
  method PowerStep(c: array<i64>, i: array<i64>, iAt: nat, multiply: bool, ghost e: nat)
    requires c != i && c.Length == 16 && iAt + 16 <= i.Length
    requires Within(Limbs(i, iAt), 0x400_0000) && Within(Limbs(c, 0), 0x400_0000)
    requires Fe(Limbs(c, 0)) == FPow(Fe(Limbs(i, iAt)), e)
    modifies c
    ensures Fe(Limbs(c, 0)) == FPow(Fe(Limbs(i, iAt)), 2 * e + (if multiply then 1 else 0))
    ensures Within(Limbs(c, 0), 0x400_0000)
  {
    ghost var x := Fe(Limbs(i, iAt));
    FPowAdd(x, e, e);
    S(c, 0, c, 0);
    if multiply {
      FPowAdd(x, 2 * e, 1);
      FPowOne(x);
      M(c, 0, c, 0, i, iAt);
    }
  }

  lemma Pow2Large()
    ensures Pow2(255) == P + 19
    ensures Pow2(252) == (P - 5) / 8 + 3
  {
    Pow2Values();
    Pow2Double(63, 0x8000_0000_0000_0000);
    Pow2Double(126, 0x8000_0000_0000_0000 * 0x8000_0000_0000_0000);
    assert Pow2(255) == 2 * Pow2(254) == 4 * Pow2(253) == 8 * Pow2(252);
  }

  // 2^(255-a) minus this is the exponent reached when bits 254 .. a of P - 2 are consumed.
  function InvGap(a: nat): nat {
    if a > 4 then 1 else [21, 11, 6, 3, 2][a]
  }

  method Inv25519(o: array<i64>, oAt: nat, i: array<i64>, iAt: nat)
    requires oAt + 16 <= o.Length && iAt + 16 <= i.Length
    requires Within(Limbs(i, iAt), 0x400_0000)
    modifies o
    ensures Fe(Limbs(o, oAt)) == FPow(old(Fe(Limbs(i, iAt))), P - 2)
    ensures Within(Limbs(o, oAt), 0x400_0000)
    ensures OnlyLimbs(o, oAt)
  {
    var c := new i64[16];
    CopyLimbs(c, 0, i, iAt);
    ghost var y, e: nat := Limbs(i, iAt), 1;
    FPowOne(Fe(y));
    for a := 254 downto 0
      modifies c
      invariant e == Pow2(255 - a) - InvGap(a)
      invariant Limbs(i, iAt) == y && Fe(Limbs(c, 0)) == FPow(Fe(y), e)
      invariant Within(Limbs(c, 0), 0x400_0000)
    {
      PowerStep(c, i, iAt, a != 2 && a != 4, e);
      e := 2 * e + (if a != 2 && a != 4 then 1 else 0);
    }
    Pow2Large();
    CopyLimbs(o, oAt, c, 0);
  }

  // Likewise for (P - 5) / 8 == 2^252 - 3.
  function Pow2523Gap(a: nat): nat {
    if a > 1 then 1 else [3, 2][a]
  }

  method Pow2523(o: array<i64>, oAt: nat, i: array<i64>, iAt: nat)
    requires oAt + 16 <= o.Length && iAt + 16 <= i.Length
    requires Within(Limbs(i, iAt), 0x400_0000)
    modifies o
    ensures Fe(Limbs(o, oAt)) == FPow(old(Fe(Limbs(i, iAt))), (P - 5) / 8)
    ensures Within(Limbs(o, oAt), 0x400_0000)
    ensures OnlyLimbs(o, oAt)
  {
    var c := new i64[16];
    CopyLimbs(c, 0, i, iAt);
    ghost var y, e: nat := Limbs(i, iAt), 1;
    FPowOne(Fe(y));
    for a := 251 downto 0
      modifies c
      invariant e == Pow2(252 - a) - Pow2523Gap(a)
      invariant Limbs(i, iAt) == y && Fe(Limbs(c, 0)) == FPow(Fe(y), e)
      invariant Within(Limbs(c, 0), 0x400_0000)
    {
      PowerStep(c, i, iAt, a != 1, e);
      e := 2 * e + (if a != 1 then 1 else 0);
    }
    Pow2Large();
    CopyLimbs(o, oAt, c, 0);
  }
}
