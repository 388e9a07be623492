/** X25519 (crypto_scalarmult of src/tweetnacl.c) against section 5 of RFC 7748. */
module X25519 {
  import opened Bits
  import opened Digits
  import opened Field25519
  import opened Pack25519

  // ---- the function of RFC 7748, section 5, on field elements ----

  datatype Points = Points(x2: int, z2: int, x3: int, z3: int)
  datatype Ladder = Ladder(p: Points, swap: int)

  function Cswap(swap: int, p: Points): Points {
    if swap == 1 then Points(p.x3, p.z3, p.x2, p.z2) else p
  }

  // The body of the RFC's loop, without its swaps.
  function Formulas(x1: int, p: Points): Points {
    var a := FAdd(p.x2, p.z2);
    var aa := FMul(a, a);
    var b := FSub(p.x2, p.z2);
    var bb := FMul(b, b);
    var e := FSub(aa, bb);
    var c := FAdd(p.x3, p.z3);
    var d := FSub(p.x3, p.z3);
    var da := FMul(d, a);
    var cb := FMul(c, b);
    Points(
      FMul(aa, bb),
      FMul(e, FAdd(aa, FMul(121665, e))),
      FMul(FAdd(da, cb), FAdd(da, cb)),
      FMul(x1, FMul(FSub(da, cb), FSub(da, cb))))
  }

  function Round(x1: int, l: Ladder, bit: int): Ladder {
    Ladder(Formulas(x1, Cswap(Xor(l.swap, bit), l.p)), bit)
  }

  function Bit(k: int, t: nat): int {
    k / Pow2(t) % 2
  }

  // The ladder after bits 254 .. t of k.
  function Rounds(k: int, x1: int, t: nat): Ladder
    decreases 255 - t
  {
    if t >= 255 then Ladder(Points(1, 0, x1, 1), 0) else Round(x1, Rounds(k, x1, t + 1), Bit(k, t))
  }

  function DecodeScalar(k: seq<int>): int
    requires |k| == 32
  {
    Value([k[0] - k[0] % 8] + k[1..31] + [Or(k[31] % 128, 64)], 256)
  }

  function DecodeU(u: seq<int>): int
    requires |u| == 32
  {
    Value(u, 256) % (P + 19) % P
  }

  // RFC 7748's X25519(k, u) on byte strings.
  function Function(k: seq<int>, u: seq<int>): seq<int>
    requires |k| == 32 && |u| == 32
  {
    var l := Rounds(DecodeScalar(k), DecodeU(u), 0);
    var p := Cswap(l.swap, l.p);
    ToBytes(FMul(p.x2, FPow(p.z2, P - 2)), 32)
  }

  // ---- swapping by the bit and back again ----

  lemma CswapTwice(s: int, t: int, p: Points)
    requires 0 <= s <= 1 && 0 <= t <= 1
    ensures Cswap(t, Cswap(s, p)) == Cswap(Xor(s, t), p)
    ensures 0 <= Xor(s, t) <= 1
  {
    XorBits(s, t);
  }

  // The code swaps by each bit, steps, and swaps back; the RFC carries the swap along.
  lemma UnconditionalSwaps(k: int, x1: int, t: nat, p: Points)
    requires t < 255
    requires var l := Rounds(k, x1, t + 1); 0 <= l.swap <= 1 && p == Cswap(l.swap, l.p)
    ensures var l := Rounds(k, x1, t);
            var bit := Bit(k, t);
            && 0 <= l.swap <= 1
            && Cswap(bit, Formulas(x1, Cswap(bit, p))) == Cswap(l.swap, l.p)
  {
    var l := Rounds(k, x1, t + 1);
    CswapTwice(l.swap, Bit(k, t), l.p);
  }

  // ---- scalar bits ----

  lemma BitOfByte(z: seq<int>, j: nat, r: nat)
    requires AreDigits(z, 256) && j < |z| && r < 8
    ensures Bit(Value(z, 256), 8 * j + r) == z[j] / Pow2(r) % 2
  {
    var low, q, rest := Sum(z, 256, j), Pow(256, j), Value(z[j..][1..], 256);
    SumSplit(z, 256, j, |z| - j);
    assert z[j..] == [z[j]] + z[j..][1..];
    ValueCons(z[j], z[j..][1..], 256);
    SumBounds(z, 256, j);
    assert Value(z, 256) == q * (256 * rest + z[j]) + low;
    ModUnique(Value(z, 256), q, 256 * rest + z[j], low);
    Pow256(j);
    Pow2Add(8 * j, r);
    DivDiv(Value(z, 256), q, Pow2(r));
    LowBits(rest, z[j], r);
  }

  lemma DivDiv(x: int, p: int, q: int)
    requires p > 0 && q > 0
    ensures p * q > 0
    ensures x / (p * q) == x / p / q
  {
    var y, m := x / p, x % p;
    var u, v := y / q, y % q;
    MulSum(p, q * u, v);
    MulGroup(p, q, u);
    MulBelow(p, q, v, m);
    assert x == p * y + m && y == q * u + v;
    ModUnique(x, p * q, u, p * v + m);
  }

  lemma MulSum(p: int, a: int, b: int)
    ensures p * (a + b) == p * a + p * b
  {
  }

  lemma MulGroup(p: int, q: int, u: int)
    ensures p * (q * u) == (p * q) * u
  {
  }

  lemma MulBelow(p: int, q: int, v: int, m: int)
    requires p > 0 && 0 <= v < q && 0 <= m < p
    ensures 0 <= p * v + m < p * q
  {
    MulSum(p, v, q - v);
    assert p * (q - v) >= p;
  }

  lemma LowBits(rest: int, x: int, r: nat)
    requires r < 8
    ensures (256 * rest + x) / Pow2(r) % 2 == x / Pow2(r) % 2
  {
    Pow2Add(r, 7 - r);
    Pow2Values();
    EvenMultiple(Pow2(r), Pow2(7 - r), rest, x);
  }

  lemma EvenMultiple(d: int, e: int, rest: int, x: int)
    requires d > 0 && d * e == 128
    ensures (256 * rest + x) / d % 2 == x / d % 2
  {
    var q, m := x / d, e * rest;
    assert d * (2 * m + q) == 2 * (d * m) + d * q;
    assert d * m == (d * e) * rest;
    ModUnique(256 * rest + x, d, 2 * m + q, x % d);
  }

  // ---- the limb code ----

  lemma FMulCommutes(x: int, y: int)
    ensures FMul(x, y) == FMul(y, x)
  {
  }

  lemma SquareOfDifference(x: int, y: int)
    ensures FMul(FSub(x, y), FSub(x, y)) == FMul(FSub(y, x), FSub(y, x))
  {
    var d := x - y;
    ModMul(d, d, P);
    ModMul(-d, -d, P);
    assert d * d == (-d) * (-d);
  }

  // _121665: the curve constant as limbs.
  predicate IsCurveConstant(s: seq<int>) {
    |s| == 16 && s[0] == 0xDB41 && s[1] == 1 && forall i :: 2 <= i < 16 ==> s[i] == 0
  }

  lemma CurveConstant(s: seq<int>)
    requires IsCurveConstant(s)
    ensures Fe(s) == 121665
  {
    SumSplit(s, 65536, 2, 14);
    SumZero(s[2..], 65536, 14);
    assert Pow(65536, 0) == 1 && Pow(65536, 1) == 65536;
    assert Sum(s, 65536, 1) == Sum(s, 65536, 0) + s[0] * Pow(65536, 0);
    assert Sum(s, 65536, 2) == Sum(s, 65536, 1) + s[1] * Pow(65536, 1);
  }

  ghost predicate Ready(x: array<i64>)
    reads x
  {
    x.Length >= 16 && Within(x[..16], 0x200_0000)
  }

  // The loop body of crypto_scalarmult between its swaps.
  method Step(a: array<i64>, b: array<i64>, c: array<i64>, d: array<i64>, e: array<i64>, f: array<i64>,
              x: array<i64>, constant: array<i64>)
    requires a != b && a != c && a != d && a != e && a != f && b != c && b != d && b != e && b != f
    requires c != d && c != e && c != f && d != e && d != f && e != f
    requires x !in {a, b, c, d, e, f} && constant !in {a, b, c, d, e, f}
    requires e.Length == f.Length == 16
    requires Ready(a) && Ready(b) && Ready(c) && Ready(d) && Ready(x) && Ready(constant)
    requires IsCurveConstant(constant[..16])
    modifies a, b, c, d, e, f
    ensures Ready(a) && Ready(b) && Ready(c) && Ready(d)
    ensures Points(Fe(Limbs(a, 0)), Fe(Limbs(c, 0)), Fe(Limbs(b, 0)), Fe(Limbs(d, 0)))
         == Formulas(Fe(Limbs(x, 0)),
              old(Points(Fe(Limbs(a, 0)), Fe(Limbs(c, 0)), Fe(Limbs(b, 0)), Fe(Limbs(d, 0)))))
  {
    ghost var p, x1 := Points(Fe(Limbs(a, 0)), Fe(Limbs(c, 0)), Fe(Limbs(b, 0)), Fe(Limbs(d, 0))), Fe(Limbs(x, 0));
    ghost var A, B, C, D := FAdd(p.x2, p.z2), FSub(p.x2, p.z2), FAdd(p.x3, p.z3), FSub(p.x3, p.z3);
    ghost var AA, BB, DA, CB := FMul(A, A), FMul(B, B), FMul(D, A), FMul(C, B);
    Field25519.A(e, a, c);
    Z(a, a, c);
    Field25519.A(c, b, d);
    Z(b, b, d);
    S(d, 0, e, 0);
    S(f, 0, a, 0);
    M(a, 0, c, 0, a, 0);
    M(c, 0, b, 0, e, 0);
    Field25519.A(e, a, c);
    Z(a, a, c);
    S(b, 0, a, 0);
    Z(c, d, f);
    M(a, 0, c, 0, constant, 0);
    Field25519.A(a, a, d);
    M(c, 0, c, 0, a, 0);
    M(a, 0, d, 0, f, 0);
    M(d, 0, b, 0, x, 0);
    S(b, 0, e, 0);
    CurveConstant(Limbs(constant, 0));
    SquareOfDifference(CB, DA);
    FMulCommutes(FSub(AA, BB), 121665);
    FMulCommutes(FMul(FSub(DA, CB), FSub(DA, CB)), x1);
  }

  ghost function PointsOf(a: array<i64>, b: array<i64>, c: array<i64>, d: array<i64>): Points
    requires a.Length >= 16 && b.Length >= 16 && c.Length >= 16 && d.Length >= 16
    reads a, b, c, d
  {
    Points(Fe(Limbs(a, 0)), Fe(Limbs(c, 0)), Fe(Limbs(b, 0)), Fe(Limbs(d, 0)))
  }

  // sel25519 on both coordinates.
  method SwapPoints(a: array<i64>, b: array<i64>, c: array<i64>, d: array<i64>, r: int)
    requires a != b && a != c && a != d && b != c && b != d && c != d && 0 <= r <= 1
    requires a.Length == b.Length == c.Length == d.Length == 16
    requires Ready(a) && Ready(b) && Ready(c) && Ready(d)
    modifies a, b, c, d
    ensures Ready(a) && Ready(b) && Ready(c) && Ready(d)
    ensures PointsOf(a, b, c, d) == Cswap(r, old(PointsOf(a, b, c, d)))
  {
    assert a[..] == Limbs(a, 0) && b[..] == Limbs(b, 0) && c[..] == Limbs(c, 0) && d[..] == Limbs(d, 0);
    Sel25519(a, b, r);
    Sel25519(c, d, r);
    assert a[..] == Limbs(a, 0) && b[..] == Limbs(b, 0) && c[..] == Limbs(c, 0) && d[..] == Limbs(d, 0);
  }

  lemma BitOfScalar(z: seq<int>, t: nat)
    requires AreDigits(z, 256) && t < 8 * |z|
    ensures z[t / 8] / Pow2(t % 8) % 2 == Bit(Value(z, 256), t)
  {
    BitOfByte(z, t / 8, t % 8);
  }

  method LadderLoop(z: array<u8>, x: array<i64>, constant: array<i64>,
                    a: array<i64>, b: array<i64>, c: array<i64>, d: array<i64>)
    requires z.Length == 32 && constant.Length == 16 && IsCurveConstant(constant[..16])
    requires a != b && a != c && a != d && b != c && b != d && c != d
    requires x !in {a, b, c, d} && constant !in {a, b, c, d}
    requires a.Length == b.Length == c.Length == d.Length == 16
    requires Ready(a) && Ready(b) && Ready(c) && Ready(d) && Ready(x) && Ready(constant)
    requires PointsOf(a, b, c, d) == Points(1, 0, Fe(Limbs(x, 0)), 1)
    modifies a, b, c, d
    ensures Ready(a) && Ready(b) && Ready(c) && Ready(d)
    ensures var l := Rounds(Value(z[..], 256), Fe(Limbs(x, 0)), 0);
            PointsOf(a, b, c, d) == Cswap(l.swap, l.p)
  {
    var e, f := new i64[16], new i64[16];
    ghost var k, x1 := Value(z[..], 256), Fe(Limbs(x, 0));
    for i := 255 downto 0
      invariant Ready(a) && Ready(b) && Ready(c) && Ready(d)
      invariant var l := Rounds(k, x1, i);
                0 <= l.swap <= 1 && PointsOf(a, b, c, d) == Cswap(l.swap, l.p)
    {
      ghost var p := PointsOf(a, b, c, d);
      var r := z[i / 8] / Pow2(i % 8) % 2;
      BitOfScalar(z[..], i);
      SwapPoints(a, b, c, d, r);
      Step(a, b, c, d, e, f, x, constant);
      SwapPoints(a, b, c, d, r);
      UnconditionalSwaps(k, x1, i, p);
    }
  }

  lemma SmallConstant(s: seq<int>, v: int)
    requires |s| == 16 && 0 <= v < 65536 && s[0] == v && forall i :: 1 <= i < 16 ==> s[i] == 0
    ensures Fe(s) == v
  {
    SumSplit(s, 65536, 1, 15);
    SumZero(s[1..], 65536, 15);
    assert Pow(65536, 0) == 1;
    assert Sum(s, 65536, 1) == Sum(s, 65536, 0) + s[0] * Pow(65536, 0);
  }

  method CopyScalar(z: array<u8>, n: array<u8>, nAt: nat)
    requires z != n && z.Length == 32 && nAt + 32 <= n.Length
    modifies z
    ensures forall k :: 0 <= k < 31 ==> z[k] == Slice(n, nAt, 32)[k]
  {
    for i := 0 to 31
      invariant forall k :: 0 <= k < i ==> z[k] == n[nAt + k]
    {
      z[i] := n[nAt + i];
    }
  }

  method ClampScalar(z: array<u8>, n: array<u8>, nAt: nat)
    requires z != n && z.Length == 32 && nAt + 32 <= n.Length
    modifies z
    ensures Value(z[..], 256) == DecodeScalar(Slice(n, nAt, 32))
  {
    ghost var s := Slice(n, nAt, 32);
    CopyScalar(z, n, nAt);
    assert n[nAt + 31] == s[31];
    Pow2Values();
    OrRange(n[nAt + 31] % 128, 64, 8);
    z[31] := Or(n[nAt + 31] % 128, 64);
    z[0] := z[0] - z[0] % 8;
    ClampedValue(z[..], s);
  }

  lemma ClampedValue(z: seq<int>, s: seq<int>)
    requires |z| == |s| == 32 && AreDigits(s, 256) && forall k :: 0 < k < 31 ==> z[k] == s[k]
    requires z[0] == s[0] - s[0] % 8 && z[31] == Or(s[31] % 128, 64)
    ensures Value(z, 256) == DecodeScalar(s)
  {
    assert z == [s[0] - s[0] % 8] + s[1..31] + [Or(s[31] % 128, 64)];
  }

  method StartLadder(x: array<i64>, a: array<i64>, b: array<i64>, c: array<i64>, d: array<i64>)
    requires a != b && a != c && a != d && b != c && b != d && c != d && x !in {a, b, c, d}
    requires a.Length == b.Length == c.Length == d.Length == 16 && x.Length >= 16
    requires Normal(x[..16])
    modifies a, b, c, d
    ensures Ready(a) && Ready(b) && Ready(c) && Ready(d)
    ensures PointsOf(a, b, c, d) == Points(1, 0, Fe(Limbs(x, 0)), 1)
  {
    ghost var u := Limbs(x, 0);
    for i := 0 to 16
      invariant forall k :: 0 <= k < i ==> b[k] == u[k] && a[k] == c[k] == d[k] == 0
    {
      assert x[i] == u[i];
      b[i] := x[i];
      c[i] := 0;
      a[i] := c[i];
      d[i] := a[i];
    }
    d[0] := 1;
    a[0] := d[0];
    SmallConstant(Limbs(a, 0), 1);
    SmallConstant(Limbs(c, 0), 0);
    SmallConstant(Limbs(d, 0), 1);
    assert Limbs(b, 0) == u;
  }

  // x[16..80) receives the four coordinates.
  method CopyPoints(x: array<i64>, a: array<i64>, b: array<i64>, c: array<i64>, d: array<i64>)
    requires x !in {a, b, c, d} && x.Length == 80
    requires a.Length == b.Length == c.Length == d.Length == 16
    modifies x
    ensures Limbs(x, 16) == Limbs(a, 0) && Limbs(x, 32) == Limbs(c, 0)
  {
    for i := 0 to 16
      invariant forall k :: 16 <= k < 16 + i ==> x[k] == a[k - 16]
      invariant forall k :: 32 <= k < 32 + i ==> x[k] == c[k - 32]
    {
      x[i + 16] := a[i];
      x[i + 32] := c[i];
      x[i + 48] := b[i];
      x[i + 64] := d[i];
    }
    assert Limbs(x, 16) == Limbs(a, 0);
    assert Limbs(x, 32) == Limbs(c, 0);
  }

  method CurveConstantLimbs() returns (constant: array<i64>)
    ensures fresh(constant) && constant.Length == 16
    ensures IsCurveConstant(constant[..16]) && Ready(constant)
  {
    constant := new i64[16](_ => 0);
    constant[0] := 0xDB41;
    constant[1] := 1;
  }

  // x2 / z2, in place in x, and its bytes.
  method Quotient(q: array<u8>, qAt: nat, x: array<i64>)
    requires qAt + 32 <= q.Length && x.Length == 80
    requires Within(Limbs(x, 16), 0x200_0000) && Within(Limbs(x, 32), 0x200_0000)
    modifies q, x
    ensures Slice(q, qAt, 32)
         == ToBytes(FMul(old(Fe(Limbs(x, 16))), FPow(old(Fe(Limbs(x, 32))), P - 2)), 32)
    ensures OnlyBytes(q, qAt, 32)
  {
    ghost var s := Limbs(x, 16);
    Inv25519(x, 32, x, 32);
    assert Limbs(x, 16) == s;
    M(x, 16, x, 16, x, 32);
    Pack25519.Pack25519(q, qAt, x, 16);
  }

  method Climb(z: array<u8>, x: array<i64>)
    requires z.Length == 32 && x.Length == 80 && Normal(x[..16])
    modifies x
    ensures Within(Limbs(x, 16), 0x200_0000) && Within(Limbs(x, 32), 0x200_0000)
    ensures var l := Rounds(Value(z[..], 256), old(Fe(Limbs(x, 0))), 0);
            var p := Cswap(l.swap, l.p);
            Fe(Limbs(x, 16)) == p.x2 && Fe(Limbs(x, 32)) == p.z2
  {
    var a, b, c, d := new i64[16], new i64[16], new i64[16], new i64[16];
    var constant := CurveConstantLimbs();
    StartLadder(x, a, b, c, d);
    LadderLoop(z, x, constant, a, b, c, d);
    CopyPoints(x, a, b, c, d);
  }

  // All 255 rounds on limbs compute the function of RFC 7748, and no 64-bit operation overflows.
  method CryptoScalarmult(q: array<u8>, qAt: nat, n: array<u8>, nAt: nat, p: array<u8>, pAt: nat)
    requires qAt + 32 <= q.Length && nAt + 32 <= n.Length && pAt + 32 <= p.Length
    modifies q
    ensures Slice(q, qAt, 32) == Function(old(Slice(n, nAt, 32)), old(Slice(p, pAt, 32)))
    ensures OnlyBytes(q, qAt, 32)
  {
    ghost var k, u := Slice(n, nAt, 32), Slice(p, pAt, 32);
    var z, x := new u8[32], new i64[80];
    ClampScalar(z, n, nAt);
    Unpack25519(x, 0, p, pAt);
    assert Limbs(x, 0) == x[..16];
    ClimbAndDivide(z, x, q, qAt);
  }

  method ClimbAndDivide(z: array<u8>, x: array<i64>, q: array<u8>, qAt: nat)
    requires z.Length == 32 && x.Length == 80 && Normal(x[..16]) && qAt + 32 <= q.Length
    modifies x, q
    ensures var l := Rounds(old(Value(z[..], 256)), old(Fe(Limbs(x, 0))), 0);
            var p := Cswap(l.swap, l.p);
            Slice(q, qAt, 32) == ToBytes(FMul(p.x2, FPow(p.z2, P - 2)), 32)
    ensures OnlyBytes(q, qAt, 32)
  {
    Climb(z, x);
    Quotient(q, qAt, x);
  }
}
