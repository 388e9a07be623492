/** What the ladder of X25519 computes: its formulas are those of the curve y^2 = x^3 + 486662 x^2 + x
    over the integers modulo 2^255 - 19, and its rounds climb from m to 2m and 2m + 1. */
module Curve25519 {
  import opened Bits
  import opened Digits
  import opened Field25519
  import opened X25519

  // ---- what the formulas compute ----

  /** A round over the integers modulo m: x2 : z2 is doubled on the curve y^2 = x^3 + a x^2 + x, and x3 : z3 is
      added to it, where x1 is the coordinate of their difference. */
  function Round(x1: int, p: Points, a: int, m: int): Points
    requires m > 0
  {
    var x, z, s, d := p.x2, p.z2, p.x2 * p.x3 - p.z2 * p.z3, p.x3 * p.z2 - p.x2 * p.z3;
    Points(
      (x * x - z * z) * (x * x - z * z) % m,
      4 * (x * z) * (x * x + a * (x * z) + z * z) % m,
      4 * (s * s) % m,
      x1 * (4 * (d * d)) % m)
  }

  // The formulas with the coefficient c in place of 121665 and the modulus m.
  function FormulasOver(x1: int, p: Points, c: int, m: int): Points
    requires m > 0
  {
    var a, b := (p.x2 + p.z2) % m, (p.x2 - p.z2) % m;
    var aa, bb := a * a % m, b * b % m;
    var e := (aa - bb) % m;
    var da, cb := (p.x3 - p.z3) % m * a % m, (p.x3 + p.z3) % m * b % m;
    var s, t := (da + cb) % m, (da - cb) % m;
    Points(aa * bb % m, e * ((aa + c * e % m) % m) % m, s * s % m, x1 * (t * t % m) % m)
  }

  lemma ModSum(u: int, v: int, p: int)
    requires p > 0
    ensures (u % p + v % p) % p == (u + v) % p && (u % p - v % p) % p == (u - v) % p
  {
    ModTerm(u, u % p, u / p, v, p);
    ModTerm(u, u % p, u / p, -v, p);
    ModTerm(v, v % p, v / p, u % p, p);
    MulNegates(p, v / p);
    ModTerm(-v, -(v % p), -(v / p), u % p, p);
  }

  lemma ModTerm(u: int, x: int, a: int, v: int, p: int)
    requires p > 0 && u == p * a + x
    ensures (u + v) % p == (x + v) % p
  {
    ModShift(x + v, p, a);
  }

  lemma MulNegates(p: int, a: int)
    ensures p * -a == -(p * a)
  {
  }

  lemma Squares(x: int, z: int)
    ensures (x + z) * (x + z) == x * x + 2 * (x * z) + z * z
    ensures (x - z) * (x - z) == x * x - 2 * (x * z) + z * z
  {
  }

  lemma SquareProduct(x: int, z: int)
    ensures ((x + z) * (x + z)) * ((x - z) * (x - z)) == (x * x - z * z) * (x * x - z * z)
  {
    var a, b := x + z, x - z;
    assert a * b == x * x - z * z;
    assert (a * a) * (b * b) == (a * b) * (a * b);
  }

  lemma Doubles(x1: int, p: Points, c: int, m: int)
    requires m > 0
    ensures var q, r := FormulasOver(x1, p, c, m), Round(x1, p, 4 * c + 2, m); q.x2 == r.x2 && q.z2 == r.z2
  {
    var x, z := p.x2, p.z2;
    var a, b := (x + z) * (x + z), (x - z) * (x - z);
    ModMul(x + z, x + z, m);
    ModMul(x - z, x - z, m);
    ModMul(a, b, m);
    ModSum(a, b, m);
    SquareProduct(x, z);
    DoubledTerms(x, z, c);
    var e := 4 * (x * z);
    ScaledBy(c, e, m);
    ModSum(a, c * e, m);
    ModMul(e, a + c * e, m);
  }

  lemma DoubledTerms(x: int, z: int, c: int)
    ensures var a, e := (x + z) * (x + z), 4 * (x * z);
            a - (x - z) * (x - z) == e && a + c * e == x * x + (4 * c + 2) * (x * z) + z * z
  {
    Squares(x, z);
  }

  lemma ScaledBy(c: int, u: int, m: int)
    requires m > 0
    ensures c * (u % m) % m == c * u % m
  {
    ModFactor(u, u % m, u / m, c, m);
  }

  lemma CrossProducts(x: int, z: int, x': int, z': int)
    ensures (x' - z') * (x + z) + (x' + z') * (x - z) == 2 * (x * x' - z * z')
    ensures (x' - z') * (x + z) - (x' + z') * (x - z) == 2 * (x' * z - x * z')
  {
  }

  lemma Doubled(u: int)
    ensures (2 * u) * (2 * u) == 4 * (u * u)
  {
  }

  lemma Adds(x1: int, p: Points, c: int, m: int)
    requires m > 0
    ensures var q, r := FormulasOver(x1, p, c, m), Round(x1, p, 4 * c + 2, m); q.x3 == r.x3 && q.z3 == r.z3
  {
    var x, z, x', z' := p.x2, p.z2, p.x3, p.z3;
    var da, cb := (x' - z') * (x + z), (x' + z') * (x - z);
    ModMul(x' - z', x + z, m);
    ModMul(x' + z', x - z, m);
    ModSum(da, cb, m);
    ModMul(da + cb, da + cb, m);
    ModMul(da - cb, da - cb, m);
    CrossProducts(x, z, x', z');
    Doubled(x * x' - z * z');
    Doubled(x' * z - x * z');
    ScaledBy(x1, (da - cb) * (da - cb), m);
  }

  /** One round of the ladder, for all inputs: x2 becomes (x^2 - z^2)^2, z2 becomes 4xz(x^2 + 486662xz + z^2), x3
      becomes 4(x2 x3 - z2 z3)^2 and z3 becomes 4 x1 (x3 z2 - x2 z3)^2, modulo 2^255 - 19. */
  lemma FormulasRound(x1: int, p: Points)
    ensures Formulas(x1, p) == Round(x1, p, 486662, P)
  {
    Doubles(x1, p, 121665, P);
    Adds(x1, p, 121665, P);
  }

  lemma PrimeIs()
    ensures P == Pow2(255) - 19
  {
    Pow2Values();
    Pow2Add(64, 64);
    Pow2Add(64, 63);
    Pow2Add(128, 127);
  }

  // ---- congruence ----

  predicate Same(u: int, v: int, p: int)
    requires p > 0
  {
    u % p == v % p
  }

  lemma SameProduct(a: int, b: int, c: int, d: int, p: int)
    requires p > 0 && Same(a, b, p) && Same(c, d, p)
    ensures Same(a * c, b * d, p)
  {
    ModMul(a, c, p);
    ModMul(b, d, p);
  }

  lemma SameSum(a: int, b: int, c: int, d: int, p: int)
    requires p > 0 && Same(a, b, p) && Same(c, d, p)
    ensures Same(a + c, b + d, p) && Same(a - c, b - d, p)
  {
    ModSum(a, c, p);
    ModSum(b, d, p);
  }

  lemma SameSquare(a: int, b: int, p: int)
    requires p > 0 && Same(a, b, p)
    ensures Same(a * a, b * b, p)
  {
    SameProduct(a, b, a, b, p);
  }

  lemma SameScaled(c: int, a: int, b: int, p: int)
    requires p > 0 && Same(a, b, p)
    ensures Same(c * a, c * b, p)
  {
    SameProduct(c, c, a, b, p);
  }

  // ---- the curve ----

  function Cubic(x: int, a: int): int {
    x * (x * x + a * x + 1)
  }

  predicate OnCurve(x: int, y: int, a: int, p: int)
    requires p > 0
  {
    Same(y * y, Cubic(x, a), p)
  }

  // The line of slope s through (x, y) and (x', y') meets the curve again over r.
  predicate Chord(x: int, y: int, x': int, y': int, s: int, r: int, a: int, p: int)
    requires p > 0
  {
    Same((x - x') * s, y - y', p) && Same(r, s * s - a - x - x', p)
  }

  // The tangent of slope s at (x, y) meets the curve again over r.
  predicate Tangent(x: int, y: int, s: int, r: int, a: int, p: int)
    requires p > 0
  {
    Same(2 * y * s, 3 * (x * x) + 2 * (a * x) + 1, p) && Same(r, s * s - a - 2 * x, p)
  }

  lemma TangentIdentity(x: int, a: int)
    ensures var n := 3 * (x * x) + 2 * (a * x) + 1;
            n * n - (a + 2 * x) * (4 * Cubic(x, a)) == (x * x - 1) * (x * x - 1)
  {
  }

  lemma TangentDoubles(x: int, y: int, s: int, r: int, a: int, p: int)
    requires p > 0 && OnCurve(x, y, a, p) && Tangent(x, y, s, r, a, p)
    ensures Same(r * (4 * Cubic(x, a)), (x * x - 1) * (x * x - 1), p)
  {
    var f, n, e := 4 * Cubic(x, a), 3 * (x * x) + 2 * (a * x) + 1, a + 2 * x;
    SameScaled(4, y * y, Cubic(x, a), p);
    SameProduct(4 * (y * y), f, s * s, s * s, p);
    SameSquare(2 * y * s, n, p);
    SquareOfProduct(y, s);
    SameSum(s * s * f, n * n, e * f, e * f, p);
    SameProduct(r, s * s - e, f, f, p);
    Subtracted(s * s, e, f);
    TangentIdentity(x, a);
  }

  lemma SquareOfProduct(y: int, s: int)
    ensures (2 * y * s) * (2 * y * s) == 4 * (y * y) * (s * s)
  {
  }

  lemma Subtracted(u: int, e: int, f: int)
    ensures (u - e) * f == u * f - e * f
  {
  }

  lemma CubicDifference(x: int, x': int, a: int)
    ensures Cubic(x, a) - Cubic(x', a) == (x - x') * (x * x + x * x' + x' * x' + a * (x + x') + 1)
  {
    var d := x - x';
    assert d * (x * x + x * x' + x' * x') == x * (x * x) - x' * (x' * x');
    assert d * (a * (x + x')) == a * (x * x) - a * (x' * x');
    CubicTerms(x, a);
    CubicTerms(x', a);
    MulSum(d, x * x + x * x' + x' * x', a * (x + x'));
    MulSum(d, x * x + x * x' + x' * x' + a * (x + x'), 1);
  }

  lemma CubicTerms(x: int, a: int)
    ensures Cubic(x, a) == x * (x * x) + a * (x * x) + x
  {
  }

  lemma CubicSum(x: int, x': int, a: int)
    ensures var u, v := x + x', x * x';
            Cubic(x, a) + Cubic(x', a) == u * (u * u - 3 * v) + a * (u * u - 2 * v) + u
  {
  }

  lemma SymmetricSum(u: int, v: int, a: int)
    ensures u * (u * u - 3 * v) + a * (u * u - 2 * v) + u == (a + u) * (u * u - 2 * v) - u * (v - 1)
    ensures u * u - v + a * u + 1 == (a + u) * u - (v - 1)
  {
  }

  lemma CompletedSquare(e: int, u: int, v: int, c: int)
    requires c == v - 1
    ensures var g := e * u - c;
            g * g - 2 * e * (e * (u * u - 2 * v) - u * c) + (e * e) * (u * u - 4 * v) == c * c
  {
    var m, n := e * u, e * e;
    assert (m - c) * (m - c) == m * m - 2 * (m * c) + c * c;
    assert m * m == n * (u * u);
    assert 2 * e * (e * (u * u - 2 * v) - u * c) == 2 * (n * (u * u)) - 4 * (n * v) - 2 * (m * c) by {
      assert e * (e * (u * u - 2 * v)) == n * (u * u) - 2 * (n * v);
      assert e * (u * c) == m * c;
    }
  }

  lemma SymmetricIdentity(u: int, v: int, a: int)
    ensures var e, g := a + u, u * u - v + a * u + 1;
            g * g - 2 * e * (u * (u * u - 3 * v) + a * (u * u - 2 * v) + u) + (e * e) * (u * u - 4 * v)
            == (v - 1) * (v - 1)
  {
    SymmetricSum(u, v, a);
    CompletedSquare(a + u, u, v, v - 1);
  }

  // The product of the two coordinates over which the chords through (x, y) and (x', y') and through
  // (x, y) and (x', -y') end, times the square of the distance.
  lemma ChordIdentity(x: int, x': int, a: int, e: int, g: int)
    requires e == a + x + x' && g == x * x + x * x' + x' * x' + a * (x + x') + 1
    ensures g * g - 2 * e * (Cubic(x, a) + Cubic(x', a)) + (e * e) * ((x - x') * (x - x'))
         == (x * x' - 1) * (x * x' - 1)
  {
    var u, v := x + x', x * x';
    CubicSum(x, x', a);
    SymmetricIdentity(u, v, a);
    assert u * u - v == x * x + x * x' + x' * x';
    assert (x - x') * (x - x') == u * u - 4 * v;
  }

  lemma ChordProduct(d: int, s: int, t: int, e: int)
    ensures (d * d) * ((s * s - e) * (t * t - e))
         == (d * (s * t)) * (d * (s * t)) - e * ((d * s) * (d * s) + (d * t) * (d * t)) + (e * e) * (d * d)
  {
    Expand(d * d, s * s, t * t, e);
    ProductSquared(d, s);
    ProductSquared(d, t);
    ProductSquared(d, s * t);
    ProductSquared(s, t);
  }

  lemma ProductSquared(d: int, s: int)
    ensures (d * s) * (d * s) == (d * d) * (s * s)
  {
  }

  lemma Expand(c: int, m: int, n: int, e: int)
    ensures c * ((m - e) * (n - e)) == c * (m * n) - e * (c * m + c * n) + (e * e) * c
  {
    assert (m - e) * (n - e) == m * n - e * (m + n) + e * e;
    assert c * (e * (m + n)) == e * (c * m + c * n);
  }

  lemma Cancel(d: int, i: int, u: int, v: int, p: int)
    requires p > 0 && Same(d * i, 1, p) && Same(d * u, d * v, p)
    ensures Same(u, v, p)
  {
    SameScaled(i, d * u, d * v, p);
    SameProduct(d * i, 1, u, u, p);
    SameProduct(d * i, 1, v, v, p);
    assert i * (d * u) == d * i * u && i * (d * v) == d * i * v;
  }

  // With the slopes s and t of the two chords, d s t is a polynomial in the coordinates.
  lemma SlopeProduct(x: int, y: int, x': int, y': int, s: int, t: int, i: int, a: int, p: int)
    requires p > 0 && OnCurve(x, y, a, p) && OnCurve(x', y', a, p) && Same((x - x') * i, 1, p)
    requires Same((x - x') * s, y - y', p) && Same((x - x') * t, y + y', p)
    ensures Same((x - x') * (s * t), x * x + x * x' + x' * x' + a * (x + x') + 1, p)
    ensures Same(((x - x') * s) * ((x - x') * s) + ((x - x') * t) * ((x - x') * t),
                 2 * (Cubic(x, a) + Cubic(x', a)), p)
  {
    var d, f, f' := x - x', Cubic(x, a), Cubic(x', a);
    SameProduct(d * s, y - y', d * t, y + y', p);
    SameSum(y * y, f, y' * y', f', p);
    CubicDifference(x, x', a);
    assert (y - y') * (y + y') == y * y - y' * y';
    assert (d * s) * (d * t) == d * (d * (s * t));
    Cancel(d, i, d * (s * t), x * x + x * x' + x' * x' + a * (x + x') + 1, p);
    SameSquare(d * s, y - y', p);
    SameSquare(d * t, y + y', p);
    SameSum((d * s) * (d * s), (y - y') * (y - y'), (d * t) * (d * t), (y + y') * (y + y'), p);
    assert (y - y') * (y - y') + (y + y') * (y + y') == 2 * (y * y + y' * y');
    SameScaled(2, y * y + y' * y', f + f', p);
  }

  lemma ChordAdds(x: int, y: int, x': int, y': int, s: int, r: int, t: int, q: int, i: int, a: int, p: int)
    requires p > 0 && OnCurve(x, y, a, p) && OnCurve(x', y', a, p) && Same((x - x') * i, 1, p)
    requires Chord(x, y, x', y', s, r, a, p) && Chord(x, y, x', -y', t, q, a, p)
    ensures Same(((x - x') * (x - x')) * (r * q), (x * x' - 1) * (x * x' - 1), p)
  {
    var d, e, g := x - x', a + x + x', x * x + x * x' + x' * x' + a * (x + x') + 1;
    var f := Cubic(x, a) + Cubic(x', a);
    SlopeProduct(x, y, x', y', s, t, i, a, p);
    SameProduct(r, s * s - e, q, t * t - e, p);
    SameScaled(d * d, r * q, (s * s - e) * (t * t - e), p);
    ChordProduct(d, s, t, e);
    SameSquare(d * (s * t), g, p);
    ChordIdentity(x, x', a, e, g);
    Assembled((d * (s * t)) * (d * (s * t)), g * g, e, (d * s) * (d * s) + (d * t) * (d * t), f, (e * e) * (d * d), p);
  }

  lemma Assembled(n: int, g: int, e: int, m: int, f: int, c: int, p: int)
    requires p > 0 && Same(n, g, p) && Same(m, 2 * f, p)
    ensures Same(n - e * m + c, g - 2 * e * f + c, p)
  {
    SameScaled(e, m, 2 * f, p);
    SameSum(n, g, e * m, e * (2 * f), p);
    SameSum(n - e * m, g - e * (2 * f), c, c, p);
    assert e * (2 * f) == 2 * e * f;
  }

  // ---- a round on points of the curve ----

  // The projective coordinates x : z stand for u.
  predicate Stands(x: int, z: int, u: int, p: int)
    requires p > 0
  {
    Same(x, u * z, p)
  }

  lemma ProjectiveSquares(x: int, z: int, u: int, p: int)
    requires p > 0 && Stands(x, z, u, p)
    ensures Same(x * x, (u * u) * (z * z), p) && Same(x * z, u * (z * z), p)
  {
    SameSquare(x, u * z, p);
    ProductSquared(u, z);
    SameProduct(x, u * z, z, z, p);
    assert (u * z) * z == u * (z * z);
  }

  lemma ProjectiveDifference(x: int, z: int, u: int, p: int)
    requires p > 0 && Stands(x, z, u, p)
    ensures Same((x * x - z * z) * (x * x - z * z), ((u * u - 1) * (u * u - 1)) * ((z * z) * (z * z)), p)
  {
    var w := z * z;
    ProjectiveSquares(x, z, u, p);
    SameSum(x * x, (u * u) * w, w, w, p);
    assert (u * u) * w - w == (u * u - 1) * w;
    SameSquare(x * x - w, (u * u - 1) * w, p);
    ProductSquared(u * u - 1, w);
  }

  lemma ProjectiveCubic(x: int, z: int, u: int, a: int, p: int)
    requires p > 0 && Stands(x, z, u, p)
    ensures Same(4 * (x * z) * (x * x + a * (x * z) + z * z), (4 * Cubic(u, a)) * ((z * z) * (z * z)), p)
  {
    var w, m, c := z * z, x * z, u * u + a * u + 1;
    ProjectiveSquares(x, z, u, p);
    SameScaled(a, m, u * w, p);
    SameSum(x * x, (u * u) * w, a * m, a * (u * w), p);
    SameSum(x * x + a * m, (u * u) * w + a * (u * w), w, w, p);
    assert (u * u) * w + a * (u * w) + w == c * w;
    SameScaled(4, m, u * w, p);
    SameProduct(4 * m, 4 * (u * w), x * x + a * m + w, c * w, p);
    FourProduct(u, c, w);
  }

  lemma FourProduct(u: int, c: int, w: int)
    ensures 4 * (u * w) * (c * w) == (4 * (u * c)) * (w * w)
  {
    assert (u * w) * (c * w) == (u * c) * (w * w);
  }

  lemma Residue(u: int, p: int)
    requires p > 0
    ensures Same(u % p, u, p)
  {
    ModShift(u % p, p, u / p);
  }

  lemma DoubledRatio(x: int, z: int, u: int, r: int, v: int, s: int, a: int, p: int)
    requires p > 0 && Stands(x, z, u, p) && OnCurve(u, v, a, p) && Tangent(u, v, s, r, a, p)
    ensures Stands((x * x - z * z) * (x * x - z * z) % p, 4 * (x * z) * (x * x + a * (x * z) + z * z) % p, r, p)
  {
    var x', z' := (x * x - z * z) * (x * x - z * z), 4 * (x * z) * (x * x + a * (x * z) + z * z);
    ProjectiveDifference(x, z, u, p);
    ProjectiveCubic(x, z, u, a, p);
    TangentDoubles(u, v, s, r, a, p);
    Residue(x', p);
    Residue(z', p);
    Ratio(x' % p, z' % p, (u * u - 1) * (u * u - 1), 4 * Cubic(u, a), (z * z) * (z * z), r, p);
  }

  /** If x2 : z2 stands for a point of the curve, a round makes it stand for the double, the point where
      the tangent leads. */
  lemma RoundDoubles(x1: int, p: Points, x: int, y: int, s: int, r: int, a: int, m: int)
    requires m > 0 && OnCurve(x, y, a, m) && Tangent(x, y, s, r, a, m) && Stands(p.x2, p.z2, x, m)
    ensures var q := Round(x1, p, a, m); Stands(q.x2, q.z2, r, m)
  {
    DoubledRatio(p.x2, p.z2, x, r, y, s, a, m);
  }

  lemma Ratio(x: int, z: int, n: int, d: int, w: int, r: int, p: int)
    requires p > 0 && Same(x, n * w, p) && Same(z, d * w, p) && Same(r * d, n, p)
    ensures Stands(x, z, r, p)
  {
    SameScaled(r, z, d * w, p);
    SameProduct(r * d, n, w, w, p);
    assert r * (d * w) == (r * d) * w;
  }

  lemma ProjectiveCross(x: int, z: int, u: int, x': int, z': int, u': int, p: int)
    requires p > 0 && Stands(x, z, u, p) && Stands(x', z', u', p)
    ensures Same(x * x' - z * z', (u * u' - 1) * (z * z'), p)
    ensures Same(x' * z - x * z', (u' - u) * (z * z'), p)
  {
    var w := z * z';
    SameProduct(x, u * z, x', u' * z', p);
    assert (u * z) * (u' * z') == (u * u') * w;
    SameSum(x * x', (u * u') * w, w, w, p);
    SameProduct(x', u' * z', z, z, p);
    SameProduct(x, u * z, z', z', p);
    assert (u' * z') * z == u' * w && (u * z) * z' == u * w;
    SameSum(x' * z, u' * w, x * z', u * w, p);
  }

  lemma FourSquares(m: int, n: int, w: int, p: int)
    requires p > 0 && Same(m, n * w, p)
    ensures Same(4 * (m * m), (n * n) * (4 * (w * w)), p)
  {
    SameSquare(m, n * w, p);
    ProductSquared(n, w);
    SameScaled(4, m * m, (n * n) * (w * w), p);
    assert 4 * ((n * n) * (w * w)) == (n * n) * (4 * (w * w));
  }

  lemma AddedRatio(x1: int, m: int, d: int, c: int, e: int, w: int, r: int, p: int)
    requires p > 0 && Same(m, c * w, p) && Same(d, -e * w, p) && Same((e * e) * (r * x1), c * c, p)
    ensures Stands(4 * (m * m) % p, x1 * (4 * (d * d)) % p, r, p)
  {
    var f := 4 * (w * w);
    FourSquares(m, c, w, p);
    FourSquares(d, -e, w, p);
    assert -e * -e == e * e;
    SameScaled(x1, 4 * (d * d), (e * e) * f, p);
    Residue(4 * (m * m), p);
    Residue(x1 * (4 * (d * d)), p);
    Regroup(x1, e * e, f, r);
    Ratio(4 * (m * m) % p, x1 * (4 * (d * d)) % p, c * c, x1 * (e * e), f, r, p);
  }

  lemma Regroup(x1: int, e: int, f: int, r: int)
    ensures x1 * (e * f) == (x1 * e) * f && r * (x1 * e) == e * (r * x1)
  {
  }

  // (x, y) and (x', y') are apart, their sum lies over r, and their difference over x1: s and t are the slopes of
  // the chords to the second point and to its opposite, i is the inverse of the distance.
  predicate SumOver(x: int, y: int, x': int, y': int, x1: int, r: int, s: int, t: int, i: int,
                    a: int, m: int)
    requires m > 0
  {
    && Same((x - x') * i, 1, m)
    && Chord(x, y, x', y', s, r, a, m) && Chord(x, y, x', -y', t, x1, a, m)
  }

  /** If the two pairs stand for two points of the curve, apart from each other, and x1 for their
      difference, then after a round the second pair stands for their sum. */
  lemma RoundAdds(x1: int, p: Points, x: int, y: int, x': int, y': int, s: int, r: int, t: int, i: int,
                  a: int, m: int)
    requires m > 0 && OnCurve(x, y, a, m) && OnCurve(x', y', a, m) && SumOver(x, y, x', y', x1, r, s, t, i, a, m)
    requires Stands(p.x2, p.z2, x, m) && Stands(p.x3, p.z3, x', m)
    ensures var q := Round(x1, p, a, m); Stands(q.x3, q.z3, r, m)
  {
    ChordAdds(x, y, x', y', s, r, t, x1, i, a, m);
    ProjectiveCross(p.x2, p.z2, x, p.x3, p.z3, x', m);
    AddedRatio(x1, p.x2 * p.x3 - p.z2 * p.z3, p.x3 * p.z2 - p.x2 * p.z3, x * x' - 1, x - x', p.z2 * p.z3, r, m);
  }

  // ---- the climb ----

  // The coordinates of n and n + 1 lead to those of 2n and 2n + 1, or of 2n + 1 and 2n + 2.
  function Pair(x1: int, n: nat, a: int, m: int): Points
    requires m > 0
  {
    if n == 0 then Points(1, 0, x1, 1)
    else
      var p := Pair(x1, n / 2, a, m);
      if n % 2 == 0 then Round(x1, p, a, m)
      else
        var q := Round(x1, Points(p.x3, p.z3, p.x2, p.z2), a, m);
        Points(q.x3, q.z3, q.x2, q.z2)
  }

  lemma BitStep(k: nat, t: nat)
    ensures k / Pow2(t) == 2 * (k / Pow2(t + 1)) + Bit(k, t)
  {
    DivDiv(k, Pow2(t), 2);
  }

  lemma LeadingBit(k: nat, t: nat)
    requires Pow2(254) <= k && t <= 254
    ensures k / Pow2(t) >= 1
  {
    Pow2Add(t, 254 - t);
    AtLeast(k, Pow2(t), Pow2(254 - t));
  }

  lemma AtLeast(k: int, p: int, q: int)
    requires p > 0 && q > 0 && p * q <= k
    ensures k / p >= 1
  {
    assert p <= p * q;
  }

  lemma NoBit(k: nat, p: int)
    requires k < p
    ensures k / p == 0
  {
  }

  lemma {:induction false} RoundsPair(k: nat, x1: int, t: nat)
    requires Pow2(254) <= k < Pow2(255) && t <= 255
    ensures var l := Rounds(k, x1, t); 0 <= l.swap <= 1 && Cswap(l.swap, l.p) == Pair(x1, k / Pow2(t), 486662, P)
    decreases 255 - t
  {
    if t == 255 {
      NoBit(k, Pow2(255));
    } else {
      var l := Rounds(k, x1, t + 1);
      RoundsPair(k, x1, t + 1);
      BitStep(k, t);
      LeadingBit(k, t);
      UnconditionalSwaps(k, x1, t, Cswap(l.swap, l.p));
      FormulasRound(x1, Cswap(Bit(k, t), Cswap(l.swap, l.p)));
      NextPair(x1, k / Pow2(t), k / Pow2(t + 1), Bit(k, t), 486662, P);
    }
  }

  lemma NextPair(x1: int, n: nat, h: nat, bit: int, a: int, m: int)
    requires m > 0 && n == 2 * h + bit && n >= 1 && 0 <= bit <= 1
    ensures Pair(x1, n, a, m) == Cswap(bit, Round(x1, Cswap(bit, Pair(x1, h, a, m)), a, m))
  {
  }

  // ---- the climb on the curve ----

  // The tangent at (x, y) leads over r.
  ghost predicate Doubling(x: int, y: int, r: int, a: int, m: int)
    requires m > 0
  {
    exists s {:trigger Tangent(x, y, s, r, a, m)} :: Tangent(x, y, s, r, a, m)
  }

  ghost predicate Adding(x: int, y: int, x': int, y': int, x1: int, r: int, a: int, m: int)
    requires m > 0
  {
    exists s, t, i :: SumOver(x, y, x', y', x1, r, s, t, i, a, m)
  }

  // (xs(k), ys(k)) are the multiples 1 .. n of the point (xs(1), ys(1)) by the chords and tangents that a climb
  // takes.
  ghost predicate Multiples(xs: nat -> int, ys: nat -> int, n: nat, a: int, m: int)
    requires m > 0
  {
    && (forall k: nat :: 1 <= k <= n ==> OnCurve(xs(k), ys(k), a, m))
    && (forall k: nat :: 1 <= k && 2 * k <= n ==> DoubledAt(xs, ys, k, a, m))
    && (forall k: nat :: 1 <= k && 2 * k + 1 <= n ==> AddedAt(xs, ys, k, a, m))
  }

  ghost predicate DoubledAt(xs: nat -> int, ys: nat -> int, k: nat, a: int, m: int)
    requires m > 0
  {
    Doubling(xs(k), ys(k), xs(2 * k), a, m)
  }

  ghost predicate AddedAt(xs: nat -> int, ys: nat -> int, k: nat, a: int, m: int)
    requires m > 0
  {
    Adding(xs(k), ys(k), xs(k + 1), ys(k + 1), xs(1), xs(2 * k + 1), a, m)
  }

  lemma MultipleDoubles(xs: nat -> int, ys: nat -> int, n: nat, k: nat, x1: int, p: Points, a: int, m: int)
    requires m > 0 && Multiples(xs, ys, n, a, m) && 1 <= k && 2 * k <= n && Stands(p.x2, p.z2, xs(k), m)
    ensures var q := Round(x1, p, a, m); Stands(q.x2, q.z2, xs(2 * k), m)
  {
    assert DoubledAt(xs, ys, k, a, m);
    var s :| Tangent(xs(k), ys(k), s, xs(2 * k), a, m);
    RoundDoubles(x1, p, xs(k), ys(k), s, xs(2 * k), a, m);
  }

  lemma MultipleAdds(xs: nat -> int, ys: nat -> int, n: nat, k: nat, p: Points, a: int, m: int)
    requires m > 0 && Multiples(xs, ys, n, a, m) && 1 <= k && 2 * k + 1 <= n
    requires Stands(p.x2, p.z2, xs(k), m) && Stands(p.x3, p.z3, xs(k + 1), m)
    ensures var q := Round(xs(1), p, a, m); Stands(q.x3, q.z3, xs(2 * k + 1), m)
  {
    var x, y, x', y', x1, r := xs(k), ys(k), xs(k + 1), ys(k + 1), xs(1), xs(2 * k + 1);
    assert AddedAt(xs, ys, k, a, m);
    var s, t, i :| SumOver(x, y, x', y', x1, r, s, t, i, a, m);
    RoundAdds(x1, p, x, y, x', y', s, r, t, i, a, m);
  }

  lemma AddsEitherWay(x1: int, p: Points, a: int, m: int)
    requires m > 0
    ensures var q, q' := Round(x1, p, a, m), Round(x1, Points(p.x3, p.z3, p.x2, p.z2), a, m);
            q.x3 == q'.x3 && q.z3 == q'.z3
  {
    var d := p.x3 * p.z2 - p.x2 * p.z3;
    assert p.x2 * p.z3 - p.x3 * p.z2 == -d;
    assert -d * -d == d * d;
  }

  lemma OwnRatio(x: int, p: int)
    requires p > 0
    ensures Stands(4 * (x * x) % p, x * (4 * 1) % p, x, p)
  {
    Residue(4 * (x * x), p);
    Residue(4 * x, p);
    SameScaled(x, 4 * x % p, 4 * x, p);
    assert x * (4 * x) == 4 * (x * x);
  }

  lemma FirstPair(xs: nat -> int, ys: nat -> int, n: nat, a: int, m: int)
    requires m > 0 && Multiples(xs, ys, n, a, m) && 2 <= n
    ensures var q := Round(xs(1), Points(xs(1), 1, 1, 0), a, m);
            Stands(q.x3, q.z3, xs(1), m) && Stands(q.x2, q.z2, xs(2), m)
  {
    OwnRatio(xs(1), m);
    MultipleDoubles(xs, ys, n, 1, xs(1), Points(xs(1), 1, 1, 0), a, m);
  }

  // p stands for the k-th multiple and the next one.
  ghost predicate At(xs: nat -> int, k: nat, p: Points, m: int)
    requires m > 0
  {
    Stands(p.x2, p.z2, xs(k), m) && Stands(p.x3, p.z3, xs(k + 1), m)
  }

  lemma NextMultiples(xs: nat -> int, ys: nat -> int, n: nat, k: nat, p: Points, bit: nat, a: int, m: int)
    requires m > 0 && Multiples(xs, ys, n, a, m) && 1 <= k && bit <= 1 && 2 * k + bit < n && At(xs, k, p, m)
    ensures At(xs, 2 * k + bit, Cswap(bit, Round(xs(1), Cswap(bit, p), a, m)), m)
  {
    MultipleAdds(xs, ys, n, k, p, a, m);
    if bit == 0 {
      MultipleDoubles(xs, ys, n, k, xs(1), p, a, m);
    } else {
      AddsEitherWay(xs(1), p, a, m);
      MultipleDoubles(xs, ys, n, k + 1, xs(1), Cswap(1, p), a, m);
    }
  }

  /** The ladder on a point whose multiples are met by chords and tangents, on every curve y^2 = x^3 + a x^2 + x
      and for every modulus: at k it stands for the k-th and the next one. */
  lemma {:induction false} ClimbsMultiples(xs: nat -> int, ys: nat -> int, n: nat, k: nat, a: int, m: int)
    requires m > 0 && Multiples(xs, ys, n, a, m) && 1 <= k < n
    ensures At(xs, k, Pair(xs(1), k, a, m), m)
    decreases k
  {
    NextPair(xs(1), k, k / 2, k % 2, a, m);
    if k == 1 {
      FirstPair(xs, ys, n, a, m);
    } else {
      ClimbsMultiples(xs, ys, n, k / 2, a, m);
      NextMultiples(xs, ys, n, k / 2, Pair(xs(1), k / 2, a, m), k % 2, a, m);
    }
  }

  // ---- the clamped scalar ----

  lemma {:induction false} OrTopBit(x: nat, n: nat)
    requires x < 2 * Pow2(n)
    ensures Or(x, Pow2(n)) == Pow2(n) + x % Pow2(n)
    decreases n
  {
    if n > 0 {
      OrTopBit(x / 2, n - 1);
      ModProduct(x, 2, Pow2(n - 1));
    }
  }

  lemma ValueEnds(low: int, mid: seq<int>, high: int)
    ensures Value([low] + mid + [high], 256) == low + 256 * (Value(mid, 256) + Pow(256, |mid|) * high)
  {
    assert [low] + mid + [high] == [low] + (mid + [high]);
    ValueCons(low, mid + [high], 256);
    ValueSnoc(mid, high, 256);
  }

  lemma KeepBelow(low: int, mid: int, high: int, q: int, r: int, t: int)
    requires 0 <= low < 256 && 0 <= mid < q && high >= 0 && r == high % 64 && t == 64 * (256 * q)
    ensures (low + 256 * (mid + q * high)) % t == low + 256 * (mid + q * r)
  {
    var h := high / 64;
    MulSum(q, 64 * h, r);
    MulGroup(q, 64, h);
    MulBelow(q, 64, r, mid);
    Shifted(low, mid, q, h, q * high, q * r, t);
    ModUnique(low + 256 * (mid + q * high), t, h, low + 256 * (mid + q * r));
  }

  lemma Shifted(low: int, mid: int, q: int, h: int, c: int, d: int, t: int)
    requires c == q * 64 * h + d && t == 64 * (256 * q)
    ensures low + 256 * (mid + c) == t * h + (low + 256 * (mid + d))
  {
    assert q * 64 * h == 64 * (q * h) && 64 * (256 * q) * h == 64 * 256 * (q * h);
  }

  lemma KeepLow(low: int, mid: int)
    ensures (low + 256 * mid) % 8 == low % 8
  {
    ModShift(low, 8, 32 * mid);
  }

  lemma SetBit(low: int, mid: int, q: int, r: int)
    ensures low + 256 * (mid + q * (64 + r)) == 64 * (256 * q) + (low + 256 * (mid + q * r))
  {
  }

  lemma OrSixtyFour(x: nat)
    requires x < 128
    ensures Or(x, 64) == 64 + x % 64
  {
    assert Pow2(6) == 64;
    OrTopBit(x, 6);
  }

  lemma ClampedTop(x: nat)
    ensures Or(x % 128, 64) == 64 + x % 64
  {
    OrSixtyFour(x % 128);
    ModProduct(x, 64, 2);
    ModShift(x % 64, 64, x / 64 % 2);
    ModUnique(x % 64, 64, 0, x % 64);
  }

  lemma ClampedBytes(k: seq<int>)
    requires |k| == 32 && AreDigits(k, 256)
    ensures DecodeScalar(k)
         == k[0] - k[0] % 8 + 256 * (Value(k[1..31], 256) + Pow(256, |k[1..31]|) * (64 + k[31] % 64))
  {
    ClampedTop(k[31]);
    ValueEnds(k[0] - k[0] % 8, k[1..31], 64 + k[31] % 64);
  }

  lemma PlaceOfTop(n: nat)
    ensures Pow2(8 * n + 14) == 64 * (256 * Pow(256, n))
  {
    Pow256(n);
    assert Pow2(14) == 64 * 256;
    Pow2Add(14, 8 * n);
  }

  /** Clamping keeps bits 3 to 253 of the scalar, clears those below and sets bit 254. */
  lemma Clamped(k: seq<int>)
    requires |k| == 32 && AreDigits(k, 256)
    ensures var v := Value(k, 256); DecodeScalar(k) == Pow2(254) + v % Pow2(254) - v % 8
  {
    var mid := k[1..31];
    assert k == [k[0]] + mid + [k[31]];
    ValueEnds(k[0], mid, k[31]);
    ClampedBytes(k);
    PlaceOfTop(|mid|);
    SumBounds(mid, 256, |mid|);
    ClampedParts(k[0], Value(mid, 256), Pow(256, |mid|), k[31], Pow2(254));
  }

  lemma ClampedParts(low: int, mid: int, q: int, high: int, t: int)
    requires 0 <= low < 256 && 0 <= mid < q && high >= 0 && t == 64 * (256 * q)
    ensures var v := low + 256 * (mid + q * high);
            low - low % 8 + 256 * (mid + q * (64 + high % 64)) == t + v % t - v % 8
  {
    KeepBelow(low, mid, high, q, high % 64, t);
    KeepLow(low, mid + q * high);
    SetBit(low, mid, q, high % 64);
  }

  lemma ClampedRange(k: seq<int>)
    requires |k| == 32 && AreDigits(k, 256)
    ensures Pow2(254) <= DecodeScalar(k) < Pow2(255)
  {
    Clamped(k);
    Pow2Add(3, 251);
    EightDivides(Value(k, 256), Pow2(254), Pow2(251));
  }

  lemma EightDivides(v: int, t: int, q: int)
    requires q > 0 && t == 8 * q
    ensures 0 <= v % t - v % 8 < t
  {
    ModProduct(v, 8, q);
  }

  /** The bytes that X25519 gives are those of x / z, where x : z are the coordinates that the climb comes to
      at the clamped scalar. */
  lemma FunctionClimbs(k: seq<int>, u: seq<int>)
    requires |k| == |u| == 32 && AreDigits(k, 256)
    ensures DecodeScalar(k) >= 0
    ensures var p := Pair(DecodeU(u), DecodeScalar(k), 486662, P);
            Function(k, u) == ToBytes(FMul(p.x2, FPow(p.z2, P - 2)), 32)
  {
    var m := DecodeScalar(k);
    ClampedRange(k);
    RoundsPair(m, DecodeU(u), 0);
    assert m / Pow2(0) == m;
  }
}
