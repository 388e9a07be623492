/** Little-endian positional notation in any base, with signed or oversized digits allowed:
    the value of the limb vectors of the bundled NaCl code. */
module Digits {
  import opened Bits

  type u8 = x: int | 0 <= x < 256

  function Pow(b: int, e: nat): (p: int)
    ensures b > 0 ==> p > 0
  {
    if e == 0 then 1 else b * Pow(b, e - 1)
  }

  lemma {:induction false} Pow256(j: nat)
    ensures Pow(256, j) == Pow2(8 * j)
  {
    if j > 0 {
      Pow256(j - 1);
      Pow2Values();
      Pow2Add(8, 8 * (j - 1));
    }
  }

  // The value of the first k digits.
  function Sum(s: seq<int>, b: int, k: nat): int
    requires k <= |s|
  {
    if k == 0 then 0 else Sum(s, b, k - 1) + s[k - 1] * Pow(b, k - 1)
  }

  function Value(s: seq<int>, b: int): int {
    Sum(s, b, |s|)
  }

  // The n low bytes of v, least significant first.
  function ToBytes(v: int, n: nat): (s: seq<int>)
    ensures |s| == n && AreDigits(s, 256)
    decreases n, v
  {
    if n == 0 then [] else [v % 256] + ToBytes(v / 256, n - 1)
  }

  predicate AreDigits(s: seq<int>, b: int) {
    forall i :: 0 <= i < |s| ==> 0 <= s[i] < b
  }

  // Bytes of an array.
  ghost function Slice(x: array<u8>, at: nat, n: nat): (s: seq<int>)
    requires at + n <= x.Length
    reads x
    ensures |s| == n && AreDigits(s, 256)
  {
    x[at..at + n]
  }

  lemma {:induction false} PowAdd(b: int, e: nat, f: nat)
    ensures Pow(b, e + f) == Pow(b, e) * Pow(b, f)
  {
    if e > 0 {
      PowAdd(b, e - 1, f);
      assert Pow(b, e) * Pow(b, f) == b * (Pow(b, e - 1) * Pow(b, f));
    }
  }

  lemma {:induction false} PowMonotone(b: int, e: nat, f: nat)
    requires b > 0 && e <= f
    ensures Pow(b, e) <= Pow(b, f)
    decreases f
  {
    if e < f {
      PowMonotone(b, e, f - 1);
      var p := Pow(b, f - 1);
      assert p <= b * p;
    }
  }

  lemma {:induction false} SumDepends(s: seq<int>, t: seq<int>, b: int, k: nat)
    requires k <= |s| && k <= |t| && s[..k] == t[..k]
    ensures Sum(s, b, k) == Sum(t, b, k)
  {
    if k > 0 {
      assert s[..k - 1] == s[..k][..k - 1] && t[..k - 1] == t[..k][..k - 1];
      assert s[k - 1] == s[..k][k - 1] && t[k - 1] == t[..k][k - 1];
      SumDepends(s, t, b, k - 1);
    }
  }

  // Adding d to digit i adds d * b^i to the value.
  lemma {:induction false} SumAdd(s: seq<int>, b: int, k: nat, i: nat, d: int)
    requires i < k <= |s|
    ensures Sum(s[i := s[i] + d], b, k) == Sum(s, b, k) + d * Pow(b, i)
  {
    if i == k - 1 {
      SumDepends(s[i := s[i] + d], s, b, k - 1);
      DistributeRight(s[i], d, Pow(b, i));
    } else {
      SumAdd(s, b, k - 1, i, d);
    }
  }

  lemma SumAddLow(s: seq<int>, b: int, k: nat, d: int)
    requires 0 < k <= |s|
    ensures Sum(s[0 := s[0] + d], b, k) == Sum(s, b, k) + d
  {
    SumAdd(s, b, k, 0, d);
    assert Pow(b, 0) == 1;
  }

  lemma DistributeRight(x: int, y: int, p: int)
    ensures (x + y) * p == x * p + y * p
  {
  }

  lemma {:induction false} SumSplit(s: seq<int>, b: int, j: nat, k: nat)
    requires j + k <= |s|
    ensures Sum(s, b, j + k) == Sum(s, b, j) + Pow(b, j) * Sum(s[j..], b, k)
  {
    if k > 0 {
      SumSplit(s, b, j, k - 1);
      PowAdd(b, j, k - 1);
      assert s[j..][k - 1] == s[j + k - 1];
      Distribute(Pow(b, j), Sum(s[j..], b, k - 1), s[j + k - 1], Pow(b, k - 1));
    }
  }

  lemma Distribute(p: int, x: int, y: int, q: int)
    ensures p * (x + y * q) == p * x + y * (p * q)
  {
  }

  lemma {:induction false} SumOfSums(s: seq<int>, x: seq<int>, y: seq<int>, c: int, b: int, k: nat)
    requires k <= |s| && k <= |x| && k <= |y|
    requires forall i :: 0 <= i < k ==> s[i] == x[i] + c * y[i]
    ensures Sum(s, b, k) == Sum(x, b, k) + c * Sum(y, b, k)
  {
    if k > 0 {
      SumOfSums(s, x, y, c, b, k - 1);
      Linear(x[k - 1], y[k - 1], c, Pow(b, k - 1), Sum(y, b, k - 1));
    }
  }

  lemma Linear(x: int, y: int, c: int, p: int, z: int)
    ensures (x + c * y) * p + c * z == x * p + c * (z + y * p)
  {
  }

  // The carry into digit k when u enters at the bottom and every digit is reduced below b.
  function CarryIn(s: seq<int>, b: int, u: int, k: nat): int
    requires b > 0 && k <= |s|
  {
    if k == 0 then u else (s[k - 1] + CarryIn(s, b, u, k - 1)) / b
  }

  function Remainders(s: seq<int>, b: int, u: int): (r: seq<int>)
    requires b > 0
    ensures |r| == |s|
  {
    seq(|s|, i requires 0 <= i < |s| => (s[i] + CarryIn(s, b, u, i)) % b)
  }

  // One digit of the reduction, and the carry out of it.
  lemma CarryAt(s: seq<int>, b: int, u: int, k: nat)
    requires b > 0 && k < |s|
    ensures Remainders(s, b, u)[k] == (s[k] + CarryIn(s, b, u, k)) % b
    ensures CarryIn(s, b, u, k + 1) == (s[k] + CarryIn(s, b, u, k)) / b
  {
  }

  lemma {:induction false} RemaindersSum(s: seq<int>, b: int, u: int, k: nat)
    requires b > 0 && k <= |s|
    ensures Sum(Remainders(s, b, u), b, k) == Sum(s, b, k) + u - CarryIn(s, b, u, k) * Pow(b, k)
  {
    if k > 0 {
      RemaindersSum(s, b, u, k - 1);
      CarryStep(Sum(s, b, k - 1) + u, s[k - 1], CarryIn(s, b, u, k - 1), b, Pow(b, k - 1));
    }
  }

  lemma CarryStep(v: int, x: int, c: int, b: int, p: int)
    requires b > 0
    ensures v - c * p + (x + c) % b * p == v + x * p - (x + c) / b * (b * p)
  {
    var q, r := (x + c) / b, (x + c) % b;
    assert x + c == b * q + r;
    assert (b * q + r) * p == q * (b * p) + r * p;
    assert (x + c) * p == x * p + c * p;
  }

  lemma {:induction false} SumZero(s: seq<int>, b: int, k: nat)
    requires k <= |s| && forall i :: 0 <= i < k ==> s[i] == 0
    ensures Sum(s, b, k) == 0
  {
    if k > 0 {
      SumZero(s, b, k - 1);
    }
  }

  lemma {:induction false} SumBounds(s: seq<int>, b: int, k: nat)
    requires b > 0 && k <= |s| && forall i :: 0 <= i < k ==> 0 <= s[i] < b
    ensures 0 <= Sum(s, b, k) < Pow(b, k)
  {
    if k > 0 {
      SumBounds(s, b, k - 1);
      var p := Pow(b, k - 1);
      assert 0 <= s[k - 1] * p <= (b - 1) * p;
      assert (b - 1) * p == b * p - p;
    }
  }

  lemma ValueCons(low: int, t: seq<int>, b: int)
    ensures Value([low] + t, b) == b * Value(t, b) + low
  {
    var s := [low] + t;
    assert s[1..] == t;
    SumSplit(s, b, 1, |t|);
    assert Pow(b, 0) == 1;
    assert Pow(b, 1) == b;
    assert Sum(s, b, 1) == Sum(s, b, 0) + low * Pow(b, 0);
  }

  lemma ValueSnoc(s: seq<int>, last: int, b: int)
    ensures Value(s + [last], b) == Value(s, b) + Pow(b, |s|) * last
  {
    SumDepends(s + [last], s, b, |s|);
  }

  // Bytes are recovered from the value: representations are unique.
  lemma {:induction false} BytesOfValue(s: seq<int>)
    requires AreDigits(s, 256)
    ensures ToBytes(Value(s, 256), |s|) == s
    decreases |s|
  {
    if s != [] {
      var t := s[1..];
      assert s == [s[0]] + t;
      ValueCons(s[0], t, 256);
      BytesOfValue(t);
    }
  }

  lemma {:induction false} ValueOfBytes(v: int, n: nat)
    ensures Value(ToBytes(v, n), 256) == v % Pow(256, n)
    decreases n
  {
    if n > 0 {
      ValueOfBytes(v / 256, n - 1);
      ValueCons(v % 256, ToBytes(v / 256, n - 1), 256);
      ModProduct(v, 256, Pow(256, n - 1));
    }
  }

  lemma ModProduct(v: int, b: int, p: int)
    requires b > 0 && p > 0
    ensures b * p > 0
    ensures v % (b * p) == v % b + b * (v / b % p)
  {
    var q := v / b / p;
    var r := v / b % p;
    assert v / b == p * q + r;
    assert b * (p * q + r) == (b * p) * q + b * r;
    assert b * r <= b * (p - 1) == b * p - b;
    ModUnique(v, b * p, q, v % b + b * r);
  }

  // n bytes only depend on the value modulo 256^n.
  lemma BytesIgnoreMod(v: int, n: nat)
    ensures ToBytes(v % Pow(256, n), n) == ToBytes(v, n)
  {
    ValueOfBytes(v, n);
    BytesOfValue(ToBytes(v, n));
  }

  // (u mod p)(v mod p) and uv agree modulo p.
  lemma ModMul(u: int, v: int, p: int)
    requires p > 0
    ensures (u % p) * (v % p) % p == u * v % p
  {
    ModFactor(u, u % p, u / p, v, p);
    ModFactor(v, v % p, v / p, u % p, p);
  }

  lemma ModFactor(u: int, x: int, a: int, v: int, p: int)
    requires p > 0 && u == p * a + x
    ensures u * v % p == x * v % p && v * u % p == v * x % p
  {
    Spread(p, a, x, v);
    ModShift(x * v, p, a * v);
    ModShift(v * x, p, v * a);
  }

  lemma Spread(p: int, a: int, x: int, v: int)
    ensures (p * a + x) * v == p * (a * v) + x * v
    ensures v * (p * a + x) == p * (v * a) + v * x
  {
  }

  lemma ModShift(x: int, p: int, k: int)
    requires p > 0
    ensures (p * k + x) % p == x % p
  {
    assert p * k + x == p * (k + x / p) + x % p by {
      assert p * (k + x / p) == p * k + p * (x / p);
    }
    ModUnique(p * k + x, p, k + x / p, x % p);
  }

  lemma {:induction false} ToBytesPrefix(v: int, n: nat, k: nat)
    requires k <= n
    ensures ToBytes(v, n)[..k] == ToBytes(v, k)
    decreases k
  {
    if k > 0 {
      ToBytesPrefix(v / 256, n - 1, k - 1);
    }
  }

  lemma FourBytes(s: seq<int>)
    requires |s| == 4
    ensures Value(s, 256) == ((s[3] * 256 + s[2]) * 256 + s[1]) * 256 + s[0]
  {
    ValueCons(s[3], [], 256);
    ValueCons(s[2], [s[3]], 256);
    ValueCons(s[1], [s[2], s[3]], 256);
    ValueCons(s[0], [s[1], s[2], s[3]], 256);
    assert [s[3]] + [] == [s[3]] && [s[2]] + [s[3]] == [s[2], s[3]];
    assert [s[1]] + [s[2], s[3]] == [s[1], s[2], s[3]] && [s[0]] + [s[1], s[2], s[3]] == s;
  }

  lemma SixteenBytes(a: seq<int>, b: seq<int>, c: seq<int>, d: seq<int>)
    requires |a| == |b| == |c| == |d| == 4
    ensures Value(a + b + c + d, 256)
         == Value(a, 256) + 0x1_0000_0000 *
            (Value(b, 256) + 0x1_0000_0000 * (Value(c, 256) + 0x1_0000_0000 * Value(d, 256)))
  {
    Concatenation(c, d);
    Concatenation(b, c + d);
    Concatenation(a, b + (c + d));
    assert a + b + c + d == a + (b + (c + d));
  }

  lemma Concatenation(a: seq<int>, s: seq<int>)
    requires |a| == 4
    ensures Value(a + s, 256) == Value(a, 256) + 0x1_0000_0000 * Value(s, 256)
  {
    SumSplit(a + s, 256, 4, |s|);
    assert (a + s)[4..] == s && (a + s)[..4] == a;
    SumDepends(a + s, a, 256, 4);
    assert Pow(256, 4) == 0x1_0000_0000;
  }
}
