/** Bitwise operations of C integers, written on unbounded two's-complement integers.
    A value of any width is the integer it denotes, so `^`, `&` and `|` of two values of a
    width are the operations below, and truncating to n bits is `% Pow2(n)`. */
module Bits {

  function Pow2(n: nat): (p: int)
    ensures p > 0
  {
    if n == 0 then 1 else 2 * Pow2(n - 1)
  }

  lemma {:induction false} Pow2Add(m: nat, n: nat)
    ensures Pow2(m + n) == Pow2(m) * Pow2(n)
  {
    if m > 0 {
      Pow2Add(m - 1, n);
      assert Pow2(m) * Pow2(n) == 2 * (Pow2(m - 1) * Pow2(n));
    }
  }

  lemma Pow2Double(n: nat, v: int)
    requires Pow2(n) == v
    ensures Pow2(2 * n) == v * v
    ensures Pow2(2 * n + 1) == 2 * (v * v)
  {
    Pow2Add(n, n);
  }

  // The powers of two that occur as bounds in the code.
  lemma Pow2Values()
    ensures Pow2(7) == 0x80 && Pow2(8) == 0x100
    ensures Pow2(31) == 0x8000_0000 && Pow2(32) == 0x1_0000_0000
    ensures Pow2(63) == 0x8000_0000_0000_0000 && Pow2(64) == 0x1_0000_0000_0000_0000
  {
    assert Pow2(3) == 2 * Pow2(2) == 8;
    Pow2Double(3, 8);
    Pow2Double(7, 0x80);
    Pow2Double(15, 0x8000);
    Pow2Double(31, 0x8000_0000);
  }

  function Size(x: int): nat {
    if x < 0 then -x else x
  }

  // x << n and x >> n, one bit at a time.
  function Shl(x: int, n: nat): int {
    if n == 0 then x else 2 * Shl(x, n - 1)
  }

  function Shr(x: int, n: nat): int
    decreases n
  {
    if n == 0 then x else Shr(x / 2, n - 1)
  }

  lemma {:induction false} ShlMultiplies(x: int, n: nat)
    ensures Shl(x, n) == x * Pow2(n)
  {
    if n > 0 {
      ShlMultiplies(x, n - 1);
    }
  }

  lemma {:induction false} ShrDivides(x: int, n: nat)
    ensures Shr(x, n) == x / Pow2(n)
    decreases n
  {
    if n > 0 {
      ShrDivides(x / 2, n - 1);
      var p, h := Pow2(n - 1), x / 2;
      var q, r := h / p, h % p;
      assert h == p * q + r;
      assert x == 2 * p * q + (2 * r + x % 2) by {
        assert 2 * (p * q) == 2 * p * q;
      }
      ModUnique(x, 2 * p, q, 2 * r + x % 2);
    }
  }

  predicate AllSame(x: int) {
    x == 0 || x == -1
  }

  function Xor(x: int, y: int): int
    decreases Size(x) + Size(y)
  {
    if AllSame(x) && AllSame(y) then (if x == y then 0 else -1)
    else 2 * Xor(x / 2, y / 2) + (x + y) % 2
  }

  function And(x: int, y: int): int
    decreases Size(x) + Size(y)
  {
    if AllSame(x) && AllSame(y) then (if x == y then x else 0)
    else 2 * And(x / 2, y / 2) + (x % 2) * (y % 2)
  }

  function Or(x: int, y: int): int
    decreases Size(x) + Size(y)
  {
    if AllSame(x) && AllSame(y) then (if x == y then x else -1)
    else 2 * Or(x / 2, y / 2) + (if x % 2 + y % 2 == 0 then 0 else 1)
  }

  lemma {:induction false} XorCommutes(x: int, y: int)
    ensures Xor(x, y) == Xor(y, x)
    decreases Size(x) + Size(y)
  {
    if AllSame(x) && AllSame(y) {
    } else {
      XorCommutes(x / 2, y / 2);
    }
  }

  lemma {:induction false} XorHalf(x: int, y: int)
    ensures Xor(x, y) / 2 == Xor(x / 2, y / 2)
    ensures Xor(x, y) % 2 == (x + y) % 2
  {
    if AllSame(x) && AllSame(y) {
      assert x / 2 == x && y / 2 == y;
    }
  }

  // Swapping by xor: what sel25519 and the stream cipher rely on.
  lemma {:induction false} XorCancels(x: int, y: int)
    ensures Xor(x, Xor(x, y)) == y
    decreases Size(x) + Size(y)
  {
    if AllSame(x) && AllSame(y) {
    } else {
      var z := Xor(x, y);
      XorHalf(x, y);
      XorHalf(x, z);
      XorCancels(x / 2, y / 2);
      Parity(x, y, z);
      FromHalves(Xor(x, z), y);
    }
  }

  lemma Parity(x: int, y: int, z: int)
    requires z % 2 == (x + y) % 2
    ensures (x + z) % 2 == y % 2
  {
  }

  lemma FromHalves(x: int, y: int)
    requires x / 2 == y / 2 && x % 2 == y % 2
    ensures x == y
  {
    assert x == 2 * (x / 2) + x % 2;
  }

  lemma XorCancelsRight(x: int, y: int)
    ensures Xor(Xor(x, y), y) == x
  {
    XorCommutes(x, y);
    XorCommutes(Xor(x, y), y);
    XorCancels(y, x);
  }

  lemma {:induction false} XorZero(x: int)
    ensures Xor(x, 0) == x && Xor(0, x) == x
    decreases Size(x)
  {
    if AllSame(x) {
    } else {
      XorZero(x / 2);
    }
  }

  lemma XorBits(s: int, t: int)
    requires 0 <= s <= 1 && 0 <= t <= 1
    ensures Xor(s, t) == if s == t then 0 else 1
  {
    if s + t > 0 {
      assert Xor(s / 2, t / 2) == Xor(0, 0) == 0;
    }
  }

  lemma {:induction false} XorIsZero(x: int, y: int)
    ensures Xor(x, y) == 0 <==> x == y
    decreases Size(x) + Size(y)
  {
    if AllSame(x) && AllSame(y) {
    } else {
      XorIsZero(x / 2, y / 2);
    }
  }

  lemma {:induction false} XorRange(x: int, y: int, n: nat)
    requires -Pow2(n) <= x < Pow2(n) && -Pow2(n) <= y < Pow2(n)
    ensures -Pow2(n) <= Xor(x, y) < Pow2(n)
    ensures x >= 0 && y >= 0 ==> Xor(x, y) >= 0
    decreases n
  {
    if n == 0 {
      assert AllSame(x) && AllSame(y);
    } else if AllSame(x) && AllSame(y) {
    } else {
      XorRange(x / 2, y / 2, n - 1);
    }
  }

  lemma {:induction false} OrRange(x: nat, y: nat, n: nat)
    requires x < Pow2(n) && y < Pow2(n)
    ensures 0 <= Or(x, y) < Pow2(n)
    ensures Or(x, y) == 0 <==> x == 0 && y == 0
  {
    if n == 0 {
    } else if AllSame(x) && AllSame(y) {
    } else {
      OrRange(x / 2, y / 2, n - 1);
    }
  }

  // Masks of the constant-time selections.
  lemma {:induction false} AndAllOnes(x: int)
    ensures And(-1, x) == x
    decreases Size(x)
  {
    if AllSame(x) {
    } else {
      AndAllOnes(x / 2);
    }
  }

  lemma {:induction false} AndZero(x: int)
    ensures And(0, x) == 0
    decreases Size(x)
  {
    if AllSame(x) {
    } else {
      AndZero(x / 2);
    }
  }

  lemma {:induction false} AndLowMask(n: nat, x: nat)
    ensures And(Pow2(n) - 1, x) == x % Pow2(n)
  {
    if n == 0 {
      AndZero(x);
    } else if AllSame(Pow2(n) - 1) && AllSame(x) {
    } else {
      var p := Pow2(n - 1);
      AndLowMask(n - 1, x / 2);
      HalfMod(x, p);
      assert (2 * p - 1) / 2 == p - 1 && (2 * p - 1) % 2 == 1;
    }
  }

  lemma HalfMod(x: nat, p: nat)
    requires p > 0
    ensures x % (2 * p) == 2 * (x / 2 % p) + x % 2
  {
    var q := x / 2 / p;
    var r := x / 2 % p;
    assert x / 2 == p * q + r;
    assert x == 2 * p * q + (2 * r + x % 2) by {
      assert 2 * (p * q) == 2 * p * q;
    }
    ModUnique(x, 2 * p, q, 2 * r + x % 2);
  }

  lemma ModUnique(x: int, m: int, q: int, r: int)
    requires m > 0 && 0 <= r < m && x == m * q + r
    ensures x % m == r && x / m == q
  {
    var q' := x / m;
    MulGap(m, q - q');
    assert m * (q - q') == m * q - m * q' == x % m - r;
  }

  lemma MulGap(m: int, d: int)
    requires m > 0
    ensures d >= 1 ==> m * d >= m
    ensures d <= -1 ==> m * d <= -m
  {
  }

  lemma {:induction false} OrZero(x: nat)
    ensures Or(x, 0) == x
  {
    if !AllSame(x) {
      OrZero(x / 2);
    }
  }

  // `|` of numbers without common bits is addition.
  lemma {:induction false} OrDisjoint(d: nat, b: nat, c: nat)
    requires b < Pow2(c)
    ensures Or(d * Pow2(c), b) == d * Pow2(c) + b
    decreases c
  {
    if c == 0 {
      OrZero(d);
    } else {
      var a := d * Pow2(c - 1);
      assert d * Pow2(c) == 2 * a;
      if AllSame(2 * a) && AllSame(b) {
      } else {
        OrDisjoint(d, b / 2, c - 1);
      }
    }
  }

  // Truncation commutes with `^`.
  lemma XorLowHalf(x: nat, y: nat, p: nat)
    requires p > 0 && Xor(x, y) >= 0
    ensures Xor(x, y) % (2 * p) == 2 * (Xor(x / 2, y / 2) % p) + (x + y) % 2
  {
    XorHalf(x, y);
    HalfMod(Xor(x, y), p);
  }

  lemma {:induction false} XorLow(x: nat, y: nat, n: nat)
    ensures Xor(x, y) >= 0
    ensures Xor(x, y) % Pow2(n) == Xor(x % Pow2(n), y % Pow2(n))
    decreases n
  {
    XorNat(x, y);
    if n > 0 {
      var p := Pow2(n - 1);
      var u, v := x / 2 % p, y / 2 % p;
      XorLow(x / 2, y / 2, n - 1);
      XorLowHalf(x, y, p);
      HalfMod(x, p);
      HalfMod(y, p);
      XorDouble(u, v, x % 2, y % 2);
      ParitySum(x, y);
    }
  }

  lemma ParitySum(x: int, y: int)
    ensures (x + y) % 2 == (x % 2 + y % 2) % 2
  {
  }

  lemma {:induction false} XorNat(x: nat, y: nat)
    ensures Xor(x, y) >= 0
  {
    if x > 0 || y > 0 {
      XorNat(x / 2, y / 2);
    }
  }

  lemma XorDouble(x: nat, y: nat, a: int, b: int)
    requires 0 <= a <= 1 && 0 <= b <= 1
    ensures Xor(2 * x + a, 2 * y + b) == 2 * Xor(x, y) + (a + b) % 2
  {
    if x == 0 && y == 0 && a == 0 && b == 0 {
      assert Xor(0, 0) == 0;
    } else {
      assert (2 * x + a) / 2 == x && (2 * y + b) / 2 == y;
    }
  }
}
