/** Conditional swap and the byte form of field elements
    (sel25519, pack25519 and unpack25519 of src/tweetnacl.c). */
module Pack25519 {
  import opened Bits
  import opened Digits
  import opened Field25519

  // ---- conditional swap ----

  // The mask ~(b-1) is -b: all ones or all zeros.
  lemma Select(x: i64, y: i64, b: int)
    requires b == 0 || b == 1
    ensures var t := And(-b, Xor(x, y));
            && -0x8000_0000_0000_0000 <= t < 0x8000_0000_0000_0000
            && Xor(x, t) == (if b == 1 then y else x)
            && Xor(y, t) == (if b == 1 then x else y)
  {
    if b == 1 {
      SelectOther(x, y);
    } else {
      AndZero(Xor(x, y));
      XorZero(x);
      XorZero(y);
    }
  }

  lemma SelectOther(x: i64, y: i64)
    ensures var t := And(-1, Xor(x, y));
            -0x8000_0000_0000_0000 <= t < 0x8000_0000_0000_0000 && Xor(x, t) == y && Xor(y, t) == x
  {
    Pow2Values();
    XorRange(x, y, 63);
    AndAllOnes(Xor(x, y));
    XorCancels(x, y);
    XorCommutes(x, y);
    XorCancels(y, x);
  }

  method Sel25519(p: array<i64>, q: array<i64>, b: int)
    requires p != q && p.Length == 16 && q.Length == 16 && (b == 0 || b == 1)
    modifies p, q
    ensures p[..] == if b == 1 then old(q[..]) else old(p[..])
    ensures q[..] == if b == 1 then old(p[..]) else old(q[..])
  {
    var c: i64 := -(b - 1) - 1;
    ghost var x, y := p[..], q[..];
    for i := 0 to 16
      invariant forall k :: 0 <= k < i ==> p[k] == if b == 1 then y[k] else x[k]
      invariant forall k :: 0 <= k < i ==> q[k] == if b == 1 then x[k] else y[k]
      invariant forall k :: i <= k < 16 ==> p[k] == x[k] && q[k] == y[k]
    {
      Select(p[i], q[i], b);
      var t: i64 := And(c, Xor(p[i], q[i]));
      p[i] := Xor(p[i], t);
      q[i] := Xor(q[i], t);
    }
  }

  // ---- the borrow-and-select subtraction of P ----

  function PLimb(i: nat): (x: int)
    ensures 0 <= x < 65536
  {
    if i == 0 then 0xffed else if i < 15 then 0xffff else 0x7fff
  }

  function PLimbs(): (s: seq<int>)
    ensures |s| == 16
  {
    seq(16, i requires 0 <= i < 16 => PLimb(i))
  }

  lemma {:induction false} AllOnes(s: seq<int>, k: nat)
    requires k <= |s| && forall i :: 0 <= i < k ==> s[i] == 65535
    ensures Sum(s, 65536, k) == Pow(65536, k) - 1
  {
    if k > 0 {
      AllOnes(s, k - 1);
    }
  }

  lemma PLimbsInt()
    ensures Int(PLimbs()) == P
    ensures Pow(65536, 15) * 0x8000 == P + 19
  {
    var ones := seq(16, _ => 65535);
    AllOnes(ones, 16);
    Radix16();
    assert Pow(65536, 16) == 65536 * Pow(65536, 15);
    SumAddLow(ones, 65536, 16, -18);
    var s := ones[0 := 65535 - 18];
    IntAdd(s, 15, -0x8000);
    assert s[15 := s[15] - 0x8000] == PLimbs();
  }

  // Limb-wise difference with P, before borrows.
  function MinusP(s: seq<int>): (d: seq<int>)
    requires |s| == 16
    ensures |d| == 16
  {
    seq(16, i requires 0 <= i < 16 => s[i] - PLimb(i))
  }

  lemma {:induction false} Borrow(s: seq<int>, k: nat)
    requires |s| == 16 && Normal(s) && k <= 16
    ensures -1 <= CarryIn(MinusP(s), 65536, 0, k) <= 0
  {
    if k > 0 {
      Borrow(s, k - 1);
      assert MinusP(s)[k - 1] == s[k - 1] - PLimb(k - 1);
    }
  }

  // m: the borrowed difference; only its top limb keeps the sign.
  ghost predicate IsDifference(m: seq<int>, s: seq<int>)
    requires |s| == 16
  {
    var d := MinusP(s);
    |m| == 16 && m[..15] == Remainders(d, 65536, 0)[..15] && m[15] == d[15] + CarryIn(d, 65536, 0, 15)
  }

  lemma DifferenceInt(m: seq<int>, s: seq<int>)
    requires |s| == 16 && Normal(s) && IsDifference(m, s)
    ensures Int(m) == Int(s) - P
    ensures Normal(m[..15]) && -0x8000 <= m[15] <= 0x8000
    ensures m[15] < 0 <==> Int(m) < 0
  {
    var d, p := MinusP(s), Pow(65536, 15);
    DifferenceSum(m, s);
    Borrow(s, 15);
    forall i | 0 <= i < 15 ensures 0 <= m[i] < 65536 {
      assert m[i] == m[..15][i] == Remainders(d, 65536, 0)[i];
    }
    SumBounds(m, 65536, 15);
    Sign(Sum(m, 65536, 15), m[15], p);
  }

  lemma DifferenceSum(m: seq<int>, s: seq<int>)
    requires |s| == 16 && IsDifference(m, s)
    ensures Int(m) == Int(s) - P
  {
    var d := MinusP(s);
    RemaindersSum(d, 65536, 0, 15);
    SumDepends(m, Remainders(d, 65536, 0), 65536, 15);
    TopLimb(Sum(d, 65536, 15), CarryIn(d, 65536, 0, 15), d[15], Pow(65536, 15));
    MinusPSum(s);
  }

  lemma MinusPSum(s: seq<int>)
    requires |s| == 16
    ensures Int(MinusP(s)) == Int(s) - P
  {
    var d, l := MinusP(s), PLimbs();
    assert forall i :: 0 <= i < 16 ==> d[i] == s[i] + -1 * l[i];
    SumOfSums(d, s, l, -1, 65536, 16);
    PLimbsInt();
  }

  lemma TopLimb(v: int, c: int, x: int, p: int)
    ensures v - c * p + (x + c) * p == v + x * p
  {
  }

  lemma Sign(v: int, x: int, p: int)
    requires 0 <= v < p
    ensures v + x * p < 0 <==> x < 0
  {
    if x < 0 {
      assert x * p <= -1 * p;
    } else {
      assert x * p >= 0;
    }
  }

  // m becomes t - P with borrows; the mask on limb 14 comes last, after b is read from limb 15.
  method SubtractLimb(t: array<i64>, m: array<i64>, i: nat, ghost s: seq<int>)
    requires t != m && t.Length == m.Length == 16 && 0 < i < 15 && |s| == 16 && Normal(s) && t[i] == s[i]
    requires m[i - 1] == MinusP(s)[i - 1] + CarryIn(MinusP(s), 65536, 0, i - 1)
    modifies m
    ensures m[i] == MinusP(s)[i] + CarryIn(MinusP(s), 65536, 0, i)
    ensures m[i - 1] == Remainders(MinusP(s), 65536, 0)[i - 1]
    ensures forall k :: 0 <= k < i - 1 ==> m[k] == old(m[k])
  {
    Borrow(s, i);
    m[i] := t[i] - 0xffff - (m[i - 1] / 65536) % 2;
    m[i - 1] := m[i - 1] % 65536;
  }

  method Subtract(t: array<i64>, m: array<i64>) returns (b: int)
    requires t != m && t.Length == 16 && m.Length == 16 && Normal(t[..])
    modifies m
    ensures IsDifference(m[..], t[..])
    ensures b == (m[15] / 65536) % 2
  {
    ghost var s, d, r := t[..], MinusP(t[..]), Remainders(MinusP(t[..]), 65536, 0);
    m[0] := t[0] - 0xffed;
    for i := 1 to 15
      invariant m[i - 1] == d[i - 1] + CarryIn(d, 65536, 0, i - 1)
      invariant forall k :: 0 <= k < i - 1 ==> m[k] == r[k]
    {
      assert t[i] == s[i];
      SubtractLimb(t, m, i, s);
    }
    Borrow(s, 15);
    assert t[15] == s[15];
    m[15] := t[15] - 0x7fff - (m[14] / 65536) % 2;
    b := (m[15] / 65536) % 2;
    m[14] := m[14] % 65536;
    assert m[..15] == r[..15];
  }

  // One of the two conditional subtractions.
  method SubtractP(t: array<i64>, m: array<i64>)
    requires t != m && t.Length == 16 && m.Length == 16 && Normal(t[..])
    modifies t, m
    ensures Normal(t[..])
    ensures Int(t[..]) == old(Int(t[..])) - (if old(Int(t[..])) >= P then P else 0)
  {
    var b := Subtract(t, m);
    DifferenceInt(m[..], t[..]);
    assert forall i :: 0 <= i < 15 ==> m[i] == m[..][..15][i];
    Sel25519(t, m, 1 - b);
  }

  // ---- bytes ----

  lemma {:induction false} BytePairs(bytes: seq<int>, s: seq<int>, k: nat)
    requires 2 * k <= |bytes| && k <= |s|
    requires forall i :: 0 <= i < k ==> s[i] == bytes[2 * i] + 256 * bytes[2 * i + 1]
    ensures Sum(bytes, 256, 2 * k) == Sum(s, 65536, k)
    ensures Pow(256, 2 * k) == Pow(65536, k)
  {
    if k > 0 {
      BytePairs(bytes, s, k - 1);
      var j, p := 2 * (k - 1), Pow(65536, k - 1);
      assert Sum(bytes, 256, 2 * k) == Sum(bytes, 256, j) + bytes[j] * Pow(256, j) + bytes[j + 1] * Pow(256, j + 1);
      assert Pow(256, j + 1) == 256 * p;
      assert Pow(256, j + 2) == 256 * Pow(256, j + 1);
      Pair(bytes[j], bytes[j + 1], p);
    }
  }

  lemma Pair(x: int, y: int, p: int)
    ensures x * p + y * (256 * p) == (x + 256 * y) * p
  {
  }

  ghost function ByteAt(o: array<u8>, i: nat): int
    requires i < o.Length
    reads o
  {
    o[i]
  }

  twostate predicate OnlyBytes(o: array<u8>, at: nat, n: nat)
    requires at + n <= o.Length
    reads o
  {
    forall k :: 0 <= k < o.Length && !(at <= k < at + n) ==> o[k] == old(o[k])
  }

  // Three carry passes and two conditional subtractions leave the canonical residue.
  lemma Canonical(v: int, u: int, w: int)
    requires 0 <= v < 2 * P + 38
    requires u == v - (if v >= P then P else 0)
    requires w == u - (if u >= P then P else 0)
    ensures w == v % P
  {
    if v >= 2 * P {
      ModUnique(v, P, 2, w);
    } else if v >= P {
      ModUnique(v, P, 1, w);
    } else {
      ModUnique(v, P, 0, w);
    }
  }

  lemma ThreePasses(s: seq<int>)
    requires |s| == 16 && Within(s, 0x4000_0000_0000_0000)
    ensures Within(Carried(s), 0x4000_0000_0000_0000)
    ensures Within(Carried(Carried(s)), 0x4000_0000_0000_0000)
    ensures var r := Carried(Carried(Carried(s))); Normal(r) && Fe(r) == Fe(s) && 0 <= Int(r) < 2 * P + 38
  {
    var s2 := Carried(Carried(s));
    TwoPasses(s);
    TightWithin(s2);
    ThirdPass(s2);
    CarriedFe(s2);
    SumBounds(Carried(s2), 65536, 16);
    Radix16();
  }

  method StoreLimbs(o: array<u8>, oAt: nat, t: array<i64>)
    requires oAt + 32 <= o.Length && t.Length == 16 && Normal(t[..])
    modifies o
    ensures Slice(o, oAt, 32) == ToBytes(Int(t[..]), 32)
    ensures OnlyBytes(o, oAt, 32)
  {
    ghost var s := t[..];
    for i := 0 to 16
      invariant t[..] == s
      invariant forall k :: 0 <= k < i ==>
                  ByteAt(o, oAt + 2 * k) == s[k] % 256 && ByteAt(o, oAt + 2 * k + 1) == s[k] / 256
      invariant OnlyBytes(o, oAt, 32)
    {
      var limb: i64 := t[i];
      assert 0 <= s[i] == limb < 65536;
      o[oAt + 2 * i] := limb % 256;
      o[oAt + 2 * i + 1] := limb / 256;
    }
    ghost var bytes := Slice(o, oAt, 32);
    forall k | 0 <= k < 16 ensures s[k] == bytes[2 * k] + 256 * bytes[2 * k + 1] {
      assert bytes[2 * k] == ByteAt(o, oAt + 2 * k) && bytes[2 * k + 1] == ByteAt(o, oAt + 2 * k + 1);
    }
    BytePairs(bytes, s, 16);
    BytesOfValue(bytes);
  }

  method Pack25519(o: array<u8>, oAt: nat, n: array<i64>, nAt: nat)
    requires oAt + 32 <= o.Length && nAt + 16 <= n.Length
    requires Within(Limbs(n, nAt), 0x4000_0000_0000_0000)
    modifies o
    ensures Slice(o, oAt, 32) == ToBytes(Fe(Limbs(n, nAt)), 32)
    ensures OnlyBytes(o, oAt, 32)
  {
    var m, t := new i64[16], new i64[16];
    CopyLimbs(t, 0, n, nAt);
    ThreePasses(Limbs(t, 0));
    Car25519(t, 0);
    Car25519(t, 0);
    Car25519(t, 0);
    ghost var v := Int(Limbs(t, 0));
    assert t[..] == Limbs(t, 0);
    SubtractP(t, m);
    ghost var u := Int(t[..]);
    SubtractP(t, m);
    Canonical(v, u, Int(t[..]));
    StoreLimbs(o, oAt, t);
  }

  method LoadLimbs(o: array<i64>, oAt: nat, n: array<u8>, nAt: nat)
    requires oAt + 16 <= o.Length && nAt + 32 <= n.Length
    modifies o
    ensures Int(Limbs(o, oAt)) == Value(Slice(n, nAt, 32), 256)
    ensures Normal(Limbs(o, oAt))
    ensures OnlyLimbs(o, oAt)
  {
    ghost var bytes := Slice(n, nAt, 32);
    ghost var s := Pairs(bytes);
    for i := 0 to 16
      invariant forall k :: 0 <= k < i ==> o[oAt + k] == s[k]
      invariant OnlyLimbs(o, oAt)
    {
      var low: i64 := n[nAt + 2 * i];
      var high: i64 := n[nAt + 2 * i + 1];
      PairAt(bytes, i);
      assert low == bytes[2 * i] && high == bytes[2 * i + 1];
      o[oAt + i] := low + high * 256;
    }
    assert Limbs(o, oAt) == s;
    BytePairs(bytes, s, 16);
  }

  // 32 bytes as 16 limbs.
  ghost function Pairs(bytes: seq<int>): (s: seq<int>)
    requires |bytes| == 32 && AreDigits(bytes, 256)
    ensures |s| == 16 && Normal(s)
  {
    seq(16, i requires 0 <= i < 16 => bytes[2 * i] + 256 * bytes[2 * i + 1])
  }

  lemma PairAt(bytes: seq<int>, i: nat)
    requires |bytes| == 32 && AreDigits(bytes, 256) && i < 16
    ensures Pairs(bytes)[i] == bytes[2 * i] + 256 * bytes[2 * i + 1]
  {
  }

  method Unpack25519(o: array<i64>, oAt: nat, n: array<u8>, nAt: nat)
    requires oAt + 16 <= o.Length && nAt + 32 <= n.Length
    modifies o
    ensures Int(Limbs(o, oAt)) == Value(Slice(n, nAt, 32), 256) % (P + 19)
    ensures Normal(Limbs(o, oAt))
    ensures OnlyLimbs(o, oAt)
  {
    LoadLimbs(o, oAt, n, nAt);
    ghost var s := Limbs(o, oAt);
    o[oAt + 15] := o[oAt + 15] % 0x8000;
    assert Limbs(o, oAt) == s[15 := s[15] % 0x8000];
    MaskTop(s);
  }

  lemma MaskTop(s: seq<int>)
    requires |s| == 16 && Normal(s)
    ensures Int(s[15 := s[15] % 0x8000]) == Int(s) % (P + 19)
  {
    var q, r := s[15] / 0x8000, s[15 := s[15] % 0x8000];
    IntAdd(s, 15, -0x8000 * q);
    PLimbsInt();
    var p := Pow(65536, 15);
    assert -0x8000 * q * p == -(p * 0x8000) * q;
    SumBounds(r, 65536, 15);
    assert 0 <= r[15] * p <= 0x7fff * p;
    ModUnique(Int(s), P + 19, q, Int(r));
  }
}
