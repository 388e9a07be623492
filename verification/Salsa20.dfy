/** Salsa20, HSalsa20 and the XSalsa20 stream (core .. crypto_stream_xor of src/tweetnacl.c).
    `u32` is an `unsigned long` of w = 32 or w = 64 bits; only the low 32 bits of a word matter. */
module Salsa20 {
  import opened Bits
  import opened Digits

  type word = x: int | 0 <= x < 0x1_0000_0000_0000_0000

  const TWO32 := 0x1_0000_0000

  // ---- the Salsa20 specification, sections 2 to 8 ----

  function Rotate(x: int, c: nat): int
    requires c <= 32
  {
    Shl(x, c) % TWO32 + Shr(x, 32 - c)
  }

  function QuarterStep(x: int, y: int, z: int, c: nat): int
    requires c <= 32
  {
    Xor(x, Rotate((y + z) % TWO32, c))
  }

  function Quarter(y: Four): Four {
    var z1 := QuarterStep(y[1], y[0], y[3], 7);
    var z2 := QuarterStep(y[2], z1, y[0], 9);
    var z3 := QuarterStep(y[3], z2, z1, 13);
    var z0 := QuarterStep(y[0], z3, z2, 18);
    [z0, z1, z2, z3]
  }

  type Four = s: seq<int> | |s| == 4 witness [0, 0, 0, 0]
  type State = s: seq<int> | |s| == 16 witness seq(16, _ => 0)

  // The rounds, for any quarter round q.
  function RowRound(q: Four -> Four, y: State): State {
    var a := q([y[0], y[1], y[2], y[3]]);
    var b := q([y[5], y[6], y[7], y[4]]);
    var c := q([y[10], y[11], y[8], y[9]]);
    var d := q([y[15], y[12], y[13], y[14]]);
    [a[0], a[1], a[2], a[3], b[3], b[0], b[1], b[2], c[2], c[3], c[0], c[1], d[1], d[2], d[3], d[0]]
  }

  function ColumnRound(q: Four -> Four, x: State): State {
    var a := q([x[0], x[4], x[8], x[12]]);
    var b := q([x[5], x[9], x[13], x[1]]);
    var c := q([x[10], x[14], x[2], x[6]]);
    var d := q([x[15], x[3], x[7], x[11]]);
    [a[0], b[3], c[2], d[1], a[1], b[0], c[3], d[2], a[2], b[1], c[0], d[3], a[3], b[2], c[1], d[0]]
  }

  function DoubleRound(q: Four -> Four, x: State): State {
    RowRound(q, ColumnRound(q, x))
  }

  function SalsaRound(x: State): State {
    DoubleRound(Quarter, x)
  }

  function Repeat(f: State -> State, x: State, n: nat): State {
    if n == 0 then x else f(Repeat(f, x, n - 1))
  }

  function Word(s: seq<int>, i: nat): int
    requires 4 * i + 4 <= |s|
  {
    Value(s[4 * i..4 * i + 4], 256)
  }

  // The input block of the expansion function: constant, key half, constant, input, and so on.
  function Layout(input: seq<int>, k: seq<int>, c: seq<int>): State
    requires |input| == 16 && |k| == 32 && |c| == 16
  {
    [Word(c, 0), Word(k, 0), Word(k, 1), Word(k, 2), Word(k, 3),
     Word(c, 1), Word(input, 0), Word(input, 1), Word(input, 2), Word(input, 3),
     Word(c, 2), Word(k, 4), Word(k, 5), Word(k, 6), Word(k, 7), Word(c, 3)]
  }

  function Serialize(words: seq<int>): (s: seq<int>)
    ensures |s| == 4 * |words| && AreDigits(s, 256)
  {
    seq(4 * |words|, i requires 0 <= i < 4 * |words| => ToBytes(words[i / 4], 4)[i % 4])
  }

  function Sums(x: seq<int>, y: seq<int>): (z: seq<int>)
    requires |x| == |y|
    ensures |z| == |x|
  {
    seq(|x|, i requires 0 <= i < |x| => (x[i] + y[i]) % TWO32)
  }

  function Salsa20Block(input: seq<int>, k: seq<int>, c: seq<int>): (s: seq<int>)
    requires |input| == 16 && |k| == 32 && |c| == 16
    ensures |s| == 64 && AreDigits(s, 256)
  {
    var x := Layout(input, k, c);
    Serialize(Sums(x, Repeat(SalsaRound, x, 10)))
  }

  // The words that become the derived key.
  function Kept(z: State): (d: seq<int>)
    ensures |d| == 8
  {
    [z[0], z[5], z[10], z[15], z[6], z[7], z[8], z[9]]
  }

  function HSalsa20(input: seq<int>, k: seq<int>, c: seq<int>): (s: seq<int>)
    requires |input| == 16 && |k| == 32 && |c| == 16
    ensures |s| == 32 && AreDigits(s, 256)
  {
    Serialize(Kept(Repeat(SalsaRound, Layout(input, k, c), 10)))
  }

  // ---- words of either width ----

  function Wrap(w: nat, x: int): int {
    if w == 32 then x % TWO32 else x % 0x1_0000_0000_0000_0000
  }

  function Lo(x: int): int {
    x % TWO32
  }

  predicate IsWidth(w: nat) {
    w == 32 || w == 64
  }

  function Limit(w: nat): int {
    if w == 32 then TWO32 else 0x1_0000_0000_0000_0000
  }

  lemma LimitIsPower(w: nat)
    requires IsWidth(w)
    ensures Limit(w) == Pow2(w)
  {
    Pow2Values();
  }

  lemma WrapLo(w: nat, x: int)
    ensures Lo(Wrap(w, x)) == Lo(x)
    ensures 0 <= Wrap(w, x) < Limit(w)
  {
    if w != 32 {
      ModMod(x);
    }
  }

  lemma ModMod(x: int)
    ensures x % 0x1_0000_0000_0000_0000 % TWO32 == x % TWO32
  {
    var q := x / 0x1_0000_0000_0000_0000;
    assert x == TWO32 * (TWO32 * q) + x % 0x1_0000_0000_0000_0000;
    ModShift(x % 0x1_0000_0000_0000_0000, TWO32, TWO32 * q);
  }

  function L32(w: nat, x: word, c: nat): int
    requires c <= 32
  {
    Or(Wrap(w, Shl(x, c)), Shr(Lo(x), 32 - c))
  }

  lemma ScaleMod(x: int, p: int, q: int)
    requires p > 0 && q > 0
    ensures p * q > 0
    ensures x * p % (p * q) == x % q * p
  {
    var k, r := x / q, x % q;
    assert x == q * k + r;
    assert x * p == p * q * k + r * p by {
      assert (q * k + r) * p == q * k * p + r * p;
    }
    assert r * p <= (q - 1) * p == p * q - p;
    ModUnique(x * p, p * q, k, r * p);
  }

  lemma ShiftLo(x: nat, p: int, q: int)
    requires p > 0 && q > 0 && p * q == TWO32
    ensures x * p % TWO32 == Lo(x) * p % TWO32
    ensures 0 <= Lo(x) / q < p
  {
    var k := x / TWO32;
    assert x * p == TWO32 * (k * p) + Lo(x) * p by {
      assert x == TWO32 * k + Lo(x);
      assert (TWO32 * k + Lo(x)) * p == TWO32 * k * p + Lo(x) * p;
    }
    ModShift(Lo(x) * p, TWO32, k * p);
    QuotientBelow(Lo(x), p, q);
  }

  lemma QuotientBelow(x: int, p: int, q: int)
    requires p > 0 && q > 0 && 0 <= x < p * q
    ensures 0 <= x / q < p
  {
    MulGap(q, x / q - p);
    assert q * (x / q - p) == q * (x / q) - p * q;
  }

  lemma ShiftedOut(x: nat, p: int, r: int, m: int)
    requires p > 0 && r > 0 && p * r == m
    ensures x * p % m == x % r * p && 0 <= x % r * p <= m - p
  {
    ScaleMod(x, p, r);
    assert 0 <= x % r <= r - 1;
    assert 0 <= x % r * p <= (r - 1) * p;
    assert (r - 1) * p == p * r - p;
  }

  lemma LowBitsOfWord(x: word, c: nat)
    requires 0 < c < 32
    ensures 0 <= Shr(Lo(x), 32 - c) < Pow2(c)
  {
    Pow2Add(c, 32 - c);
    Pow2Values();
    ShrDivides(Lo(x), 32 - c);
    ShiftLo(x, Pow2(c), Pow2(32 - c));
  }

  // The two halves of L32 have no bit in common.
  lemma RotateSum(w: nat, x: word, c: nat)
    requires IsWidth(w) && 0 < c < 32
    ensures 0 <= Wrap(w, Shl(x, c)) <= Limit(w) - Pow2(c)
    ensures 0 <= Shr(Lo(x), 32 - c) < Pow2(c)
    ensures L32(w, x, c) == Wrap(w, Shl(x, c)) + Shr(Lo(x), 32 - c)
  {
    var p, r := Pow2(c), Pow2(w - c);
    assert p * r == Limit(w) by {
      Pow2Add(c, w - c);
      LimitIsPower(w);
    }
    LowBitsOfWord(x, c);
    ShlMultiplies(x, c);
    ShiftedOut(x, p, r, Limit(w));
    OrDisjoint(x % r, Shr(Lo(x), 32 - c), c);
  }

  // L32 rotates the low 32 bits, whatever the high bits of a wide word hold.
  lemma RotateLo(w: nat, x: word, c: nat)
    requires IsWidth(w) && 0 < c < 32
    ensures 0 <= L32(w, x, c) < Limit(w)
    ensures Lo(L32(w, x, c)) == Rotate(Lo(x), c)
  {
    var p, q := Pow2(c), Pow2(32 - c);
    assert p * q == TWO32 by {
      Pow2Add(c, 32 - c);
      Pow2Values();
    }
    RotateSum(w, x, c);
    ShlMultiplies(x, c);
    ShlMultiplies(Lo(x), c);
    WrapLo(w, Shl(x, c));
    ShiftLo(x, p, q);
    ShiftedOut(Lo(x), p, q, TWO32);
    LoSum(Wrap(w, Shl(x, c)), Shl(Lo(x), c) % TWO32, Shr(Lo(x), 32 - c), p);
  }

  lemma LoSum(a: int, m: int, b: int, p: int)
    requires Lo(a) == m && 0 <= b < p && 0 <= m <= TWO32 - p
    ensures Lo(a + b) == m + b
  {
    ModUnique(a + b, TWO32, a / TWO32, m + b);
  }

  // ---- the rounds of core ----

  lemma LoXor(x: nat, y: nat)
    ensures Lo(Xor(x, y)) == Xor(Lo(x), Lo(y))
  {
    Pow2Values();
    XorLow(x, y, 32);
  }

  predicate InWidth(w: nat, s: seq<int>) {
    forall i :: 0 <= i < |s| ==> 0 <= s[i] < Limit(w)
  }

  function LoAll(s: seq<int>): (z: seq<int>)
    ensures |z| == |s|
  {
    seq(|s|, i requires 0 <= i < |s| => Lo(s[i]))
  }

  lemma XorInWidth(w: nat, x: nat, y: nat)
    requires IsWidth(w) && x < Limit(w) && y < Limit(w)
    ensures 0 <= Xor(x, y) < Limit(w)
  {
    LimitIsPower(w);
    XorRange(x, y, w);
  }

  function AddWords(y: int, z: int): int {
    y + z
  }

  lemma SumLo(w: nat, y: word, z: word)
    ensures 0 <= Wrap(w, AddWords(y, z)) < Limit(w)
    ensures Lo(Wrap(w, AddWords(y, z))) == (Lo(y) + Lo(z)) % TWO32
  {
    WrapLo(w, AddWords(y, z));
    ModShift(Lo(y) + Lo(z), TWO32, y / TWO32 + z / TWO32);
  }

  // L32(y + z, n)
  function RotatedSum(w: nat, y: word, z: word, n: nat): int
    requires n <= 32
  {
    WrapLo(w, AddWords(y, z));
    L32(w, Wrap(w, AddWords(y, z)), n)
  }

  lemma RotatedSumLo(w: nat, y: word, z: word, n: nat)
    requires IsWidth(w) && 0 < n < 32
    ensures 0 <= RotatedSum(w, y, z, n) < Limit(w)
    ensures Lo(RotatedSum(w, y, z, n)) == Rotate((Lo(y) + Lo(z)) % TWO32, n)
  {
    SumLo(w, y, z);
    RotateLo(w, Wrap(w, AddWords(y, z)), n);
  }

  // A word combined with the rotated sum of two others.
  function Mix(w: nat, x: word, y: word, z: word, n: nat): int
    requires n <= 32
  {
    Xor(x, RotatedSum(w, y, z, n))
  }

  lemma MixLo(w: nat, x: word, y: word, z: word, n: nat)
    requires IsWidth(w) && 0 < n < 32 && x < Limit(w)
    ensures 0 <= Mix(w, x, y, z, n) < Limit(w)
    ensures Lo(Mix(w, x, y, z, n)) == QuarterStep(Lo(x), Lo(y), Lo(z), n)
  {
    RotatedSumLo(w, y, z, n);
    LoXor(x, RotatedSum(w, y, z, n));
    XorInWidth(w, x, RotatedSum(w, y, z, n));
  }

  function Lo4(s: seq<int>): (z: seq<int>)
    requires |s| == 4
    ensures |z| == 4
  {
    [Lo(s[0]), Lo(s[1]), Lo(s[2]), Lo(s[3])]
  }

  lemma QuarterSteps(y: seq<int>, z: seq<int>)
    requires |y| == 4 && |z| == 4
    requires z[1] == QuarterStep(y[1], y[0], y[3], 7)
    requires z[2] == QuarterStep(y[2], z[1], y[0], 9)
    requires z[3] == QuarterStep(y[3], z[2], z[1], 13)
    requires z[0] == QuarterStep(y[0], z[3], z[2], 18)
    ensures z == Quarter(y)
  {
    assert z == [z[0], z[1], z[2], z[3]];
  }

  method QuarterRound(w: nat, t: array<word>)
    requires IsWidth(w) && t.Length == 4 && InWidth(w, t[..])
    modifies t
    ensures InWidth(w, t[..])
    ensures Lo4(t[..]) == Quarter(old(Lo4(t[..])))
  {
    ghost var s := t[..];
    assert t[0] == s[0] && t[1] == s[1] && t[2] == s[2] && t[3] == s[3];
    MixLo(w, t[1], t[0], t[3], 7);
    t[1] := Mix(w, t[1], t[0], t[3], 7);
    MixLo(w, t[2], t[1], t[0], 9);
    t[2] := Mix(w, t[2], t[1], t[0], 9);
    MixLo(w, t[3], t[2], t[1], 13);
    t[3] := Mix(w, t[3], t[2], t[1], 13);
    MixLo(w, t[0], t[3], t[2], 18);
    t[0] := Mix(w, t[0], t[3], t[2], 18);
    QuarterSteps(Lo4(s), Lo4(t[..]));
  }

  // ---- twenty transposing iterations are ten double rounds ----

  function Column(x: State, j: nat): Four
    requires j < 4
  {
    [x[5 * j], x[(5 * j + 4) % 16], x[(5 * j + 8) % 16], x[(5 * j + 12) % 16]]
  }

  // Column j goes to row j, turned by j places.
  function Rotated(t: Four, j: nat): Four
    requires j < 4
  {
    seq(4, i requires 0 <= i < 4 => t[(i + 4 - j) % 4])
  }

  function Row(q: Four -> Four, x: State, j: nat): Four
    requires j < 4
  {
    Rotated(q(Column(x, j)), j)
  }

  // One iteration: quarter rounds down the diagonals, written out transposed.
  function Iterate(q: Four -> Four, x: State): State {
    Row(q, x, 0) + Row(q, x, 1) + Row(q, x, 2) + Row(q, x, 3)
  }

  lemma RotatedEntries(t: Four)
    ensures Rotated(t, 0) == [t[0], t[1], t[2], t[3]]
    ensures Rotated(t, 1) == [t[3], t[0], t[1], t[2]]
    ensures Rotated(t, 2) == [t[2], t[3], t[0], t[1]]
    ensures Rotated(t, 3) == [t[1], t[2], t[3], t[0]]
  {
  }

  lemma IterateEntries(q: Four -> Four, x: State)
    ensures var a, b := q([x[0], x[4], x[8], x[12]]), q([x[5], x[9], x[13], x[1]]);
            var c, d := q([x[10], x[14], x[2], x[6]]), q([x[15], x[3], x[7], x[11]]);
            Iterate(q, x) == [a[0], a[1], a[2], a[3], b[3], b[0], b[1], b[2],
                              c[2], c[3], c[0], c[1], d[1], d[2], d[3], d[0]]
  {
    ColumnEntries(x);
    RotatedEntries(q(Column(x, 0)));
    RotatedEntries(q(Column(x, 1)));
    RotatedEntries(q(Column(x, 2)));
    RotatedEntries(q(Column(x, 3)));
  }

  lemma ColumnEntries(x: State)
    ensures Column(x, 0) == [x[0], x[4], x[8], x[12]] && Column(x, 1) == [x[5], x[9], x[13], x[1]]
    ensures Column(x, 2) == [x[10], x[14], x[2], x[6]] && Column(x, 3) == [x[15], x[3], x[7], x[11]]
  {
  }

  lemma IterateTwice(q: Four -> Four, x: State)
    ensures Iterate(q, Iterate(q, x)) == DoubleRound(q, x)
  {
    IterateEntries(q, x);
    IterateEntries(q, Iterate(q, x));
  }

  lemma {:induction false} RepeatTwice(f: State -> State, g: State -> State, x: State, n: nat)
    requires forall y :: f(f(y)) == g(y)
    ensures Repeat(f, x, 2 * n) == Repeat(g, x, n)
  {
    if n > 0 {
      RepeatTwice(f, g, x, n - 1);
      assert Repeat(f, x, 2 * n) == f(Repeat(f, x, 2 * n - 1));
    }
  }

  function CoreIteration(x: State): State {
    Iterate(Quarter, x)
  }

  lemma TwoIterations(x: State)
    ensures CoreIteration(CoreIteration(x)) == SalsaRound(x)
  {
    IterateTwice(Quarter, x);
  }

  lemma TwentyIterations(x: State)
    ensures Repeat(CoreIteration, x, 20) == Repeat(SalsaRound, x, 10)
  {
    forall y ensures CoreIteration(CoreIteration(y)) == SalsaRound(y) {
      TwoIterations(y);
    }
    RepeatTwice(CoreIteration, SalsaRound, x, 10);
  }

  // ---- core ----

  function LoState(s: State): State {
    LoAll(s)
  }

  // Stores the four words in row j, turned by j places.
  method StoreRow(v: array<word>, t: array<word>, j: nat)
    requires v != t && v.Length == 16 && t.Length == 4 && j < 4
    modifies v
    ensures v[4 * j..4 * j + 4] == Rotated(t[..], j)
    ensures forall i :: 0 <= i < 16 && i / 4 != j ==> v[i] == old(v[i])
  {
    for m := 0 to 4
      invariant forall k :: 0 <= k < m ==> v[4 * j + (j + k) % 4] == t[k]
      invariant forall i :: 0 <= i < 16 && i / 4 != j ==> v[i] == old(v[i])
    {
      v[4 * j + (j + m) % 4] := t[m];
    }
    forall i | 0 <= i < 4 ensures v[4 * j + i] == Rotated(t[..], j)[i] {
      var m := (i + 4 - j) % 4;
      assert (j + m) % 4 == i;
    }
  }

  // Loads column j, from the diagonal down.
  method LoadColumn(x: array<word>, t: array<word>, j: nat)
    requires x != t && x.Length == 16 && t.Length == 4 && j < 4
    modifies t
    ensures Lo4(t[..]) == Column(LoState(x[..]), j)
    ensures forall i :: 0 <= i < 4 ==> t[i] in x[..]
  {
    ghost var s := x[..];
    for m := 0 to 4
      invariant forall k :: 0 <= k < m ==> t[k] == s[(5 * j + 4 * k) % 16]
    {
      assert x[(5 * j + 4 * m) % 16] == s[(5 * j + 4 * m) % 16];
      t[m] := x[(5 * j + 4 * m) % 16];
    }
    assert 5 * j % 16 == 5 * j;
    assert t[0] == s[5 * j] && t[1] == s[(5 * j + 4) % 16];
    assert t[2] == s[(5 * j + 8) % 16] && t[3] == s[(5 * j + 12) % 16];
  }

  // One column: loaded, mixed and stored as a row.
  method RowStep(w: nat, x: array<word>, v: array<word>, t: array<word>, j: nat)
    requires IsWidth(w) && x != v && x != t && v != t
    requires x.Length == v.Length == 16 && t.Length == 4 && j < 4 && InWidth(w, x[..])
    modifies v, t
    ensures LoAll(v[4 * j..4 * j + 4]) == Row(Quarter, LoState(x[..]), j)
    ensures InWidth(w, v[4 * j..4 * j + 4])
    ensures forall i :: 0 <= i < 16 && i / 4 != j ==> v[i] == old(v[i])
  {
    LoadColumn(x, t, j);
    QuarterRound(w, t);
    StoreRow(v, t, j);
    assert LoAll(Rotated(t[..], j)) == Rotated(Lo4(t[..]), j);
  }

  // v holds the first j rows, with every word in width.
  ghost predicate HasRows(w: nat, v: seq<int>, rows: seq<Four>, j: nat) {
    |v| == 16 && |rows| == 4 && j <= 4
    && forall i :: 0 <= i < 4 * j ==> 0 <= v[i] < Limit(w) && Lo(v[i]) == rows[i / 4][i % 4]
  }

  lemma NextRow(w: nat, v: seq<int>, v': seq<int>, rows: seq<Four>, j: nat)
    requires HasRows(w, v, rows, j) && j < 4 && |v'| == 16
    requires forall i :: 0 <= i < 16 && i / 4 != j ==> v'[i] == v[i]
    requires LoAll(v'[4 * j..4 * j + 4]) == rows[j] && InWidth(w, v'[4 * j..4 * j + 4])
    ensures HasRows(w, v', rows, j + 1)
  {
    ghost var r := v'[4 * j..4 * j + 4];
    forall i | 0 <= i < 4 * (j + 1) ensures 0 <= v'[i] < Limit(w) && Lo(v'[i]) == rows[i / 4][i % 4] {
      if i / 4 == j {
        assert v'[i] == r[i - 4 * j] && LoAll(r)[i - 4 * j] == Lo(r[i - 4 * j]);
      }
    }
  }

  function RowsOf(q: Four -> Four, x: State): seq<Four> {
    [Row(q, x, 0), Row(q, x, 1), Row(q, x, 2), Row(q, x, 3)]
  }

  lemma RowsMakeState(w: nat, v: State, q: Four -> Four, x: State)
    requires HasRows(w, v, RowsOf(q, x), 4)
    ensures InWidth(w, v) && LoState(v) == Iterate(q, x)
  {
    var rows := RowsOf(q, x);
    forall i | 0 <= i < 16 ensures LoState(v)[i] == Iterate(q, x)[i] {
      assert Lo(v[i]) == rows[i / 4][i % 4];
    }
  }

  lemma RowsAre(q: Four -> Four, x: State)
    ensures |RowsOf(q, x)| == 4 && forall j :: 0 <= j < 4 ==> RowsOf(q, x)[j] == Row(q, x, j)
  {
  }

  method AllRows(w: nat, x: array<word>, v: array<word>, t: array<word>, ghost rows: seq<Four>)
    requires IsWidth(w) && x != v && x != t && v != t
    requires x.Length == v.Length == 16 && t.Length == 4 && InWidth(w, x[..])
    requires |rows| == 4 && forall j :: 0 <= j < 4 ==> rows[j] == Row(Quarter, LoState(x[..]), j)
    modifies v, t
    ensures HasRows(w, v[..], rows, 4)
  {
    ghost var s := x[..];
    for j := 0 to 4
      invariant HasRows(w, v[..], rows, j)
    {
      ghost var before := v[..];
      assert x[..] == s;
      RowStep(w, x, v, t, j);
      NextRow(w, before, v[..], rows, j);
    }
  }

  method CopyWords(x: array<word>, v: array<word>)
    requires x != v && x.Length == v.Length == 16
    modifies x
    ensures x[..] == v[..]
  {
    for m := 0 to 16
      invariant forall i :: 0 <= i < m ==> x[i] == v[i]
    {
      x[m] := v[m];
    }
  }

  // One of the twenty iterations.
  method Iteration(w: nat, x: array<word>, v: array<word>, t: array<word>)
    requires IsWidth(w) && x != v && x != t && v != t
    requires x.Length == v.Length == 16 && t.Length == 4 && InWidth(w, x[..])
    modifies x, v, t
    ensures InWidth(w, x[..])
    ensures LoState(x[..]) == CoreIteration(old(LoState(x[..])))
  {
    NextWords(w, x, v, t);
    CopyWords(x, v);
    assert x[..] == v[..];
  }

  method NextWords(w: nat, x: array<word>, v: array<word>, t: array<word>)
    requires IsWidth(w) && x != v && x != t && v != t
    requires x.Length == v.Length == 16 && t.Length == 4 && InWidth(w, x[..])
    modifies v, t
    ensures InWidth(w, v[..]) && LoState(v[..]) == CoreIteration(LoState(x[..]))
  {
    RowsAre(Quarter, LoState(x[..]));
    AllRows(w, x, v, t, RowsOf(Quarter, LoState(x[..])));
    RowsMakeState(w, v[..], Quarter, LoState(x[..]));
  }

  // ---- words and bytes ----

  // One byte more, at the low end.
  lemma ShiftIn(w: nat, u: int, b: u8)
    requires IsWidth(w) && 0 <= u < 0x100_0000
    ensures Or(Wrap(w, Shl(u, 8)), b) == u * 256 + b
  {
    assert Pow2(8) == 256 by {
      Pow2Values();
    }
    ShlMultiplies(u, 8);
    assert Wrap(w, u * 256) == u * 256;
    OrDisjoint(u, b, 8);
  }

  function Ld32(w: nat, s: seq<int>): int
    requires |s| == 4 && AreDigits(s, 256)
  {
    Or(Wrap(w, Shl(Or(Wrap(w, Shl(Or(Wrap(w, Shl(s[3], 8)), s[2]), 8)), s[1]), 8)), s[0])
  }

  lemma Ld32IsValue(w: nat, s: seq<int>)
    requires IsWidth(w) && |s| == 4 && AreDigits(s, 256)
    ensures Ld32(w, s) == Value(s, 256) && 0 <= Value(s, 256) < TWO32
  {
    ShiftIn(w, s[3], s[2]);
    ShiftIn(w, s[3] * 256 + s[2], s[1]);
    ShiftIn(w, (s[3] * 256 + s[2]) * 256 + s[1], s[0]);
    FourBytes(s);
  }

  method St32(x: array<u8>, at: nat, v: word)
    requires at + 4 <= x.Length
    modifies x
    ensures x[at..at + 4] == ToBytes(Lo(v), 4)
    ensures forall k :: 0 <= k < x.Length && !(at <= k < at + 4) ==> x[k] == old(x[k])
  {
    var u := v;
    ghost var b := ToBytes(v, 4);
    for i := 0 to 4
      invariant ToBytes(u, 4 - i) == b[i..]
      invariant forall k :: 0 <= k < i ==> x[at + k] == b[k]
      invariant forall k :: 0 <= k < x.Length && !(at <= k < at + 4) ==> x[k] == old(x[k])
    {
      assert b[i] == b[i..][0] == u % 256;
      assert b[i + 1..] == b[i..][1..];
      x[at + i] := u % 256;
      u := u / 256;
    }
    assert x[at..at + 4] == b;
    BytesIgnoreMod(v, 4);
    assert Pow(256, 4) == TWO32;
  }

  // ---- core ----

  lemma SubSlice(x: seq<u8>, at: nat, n: nat, i: nat)
    requires at + n <= |x| && i + 4 <= n
    ensures x[at + i..at + i + 4] == x[at..at + n][i..i + 4]
  {
    var a, b := x[at + i..at + i + 4], x[at..at + n][i..i + 4];
    assert |a| == |b| && forall j :: 0 <= j < 4 ==> a[j] == b[j];
  }

  // Where the words of the four inputs go.
  lemma LayoutEntries(input: seq<int>, k: seq<int>, c: seq<int>, i: nat)
    requires |input| == 16 && |k| == 32 && |c| == 16 && i < 4
    ensures var x := Layout(input, k, c);
            && x[5 * i] == Word(c, i) && x[1 + i] == Word(k, i)
            && x[6 + i] == Word(input, i) && x[11 + i] == Word(k, 4 + i)
  {
  }

  method LoadWord(w: nat, x: array<u8>, at: nat, ghost n: nat, i: nat) returns (u: word)
    requires IsWidth(w) && at + n <= x.Length && 4 * i + 4 <= n
    ensures u == Word(Slice(x, at, n), i) < TWO32
  {
    ghost var s := Slice(x, at, n)[4 * i..4 * i + 4];
    SubSlice(x[..], at, n, 4 * i);
    assert x[at + 4 * i..at + 4 * i + 4] == s;
    Ld32IsValue(w, s);
    u := Ld32(w, x[at + 4 * i..at + 4 * i + 4]);
  }

  method LoadState(w: nat, x: array<word>, input: array<u8>, inAt: nat, k: array<u8>, kAt: nat, c: array<u8>)
    requires IsWidth(w) && x.Length == 16
    requires inAt + 16 <= input.Length && kAt + 32 <= k.Length && c.Length == 16
    modifies x
    ensures x[..] == Layout(Slice(input, inAt, 16), Slice(k, kAt, 32), Slice(c, 0, 16))
    ensures forall i :: 0 <= i < 16 ==> x[i] < TWO32
  {
    ghost var si, sk, sc := Slice(input, inAt, 16), Slice(k, kAt, 32), Slice(c, 0, 16);
    forall i | 0 <= i < 4 ensures Placed(Layout(si, sk, sc), si, sk, sc, i) {
      LayoutEntries(si, sk, sc, i);
    }
    LoadRounds(w, x, input, inAt, k, kAt, c, Layout(si, sk, sc));
  }

  // The words of round i of the loading loop, in the state z.
  predicate Placed(z: State, input: seq<int>, k: seq<int>, c: seq<int>, i: nat)
    requires |input| == 16 && |k| == 32 && |c| == 16 && i < 4
  {
    && z[5 * i] == Word(c, i) && z[1 + i] == Word(k, i)
    && z[6 + i] == Word(input, i) && z[11 + i] == Word(k, 4 + i)
  }

  method LoadRounds(w: nat, x: array<word>, input: array<u8>, inAt: nat, k: array<u8>, kAt: nat, c: array<u8>,
                    ghost z: State)
    requires IsWidth(w) && x.Length == 16
    requires inAt + 16 <= input.Length && kAt + 32 <= k.Length && c.Length == 16
    requires forall i :: 0 <= i < 4 ==> Placed(z, Slice(input, inAt, 16), Slice(k, kAt, 32), Slice(c, 0, 16), i)
    modifies x
    ensures x[..] == z && forall i :: 0 <= i < 16 ==> x[i] < TWO32
  {
    ghost var si, sk, sc := Slice(input, inAt, 16), Slice(k, kAt, 32), Slice(c, 0, 16);
    for i := 0 to 4
      invariant forall j :: 0 <= j < i ==> Loaded(x[..], z, j)
    {
      ghost var s := x[..];
      assert Placed(z, si, sk, sc, i);
      var u := LoadWord(w, c, 0, 16, i);
      x[5 * i] := u;
      u := LoadWord(w, k, kAt, 32, i);
      x[1 + i] := u;
      u := LoadWord(w, input, inAt, 16, i);
      x[6 + i] := u;
      u := LoadWord(w, k, kAt, 32, 4 + i);
      x[11 + i] := u;
      LoadedStays(s, x[..], z, i);
    }
    AllLoaded(x[..], z);
  }

  // The four words of round i of the loading loop are in place.
  predicate Loaded(x: seq<int>, z: State, i: nat) {
    |x| == 16 && i < 4 && x[5 * i] == z[5 * i] < TWO32 && x[1 + i] == z[1 + i] < TWO32
    && x[6 + i] == z[6 + i] < TWO32 && x[11 + i] == z[11 + i] < TWO32
  }

  lemma LoadedStays(s: seq<int>, x: seq<int>, z: State, i: nat)
    requires |s| == |x| == 16 && i < 4 && Loaded(x, z, i)
    requires forall j :: 0 <= j < i ==> Loaded(s, z, j)
    requires forall k :: 0 <= k < 16 && k != 5 * i && k != 1 + i && k != 6 + i && k != 11 + i ==> x[k] == s[k]
    ensures forall j :: 0 <= j < i + 1 ==> Loaded(x, z, j)
  {
    forall j | 0 <= j < i ensures Loaded(x, z, j) {
      assert Loaded(s, z, j);
    }
  }

  lemma AllLoaded(x: seq<int>, z: State)
    requires forall j :: 0 <= j < 4 ==> Loaded(x, z, j)
    ensures x == z && forall i :: 0 <= i < 16 ==> x[i] < TWO32
  {
    assert Loaded(x, z, 0) && Loaded(x, z, 1) && Loaded(x, z, 2) && Loaded(x, z, 3);
  }

  // All twenty iterations.
  method Rounds(w: nat, x: array<word>)
    requires IsWidth(w) && x.Length == 16
    requires forall i :: 0 <= i < 16 ==> x[i] < TWO32
    modifies x
    ensures InWidth(w, x[..])
    ensures LoState(x[..]) == Repeat(SalsaRound, old(x[..]), 10)
  {
    var v, t := new word[16], new word[4];
    ghost var s := x[..];
    Pow2Values();
    assert LoState(s) == s;
    for i := 0 to 20
      invariant InWidth(w, x[..])
      invariant LoState(x[..]) == Repeat(CoreIteration, s, i)
    {
      Iteration(w, x, v, t);
    }
    TwentyIterations(s);
  }

  lemma {:induction false} SerializePrefix(words: seq<int>, v: int)
    ensures Serialize(words + [v]) == Serialize(words) + ToBytes(v, 4)
  {
    var n := |words|;
    forall i | 0 <= i < 4 * (n + 1)
      ensures Serialize(words + [v])[i] == (Serialize(words) + ToBytes(v, 4))[i]
    {
      if i >= 4 * n {
        assert i / 4 == n && i % 4 == i - 4 * n;
      }
    }
  }

  // Stores the sums of the words before and after the rounds.
  method StoreSums(w: nat, out: array<u8>, at: nat, x: array<word>, y: array<word>)
    requires IsWidth(w) && at + 64 <= out.Length && x.Length == y.Length == 16
    modifies out
    ensures out[at..at + 64] == Serialize(Sums(LoAll(y[..]), LoAll(x[..])))
    ensures forall k :: 0 <= k < out.Length && !(at <= k < at + 64) ==> out[k] == old(out[k])
  {
    ghost var z := Sums(LoAll(y[..]), LoAll(x[..]));
    for i := 0 to 16
      invariant out[at..at + 4 * i] == Serialize(z[..i])
      invariant forall k :: 0 <= k < out.Length && !(at <= k < at + 64) ==> out[k] == old(out[k])
    {
      SumLo(w, x[i], y[i]);
      assert z[i] == (Lo(y[..][i]) + Lo(x[..][i])) % TWO32;
      AppendWord(out, at, i, Wrap(w, AddWords(x[i], y[i])), z[..i]);
      assert z[..i + 1] == z[..i] + [z[i]];
    }
    assert z[..16] == z;
  }

  // st32 after i words that are already in place.
  method AppendWord(out: array<u8>, at: nat, i: nat, v: word, ghost words: seq<int>)
    requires at + 4 * i + 4 <= out.Length && |words| == i
    requires out[at..at + 4 * i] == Serialize(words)
    modifies out
    ensures out[at..at + 4 * (i + 1)] == Serialize(words + [Lo(v)])
    ensures forall k :: 0 <= k < out.Length && !(at + 4 * i <= k < at + 4 * i + 4) ==> out[k] == old(out[k])
  {
    ghost var before := out[at..at + 4 * i];
    St32(out, at + 4 * i, v);
    assert out[at..at + 4 * i] == before;
    assert out[at..at + 4 * (i + 1)] == before + out[at + 4 * i..at + 4 * i + 4];
    SerializePrefix(words, Lo(v));
  }

  // The plain finish of crypto_core_salsa20.
  method CoreSalsa20(w: nat, out: array<u8>, outAt: nat, input: array<u8>, inAt: nat,
                     k: array<u8>, kAt: nat, c: array<u8>)
    requires IsWidth(w) && outAt + 64 <= out.Length
    requires inAt + 16 <= input.Length && kAt + 32 <= k.Length && c.Length == 16
    modifies out
    ensures out[outAt..outAt + 64]
         == Salsa20Block(old(Slice(input, inAt, 16)), old(Slice(k, kAt, 32)), old(Slice(c, 0, 16)))
    ensures forall i :: 0 <= i < out.Length && !(outAt <= i < outAt + 64) ==> out[i] == old(out[i])
  {
    var x, y := new word[16], new word[16];
    LoadState(w, x, input, inAt, k, kAt, c);
    CopyWords(y, x);
    ghost var s := y[..];
    LoOfWords(s);
    Rounds(w, x);
    StoreSums(w, out, outAt, x, y);
  }

  lemma LoOfWords(s: seq<int>)
    requires forall i :: 0 <= i < |s| ==> 0 <= s[i] < TWO32
    ensures LoAll(s) == s
  {
  }

  // After a word is added and taken off again, the low bits are back.
  lemma AddThenSubtract(w: nat, x: word, y: word)
    ensures 0 <= Wrap(w, Wrap(w, AddWords(x, y)) - y) < Limit(w)
    ensures Lo(Wrap(w, Wrap(w, AddWords(x, y)) - y)) == Lo(x)
  {
    var sum := Wrap(w, AddWords(x, y));
    WrapLo(w, AddWords(x, y));
    WrapLo(w, sum - y);
    var q := AddWords(x, y) / TWO32;
    assert sum - y == TWO32 * (sum / TWO32 - q) + x;
    ModShift(x, TWO32, sum / TWO32 - q);
  }

  // The key words that HSalsa20 keeps: the diagonal and the input positions.
  function Diagonal(z: State): (d: seq<int>)
    ensures |d| == 4
  {
    [z[0], z[5], z[10], z[15]]
  }

  // Where the constants and the input were laid out.
  predicate FedAt(y: State, input: seq<int>, c: seq<int>, i: nat) {
    |input| == 16 && |c| == 16 && i < 4 && y[5 * i] == Word(c, i) && y[6 + i] == Word(input, i)
  }

  predicate KeptAt(x: State, z: State, i: nat) {
    i < 4 && Lo(x[5 * i]) == z[5 * i] && Lo(x[6 + i]) == z[6 + i]
  }

  // Adds the words before the rounds to those after them.
  method AddAll(w: nat, x: array<word>, y: array<word>)
    requires x != y && x.Length == y.Length == 16
    modifies x
    ensures forall j :: 0 <= j < 16 ==> x[j] == Wrap(w, AddWords(old(x[j]), y[j]))
  {
    ghost var s := x[..];
    for i := 0 to 16
      invariant forall j :: 0 <= j < i ==> x[j] == Wrap(w, AddWords(s[j], y[j]))
      invariant forall j :: i <= j < 16 ==> x[j] == s[j]
    {
      SumLo(w, x[i], y[i]);
      x[i] := Wrap(w, AddWords(x[i], y[i]));
    }
  }

  // Takes a word of the constants and one of the input off: both are as before the addition.
  method UnfeedRound(w: nat, x: array<word>, input: array<u8>, inAt: nat, c: array<u8>, i: nat,
                     ghost s: seq<word>, ghost t: seq<word>)
    requires IsWidth(w) && x.Length == |s| == |t| == 16 && i < 4
    requires inAt + 16 <= input.Length && c.Length == 16
    requires FedAt(t, Slice(input, inAt, 16), Slice(c, 0, 16), i)
    requires x[5 * i] == Wrap(w, AddWords(s[5 * i], t[5 * i]))
    requires x[6 + i] == Wrap(w, AddWords(s[6 + i], t[6 + i]))
    modifies x
    ensures KeptAt(x[..], LoState(s), i)
    ensures forall j :: 0 <= j < 16 && j != 5 * i && j != 6 + i ==> x[j] == old(x[j])
  {
    AddThenSubtract(w, s[5 * i], t[5 * i]);
    AddThenSubtract(w, s[6 + i], t[6 + i]);
    var u := LoadWord(w, c, 0, 16, i);
    var v := LoadWord(w, input, inAt, 16, i);
    var sum: int := x[5 * i];
    x[5 * i] := Wrap(w, sum - u);
    sum := x[6 + i];
    x[6 + i] := Wrap(w, sum - v);
  }

  method Unfeed(w: nat, x: array<word>, input: array<u8>, inAt: nat, c: array<u8>,
                ghost s: seq<word>, ghost t: seq<word>)
    requires IsWidth(w) && x.Length == |s| == |t| == 16
    requires inAt + 16 <= input.Length && c.Length == 16
    requires forall i :: 0 <= i < 4 ==> FedAt(t, Slice(input, inAt, 16), Slice(c, 0, 16), i)
    requires forall j :: 0 <= j < 16 ==> x[j] == Wrap(w, AddWords(s[j], t[j]))
    modifies x
    ensures forall i :: 0 <= i < 4 ==> KeptAt(x[..], LoState(s), i)
  {
    for i := 0 to 4
      invariant forall j :: 0 <= j < i ==> KeptAt(x[..], LoState(s), j)
      invariant forall j :: 0 <= j < 16 && (j % 5 != 0 || j >= 5 * i) && !(6 <= j < 6 + i) ==>
        x[j] == Wrap(w, AddWords(s[j], t[j]))
    {
      ghost var before := x[..];
      UnfeedRound(w, x, input, inAt, c, i, s, t);
      forall j | 0 <= j < i ensures KeptAt(x[..], LoState(s), j) {
        assert KeptAt(before, LoState(s), j);
      }
    }
  }

  lemma SerializeConcat(a: seq<int>, b: seq<int>)
    ensures Serialize(a + b) == Serialize(a) + Serialize(b)
  {
    var s, t := Serialize(a + b), Serialize(a) + Serialize(b);
    forall i | 0 <= i < 4 * (|a| + |b|) ensures s[i] == t[i] {
      if i >= 4 * |a| {
        assert (i - 4 * |a|) / 4 == i / 4 - |a| && (i - 4 * |a|) % 4 == i % 4;
      }
    }
  }

  // One turn of the storing loop.
  method StorePair(out: array<u8>, at: nat, i: nat, u: word, v: word, ghost a: seq<int>, ghost b: seq<int>)
    requires at + 32 <= out.Length && i < 4 && |a| == |b| == 4 && Lo(u) == a[i] && Lo(v) == b[i]
    requires out[at..at + 4 * i] == Serialize(a[..i]) && out[at + 16..at + 16 + 4 * i] == Serialize(b[..i])
    modifies out
    ensures out[at..at + 4 * (i + 1)] == Serialize(a[..i + 1])
    ensures out[at + 16..at + 16 + 4 * (i + 1)] == Serialize(b[..i + 1])
    ensures forall k :: 0 <= k < out.Length && !(at <= k < at + 32) ==> out[k] == old(out[k])
  {
    ghost var right := out[at + 16..at + 16 + 4 * i];
    AppendWord(out, at, i, u, a[..i]);
    assert a[..i + 1] == a[..i] + [a[i]];
    assert out[at + 16..at + 16 + 4 * i] == right;
    ghost var left := out[at..at + 4 * (i + 1)];
    AppendWord(out, at + 16, i, v, b[..i]);
    assert b[..i + 1] == b[..i] + [b[i]];
    assert out[at..at + 4 * (i + 1)] == left;
  }

  // Stores the diagonal and the words at the places of the input.
  method StoreKey(out: array<u8>, at: nat, x: array<word>)
    requires at + 32 <= out.Length && x.Length == 16
    modifies out
    ensures out[at..at + 32] == Serialize(Diagonal(LoState(x[..])) + LoState(x[..])[6..10])
    ensures forall k :: 0 <= k < out.Length && !(at <= k < at + 32) ==> out[k] == old(out[k])
  {
    ghost var a, b := Diagonal(LoState(x[..])), LoState(x[..])[6..10];
    for i := 0 to 4
      invariant out[at..at + 4 * i] == Serialize(a[..i])
      invariant out[at + 16..at + 16 + 4 * i] == Serialize(b[..i])
      invariant forall k :: 0 <= k < out.Length && !(at <= k < at + 32) ==> out[k] == old(out[k])
    {
      assert Lo(x[5 * i]) == LoAll(x[..])[5 * i] == a[i] && Lo(x[6 + i]) == LoAll(x[..])[6 + i] == b[i];
      StorePair(out, at, i, x[5 * i], x[6 + i], a, b);
    }
    assert a[..4] == a && b[..4] == b;
    assert out[at..at + 32] == out[at..at + 16] + out[at + 16..at + 32];
    SerializeConcat(a, b);
  }

  method FinishHsalsa20(w: nat, out: array<u8>, outAt: nat, x: array<word>, y: array<word>,
                        input: array<u8>, inAt: nat, c: array<u8>)
    requires IsWidth(w) && outAt + 32 <= out.Length && x != y && x.Length == y.Length == 16
    requires inAt + 16 <= input.Length && c.Length == 16
    requires forall i :: 0 <= i < 4 ==> FedAt(y[..], Slice(input, inAt, 16), Slice(c, 0, 16), i)
    modifies out, x
    ensures out[outAt..outAt + 32] == Serialize(Kept(old(LoState(x[..]))))
    ensures forall i :: 0 <= i < out.Length && !(outAt <= i < outAt + 32) ==> out[i] == old(out[i])
  {
    ghost var s, t := x[..], y[..];
    AddAll(w, x, y);
    Unfeed(w, x, input, inAt, c, s, t);
    KeptWords(LoState(s), x[..]);
    StoreKey(out, outAt, x);
  }

  // The finish of crypto_core_hsalsa20.
  method CoreHsalsa20(w: nat, out: array<u8>, outAt: nat, input: array<u8>, inAt: nat,
                      k: array<u8>, kAt: nat, c: array<u8>)
    requires IsWidth(w) && outAt + 32 <= out.Length
    requires inAt + 16 <= input.Length && kAt + 32 <= k.Length && c.Length == 16
    modifies out
    ensures out[outAt..outAt + 32]
         == HSalsa20(old(Slice(input, inAt, 16)), old(Slice(k, kAt, 32)), old(Slice(c, 0, 16)))
    ensures forall i :: 0 <= i < out.Length && !(outAt <= i < outAt + 32) ==> out[i] == old(out[i])
  {
    var x, y := new word[16], new word[16];
    LoadState(w, x, input, inAt, k, kAt, c);
    CopyWords(y, x);
    ghost var t := y[..];
    ghost var si, sk, sc := Slice(input, inAt, 16), Slice(k, kAt, 32), Slice(c, 0, 16);
    forall i | 0 <= i < 4 ensures FedAt(t, si, sc, i) {
      LayoutEntries(si, sk, sc, i);
    }
    LoOfWords(t);
    Rounds(w, x);
    FinishHsalsa20(w, out, outAt, x, y, input, inAt, c);
  }

  lemma KeptWords(z: State, x: State)
    requires forall i :: 0 <= i < 4 ==> KeptAt(x, z, i)
    ensures Diagonal(LoState(x)) + LoState(x)[6..10] == Kept(z)
  {
    assert KeptAt(x, z, 0) && KeptAt(x, z, 1) && KeptAt(x, z, 2) && KeptAt(x, z, 3);
  }
}
