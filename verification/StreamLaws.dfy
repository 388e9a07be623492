/** What fixes the functions of Salsa20 and Stream from outside: the byte layout of the expansion function,
    how the key of XSalsa20 comes out of an ordinary block, the shape of the rounds, and the values that
    sections 3 to 6 of the Salsa20 specification list. */
module StreamLaws {
  import opened Bits
  import opened Digits
  import opened Salsa20
  import opened Stream

  // ---- words and bytes ----

  lemma SerializedWord(words: seq<int>, i: nat)
    requires i < |words|
    ensures Word(Serialize(words), i) == words[i] % TWO32
  {
    var s := Serialize(words);
    var t := s[4 * i..4 * i + 4];
    forall b | 0 <= b < 4 ensures t[b] == ToBytes(words[i], 4)[b] {
      FourthPart(i, b);
    }
    assert t == ToBytes(words[i], 4);
    ValueOfBytes(words[i], 4);
    assert Pow(256, 4) == TWO32;
  }

  lemma FourthPart(i: nat, b: nat)
    requires b < 4
    ensures (4 * i + b) / 4 == i && (4 * i + b) % 4 == b
  {
  }

  lemma WordBytes(s: seq<int>, i: nat)
    requires 4 * i + 4 <= |s| && AreDigits(s, 256)
    ensures ToBytes(Word(s, i), 4) == s[4 * i..4 * i + 4]
  {
    BytesOfValue(s[4 * i..4 * i + 4]);
  }

  // Words are equal exactly when their bytes are.
  lemma SameWords(s: seq<int>, t: seq<int>)
    requires |s| == |t| && |s| % 4 == 0 && AreDigits(s, 256) && AreDigits(t, 256)
    requires forall i: nat :: 4 * i + 4 <= |s| ==> Word(s, i) == Word(t, i)
    ensures s == t
  {
    forall j | 0 <= j < |s| ensures s[j] == t[j] {
      var i := j / 4;
      WordBytes(s, i);
      WordBytes(t, i);
      assert s[4 * i..4 * i + 4][j - 4 * i] == s[j] && t[4 * i..4 * i + 4][j - 4 * i] == t[j];
    }
  }

  // ---- the derived key ----

  lemma SumTakenOff(x: int, z: int, m: int)
    requires m > 0
    ensures ((x + z) % m - x) % m == z % m
  {
    ModShift(z, m, -((x + z) / m));
    Negated(m, (x + z) / m);
  }

  lemma Negated(m: int, q: int)
    ensures m * -q == -(m * q)
  {
  }

  lemma BlockWord(x: State, z: State, i: nat)
    requires i < 16
    ensures (Word(Serialize(Sums(x, z)), i) - x[i]) % TWO32 == z[i] % TWO32
  {
    SerializedWord(Sums(x, z), i);
    Reduced(x[i] + z[i], TWO32);
    SumTakenOff(x[i], z[i], TWO32);
  }

  lemma Reduced(v: int, m: int)
    requires m > 0
    ensures v % m % m == v % m
  {
    ModUnique(v % m, m, 0, v % m);
  }

  // Word i of s is that of the block on the diagonal, less the constant; word 4 + i is that of the block where
  // the input was, less the input.
  predicate WordsFrom(s: seq<int>, block: seq<int>, input: seq<int>, c: seq<int>, i: nat)
    requires |s| == 32 && |block| == 64 && |input| == |c| == 16 && i < 4
  {
    && Word(s, i) == (Word(block, 5 * i) - Word(c, i)) % TWO32
    && Word(s, 4 + i) == (Word(block, 6 + i) - Word(input, i)) % TWO32
  }

  predicate ComesFrom(s: seq<int>, block: seq<int>, input: seq<int>, c: seq<int>)
    requires |s| == 32 && |block| == 64 && |input| == |c| == 16
  {
    forall i: nat :: i < 4 ==> WordsFrom(s, block, input, c, i)
  }

  lemma KeptFrom(x: State, z: State, input: seq<int>, k: seq<int>, c: seq<int>, i: nat)
    requires |input| == 16 && |k| == 32 && |c| == 16 && x == Layout(input, k, c) && i < 4
    ensures WordsFrom(Serialize(Kept(z)), Serialize(Sums(x, z)), input, c, i)
  {
    KeptPlaces(z, i);
    LayoutPlaces(input, k, c, i);
    KeptWord(x, z, i, 5 * i);
    KeptWord(x, z, 4 + i, 6 + i);
  }

  lemma KeptPlaces(z: State, i: nat)
    requires i < 4
    ensures 5 * i < 16 && Kept(z)[i] == z[5 * i] && Kept(z)[4 + i] == z[6 + i]
  {
  }

  lemma LayoutPlaces(input: seq<int>, k: seq<int>, c: seq<int>, i: nat)
    requires |input| == 16 && |k| == 32 && |c| == 16 && i < 4
    ensures Layout(input, k, c)[5 * i] == Word(c, i) && Layout(input, k, c)[6 + i] == Word(input, i)
    ensures Layout(input, k, c)[1 + i] == Word(k, i) && Layout(input, k, c)[11 + i] == Word(k, 4 + i)
  {
  }

  lemma KeptWord(x: State, z: State, i: nat, j: nat)
    requires i < 8 && j < 16 && Kept(z)[i] == z[j]
    ensures Word(Serialize(Kept(z)), i) == (Word(Serialize(Sums(x, z)), j) - x[j]) % TWO32
  {
    SerializedWord(Kept(z), i);
    BlockWord(x, z, j);
  }

  /** HSalsa20 can be read off a block that Salsa20 gives for the same input. */
  lemma DerivedFromBlock(input: seq<int>, k: seq<int>, c: seq<int>)
    requires |input| == 16 && |k| == 32 && |c| == 16
    ensures ComesFrom(HSalsa20(input, k, c), Salsa20Block(input, k, c), input, c)
  {
    var x := Layout(input, k, c);
    forall i: nat | i < 4 ensures WordsFrom(HSalsa20(input, k, c), Salsa20Block(input, k, c), input, c, i) {
      KeptFrom(x, Repeat(SalsaRound, x, 10), input, k, c, i);
    }
  }

  // The streams of all nonces that begin with p are those of Salsa20 under the key s.
  ghost predicate KeyFor(s: seq<int>, p: seq<int>, k: seq<int>)
    requires |s| == 32 && |p| == 16 && |k| == 32
  {
    forall t: seq<int> {:trigger Salsa20Stream(t, s)} :: |t| == 8 ==> XSalsa20Stream(p + t, k) == Salsa20Stream(t, s)
  }

  /** The first sixteen bytes of a nonce select one key, which comes from the block of Salsa20 for them; the
      other eight are the nonce under that key. */
  lemma PrefixSelectsKey(p: seq<int>, k: seq<int>)
    requires |p| == 16 && |k| == 32
    ensures exists s: seq<int> ::
      |s| == 32 && AreDigits(s, 256) && ComesFrom(s, Salsa20Block(p, k, Sigma()), p, Sigma()) && KeyFor(s, p, k)
  {
    var s := HSalsa20(p, k, Sigma());
    DerivedFromBlock(p, k, Sigma());
    forall t: seq<int> | |t| == 8 ensures XSalsa20Stream(p + t, k) == Salsa20Stream(t, s) {
      assert (p + t)[..16] == p && (p + t)[16..] == t;
    }
    assert KeyFor(s, p, k);
  }

  // There is no other such key.
  lemma KeyIsUnique(s: seq<int>, t: seq<int>, block: seq<int>, p: seq<int>, c: seq<int>)
    requires |s| == |t| == 32 && |block| == 64 && |p| == |c| == 16 && AreDigits(s, 256) && AreDigits(t, 256)
    requires ComesFrom(s, block, p, c) && ComesFrom(t, block, p, c)
    ensures s == t
  {
    forall i: nat | 4 * i + 4 <= 32 ensures Word(s, i) == Word(t, i) {
      var j := if i < 4 then i else i - 4;
      assert WordsFrom(s, block, p, c, j) && WordsFrom(t, block, p, c, j);
    }
    SameWords(s, t);
  }

  // ---- the expansion function and the stream ----

  function Words(s: seq<int>): (x: State)
    requires |s| == 64
  {
    seq(16, i requires 0 <= i < 16 => Word(s, i))
  }

  // Section 6 of the Salsa20 specification.
  function Doubled(x: State): State {
    RowRound(Quarter, ColumnRound(Quarter, x))
  }

  lemma {:induction false} RepeatAlike(f: State -> State, g: State -> State, x: State, n: nat)
    requires forall y :: f(y) == g(y)
    ensures Repeat(f, x, n) == Repeat(g, x, n)
  {
    if n > 0 {
      RepeatAlike(f, g, x, n - 1);
    }
  }

  lemma RepeatDoubled(x: State, n: nat)
    ensures Repeat(SalsaRound, x, n) == Repeat(Doubled, x, n)
  {
    RepeatAlike(SalsaRound, Doubled, x, n);
  }

  // The hash of section 8, on 64 bytes.
  function Hash(s: seq<int>): (h: seq<int>)
    requires |s| == 64
    ensures |h| == 64
  {
    Serialize(Sums(Words(s), Repeat(Doubled, Words(s), 10)))
  }

  function Chars(s: string): seq<int> {
    seq(|s|, i requires 0 <= i < |s| => s[i] as int)
  }

  /** The constants are the text of section 9 of the Salsa20 specification. */
  lemma SigmaText()
    ensures Sigma() == Chars("expand 32-byte k")
  {
  }

  // Words of a part of s.
  lemma WordAt(s: seq<int>, a: nat, t: seq<int>, j: nat)
    requires 4 * a + |t| <= |s| && s[4 * a..4 * a + |t|] == t && 4 * j + 4 <= |t|
    ensures Word(s, a + j) == Word(t, j)
  {
    InnerSlice(s, 4 * a, |t|, 4 * j, 4);
  }

  lemma InnerSlice(s: seq<int>, at: nat, n: nat, i: nat, k: nat)
    requires at + n <= |s| && i + k <= n
    ensures s[at + i..at + i + k] == s[at..at + n][i..i + k]
  {
    var u, v := s[at + i..at + i + k], s[at..at + n][i..i + k];
    assert |u| == |v| && forall m :: 0 <= m < k ==> u[m] == v[m];
  }

  // The sixty-four bytes that are hashed.
  function Expanded(input: seq<int>, k: seq<int>, c: seq<int>): (s: seq<int>)
    requires |input| == 16 && |k| == 32 && |c| == 16
    ensures |s| == 64
  {
    c[..4] + k[..16] + c[4..8] + input + c[8..12] + k[16..] + c[12..]
  }

  lemma ExpandedEntries(input: seq<int>, k: seq<int>, c: seq<int>)
    requires |input| == 16 && |k| == 32 && |c| == 16
    ensures var s := Expanded(input, k, c);
            && s[..4] == c[..4] && s[4..20] == k[..16] && s[20..24] == c[4..8] && s[24..40] == input
            && s[40..44] == c[8..12] && s[44..60] == k[16..] && s[60..64] == c[12..]
  {
  }

  lemma ExpandedConstant(input: seq<int>, k: seq<int>, c: seq<int>, i: nat)
    requires |input| == 16 && |k| == 32 && |c| == 16 && i < 4
    ensures Word(Expanded(input, k, c), 5 * i) == Word(c, i)
  {
    var s := Expanded(input, k, c);
    var t := if i == 0 then c[..4] else if i == 1 then c[4..8] else if i == 2 then c[8..12] else c[12..];
    ExpandedEntries(input, k, c);
    WordAt(s, 5 * i, t, 0);
    WordAt(c, i, t, 0);
  }

  lemma ExpandedKey(input: seq<int>, k: seq<int>, c: seq<int>, i: nat)
    requires |input| == 16 && |k| == 32 && |c| == 16 && i < 4
    ensures Word(Expanded(input, k, c), 1 + i) == Word(k, i)
    ensures Word(Expanded(input, k, c), 6 + i) == Word(input, i)
    ensures Word(Expanded(input, k, c), 11 + i) == Word(k, 4 + i)
  {
    ExpandedEntries(input, k, c);
    var s := Expanded(input, k, c);
    WordAt(s, 1, k[..16], i);
    WordAt(k, 0, k[..16], i);
    WordAt(s, 6, input, i);
    WordAt(s, 11, k[16..], i);
    WordAt(k, 4, k[16..], i);
  }

  predicate QuarterAgrees(s: seq<int>, x: State, j: nat)
    requires |s| == 64 && j < 4
  {
    && Word(s, 5 * j) == x[5 * j] && Word(s, 1 + j) == x[1 + j]
    && Word(s, 6 + j) == x[6 + j] && Word(s, 11 + j) == x[11 + j]
  }

  lemma AllWords(s: seq<int>, x: State)
    requires |s| == 64 && forall j: nat :: j < 4 ==> QuarterAgrees(s, x, j)
    ensures Words(s) == x
  {
    forall i: nat | i < 16 ensures Word(s, i) == x[i] {
      assert QuarterAgrees(s, x, if i % 5 == 0 then i / 5 else i % 5 - 1);
    }
  }

  /** Section 9: constants, key and input are hashed in this order. */
  lemma BlockHashes(input: seq<int>, k: seq<int>, c: seq<int>)
    requires |input| == 16 && |k| == 32 && |c| == 16
    ensures Salsa20Block(input, k, c) == Hash(Expanded(input, k, c))
  {
    forall j: nat | j < 4 ensures QuarterAgrees(Expanded(input, k, c), Layout(input, k, c), j) {
      LayoutPlaces(input, k, c, j);
      ExpandedConstant(input, k, c, j);
      ExpandedKey(input, k, c, j);
    }
    AllWords(Expanded(input, k, c), Layout(input, k, c));
    RepeatDoubled(Layout(input, k, c), 10);
  }

  lemma StreamByte(nonce: seq<int>, k: seq<int>, i: nat, j: nat)
    requires |nonce| == 8 && |k| == 32 && j < 64
    ensures Salsa20Stream(nonce, k)(64 * i + j) == Salsa20Block(nonce + ToBytes(i, 8), k, Sigma())[j]
  {
    var counter := ToBytes(i, 8);
    assert (nonce + counter)[..8] == nonce && (nonce + counter)[8..16] == counter;
    StreamBlock(nonce, k, i, nonce + counter);
  }

  /** Section 10: byte j of block i of the stream. */
  lemma StreamHashes(nonce: seq<int>, k: seq<int>, i: nat, j: nat)
    requires |nonce| == 8 && |k| == 32 && j < 64
    ensures Salsa20Stream(nonce, k)(64 * i + j) == Hash(
              Chars("expa") + k[..16] + Chars("nd 3") + nonce + ToBytes(i, 8) + Chars("2-by") + k[16..]
            + Chars("te k"))[j]
  {
    StreamByte(nonce, k, i, j);
    BlockHashes(nonce + ToBytes(i, 8), k, Sigma());
    ExpandedParts(nonce, ToBytes(i, 8), k);
  }

  lemma SigmaParts()
    ensures Sigma()[..4] == Chars("expa") && Sigma()[4..8] == Chars("nd 3")
    ensures Sigma()[8..12] == Chars("2-by") && Sigma()[12..] == Chars("te k")
  {
  }

  lemma ExpandedParts(nonce: seq<int>, counter: seq<int>, k: seq<int>)
    requires |nonce| == |counter| == 8 && |k| == 32
    ensures Expanded(nonce + counter, k, Sigma()) ==
            Chars("expa") + k[..16] + Chars("nd 3") + nonce + counter + Chars("2-by") + k[16..] + Chars("te k")
  {
    SigmaParts();
    Regroup(Chars("expa") + k[..16] + Chars("nd 3"), nonce, counter);
  }

  lemma Regroup(a: seq<int>, b: seq<int>, c: seq<int>)
    ensures a + (b + c) == a + b + c
  {
  }

  // ---- the rounds ----

  /** Section 4: row i of a rowround is the quarterround of row i, both begun at place i. */
  lemma RowLaw(q: Four -> Four, y: State, i: nat, j: nat)
    requires i < 4 && j < 4
    ensures RowRound(q, y)[4 * i + (i + j) % 4]
         == q([y[4 * i + i], y[4 * i + (i + 1) % 4], y[4 * i + (i + 2) % 4], y[4 * i + (i + 3) % 4]])[j]
  {
  }

  function Transposed(x: State): State {
    seq(16, i requires 0 <= i < 16 => x[4 * (i % 4) + i / 4])
  }

  /** Section 5: a columnround is a rowround of the transposed state. */
  lemma ColumnLaw(q: Four -> Four, x: State)
    ensures Transposed(ColumnRound(q, x)) == RowRound(q, Transposed(x))
  {
  }

  // A rotation to the left, as a product.
  lemma RotateValue(x: int, c: nat, p: int, q: int)
    requires c <= 32 && Pow2(c) == p && Pow2(32 - c) == q
    ensures Rotate(x, c) == x * p % TWO32 + x / q
  {
    ShlMultiplies(x, c);
    ShrDivides(x, 32 - c);
  }

  // The sum of y and z, turned by c places, is v: steps on 0 and on 1.
  predicate Turned(y: nat, z: nat, c: nat, v: int) {
    c <= 32 && Rotate((y + z) % TWO32, c) == v
  }

  lemma Turn(y: nat, z: nat, c: nat, p: int, q: int, v: int)
    requires c <= 32 && Pow2(c) == p && Pow2(32 - c) == q && y + z < TWO32
    requires v == (y + z) * p % TWO32 + (y + z) / q
    ensures Turned(y, z, c, v)
  {
    ModUnique(y + z, TWO32, 0, y + z);
    RotateValue(y + z, c, p, q);
  }

  lemma StepOnZero(y: nat, z: nat, c: nat, p: int, q: int, v: int)
    requires c <= 32 && Pow2(c) == p && Pow2(32 - c) == q && y + z < TWO32
    requires v == (y + z) * p % TWO32 + (y + z) / q
    ensures QuarterStep(0, y, z, c) == v
  {
    Turn(y, z, c, p, q, v);
    XorZero(v);
  }

  lemma StepOnOne(y: nat, z: nat, c: nat, p: int, q: int, h: nat)
    requires c <= 32 && Pow2(c) == p && Pow2(32 - c) == q && y + z < TWO32
    requires 2 * h == (y + z) * p % TWO32 + (y + z) / q
    ensures QuarterStep(1, y, z, c) == 1 + 2 * h
  {
    Turn(y, z, c, p, q, 2 * h);
    XorOne(h);
  }

  lemma XorOne(h: nat)
    ensures Xor(1, 2 * h) == 1 + 2 * h
  {
    XorDouble(0, h, 1, 0);
    XorZero(h);
  }

  lemma Powers()
    ensures Pow2(7) == 0x80 && Pow2(25) == 0x2000000 && Pow2(9) == 0x200 && Pow2(23) == 0x800000
    ensures Pow2(13) == 0x2000 && Pow2(19) == 0x80000 && Pow2(18) == 0x40000 && Pow2(14) == 0x4000
  {
    assert Pow2(1) == 2 && Pow2(2) == 4 && Pow2(4) == 16;
    Pow2Values();
    Pow2Add(7, 2);
    Pow2Add(7, 7);
    Pow2Add(9, 4);
    Pow2Add(9, 9);
    Pow2Add(18, 1);
    Pow2Add(18, 7);
    Pow2Add(14, 9);
  }

  lemma QuarterOf(a: int, b: int, c: int, d: int, z0: int, z1: int, z2: int, z3: int)
    requires z1 == QuarterStep(b, a, d, 7) && z2 == QuarterStep(c, z1, a, 9)
    requires z3 == QuarterStep(d, z2, z1, 13) && z0 == QuarterStep(a, z3, z2, 18)
    ensures Quarter([a, b, c, d]) == [z0, z1, z2, z3]
  {
  }

  /** Values of the quarterround that section 3 lists. */
  lemma FirstQuarter()
    ensures Quarter([1, 0, 0, 0]) == [0x08008145, 0x00000080, 0x00010200, 0x20500000]
  {
    Powers();
    StepOnZero(1, 0, 7, 0x80, 0x2000000, 0x80);
    StepOnZero(0x80, 1, 9, 0x200, 0x800000, 0x10200);
    StepOnZero(0x10200, 0x80, 13, 0x2000, 0x80000, 0x20500000);
    StepOnOne(0x20500000, 0x10200, 18, 0x40000, 0x4000, 0x040040a2);
    QuarterOf(1, 0, 0, 0, 0x08008145, 0x00000080, 0x00010200, 0x20500000);
  }

  lemma SecondQuarter()
    ensures Quarter([0, 1, 0, 0]) == [0x88000100, 0x00000001, 0x00000200, 0x00402000]
  {
    Powers();
    StepOnOne(0, 0, 7, 0x80, 0x2000000, 0);
    StepOnZero(1, 0, 9, 0x200, 0x800000, 0x200);
    StepOnZero(0x200, 1, 13, 0x2000, 0x80000, 0x402000);
    StepOnZero(0x402000, 0x200, 18, 0x40000, 0x4000, 0x88000100);
    QuarterOf(0, 1, 0, 0, 0x88000100, 0x00000001, 0x00000200, 0x00402000);
  }

  lemma StepsOnNothing()
    ensures QuarterStep(0, 0, 0, 7) == 0 && QuarterStep(1, 0, 0, 9) == 1
  {
    Powers();
    StepOnZero(0, 0, 7, 0x80, 0x2000000, 0);
    StepOnOne(0, 0, 9, 0x200, 0x800000, 0);
  }

  lemma ThirdQuarter()
    ensures Quarter([0, 0, 1, 0]) == [0x80040000, 0x00000000, 0x00000001, 0x00002000]
  {
    Powers();
    StepsOnNothing();
    StepOnZero(1, 0, 13, 0x2000, 0x80000, 0x2000);
    StepOnZero(0x2000, 1, 18, 0x40000, 0x4000, 0x80040000);
    QuarterOf(0, 0, 1, 0, 0x80040000, 0x00000000, 0x00000001, 0x00002000);
  }

  lemma FourthSteps()
    ensures QuarterStep(0, 0, 1, 7) == 0x80 && QuarterStep(0, 0x80, 0, 9) == 0x10000
  {
    Powers();
    StepOnZero(0, 1, 7, 0x80, 0x2000000, 0x80);
    StepOnZero(0x80, 0, 9, 0x200, 0x800000, 0x10000);
  }

  lemma FourthQuarter()
    ensures Quarter([0, 0, 0, 1]) == [0x00048044, 0x00000080, 0x00010000, 0x20100001]
  {
    FourthSteps();
    Powers();
    StepOnOne(0x10000, 0x80, 13, 0x2000, 0x80000, 0x10080000);
    StepOnZero(0x20100001, 0x10000, 18, 0x40000, 0x4000, 0x48044);
    QuarterOf(0, 0, 0, 1, 0x00048044, 0x00000080, 0x00010000, 0x20100001);
  }
}
