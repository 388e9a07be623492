/** The delimiters of a variable path, collected one kind at a time and then sorted, in
    src/sp_var_parser.c. */
module VarTokens {
  import opened LinkedList

  datatype Kind = Undefined | Object | Array | ArrayEnd | Interpreted | Literal | Class | Var | Constant

  datatype Token = Token(kind: Kind, pos: nat)

  const DELIMITERS: seq<Kind> := [Object, Array, ArrayEnd, Interpreted, Literal, Class]

  predicate IsDelimiter(kind: Kind) {
    match kind
    case Undefined => false
    case Var => false
    case Constant => false
    case _ => true
  }

  predicate AllDelimiters(kinds: seq<Kind>) {
    forall i :: 0 <= i < |kinds| ==> IsDelimiter(kinds[i])
  }

  const INT_MAX: nat := 0x7fff_ffff

  function Repr(kind: Kind): (r: string)
    ensures IsDelimiter(kind) ==> r != []
  {
    match kind
    case Object => "->"
    case Array => "["
    case ArrayEnd => "]"
    case Interpreted => "\""
    case Literal => "'"
    case Class => "::"
    case _ => ""
  }

  predicate Matches(line: string, i: nat, kind: Kind) {
    i + |Repr(kind)| <= |line| && line[i..i + |Repr(kind)|] == Repr(kind)
  }

  // The occurrences of one delimiter from position i on, without overlaps.
  function Occurrences(line: string, kind: Kind, i: nat): seq<Token>
    requires IsDelimiter(kind)
    decreases |line| - i
  {
    if i >= |line| then []
    else if Matches(line, i, kind) then [Token(kind, i)] + Occurrences(line, kind, i + |Repr(kind)|)
    else Occurrences(line, kind, i + 1)
  }

  function Collected(line: string, kinds: seq<Kind>): seq<Token>
    requires AllDelimiters(kinds)
  {
    if kinds == [] then [] else Occurrences(line, kinds[0], 0) + Collected(line, kinds[1..])
  }

  // ---- one pass over the line ----

  // The first of these delimiters that occurs at i.
  function DelimiterAt(line: string, i: nat, kinds: seq<Kind>): (kind: Kind)
    requires AllDelimiters(kinds)
    ensures kind != Undefined ==> IsDelimiter(kind) && Matches(line, i, kind)
  {
    if kinds == [] then Undefined
    else if Matches(line, i, kinds[0]) then kinds[0]
    else DelimiterAt(line, i, kinds[1..])
  }

  lemma {:induction false} NoneMatches(line: string, i: nat, kinds: seq<Kind>, k: Kind)
    requires AllDelimiters(kinds) && k in kinds && DelimiterAt(line, i, kinds) == Undefined
    ensures !Matches(line, i, k)
  {
    if k != kinds[0] {
      NoneMatches(line, i, kinds[1..], k);
    }
  }

  function LexAll(line: string, kinds: seq<Kind>, i: nat): seq<Token>
    requires AllDelimiters(kinds)
    decreases |line| - i
  {
    if i >= |line| then []
    else
      var kind := DelimiterAt(line, i, kinds);
      if kind == Undefined then LexAll(line, kinds, i + 1)
      else [Token(kind, i)] + LexAll(line, kinds, i + |Repr(kind)|)
  }

  function Lex(line: string): seq<Token> {
    LexAll(line, DELIMITERS, 0)
  }

  // Inside the line from position i on, and one behind the other.
  predicate Located(line: string, i: nat, tokens: seq<Token>)
    decreases |tokens|
  {
    if tokens == [] then i <= |line|
    else
      var t := tokens[0];
      && IsDelimiter(t.kind) && i <= t.pos && Matches(line, t.pos, t.kind)
      && Located(line, t.pos + |Repr(t.kind)|, tokens[1..])
  }

  // Where the pass goes on after position i.
  function LexEnd(line: string, kinds: seq<Kind>, i: nat): (end: nat)
    requires i < |line| && AllDelimiters(kinds)
    ensures i < end <= |line|
  {
    var kind := DelimiterAt(line, i, kinds);
    if kind == Undefined then i + 1 else i + |Repr(kind)|
  }

  lemma {:induction false} LexLocated(line: string, kinds: seq<Kind>, i: nat)
    requires i <= |line| && AllDelimiters(kinds)
    ensures Located(line, i, LexAll(line, kinds, i))
    decreases |line| - i
  {
    if i < |line| {
      LexLocated(line, kinds, LexEnd(line, kinds, i));
      StepLocated(line, kinds, i);
    }
  }

  lemma StepLocated(line: string, kinds: seq<Kind>, i: nat)
    requires i < |line| && AllDelimiters(kinds)
    requires var end := LexEnd(line, kinds, i); Located(line, end, LexAll(line, kinds, end))
    ensures Located(line, i, LexAll(line, kinds, i))
  {
    var kind, end := DelimiterAt(line, i, kinds), LexEnd(line, kinds, i);
    if kind == Undefined {
      LocatedEarlier(line, i, LexAll(line, kinds, end));
    } else {
      LocatedFirst(line, i, Token(kind, i), LexAll(line, kinds, end));
    }
  }

  lemma LocatedEarlier(line: string, i: nat, tokens: seq<Token>)
    requires Located(line, i + 1, tokens)
    ensures Located(line, i, tokens)
  {
  }

  lemma LocatedFirst(line: string, i: nat, t: Token, rest: seq<Token>)
    requires IsDelimiter(t.kind) && i <= t.pos && Matches(line, t.pos, t.kind)
    requires Located(line, t.pos + |Repr(t.kind)|, rest)
    ensures Located(line, i, [t] + rest)
  {
    assert ([t] + rest)[1..] == rest;
  }

  // ---- collecting and sorting gives the single pass ----

  function Only(kind: Kind, tokens: seq<Token>): seq<Token> {
    if tokens == [] then []
    else (if tokens[0].kind == kind then [tokens[0]] else []) + Only(kind, tokens[1..])
  }

  function Grouped(kinds: seq<Kind>, tokens: seq<Token>): seq<Token> {
    if kinds == [] then [] else Only(kinds[0], tokens) + Grouped(kinds[1..], tokens)
  }

  lemma MatchedCharacters(line: string, i: nat, kind: Kind)
    ensures Matches(line, i, kind) ==> forall j :: 0 <= j < |Repr(kind)| ==> line[i + j] == Repr(kind)[j]
  {
    if Matches(line, i, kind) {
      var u := line[i..i + |Repr(kind)|];
      assert forall j :: 0 <= j < |Repr(kind)| ==> line[i + j] == u[j];
    }
  }

  // Different delimiters have no character in common.
  lemma Disjoint(line: string, i: nat, a: Kind, b: Kind)
    requires IsDelimiter(a) && IsDelimiter(b) && a != b && Matches(line, i, a)
    ensures !Matches(line, i, b) && (|Repr(a)| == 2 ==> !Matches(line, i + 1, b))
  {
    FirstCharacter(line, i, b);
    FirstCharacter(line, i + 1, b);
    MatchedCharacters(line, i, a);
    assert line[i + 0] == Repr(a)[0] && (|Repr(a)| == 2 ==> line[i + 1] == Repr(a)[1]);
  }

  lemma FirstCharacter(line: string, i: nat, kind: Kind)
    requires IsDelimiter(kind)
    ensures Matches(line, i, kind) ==> line[i] == Repr(kind)[0]
  {
    MatchedCharacters(line, i, kind);
    assert Matches(line, i, kind) ==> line[i + 0] == Repr(kind)[0];
  }

  lemma OnlyFirst(kind: Kind, t: Token, rest: seq<Token>)
    ensures Only(kind, [t] + rest) == (if t.kind == kind then [t] else []) + Only(kind, rest)
  {
    assert ([t] + rest)[1..] == rest;
  }

  lemma {:induction false} OccurrencesOfLex(line: string, kinds: seq<Kind>, kind: Kind, i: nat, tokens: seq<Token>)
    requires kind in kinds && AllDelimiters(kinds) && tokens == LexAll(line, kinds, i)
    ensures Occurrences(line, kind, i) == Only(kind, tokens)
    decreases |line| - i
  {
    if i < |line| {
      var d := DelimiterAt(line, i, kinds);
      if d == Undefined {
        OccurrencesSkip(line, kinds, kind, i);
        OccurrencesOfLex(line, kinds, kind, i + 1, tokens);
      } else {
        var rest := LexAll(line, kinds, i + |Repr(d)|);
        assert tokens == [Token(d, i)] + rest;
        OccurrencesOfLex(line, kinds, kind, i + |Repr(d)|, rest);
        OccurrencesNext(line, kind, i, d, rest);
      }
    }
  }

  lemma OccurrencesSkip(line: string, kinds: seq<Kind>, kind: Kind, i: nat)
    requires kind in kinds && AllDelimiters(kinds) && i < |line| && DelimiterAt(line, i, kinds) == Undefined
    ensures Occurrences(line, kind, i) == Occurrences(line, kind, i + 1)
    ensures LexAll(line, kinds, i) == LexAll(line, kinds, i + 1)
  {
    NoneMatches(line, i, kinds, kind);
  }

  lemma OccurrencesNext(line: string, kind: Kind, i: nat, d: Kind, rest: seq<Token>)
    requires IsDelimiter(kind) && IsDelimiter(d) && Matches(line, i, d)
    requires Occurrences(line, kind, i + |Repr(d)|) == Only(kind, rest)
    ensures Occurrences(line, kind, i) == Only(kind, [Token(d, i)] + rest)
  {
    OnlyFirst(kind, Token(d, i), rest);
    OccurrencesAt(line, kind, i, d);
  }

  lemma OccurrencesAt(line: string, kind: Kind, i: nat, d: Kind)
    requires IsDelimiter(kind) && IsDelimiter(d) && Matches(line, i, d)
    ensures Occurrences(line, kind, i) ==
            (if d == kind then [Token(d, i)] else []) + Occurrences(line, kind, i + |Repr(d)|)
  {
    if d != kind {
      OtherDelimiter(line, i, d, kind);
    }
  }

  // Another delimiter is passed over.
  lemma OtherDelimiter(line: string, i: nat, d: Kind, kind: Kind)
    requires IsDelimiter(d) && IsDelimiter(kind) && d != kind && Matches(line, i, d)
    ensures Occurrences(line, kind, i) == Occurrences(line, kind, i + |Repr(d)|)
  {
    Disjoint(line, i, d, kind);
    assert |Repr(d)| == 1 || |Repr(d)| == 2;
    assert Occurrences(line, kind, i) == Occurrences(line, kind, i + 1);
  }

  lemma {:induction false} CollectedOfLex(line: string, kinds: seq<Kind>, some: seq<Kind>)
    requires (forall k :: k in some ==> k in kinds) && AllDelimiters(kinds) && AllDelimiters(some)
    ensures Collected(line, some) == Grouped(some, LexAll(line, kinds, 0))
  {
    if some == [] {
    } else {
      OccurrencesOfLex(line, kinds, some[0], 0, LexAll(line, kinds, 0));
      CollectedOfLex(line, kinds, some[1..]);
    }
  }

  // How often x is in the groups: as often as in the whole, when its kind is among them.
  lemma {:induction false} OnlyCount(kind: Kind, tokens: seq<Token>, x: Token)
    ensures multiset(Only(kind, tokens))[x] == if x.kind == kind then multiset(tokens)[x] else 0
  {
    if tokens == [] {
    } else {
      OnlyCount(kind, tokens[1..], x);
      assert tokens == [tokens[0]] + tokens[1..];
    }
  }

  lemma {:induction false} GroupedCount(kinds: seq<Kind>, tokens: seq<Token>, x: Token)
    requires Distinct(kinds)
    ensures multiset(Grouped(kinds, tokens))[x] == if x.kind in kinds then multiset(tokens)[x] else 0
  {
    if kinds == [] {
    } else {
      OnlyCount(kinds[0], tokens, x);
      GroupedCount(kinds[1..], tokens, x);
    }
  }

  // cmp_tokens, in unlimited integers.
  const BY_POSITION: (Token, Token) -> int := (a: Token, b: Token) => a.pos - b.pos

  // cmp_tokens: the difference of two sizes, returned as an int.
  const COMPARE: (Token, Token) -> int := (a: Token, b: Token) => Truncated(a.pos - b.pos)

  function Truncated(x: int): int {
    var m := x % 0x1_0000_0000;
    if m <= INT_MAX then m else m - 0x1_0000_0000
  }

  /** An `int` has 32 bits, and keeps the low ones. */
  lemma TruncatedIs(x: int)
    ensures -0x8000_0000 <= Truncated(x) < 0x8000_0000 && (x - Truncated(x)) % 0x1_0000_0000 == 0
  {
  }

  lemma {:induction false} InsertAgrees<T>(cmp: (T, T) -> int, cmp': (T, T) -> int, x: T, s: seq<T>)
    requires forall y :: y in s ==> cmp(x, y) == cmp'(x, y)
    ensures Insert(cmp, x, s) == Insert(cmp', x, s)
  {
    if s == [] {
    } else {
      InsertAgrees(cmp, cmp', x, s[1..]);
    }
  }

  lemma {:induction false} InsertAllAgrees<T>(cmp: (T, T) -> int, cmp': (T, T) -> int, s: seq<T>, rest: seq<T>)
    requires forall x, y :: x in s + rest && y in s + rest ==> cmp(x, y) == cmp'(x, y)
    ensures InsertAll(cmp, s, rest) == InsertAll(cmp', s, rest)
    decreases |rest|
  {
    if rest == [] {
    } else {
      InsertAgrees(cmp, cmp', rest[0], s);
      InsertMembers(cmp, rest[0], s);
      InsertAllAgrees(cmp, cmp', Insert(cmp, rest[0], s), rest[1..]);
    }
  }

  predicate Increasing(i: nat, tokens: seq<Token>) {
    forall j :: 0 <= j < |tokens| ==>
      i <= tokens[j].pos && forall k :: j < k < |tokens| ==> tokens[j].pos < tokens[k].pos
  }

  lemma {:induction false} LocatedIncreases(line: string, i: nat, tokens: seq<Token>)
    requires Located(line, i, tokens)
    ensures Increasing(i, tokens)
    ensures forall t :: t in tokens ==> IsDelimiter(t.kind) && Matches(line, t.pos, t.kind)
    decreases |tokens|
  {
    if tokens == [] {
    } else {
      LocatedIncreases(line, tokens[0].pos + |Repr(tokens[0].kind)|, tokens[1..]);
      assert tokens == [tokens[0]] + tokens[1..];
    }
  }

  lemma LexIncreases(line: string, kinds: seq<Kind>)
    requires AllDelimiters(kinds)
    ensures var tokens := LexAll(line, kinds, 0);
            Increasing(0, tokens) && forall t :: t in tokens ==> IsDelimiter(t.kind) && Matches(line, t.pos, t.kind)
  {
    LexLocated(line, kinds, 0);
    LocatedIncreases(line, 0, LexAll(line, kinds, 0));
  }

  // Both begin with the token at the smallest position.
  lemma SameFirst(s: seq<Token>, i: nat, tokens: seq<Token>)
    requires IsSorted(BY_POSITION, s) && Increasing(i, tokens) && multiset(s) == multiset(tokens) && tokens != []
    ensures s != [] && s[0] == tokens[0]
  {
    assert tokens[0] in multiset(s);
    var k :| 0 <= k < |s| && s[k] == tokens[0];
    assert s[0] in multiset(tokens);
    assert s[0].pos <= s[k].pos;
  }

  // A sorted arrangement of tokens at different positions is unique.
  lemma {:induction false} SortedUnique(s: seq<Token>, i: nat, tokens: seq<Token>)
    requires IsSorted(BY_POSITION, s) && Increasing(i, tokens) && multiset(s) == multiset(tokens)
    ensures s == tokens
  {
    assert |multiset(s)| == |s| && |multiset(tokens)| == |tokens|;
    if tokens != [] {
      SameFirst(s, i, tokens);
      RestOf(s);
      RestOf(tokens);
      SortedRest(s, i, tokens);
      SortedUnique(s[1..], i, tokens[1..]);
    }
  }

  lemma SortedRest(s: seq<Token>, i: nat, tokens: seq<Token>)
    requires s != [] && tokens != [] && IsSorted(BY_POSITION, s) && Increasing(i, tokens)
    ensures IsSorted(BY_POSITION, s[1..]) && Increasing(i, tokens[1..])
  {
  }

  lemma RestOf<T>(s: seq<T>)
    requires s != []
    ensures s == [s[0]] + s[1..] && multiset(s[1..]) == multiset(s) - multiset{s[0]}
  {
    assert s == [s[0]] + s[1..];
  }

  lemma EveryDelimiter(kind: Kind)
    ensures IsDelimiter(kind) <==> kind in DELIMITERS
  {
    assert forall i :: 0 <= i < |DELIMITERS| ==> IsDelimiter(DELIMITERS[i]);
    assert DELIMITERS[0] == Object && DELIMITERS[1] == Array && DELIMITERS[2] == ArrayEnd;
    assert DELIMITERS[3] == Interpreted && DELIMITERS[4] == Literal && DELIMITERS[5] == Class;
  }

  // All the delimiters, each once.
  ghost predicate Complete(kinds: seq<Kind>) {
    Distinct(kinds) && AllDelimiters(kinds) && forall k :: IsDelimiter(k) ==> k in kinds
  }

  lemma DelimitersComplete()
    ensures Complete(DELIMITERS)
  {
    forall k ensures IsDelimiter(k) <==> k in DELIMITERS {
      EveryDelimiter(k);
    }
  }

  lemma SameTokens(line: string, kinds: seq<Kind>)
    requires Complete(kinds)
    ensures multiset(Collected(line, kinds)) == multiset(LexAll(line, kinds, 0))
  {
    var tokens, all := LexAll(line, kinds, 0), Collected(line, kinds);
    LexIncreases(line, kinds);
    CollectedOfLex(line, kinds, kinds);
    forall x ensures multiset(all)[x] == multiset(tokens)[x] {
      GroupedCount(kinds, tokens, x);
      assert x in multiset(tokens) ==> x in tokens;
    }
  }

  lemma SortedAs(all: seq<Token>, tokens: seq<Token>)
    requires multiset(all) == multiset(tokens) && Increasing(0, tokens) && AreNear(tokens)
    ensures Sort(COMPARE, all) == tokens
  {
    forall t | t in all ensures t in tokens {
      assert t in multiset(all);
    }
    CompareAgrees(all);
    InsertAllSorted(BY_POSITION, [], all);
    InsertAllPermutes(BY_POSITION, [], all);
    SortedUnique(Sort(BY_POSITION, all), 0, tokens);
  }

  // No two delimiters are further apart than the comparison can tell.
  ghost predicate IsNear(line: string) {
    forall i: nat, j: nat, k, k' ::
      IsDelimiter(k) && IsDelimiter(k') && Matches(line, i, k) && Matches(line, j, k') ==> j - i <= INT_MAX
  }

  ghost predicate AreNear(tokens: seq<Token>) {
    forall t, u :: t in tokens && u in tokens ==> t.pos - u.pos <= INT_MAX
  }

  lemma ShortIsNear(line: string)
    requires |line| <= INT_MAX + 1
    ensures IsNear(line)
  {
  }

  lemma NearPart(line: string, i: nat, j: nat)
    requires IsNear(line) && i <= j <= |line|
    ensures IsNear(line[i..j])
  {
    forall p: nat, q: nat, k, k' |
      IsDelimiter(k) && IsDelimiter(k') && Matches(line[i..j], p, k) && Matches(line[i..j], q, k')
      ensures q - p <= INT_MAX
    {
      PartMatches(line, i, j, p, k);
      PartMatches(line, i, j, q, k');
    }
  }

  lemma PartMatches(line: string, i: nat, j: nat, p: nat, kind: Kind)
    requires i <= j <= |line| && Matches(line[i..j], p, kind)
    ensures Matches(line, i + p, kind)
  {
    var n := |Repr(kind)|;
    var a, b := line[i..j][p..p + n], line[i + p..i + p + n];
    assert |a| == |b| && forall k :: 0 <= k < n ==> a[k] == line[i..j][p + k] == line[i + p + k] == b[k];
  }

  /** Collecting each delimiter by itself and sorting with the truncated comparison gives what one
      pass from left to right gives: every delimiter once, in the order of the line. */
  lemma TokensInOrder(line: string, kinds: seq<Kind>)
    requires IsNear(line) && Complete(kinds)
    ensures Sort(COMPARE, Collected(line, kinds)) == LexAll(line, kinds, 0)
  {
    LexIncreases(line, kinds);
    SameTokens(line, kinds);
    SortedAs(Collected(line, kinds), LexAll(line, kinds, 0));
  }

  // On positions that are near each other, nothing is lost by truncation.
  lemma CompareAgrees(tokens: seq<Token>)
    requires AreNear(tokens)
    ensures Sort(COMPARE, tokens) == Sort(BY_POSITION, tokens)
  {
    forall x, y | x in [] + tokens && y in [] + tokens ensures COMPARE(x, y) == BY_POSITION(x, y) {
      TruncatedSmall(x.pos - y.pos);
      assert x.pos - y.pos <= INT_MAX && y.pos - x.pos <= INT_MAX;
    }
    InsertAllAgrees(COMPARE, BY_POSITION, [], tokens);
  }

  lemma TruncatedSmall(x: int)
    ensures 0 - INT_MAX <= x <= INT_MAX ==> Truncated(x) == x
    ensures Truncated(x) >= 0 <==> x % 0x1_0000_0000 <= INT_MAX
  {
  }

  // ---- delimiters that are far apart ----

  // A line with one pair of brackets and no other delimiter.
  predicate HasTwoBrackets(line: string, i: nat, j: nat) {
    && i < j < |line| && line[i] == '[' && line[j] == ']'
    && forall k :: 0 <= k < |line| && k != i && k != j ==> line[k] !in {'-', '[', ']', '"', '\'', ':'}
  }

  lemma Nowhere(line: string, i: nat, j: nat, kind: Kind)
    requires HasTwoBrackets(line, i, j) && IsDelimiter(kind) && kind != Array && kind != ArrayEnd
    ensures Occurrences(line, kind, 0) == []
  {
    Skip(line, kind, 0, |line|);
  }

  lemma Once(line: string, kind: Kind, i: nat)
    requires i < |line| && kind in {Array, ArrayEnd}
    requires forall k :: 0 <= k < |line| ==> (line[k] == Repr(kind)[0] <==> k == i)
    ensures Occurrences(line, kind, 0) == [Token(kind, i)]
  {
    Skip(line, kind, 0, i);
    Skip(line, kind, i + 1, |line|);
    assert line[i..i + 1] == [line[i]];
  }

  lemma CollectedTwo(line: string, i: nat, j: nat)
    requires HasTwoBrackets(line, i, j)
    ensures Collected(line, DELIMITERS) == [Token(Array, i), Token(ArrayEnd, j)]
  {
    Nowhere(line, i, j, Object);
    Once(line, Array, i);
    Once(line, ArrayEnd, j);
    Nowhere(line, i, j, Interpreted);
    Nowhere(line, i, j, Literal);
    Nowhere(line, i, j, Class);
    CollectedSix(line);
  }

  lemma CollectedSix(line: string)
    ensures Collected(line, DELIMITERS) ==
            Occurrences(line, Object, 0) + (Occurrences(line, Array, 0) + (Occurrences(line, ArrayEnd, 0) +
            (Occurrences(line, Interpreted, 0) + (Occurrences(line, Literal, 0) + Occurrences(line, Class, 0)))))
  {
    CollectedFirst(line, Class, []);
    CollectedFirst(line, Literal, [Class]);
    CollectedFirst(line, Interpreted, [Literal, Class]);
    CollectedFirst(line, ArrayEnd, [Interpreted, Literal, Class]);
    CollectedFirst(line, Array, [ArrayEnd, Interpreted, Literal, Class]);
    CollectedFirst(line, Object, [Array, ArrayEnd, Interpreted, Literal, Class]);
    assert [Class] + [] == [Class] && [Literal] + [Class] == [Literal, Class];
    assert [Interpreted] + [Literal, Class] == [Interpreted, Literal, Class];
    assert [ArrayEnd] + [Interpreted, Literal, Class] == [ArrayEnd, Interpreted, Literal, Class];
    assert [Array] + [ArrayEnd, Interpreted, Literal, Class] == [Array, ArrayEnd, Interpreted, Literal, Class];
    assert [Object] + [Array, ArrayEnd, Interpreted, Literal, Class] == DELIMITERS;
  }

  lemma CollectedFirst(line: string, kind: Kind, rest: seq<Kind>)
    requires IsDelimiter(kind) && AllDelimiters(rest)
    ensures AllDelimiters([kind] + rest)
    ensures Collected(line, [kind] + rest) == Occurrences(line, kind, 0) + Collected(line, rest)
  {
    assert ([kind] + rest)[1..] == rest;
  }

  lemma SortTwo(a: Token, b: Token)
    ensures Sort(COMPARE, [a, b]) == if COMPARE(b, a) < 0 then [b, a] else [a, b]
  {
    assert [a, b][1..] == [b] && [b][1..] == [] && [a][1..] == [];
    assert Insert(COMPARE, a, []) == [a];
    assert Insert(COMPARE, b, []) == [b];
    assert InsertAll(COMPARE, [a], [b]) == InsertAll(COMPARE, Insert(COMPARE, b, [a]), []);
  }

  /** Two brackets come out in the order of the line exactly when their distance, modulo 2^32, is below
      2^31: the comparison fails first for delimiters that are INT_MAX + 1 apart. */
  lemma TwoBrackets(line: string, i: nat, j: nat)
    requires HasTwoBrackets(line, i, j)
    ensures var ordered := [Token(Array, i), Token(ArrayEnd, j)];
            Collected(line, DELIMITERS) == ordered &&
            (Sort(COMPARE, Collected(line, DELIMITERS)) == ordered <==> (j - i) % 0x1_0000_0000 <= INT_MAX)
  {
    CollectedTwo(line, i, j);
    SortTwo(Token(Array, i), Token(ArrayEnd, j));
    TruncatedSmall(j - i);
  }

  // ---- the lists ----

  // strchr: the next position of c, or the end.
  method Find(line: string, from: nat, c: char) returns (p: nat)
    requires from <= |line|
    ensures from <= p <= |line| && (p < |line| ==> line[p] == c) && forall i :: from <= i < p ==> line[i] != c
  {
    p := from;
    while p < |line| && line[p] != c
      invariant from <= p <= |line| && forall i :: from <= i < p ==> line[i] != c
    {
      p := p + 1;
    }
  }

  // Positions without the first character are passed over.
  lemma {:induction false} Skip(line: string, kind: Kind, i: nat, j: nat)
    requires IsDelimiter(kind) && i <= j <= |line| && forall k :: i <= k < j ==> line[k] != Repr(kind)[0]
    ensures Occurrences(line, kind, i) == Occurrences(line, kind, j)
    decreases j - i
  {
    if i < j {
      FirstCharacter(line, i, kind);
      Skip(line, kind, i + 1, j);
    }
  }

  method ParseStrTokens(line: string, kind: Kind, list: Node?<Token>, ghost nodes: seq<Node<Token>>)
    returns (origin: Node?<Token>, ghost added: seq<Node<Token>>)
    requires IsDelimiter(kind) && IsList(list, nodes)
    modifies nodes
    ensures IsList(origin, nodes + added) && Data(added) == Occurrences(line, kind, 0)
    ensures forall i :: 0 <= i < |added| ==> fresh(added[i])
  {
    origin, added := list, [];
    assert nodes + added == nodes;
    var cur := Find(line, 0, Repr(kind)[0]);
    Skip(line, kind, 0, cur);
    while cur < |line|
      invariant cur <= |line| && IsList(origin, nodes + added)
      invariant forall i :: 0 <= i < |added| ==> fresh(added[i])
      invariant Data(added) + Occurrences(line, kind, cur) == Occurrences(line, kind, 0)
      decreases |line| - cur
    {
      origin, added, cur := NextMatch(line, kind, cur, origin, nodes, added);
    }
  }

  // One turn: the match at cur, and the way to the next candidate.
  method NextMatch(line: string, kind: Kind, cur: nat, list: Node?<Token>, ghost nodes: seq<Node<Token>>,
                   ghost added: seq<Node<Token>>)
    returns (origin: Node?<Token>, ghost added': seq<Node<Token>>, next: nat)
    requires IsDelimiter(kind) && cur < |line| && IsList(list, nodes + added)
    modifies nodes, added
    ensures IsList(origin, nodes + added') && cur < next <= |line|
    ensures forall i :: 0 <= i < |added'| ==> fresh(added'[i]) || added'[i] in added
    ensures Data(added') + Occurrences(line, kind, next) == Data(added) + Occurrences(line, kind, cur)
  {
    ghost var more: seq<Node<Token>>;
    var from;
    origin, more, from := AppendMatch(line, kind, cur, list, nodes + added);
    AddMore(Data(added), Data(more), Occurrences(line, kind, from));
    DataOfSum(added, more);
    assert nodes + added + more == nodes + (added + more);
    added' := added + more;
    next := Find(line, from, Repr(kind)[0]);
    Skip(line, kind, from, next);
  }

  lemma AddMore<T>(a: seq<T>, b: seq<T>, c: seq<T>)
    ensures a + b + c == a + (b + c)
  {
  }

  // Appends the token at cur, if there is one, and tells where to look on.
  method AppendMatch(line: string, kind: Kind, cur: nat, list: Node?<Token>, ghost nodes: seq<Node<Token>>)
    returns (origin: Node?<Token>, ghost more: seq<Node<Token>>, from: nat)
    requires IsDelimiter(kind) && cur < |line| && IsList(list, nodes)
    modifies nodes
    ensures IsList(origin, nodes + more) && (forall i :: 0 <= i < |more| ==> fresh(more[i]))
    ensures cur < from <= |line| && Data(more) + Occurrences(line, kind, from) == Occurrences(line, kind, cur)
  {
    origin, more, from := list, [], cur + 1;
    if Matches(line, cur, kind) {
      ghost var node;
      origin, node := Append(origin, Token(kind, cur), nodes);
      OccurrencesAt(line, kind, cur, kind);
      more := [node];
      DataOfSum([], more);
      from := cur + |Repr(kind)|;
    } else {
      assert nodes + more == nodes;
    }
  }

  lemma CollectedStep(line: string, kinds: seq<Kind>, i: nat, nodes: seq<Node<Token>>, added: seq<Node<Token>>)
    requires AllDelimiters(kinds) && i < |kinds|
    requires Data(added) == Occurrences(line, kinds[i], 0)
    ensures Data(nodes + added) + Collected(line, kinds[i + 1..]) == Data(nodes) + Collected(line, kinds[i..])
  {
    DataOfSum(nodes, added);
    assert kinds[i..][0] == kinds[i] && kinds[i..][1..] == kinds[i + 1..];
  }

  method CollectTokens(line: string, kinds: seq<Kind>) returns (list: Node?<Token>, ghost nodes: seq<Node<Token>>)
    requires AllDelimiters(kinds)
    ensures IsList(list, nodes) && Data(nodes) == Collected(line, kinds)
    ensures forall i :: 0 <= i < |nodes| ==> fresh(nodes[i])
  {
    list, nodes := null, [];
    var i := 0;
    assert kinds[0..] == kinds;
    while i < |kinds|
      invariant 0 <= i <= |kinds| && IsList(list, nodes)
      invariant forall i :: 0 <= i < |nodes| ==> fresh(nodes[i])
      invariant Data(nodes) + Collected(line, kinds[i..]) == Collected(line, kinds)
    {
      ghost var added;
      list, added := ParseStrTokens(line, kinds[i], list, nodes);
      CollectedStep(line, kinds, i, nodes, added);
      nodes := nodes + added;
      i := i + 1;
    }
  }

  /** The sorted list of tokens, as one pass over the line would give it. */
  method SortedTokens(line: string) returns (list: Node?<Token>, ghost nodes: seq<Node<Token>>)
    requires IsNear(line)
    ensures IsList(list, nodes) && Data(nodes) == Lex(line)
    ensures if Lex(line) == [] then list == null else list != null && list.data == Lex(line)[0]
  {
    list, nodes := CollectTokens(line, DELIMITERS);
    list := SortList(list, COMPARE, nodes);
    SortedData(line, nodes);
    nodes := Sort(ByData(COMPARE), nodes);
  }

  lemma SortedData(line: string, nodes: seq<Node<Token>>)
    requires IsNear(line) && Data(nodes) == Collected(line, DELIMITERS)
    ensures Data(Sort(ByData(COMPARE), nodes)) == Lex(line)
  {
    DataSort(COMPARE, nodes);
    DelimitersComplete();
    TokensInOrder(line, DELIMITERS);
  }
}
