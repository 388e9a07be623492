/** Paths with an index that begins beyond INT_MAX: src/sp_var_parser.c keeps its position in an int. */
module LateIndices {
  import opened VarTokens
  import opened VarParser
  import opened VarMachine
  import opened Wrappers

  predicate HasNoDelimiter(s: string) {
    forall i :: 0 <= i < |s| ==> s[i] !in {'-', '[', ']', '"', '\'', ':'}
  }

  lemma LateTokens(name: string)
    requires HasNoDelimiter(name)
    ensures var line := name + "[b]";
            IsNear(line) && Lex(line) == [Token(Array, |name|), Token(ArrayEnd, |name| + 2)]
  {
    var line, n := name + "[b]", |name|;
    assert line[n] == '[' && line[n + 1] == 'b' && line[n + 2] == ']';
    assert forall k :: 0 <= k < n ==> line[k] == name[k];
    TwoBrackets(line, n, n + 2);
    forall i: nat, kind | IsDelimiter(kind) && Matches(line, i, kind) ensures i == n || i == n + 2 {
      FirstCharacter(line, i, kind);
    }
    DelimitersComplete();
    TokensInOrder(line, DELIMITERS);
  }

  // The states that both come through, up to the closing bracket.
  lemma LateStates(ok: string -> bool, name: string, parse: string -> Index, code: string -> Outcome<Index>)
    requires HasNoDelimiter(name)
    ensures var line := name + "[b]";
            var tokens := [Token(Array, |name|), Token(ArrayEnd, |name| + 2)];
            var st := State(0, 1, |name| + 1, Undefined, []);
            && InBounds(line, tokens, INITIAL) && InBounds(line, tokens[1..], st)
            && ParseToken(ok, parse, line, tokens, INITIAL) == Some(st)
            && CodeToken(ok, code, line, tokens, INITIAL) == Taken(st)
            && TokenValid(line, tokens[1..], st) && PartEnds(line, tokens[1], st.(depth := 0))
  {
    LateTokens(name);
    var line := name + "[b]";
    LexLocated(line, DELIMITERS, 0);
    var tokens := [Token(Array, |name|), Token(ArrayEnd, |name| + 2)];
    assert tokens[1..] == [tokens[1]];
    AdvanceInBounds(line, tokens, INITIAL);
  }

  function LateResult(name: string, index: Index): State {
    State(|name| + 3, 0, 0, Undefined, [Access(Array, name, index)])
  }

  // What each makes of the closing bracket.
  lemma LateClose(ok: string -> bool, name: string, parse: string -> Index, code: string -> Outcome<Index>)
    requires HasNoDelimiter(name) && INT_MAX <= |name| < 0x1_0000_0000
    requires ok(name) && !ok(name + "[") && PartEnds(name + "[b]", Token(ArrayEnd, |name| + 2), LateState(name))
    ensures ClosePart(ok, parse, name + "[b]", Token(ArrayEnd, |name| + 2), LateState(name)) ==
            Some(LateResult(name, parse("b")))
    ensures CodeClose(ok, code, name + "[b]", Token(ArrayEnd, |name| + 2), LateState(name)) == Refused
  {
    var line, n := name + "[b]", |name|;
    assert line[0..n] == name && line[n + 1..n + 2] == "b" && line[0..n + 1] == name + "[";
    assert CodeStart(n + 1) <= 0;
    assert [] + [Access(Array, name, parse("b"))] == [Access(Array, name, parse("b"))];
  }

  function LateState(name: string): State {
    State(0, 0, |name| + 1, Undefined, [])
  }

  lemma NameIndex(ok: string -> bool, line: string)
    requires ok("b") && |line| > 1
    ensures IndexParser(ok, line)("b") == Index([Access(Constant, "b", Absent)])
  {
    NoDelimiter("b", 0);
    assert "b"[0..] == "b" && [] + [Access(Constant, "b", Absent)] == [Access(Constant, "b", Absent)];
    assert ParseVar(ok, "b") == Some([Access(Constant, "b", Absent)]);
    assert IndexParser(ok, line)("b") == ParseIndex(ok, "b");
  }

  // The closing bracket is the last token.
  lemma LastToken(ok: string -> bool, code: string -> Outcome<Index>, parse: string -> Index, line: string, t: Token,
                  st: State)
    requires InBounds(line, [t], st) && line != [] && TokenValid(line, [t], st)
    requires t.kind == ArrayEnd && st.depth == 1 && st.quote == Undefined
    ensures PartEnds(line, t, st.(depth := 0))
    ensures ParseTokens(ok, parse, line, [t], st) == ClosePart(ok, parse, line, t, st.(depth := 0))
    ensures CodeTokens(ok, code, line, [t], st) == CodeClose(ok, code, line, t, st.(depth := 0))
  {
    AdvanceInBounds(line, [t], st);
    assert [t][1..] == [];
    assert Bracketed(t, Quoted(t, st)) == st.(depth := 0);
    assert ParseToken(ok, parse, line, [t], st) == ClosePart(ok, parse, line, t, st.(depth := 0));
    assert CodeToken(ok, code, line, [t], st) == CodeClose(ok, code, line, t, st.(depth := 0));
  }

  lemma FirstToken(ok: string -> bool, code: string -> Outcome<Index>, parse: string -> Index, line: string, t: Token,
                   u: Token, a: State, b: State)
    requires InBounds(line, [t, u], a) && InBounds(line, [u], b)
    requires ParseToken(ok, parse, line, [t, u], a) == Some(b) && CodeToken(ok, code, line, [t, u], a) == Taken(b)
    ensures ParseTokens(ok, parse, line, [t, u], a) == ParseTokens(ok, parse, line, [u], b)
    ensures CodeTokens(ok, code, line, [t, u], a) == CodeTokens(ok, code, line, [u], b)
  {
    assert [t, u][1..] == [u];
  }

  // The two tokens of the line.
  lemma BothTokens(ok: string -> bool, code: string -> Outcome<Index>, parse: string -> Index, line: string, t: Token,
                   u: Token, a: State, b: State)
    requires InBounds(line, [t, u], a) && InBounds(line, [u], b)
    requires ParseToken(ok, parse, line, [t, u], a) == Some(b) && CodeToken(ok, code, line, [t, u], a) == Taken(b)
    requires line != [] && TokenValid(line, [u], b) && u.kind == ArrayEnd && b.depth == 1 && b.quote == Undefined
    ensures PartEnds(line, u, b.(depth := 0))
    ensures ParseTokens(ok, parse, line, [t, u], a) == ClosePart(ok, parse, line, u, b.(depth := 0))
    ensures CodeTokens(ok, code, line, [t, u], a) == CodeClose(ok, code, line, u, b.(depth := 0))
  {
    FirstToken(ok, code, parse, line, t, u, a, b);
    LastToken(ok, code, parse, line, u, b);
  }

  lemma LateEnds(ok: string -> bool, name: string, parse: string -> Index, code: string -> Outcome<Index>,
                 t: Token, u: Token)
    requires HasNoDelimiter(name) && t == Token(Array, |name|) && u == Token(ArrayEnd, |name| + 2)
    ensures var line := name + "[b]";
            && InBounds(line, [t, u], INITIAL) && PartEnds(line, u, LateState(name))
            && ParseTokens(ok, parse, line, [t, u], INITIAL) == ClosePart(ok, parse, line, u, LateState(name))
            && CodeTokens(ok, code, line, [t, u], INITIAL) == CodeClose(ok, code, line, u, LateState(name))
  {
    var line, st := name + "[b]", State(0, 1, |name| + 1, Undefined, []);
    LateStates(ok, name, parse, code);
    assert [t, u][1..] == [u] && st.(depth := 0) == LateState(name);
    BothTokens(ok, code, parse, line, t, u, INITIAL, st);
  }

  lemma LateFolds(ok: string -> bool, name: string, parse: string -> Index, code: string -> Outcome<Index>,
                  tokens: seq<Token>)
    requires HasNoDelimiter(name) && INT_MAX <= |name| < 0x1_0000_0000 && ok(name) && !ok(name + "[")
    requires tokens == [Token(Array, |name|), Token(ArrayEnd, |name| + 2)]
    ensures var line := name + "[b]";
            && InBounds(line, tokens, INITIAL)
            && ParseTokens(ok, parse, line, tokens, INITIAL) == Some(LateResult(name, parse("b")))
            && CodeTokens(ok, code, line, tokens, INITIAL) == Refused
  {
    LateEnds(ok, name, parse, code, Token(Array, |name|), Token(ArrayEnd, |name| + 2));
    LateClose(ok, name, parse, code);
  }

  /** A path whose index begins beyond INT_MAX, for a name of any such length: it is specified, and refused by
      the code, which takes the bracket for a part of the name. */
  lemma LateIndex(ok: string -> bool, name: string)
    requires HasNoDelimiter(name) && INT_MAX <= |name| < 0x1_0000_0000
    requires ok(name) && ok("b") && !ok(name + "[")
    ensures IsNear(name + "[b]") && !Fits(name + "[b]")
    ensures ParseVar(ok, name + "[b]") == Some([Access(Array, name, Index([Access(Constant, "b", Absent)]))])
    ensures CodeVar(ok, name + "[b]") == Refused
  {
    var line := name + "[b]";
    LateTokens(name);
    NameIndex(ok, line);
    LateFolds(ok, name, IndexParser(ok, line), CodeIndexParser(ok, line), Lex(line));
    LateMisfit(name);
  }

  lemma LateMisfit(name: string)
    requires |name| >= INT_MAX
    ensures !BracketsFit([Token(Array, |name|), Token(ArrayEnd, |name| + 2)], INITIAL)
  {
  }

  /** There are such names. */
  lemma LateName()
    ensures var name := seq(0x8000_0000, _ => 'a'); HasNoDelimiter(name) && INT_MAX <= |name| < 0x1_0000_0000
  {
  }
}
