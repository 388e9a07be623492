/** The parser for variable paths with the types of src/sp_var_parser.c: where an index begins, and how many
    brackets are open, are kept in variables of type int. It computes the paths of VarParser as long as no
    index begins beyond INT_MAX. */
module VarMachine {
  import opened LinkedList
  import opened VarTokens
  import opened VarParser
  import opened Wrappers

  // Beyond: a number has left what its variable can hold, or a length has gone below zero. What follows is
  // not defined.
  datatype Outcome<+T> = Taken(value: T) | Refused | Beyond

  type i32 = x: int | -0x8000_0000 <= x <= 0x7fff_ffff

  // ---- what the code computes ----

  // pos_idx_start, given where the index really begins; -1 outside brackets.
  function CodeStart(start: nat): (r: i32)
    ensures r <= start
  {
    if start > 0 then Truncated(start) else -1
  }

  function CodeCreate(ok: string -> bool, chain: seq<Access>, value: string, kind: Kind, index: Outcome<Index>)
    : Outcome<seq<Access>>
  {
    if Create(ok, chain, value, kind, Absent).None? then Refused
    else
      match index
      case Taken(i) => Taken(Create(ok, chain, value, kind, i).value)
      case Refused => Refused
      case Beyond => Beyond
  }

  // A part that ends at t. A position that has become negative or zero is taken for no index, and the
  // bracket then belongs to the value; one that has become small can lie before the part.
  function CodeClose(ok: string -> bool, parse: string -> Outcome<Index>, line: string, t: Token, b: State)
    : (r: Outcome<State>)
    requires PartEnds(line, t, b) && Repr(t.kind) != []
  {
    var start := CodeStart(b.start);
    if start > 0 && start - 1 < b.pos then Beyond
    else
      var end := if start > 0 then start - 1 else if b.start > 0 then t.pos - 1 else t.pos;
      var index := if start > 0 then parse(line[start..t.pos]) else Taken(Absent);
      Stored(t, CodeCreate(ok, b.chain, line[b.pos..end], PartKind(t.kind), index))
  }

  // The state behind t, when this is what has been stored.
  function Stored(t: Token, o: Outcome<seq<Access>>): Outcome<State> {
    match o
    case Taken(chain) => Taken(State(t.pos + |Repr(t.kind)|, 0, 0, Undefined, chain))
    case Refused => Refused
    case Beyond => Beyond
  }

  function CodeToken(ok: string -> bool, parse: string -> Outcome<Index>, line: string, tokens: seq<Token>, st: State)
    : (r: Outcome<State>)
    requires tokens != [] && InBounds(line, tokens, st)
    ensures r.Taken? ==> InBounds(line, tokens[1..], r.value)
  {
    var t := tokens[0];
    AdvanceInBounds(line, tokens, st);
    if !TokenValid(line, tokens, st) then Refused
    else
      var q := Quoted(t, st);
      if q.quote != Undefined then Taken(q) else CodeBracket(ok, parse, line, t, q)
  }

  // What follows outside quotes.
  function CodeBracket(ok: string -> bool, parse: string -> Outcome<Index>, line: string, t: Token, q: State)
    : Outcome<State>
    requires Repr(t.kind) != [] && (Bracketed(t, q).depth == 0 ==> PartEnds(line, t, Bracketed(t, q)))
  {
    var b := Bracketed(t, q);
    if t.kind == Array && q.depth >= INT_MAX then Beyond
    else if b.depth > 0 then Taken(b) else CodeClose(ok, parse, line, t, b)
  }

  function CodeTokens(ok: string -> bool, parse: string -> Outcome<Index>, line: string, tokens: seq<Token>, st: State)
    : (r: Outcome<State>)
    requires InBounds(line, tokens, st)
    ensures r.Taken? ==> InBounds(line, [], r.value)
    decreases |tokens|
  {
    if tokens == [] then Taken(st)
    else
      match CodeToken(ok, parse, line, tokens, st)
      case Taken(st') => CodeTokens(ok, parse, line, tokens[1..], st')
      case Refused => Refused
      case Beyond => Beyond
  }

  function Lift<T>(o: Option<T>): Outcome<T> {
    match o
    case None => Refused
    case Some(value) => Taken(value)
  }

  // An index that is refused is lost.
  function CodeIndex(ok: string -> bool, text: string): Outcome<Index>
    decreases |text|, 2
  {
    match CodeVar(ok, text)
    case Taken(chain) => Taken(Index(chain))
    case Refused => Taken(Absent)
    case Beyond => Beyond
  }

  function CodeIndexParser(ok: string -> bool, line: string): string -> Outcome<Index>
    decreases |line|, 0
  {
    text => if |text| < |line| then CodeIndex(ok, text) else Taken(Absent)
  }

  function CodeVar(ok: string -> bool, line: string): Outcome<seq<Access>>
    decreases |line|, 1
  {
    LexLocated(line, DELIMITERS, 0);
    CodeFinish(ok, line, CodeTokens(ok, CodeIndexParser(ok, line), line, Lex(line), INITIAL))
  }

  function CodeFinish(ok: string -> bool, line: string, o: Outcome<State>): Outcome<seq<Access>>
    requires o.Taken? ==> InBounds(line, [], o.value)
  {
    match o
    case Refused => Refused
    case Beyond => Beyond
    case Taken(st) =>
      match Finish(ok, line, st)
      case None => Refused
      case Some(chain) => Taken(if chain == [] then [Access(Constant, "", Absent)] else chain)
  }

  // ---- when it is the path ----

  // No index begins beyond INT_MAX, and no more than INT_MAX brackets are open: quote and depth are those
  // before the tokens.
  predicate BracketsFit(tokens: seq<Token>, st: State)
    decreases |tokens|
  {
    tokens == [] ||
    var t, q := tokens[0], Quoted(tokens[0], st);
    if q.quote != Undefined then BracketsFit(tokens[1..], q)
    else
      && (t.kind == Array ==> (st.depth == 0 ==> t.pos < INT_MAX) && st.depth < INT_MAX)
      && BracketsFit(tokens[1..], Bracketed(t, q))
  }

  predicate Fits(line: string) {
    BracketsFit(Lex(line), INITIAL)
  }

  // Only these matter.
  lemma {:induction false} SameBrackets(tokens: seq<Token>, a: State, b: State)
    requires a.depth == b.depth && a.quote == b.quote
    ensures BracketsFit(tokens, a) == BracketsFit(tokens, b)
    decreases |tokens|
  {
    if tokens != [] {
      var t := tokens[0];
      SameBrackets(tokens[1..], Quoted(t, a), Quoted(t, b));
      SameBrackets(tokens[1..], Bracketed(t, Quoted(t, a)), Bracketed(t, Quoted(t, b)));
    }
  }

  // The two index parsers agree on everything behind an opening bracket.
  ghost predicate Agree(code: string -> Outcome<Index>, parse: string -> Index, line: string) {
    forall i: nat, j: nat {:trigger line[i..j]} ::
      0 < i <= j < |line| && line[i - 1] == '[' ==> code(line[i..j]) == Taken(parse(line[i..j]))
  }

  lemma TruncatedPosition(x: nat)
    ensures x <= INT_MAX ==> Truncated(x) == x
    ensures Truncated(x) <= x && (x > INT_MAX ==> Truncated(x) < x)
  {
  }

  lemma CloseAgrees(ok: string -> bool, code: string -> Outcome<Index>, parse: string -> Index, line: string,
                    t: Token, b: State)
    requires PartEnds(line, t, b) && Repr(t.kind) != [] && b.start <= INT_MAX
    requires b.start > 0 ==> code(line[b.start..t.pos]) == Taken(parse(line[b.start..t.pos]))
    ensures CodeClose(ok, code, line, t, b) == Lift(ClosePart(ok, parse, line, t, b))
  {
    TruncatedPosition(b.start);
  }

  // What one token does, when it opens no bracket too late.
  lemma TokenAgrees(ok: string -> bool, code: string -> Outcome<Index>, parse: string -> Index, line: string,
                    tokens: seq<Token>, st: State)
    requires tokens != [] && InBounds(line, tokens, st) && Agree(code, parse, line) && st.start <= INT_MAX
    requires Quoted(tokens[0], st).quote == Undefined && tokens[0].kind == Array ==> st.depth < INT_MAX
    ensures CodeToken(ok, code, line, tokens, st) == Lift(ParseToken(ok, parse, line, tokens, st))
  {
    AdvanceInBounds(line, tokens, st);
    var t, q := tokens[0], Quoted(tokens[0], st);
    if q.quote == Undefined && Bracketed(t, q).depth == 0 {
      ClosingAgrees(ok, code, parse, line, tokens, st);
    }
  }

  lemma ClosingAgrees(ok: string -> bool, code: string -> Outcome<Index>, parse: string -> Index, line: string,
                      tokens: seq<Token>, st: State)
    requires tokens != [] && InBounds(line, tokens, st) && Agree(code, parse, line) && st.start <= INT_MAX
    requires var q := Quoted(tokens[0], st); q.quote == Undefined && Bracketed(tokens[0], q).depth == 0
    ensures var b := Bracketed(tokens[0], Quoted(tokens[0], st));
            && PartEnds(line, tokens[0], b) && Repr(tokens[0].kind) != []
            && CodeClose(ok, code, line, tokens[0], b) == Lift(ClosePart(ok, parse, line, tokens[0], b))
  {
    AdvanceInBounds(line, tokens, st);
    var t, b := tokens[0], Bracketed(tokens[0], Quoted(tokens[0], st));
    assert b.start > 0 ==> line[b.start - 1] == '[' && b.start == st.start;
    CloseAgrees(ok, code, parse, line, t, b);
  }

  // After a token, the brackets are those that the token makes of them, whether a part has ended or not.
  lemma TokenBrackets(ok: string -> bool, parse: string -> Index, line: string, tokens: seq<Token>, st: State)
    requires tokens != [] && InBounds(line, tokens, st)
    ensures var r, q := ParseToken(ok, parse, line, tokens, st), Quoted(tokens[0], st);
            r.Some? ==>
              var b := if q.quote != Undefined then q else Bracketed(tokens[0], q);
              r.value.depth == b.depth && r.value.quote == b.quote &&
              r.value.start == if b.depth == 0 then 0 else b.start
  {
    AdvanceInBounds(line, tokens, st);
  }

  lemma FitsNext(ok: string -> bool, parse: string -> Index, line: string, tokens: seq<Token>, st: State)
    requires tokens != [] && InBounds(line, tokens, st)
    ensures var r := ParseToken(ok, parse, line, tokens, st);
            var t, q := tokens[0], Quoted(tokens[0], st);
            r.Some? ==>
              (BracketsFit(tokens, st) <==>
               BracketsFit(tokens[1..], r.value) &&
               (q.quote == Undefined && t.kind == Array ==> (st.depth == 0 ==> t.pos < INT_MAX) && st.depth < INT_MAX))
  {
    TokenBrackets(ok, parse, line, tokens, st);
    var r, q := ParseToken(ok, parse, line, tokens, st), Quoted(tokens[0], st);
    if r.Some? {
      SameBrackets(tokens[1..], r.value, if q.quote != Undefined then q else Bracketed(tokens[0], q));
    }
  }

  // While every bracket fits, so does the position where the index begins.
  lemma StartFits(ok: string -> bool, parse: string -> Index, line: string, tokens: seq<Token>, st: State)
    requires tokens != [] && InBounds(line, tokens, st) && st.start <= INT_MAX
    requires Quoted(tokens[0], st).quote == Undefined && tokens[0].kind == Array && st.depth == 0 ==>
               tokens[0].pos < INT_MAX
    ensures var r := ParseToken(ok, parse, line, tokens, st); r.Some? ==> r.value.start <= INT_MAX
  {
    TokenBrackets(ok, parse, line, tokens, st);
  }

  lemma {:induction false} TokensAgree(ok: string -> bool, code: string -> Outcome<Index>, parse: string -> Index,
                                       line: string, tokens: seq<Token>, st: State)
    requires InBounds(line, tokens, st) && Agree(code, parse, line) && st.start <= INT_MAX && BracketsFit(tokens, st)
    ensures CodeTokens(ok, code, line, tokens, st) == Lift(ParseTokens(ok, parse, line, tokens, st))
    decreases |tokens|
  {
    if tokens != [] {
      TokenAgrees(ok, code, parse, line, tokens, st);
      FitsNext(ok, parse, line, tokens, st);
      StartFits(ok, parse, line, tokens, st);
      var r := ParseToken(ok, parse, line, tokens, st);
      if r.Some? {
        TokensAgree(ok, code, parse, line, tokens[1..], r.value);
      }
    }
  }

  // ---- the text of an index always fits ----

  // Tokens before INT_MAX: there are fewer open brackets than positions.
  lemma {:induction false} EarlyFits(line: string, i: nat, tokens: seq<Token>, st: State)
    requires Located(line, i, tokens) && st.depth <= i
    requires forall t :: t in tokens ==> t.pos < INT_MAX
    ensures BracketsFit(tokens, st)
    decreases |tokens|
  {
    if tokens != [] {
      var t, q := tokens[0], Quoted(tokens[0], st);
      Behind(line, i, tokens);
      assert t in tokens && tokens == [t] + tokens[1..];
      var end := t.pos + |Repr(t.kind)|;
      EarlyFits(line, end, tokens[1..], q);
      EarlyFits(line, end, tokens[1..], Bracketed(t, q));
    }
  }

  lemma EarlyLineFits(line: string)
    requires forall t :: t in Lex(line) ==> t.pos < INT_MAX
    ensures Fits(line)
  {
    LexLocated(line, DELIMITERS, 0);
    EarlyFits(line, 0, Lex(line), INITIAL);
  }

  lemma IndexFits(line: string, i: nat, j: nat)
    requires IsNear(line) && 0 < i <= j <= |line| && line[i - 1] == '['
    ensures IsNear(line[i..j]) && Fits(line[i..j])
  {
    NearPart(line, i, j);
    var text := line[i..j];
    LexIncreases(text, DELIMITERS);
    assert line[i - 1..i] == "[";
    assert Matches(line, i - 1, Array);
    forall t | t in Lex(text) ensures t.pos < INT_MAX {
      PartMatches(line, i, j, t.pos, t.kind);
    }
    EarlyLineFits(text);
  }

  /** As long as no index begins beyond INT_MAX, the code computes the path. */
  lemma {:induction false} CodeAgrees(ok: string -> bool, line: string)
    requires IsNear(line) && Fits(line)
    ensures CodeVar(ok, line) == Lift(ParseVar(ok, line))
    decreases |line|, 1
  {
    IndicesAgree(ok, line);
    LexLocated(line, DELIMITERS, 0);
    TokensAgree(ok, CodeIndexParser(ok, line), IndexParser(ok, line), line, Lex(line), INITIAL);
  }

  lemma {:induction false} IndicesAgree(ok: string -> bool, line: string)
    requires IsNear(line)
    ensures Agree(CodeIndexParser(ok, line), IndexParser(ok, line), line)
    decreases |line|, 0
  {
    forall i: nat, j: nat | 0 < i <= j < |line| && line[i - 1] == '['
      ensures CodeIndexParser(ok, line)(line[i..j]) == Taken(IndexParser(ok, line)(line[i..j]))
    {
      IndexFits(line, i, j);
      CodeAgrees(ok, line[i..j]);
    }
  }

  // ---- and only then ----

  // The same state but for what has been stored, which is as much.
  predicate SameBut(a: State, b: State) {
    a.pos == b.pos && a.depth == b.depth && a.start == b.start && a.quote == b.quote && |a.chain| == |b.chain|
  }

  predicate Differ(a: State, b: State) {
    SameBut(a, b) && a.chain != b.chain
  }

  lemma AppendDiffers<T>(a: seq<T>, x: T, b: seq<T>, y: T)
    requires |a| == |b| && (a != b || x != y)
    ensures a + [x] != b + [y]
  {
    assert (a + [x])[..|a|] == a && (b + [y])[..|b|] == b;
    assert (a + [x])[|a|] == x && (b + [y])[|b|] == y;
  }

  // What Create appends.
  lemma CreateAppends(ok: string -> bool, chain: seq<Access>, value: string, kind: Kind, index: Index)
    ensures var r := Create(ok, chain, value, kind, index);
            r.Some? ==> |r.value| == |chain| + 1 && r.value == chain + [r.value[|chain|]] &&
                        r.value[|chain|].value == value
  {
  }

  lemma CloseKeepsApart(ok: string -> bool, code: string -> Outcome<Index>, parse: string -> Index, line: string,
                        t: Token, a: State, b: State)
    requires PartEnds(line, t, a) && PartEnds(line, t, b) && Repr(t.kind) != [] && Differ(a, b)
    ensures var v, u := CodeClose(ok, code, line, t, a), ClosePart(ok, parse, line, t, b);
            v.Taken? && u.Some? ==> Differ(v.value, u.value)
  {
    var v, u := CodeClose(ok, code, line, t, a), ClosePart(ok, parse, line, t, b);
    if v.Taken? && u.Some? {
      var x, y := v.value.chain[|a.chain|], u.value.chain[|b.chain|];
      assert v.value.chain == a.chain + [x] && u.value.chain == b.chain + [y];
      AppendDiffers(a.chain, x, b.chain, y);
    }
  }

  lemma SameBookkeeping(line: string, tokens: seq<Token>, a: State, b: State)
    requires tokens != [] && InBounds(line, tokens, a) && InBounds(line, tokens, b) && Differ(a, b)
    ensures line != [] && TokenValid(line, tokens, a) == TokenValid(line, tokens, b)
    ensures var p, q := Quoted(tokens[0], a), Quoted(tokens[0], b);
            Differ(p, q) && Differ(Bracketed(tokens[0], p), Bracketed(tokens[0], q))
  {
    Behind(line, a.pos, tokens);
  }

  lemma TokenKeepsApart(ok: string -> bool, code: string -> Outcome<Index>, parse: string -> Index, line: string,
                        tokens: seq<Token>, a: State, b: State)
    requires tokens != [] && InBounds(line, tokens, a) && InBounds(line, tokens, b) && Differ(a, b)
    ensures var v, u := CodeToken(ok, code, line, tokens, a), ParseToken(ok, parse, line, tokens, b);
            v.Taken? && u.Some? ==> Differ(v.value, u.value)
  {
    AdvanceInBounds(line, tokens, a);
    AdvanceInBounds(line, tokens, b);
    SameBookkeeping(line, tokens, a, b);
    var t := tokens[0];
    var q := Quoted(t, a);
    if q.quote == Undefined && Bracketed(t, q).depth == 0 {
      CloseKeepsApart(ok, code, parse, line, t, Bracketed(t, q), Bracketed(t, Quoted(t, b)));
    }
  }

  lemma {:induction false} TokensKeepApart(ok: string -> bool, code: string -> Outcome<Index>, parse: string -> Index,
                                           line: string, tokens: seq<Token>, a: State, b: State)
    requires InBounds(line, tokens, a) && InBounds(line, tokens, b) && Differ(a, b)
    ensures var v, u := CodeTokens(ok, code, line, tokens, a), ParseTokens(ok, parse, line, tokens, b);
            v.Taken? && u.Some? ==> Differ(v.value, u.value)
    decreases |tokens|
  {
    if tokens != [] {
      TokenKeepsApart(ok, code, parse, line, tokens, a, b);
      var v, u := CodeToken(ok, code, line, tokens, a), ParseToken(ok, parse, line, tokens, b);
      if v.Taken? && u.Some? {
        TokensKeepApart(ok, code, parse, line, tokens[1..], v.value, u.value);
      }
    }
  }

  // An index that begins beyond INT_MAX gives its part another value, or is lost when it is empty.
  lemma WideCloses(ok: string -> bool, code: string -> Outcome<Index>, parse: string -> Index, line: string,
                   t: Token, b: State)
    requires PartEnds(line, t, b) && Repr(t.kind) != [] && b.start > INT_MAX && parse("") != Absent
    ensures var v, u := CodeClose(ok, code, line, t, b), ClosePart(ok, parse, line, t, b);
            v.Taken? && u.Some? ==> Differ(v.value, u.value)
  {
    TruncatedPosition(b.start);
    var v, u := CodeClose(ok, code, line, t, b), ClosePart(ok, parse, line, t, b);
    if v.Taken? && u.Some? {
      var x, y := v.value.chain[|b.chain|], u.value.chain[|b.chain|];
      assert v.value.chain == b.chain + [x] && u.value.chain == b.chain + [y];
      if CodeStart(b.start) <= 0 && b.start == t.pos {
        assert line[b.start..t.pos] == "" && x.index == Absent != y.index;
      } else {
        assert |x.value| != |y.value|;
      }
      AppendDiffers(b.chain, x, b.chain, y);
    }
  }

  // Inside brackets, the two do the same until the part ends.
  lemma WideToken(ok: string -> bool, code: string -> Outcome<Index>, parse: string -> Index, line: string,
                  tokens: seq<Token>, st: State)
    requires tokens != [] && InBounds(line, tokens, st) && st.depth > 0 && st.start > INT_MAX && parse("") != Absent
    ensures var v, u := CodeToken(ok, code, line, tokens, st), ParseToken(ok, parse, line, tokens, st);
            v.Taken? && u.Some? ==>
              Differ(v.value, u.value) || (v.value == u.value && u.value.depth > 0 && u.value.start == st.start)
  {
    AdvanceInBounds(line, tokens, st);
    var t, q := tokens[0], Quoted(tokens[0], st);
    if q.quote == Undefined && Bracketed(t, q).depth == 0 {
      WideCloses(ok, code, parse, line, t, Bracketed(t, q));
    }
  }

  lemma {:induction false} WideTokens(ok: string -> bool, code: string -> Outcome<Index>, parse: string -> Index,
                                      line: string, tokens: seq<Token>, st: State)
    requires InBounds(line, tokens, st) && st.depth > 0 && st.start > INT_MAX && parse("") != Absent
    ensures var v, u := CodeTokens(ok, code, line, tokens, st), ParseTokens(ok, parse, line, tokens, st);
            v.Taken? && u.Some? ==> u.value.depth > 0 || Differ(v.value, u.value)
    decreases |tokens|
  {
    if tokens != [] {
      WideToken(ok, code, parse, line, tokens, st);
      var v, u := CodeToken(ok, code, line, tokens, st), ParseToken(ok, parse, line, tokens, st);
      if v.Taken? && u.Some? {
        if Differ(v.value, u.value) {
          TokensKeepApart(ok, code, parse, line, tokens[1..], v.value, u.value);
        } else {
          WideTokens(ok, code, parse, line, tokens[1..], u.value);
        }
      }
    }
  }

  lemma {:induction false} MisfitTokens(ok: string -> bool, code: string -> Outcome<Index>, parse: string -> Index,
                                        line: string, tokens: seq<Token>, st: State)
    requires InBounds(line, tokens, st) && Agree(code, parse, line) && st.start <= INT_MAX && !BracketsFit(tokens, st)
    requires parse("") != Absent
    ensures var v, u := CodeTokens(ok, code, line, tokens, st), ParseTokens(ok, parse, line, tokens, st);
            v.Taken? && u.Some? ==> u.value.depth > 0 || Differ(v.value, u.value)
    decreases |tokens|
  {
    var r := ParseToken(ok, parse, line, tokens, st);
    var unquoted := Quoted(tokens[0], st).quote == Undefined && tokens[0].kind == Array;
    if r.Some? && !(unquoted && st.depth >= INT_MAX) {
      TokenAgrees(ok, code, parse, line, tokens, st);
      FitsNext(ok, parse, line, tokens, st);
      TokenBrackets(ok, parse, line, tokens, st);
      if r.value.start > INT_MAX {
        WideTokens(ok, code, parse, line, tokens[1..], r.value);
      } else {
        MisfitTokens(ok, code, parse, line, tokens[1..], r.value);
      }
    }
  }

  lemma FinishKeepsApart(ok: string -> bool, line: string, v: State, u: State)
    requires InBounds(line, [], v) && InBounds(line, [], u) && Differ(v, u) && Finish(ok, line, u).Some?
    ensures var chain := Finish(ok, line, u).value;
            CodeFinish(ok, line, Taken(v)) !=
            Taken(if chain == [] then [Access(Constant, "", Absent)] else chain)
  {
    if v.pos != |line| && Finish(ok, line, v).Some? {
      var x, y := Finish(ok, line, v).value[|v.chain|], Finish(ok, line, u).value[|u.chain|];
      AppendDiffers(v.chain, x, u.chain, y);
    }
  }

  lemma EmptyFits()
    ensures Fits("")
  {
    assert Lex("") == [];
  }

  // An empty index is not lost.
  lemma EmptyIndex(ok: string -> bool, line: string)
    requires !Fits(line)
    ensures IndexParser(ok, line)("") != Absent
  {
    EmptyFits();
    EmptyPath(ok);
    assert IndexParser(ok, line)("") == ParseIndex(ok, "");
  }

  /** For a path that is accepted, the code computes it exactly when no index in the line begins beyond
      INT_MAX, and no more than INT_MAX brackets are open. */
  lemma CodeIff(ok: string -> bool, line: string)
    requires IsNear(line) && ParseVar(ok, line).Some?
    ensures CodeVar(ok, line) == Taken(ParseVar(ok, line).value) <==> Fits(line)
  {
    if Fits(line) {
      CodeAgrees(ok, line);
    } else {
      LexLocated(line, DELIMITERS, 0);
      IndicesAgree(ok, line);
      EmptyIndex(ok, line);
      MisfitLine(ok, CodeIndexParser(ok, line), IndexParser(ok, line), line, Lex(line));
    }
  }

  lemma MisfitLine(ok: string -> bool, code: string -> Outcome<Index>, parse: string -> Index, line: string,
                   tokens: seq<Token>)
    requires InBounds(line, tokens, INITIAL) && Agree(code, parse, line) && parse("") != Absent
    requires !BracketsFit(tokens, INITIAL)
    ensures var u := ParseTokens(ok, parse, line, tokens, INITIAL);
            u.Some? && Finish(ok, line, u.value).Some? ==>
              var chain := Finish(ok, line, u.value).value;
              CodeFinish(ok, line, CodeTokens(ok, code, line, tokens, INITIAL)) !=
              Taken(if chain == [] then [Access(Constant, "", Absent)] else chain)
  {
    MisfitTokens(ok, code, parse, line, tokens, INITIAL);
    var v, u := CodeTokens(ok, code, line, tokens, INITIAL), ParseTokens(ok, parse, line, tokens, INITIAL);
    if v.Taken? && u.Some? && Finish(ok, line, u.value).Some? {
      FinishKeepsApart(ok, line, v.value, u.value);
    }
  }

  /** Lines of up to INT_MAX characters are parsed as specified, whatever is in them. */
  lemma ShortLines(ok: string -> bool, line: string)
    requires |line| <= INT_MAX
    ensures IsNear(line) && CodeVar(ok, line) == Lift(ParseVar(ok, line))
  {
    ShortFits(line);
    CodeAgrees(ok, line);
  }

  lemma ShortFits(line: string)
    requires |line| <= INT_MAX
    ensures IsNear(line) && Fits(line)
  {
    ShortIsNear(line);
    LexIncreases(line, DELIMITERS);
    forall t | t in Lex(line) ensures t.pos < INT_MAX {
      assert Matches(line, t.pos, t.kind);
    }
    EarlyLineFits(line);
  }
}
