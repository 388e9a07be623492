/** Variable paths without tokens and states: a reader that goes through the line once, part by part, and takes
    the text in quotes and between brackets as a whole. It reads every line as VarParser does. */
module VarGrammar {
  import opened VarTokens
  import opened VarParser
  import opened Wrappers

  // ---- the reader ----

  // The delimiter at i.
  function Delim(line: string, i: nat): Kind {
    if i >= |line| then Undefined
    else if line[i] == '[' then Array
    else if line[i] == ']' then ArrayEnd
    else if line[i] == '"' then Interpreted
    else if line[i] == '\'' then Literal
    else if i + 1 < |line| && line[i] == '-' && line[i + 1] == '>' then Object
    else if i + 1 < |line| && line[i] == ':' && line[i + 1] == ':' then Class
    else Undefined
  }

  // Where the next delimiter begins, or the line ends.
  function NextAt(line: string, i: nat): (n: nat)
    requires i <= |line|
    ensures i <= n <= |line| && (n < |line| ==> Delim(line, n) != Undefined)
    decreases |line| - i
  {
    if i == |line| || Delim(line, i) != Undefined then i else NextAt(line, i + 1)
  }

  // At a delimiter, or at the end.
  predicate Bounded(line: string, i: nat) {
    i >= |line| || Delim(line, i) != Undefined
  }

  predicate IsQuote(kind: Kind) {
    kind == Interpreted || kind == Literal
  }

  // What may follow a closing bracket: nothing, or anything up to a delimiter that is not a quote.
  predicate MayFollow(line: string, i: nat)
    requires i <= |line|
  {
    var n := NextAt(line, i);
    if n == |line| then i == |line| else !IsQuote(Delim(line, n))
  }

  // Where the first q is.
  function Find(q: char, line: string, i: nat): (r: Option<nat>)
    requires i <= |line|
    ensures r.Some? ==> i <= r.value < |line| && line[r.value] == q
    decreases |line| - i
  {
    if i == |line| then None else if line[i] == q then Some(i) else Find(q, line, i + 1)
  }

  predicate HasArrow(line: string, i: nat, j: nat)
    decreases j - i
  {
    i < j && (Delim(line, i) == Object || HasArrow(line, i + 1, j))
  }

  // Where the last of so many brackets closes. Quoted text in between counts as a whole, and is followed by a
  // delimiter.
  function Inside(line: string, i: nat, depth: nat, arrows: bool): (r: Option<nat>)
    requires i <= |line|
    ensures r.Some? ==> i <= r.value < |line|
    decreases |line| - i
  {
    if i == |line| then None
    else
      var kind := Delim(line, i);
      if kind == Undefined then Inside(line, i + 1, depth, arrows)
      else if kind == Array then Inside(line, i + 1, depth + 1, arrows)
      else if kind == ArrayEnd then
        if !MayFollow(line, i + 1) then None
        else if depth <= 1 then Some(i) else Inside(line, i + 1, depth - 1, arrows)
      else if IsQuote(kind) then
        match Find(line[i], line, i + 1)
        case None => None
        case Some(j) =>
          if !Bounded(line, j + 1) || (!arrows && HasArrow(line, i + 1, j)) then None
          else Inside(line, j + 1, depth, arrows)
      else if Bounded(line, i + 2) || (kind == Object && !arrows) then None
      else Inside(line, i + 2, depth, arrows)
  }

  function Before(a: Access, rest: Option<seq<Access>>): Option<seq<Access>> {
    match rest
    case None => None
    case Some(chain) => Some([a] + chain)
  }

  // Arrows are allowed behind the first part, and in it if the line begins with a dollar sign.
  predicate Arrows(line: string, i: nat) {
    i != 0 || (line != "" && line[0] == '$')
  }

  // An access, and where the next one begins.
  datatype Part = Part(a: Access, end: nat)

  // The parts of a line that begin at i, where n is the next delimiter or the end of the line. index: what
  // becomes of the text between brackets.

  function LastPart(ok: string -> bool, line: string, i: nat): Option<Part>
    requires i < |line|
  {
    if ok(line[i..]) then Some(Part(Access(if line[i] == '$' then Var else Constant, line[i..], Absent), |line|))
    else None
  }

  // The first character is taken for the quote, even if it is none.
  function QuotedPart(line: string, i: nat, n: nat): Option<Part>
    requires i <= n < |line|
  {
    match Find(line[n], line, n + 1)
    case None => None
    case Some(j) => QuotedUpTo(line, i + 1, j)
  }

  function QuotedUpTo(line: string, from: nat, j: nat): Option<Part>
    requires from <= j < |line|
  {
    if Bounded(line, j + 1) then Some(Part(Access(Interpreted, line[from..j], Absent), j + 1)) else None
  }

  function IndexedUpTo(ok: string -> bool, index: string -> Index, line: string, i: nat, n: nat, j: nat): Option<Part>
    requires i <= n < j < |line|
  {
    if ok(line[i..n]) then Some(Part(Access(Array, line[i..n], index(line[n + 1..j])), j + 1)) else None
  }

  function IndexedPart(ok: string -> bool, index: string -> Index, line: string, i: nat, n: nat): Option<Part>
    requires i <= n < |line|
  {
    match Inside(line, n + 1, 1, Arrows(line, i))
    case None => None
    case Some(j) => IndexedUpTo(ok, index, line, i, n, j)
  }

  function PlainPart(ok: string -> bool, line: string, i: nat, n: nat): Option<Part>
    requires i <= n < |line|
  {
    var kind := Delim(line, n);
    if Bounded(line, n + 2) || (kind == Object && !Arrows(line, i)) || !ok(line[i..n]) then None
    else Some(Part(Access(kind, line[i..n], Absent), n + 2))
  }

  function PartAt(ok: string -> bool, index: string -> Index, line: string, i: nat): (r: Option<Part>)
    requires i < |line|
    ensures r.Some? ==> i < r.value.end <= |line|
  {
    var n := NextAt(line, i);
    if n == |line| then LastPart(ok, line, i)
    else
      match Delim(line, n)
      case Interpreted => QuotedPart(line, i, n)
      case Literal => QuotedPart(line, i, n)
      case Array => IndexedPart(ok, index, line, i, n)
      case Object => PlainPart(ok, line, i, n)
      case Class => PlainPart(ok, line, i, n)
      case _ => None
  }

  // The accesses from i on.
  function Parts(ok: string -> bool, index: string -> Index, line: string, i: nat): Option<seq<Access>>
    requires i <= |line|
    decreases |line| - i
  {
    if i == |line| then Some([])
    else
      match PartAt(ok, index, line, i)
      case None => None
      case Some(p) => Before(p.a, Parts(ok, index, line, p.end))
  }

  function ReadIndex(ok: string -> bool, text: string): Index
    decreases |text|, 2
  {
    match Read(ok, text)
    case None => Absent
    case Some(chain) => Index(chain)
  }

  function IndexReader(ok: string -> bool, line: string): string -> Index
    decreases |line|, 0
  {
    text => if |text| < |line| then ReadIndex(ok, text) else Absent
  }

  // The accesses of a path.
  function Read(ok: string -> bool, line: string): Option<seq<Access>>
    decreases |line|, 1
  {
    if line == "" then Some([Access(Constant, "", Absent)]) else Parts(ok, IndexReader(ok, line), line, 0)
  }

  // ---- delimiters and tokens ----

  lemma MatchesOne(line: string, i: nat, kind: Kind)
    requires i <= |line| && |Repr(kind)| == 1
    ensures Matches(line, i, kind) <==> i < |line| && line[i] == Repr(kind)[0]
  {
    if i < |line| {
      assert line[i..i + 1] == [line[i]];
    }
  }

  lemma MatchesTwo(line: string, i: nat, kind: Kind)
    requires i <= |line| && |Repr(kind)| == 2
    ensures Matches(line, i, kind) <==> i + 1 < |line| && line[i] == Repr(kind)[0] && line[i + 1] == Repr(kind)[1]
  {
    if i + 1 < |line| {
      assert line[i..i + 2] == [line[i], line[i + 1]];
    }
  }

  lemma DelimIs(line: string, i: nat)
    requires i <= |line|
    ensures DelimiterAt(line, i, DELIMITERS) == Delim(line, i)
  {
    MatchesTwo(line, i, Object);
    MatchesOne(line, i, Array);
    MatchesOne(line, i, ArrayEnd);
    MatchesOne(line, i, Interpreted);
    MatchesOne(line, i, Literal);
    MatchesTwo(line, i, Class);
    FirstOf(line, i, [Object, Array, ArrayEnd, Interpreted, Literal, Class]);
  }

  lemma FirstOf(line: string, i: nat, kinds: seq<Kind>)
    requires kinds == [Object, Array, ArrayEnd, Interpreted, Literal, Class] && AllDelimiters(kinds)
    ensures DelimiterAt(line, i, kinds) ==
            if Matches(line, i, Object) then Object
            else if Matches(line, i, Array) then Array
            else if Matches(line, i, ArrayEnd) then ArrayEnd
            else if Matches(line, i, Interpreted) then Interpreted
            else if Matches(line, i, Literal) then Literal
            else if Matches(line, i, Class) then Class
            else Undefined
  {
    assert kinds[5..][1..] == [] && kinds[4..][1..] == kinds[5..] && kinds[3..][1..] == kinds[4..];
    assert kinds[2..][1..] == kinds[3..] && kinds[1..][1..] == kinds[2..];
    assert DelimiterAt(line, i, kinds[5..]) == if Matches(line, i, Class) then Class else Undefined;
    assert Matches(line, i, Literal) || DelimiterAt(line, i, kinds[4..]) == DelimiterAt(line, i, kinds[5..]);
    assert Matches(line, i, Interpreted) || DelimiterAt(line, i, kinds[3..]) == DelimiterAt(line, i, kinds[4..]);
    assert Matches(line, i, ArrayEnd) || DelimiterAt(line, i, kinds[2..]) == DelimiterAt(line, i, kinds[3..]);
    assert Matches(line, i, Array) || DelimiterAt(line, i, kinds[1..]) == DelimiterAt(line, i, kinds[2..]);
  }

  // ---- tokens from a position on ----

  function From(line: string, i: nat): seq<Token> {
    LexAll(line, DELIMITERS, i)
  }

  // Where a delimiter at i ends, or the next character begins.
  function Behind(line: string, i: nat): (e: nat)
    requires i < |line|
    ensures i < e <= |line|
  {
    if Delim(line, i) == Object || Delim(line, i) == Class then i + 2 else i + 1
  }

  // The first token, if there is a delimiter at i, and the tokens behind it.
  lemma FromStep(line: string, i: nat)
    requires i < |line|
    ensures var kind, e := Delim(line, i), Behind(line, i);
            && (kind != Undefined ==> IsDelimiter(kind) && e == i + |Repr(kind)|)
            && From(line, i) == (if kind == Undefined then [] else [Token(kind, i)]) + From(line, e)
  {
    DelimIs(line, i);
  }

  lemma {:induction false} FromNext(line: string, i: nat)
    requires i <= |line|
    ensures From(line, i) == From(line, NextAt(line, i))
    decreases |line| - i
  {
    if i < |line| && Delim(line, i) == Undefined {
      FromStep(line, i);
      FromNext(line, i + 1);
    }
  }

  // The first token from i on.
  lemma NextToken(line: string, i: nat)
    requires i <= |line|
    ensures var n := NextAt(line, i);
            if n == |line| then From(line, i) == []
            else From(line, i) != [] && From(line, i)[0] == Token(Delim(line, n), n)
  {
    var n := NextAt(line, i);
    FromNext(line, i);
    if n < |line| {
      FromStep(line, n);
    }
  }

  // TokenValid for a token that ends at e, in terms of what follows it.
  predicate ValidAt(line: string, kind: Kind, e: nat, st: State)
    requires e <= |line|
  {
    if IsQuote(kind) then st.quote == kind ==> Bounded(line, e)
    else if kind == ArrayEnd then st.quote == Undefined ==> st.depth >= 1 && MayFollow(line, e)
    else if kind == Object then (st.quote == Undefined ==> !Bounded(line, e)) && Arrows(line, st.pos)
    else if kind == Class then st.quote == Undefined ==> !Bounded(line, e)
    else true
  }

  lemma TokenValidAt(line: string, t: Token, e: nat, st: State)
    requires IsDelimiter(t.kind) && e == t.pos + |Repr(t.kind)| <= |line| && line != []
    ensures TokenValid(line, [t] + From(line, e), st) <==> ValidAt(line, t.kind, e, st)
  {
    var tokens := [t] + From(line, e);
    NextToken(line, e);
    assert |tokens| > 1 ==> tokens[1] == From(line, e)[0];
    assert NextEmpty(line, tokens) <==> Bounded(line, e);
  }

  // ---- the rest of a run ----

  // A state at i: the part began before it, and so did the index, behind its bracket.
  predicate Placed(line: string, i: nat, st: State) {
    && i <= |line| && st.pos <= i
    && (st.quote == Undefined || st.quote == Interpreted || st.quote == Literal)
    && if st.depth == 0 then st.start == 0 else st.pos < st.start <= i && line[st.start - 1] == '['
  }

  lemma LocatedBefore(line: string, i: nat, j: nat, tokens: seq<Token>)
    requires Located(line, i, tokens) && j <= i
    ensures Located(line, j, tokens)
  {
  }

  lemma PlacedInBounds(line: string, i: nat, st: State)
    requires Placed(line, i, st)
    ensures InBounds(line, From(line, i), st)
  {
    LexLocated(line, DELIMITERS, i);
    LocatedBefore(line, i, st.pos, From(line, i));
    LocatedBefore(line, i, if st.depth > 0 then st.start else 0, From(line, i));
  }

  // What is made of the line from some position and state on.
  type Runner = (nat, State) -> Option<seq<Access>>

  // A part ends at t, and the line goes on at e.
  function Closed(ok: string -> bool, parse: string -> Index, rest: Runner, line: string, t: Token, e: nat, b: State)
    : Option<seq<Access>>
    requires PartEnds(line, t, b) && Repr(t.kind) != [] && e == t.pos + |Repr(t.kind)|
  {
    match ClosePart(ok, parse, line, t, b)
    case None => None
    case Some(st') => rest(e, st')
  }

  // At the end of the line.
  function Last(ok: string -> bool, line: string, st: State): Option<seq<Access>>
    requires st.pos <= |line|
  {
    if st.depth != 0 || st.quote != Undefined then None
    else if st.pos != |line| then Create(ok, st.chain, line[st.pos..], Constant, Absent)
    else Some(st.chain)
  }

  // One token of the machine.
  predicate TokenLaw(ok: string -> bool, parse: string -> Index, rest: Runner, line: string, i: nat, st: State,
                     t: Token, e: nat)
    requires e <= |line| && t.pos == i
  {
    var q := Quoted(t, st);
    var b := Bracketed(t, q);
    && e == i + |Repr(t.kind)| && IsDelimiter(t.kind)
    && Placed(line, e, q) && (b.depth > 0 ==> Placed(line, e, b))
    && (q.quote == Undefined && b.depth == 0 ==> PartEnds(line, t, b))
    && rest(i, st) ==
       if !ValidAt(line, t.kind, e, st) then None
       else if q.quote != Undefined then rest(e, q)
       else if b.depth > 0 then rest(e, b)
       else Closed(ok, parse, rest, line, t, e, b)
  }

  // One step of the machine.
  predicate StepLaw(ok: string -> bool, parse: string -> Index, rest: Runner, line: string, i: nat, st: State)
    requires i <= |line| && st.pos <= |line|
  {
    if i == |line| then rest(i, st) == Last(ok, line, st)
    else if Delim(line, i) == Undefined then rest(i, st) == rest(i + 1, st)
    else TokenLaw(ok, parse, rest, line, i, st, Token(Delim(line, i), i), Behind(line, i))
  }

  // rest takes the steps of the machine on this line.
  ghost predicate Machine(ok: string -> bool, parse: string -> Index, rest: Runner, line: string) {
    forall i, st {:trigger StepLaw(ok, parse, rest, line, i, st)} ::
      Placed(line, i, st) ==> StepLaw(ok, parse, rest, line, i, st)
  }

  lemma Skips(ok: string -> bool, parse: string -> Index, rest: Runner, line: string, i: nat, st: State)
    requires Machine(ok, parse, rest, line)
    requires i < |line| && Placed(line, i, st) && Delim(line, i) == Undefined
    ensures rest(i, st) == rest(i + 1, st)
  {
    assert StepLaw(ok, parse, rest, line, i, st);
  }

  lemma Steps(ok: string -> bool, parse: string -> Index, rest: Runner, line: string, i: nat, st: State,
              t: Token, e: nat)
    requires Machine(ok, parse, rest, line)
    requires i < |line| && Placed(line, i, st)
    requires t == Token(Delim(line, i), i) && t.kind != Undefined && e == Behind(line, i)
    ensures TokenLaw(ok, parse, rest, line, i, st, t, e)
  {
    assert StepLaw(ok, parse, rest, line, i, st);
  }

  lemma Ends(ok: string -> bool, parse: string -> Index, rest: Runner, line: string, st: State)
    requires Machine(ok, parse, rest, line) && Placed(line, |line|, st)
    ensures rest(|line|, st) == Last(ok, line, st)
  {
    assert StepLaw(ok, parse, rest, line, |line|, st);
  }

  // ---- quoted text ----

  lemma QuoteCharacter(line: string, i: nat, kind: Kind)
    requires i < |line| && IsQuote(kind)
    ensures Delim(line, i) == kind <==> line[i] == Repr(kind)[0]
    ensures line[i] == Repr(kind)[0] ==> Behind(line, i) == i + 1
    ensures Delim(line, i) != kind && Behind(line, i) == i + 2 ==> line[i + 1] != Repr(kind)[0]
  {
  }

  lemma QuoteGoesOn(ok: string -> bool, parse: string -> Index, rest: Runner, line: string, i: nat, st: State, e: nat)
    requires Machine(ok, parse, rest, line)
    requires i < |line| && Placed(line, i, st) && IsQuote(st.quote)
    requires Delim(line, i) != st.quote && e == Behind(line, i)
    ensures Placed(line, e, st)
    ensures rest(i, st) ==
            if Delim(line, i) == Object && !Arrows(line, st.pos) then None else rest(e, st)
  {
    if Delim(line, i) == Undefined {
      Skips(ok, parse, rest, line, i, st);
    } else {
      Steps(ok, parse, rest, line, i, st, Token(Delim(line, i), i), e);
      assert Quoted(Token(Delim(line, i), i), st) == st;
    }
  }

  // A step inside quotes.
  lemma QuotePasses(line: string, i: nat, e: nat, kind: Kind)
    requires i < |line| && IsQuote(kind) && Delim(line, i) != kind && e == Behind(line, i)
    ensures Find(Repr(kind)[0], line, i) == Find(Repr(kind)[0], line, e)
    ensures var end := Find(Repr(kind)[0], line, i);
            end.Some? ==>
              (HasArrow(line, i, end.value) <==> Delim(line, i) == Object || HasArrow(line, e, end.value))
  {
    QuoteCharacter(line, i, kind);
  }

  // From inside a quote to the character that closes it.
  lemma {:induction false} QuotedRun(ok: string -> bool, parse: string -> Index, rest: Runner, line: string, i: nat,
                                     st: State)
    requires Machine(ok, parse, rest, line)
    requires Placed(line, i, st) && IsQuote(st.quote)
    ensures var r := rest(i, st);
            match Find(Repr(st.quote)[0], line, i)
            case None => r == None
            case Some(j) =>
              if !Arrows(line, st.pos) && HasArrow(line, i, j) then r == None
              else Placed(line, j, st) && r == rest(j, st)
    decreases |line| - i
  {
    if i == |line| {
      Ends(ok, parse, rest, line, st);
    } else {
      QuoteCharacter(line, i, st.quote);
      if Delim(line, i) != st.quote {
        var e := Behind(line, i);
        QuoteGoesOn(ok, parse, rest, line, i, st, e);
        QuotePasses(line, i, e, st.quote);
        QuotedRun(ok, parse, rest, line, e, st);
      }
    }
  }

  // ---- text between brackets ----

  // Inside brackets that have been open since the part began.
  predicate InIndex(line: string, i: nat, st: State) {
    Placed(line, i, st) && st.depth > 0 && st.quote == Undefined
  }

  // A quote opens between brackets, and closes there.
  lemma IndexOpensQuote(ok: string -> bool, parse: string -> Index, rest: Runner, line: string, i: nat, st: State,
                        q: State)
    requires Machine(ok, parse, rest, line)
    requires InIndex(line, i, st) && i < |line| && IsQuote(Delim(line, i)) && q == st.(quote := Delim(line, i))
    ensures Placed(line, i + 1, q)
    ensures rest(i, st) == rest(i + 1, q)
  {
    QuoteCharacter(line, i, q.quote);
    Steps(ok, parse, rest, line, i, st, Token(q.quote, i), i + 1);
    assert Quoted(Token(q.quote, i), st) == q;
  }

  lemma IndexClosesQuote(ok: string -> bool, parse: string -> Index, rest: Runner, line: string, j: nat, st: State,
                         q: State)
    requires Machine(ok, parse, rest, line)
    requires j < |line| && Placed(line, j, q) && q == st.(quote := Delim(line, j))
    requires IsQuote(q.quote) && st.depth > 0 && st.quote == Undefined
    ensures InIndex(line, j + 1, st)
    ensures rest(j, q) == if Bounded(line, j + 1) then rest(j + 1, st) else None
  {
    QuoteCharacter(line, j, q.quote);
    Steps(ok, parse, rest, line, j, q, Token(q.quote, j), j + 1);
    assert Quoted(Token(q.quote, j), q) == st;
  }

  // Where the quote at i closes, if it may.
  function QuoteEnd(line: string, i: nat, arrows: bool): (r: Option<nat>)
    requires i < |line|
    ensures r.Some? ==> i < r.value < |line|
  {
    match Find(line[i], line, i + 1)
    case None => None
    case Some(j) => if !Bounded(line, j + 1) || (!arrows && HasArrow(line, i + 1, j)) then None else Some(j)
  }

  lemma IndexQuote(ok: string -> bool, parse: string -> Index, rest: Runner, line: string, i: nat, st: State)
    requires Machine(ok, parse, rest, line)
    requires InIndex(line, i, st) && i < |line| && IsQuote(Delim(line, i))
    ensures var r := rest(i, st);
            match QuoteEnd(line, i, Arrows(line, st.pos))
            case None => r == None
            case Some(j) => InIndex(line, j + 1, st) && r == rest(j + 1, st)
  {
    var q := st.(quote := Delim(line, i));
    QuoteCharacter(line, i, q.quote);
    IndexOpensQuote(ok, parse, rest, line, i, st, q);
    QuotedRun(ok, parse, rest, line, i + 1, q);
    var end := Find(line[i], line, i + 1);
    if end.Some? {
      QuoteCharacter(line, end.value, q.quote);
      if Arrows(line, st.pos) || !HasArrow(line, i + 1, end.value) {
        IndexClosesQuote(ok, parse, rest, line, end.value, st, q);
      }
    }
  }

  // Any other delimiter that leaves a bracket open.
  lemma IndexGoesOn(ok: string -> bool, parse: string -> Index, rest: Runner, line: string, i: nat, st: State,
                    e: nat, b: State)
    requires Machine(ok, parse, rest, line)
    requires InIndex(line, i, st) && i < |line| && e == Behind(line, i) && !IsQuote(Delim(line, i))
    requires b == Bracketed(Token(Delim(line, i), i), st) && b.depth > 0
    ensures InIndex(line, e, b)
    ensures rest(i, st) ==
            if Delim(line, i) == Undefined || ValidAt(line, Delim(line, i), e, st) then rest(e, b)
            else None
  {
    if Delim(line, i) == Undefined {
      Skips(ok, parse, rest, line, i, st);
    } else {
      Steps(ok, parse, rest, line, i, st, Token(Delim(line, i), i), e);
    }
  }

  lemma InsideQuote(line: string, i: nat, depth: nat, arrows: bool)
    requires i < |line| && IsQuote(Delim(line, i))
    ensures Inside(line, i, depth, arrows) ==
            match QuoteEnd(line, i, arrows)
            case None => None
            case Some(j) => Inside(line, j + 1, depth, arrows)
  {
  }

  lemma InsideOther(line: string, i: nat, st: State, b: State)
    requires i < |line| && !IsQuote(Delim(line, i)) && st.quote == Undefined && st.depth > 0
    requires b == Bracketed(Token(Delim(line, i), i), st) && b.depth > 0
    ensures Inside(line, i, st.depth, Arrows(line, st.pos)) ==
            if Delim(line, i) == Undefined || ValidAt(line, Delim(line, i), Behind(line, i), st)
            then Inside(line, Behind(line, i), b.depth, Arrows(line, b.pos)) else None
    ensures b.(depth := 1) == st.(depth := 1)
  {
  }

  lemma IndexLast(ok: string -> bool, parse: string -> Index, rest: Runner, line: string, i: nat, st: State)
    requires Machine(ok, parse, rest, line)
    requires InIndex(line, i, st) && i < |line| && Delim(line, i) == ArrayEnd && !MayFollow(line, i + 1)
    ensures rest(i, st) == None
  {
    Steps(ok, parse, rest, line, i, st, Token(ArrayEnd, i), i + 1);
  }

  // The run comes to the bracket at end, which may close there, or fails.
  predicate RunsTo(rest: Runner, line: string, b: State, end: Option<nat>, r: Option<seq<Access>>)
    requires end.Some? ==> end.value < |line|
  {
    match end
    case None => r == None
    case Some(j) => Delim(line, j) == ArrayEnd && MayFollow(line, j + 1) && InIndex(line, j, b) && r == rest(j, b)
  }

  lemma IndexStops(ok: string -> bool, parse: string -> Index, rest: Runner, line: string, i: nat, st: State)
    requires Machine(ok, parse, rest, line)
    requires InIndex(line, i, st) && (i == |line| || (Delim(line, i) == ArrayEnd && st.depth == 1))
    ensures RunsTo(rest, line, st.(depth := 1), Inside(line, i, st.depth, Arrows(line, st.pos)), rest(i, st))
  {
    if i == |line| {
      Ends(ok, parse, rest, line, st);
    } else if !MayFollow(line, i + 1) {
      IndexLast(ok, parse, rest, line, i, st);
    }
  }

  // From between brackets to the one that closes the first of them.
  lemma {:induction false} IndexRun(ok: string -> bool, parse: string -> Index, rest: Runner, line: string, i: nat,
                                    st: State, b: State)
    requires Machine(ok, parse, rest, line)
    requires InIndex(line, i, st) && b == st.(depth := 1)
    ensures RunsTo(rest, line, b, Inside(line, i, st.depth, Arrows(line, st.pos)), rest(i, st))
    decreases |line| - i
  {
    if i == |line| || (Delim(line, i) == ArrayEnd && st.depth == 1) {
      IndexStops(ok, parse, rest, line, i, st);
    } else if IsQuote(Delim(line, i)) {
      IndexQuote(ok, parse, rest, line, i, st);
      InsideQuote(line, i, st.depth, Arrows(line, st.pos));
      var end := QuoteEnd(line, i, Arrows(line, st.pos));
      if end.Some? {
        IndexRun(ok, parse, rest, line, end.value + 1, st, b);
      }
    } else {
      var st' := Bracketed(Token(Delim(line, i), i), st);
      IndexGoesOn(ok, parse, rest, line, i, st, Behind(line, i), st');
      InsideOther(line, i, st, st');
      IndexRun(ok, parse, rest, line, Behind(line, i), st', b);
    }
  }

  // ---- parts ----

  function Joined(chain: seq<Access>, rest: Option<seq<Access>>): Option<seq<Access>> {
    match rest
    case None => None
    case Some(more) => Some(chain + more)
  }

  lemma JoinedBefore(chain: seq<Access>, a: Access, rest: Option<seq<Access>>)
    ensures Joined(chain + [a], rest) == Joined(chain, Before(a, rest))
  {
    if rest.Some? {
      assert chain + [a] + rest.value == chain + ([a] + rest.value);
    }
  }

  // Between two parts.
  predicate AtPart(line: string, i: nat, st: State) {
    i <= |line| && st == State(i, 0, 0, Undefined, st.chain)
  }

  // Up to the next delimiter.
  lemma {:induction false} RestNext(ok: string -> bool, parse: string -> Index, rest: Runner, line: string, i: nat,
                                    st: State)
    requires Machine(ok, parse, rest, line)
    requires Placed(line, i, st)
    ensures Placed(line, NextAt(line, i), st)
    ensures rest(i, st) == rest(NextAt(line, i), st)
    decreases |line| - i
  {
    if i < |line| && Delim(line, i) == Undefined {
      Skips(ok, parse, rest, line, i, st);
      RestNext(ok, parse, rest, line, i + 1, st);
    }
  }

  // The line goes on behind the next part.
  function Onward(rest: Runner, chain: seq<Access>, part: Option<Part>): Option<seq<Access>> {
    match part
    case None => None
    case Some(p) => rest(p.end, State(p.end, 0, 0, Undefined, chain + [p.a]))
  }

  lemma PartLast(ok: string -> bool, parse: string -> Index, rest: Runner, line: string, i: nat, st: State)
    requires Machine(ok, parse, rest, line)
    requires AtPart(line, i, st) && i < |line| == NextAt(line, i)
    ensures rest(i, st) == Onward(rest, st.chain, LastPart(ok, line, i))
  {
    RestNext(ok, parse, rest, line, i, st);
    Ends(ok, parse, rest, line, st);
    var part := LastPart(ok, line, i);
    if part.Some? {
      Ends(ok, parse, rest, line, State(|line|, 0, 0, Undefined, st.chain + [part.value.a]));
    }
  }

  // A part that ends at t with the access a.
  lemma PartCloses(ok: string -> bool, parse: string -> Index, rest: Runner, line: string, t: Token, e: nat,
                   b: State, a: Access)
    requires Machine(ok, parse, rest, line)
    requires PartEnds(line, t, b) && Repr(t.kind) != [] && e == t.pos + |Repr(t.kind)|
    requires a.kind == PartKind(t.kind) && a.kind != Constant
    requires a.value == line[b.pos..if b.start > 0 then b.start - 1 else t.pos]
    requires a.index == if b.start > 0 then parse(line[b.start..t.pos]) else Absent
    ensures var st' := State(e, 0, 0, Undefined, b.chain + [a]);
            && AtPart(line, e, st')
            && Closed(ok, parse, rest, line, t, e, b) ==
               if a.kind != Interpreted && !ok(a.value) then None else rest(e, st')
  {
  }

  // A part in quotes: from its begin into the quotes, and out of them at j.
  lemma PartOpensQuote(ok: string -> bool, parse: string -> Index, rest: Runner, line: string, i: nat, st: State,
                       n: nat)
    requires Machine(ok, parse, rest, line)
    requires AtPart(line, i, st) && n == NextAt(line, i) < |line| && IsQuote(Delim(line, n))
    ensures rest(i, st) == rest(n + 1, State(i + 1, 0, 0, Delim(line, n), st.chain))
  {
    RestNext(ok, parse, rest, line, i, st);
    QuoteCharacter(line, n, Delim(line, n));
    Steps(ok, parse, rest, line, n, st, Token(Delim(line, n), n), n + 1);
  }

  lemma PartClosesQuote(ok: string -> bool, parse: string -> Index, rest: Runner, line: string, q: State, j: nat)
    requires Machine(ok, parse, rest, line)
    requires j < |line| && IsQuote(q.quote) && Delim(line, j) == q.quote && 0 < q.pos <= j && q.depth == q.start == 0
    ensures rest(j, q) == Onward(rest, q.chain, QuotedUpTo(line, q.pos, j))
  {
    QuoteCharacter(line, j, q.quote);
    Steps(ok, parse, rest, line, j, q, Token(q.quote, j), j + 1);
    PartCloses(ok, parse, rest, line, Token(q.quote, j), j + 1, q.(quote := Undefined),
               Access(Interpreted, line[q.pos..j], Absent));
  }

  lemma PartQuoted(ok: string -> bool, parse: string -> Index, rest: Runner, line: string, i: nat, st: State, n: nat)
    requires Machine(ok, parse, rest, line)
    requires AtPart(line, i, st) && n == NextAt(line, i) < |line| && IsQuote(Delim(line, n))
    ensures rest(i, st) == Onward(rest, st.chain, QuotedPart(line, i, n))
  {
    var q := State(i + 1, 0, 0, Delim(line, n), st.chain);
    PartOpensQuote(ok, parse, rest, line, i, st, n);
    QuoteCharacter(line, n, q.quote);
    QuotedRun(ok, parse, rest, line, n + 1, q);
    PartLeavesQuote(ok, parse, rest, line, q, Find(line[n], line, n + 1), rest(n + 1, q));
  }

  lemma PartLeavesQuote(ok: string -> bool, parse: string -> Index, rest: Runner, line: string, q: State,
                        end: Option<nat>, r: Option<seq<Access>>)
    requires Machine(ok, parse, rest, line)
    requires IsQuote(q.quote) && q.pos > 0 && q.depth == q.start == 0
    requires end.Some? ==> q.pos <= end.value < |line| && line[end.value] == Repr(q.quote)[0]
    requires r == match end { case None => None case Some(j) => rest(j, q) }
    ensures r == Onward(rest, q.chain, match end
                                       case None => None
                                       case Some(j) => QuotedUpTo(line, q.pos, j))
  {
    if end.Some? {
      QuoteCharacter(line, end.value, q.quote);
      PartClosesQuote(ok, parse, rest, line, q, end.value);
    }
  }

  // A part with an index: from its begin into the brackets, and out of them at j.
  lemma PartOpensIndex(ok: string -> bool, parse: string -> Index, rest: Runner, line: string, i: nat, st: State,
                       n: nat)
    requires Machine(ok, parse, rest, line)
    requires AtPart(line, i, st) && n == NextAt(line, i) < |line| && Delim(line, n) == Array
    ensures InIndex(line, n + 1, State(i, 1, n + 1, Undefined, st.chain))
    ensures rest(i, st) == rest(n + 1, State(i, 1, n + 1, Undefined, st.chain))
  {
    RestNext(ok, parse, rest, line, i, st);
    Steps(ok, parse, rest, line, n, st, Token(Array, n), n + 1);
  }

  lemma PartClosesIndex(ok: string -> bool, parse: string -> Index, rest: Runner, line: string, b: State, j: nat)
    requires Machine(ok, parse, rest, line)
    requires InIndex(line, j, b) && b.depth == 1 && j < |line| && Delim(line, j) == ArrayEnd && MayFollow(line, j + 1)
    ensures rest(j, b) == Onward(rest, b.chain, IndexedUpTo(ok, parse, line, b.pos, b.start - 1, j))
  {
    Steps(ok, parse, rest, line, j, b, Token(ArrayEnd, j), j + 1);
    PartCloses(ok, parse, rest, line, Token(ArrayEnd, j), j + 1, b.(depth := 0),
               Access(Array, line[b.pos..b.start - 1], parse(line[b.start..j])));
  }

  lemma PartIndexed(ok: string -> bool, parse: string -> Index, rest: Runner, line: string, i: nat, st: State, n: nat)
    requires Machine(ok, parse, rest, line)
    requires AtPart(line, i, st) && n == NextAt(line, i) < |line| && Delim(line, n) == Array
    ensures rest(i, st) == Onward(rest, st.chain, IndexedPart(ok, parse, line, i, n))
  {
    var b := State(i, 1, n + 1, Undefined, st.chain);
    PartOpensIndex(ok, parse, rest, line, i, st, n);
    IndexRun(ok, parse, rest, line, n + 1, b, b);
    PartLeavesIndex(ok, parse, rest, line, b, Inside(line, n + 1, 1, Arrows(line, i)), rest(n + 1, b));
  }

  lemma PartLeavesIndex(ok: string -> bool, parse: string -> Index, rest: Runner, line: string, b: State,
                        end: Option<nat>, r: Option<seq<Access>>)
    requires Machine(ok, parse, rest, line)
    requires b.depth == 1 && b.pos < b.start && (end.Some? ==> b.start <= end.value < |line|)
    requires RunsTo(rest, line, b, end, r)
    ensures r == Onward(rest, b.chain, match end
                                       case None => None
                                       case Some(j) => IndexedUpTo(ok, parse, line, b.pos, b.start - 1, j))
  {
    if end.Some? {
      PartClosesIndex(ok, parse, rest, line, b, end.value);
    }
  }

  // A part before an arrow or a double colon, and a bracket that closes nothing.
  lemma PartPlain(ok: string -> bool, parse: string -> Index, rest: Runner, line: string, i: nat, st: State, n: nat)
    requires Machine(ok, parse, rest, line)
    requires AtPart(line, i, st) && n == NextAt(line, i) < |line| && Delim(line, n) in {Object, Class}
    ensures rest(i, st) == Onward(rest, st.chain, PlainPart(ok, line, i, n))
  {
    var t := Token(Delim(line, n), n);
    RestNext(ok, parse, rest, line, i, st);
    Steps(ok, parse, rest, line, n, st, t, n + 2);
    PartCloses(ok, parse, rest, line, t, n + 2, st, Access(t.kind, line[i..n], Absent));
  }

  lemma PartStray(ok: string -> bool, parse: string -> Index, rest: Runner, line: string, i: nat, st: State, n: nat)
    requires Machine(ok, parse, rest, line)
    requires AtPart(line, i, st) && n == NextAt(line, i) < |line| && Delim(line, n) == ArrayEnd
    ensures rest(i, st) == None
  {
    RestNext(ok, parse, rest, line, i, st);
    Steps(ok, parse, rest, line, n, st, Token(ArrayEnd, n), n + 1);
  }

  lemma PartRun(ok: string -> bool, parse: string -> Index, rest: Runner, line: string, i: nat, st: State)
    requires Machine(ok, parse, rest, line)
    requires AtPart(line, i, st) && i < |line|
    ensures rest(i, st) == Onward(rest, st.chain, PartAt(ok, parse, line, i))
  {
    var n := NextAt(line, i);
    if n == |line| {
      PartLast(ok, parse, rest, line, i, st);
    } else {
      match Delim(line, n)
      case Interpreted => PartQuoted(ok, parse, rest, line, i, st, n);
      case Literal => PartQuoted(ok, parse, rest, line, i, st, n);
      case Array => PartIndexed(ok, parse, rest, line, i, st, n);
      case ArrayEnd => PartStray(ok, parse, rest, line, i, st, n);
      case _ => PartPlain(ok, parse, rest, line, i, st, n);
    }
  }

  // The machine, between two parts, reads the rest of the line as the reader does.
  lemma {:induction false} PartsRun(ok: string -> bool, parse: string -> Index, rest: Runner, line: string, i: nat,
                                    st: State)
    requires Machine(ok, parse, rest, line) && AtPart(line, i, st)
    ensures rest(i, st) == Joined(st.chain, Parts(ok, parse, line, i))
    decreases |line| - i
  {
    if i == |line| {
      Ends(ok, parse, rest, line, st);
      assert st.chain + [] == st.chain;
    } else {
      PartRun(ok, parse, rest, line, i, st);
      var part := PartAt(ok, parse, line, i);
      if part.Some? {
        var a, e := part.value.a, part.value.end;
        PartsRun(ok, parse, rest, line, e, State(e, 0, 0, Undefined, st.chain + [a]));
        JoinedBefore(st.chain, a, Parts(ok, parse, line, e));
      }
    }
  }

  // ---- the parser is such a machine ----

  // What the parser makes of the line from i on.
  function Rest(ok: string -> bool, parse: string -> Index, line: string, i: nat, st: State): Option<seq<Access>>
  {
    if !Placed(line, i, st) then None
    else
      PlacedInBounds(line, i, st);
      match ParseTokens(ok, parse, line, From(line, i), st)
      case None => None
      case Some(st') => Finish(ok, line, st')
  }

  function RestOf(ok: string -> bool, parse: string -> Index, line: string): Runner {
    (i: nat, st: State) => Rest(ok, parse, line, i, st)
  }

  lemma RestAtEnd(ok: string -> bool, parse: string -> Index, line: string, st: State)
    requires Placed(line, |line|, st)
    ensures StepLaw(ok, parse, RestOf(ok, parse, line), line, |line|, st)
  {
    assert From(line, |line|) == [];
    PlacedInBounds(line, |line|, st);
  }

  lemma RestSkips(ok: string -> bool, parse: string -> Index, line: string, i: nat, st: State)
    requires i < |line| && Placed(line, i, st) && Delim(line, i) == Undefined
    ensures StepLaw(ok, parse, RestOf(ok, parse, line), line, i, st)
  {
    FromStep(line, i);
    assert From(line, i) == From(line, i + 1) && Placed(line, i + 1, st);
    PlacedInBounds(line, i, st);
    SameTokensSameRest(ok, parse, line, From(line, i), From(line, i + 1), st);
  }

  lemma SameTokensSameRest(ok: string -> bool, parse: string -> Index, line: string, a: seq<Token>, b: seq<Token>,
                           st: State)
    requires a == b && InBounds(line, a, st)
    ensures ParseTokens(ok, parse, line, a, st) == ParseTokens(ok, parse, line, b, st)
  {
  }

  // The first of some tokens.
  lemma FirstParsed(ok: string -> bool, parse: string -> Index, line: string, t: Token, more: seq<Token>, st: State)
    requires InBounds(line, [t] + more, st)
    ensures line != [] && Repr(t.kind) != []
    ensures var q := Quoted(t, st);
            var b := Bracketed(t, q);
            && (q.quote != Undefined ==> InBounds(line, more, q))
            && (q.quote == Undefined && b.depth > 0 ==> InBounds(line, more, b))
            && (q.quote == Undefined && b.depth == 0 ==>
                  PartEnds(line, t, b) && Located(line, t.pos + |Repr(t.kind)|, more))
            && ParseTokens(ok, parse, line, [t] + more, st) ==
               if !TokenValid(line, [t] + more, st) then None
               else if q.quote != Undefined then ParseTokens(ok, parse, line, more, q)
               else if b.depth > 0 then ParseTokens(ok, parse, line, more, b)
               else
                 match ClosePart(ok, parse, line, t, b)
                 case None => None
                 case Some(st') => ParseTokens(ok, parse, line, more, st')
  {
    AdvanceInBounds(line, [t] + more, st);
    assert ([t] + more)[1..] == more;
  }

  // The quotes and brackets at a token leave the state in place.
  lemma StepPlaced(line: string, i: nat, st: State, t: Token, e: nat)
    requires i < |line| && Placed(line, i, st)
    requires t == Token(Delim(line, i), i) && t.kind != Undefined && e == Behind(line, i)
    ensures e == i + |Repr(t.kind)| && IsDelimiter(t.kind)
    ensures var q := Quoted(t, st);
            var b := Bracketed(t, q);
            && Placed(line, e, q) && (b.depth > 0 ==> Placed(line, e, b))
            && (q.quote == Undefined && b.depth == 0 ==> PartEnds(line, t, b))
  {
  }

  lemma RestToken(ok: string -> bool, parse: string -> Index, line: string, i: nat, st: State, t: Token, e: nat)
    requires i < |line| && Placed(line, i, st)
    requires t == Token(Delim(line, i), i) && t.kind != Undefined && e == Behind(line, i)
    ensures TokenLaw(ok, parse, RestOf(ok, parse, line), line, i, st, t, e)
    ensures StepLaw(ok, parse, RestOf(ok, parse, line), line, i, st)
  {
    FromStep(line, i);
    PlacedInBounds(line, i, st);
    StepPlaced(line, i, st, t, e);
    FirstParsed(ok, parse, line, t, From(line, e), st);
    TokenValidAt(line, t, e, st);
  }

  lemma RestLaw(ok: string -> bool, parse: string -> Index, line: string, i: nat, st: State)
    requires Placed(line, i, st)
    ensures StepLaw(ok, parse, RestOf(ok, parse, line), line, i, st)
  {
    if i == |line| {
      RestAtEnd(ok, parse, line, st);
    } else if Delim(line, i) == Undefined {
      RestSkips(ok, parse, line, i, st);
    } else {
      RestToken(ok, parse, line, i, st, Token(Delim(line, i), i), Behind(line, i));
    }
  }

  lemma RestIsMachine(ok: string -> bool, parse: string -> Index, line: string)
    ensures Machine(ok, parse, RestOf(ok, parse, line), line)
  {
    forall i, st | Placed(line, i, st) ensures StepLaw(ok, parse, RestOf(ok, parse, line), line, i, st) {
      RestLaw(ok, parse, line, i, st);
    }
  }

  lemma ParseIsRest(ok: string -> bool, line: string)
    ensures ParseVar(ok, line) ==
            match Rest(ok, IndexParser(ok, line), line, 0, INITIAL)
            case None => None
            case Some(chain) => Some(if chain == [] then [Access(Constant, "", Absent)] else chain)
  {
  }

  lemma SomeParts(ok: string -> bool, index: string -> Index, line: string, i: nat)
    requires i < |line|
    ensures var r := Parts(ok, index, line, i); r.Some? ==> r.value != []
  {
  }

  // The parts depend on the indices in the line only.
  lemma SamePart(ok: string -> bool, index: string -> Index, index': string -> Index, line: string, i: nat)
    requires i < |line| && forall text: string :: |text| < |line| ==> index(text) == index'(text)
    ensures PartAt(ok, index, line, i) == PartAt(ok, index', line, i)
  {
  }

  lemma {:induction false} SameParts(ok: string -> bool, index: string -> Index, index': string -> Index, line: string,
                                     i: nat)
    requires i <= |line| && forall text: string :: |text| < |line| ==> index(text) == index'(text)
    ensures Parts(ok, index, line, i) == Parts(ok, index', line, i)
    decreases |line| - i
  {
    if i < |line| {
      SamePart(ok, index, index', line, i);
      var part := PartAt(ok, index, line, i);
      if part.Some? {
        SameParts(ok, index, index', line, part.value.end);
      }
    }
  }

  lemma {:induction false} SameIndices(ok: string -> bool, size: nat)
    requires forall text: string :: |text| < size ==> ParseVar(ok, text) == Read(ok, text)
    ensures forall line: string, text: string :: |line| == size && |text| < size ==>
              IndexParser(ok, line)(text) == IndexReader(ok, line)(text)
  {
  }

  /** Every line is read as the parser parses it: the same lines are refused, and the others give the same
      chain. */
  lemma {:induction false} ReadIsParse(ok: string -> bool, line: string)
    ensures ParseVar(ok, line) == Read(ok, line)
    decreases |line|
  {
    if line == "" {
      EmptyPath(ok);
    } else {
      forall text: string | |text| < |line| ensures ParseVar(ok, text) == Read(ok, text) {
        ReadIsParse(ok, text);
      }
      SameIndices(ok, |line|);
      ReadByMachine(ok, IndexParser(ok, line), line);
      SameParts(ok, IndexParser(ok, line), IndexReader(ok, line), line, 0);
      SomeParts(ok, IndexReader(ok, line), line, 0);
      ParseIsRest(ok, line);
    }
  }

  lemma ReadByMachine(ok: string -> bool, parse: string -> Index, line: string)
    ensures Rest(ok, parse, line, 0, INITIAL) == Parts(ok, parse, line, 0)
  {
    RestIsMachine(ok, parse, line);
    PartsRun(ok, parse, RestOf(ok, parse, line), line, 0, INITIAL);
    var r := Parts(ok, parse, line, 0);
    assert r.Some? ==> [] + r.value == r.value;
  }

  // ---- what quotes mean ----

  lemma {:induction false} FindFirst(q: char, line: string, i: nat, j: nat)
    requires i <= j < |line| && line[j] == q && forall k :: i <= k < j ==> line[k] != q
    ensures Find(q, line, i) == Some(j)
    decreases j - i
  {
    if i < j {
      FindFirst(q, line, i + 1, j);
    }
  }

  lemma ReadsQuoted(ok: string -> bool, line: string, q: char, s: string)
    requires (q == '"' || q == '\'') && q !in s
    requires |line| == |s| + 2 && line[0] == q && line[1..|s| + 1] == s && line[|s| + 1] == q
    ensures Read(ok, line) == Some([Access(Interpreted, s, Absent)])
  {
    forall k | 1 <= k < |s| + 1 ensures line[k] != q {
      assert line[k] == line[1..|s| + 1][k - 1];
    }
    FindFirst(q, line, 1, |s| + 1);
    OnePart(ok, IndexReader(ok, line), line, Access(Interpreted, s, Absent));
  }

  lemma OnePart(ok: string -> bool, index: string -> Index, line: string, a: Access)
    requires line != "" && PartAt(ok, index, line, 0) == Some(Part(a, |line|))
    ensures Parts(ok, index, line, 0) == Some([a])
  {
    assert Parts(ok, index, line, |line|) == Some([]) && [a] + [] == [a];
  }

  /** Text in quotes is one string, whatever delimiters it holds, as long as that quote is not among them. */
  lemma QuotedPath(ok: string -> bool, q: char, s: string)
    requires (q == '"' || q == '\'') && q !in s
    ensures ParseVar(ok, [q] + s + [q]) == Some([Access(Interpreted, s, Absent)])
  {
    var line := [q] + s + [q];
    assert line[1..|s| + 1] == s;
    ReadsQuoted(ok, line, q, s);
    ReadIsParse(ok, line);
  }

  // No delimiter begins in this text.
  predicate IsName(s: string) {
    forall i :: 0 <= i < |s| ==> Delim(s, i) == Undefined
  }

  lemma {:induction false} NextBehind(line: string, i: nat, n: nat)
    requires i <= n < |line| && Delim(line, n) != Undefined && forall k :: i <= k < n ==> Delim(line, k) == Undefined
    ensures NextAt(line, i) == n
    decreases n - i
  {
    if i < n {
      NextBehind(line, i + 1, n);
    }
  }

  lemma {:induction false} SameArrow(line: string, s: string, at: nat, i: nat)
    requires i <= |s| && at + |s| < |line| && line[at..at + |s|] == s && line[at + |s|] != '>'
    ensures HasArrow(line, at + i, at + |s|) <==> HasArrow(s, i, |s|)
    decreases |s| - i
  {
    if i < |s| {
      SameArrow(line, s, at, i + 1);
      assert line[at + i] == line[at..at + |s|][i];
      assert i + 1 < |s| ==> line[at + i + 1] == line[at..at + |s|][i + 1];
    }
  }

  // The line is name[qsq].
  predicate IsQuotedIn(line: string, name: string, q: char, s: string) {
    var n, end := |name|, |name| + 3 + |s|;
    && |line| == end + 1 && line[..n] == name && line[n] == '[' && line[n + 1] == q
    && line[n + 2..n + 2 + |s|] == s && line[n + 2 + |s|] == q && line[end] == ']'
  }

  lemma QuotedInCharacters(name: string, q: char, s: string)
    ensures IsQuotedIn(name + "[" + [q] + s + [q] + "]", name, q, s)
  {
  }

  lemma QuotedBetween(line: string, name: string, q: char, s: string)
    requires IsQuotedIn(line, name, q, s)
    ensures line[|name| + 1..|name| + 3 + |s|] == [q] + s + [q]
  {
    var n := |name|;
    assert line[n + 1..n + 3 + |s|] == [line[n + 1]] + line[n + 2..n + 2 + |s|] + [line[n + 2 + |s|]];
  }

  // A quoted text takes all of the brackets.
  lemma InsideQuoted(line: string, n: nat, q: char, s: string, arrows: bool)
    requires (q == '"' || q == '\'') && q !in s && n + |s| + 4 == |line| && line[n + 1] == q
    requires line[n + 2..n + 2 + |s|] == s && line[n + 2 + |s|] == q && line[n + 3 + |s|] == ']'
    ensures Inside(line, n + 1, 1, arrows)
         == if arrows || !HasArrow(s, 0, |s|) then Some(n + 3 + |s|) else None
  {
    forall k | n + 2 <= k < n + 2 + |s| ensures line[k] != q {
      assert line[k] == line[n + 2..n + 2 + |s|][k - n - 2];
    }
    FindFirst(q, line, n + 2, n + 2 + |s|);
    SameArrow(line, s, n + 2, 0);
    InsideQuote(line, n + 1, 1, arrows);
    assert Inside(line, n + 3 + |s|, 1, arrows) == Some(n + 3 + |s|);
  }

  lemma ReadsIndexed(ok: string -> bool, index: string -> Index, line: string, name: string, j: nat, r: Option<nat>)
    requires IsName(name) && |name| < j && j + 1 == |line| && line[..|name|] == name && line[|name|] == '['
    requires r == Inside(line, |name| + 1, 1, name != "" && name[0] == '$') && (r.Some? ==> r.value == j)
    ensures Parts(ok, index, line, 0) ==
            if ok(name) && r.Some? then Some([Access(Array, name, index(line[|name| + 1..j]))]) else None
  {
    NameBefore(line, name);
    var n := |name|;
    assert PartAt(ok, index, line, 0) == IndexedPart(ok, index, line, 0, n);
    if ok(name) && r.Some? {
      OnePart(ok, index, line, Access(Array, name, index(line[n + 1..j])));
    }
  }

  lemma ReadsQuotedIndex(ok: string -> bool, line: string, name: string, q: char, s: string, n: nat, end: nat)
    requires IsName(name) && (q == '"' || q == '\'') && q !in s && n == |name| && end == n + 3 + |s|
    requires IsQuotedIn(line, name, q, s)
    ensures Parts(ok, IndexReader(ok, line), line, 0) ==
            if ok(name) && ((name != "" && name[0] == '$') || !HasArrow(s, 0, |s|))
            then Some([Access(Array, name, IndexReader(ok, line)(line[n + 1..end]))])
            else None
  {
    var arrows := name != "" && name[0] == '$';
    InsideQuoted(line, n, q, s, arrows);
    ReadsIndexed(ok, IndexReader(ok, line), line, name, end, Inside(line, n + 1, 1, arrows));
  }

  lemma IndexOfQuoted(ok: string -> bool, line: string, q: char, s: string, text: string)
    requires (q == '"' || q == '\'') && q !in s && text == [q] + s + [q] && |text| < |line|
    ensures IndexReader(ok, line)(text) == Index([Access(Interpreted, s, Absent)])
  {
    assert text[1..|s| + 1] == s;
    ReadsQuoted(ok, text, q, s);
  }

  lemma ParseIsParts(ok: string -> bool, line: string)
    requires line != ""
    ensures ParseVar(ok, line) == Parts(ok, IndexReader(ok, line), line, 0)
  {
    ReadIsParse(ok, line);
  }

  lemma QuotedIndexOf(ok: string -> bool, line: string, name: string, q: char, s: string)
    requires IsName(name) && (q == '"' || q == '\'') && q !in s && IsQuotedIn(line, name, q, s)
    ensures ParseVar(ok, line) ==
            if ok(name) && ((name != "" && name[0] == '$') || !HasArrow(s, 0, |s|))
            then Some([Access(Array, name, Index([Access(Interpreted, s, Absent)]))])
            else None
  {
    var end := |name| + 3 + |s|;
    QuotedBetween(line, name, q, s);
    IndexOfQuoted(ok, line, q, s, line[|name| + 1..end]);
    ReadsQuotedIndex(ok, line, name, q, s, |name|, end);
    ParseIsParts(ok, line);
  }

  /** A quoted text between brackets is the index, whatever it holds; but an arrow in it is refused when the path
      does not begin with a dollar sign. */
  lemma QuotedIndex(ok: string -> bool, name: string, q: char, s: string)
    requires IsName(name) && (q == '"' || q == '\'') && q !in s
    ensures ParseVar(ok, name + "[" + [q] + s + [q] + "]") ==
            if ok(name) && ((name != "" && name[0] == '$') || !HasArrow(s, 0, |s|))
            then Some([Access(Array, name, Index([Access(Interpreted, s, Absent)]))])
            else None
  {
    QuotedInCharacters(name, q, s);
    QuotedIndexOf(ok, name + "[" + [q] + s + [q] + "]", name, q, s);
  }

  lemma NameBefore(line: string, name: string)
    requires IsName(name) && |name| < |line| && line[..|name|] == name && line[|name|] == '['
    ensures NextAt(line, 0) == |name| && Delim(line, |name|) == Array
    ensures Arrows(line, 0) <==> name != "" && name[0] == '$'
  {
    forall k | 0 <= k < |name| ensures Delim(line, k) == Undefined {
      assert Delim(name, k) == Undefined && line[k] == line[..|name|][k];
      assert k + 1 < |name| ==> line[k + 1] == line[..|name|][k + 1];
    }
    NextBehind(line, 0, |name|);
    assert name != "" ==> line[0] == line[..|name|][0];
  }

  lemma ReadsLate(ok: string -> bool, line: string, name: string, q: char, s: string, n: nat)
    requires (q == '"' || q == '\'') && q !in s && IsName(name) && n == |name| > 0
    requires |line| == n + |s| + 2 && line[..n] == name && line[n] == q && line[n + |s| + 1] == q
    requires line[n + 1..n + |s| + 1] == s
    ensures Parts(ok, IndexReader(ok, line), line, 0) == Some([Access(Interpreted, line[1..n + |s| + 1], Absent)])
  {
    forall k | n + 1 <= k < n + |s| + 1 ensures line[k] != q {
      assert line[k] == line[n + 1..n + |s| + 1][k - n - 1];
    }
    FindFirst(q, line, n + 1, n + |s| + 1);
    forall k | 0 <= k < n ensures Delim(line, k) == Undefined {
      assert Delim(name, k) == Undefined && line[k] == line[..n][k];
      assert k + 1 < n ==> line[k + 1] == line[..n][k + 1];
    }
    NextBehind(line, 0, n);
    OnePart(ok, IndexReader(ok, line), line, Access(Interpreted, line[1..n + |s| + 1], Absent));
  }

  /** Text before a quote is taken into the string, quote and all, but for its first character. */
  lemma LateQuote(ok: string -> bool, name: string, q: char, s: string)
    requires (q == '"' || q == '\'') && q !in s && IsName(name) && name != ""
    ensures ParseVar(ok, name + [q] + s + [q]) == Some([Access(Interpreted, name[1..] + [q] + s, Absent)])
  {
    var line := name + [q] + s + [q];
    LateText(line, name, q, s);
    ParseIsParts(ok, line);
    ReadsLate(ok, line, name, q, s, |name|);
  }

  lemma LateText(line: string, name: string, q: char, s: string)
    requires line == name + [q] + s + [q] && name != ""
    ensures var n := |name|;
            && |line| == n + |s| + 2 && line[..n] == name && line[n] == q && line[n + |s| + 1] == q
            && line[n + 1..n + |s| + 1] == s && line[1..n + |s| + 1] == name[1..] + [q] + s
  {
  }

  // ---- writing a chain back ----

  predicate IsQuoteCharacter(c: char) {
    c == '"' || c == '\''
  }

  // The texts that give this access. Of a part with quotes the last character is one, and so is the first, the
  // same one, which is nowhere in between; unless the first is none, and is lost.
  ghost predicate Spells(index: string -> Index, a: Access, text: string) {
    match a.kind
    case Interpreted =>
      && a.index == Absent && |text| >= 2 && a.value == text[1..|text| - 1] && IsQuoteCharacter(text[|text| - 1])
      && (IsQuoteCharacter(text[0]) ==> text[0] == text[|text| - 1] && text[0] !in a.value)
    case Array => exists t :: text == a.value + "[" + t + "]" && a.index == index(t)
    case Object => a.index == Absent && text == a.value + "->"
    case Class => a.index == Absent && text == a.value + "::"
    case Var => a.index == Absent && text == a.value && text != "" && text[0] == '$'
    case Constant => a.index == Absent && text == a.value && (text != "" ==> text[0] != '$')
    case _ => false
  }

  ghost predicate SpellsAll(index: string -> Index, chain: seq<Access>, text: string)
    decreases |chain|
  {
    if chain == [] then text == ""
    else exists n :: 0 <= n <= |text| && Spells(index, chain[0], text[..n]) && SpellsAll(index, chain[1..], text[n..])
  }

  lemma QuotedText(line: string, i: nat, j: nat, text: string)
    requires i < j < |line| && text == line[i..j + 1]
    ensures text[0] == line[i] && text[|text| - 1] == line[j] && text[1..|text| - 1] == line[i + 1..j]
  {
    assert text == [line[i]] + line[i + 1..j] + [line[j]];
  }

  lemma NotBetween(line: string, q: char, a: nat, b: nat)
    requires a <= b <= |line| && forall k :: a <= k < b ==> line[k] != q
    ensures q !in line[a..b]
  {
    var t := line[a..b];
    forall k | 0 <= k < |t| ensures t[k] != q {
      assert t[k] == line[a + k];
    }
  }

  lemma QuotedSpelled(index: string -> Index, line: string, i: nat, n: nat)
    requires i <= |line| && n == NextAt(line, i) < |line| && IsQuote(Delim(line, n))
    ensures var r := QuotedPart(line, i, n); r.Some? ==> Spells(index, r.value.a, line[i..r.value.end])
  {
    var r := QuotedPart(line, i, n);
    if r.Some? {
      var j := r.value.end - 1;
      QuotedText(line, i, j, line[i..j + 1]);
      if IsQuoteCharacter(line[i]) {
        assert n == i;
        FirstFound(line[i], line, i + 1, j);
        NotBetween(line, line[i], i + 1, j);
      }
    }
  }

  lemma {:induction false} FirstFound(q: char, line: string, i: nat, j: nat)
    requires i <= |line| && Find(q, line, i) == Some(j)
    ensures forall k :: i <= k < j ==> line[k] != q
    decreases |line| - i
  {
    if line[i] != q {
      FirstFound(q, line, i + 1, j);
    }
  }

  lemma IndexedText(line: string, i: nat, n: nat, j: nat)
    requires i <= n < j < |line| && line[n] == '[' && line[j] == ']'
    ensures line[i..j + 1] == line[i..n] + "[" + line[n + 1..j] + "]"
  {
  }

  lemma SpellsIndexed(index: string -> Index, value: string, t: string, text: string)
    requires text == value + "[" + t + "]"
    ensures Spells(index, Access(Array, value, index(t)), text)
  {
  }

  lemma IndexedSpelled(ok: string -> bool, index: string -> Index, line: string, i: nat, n: nat)
    requires i <= |line| && n == NextAt(line, i) < |line| && Delim(line, n) == Array
    ensures var r := IndexedPart(ok, index, line, i, n); r.Some? ==> Spells(index, r.value.a, line[i..r.value.end])
  {
    InsideCloses(line, n + 1, 1, Arrows(line, i));
    EndSpelled(ok, index, line, i, n, Inside(line, n + 1, 1, Arrows(line, i)));
  }

  lemma EndSpelled(ok: string -> bool, index: string -> Index, line: string, i: nat, n: nat, end: Option<nat>)
    requires i <= n < |line| && line[n] == '[' && (end.Some? ==> n < end.value < |line| && line[end.value] == ']')
    ensures var r := match end
                     case None => None
                     case Some(j) => IndexedUpTo(ok, index, line, i, n, j);
            r.Some? ==> r.value.end <= |line| && i <= r.value.end && Spells(index, r.value.a, line[i..r.value.end])
  {
    if end.Some? {
      UpToSpelled(ok, index, line, i, n, end.value, line[n + 1..end.value]);
    }
  }

  lemma UpToSpelled(ok: string -> bool, index: string -> Index, line: string, i: nat, n: nat, j: nat, t: string)
    requires i <= n < j < |line| && line[n] == '[' && line[j] == ']'
    requires t == line[n + 1..j]
    ensures var r := IndexedUpTo(ok, index, line, i, n, j); r.Some? ==> Spells(index, r.value.a, line[i..r.value.end])
  {
    IndexedText(line, i, n, j);
    SpellsIndexed(index, line[i..n], t, line[i..j + 1]);
  }

  lemma {:induction false} InsideCloses(line: string, i: nat, depth: nat, arrows: bool)
    requires i <= |line|
    ensures var r := Inside(line, i, depth, arrows); r.Some? ==> line[r.value] == ']'
    decreases |line| - i
  {
    if i < |line| {
      var kind := Delim(line, i);
      if IsQuote(kind) {
        InsideQuote(line, i, depth, arrows);
        var end := QuoteEnd(line, i, arrows);
        if end.Some? {
          InsideCloses(line, end.value + 1, depth, arrows);
        }
      } else if kind == ArrayEnd && depth <= 1 {
      } else {
        var d := if kind == Array then depth + 1 else if kind == ArrayEnd then depth - 1 else depth;
        InsideCloses(line, Behind(line, i), d, arrows);
      }
    }
  }

  lemma PlainSpelled(ok: string -> bool, index: string -> Index, line: string, i: nat, n: nat)
    requires i <= |line| && n == NextAt(line, i) < |line| && Delim(line, n) in {Object, Class}
    ensures var r := PlainPart(ok, line, i, n); r.Some? ==> Spells(index, r.value.a, line[i..r.value.end])
  {
    assert line[i..n + 2] == line[i..n] + [line[n], line[n + 1]];
  }

  lemma PartSpelled(ok: string -> bool, index: string -> Index, line: string, i: nat)
    requires i < |line|
    ensures var r := PartAt(ok, index, line, i); r.Some? ==> Spells(index, r.value.a, line[i..r.value.end])
  {
    var n := NextAt(line, i);
    if n == |line| {
      assert line[i..] == line[i..|line|];
    } else {
      match Delim(line, n)
      case Interpreted => QuotedSpelled(index, line, i, n);
      case Literal => QuotedSpelled(index, line, i, n);
      case Array => IndexedSpelled(ok, index, line, i, n);
      case ArrayEnd =>
      case _ => PlainSpelled(ok, index, line, i, n);
    }
  }

  lemma {:induction false} PartsSpelled(ok: string -> bool, index: string -> Index, line: string, i: nat)
    requires i <= |line|
    ensures var r := Parts(ok, index, line, i); r.Some? ==> SpellsAll(index, r.value, line[i..])
    decreases |line| - i
  {
    if i < |line| {
      var part := PartAt(ok, index, line, i);
      PartSpelled(ok, index, line, i);
      if part.Some? {
        PartsSpelled(ok, index, line, part.value.end);
        SpelledOnward(index, line, i, part.value, Parts(ok, index, line, part.value.end));
      }
    }
  }

  lemma SpelledOnward(index: string -> Index, line: string, i: nat, p: Part, rest: Option<seq<Access>>)
    requires i < p.end <= |line| && Spells(index, p.a, line[i..p.end])
    requires rest.Some? ==> SpellsAll(index, rest.value, line[p.end..])
    ensures var r := Before(p.a, rest); r.Some? ==> SpellsAll(index, r.value, line[i..])
  {
    if rest.Some? {
      Cut(line, i, p.end);
      SpellsBefore(index, p.a, rest.value, line[i..], p.end - i, line[i..p.end], line[p.end..]);
    }
  }

  lemma Cut(line: string, i: nat, e: nat)
    requires i <= e <= |line|
    ensures line[i..][..e - i] == line[i..e] && line[i..][e - i..] == line[e..]
  {
  }

  lemma SpellsBefore(index: string -> Index, a: Access, chain: seq<Access>, text: string, n: nat, first: string,
                     rest: string)
    requires n <= |text| && first == text[..n] && rest == text[n..]
    requires Spells(index, a, first) && SpellsAll(index, chain, rest)
    ensures SpellsAll(index, [a] + chain, text)
  {
    assert ([a] + chain)[0] == a && ([a] + chain)[1..] == chain;
  }

  function PathIndex(ok: string -> bool): string -> Index {
    text => ParseIndex(ok, text)
  }

  lemma ReaderIndex(ok: string -> bool, line: string)
    ensures forall t: string :: |t| < |line| ==> IndexReader(ok, line)(t) == PathIndex(ok)(t)
  {
    forall t: string | |t| < |line| ensures IndexReader(ok, line)(t) == PathIndex(ok)(t) {
      ReadIsParse(ok, t);
    }
  }

  /** Every path that is accepted, with quotes or without, is spelled by its chain, part by part, where the text
      between brackets is one that gives the index. */
  lemma Spelled(ok: string -> bool, line: string)
    ensures var r := ParseVar(ok, line); r.Some? ==> SpellsAll(PathIndex(ok), r.value, line)
  {
    if line == "" {
      EmptyPath(ok);
      SpellsBefore(PathIndex(ok), Access(Constant, "", Absent), [], line, 0, "", "");
    } else {
      ReaderIndex(ok, line);
      SameParts(ok, IndexReader(ok, line), PathIndex(ok), line, 0);
      ParseIsParts(ok, line);
      PartsSpelled(ok, PathIndex(ok), line, 0);
      assert line[0..] == line;
    }
  }
}
