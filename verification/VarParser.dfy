/** The parser for variable paths of src/sp_var_parser.c: the sorted tokens are folded into a chain
    of accesses, and the text between brackets is parsed in turn. */
module VarParser {
  import opened LinkedList
  import opened VarTokens
  import opened Wrappers

  // A chain of accesses. An index is absent when there is none, or when it could not be parsed.
  datatype Access = Access(kind: Kind, value: string, index: Index)
  datatype Index = Absent | Index(chain: seq<Access>)

  // pos: where the current part begins; depth: open brackets; start: where the index begins, or 0
  // outside brackets; quote: the kind of the open quote.
  datatype State = State(pos: nat, depth: nat, start: nat, quote: Kind, chain: seq<Access>)

  const INITIAL: State := State(0, 0, 0, Undefined, [])

  // ---- which tokens are valid where ----

  // Nothing follows the token before the next one or the end.
  predicate NextEmpty(line: string, tokens: seq<Token>)
    requires tokens != []
  {
    var end := tokens[0].pos + |Repr(tokens[0].kind)|;
    if |tokens| > 1 then tokens[1].pos == end else |line| == end
  }

  predicate TokenValid(line: string, tokens: seq<Token>, st: State)
    requires tokens != [] && line != []
  {
    var kind := tokens[0].kind;
    if kind == Literal || kind == Interpreted then
      st.quote == kind ==> NextEmpty(line, tokens)
    else if kind == ArrayEnd then
      st.quote == Undefined ==>
        st.depth >= 1 &&
        if |tokens| > 1 then tokens[1].kind != Interpreted && tokens[1].kind != Literal else NextEmpty(line, tokens)
    else if kind == Object then
      (st.quote == Undefined ==> !NextEmpty(line, tokens)) && (st.pos == 0 ==> line[0] == '$')
    else if kind == Class then
      st.quote == Undefined ==> !NextEmpty(line, tokens)
    else true
  }

  // ---- the state between tokens ----

  // The current part begins before the remaining tokens, and so does an index, behind its bracket.
  predicate InBounds(line: string, tokens: seq<Token>, st: State) {
    && Located(line, st.pos, tokens) && st.pos <= |line|
    && (st.quote == Undefined || st.quote == Interpreted || st.quote == Literal)
    && if st.depth == 0 then st.start == 0
       else st.pos < st.start <= |line| && Located(line, st.start, tokens) && line[st.start - 1] == '['
  }

  lemma Behind(line: string, i: nat, tokens: seq<Token>)
    requires tokens != [] && Located(line, i, tokens)
    ensures var end := tokens[0].pos + |Repr(tokens[0].kind)|;
            tokens[0].pos < end <= |line| && forall j: nat :: j <= end ==> Located(line, j, tokens[1..])
  {
  }

  // The quotes, and the position of the part they begin.
  function Quoted(t: Token, st: State): State {
    if t.kind == Interpreted || t.kind == Literal then
      st.(pos := if st.quote == Undefined && st.depth == 0 then st.pos + 1 else st.pos,
          quote := if st.quote == Undefined then t.kind else if st.quote == t.kind then Undefined else st.quote)
    else st
  }

  // The brackets.
  function Bracketed(t: Token, st: State): State {
    if t.kind == Array then st.(start := if st.depth > 0 then st.start else t.pos + 1, depth := st.depth + 1)
    else if t.kind == ArrayEnd && st.depth > 0 then st.(depth := st.depth - 1)
    else st
  }

  // The kind under which the part before a token is stored.
  function PartKind(kind: Kind): Kind {
    match kind
    case Literal => Interpreted
    case ArrayEnd => Array
    case other => other
  }

  // create_var: only strings may have any content.
  function Create(ok: string -> bool, chain: seq<Access>, value: string, kind: Kind, index: Index)
    : Option<seq<Access>>
  {
    var kind' := if value != [] && value[0] == '$' && kind == Constant then Var else kind;
    if kind' != Interpreted && !ok(value) then None else Some(chain + [Access(kind', value, index)])
  }

  // A part that ends at t: its value, and its index when it ends in a bracket.
  predicate PartEnds(line: string, t: Token, b: State) {
    && t.pos + |Repr(t.kind)| <= |line|
    && if b.start > 0 then b.pos < b.start <= t.pos && line[b.start - 1] == '[' && t.kind == ArrayEnd
       else b.pos <= t.pos && t.kind != Array
  }

  function ClosePart(ok: string -> bool, parse: string -> Index, line: string, t: Token, b: State): (r: Option<State>)
    requires PartEnds(line, t, b) && Repr(t.kind) != []
  {
    var value := if b.start > 0 then line[b.pos..b.start - 1] else line[b.pos..t.pos];
    var index := if b.start > 0 then parse(line[b.start..t.pos]) else Absent;
    match Create(ok, b.chain, value, PartKind(t.kind), index)
    case None => None
    case Some(chain) => Some(State(t.pos + |Repr(t.kind)|, 0, 0, Undefined, chain))
  }

  // After a quote or a bracket that leaves the part open, the state is in bounds; otherwise the part,
  // and the index if there is one, lie between the last position and the token.
  lemma AdvanceInBounds(line: string, tokens: seq<Token>, st: State)
    requires tokens != [] && InBounds(line, tokens, st)
    ensures line != [] && Repr(tokens[0].kind) != []
    ensures Located(line, tokens[0].pos + |Repr(tokens[0].kind)|, tokens[1..])
    ensures var q := Quoted(tokens[0], st);
            var b := Bracketed(tokens[0], q);
            if q.quote != Undefined then InBounds(line, tokens[1..], q)
            else if b.depth > 0 then InBounds(line, tokens[1..], b)
            else PartEnds(line, tokens[0], b)
  {
    Behind(line, st.pos, tokens);
    if Quoted(tokens[0], st).quote == Undefined {
      BracketInBounds(line, tokens, Quoted(tokens[0], st));
    }
  }

  lemma BracketInBounds(line: string, tokens: seq<Token>, q: State)
    requires tokens != [] && InBounds(line, tokens, q)
    ensures var b := Bracketed(tokens[0], q);
            if b.depth > 0 then InBounds(line, tokens[1..], b) else PartEnds(line, tokens[0], b)
  {
    Behind(line, q.pos, tokens);
    var t := tokens[0];
    if t.kind == Array {
      FirstCharacter(line, t.pos, Array);
    }
  }

  // The state after a token. parse is applied to the text between brackets.
  function ParseToken(ok: string -> bool, parse: string -> Index, line: string, tokens: seq<Token>, st: State)
    : (r: Option<State>)
    requires tokens != [] && InBounds(line, tokens, st)
    ensures r.Some? ==> InBounds(line, tokens[1..], r.value)
  {
    var t := tokens[0];
    AdvanceInBounds(line, tokens, st);
    if !TokenValid(line, tokens, st) then None
    else
      var q := Quoted(t, st);
      if q.quote != Undefined then Some(q)
      else
        var b := Bracketed(t, q);
        if b.depth > 0 then Some(b) else ClosePart(ok, parse, line, t, b)
  }

  function ParseTokens(ok: string -> bool, parse: string -> Index, line: string, tokens: seq<Token>, st: State)
    : (r: Option<State>)
    requires InBounds(line, tokens, st)
    ensures r.Some? ==> InBounds(line, [], r.value)
    decreases |tokens|
  {
    if tokens == [] then Some(st)
    else
      match ParseToken(ok, parse, line, tokens, st)
      case None => None
      case Some(st') => ParseTokens(ok, parse, line, tokens[1..], st')
  }

  // Behind the last token.
  function Finish(ok: string -> bool, line: string, st: State): Option<seq<Access>>
    requires InBounds(line, [], st)
  {
    if st.depth != 0 || st.quote != Undefined then None
    else if st.pos != |line| then Create(ok, st.chain, line[st.pos..], Constant, Absent)
    else Some(st.chain)
  }

  // The index of an access, from the text between the brackets.
  function ParseIndex(ok: string -> bool, text: string): Index
    decreases |text|, 2
  {
    match ParseVar(ok, text)
    case None => Absent
    case Some(chain) => Index(chain)
  }

  // The parser for the indices in a line: they are shorter.
  function IndexParser(ok: string -> bool, line: string): string -> Index
    decreases |line|, 0
  {
    text => if |text| < |line| then ParseIndex(ok, text) else Absent
  }

  function ParseVar(ok: string -> bool, line: string): Option<seq<Access>>
    decreases |line|, 1
  {
    LexLocated(line, DELIMITERS, 0);
    match ParseTokens(ok, IndexParser(ok, line), line, Lex(line), INITIAL)
    case None => None
    case Some(st) =>
      match Finish(ok, line, st)
      case None => None
      case Some(chain) => Some(if chain == [] then [Access(Constant, "", Absent)] else chain)
  }

  // ---- writing a chain back ----

  function Unparse(chain: seq<Access>): string {
    if chain == [] then "" else UnparseAccess(chain[0]) + Unparse(chain[1..])
  }

  function UnparseAccess(a: Access): string {
    a.value +
    match a.kind
    case Object => "->"
    case Class => "::"
    case Array => "[" + (match a.index case Absent => "" case Index(chain) => Unparse(chain)) + "]"
    case _ => ""
  }

  // No index anywhere was lost because it could not be parsed.
  predicate Complete(chain: seq<Access>) {
    chain != [] ==> CompleteAccess(chain[0]) && Complete(chain[1..])
  }

  predicate CompleteAccess(a: Access) {
    match a.index
    case Absent => a.kind != Array
    case Index(chain) => Complete(chain)
  }

  lemma {:induction false} UnparseAppend(chain: seq<Access>, a: Access)
    ensures Unparse(chain + [a]) == Unparse(chain) + UnparseAccess(a)
    ensures Complete(chain + [a]) <==> Complete(chain) && CompleteAccess(a)
  {
    if chain == [] {
      assert [a][1..] == [];
    } else {
      assert (chain + [a])[1..] == chain[1..] + [a];
      UnparseAppend(chain[1..], a);
    }
  }

  // A complete chain is the text; an incomplete one is shorter.
  predicate Tiles(chain: seq<Access>, text: string) {
    if Complete(chain) then Unparse(chain) == text else |Unparse(chain)| < |text|
  }

  predicate IndexTiles(index: Index, text: string) {
    match index
    case Absent => text != ""
    case Index(chain) => Tiles(chain, text)
  }

  // What is parsed from any shorter text without quotes tiles it.
  ghost predicate Faithful(parse: string -> Index, size: nat) {
    forall s {:trigger parse(s)} :: |s| < size && QuoteFree(s) ==> IndexTiles(parse(s), s)
  }

  predicate QuoteFree(line: string) {
    forall i :: 0 <= i < |line| ==> line[i] != '"' && line[i] != '\''
  }

  lemma QuoteFreePart(line: string, i: nat, j: nat)
    requires QuoteFree(line) && i <= j <= |line|
    ensures QuoteFree(line[i..j])
  {
  }

  lemma NoQuoteToken(line: string, i: nat, kind: Kind)
    requires QuoteFree(line) && Matches(line, i, kind)
    ensures kind != Interpreted && kind != Literal
  {
    FirstCharacter(line, i, Interpreted);
    FirstCharacter(line, i, Literal);
  }

  // One more access: value, separator, and the text of the index.
  lemma TileOne(line: string, pos: nat, chain: seq<Access>, a: Access, end: nat, text: string)
    requires pos <= end <= |line| && Tiles(chain, line[..pos])
    requires a.kind == Array ==> IndexTiles(a.index, text) && line[pos..end] == a.value + "[" + text + "]"
    requires a.kind != Array ==> a.index.Absent? && line[pos..end] == UnparseAccess(a)
    ensures Tiles(chain + [a], line[..end])
  {
    UnparseAppend(chain, a);
    AccessTiles(a, line[pos..end], text);
    assert line[..end] == line[..pos] + line[pos..end];
  }

  lemma AccessTiles(a: Access, part: string, text: string)
    requires a.kind == Array ==> IndexTiles(a.index, text) && part == a.value + "[" + text + "]"
    requires a.kind != Array ==> a.index.Absent? && part == UnparseAccess(a)
    ensures if CompleteAccess(a) then UnparseAccess(a) == part else |UnparseAccess(a)| < |part|
  {
  }

  lemma UnquotedStep(ok: string -> bool, parse: string -> Index, line: string, tokens: seq<Token>, st: State)
    requires tokens != [] && InBounds(line, tokens, st) && QuoteFree(line) && st.quote == Undefined
    ensures var t := tokens[0];
            var b := Bracketed(t, st);
            && Matches(line, t.pos, t.kind) && b.pos == st.pos && b.chain == st.chain && b.quote == Undefined
            && line != []
            && (b.depth == 0 && TokenValid(line, tokens, st) ==>
                  PartEnds(line, t, b) && (b.start == 0 ==> t.kind == Object || t.kind == Class))
            && ParseToken(ok, parse, line, tokens, st) ==
               if !TokenValid(line, tokens, st) then None
               else if b.depth > 0 then Some(b)
               else ClosePart(ok, parse, line, t, b)
  {
    NoQuoteToken(line, tokens[0].pos, tokens[0].kind);
    AdvanceInBounds(line, tokens, st);
  }

  lemma ParseTokenTiles(ok: string -> bool, parse: string -> Index, line: string, tokens: seq<Token>, st: State)
    requires tokens != [] && InBounds(line, tokens, st) && QuoteFree(line)
    requires Faithful(parse, |line|)
    requires st.quote == Undefined && Tiles(st.chain, line[..st.pos])
    ensures var r := ParseToken(ok, parse, line, tokens, st);
            r.Some? ==> r.value.quote == Undefined && Tiles(r.value.chain, line[..r.value.pos])
  {
    var t := tokens[0];
    UnquotedStep(ok, parse, line, tokens, st);
    var b := Bracketed(t, st);
    if b.depth == 0 && TokenValid(line, tokens, st) {
      if b.start > 0 {
        QuoteFreePart(line, b.start, t.pos);
        CloseIndexedTiles(ok, parse, line, t, b);
      } else {
        ClosePlainTiles(ok, parse, line, t, b);
      }
    }
  }

  lemma CloseIndexedTiles(ok: string -> bool, parse: string -> Index, line: string, t: Token, b: State)
    requires PartEnds(line, t, b) && b.start > 0 && Matches(line, t.pos, t.kind) && Tiles(b.chain, line[..b.pos])
    requires IndexTiles(parse(line[b.start..t.pos]), line[b.start..t.pos])
    ensures var r := ClosePart(ok, parse, line, t, b);
            r.Some? ==> r.value.quote == Undefined && Tiles(r.value.chain, line[..r.value.pos])
  {
    TileIndexed(line, b.pos, b.start, t.pos, b.chain, parse(line[b.start..t.pos]));
  }

  lemma ClosePlainTiles(ok: string -> bool, parse: string -> Index, line: string, t: Token, b: State)
    requires PartEnds(line, t, b) && b.start == 0 && Matches(line, t.pos, t.kind) && Tiles(b.chain, line[..b.pos])
    requires t.kind == Object || t.kind == Class
    ensures var r := ClosePart(ok, parse, line, t, b);
            r.Some? ==> r.value.quote == Undefined && Tiles(r.value.chain, line[..r.value.pos])
  {
    TilePlain(line, b.pos, t, b.chain);
  }

  lemma TileIndexed(line: string, pos: nat, start: nat, end: nat, chain: seq<Access>, index: Index)
    requires pos < start <= end < |line| && line[start - 1] == '[' && Matches(line, end, ArrayEnd)
    requires Tiles(chain, line[..pos]) && IndexTiles(index, line[start..end])
    ensures Tiles(chain + [Access(Array, line[pos..start - 1], index)], line[..end + 1])
  {
    var value, text := line[pos..start - 1], line[start..end];
    assert line[end..end + 1] == "]";
    FourParts(line, pos, start - 1, start, end, end + 1);
    assert line[start - 1..start] == "[";
    TileOne(line, pos, chain, Access(Array, value, index), end + 1, text);
  }

  lemma FourParts(line: string, a: nat, b: nat, c: nat, d: nat, e: nat)
    requires a <= b <= c <= d <= e <= |line|
    ensures line[a..e] == line[a..b] + line[b..c] + line[c..d] + line[d..e]
  {
    TwoParts(line, a, b, c);
    TwoParts(line, a, c, d);
    TwoParts(line, a, d, e);
  }

  lemma TwoParts(line: string, a: nat, b: nat, c: nat)
    requires a <= b <= c <= |line|
    ensures line[a..c] == line[a..b] + line[b..c]
  {
  }

  lemma TilePlain(line: string, pos: nat, t: Token, chain: seq<Access>)
    requires pos <= t.pos && Matches(line, t.pos, t.kind) && (t.kind == Object || t.kind == Class)
    requires Tiles(chain, line[..pos])
    ensures Tiles(chain + [Access(t.kind, line[pos..t.pos], Absent)], line[..t.pos + 2])
  {
    var end := t.pos + 2;
    assert line[pos..end] == line[pos..t.pos] + line[t.pos..end];
    TileOne(line, pos, chain, Access(t.kind, line[pos..t.pos], Absent), end, "");
  }

  lemma {:induction false} ParseTokensTiles(
      ok: string -> bool, parse: string -> Index, line: string, tokens: seq<Token>, st: State)
    requires InBounds(line, tokens, st) && QuoteFree(line)
    requires Faithful(parse, |line|)
    requires st.quote == Undefined && Tiles(st.chain, line[..st.pos])
    ensures var r := ParseTokens(ok, parse, line, tokens, st);
            r.Some? ==> Tiles(r.value.chain, line[..r.value.pos])
    decreases |tokens|
  {
    if tokens != [] {
      ParseTokenTiles(ok, parse, line, tokens, st);
      var r := ParseToken(ok, parse, line, tokens, st);
      if r.Some? {
        ParseTokensTiles(ok, parse, line, tokens[1..], r.value);
      }
    }
  }

  lemma FinishTiles(ok: string -> bool, line: string, st: State)
    requires InBounds(line, [], st) && Tiles(st.chain, line[..st.pos])
    ensures var r := Finish(ok, line, st); r.Some? ==> Tiles(r.value, line)
  {
    var r := Finish(ok, line, st);
    if r.Some? {
      if st.pos != |line| {
        var a := r.value[|st.chain|];
        assert line[..|line|] == line;
        TileOne(line, st.pos, st.chain, a, |line|, "");
      } else {
        assert line[..st.pos] == line;
      }
    }
  }

  // ---- which indices are lost ----

  // The texts between outer brackets, given the open brackets and where the index in them begins.
  function IndexTexts(line: string, tokens: seq<Token>, depth: nat, start: nat): (r: seq<string>)
    requires Located(line, start, tokens)
    ensures forall i :: 0 <= i < |r| ==> |r[i]| < |line| && (QuoteFree(line) ==> QuoteFree(r[i]))
    decreases |tokens|
  {
    if tokens == [] then []
    else
      var t, rest := tokens[0], tokens[1..];
      Behind(line, start, tokens);
      if t.kind == Array then IndexTexts(line, rest, depth + 1, if depth > 0 then start else t.pos + 1)
      else if t.kind == ArrayEnd && depth == 1 then [line[start..t.pos]] + IndexTexts(line, rest, 0, 0)
      else if t.kind == ArrayEnd && depth > 1 then IndexTexts(line, rest, depth - 1, start)
      else IndexTexts(line, rest, depth, start)
  }

  function Indices(line: string): (r: seq<string>)
    ensures forall i :: 0 <= i < |r| ==> |r[i]| < |line| && (QuoteFree(line) ==> QuoteFree(r[i]))
  {
    LexLocated(line, DELIMITERS, 0);
    IndexTexts(line, Lex(line), 0, 0)
  }

  // Every text between brackets is a path itself, and so on inside it.
  predicate HasPathIndices(ok: string -> bool, line: string)
    decreases |line|
  {
    var texts := Indices(line);
    forall i :: 0 <= i < |texts| ==> ParseVar(ok, texts[i]).Some? && HasPathIndices(ok, texts[i])
  }

  predicate AllComplete(parse: string -> Index, texts: seq<string>) {
    forall i :: 0 <= i < |texts| ==> IsComplete(parse(texts[i]))
  }

  predicate IsComplete(index: Index) {
    match index
    case Absent => false
    case Index(chain) => Complete(chain)
  }

  lemma AllCompleteNext(parse: string -> Index, text: string, texts: seq<string>)
    ensures AllComplete(parse, [text] + texts) <==> IsComplete(parse(text)) && AllComplete(parse, texts)
  {
    var all := [text] + texts;
    assert all[0] == text && forall i :: 0 <= i < |texts| ==> all[i + 1] == texts[i];
  }

  // A part that ends adds an access that is complete when its index is.
  lemma CloseComplete(ok: string -> bool, parse: string -> Index, line: string, t: Token, b: State)
    requires PartEnds(line, t, b) && Repr(t.kind) != []
    requires if b.start > 0 then t.kind == ArrayEnd else t.kind == Object || t.kind == Class
    ensures var r := ClosePart(ok, parse, line, t, b);
            r.Some? ==>
              (Complete(r.value.chain) <==>
               Complete(b.chain) && (b.start > 0 ==> IsComplete(parse(line[b.start..t.pos])))) &&
              r.value.depth == r.value.start == 0 && r.value.quote == Undefined
  {
    var r := ClosePart(ok, parse, line, t, b);
    if r.Some? {
      UnparseAppend(b.chain, r.value.chain[|b.chain|]);
    }
  }

  // The texts between brackets in the tokens from the first one on, and in those behind it.
  lemma TextsStep(line: string, tokens: seq<Token>, depth: nat, start: nat)
    requires tokens != [] && Located(line, start, tokens)
    ensures var t, rest := tokens[0], tokens[1..];
            && start <= t.pos < t.pos + |Repr(t.kind)| <= |line|
            && (forall j: nat :: j <= t.pos + |Repr(t.kind)| ==> Located(line, j, rest))
            && IndexTexts(line, tokens, depth, start) ==
               if t.kind == Array then IndexTexts(line, rest, depth + 1, if depth > 0 then start else t.pos + 1)
               else if t.kind == ArrayEnd && depth == 1 then [line[start..t.pos]] + IndexTexts(line, rest, 0, 0)
               else if t.kind == ArrayEnd && depth > 1 then IndexTexts(line, rest, depth - 1, start)
               else IndexTexts(line, rest, depth, start)
  {
    Behind(line, start, tokens);
  }

  // A part that ends at the token takes its index along.
  lemma TokenCloses(ok: string -> bool, parse: string -> Index, line: string, tokens: seq<Token>, st: State)
    requires tokens != [] && InBounds(line, tokens, st) && QuoteFree(line) && st.quote == Undefined
    requires Located(line, st.start, tokens) && Bracketed(tokens[0], st).depth == 0
    requires line != [] && TokenValid(line, tokens, st)
    ensures var r := ParseToken(ok, parse, line, tokens, st);
            r.Some? ==>
              r.value.quote == Undefined && r.value.depth == r.value.start == 0 && Located(line, 0, tokens[1..]) &&
              (Complete(r.value.chain) && AllComplete(parse, IndexTexts(line, tokens[1..], 0, 0)) <==>
               Complete(st.chain) && AllComplete(parse, IndexTexts(line, tokens, st.depth, st.start)))
  {
    var t, b := tokens[0], Bracketed(tokens[0], st);
    UnquotedStep(ok, parse, line, tokens, st);
    TextsStep(line, tokens, st.depth, st.start);
    CloseComplete(ok, parse, line, t, b);
    AllCompleteNext(parse, line[b.start..t.pos], IndexTexts(line, tokens[1..], 0, 0));
  }

  lemma TokenComplete(ok: string -> bool, parse: string -> Index, line: string, tokens: seq<Token>, st: State)
    requires tokens != [] && InBounds(line, tokens, st) && QuoteFree(line) && st.quote == Undefined
    requires Located(line, st.start, tokens)
    ensures var r := ParseToken(ok, parse, line, tokens, st);
            r.Some? ==>
              r.value.quote == Undefined && Located(line, r.value.start, tokens[1..]) &&
              (Complete(r.value.chain) &&
               AllComplete(parse, IndexTexts(line, tokens[1..], r.value.depth, r.value.start)) <==>
               Complete(st.chain) && AllComplete(parse, IndexTexts(line, tokens, st.depth, st.start)))
  {
    UnquotedStep(ok, parse, line, tokens, st);
    if TokenValid(line, tokens, st) {
      if Bracketed(tokens[0], st).depth == 0 {
        TokenCloses(ok, parse, line, tokens, st);
      } else {
        TextsStep(line, tokens, st.depth, st.start);
      }
    }
  }

  lemma {:induction false} TokensComplete(
      ok: string -> bool, parse: string -> Index, line: string, tokens: seq<Token>, st: State)
    requires InBounds(line, tokens, st) && QuoteFree(line) && st.quote == Undefined
    requires Located(line, st.start, tokens)
    ensures var r := ParseTokens(ok, parse, line, tokens, st);
            r.Some? ==>
              (Complete(r.value.chain) <==>
               Complete(st.chain) && AllComplete(parse, IndexTexts(line, tokens, st.depth, st.start)))
    decreases |tokens|
  {
    if tokens != [] {
      TokenComplete(ok, parse, line, tokens, st);
      var r := ParseToken(ok, parse, line, tokens, st);
      if r.Some? {
        TokensComplete(ok, parse, line, tokens[1..], r.value);
      }
    }
  }

  lemma FinishComplete(ok: string -> bool, line: string, st: State)
    requires InBounds(line, [], st)
    ensures var r := Finish(ok, line, st); r.Some? ==> (Complete(r.value) <==> Complete(st.chain))
  {
    var r := Finish(ok, line, st);
    if r.Some? && st.pos != |line| {
      UnparseAppend(st.chain, r.value[|st.chain|]);
    }
  }

  // The chain of an accepted path has lost no index exactly when all indices in the line are paths.
  lemma {:induction false} CompleteIff(ok: string -> bool, line: string)
    requires QuoteFree(line)
    ensures var r := ParseVar(ok, line); r.Some? ==> (Complete(r.value) <==> HasPathIndices(ok, line))
    decreases |line|
  {
    LexLocated(line, DELIMITERS, 0);
    var parse, texts := IndexParser(ok, line), Indices(line);
    forall i | 0 <= i < |texts|
      ensures IsComplete(parse(texts[i])) <==> ParseVar(ok, texts[i]).Some? && HasPathIndices(ok, texts[i])
    {
      CompleteIff(ok, texts[i]);
      assert parse(texts[i]) == ParseIndex(ok, texts[i]);
    }
    CompleteChain(ok, line);
  }

  // Whether a chain is complete depends on the indices in its own line.
  lemma CompleteChain(ok: string -> bool, line: string)
    requires QuoteFree(line)
    ensures var r := ParseVar(ok, line);
            r.Some? ==> (Complete(r.value) <==> AllComplete(IndexParser(ok, line), Indices(line)))
  {
    LexLocated(line, DELIMITERS, 0);
    var parse := IndexParser(ok, line);
    var r := ParseTokens(ok, parse, line, Lex(line), INITIAL);
    TokensComplete(ok, parse, line, Lex(line), INITIAL);
    if r.Some? {
      FinishComplete(ok, line, r.value);
    }
  }

  lemma {:induction false} ChainTiles(ok: string -> bool, line: string)
    requires QuoteFree(line)
    ensures var r := ParseVar(ok, line); r.Some? ==> Tiles(r.value, line)
    decreases |line|
  {
    LexLocated(line, DELIMITERS, 0);
    var parse := IndexParser(ok, line);
    forall s: string | |s| < |line| && QuoteFree(s) ensures IndexTiles(parse(s), s) {
      ChainTiles(ok, s);
      EmptyPath(ok);
      assert parse(s) == ParseIndex(ok, s);
    }
    var r := ParseTokens(ok, parse, line, Lex(line), INITIAL);
    ParseTokensTiles(ok, parse, line, Lex(line), INITIAL);
    if r.Some? {
      FinishTiles(ok, line, r.value);
    }
  }

  /** A path without quotes that is accepted can be written back from its chain exactly when every text
      between its brackets is a path itself, and so on inside; otherwise the chain is shorter. */
  lemma Tiling(ok: string -> bool, line: string)
    requires QuoteFree(line)
    ensures var r := ParseVar(ok, line);
            r.Some? ==>
              (Unparse(r.value) == line <==> HasPathIndices(ok, line)) &&
              (!HasPathIndices(ok, line) ==> |Unparse(r.value)| < |line|)
  {
    ChainTiles(ok, line);
    CompleteIff(ok, line);
  }

  /** The empty path is accepted. */
  lemma EmptyPath(ok: string -> bool)
    ensures ParseVar(ok, "") == Some([Access(Constant, "", Absent)])
  {
    assert Lex("") == [];
  }

  lemma NoDelimiter(line: string, i: nat)
    requires i < |line| && line[i] !in {'-', '[', ']', '"', '\'', ':'}
    ensures LexAll(line, DELIMITERS, i) == LexAll(line, DELIMITERS, i + 1)
  {
    forall k | k in DELIMITERS ensures !Matches(line, i, k) {
      EveryDelimiter(k);
      FirstCharacter(line, i, k);
    }
  }

  lemma LexBrackets()
    ensures Lex("%") == [] && Lex("[%]") == [Token(Array, 0), Token(ArrayEnd, 2)]
  {
    NoDelimiter("%", 0);
    var line := "[%]";
    NoDelimiter(line, 1);
    assert line[0..1] == "[" && line[2..3] == "]";
    DelimiterIs(line, 0, Array);
    DelimiterIs(line, 2, ArrayEnd);
  }

  lemma DelimiterIs(line: string, i: nat, kind: Kind)
    requires IsDelimiter(kind) && Matches(line, i, kind)
    ensures DelimiterAt(line, i, DELIMITERS) == kind
  {
    var d := DelimiterAt(line, i, DELIMITERS);
    DelimitersComplete();
    if d == Undefined {
      NoneMatches(line, i, DELIMITERS, kind);
    } else if d != kind {
      Disjoint(line, i, kind, d);
    }
  }

  // The path `[text]` with an index that does not parse.
  lemma LostIndexOf(ok: string -> bool, parse: string -> Index, line: string)
    requires line == "[%]" && ok("") && parse("%") == Absent
    requires Located(line, 0, [Token(Array, 0), Token(ArrayEnd, 2)])
    ensures ParseTokens(ok, parse, line, [Token(Array, 0), Token(ArrayEnd, 2)], INITIAL) ==
            Some(State(3, 0, 0, Undefined, [Access(Array, "", Absent)]))
  {
    var tokens := [Token(Array, 0), Token(ArrayEnd, 2)];
    var st := State(0, 1, 1, Undefined, []);
    assert ParseToken(ok, parse, line, tokens, INITIAL) == Some(st);
    assert tokens[1..] == [Token(ArrayEnd, 2)];
    assert line[1..2] == "%" && line[0..0] == "";
    var a := Access(Array, "", Absent);
    assert [] + [a] == [a];
    assert ClosePart(ok, parse, line, Token(ArrayEnd, 2), st.(depth := 0)) ==
           Some(State(3, 0, 0, Undefined, [Access(Array, "", Absent)]));
  }

  lemma NotAName(ok: string -> bool)
    requires !ok("%")
    ensures ParseVar(ok, "%") == None
  {
    LexBrackets();
    assert "%"[0..] == "%";
  }

  /** An index that is not a name is lost, but the path is accepted. */
  lemma LostIndex(ok: string -> bool)
    requires ok("") && !ok("%")
    ensures ParseVar(ok, "[%]") == Some([Access(Array, "", Absent)])
  {
    LexBrackets();
    NotAName(ok);
    LexLocated("[%]", DELIMITERS, 0);
    LostIndexOf(ok, IndexParser(ok, "[%]"), "[%]");
  }
}
