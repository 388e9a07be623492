/** The methods of src/sp_var_parser.c, which compute what VarMachine specifies. */
module VarFold {
  import opened LinkedList
  import opened VarTokens
  import opened VarParser
  import opened VarMachine
  import opened Wrappers

  // The variables of parse_tokens, and what has been stored.
  datatype Vars = Vars(pos: nat, depth: i32, start: i32, quote: Kind, chain: seq<Access>)

  ghost function VarsOf(st: State): Vars
    requires st.depth <= INT_MAX
  {
    Vars(st.pos, st.depth, CodeStart(st.start), st.quote, st.chain)
  }

  ghost predicate Follows(r: Outcome<Vars>, o: Outcome<State>) {
    match o
    case Taken(st) => st.depth <= INT_MAX && r == Taken(VarsOf(st))
    case Refused => r == Refused
    case Beyond => r == Beyond
  }

  // code is the parser for the indices in the line.
  ghost predicate Reads(code: string -> Outcome<Index>, ok: string -> bool, line: string) {
    forall text {:trigger code(text)} :: |text| < |line| ==> code(text) == CodeIndex(ok, text)
  }

  method CreateVar(ok: string -> bool, chain: seq<Access>, value: string, kind: Kind, idx: Option<string>,
                   ghost code: string -> Outcome<Index>)
    returns (r: Outcome<seq<Access>>)
    requires idx.Some? ==> IsNear(idx.value) && code(idx.value) == CodeIndex(ok, idx.value)
    ensures r == CodeCreate(ok, chain, value, kind, if idx.Some? then code(idx.value) else Taken(Absent))
    decreases if idx.Some? then |idx.value| else 0, 7
  {
    var kind' := kind;
    if value != [] && value[0] == '$' && kind == Constant {
      kind' := Var;
    }
    if kind' != Interpreted && !ok(value) {
      return Refused;
    }
    var index := Absent;
    if idx.Some? {
      var parsed := SpParseVar(ok, idx.value);
      match parsed {
        case Taken(chain) =>
          index := Index(chain);
        case Refused =>
        case Beyond =>
          return Beyond;
      }
    }
    return Taken(chain + [Access(kind', value, index)]);
  }

  /** Computes what the code does, on every line whose tokens are sorted right. The text of an index is
      shorter than the line. */
  method SpParseVar(ok: string -> bool, line: string) returns (r: Outcome<seq<Access>>)
    requires IsNear(line)
    ensures r == CodeVar(ok, line)
    decreases |line|, 6
  {
    var list;
    ghost var nodes;
    LexLocated(line, DELIMITERS, 0);
    list, nodes := SortedTokens(line);
    r := FoldTokens(ok, line, list, nodes, CodeIndexParser(ok, line));
    if r == Taken([]) {
      r := Taken([Access(Constant, "", Absent)]);
    }
  }

  // What parse_tokens returns.
  ghost function Folded(ok: string -> bool, line: string, o: Outcome<State>): Outcome<seq<Access>>
    requires o.Taken? ==> InBounds(line, [], o.value)
  {
    match o
    case Refused => Refused
    case Beyond => Beyond
    case Taken(st) => Lift(Finish(ok, line, st))
  }

  lemma CodeTokensNext(ok: string -> bool, code: string -> Outcome<Index>, line: string, tokens: seq<Token>, st: State)
    requires tokens != [] && InBounds(line, tokens, st)
    ensures CodeTokens(ok, code, line, tokens, st) ==
            match CodeToken(ok, code, line, tokens, st)
            case Taken(st') => CodeTokens(ok, code, line, tokens[1..], st')
            case Refused => Refused
            case Beyond => Beyond
  {
  }

  method FoldTokens(ok: string -> bool, line: string, list: Node?<Token>, ghost nodes: seq<Node<Token>>,
                    ghost code: string -> Outcome<Index>)
    returns (r: Outcome<seq<Access>>)
    requires Reads(code, ok, line)
    requires IsNear(line) && IsList(list, nodes) && Data(nodes) == Lex(line) && Located(line, 0, Lex(line))
    ensures r == Folded(ok, line, CodeTokens(ok, code, line, Lex(line), INITIAL))
    decreases |line|, 5
  {
    ghost var tokens, st := Lex(line), INITIAL;
    var v := Vars(0, 0, -1, Undefined, []);
    var node := list;
    ghost var k := 0;
    assert tokens[0..] == tokens;
    while node != null
      invariant 0 <= k <= |nodes| && node == At(nodes, k)
      invariant InBounds(line, tokens[k..], st) && st.depth <= INT_MAX && v == VarsOf(st)
      invariant CodeTokens(ok, code, line, tokens[k..], st) == CodeTokens(ok, code, line, tokens, INITIAL)
      decreases |nodes| - k
    {
      assert tokens[k..][1..] == tokens[k + 1..];
      CodeTokensNext(ok, code, line, tokens[k..], st);
      var step := FoldNode(ok, line, node, nodes, k, v, tokens[k..], st, code);
      match step {
        case Refused =>
          return Refused;
        case Beyond =>
          return Beyond;
        case Taken(v') =>
          v := v';
      }
      st := CodeToken(ok, code, line, tokens[k..], st).value;
      node := node.next;
      k := k + 1;
    }
    assert tokens[k..] == [];
    r := FinishVars(ok, line, v, st);
  }

  // The token of one node, with a look at the next one.
  method FoldNode(ok: string -> bool, line: string, node: Node<Token>, ghost nodes: seq<Node<Token>>, ghost k: nat,
                  v: Vars, ghost tokens: seq<Token>, ghost st: State, ghost code: string -> Outcome<Index>)
    returns (r: Outcome<Vars>)
    requires Reads(code, ok, line) && IsNear(line)
    requires k < |nodes| && node == nodes[k] && node.next == At(nodes, k + 1) && tokens == Data(nodes)[k..]
    requires InBounds(line, tokens, st) && st.depth <= INT_MAX && v == VarsOf(st)
    ensures Follows(r, CodeToken(ok, code, line, tokens, st))
    decreases |line|, 4
  {
    assert tokens[0] == node.data && (node.next != null ==> tokens[1] == node.next.data);
    var next := if node.next == null then None else Some(node.next.data);
    r := FoldToken(ok, line, node.data, next, v, tokens, st, code);
  }

  // Behind the last token.
  method FinishVars(ok: string -> bool, line: string, v: Vars, ghost st: State) returns (r: Outcome<seq<Access>>)
    requires InBounds(line, [], st) && st.depth <= INT_MAX && v == VarsOf(st)
    ensures r == Lift(Finish(ok, line, st))
    decreases |line|, 3
  {
    if v.depth != 0 || v.quote != Undefined {
      return Refused;
    }
    if v.pos != |line| {
      r := CreateVar(ok, v.chain, line[v.pos..], Constant, None, _ => Refused);
    } else {
      r := Taken(v.chain);
    }
  }

  // is_next_token_empty
  method IsNextTokenEmpty(line: string, token: Token, next: Option<Token>, ghost tokens: seq<Token>)
    returns (empty: bool)
    requires tokens != [] && Located(line, 0, tokens) && token == tokens[0]
    requires next == if |tokens| > 1 then Some(tokens[1]) else None
    ensures empty == NextEmpty(line, tokens)
  {
    if next.Some? {
      empty := next.value.pos == token.pos + |Repr(token.kind)|;
    } else {
      empty := token.pos == |line| - |Repr(token.kind)|;
    }
  }

  method IsTokenValid(line: string, token: Token, next: Option<Token>, v: Vars, ghost tokens: seq<Token>,
                      ghost st: State)
    returns (valid: bool)
    requires tokens != [] && Located(line, 0, tokens) && token == tokens[0] && line != []
    requires next == if |tokens| > 1 then Some(tokens[1]) else None
    requires st.depth <= INT_MAX && v == VarsOf(st)
    ensures valid == TokenValid(line, tokens, st)
  {
    var empty := IsNextTokenEmpty(line, token, next, tokens);
    match token.kind {
      case Literal | Interpreted =>
        return v.quote != token.kind || empty;
      case ArrayEnd =>
        if v.quote == Undefined {
          if v.depth < 1 {
            return false;
          } else if next.Some? {
            return next.value.kind != Interpreted && next.value.kind != Literal;
          } else {
            return empty;
          }
        }
        return true;
      case Object =>
        if v.quote == Undefined && empty {
          return false;
        }
        return v.pos != 0 || line[0] == '$';
      case Class =>
        return v.quote != Undefined || !empty;
      case _ =>
        return true;
    }
  }

  method FoldToken(ok: string -> bool, line: string, token: Token, next: Option<Token>, v: Vars,
                   ghost tokens: seq<Token>, ghost st: State, ghost code: string -> Outcome<Index>)
    returns (r: Outcome<Vars>)
    requires Reads(code, ok, line)
    requires IsNear(line) && tokens != [] && InBounds(line, tokens, st) && token == tokens[0]
    requires next == if |tokens| > 1 then Some(tokens[1]) else None
    requires st.depth <= INT_MAX && v == VarsOf(st)
    ensures Follows(r, CodeToken(ok, code, line, tokens, st))
    decreases |line|, 3
  {
    AdvanceInBounds(line, tokens, st);
    Behind(line, st.pos, tokens);
    var valid := IsTokenValid(line, token, next, v, tokens, st);
    if !valid {
      return Refused;
    }
    var pos, quote, kind := v.pos, v.quote, token.kind;
    if kind == Interpreted || kind == Literal {
      pos := if quote == Undefined && v.depth == 0 then pos + |Repr(kind)| else pos;
      quote := if quote == Undefined then kind else if quote == kind then Undefined else quote;
      kind := Interpreted;
    }
    var q := v.(pos := pos, quote := quote);
    assert q == VarsOf(Quoted(token, st));
    if quote == Undefined {
      r := FoldBracket(ok, line, token, kind, q, Quoted(token, st), code);
    } else {
      r := Taken(q);
    }
  }

  method FoldBracket(ok: string -> bool, line: string, token: Token, kind: Kind, v: Vars, ghost q: State,
                     ghost code: string -> Outcome<Index>)
    returns (r: Outcome<Vars>)
    requires Reads(code, ok, line)
    requires IsNear(line) && Repr(token.kind) != [] && (token.kind == ArrayEnd ==> q.depth > 0)
    requires kind == if token.kind == Literal then Interpreted else token.kind
    requires q.depth <= INT_MAX && v == VarsOf(q) && (token.kind == ArrayEnd ==> q.start > 0)
    requires Bracketed(token, q).depth == 0 ==> PartEnds(line, token, Bracketed(token, q))
    ensures Follows(r, CodeBracket(ok, code, line, token, q))
    decreases |line|, 2
  {
    var depth: i32, start: i32, kind' := v.depth, v.start, kind;
    if kind == Array {
      start := if depth != 0 then start else Truncated(token.pos + |Repr(kind)|);
      if depth == INT_MAX {
        return Beyond;
      }
      depth := depth + 1;
    } else if kind == ArrayEnd {
      depth := depth - 1;
      kind' := Array;
    }
    var b := v.(depth := depth, start := start);
    assert b == VarsOf(Bracketed(token, q));
    if depth == 0 {
      r := CloseVar(ok, line, token, kind', b, Bracketed(token, q), code);
    } else {
      r := Taken(b);
    }
  }

  // The length of the value, and the text of the index. The sizes are subtracted as the source does; a
  // length below zero would wrap around.
  method PartText(line: string, token: Token, kind: Kind, v: Vars, ghost b: State)
    returns (size: int, idx: Option<string>)
    requires IsNear(line) && PartEnds(line, token, b) && Repr(token.kind) != [] && kind == PartKind(token.kind)
    requires (token.kind == ArrayEnd ==> b.start > 0) && b.depth <= INT_MAX && v == VarsOf(b)
    ensures v.pos + size == if v.start > 0 then v.start - 1 else if b.start > 0 then token.pos - 1 else token.pos
    ensures v.pos + size <= |line|
    ensures v.start <= token.pos && idx == if v.start > 0 then Some(line[v.start..token.pos]) else None
    ensures idx.Some? ==> IsNear(idx.value) && |idx.value| < |line|
  {
    size := token.pos - v.pos;
    if kind == Array {
      size := size - |Repr(token.kind)|;
    }
    idx := None;
    if v.start > 0 {
      idx := Some(line[v.start..token.pos]);
      NearPart(line, v.start, token.pos);
      size := size - (token.pos - v.start);
    }
  }

  lemma CloseIs(ok: string -> bool, code: string -> Outcome<Index>, line: string, t: Token, b: State, end: nat,
                idx: Option<string>)
    requires PartEnds(line, t, b) && Repr(t.kind) != [] && b.pos <= end <= |line|
    requires var start := CodeStart(b.start);
             && end == (if start > 0 then start - 1 else if b.start > 0 then t.pos - 1 else t.pos)
             && idx == if start > 0 then Some(line[start..t.pos]) else None
    ensures var index := if idx.Some? then code(idx.value) else Taken(Absent);
            CodeClose(ok, code, line, t, b) ==
            Stored(t, CodeCreate(ok, b.chain, line[b.pos..end], PartKind(t.kind), index))
  {
  }

  method CloseVar(ok: string -> bool, line: string, token: Token, kind: Kind, v: Vars, ghost b: State,
                  ghost code: string -> Outcome<Index>)
    returns (r: Outcome<Vars>)
    requires Reads(code, ok, line)
    requires IsNear(line) && PartEnds(line, token, b) && Repr(token.kind) != [] && kind == PartKind(token.kind)
    requires (token.kind == ArrayEnd ==> b.start > 0) && b.depth <= INT_MAX && v == VarsOf(b)
    ensures Follows(r, CodeClose(ok, code, line, token, b))
    decreases |line|, 1
  {
    var size, idx := PartText(line, token, kind, v, b);
    if size < 0 {
      return Beyond;
    }
    CloseIs(ok, code, line, token, b, v.pos + size, idx);
    var chain := CreateVar(ok, v.chain, line[v.pos..v.pos + size], kind, idx, code);
    match chain {
      case Taken(stored) =>
        r := Taken(Vars(token.pos + |Repr(token.kind)|, 0, -1, Undefined, stored));
      case Refused =>
        r := Refused;
      case Beyond =>
        r := Beyond;
    }
  }
}
