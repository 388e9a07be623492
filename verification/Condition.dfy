/** The `@condition` evaluator of src/sp_config_scanner.re: an operand/operator machine with two
    bounded stacks, against the expression grammar that it accepts. */
module Condition {

  const MAX_CONDITIONS: nat := 100

  // The operator characters '!', '<', '>', 'L', 'G', '&', '|' and '='.
  datatype Op = Not | Lt | Gt | Le | Ge | And | Or | Eq

  // What follows `@condition`, up to the semicolon.
  datatype Token = Operand(value: int) | Bang | LeftParen | RightParen | Infix(op: Op)

  // An entry of the operator stack: '(' or an operator.
  datatype Mark = Open | Pending(op: Op)

  datatype Error = TooComplex | NotEnoughInput | Unbalanced | Invalid | Syntax

  function Precedence(op: Op): int {
    match op
    case Not => 120
    case Lt => 90
    case Gt => 90
    case Le => 90
    case Ge => 90
    case And => 70
    case Or => 60
    case Eq => 20
  }

  predicate IsLeftAssociative(op: Op) {
    op != Not
  }

  function Truth(b: bool): int {
    if b then 1 else 0
  }

  // The meaning of the operators; a is the right operand, which is popped first.
  function ApplyOp(op: Op, a: int, b: int): int {
    match op
    case Not => Truth(a == 0)
    case And => Truth(b != 0 && a != 0)
    case Or => Truth(b != 0 || a != 0)
    case Lt => Truth(b < a)
    case Le => Truth(b <= a)
    case Ge => Truth(b >= a)
    case Gt => Truth(b > a)
    case Eq => Truth(b == a)
  }

  // ---- the grammar ----

  datatype Expr = Leaf(value: int) | Paren(e: Expr) | Negate(e: Expr) | Binary(op: Op, l: Expr, r: Expr)

  // How tightly the outermost construct binds.
  function Level(e: Expr): int {
    match e
    case Leaf(_) => 200
    case Paren(_) => 200
    case Negate(_) => Precedence(Not)
    case Binary(op, _, _) => Precedence(op)
  }

  // Parse trees: `!` takes an operand without infix operators; infix operators associate to the
  // left, and their operands bind more tightly.
  predicate IsParse(e: Expr) {
    match e
    case Leaf(_) => true
    case Paren(e) => IsParse(e)
    case Negate(e) => IsParse(e) && Level(e) >= Precedence(Not)
    case Binary(op, l, r) =>
      op != Not && IsParse(l) && IsParse(r) && Level(l) >= Precedence(op) && Level(r) > Precedence(op)
  }

  function Text(e: Expr): seq<Token> {
    match e
    case Leaf(v) => [Operand(v)]
    case Paren(e) => [LeftParen] + Text(e) + [RightParen]
    case Negate(e) => [Bang] + Text(e)
    case Binary(op, l, r) => Text(l) + [Infix(op)] + Text(r)
  }

  function Eval(e: Expr): int {
    match e
    case Leaf(v) => v
    case Paren(e) => Eval(e)
    case Negate(e) => ApplyOp(Not, Eval(e), 0)
    case Binary(op, l, r) => ApplyOp(op, Eval(r), Eval(l))
  }

  // ---- the machine, over integers or over parse trees ----

  datatype Algebra<!V> = Algebra(leaf: int -> V, group: V -> V, negate: V -> V, infix: (Op, V, V) -> V)

  const INTEGERS: Algebra<int> :=
    Algebra(v => v, v => v, v => ApplyOp(Not, v, 0), (op, l, r) => ApplyOp(op, r, l))

  const TREES: Algebra<Expr> :=
    Algebra(v => Leaf(v), e => Paren(e), e => Negate(e), (op, l, r) => Binary(op, l, r))

  // operand: the scanner is in <cond>; otherwise in <cond_op>.
  datatype Config<V> = Config(ops: seq<Mark>, res: seq<V>, operand: bool)

  datatype Outcome<V> = Running(c: Config<V>) | Accepted(value: V) | Failed(error: Error)

  function Last<T>(s: seq<T>): T
    requires s != []
  {
    s[|s| - 1]
  }

  function Front<T>(s: seq<T>): seq<T>
    requires s != []
  {
    s[..|s| - 1]
  }

  // The loop stops at the bottom, at a parenthesis, or at an operator that binds less than q.
  predicate Stops(ops: seq<Mark>, q: int) {
    ops == [] || Last(ops).Open? || Precedence(Last(ops).op) < q
  }

  // SY_APPLY_OP_FROM_STACK
  function ApplyTop<V>(alg: Algebra<V>, ops: seq<Mark>, res: seq<V>): Outcome<V>
    requires ops != [] && Last(ops).Pending?
  {
    var op := Last(ops).op;
    if op == Not then
      if res == [] then Failed(NotEnoughInput)
      else Running(Config(Front(ops), Front(res) + [alg.negate(Last(res))], false))
    else
      if |res| < 2 then Failed(NotEnoughInput)
      else
        var l, r := Last(Front(res)), Last(res);
        Running(Config(Front(ops), Front(Front(res)) + [alg.infix(op, l, r)], false))
  }

  function Reduce<V>(alg: Algebra<V>, q: int, ops: seq<Mark>, res: seq<V>): Outcome<V>
    decreases |ops|
  {
    if Stops(ops, q) then Running(Config(ops, res, false))
    else
      match ApplyTop(alg, ops, res)
      case Running(c) => Reduce(alg, q, c.ops, c.res)
      case other => other
  }

  function PushOp<V>(cap: nat, c: Config<V>, mark: Mark): Outcome<V> {
    if |c.ops| >= cap then Failed(TooComplex) else Running(Config(c.ops + [mark], c.res, true))
  }

  function Step<V>(alg: Algebra<V>, cap: nat, c: Config<V>, token: Token): Outcome<V> {
    if c.operand then
      match token
      case Operand(v) =>
        if |c.res| >= cap then Failed(TooComplex)
        else Running(Config(c.ops, c.res + [alg.leaf(v)], false))
      case Bang => PushOp(cap, c, Pending(Not))
      case LeftParen => PushOp(cap, c, Open)
      case _ => Failed(Syntax)
    else
      match token
      case Infix(op) =>
        if op == Not then Failed(Syntax)
        else
          var r := Reduce(alg, Precedence(op), c.ops, c.res);
          if r.Running? then PushOp(cap, r.c, Pending(op)) else r
      case RightParen =>
        var r := Reduce(alg, 0, c.ops, c.res);
        if !r.Running? then r
        else if r.c.ops == [] then Failed(Unbalanced)
        else if r.c.res == [] then Failed(NotEnoughInput)
        else Running(Config(Front(r.c.ops), Front(r.c.res) + [alg.group(Last(r.c.res))], false))
      case _ => Failed(Syntax)
  }

  function Run<V>(alg: Algebra<V>, cap: nat, c: Config<V>, tokens: seq<Token>): Outcome<V>
    decreases |tokens|
  {
    if tokens == [] then Running(c)
    else
      match Step(alg, cap, c, tokens[0])
      case Running(c') => Run(alg, cap, c', tokens[1..])
      case other => other
  }

  // The semicolon.
  function Finish<V>(alg: Algebra<V>, c: Config<V>): Outcome<V> {
    if c.operand then Failed(Syntax)
    else
      var r := Reduce(alg, 0, c.ops, c.res);
      if !r.Running? then r
      else if r.c.ops != [] then Failed(Unbalanced)
      else if |r.c.res| != 1 then Failed(Invalid)
      else Accepted(r.c.res[0])
  }

  function Start<V>(): Config<V> {
    Config([], [], true)
  }

  function Evaluate<V>(alg: Algebra<V>, cap: nat, tokens: seq<Token>): Outcome<V> {
    match Run(alg, cap, Start(), tokens)
    case Running(c) => Finish(alg, c)
    case other => other
  }

  // ---- stack discipline ----

  function Infixes(ops: seq<Mark>): nat {
    if ops == [] then 0
    else Infixes(Front(ops)) + (if Last(ops).Pending? && Last(ops).op != Not then 1 else 0)
  }

  // As many results as pending infix operators, and one more after an operand.
  predicate Disciplined<V>(c: Config<V>) {
    |c.res| == Infixes(c.ops) + (if c.operand then 0 else 1)
  }

  lemma {:induction false} ReduceDisciplined<V>(alg: Algebra<V>, q: int, ops: seq<Mark>, res: seq<V>)
    requires |res| == Infixes(ops) + 1
    ensures var r := Reduce(alg, q, ops, res);
            r.Running? && !r.c.operand && Disciplined(r.c) && Stops(r.c.ops, q)
    decreases |ops|
  {
    if !Stops(ops, q) {
      var c := ApplyTop(alg, ops, res).c;
      ReduceDisciplined(alg, q, c.ops, c.res);
    }
  }

  lemma {:induction false} StepDisciplined<V>(alg: Algebra<V>, cap: nat, c: Config<V>, token: Token)
    requires Disciplined(c)
    ensures var r := Step(alg, cap, c, token);
            if r.Running? then Disciplined(r.c)
            else r.Failed? && r.error != NotEnoughInput && r.error != Invalid
  {
    if !c.operand {
      var q := if token.Infix? then Precedence(token.op) else 0;
      ReduceDisciplined(alg, q, c.ops, c.res);
    }
  }

  lemma {:induction false} RunDisciplined<V>(alg: Algebra<V>, cap: nat, c: Config<V>, tokens: seq<Token>)
    requires Disciplined(c)
    ensures var r := Run(alg, cap, c, tokens);
            if r.Running? then Disciplined(r.c)
            else r.Failed? && r.error != NotEnoughInput && r.error != Invalid
    decreases |tokens|
  {
    if tokens != [] {
      StepDisciplined(alg, cap, c, tokens[0]);
      var r := Step(alg, cap, c, tokens[0]);
      if r.Running? {
        RunDisciplined(alg, cap, r.c, tokens[1..]);
      }
    }
  }

  /** On any input whatever, the machine never runs short of operands and never ends with a result
      too many: these two error branches are dead. */
  lemma {:induction false} DeadBranches<V>(alg: Algebra<V>, cap: nat, tokens: seq<Token>)
    ensures var r := Evaluate(alg, cap, tokens);
            !r.Running? && (r.Failed? ==> r.error != NotEnoughInput && r.error != Invalid)
  {
    RunDisciplined(alg, cap, Start<V>(), tokens);
    var r := Run(alg, cap, Start<V>(), tokens);
    if r.Running? && !r.c.operand {
      ReduceDisciplined(alg, 0, r.c.ops, r.c.res);
    }
  }

  // ---- every expression that fits is accepted ----

  // The operators and results that a scanned expression leaves unreduced.
  function PendingOps(e: Expr): seq<Mark> {
    match e
    case Leaf(_) => []
    case Paren(_) => []
    case Negate(e) => [Pending(Not)] + PendingOps(e)
    case Binary(op, l, r) => [Pending(op)] + PendingOps(r)
  }

  function PendingResults(e: Expr): seq<Expr> {
    match e
    case Leaf(_) => [e]
    case Paren(_) => [e]
    case Negate(e) => PendingResults(e)
    case Binary(op, l, r) => [l] + PendingResults(r)
  }

  // The room an expression takes on the two stacks.
  function OperatorNeed(e: Expr): nat {
    match e
    case Leaf(_) => 0
    case Paren(e) => 1 + OperatorNeed(e)
    case Negate(e) => 1 + OperatorNeed(e)
    case Binary(op, l, r) => Max(OperatorNeed(l), 1 + OperatorNeed(r))
  }

  function ResultNeed(e: Expr): nat {
    match e
    case Leaf(_) => 1
    case Paren(e) => ResultNeed(e)
    case Negate(e) => ResultNeed(e)
    case Binary(op, l, r) => Max(ResultNeed(l), 1 + ResultNeed(r))
  }

  function Max(a: nat, b: nat): nat {
    if a < b then b else a
  }

  predicate Fits(cap: nat, ops: nat, res: nat, e: Expr) {
    ops + OperatorNeed(e) <= cap && res + ResultNeed(e) <= cap
  }

  /** Reducing with a bound at most the level of e first folds what e left pending back into e. */
  lemma {:induction false} Collapse(e: Expr, q: int, ops: seq<Mark>, res: seq<Expr>)
    requires IsParse(e) && q <= Level(e)
    ensures Reduce(TREES, q, ops + PendingOps(e), res + PendingResults(e)) == Reduce(TREES, q, ops, res + [e])
    decreases e
  {
    match e
    case Leaf(_) =>
      assert ops + [] == ops;
    case Paren(_) =>
      assert ops + [] == ops;
    case Negate(inner) =>
      var ops1 := ops + [Pending(Not)];
      assert ops + PendingOps(e) == ops1 + PendingOps(inner);
      Collapse(inner, q, ops1, res);
      assert Front(ops1) == ops && Front(res + [inner]) == res;
    case Binary(op, l, r) =>
      var ops1 := ops + [Pending(op)];
      assert ops + PendingOps(e) == ops1 + PendingOps(r);
      assert res + PendingResults(e) == res + [l] + PendingResults(r);
      Collapse(r, q, ops1, res + [l]);
      var full := res + [l] + [r];
      assert Front(ops1) == ops && Front(full) == res + [l] && Front(Front(full)) == res;
  }

  /** Scanning e from operand state, with something still to be reduced below only when it binds
      less, leaves exactly its pending entries; it fails only for lack of room. */
  lemma {:induction false} RunExpr(cap: nat, e: Expr, ops: seq<Mark>, res: seq<Expr>, rest: seq<Token>)
    requires IsParse(e) && |ops| <= cap
    requires e.Binary? ==> Stops(ops, Precedence(e.op))
    ensures Run(TREES, cap, Config(ops, res, true), Text(e) + rest) ==
            if Fits(cap, |ops|, |res|, e)
            then Run(TREES, cap, Config(ops + PendingOps(e), res + PendingResults(e), false), rest)
            else Failed(TooComplex)
    decreases e, 1
  {
    match e
    case Leaf(v) =>
      RunLeaf(cap, v, ops, res, rest);
    case Paren(inner) =>
      var after := [RightParen] + rest;
      assert Text(e) + rest == [LeftParen] + (Text(inner) + after);
      First(LeftParen, Text(inner) + after);
      if |ops| < cap {
        RunExpr(cap, inner, ops + [Open], res, after);
        RunClose(cap, inner, ops, res, rest);
        assert ops + [] == ops;
      }
    case Negate(inner) =>
      assert Text(e) + rest == [Bang] + (Text(inner) + rest);
      First(Bang, Text(inner) + rest);
      if |ops| < cap {
        RunExpr(cap, inner, ops + [Pending(Not)], res, rest);
        assert ops + [Pending(Not)] + PendingOps(inner) == ops + PendingOps(e);
      }
    case Binary(_, _, _) =>
      RunBinary(cap, e, ops, res, rest);
  }

  lemma {:induction false} RunBinary(cap: nat, e: Expr, ops: seq<Mark>, res: seq<Expr>, rest: seq<Token>)
    requires IsParse(e) && |ops| <= cap && e.Binary? && Stops(ops, Precedence(e.op))
    ensures Run(TREES, cap, Config(ops, res, true), Text(e) + rest) ==
            if Fits(cap, |ops|, |res|, e)
            then Run(TREES, cap, Config(ops + PendingOps(e), res + PendingResults(e), false), rest)
            else Failed(TooComplex)
    decreases e, 0
  {
    var Binary(op, l, r) := e;
    var after := [Infix(op)] + (Text(r) + rest);
    assert Text(e) + rest == Text(l) + after;
    RunExpr(cap, l, ops, res, after);
    if Fits(cap, |ops|, |res|, l) {
      RunInfix(cap, op, l, ops, res, Text(r) + rest);
      if |ops| < cap {
        RunExpr(cap, r, ops + [Pending(op)], res + [l], rest);
        RightSpine(op, l, r, ops, res);
      }
    }
  }

  lemma RightSpine(op: Op, l: Expr, r: Expr, ops: seq<Mark>, res: seq<Expr>)
    ensures ops + [Pending(op)] + PendingOps(r) == ops + PendingOps(Binary(op, l, r))
    ensures res + [l] + PendingResults(r) == res + PendingResults(Binary(op, l, r))
  {
  }

  lemma First(t: Token, rest: seq<Token>)
    ensures ([t] + rest)[0] == t && ([t] + rest)[1..] == rest
  {
  }

  lemma RunLeaf(cap: nat, v: int, ops: seq<Mark>, res: seq<Expr>, rest: seq<Token>)
    requires |ops| <= cap
    ensures Run(TREES, cap, Config(ops, res, true), Text(Leaf(v)) + rest) ==
            if Fits(cap, |ops|, |res|, Leaf(v)) then Run(TREES, cap, Config(ops + [], res + [Leaf(v)], false), rest)
            else Failed(TooComplex)
  {
    First(Operand(v), rest);
    assert ops + [] == ops;
  }

  lemma RunClose(cap: nat, e: Expr, ops: seq<Mark>, res: seq<Expr>, rest: seq<Token>)
    requires IsParse(e)
    ensures Run(TREES, cap, Config(ops + [Open] + PendingOps(e), res + PendingResults(e), false), [RightParen] + rest)
         == Run(TREES, cap, Config(ops, res + [Paren(e)], false), rest)
  {
    var ops1 := ops + [Open];
    Collapse(e, 0, ops1, res);
    First(RightParen, rest);
    assert Stops(ops1, 0);
    assert Front(ops1) == ops && Front(res + [e]) == res;
  }

  lemma RunInfix(cap: nat, op: Op, l: Expr, ops: seq<Mark>, res: seq<Expr>, rest: seq<Token>)
    requires op != Not && IsParse(l) && Level(l) >= Precedence(op) && Stops(ops, Precedence(op))
    ensures Run(TREES, cap, Config(ops + PendingOps(l), res + PendingResults(l), false), [Infix(op)] + rest)
         == if |ops| < cap then Run(TREES, cap, Config(ops + [Pending(op)], res + [l], true), rest)
            else Failed(TooComplex)
  {
    Collapse(l, Precedence(op), ops, res);
    First(Infix(op), rest);
  }

  // ---- what is accepted is an expression ----

  // The tokens that a configuration over trees stands for.
  function Scanned(c: Config<Expr>): seq<Token>
    requires Disciplined(c)
    decreases |c.ops|, if c.operand then 0 else 1
  {
    if !c.operand then Scanned(Config(c.ops, Front(c.res), true)) + Text(Last(c.res))
    else if c.ops == [] then []
    else
      match Last(c.ops)
      case Open => Scanned(Config(Front(c.ops), c.res, true)) + [LeftParen]
      case Pending(op) =>
        if op == Not then Scanned(Config(Front(c.ops), c.res, true)) + [Bang]
        else Scanned(Config(Front(c.ops), c.res, false)) + [Infix(op)]
  }

  // A tree may stand to the right of the topmost operator.
  predicate FitsAbove(ops: seq<Mark>, e: Expr) {
    ops == [] || Last(ops).Open? ||
    (if Last(ops).op == Not then Level(e) >= Precedence(Not) else Level(e) > Precedence(Last(ops).op))
  }

  // Every result is a parse tree that fits between the operators around it.
  predicate Ordered(c: Config<Expr>)
    requires Disciplined(c)
    decreases |c.ops|, if c.operand then 0 else 1
  {
    if !c.operand then
      && Ordered(Config(c.ops, Front(c.res), true))
      && IsParse(Last(c.res)) && FitsAbove(c.ops, Last(c.res))
    else if c.ops == [] then true
    else if Last(c.ops).Open? || Last(c.ops).op == Not then Ordered(Config(Front(c.ops), c.res, true))
    else
      var op := Last(c.ops).op;
      && Ordered(Config(Front(c.ops), c.res, false))
      && Level(Last(c.res)) >= Precedence(op) && Stops(Front(c.ops), Precedence(op))
  }

  lemma {:induction false} ReduceSound(q: int, ops: seq<Mark>, res: seq<Expr>)
    requires |res| == Infixes(ops) + 1 && Ordered(Config(ops, res, false)) && Level(Last(res)) >= q
    ensures var r := Reduce(TREES, q, ops, res);
            r.Running? && Disciplined(r.c) && !r.c.operand && Stops(r.c.ops, q) &&
            Ordered(r.c) && Level(Last(r.c.res)) >= q && Scanned(r.c) == Scanned(Config(ops, res, false))
    decreases |ops|
  {
    if !Stops(ops, q) {
      var c := ApplyTop(TREES, ops, res).c;
      ApplySound(ops, res);
      ReduceSound(q, c.ops, c.res);
    }
  }

  lemma ApplySound(ops: seq<Mark>, res: seq<Expr>)
    requires |res| == Infixes(ops) + 1 && Ordered(Config(ops, res, false))
    requires ops != [] && Last(ops).Pending?
    ensures var r := ApplyTop(TREES, ops, res);
            r.Running? && Disciplined(r.c) && !r.c.operand && r.c.ops == Front(ops) &&
            Ordered(r.c) && Level(Last(r.c.res)) == Precedence(Last(ops).op) &&
            Scanned(r.c) == Scanned(Config(ops, res, false))
  {
    if Last(ops).op == Not {
      ApplyNotSound(ops, res);
    } else {
      ApplyInfixSound(ops, res);
    }
  }

  lemma ApplyNotSound(ops: seq<Mark>, res: seq<Expr>)
    requires |res| == Infixes(ops) + 1 && Ordered(Config(ops, res, false))
    requires ops != [] && Last(ops) == Pending(Not)
    ensures var c := Config(Front(ops), Front(res) + [Negate(Last(res))], false);
            Disciplined(c) && Ordered(c) && Scanned(c) == Scanned(Config(ops, res, false))
  {
    var c := Config(Front(ops), Front(res) + [Negate(Last(res))], false);
    var below, left := Config(ops, Front(res), true), Config(Front(ops), Front(res), true);
    assert Front(c.res) == Front(res);
    assert Ordered(below) && Ordered(left);
    assert Scanned(left) + [Bang] + Text(Last(res)) == Scanned(left) + Text(Negate(Last(res)));
  }

  lemma ApplyInfixSound(ops: seq<Mark>, res: seq<Expr>)
    requires |res| == Infixes(ops) + 1 && Ordered(Config(ops, res, false))
    requires ops != [] && Last(ops).Pending? && Last(ops).op != Not
    ensures |res| >= 2
    ensures var e := Binary(Last(ops).op, Last(Front(res)), Last(res));
            var c := Config(Front(ops), Front(Front(res)) + [e], false);
            Disciplined(c) && Ordered(c) && Scanned(c) == Scanned(Config(ops, res, false))
  {
    var op, l, r := Last(ops).op, Last(Front(res)), Last(res);
    var c := Config(Front(ops), Front(Front(res)) + [Binary(op, l, r)], false);
    var below, middle := Config(ops, Front(res), true), Config(Front(ops), Front(res), false);
    assert Front(c.res) == Front(Front(res));
    assert Ordered(below) && Ordered(middle);
    var left := Scanned(Config(Front(ops), Front(Front(res)), true));
    assert Scanned(below) == left + Text(l) + [Infix(op)];
    assert left + Text(l) + [Infix(op)] + Text(r) == left + Text(Binary(op, l, r));
  }

  // Between two tokens: parse trees in order, the topmost of them complete.
  predicate Sound(c: Config<Expr>, scanned: seq<Token>) {
    Disciplined(c) && Ordered(c) && (!c.operand ==> Level(Last(c.res)) == 200) && Scanned(c) == scanned
  }

  lemma OperandSound(cap: nat, c: Config<Expr>, token: Token, scanned: seq<Token>)
    requires Sound(c, scanned) && c.operand
    ensures var r := Step(TREES, cap, c, token); r.Running? ==> Sound(r.c, scanned + [token])
  {
    StepDisciplined(TREES, cap, c, token);
    var r := Step(TREES, cap, c, token);
    if r.Running? {
      assert if token.Operand? then Front(r.c.res) == c.res else Front(r.c.ops) == c.ops;
    }
  }

  lemma OperatorSound(cap: nat, c: Config<Expr>, token: Token, scanned: seq<Token>)
    requires Sound(c, scanned) && !c.operand
    ensures var r := Step(TREES, cap, c, token); r.Running? ==> Sound(r.c, scanned + [token])
  {
    var r := Step(TREES, cap, c, token);
    if r.Running? {
      var q := if token.Infix? then Precedence(token.op) else 0;
      ReduceSound(q, c.ops, c.res);
      var m := Reduce(TREES, q, c.ops, c.res).c;
      if token.Infix? {
        PushSound(token.op, m, scanned);
      } else {
        CloseSound(m, scanned);
      }
    }
  }

  lemma PushSound(op: Op, m: Config<Expr>, scanned: seq<Token>)
    requires op != Not && !m.operand && Disciplined(m) && Ordered(m) && Scanned(m) == scanned
    requires Stops(m.ops, Precedence(op)) && Level(Last(m.res)) >= Precedence(op)
    ensures Sound(Config(m.ops + [Pending(op)], m.res, true), scanned + [Infix(op)])
  {
    assert Front(m.ops + [Pending(op)]) == m.ops;
  }

  lemma CloseSound(m: Config<Expr>, scanned: seq<Token>)
    requires !m.operand && Disciplined(m) && Ordered(m) && Scanned(m) == scanned
    requires m.ops != [] && Last(m.ops).Open?
    ensures Sound(Config(Front(m.ops), Front(m.res) + [Paren(Last(m.res))], false), scanned + [RightParen])
  {
    var e := Paren(Last(m.res));
    var below, left := Config(m.ops, Front(m.res), true), Config(Front(m.ops), Front(m.res), true);
    assert Ordered(below) && Ordered(left);
    assert Scanned(below) == Scanned(left) + [LeftParen];
    WithOperand(left, e);
    assert Scanned(left) + [LeftParen] + Text(Last(m.res)) + [RightParen] == Scanned(left) + Text(e);
  }

  // An operand that is complete may follow anywhere an operand is expected.
  lemma WithOperand(left: Config<Expr>, e: Expr)
    requires left.operand && Disciplined(left) && Ordered(left) && IsParse(e) && Level(e) == 200
    ensures Sound(Config(left.ops, left.res + [e], false), Scanned(left) + Text(e))
  {
    assert Front(left.res + [e]) == left.res;
  }

  lemma {:induction false} RunSound(cap: nat, c: Config<Expr>, tokens: seq<Token>, scanned: seq<Token>)
    requires Sound(c, scanned)
    ensures var r := Run(TREES, cap, c, tokens); r.Running? ==> Sound(r.c, scanned + tokens)
    decreases |tokens|
  {
    if tokens == [] {
      assert scanned + tokens == scanned;
    } else {
      if c.operand {
        OperandSound(cap, c, tokens[0], scanned);
      } else {
        OperatorSound(cap, c, tokens[0], scanned);
      }
      var r := Step(TREES, cap, c, tokens[0]);
      if r.Running? {
        RunSound(cap, r.c, tokens[1..], scanned + [tokens[0]]);
        assert scanned + [tokens[0]] + tokens[1..] == scanned + tokens;
      }
    }
  }

  lemma RunText(cap: nat, e: Expr)
    requires IsParse(e)
    ensures Evaluate(TREES, cap, Text(e)) == if Fits(cap, 0, 0, e) then Accepted(e) else Failed(TooComplex)
  {
    RunExpr(cap, e, [], [], []);
    assert Text(e) + [] == Text(e);
    if Fits(cap, 0, 0, e) {
      FinishText(e);
    }
  }

  lemma FinishText(e: Expr)
    requires IsParse(e)
    ensures Finish(TREES, Config([] + PendingOps(e), [] + PendingResults(e), false)) == Accepted(e)
  {
    Collapse(e, 0, [], []);
    assert [] + [e] == [e];
  }

  lemma AcceptedText(cap: nat, tokens: seq<Token>)
    ensures var r := Evaluate(TREES, cap, tokens); r.Accepted? ==> IsParse(r.value) && Text(r.value) == tokens
  {
    RunSound(cap, Start<Expr>(), tokens, []);
    RunDisciplined(TREES, cap, Start<Expr>(), tokens);
    var r := Run(TREES, cap, Start<Expr>(), tokens);
    if r.Running? && !r.c.operand {
      ReduceSound(0, r.c.ops, r.c.res);
      var m := Reduce(TREES, 0, r.c.ops, r.c.res).c;
      if m.ops == [] {
        assert |m.res| == 1 && Last(m.res) == m.res[0];
        calc {
          Text(m.res[0]);
          [] + Text(m.res[0]);
          Scanned(m);
          Scanned(r.c);
          [] + tokens;
          tokens;
        }
      }
    }
  }

  /** The machine over trees is a parser: it accepts exactly the expressions that fit its stacks,
      and an expression that does not fit is reported as too complex. */
  lemma ParsesGrammar(cap: nat, tokens: seq<Token>, e: Expr)
    ensures Evaluate(TREES, cap, tokens) == Accepted(e) <==>
            IsParse(e) && Text(e) == tokens && Fits(cap, 0, 0, e)
    ensures IsParse(e) && Text(e) == tokens && !Fits(cap, 0, 0, e) ==>
            Evaluate(TREES, cap, tokens) == Failed(TooComplex)
  {
    AcceptedText(cap, tokens);
    if IsParse(e) {
      RunText(cap, e);
    }
  }

  /** The grammar is unambiguous. */
  lemma Unambiguous(e: Expr, e': Expr)
    requires IsParse(e) && IsParse(e') && Text(e) == Text(e')
    ensures e == e'
  {
    var cap := Max(OperatorNeed(e), ResultNeed(e));
    ParsesGrammar(cap, Text(e), e);
    ParsesGrammar(cap, Text(e), e');
  }

  // ---- from trees to integers ----

  function Values(res: seq<Expr>): seq<int> {
    seq(|res|, i requires 0 <= i < |res| => Eval(res[i]))
  }

  function Valued(o: Outcome<Expr>): Outcome<int> {
    match o
    case Running(c) => Running(Config(c.ops, Values(c.res), c.operand))
    case Accepted(e) => Accepted(Eval(e))
    case Failed(error) => Failed(error)
  }

  lemma {:induction false} ReduceValued(q: int, ops: seq<Mark>, res: seq<Expr>)
    ensures Reduce(INTEGERS, q, ops, Values(res)) == Valued(Reduce(TREES, q, ops, res))
    decreases |ops|
  {
    if !Stops(ops, q) {
      ApplyValued(ops, res);
      var r := ApplyTop(TREES, ops, res);
      if r.Running? {
        ReduceValued(q, r.c.ops, r.c.res);
      }
    }
  }

  lemma ApplyValued(ops: seq<Mark>, res: seq<Expr>)
    requires ops != [] && Last(ops).Pending?
    ensures ApplyTop(INTEGERS, ops, Values(res)) == Valued(ApplyTop(TREES, ops, res))
  {
    var r, s := ApplyTop(TREES, ops, res), ApplyTop(INTEGERS, ops, Values(res));
    if r.Running? {
      assert s.c.res == Values(r.c.res);
    }
  }

  lemma StepValued(cap: nat, c: Config<Expr>, token: Token)
    ensures Step(INTEGERS, cap, Config(c.ops, Values(c.res), c.operand), token) == Valued(Step(TREES, cap, c, token))
  {
    if c.operand {
      if token.Operand? {
        ValuesAppend(c.res, Leaf(token.value));
      }
    } else if token.Infix? {
      ReduceValued(Precedence(token.op), c.ops, c.res);
    } else {
      ReduceValued(0, c.ops, c.res);
      var r := Reduce(TREES, 0, c.ops, c.res);
      if r.Running? && r.c.res != [] {
        ValuesLast(r.c.res);
        ValuesAppend(Front(r.c.res), Paren(Last(r.c.res)));
      }
    }
  }

  lemma ValuesAppend(res: seq<Expr>, e: Expr)
    ensures Values(res + [e]) == Values(res) + [Eval(e)]
  {
  }

  lemma ValuesLast(res: seq<Expr>)
    requires res != []
    ensures Values(Front(res)) == Front(Values(res)) && Last(Values(res)) == Eval(Last(res))
  {
  }

  lemma {:induction false} RunValued(cap: nat, c: Config<Expr>, tokens: seq<Token>)
    ensures Run(INTEGERS, cap, Config(c.ops, Values(c.res), c.operand), tokens) == Valued(Run(TREES, cap, c, tokens))
    decreases |tokens|
  {
    if tokens != [] {
      StepValued(cap, c, tokens[0]);
      var r := Step(TREES, cap, c, tokens[0]);
      if r.Running? {
        RunValued(cap, r.c, tokens[1..]);
      }
    }
  }

  /** The integer machine computes the value of the parse tree, or the same error. */
  lemma EvaluatesTree(cap: nat, tokens: seq<Token>)
    ensures Evaluate(INTEGERS, cap, tokens) == Valued(Evaluate(TREES, cap, tokens))
  {
    RunValued(cap, Start<Expr>(), tokens);
    assert Values([]) == [];
    var r := Run(TREES, cap, Start<Expr>(), tokens);
    if r.Running? {
      ReduceValued(0, r.c.ops, r.c.res);
    }
  }

  /** A condition has value v exactly when it is the text of an expression, small enough for the
      stacks, whose value is v. */
  lemma ConditionMeaning(cap: nat, tokens: seq<Token>, v: int)
    ensures Evaluate(INTEGERS, cap, tokens) == Accepted(v) <==>
            exists e :: IsParse(e) && Text(e) == tokens && Fits(cap, 0, 0, e) && Eval(e) == v
  {
    EvaluatesTree(cap, tokens);
    DeadBranches(TREES, cap, tokens);
    var r := Evaluate(TREES, cap, tokens);
    if r.Accepted? {
      ParsesGrammar(cap, tokens, r.value);
    }
    forall e | IsParse(e) && Text(e) == tokens && Fits(cap, 0, 0, e)
      ensures r == Accepted(e)
    {
      ParsesGrammar(cap, tokens, e);
    }
  }
}
