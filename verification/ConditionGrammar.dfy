/** The language of `@condition` without precedences: the grammar layer by layer, and the value of an
    expression as C gives it. */
module ConditionGrammar {
  import opened Condition

  // equality    ::= disjunction | equality == disjunction
  // disjunction ::= conjunction | disjunction || conjunction
  // conjunction ::= comparison  | conjunction && comparison
  // comparison  ::= negation    | comparison < negation, and so for >, <= and >=
  // negation    ::= primary     | ! negation
  // primary     ::= operand     | ( equality )

  predicate IsEquality(e: Expr)
    decreases e, 5
  {
    IsDisjunction(e) || (e.Binary? && e.op == Eq && IsEquality(e.l) && IsDisjunction(e.r))
  }

  predicate IsDisjunction(e: Expr)
    decreases e, 4
  {
    IsConjunction(e) || (e.Binary? && e.op == Or && IsDisjunction(e.l) && IsConjunction(e.r))
  }

  predicate IsConjunction(e: Expr)
    decreases e, 3
  {
    IsComparison(e) || (e.Binary? && e.op == And && IsConjunction(e.l) && IsComparison(e.r))
  }

  predicate IsComparison(e: Expr)
    decreases e, 2
  {
    IsNegation(e) || (e.Binary? && e.op in {Lt, Gt, Le, Ge} && IsComparison(e.l) && IsNegation(e.r))
  }

  predicate IsNegation(e: Expr)
    decreases e, 1
  {
    IsPrimary(e) || (e.Negate? && IsNegation(e.e))
  }

  predicate IsPrimary(e: Expr)
    decreases e, 0
  {
    match e
    case Leaf(_) => true
    case Paren(inner) => IsEquality(inner)
    case _ => false
  }

  // Each layer is a bound on the level of parse trees.
  lemma {:induction false} Layers(e: Expr)
    ensures IsEquality(e) <==> IsParse(e)
    ensures IsDisjunction(e) <==> IsParse(e) && Level(e) >= Precedence(Or)
    ensures IsConjunction(e) <==> IsParse(e) && Level(e) >= Precedence(And)
    ensures IsComparison(e) <==> IsParse(e) && Level(e) >= Precedence(Lt)
    ensures IsNegation(e) <==> IsParse(e) && Level(e) >= Precedence(Not)
    ensures IsPrimary(e) <==> IsParse(e) && Level(e) > Precedence(Not)
    decreases e
  {
    if e.Paren? || e.Negate? {
      Layers(e.e);
    }
    if e.Binary? {
      Layers(e.l);
      Layers(e.r);
    }
    assert IsPrimary(e) <==> IsParse(e) && Level(e) > Precedence(Not);
    assert IsNegation(e) <==> IsParse(e) && Level(e) >= Precedence(Not);
    assert IsComparison(e) <==> IsParse(e) && Level(e) >= Precedence(Lt);
    assert IsConjunction(e) <==> IsParse(e) && Level(e) >= Precedence(And);
    assert IsDisjunction(e) <==> IsParse(e) && Level(e) >= Precedence(Or);
  }

  function Bool(b: bool): int {
    if b then 1 else 0
  }

  // The value that C gives an expression.
  function Meaning(e: Expr): int {
    match e
    case Leaf(v) => v
    case Paren(inner) => Meaning(inner)
    case Negate(inner) => if Meaning(inner) == 0 then 1 else 0
    case Binary(Lt, l, r) => Bool(Meaning(l) < Meaning(r))
    case Binary(Gt, l, r) => Bool(Meaning(r) < Meaning(l))
    case Binary(Le, l, r) => Bool(!(Meaning(r) < Meaning(l)))
    case Binary(Ge, l, r) => Bool(!(Meaning(l) < Meaning(r)))
    case Binary(Eq, l, r) => Bool(Meaning(l) == Meaning(r))
    case Binary(And, l, r) => if Meaning(l) == 0 then 0 else Bool(Meaning(r) != 0)
    case Binary(Or, l, r) => if Meaning(l) != 0 then 1 else Bool(Meaning(r) != 0)
    case Binary(Not, l, r) => 0
  }

  lemma {:induction false} EvalIsMeaning(e: Expr)
    requires IsParse(e)
    ensures Eval(e) == Meaning(e)
    decreases e
  {
    match e
    case Leaf(_) =>
    case Paren(inner) => EvalIsMeaning(inner);
    case Negate(inner) => EvalIsMeaning(inner);
    case Binary(_, l, r) =>
      EvalIsMeaning(l);
      EvalIsMeaning(r);
  }

  /** A condition has value v exactly when it is the text of an equality, small enough for the stacks, whose
      value in C is v. */
  lemma ConditionInC(cap: nat, tokens: seq<Token>, v: int)
    ensures Evaluate(INTEGERS, cap, tokens) == Accepted(v) <==>
            exists e :: IsEquality(e) && Text(e) == tokens && Fits(cap, 0, 0, e) && Meaning(e) == v
  {
    ConditionMeaning(cap, tokens, v);
    forall e | IsEquality(e) || IsParse(e) ensures IsEquality(e) <==> IsParse(e)
      ensures Eval(e) == Meaning(e)
    {
      Layers(e);
      EvalIsMeaning(e);
    }
  }

  /** <= is the negation of >, >= that of <, < is > the other way round; exactly one of <, == and > holds; and
      the order is that of the differences, with 0 < n for all n > 0. */
  lemma ComparisonLaws(l: int, r: int, c: int)
    ensures ApplyOp(Le, r, l) == 1 - ApplyOp(Gt, r, l) && ApplyOp(Ge, r, l) == 1 - ApplyOp(Lt, r, l)
    ensures ApplyOp(Lt, r, l) == ApplyOp(Gt, l, r)
    ensures ApplyOp(Lt, r, l) + ApplyOp(Eq, r, l) + ApplyOp(Gt, r, l) == 1
    ensures ApplyOp(Lt, r + c, l + c) == ApplyOp(Lt, r, l) && ApplyOp(Eq, l, l) == 1
    ensures c > 0 ==> ApplyOp(Lt, c, 0) == 1
  {
  }

  /** `&&` and `||` by De Morgan; what they are with a constant; `!` is the comparison with 0. */
  lemma ConnectiveLaws(l: int, r: int)
    ensures ApplyOp(Not, ApplyOp(And, r, l), 0) == ApplyOp(Or, ApplyOp(Not, r, 0), ApplyOp(Not, l, 0))
    ensures ApplyOp(Not, ApplyOp(Or, r, l), 0) == ApplyOp(And, ApplyOp(Not, r, 0), ApplyOp(Not, l, 0))
    ensures ApplyOp(And, 0, l) == 0 && ApplyOp(Or, 1, l) == 1
    ensures ApplyOp(And, 1, l) == ApplyOp(Or, 0, l) == ApplyOp(Not, ApplyOp(Not, l, 0), 0)
    ensures ApplyOp(Not, l, 0) == ApplyOp(Eq, 0, l)
  {
  }

  // ---- the size that fits ----

  function Nested(n: nat, v: int): Expr {
    if n == 0 then Leaf(v) else Paren(Nested(n - 1, v))
  }

  lemma {:induction false} NestedNeeds(n: nat, v: int)
    ensures IsParse(Nested(n, v)) && Eval(Nested(n, v)) == v
    ensures OperatorNeed(Nested(n, v)) == n && ResultNeed(Nested(n, v)) == 1
  {
    if n > 0 {
      NestedNeeds(n - 1, v);
    }
  }

  /** Up to a hundred parentheses may be open. */
  lemma HundredParentheses(n: nat, v: int)
    ensures Evaluate(INTEGERS, MAX_CONDITIONS, Text(Nested(n, v)))
         == if n <= 100 then Accepted(v) else Failed(TooComplex)
  {
    var e := Nested(n, v);
    NestedNeeds(n, v);
    EvaluatesTree(MAX_CONDITIONS, Text(e));
    ParsesGrammar(MAX_CONDITIONS, Text(e), e);
  }
}
