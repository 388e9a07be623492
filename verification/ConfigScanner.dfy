/** The state that src/sp_config_scanner.re keeps while it scans a file: the two stacks of the
    condition evaluator, the flag against nesting, and the buffer of the rule being read. */
module ConfigScanner {
  import opened Condition

  const MAX_KEYWORDS: nat := 16

  // An entry of parsed_rule; the last one in use has no keyword.
  datatype Slot<K> = Terminator | Keyword(keyword: K)

  datatype Directive<K> = BeginCondition(tokens: seq<Token>) | EndCondition | Rule(keywords: seq<K>)

  datatype Status = Fine | Stop(error: Error)

  // ---- which rules apply ----

  // The condition directive in force before position i.
  function Governing<K>(script: seq<Directive<K>>, i: nat): Directive<K>
    requires i <= |script|
  {
    if i == 0 then EndCondition
    else if script[i - 1].Rule? then Governing(script, i - 1)
    else script[i - 1]
  }

  predicate Holds(tokens: seq<Token>) {
    var r := Evaluate(INTEGERS, MAX_CONDITIONS, tokens);
    r.Accepted? && r.value != 0
  }

  predicate Enabled<K>(script: seq<Directive<K>>, i: nat)
    requires i <= |script|
  {
    var d := Governing(script, i);
    d.BeginCondition? ==> Holds(d.tokens)
  }

  // No condition inside a condition, only conditions that evaluate, and only rules that are short
  // enough and taken by the rule parser, unless they are switched off.
  predicate WellPlaced<K>(accept: seq<K> -> bool, script: seq<Directive<K>>, i: nat)
    requires i < |script|
  {
    match script[i]
    case BeginCondition(tokens) =>
      !Governing(script, i).BeginCondition? && Evaluate(INTEGERS, MAX_CONDITIONS, tokens).Accepted?
    case EndCondition => true
    case Rule(keywords) => Enabled(script, i) ==> |keywords| <= MAX_KEYWORDS && accept(keywords)
  }

  // The rules that are switched on among the first n directives.
  function Applied<K>(script: seq<Directive<K>>, n: nat): seq<seq<K>>
    requires n <= |script|
  {
    if n == 0 then []
    else if script[n - 1].Rule? && Enabled(script, n - 1) then Applied(script, n - 1) + [script[n - 1].keywords]
    else Applied(script, n - 1)
  }

  function Keywords<K>(slots: seq<Slot<K>>): seq<K> {
    if slots == [] || slots[0].Terminator? then [] else [slots[0].keyword] + Keywords(slots[1..])
  }

  lemma {:induction false} KeywordsOf<K>(slots: seq<Slot<K>>, keywords: seq<K>)
    requires |keywords| < |slots| && slots[|keywords|].Terminator?
    requires forall i :: 0 <= i < |keywords| ==> slots[i] == Keyword(keywords[i])
    ensures Keywords(slots) == keywords
  {
    if keywords == [] {
    } else {
      KeywordsOf(slots[1..], keywords[1..]);
      assert [keywords[0]] + keywords[1..] == keywords;
    }
  }

  lemma ReduceStep(q: int, ops: seq<Mark>, res: seq<int>)
    requires !Stops(ops, q)
    ensures var r := ApplyTop(INTEGERS, ops, res);
            Reduce(INTEGERS, q, ops, res) == if r.Running? then Reduce(INTEGERS, q, r.c.ops, r.c.res) else r
  {
  }

  class Scanner<K(0)> {
    const results: array<int>
    const operators: array<Mark>
    const parsedRule: array<Slot<K>>
    var resultCount: nat
    var operatorCount: nat
    var keywordCount: nat
    var conditionActive: bool

    ghost predicate Valid()
      reads this
    {
      && results.Length == operators.Length == MAX_CONDITIONS
      && parsedRule.Length == MAX_KEYWORDS + 1
      && resultCount <= MAX_CONDITIONS && operatorCount <= MAX_CONDITIONS
      && keywordCount <= MAX_KEYWORDS + 1
    }

    // The stacks, and whether an operand is expected.
    ghost function State(operand: bool): Config<int>
      requires Valid()
      reads this, results, operators
    {
      Config(operators[..operatorCount], results[..resultCount], operand)
    }

    // The machine's outcome is this state, or this error.
    ghost predicate Reached(o: Outcome<int>, status: Status, operand: bool)
      requires Valid()
      reads this, results, operators
    {
      if o.Running? then status == Fine && State(operand) == o.c else o.Failed? && status == Stop(o.error)
    }

    constructor ()
      ensures Valid() && fresh(results) && fresh(operators) && fresh(parsedRule)
      ensures results[0] == 1 && operatorCount == 0 && !conditionActive
    {
      results := new int[MAX_CONDITIONS](i => if i == 0 then 1 else 0);
      operators := new Mark[MAX_CONDITIONS](_ => Open);
      parsedRule := new Slot<K>[MAX_KEYWORDS + 1](_ => Terminator);
      resultCount, operatorCount, keywordCount := 0, 0, 0;
      conditionActive := false;
    }

    method PushResult(value: int) returns (status: Status)
      requires Valid()
      modifies this`resultCount, results
      ensures Valid()
      ensures if old(resultCount) >= MAX_CONDITIONS then status == Stop(TooComplex)
              else status == Fine && results[..resultCount] == old(results[..resultCount]) + [value]
    {
      if resultCount >= MAX_CONDITIONS {
        return Stop(TooComplex);
      }
      results[resultCount] := value;
      resultCount := resultCount + 1;
      return Fine;
    }

    method PushOperator(mark: Mark) returns (status: Status)
      requires Valid()
      modifies this`operatorCount, operators
      ensures Valid()
      ensures if old(operatorCount) >= MAX_CONDITIONS then status == Stop(TooComplex)
              else status == Fine && operators[..operatorCount] == old(operators[..operatorCount]) + [mark]
    {
      if operatorCount >= MAX_CONDITIONS {
        return Stop(TooComplex);
      }
      operators[operatorCount] := mark;
      operatorCount := operatorCount + 1;
      return Fine;
    }

    // Pops an operator and replaces its operands by the result.
    method ApplyOperator() returns (status: Status)
      requires Valid() && operatorCount > 0 && operators[operatorCount - 1].Pending?
      modifies this`resultCount, this`operatorCount, results
      ensures Valid() && operatorCount == old(operatorCount) - 1
      ensures Reached(ApplyTop(INTEGERS, old(operators[..operatorCount]), old(results[..resultCount])), status, false)
    {
      ghost var ops, res := operators[..operatorCount], results[..resultCount];
      operatorCount := operatorCount - 1;
      var op := operators[operatorCount].op;
      assert Last(ops).op == op && Front(ops) == operators[..operatorCount];
      var unary := if op == Not then 1 else 0;
      if resultCount < 2 - unary {
        return Stop(NotEnoughInput);
      }
      resultCount := resultCount - 1;
      var a := results[resultCount];
      var b := 0;
      if op != Not {
        resultCount := resultCount - 1;
        b := results[resultCount];
      }
      status := PushResult(ApplyOp(op, a, b));
    }

    // Before an infix operator is pushed.
    method ReduceAbove(op: Op) returns (status: Status)
      requires Valid() && op != Not
      modifies this`resultCount, this`operatorCount, results
      ensures Valid()
      ensures Reached(Reduce(INTEGERS, Precedence(op), old(operators[..operatorCount]), old(results[..resultCount])),
                      status, false)
    {
      ghost var r := Reduce(INTEGERS, Precedence(op), operators[..operatorCount], results[..resultCount]);
      status := Fine;
      while operatorCount > 0 && operators[operatorCount - 1] != Open
        invariant Valid() && status == Fine
        invariant Reduce(INTEGERS, Precedence(op), operators[..operatorCount], results[..resultCount]) == r
        decreases operatorCount
      {
        assert Last(operators[..operatorCount]) == operators[operatorCount - 1];
        var top := Precedence(operators[operatorCount - 1].op);
        if top < Precedence(op) || (top == Precedence(op) && !IsLeftAssociative(op)) {
          assert Stops(operators[..operatorCount], Precedence(op)) && r == Running(State(false));
          break;
        }
        ReduceStep(Precedence(op), operators[..operatorCount], results[..resultCount]);
        status := ApplyOperator();
        if status.Stop? {
          return;
        }
      }
    }

    // At a closing parenthesis.
    method ReduceToParenthesis() returns (status: Status)
      requires Valid()
      modifies this`resultCount, this`operatorCount, results
      ensures Valid()
      ensures Reached(Reduce(INTEGERS, 0, old(operators[..operatorCount]), old(results[..resultCount])), status, false)
    {
      ghost var r := Reduce(INTEGERS, 0, operators[..operatorCount], results[..resultCount]);
      status := Fine;
      while operatorCount > 0 && operators[operatorCount - 1] != Open
        invariant Valid() && status == Fine
        invariant Reduce(INTEGERS, 0, operators[..operatorCount], results[..resultCount]) == r
        decreases operatorCount
      {
        assert Last(operators[..operatorCount]) == operators[operatorCount - 1];
        ReduceStep(0, operators[..operatorCount], results[..resultCount]);
        status := ApplyOperator();
        if status.Stop? {
          return;
        }
      }
    }

    method CloseParenthesis() returns (status: Status)
      requires Valid() && Disciplined(State(false))
      modifies this`resultCount, this`operatorCount, results
      ensures Valid()
      ensures Reached(Step(INTEGERS, MAX_CONDITIONS, old(State(false)), RightParen), status, false)
    {
      ReduceDisciplined(INTEGERS, 0, operators[..operatorCount], results[..resultCount]);
      status := ReduceToParenthesis();
      if status.Stop? {
        return;
      }
      if operatorCount == 0 || operators[operatorCount - 1] != Open {
        return Stop(Unbalanced);
      }
      ghost var ops, res := operators[..operatorCount], results[..resultCount];
      operatorCount := operatorCount - 1;
      assert Front(ops) == operators[..operatorCount] && Front(res) + [Last(res)] == res;
    }

    method PushInfix(op: Op) returns (status: Status)
      requires Valid() && op != Not
      modifies this`resultCount, this`operatorCount, results, operators
      ensures Valid()
      ensures Reached(Step(INTEGERS, MAX_CONDITIONS, old(State(false)), Infix(op)), status, true)
    {
      status := ReduceAbove(op);
      if status.Fine? {
        status := PushOperator(Pending(op));
      }
    }

    // At the semicolon.
    method FinishCondition() returns (status: Status)
      requires Valid() && Disciplined(State(false))
      modifies this`resultCount, this`operatorCount, results
      ensures Valid()
      ensures match Finish(INTEGERS, old(State(false)))
              case Running(_) => false
              case Accepted(v) => status == Fine && operatorCount == 0 && resultCount == 1 && results[0] == v
              case Failed(error) => status == Stop(error)
    {
      ghost var r := Reduce(INTEGERS, 0, operators[..operatorCount], results[..resultCount]);
      ReduceDisciplined(INTEGERS, 0, operators[..operatorCount], results[..resultCount]);
      status := Fine;
      while operatorCount > 0
        invariant Valid() && status == Fine
        invariant Reduce(INTEGERS, 0, operators[..operatorCount], results[..resultCount]) == r
        decreases operatorCount
      {
        assert Last(operators[..operatorCount]) == operators[operatorCount - 1];
        if operators[operatorCount - 1] == Open {
          return Stop(Unbalanced);
        }
        ReduceStep(0, operators[..operatorCount], results[..resultCount]);
        status := ApplyOperator();
        if status.Stop? {
          return;
        }
      }
      assert r == Running(State(false));
      if resultCount > 1 {
        return Stop(Invalid);
      }
    }

    method ScanToken(token: Token, operand: bool) returns (status: Status, next: bool)
      requires Valid() && Disciplined(State(operand))
      modifies this`resultCount, this`operatorCount, results, operators
      ensures Valid()
      ensures Reached(Step(INTEGERS, MAX_CONDITIONS, old(State(operand)), token), status, next)
    {
      next := operand;
      if operand {
        match token {
          case Operand(value) =>
            next := false;
            status := PushResult(value);
          case Bang =>
            status := PushOperator(Pending(Not));
          case LeftParen =>
            status := PushOperator(Open);
          case _ =>
            status := Stop(Syntax);
        }
      } else {
        match token {
          case Infix(op) =>
            if op == Not {
              return Stop(Syntax), next;
            }
            next := true;
            status := PushInfix(op);
          case RightParen =>
            status := CloseParenthesis();
          case _ =>
            status := Stop(Syntax);
        }
      }
    }

    /** Everything from `@condition` to the semicolon: the operators are used up, and the value is
        left at the bottom of the result stack, where it decides which rules apply. */
    method ScanCondition(tokens: seq<Token>) returns (status: Status)
      requires Valid() && operatorCount == 0
      modifies this`resultCount, this`operatorCount, results, operators
      ensures Valid()
      ensures match Evaluate(INTEGERS, MAX_CONDITIONS, tokens)
              case Running(_) => false
              case Accepted(v) => status == Fine && operatorCount == 0 && results[0] == v
              case Failed(error) => status == Stop(error)
    {
      ghost var r := Run(INTEGERS, MAX_CONDITIONS, Start<int>(), tokens);
      DeadBranches(INTEGERS, MAX_CONDITIONS, tokens);
      resultCount := 0;
      var operand, i := true, 0;
      assert tokens[0..] == tokens;
      while i < |tokens|
        invariant 0 <= i <= |tokens|
        invariant Valid() && Disciplined(State(operand))
        invariant Run(INTEGERS, MAX_CONDITIONS, State(operand), tokens[i..]) == r
      {
        StepDisciplined(INTEGERS, MAX_CONDITIONS, State(operand), tokens[i]);
        assert tokens[i..][0] == tokens[i] && tokens[i..][1..] == tokens[i + 1..];
        status, operand := ScanToken(tokens[i], operand);
        if status.Stop? {
          return;
        }
        i := i + 1;
      }
      if operand {
        return Stop(Syntax);
      }
      status := FinishCondition();
    }

    /** One rule. It is passed on exactly when the gate is open, and then whole. */
    method ScanRule(accept: seq<K> -> bool, keywords: seq<K>) returns (taken: bool, rule: seq<seq<K>>)
      requires Valid()
      modifies this`keywordCount, parsedRule
      ensures Valid()
      ensures taken == (results[0] != 0 ==> |keywords| <= MAX_KEYWORDS && accept(keywords))
      ensures rule == if results[0] != 0 && taken then [keywords] else []
    {
      keywordCount := 0;
      var i := 0;
      while i < |keywords|
        invariant 0 <= i <= |keywords|
        invariant keywordCount == if results[0] != 0 then i else 0
        invariant keywordCount <= MAX_KEYWORDS
        invariant forall j :: 0 <= j < keywordCount ==> parsedRule[j] == Keyword(keywords[j])
      {
        if results[0] != 0 {
          if keywordCount == MAX_KEYWORDS {
            return false, [];
          }
          parsedRule[keywordCount] := Keyword(keywords[i]);
          keywordCount := keywordCount + 1;
        }
        i := i + 1;
      }
      if results[0] == 0 {
        return true, [];
      }
      parsedRule[keywordCount] := Terminator;
      keywordCount := keywordCount + 1;
      var parsed := Keywords(parsedRule[..]);
      KeywordsOf(parsedRule[..], keywords);
      taken := accept(parsed);
      rule := if taken then [parsed] else [];
    }

    /** A whole file: it is accepted exactly when every directive is well placed, and the rules
        passed on are those that are switched on, up to the first misplaced directive. */
    method ScanScript(accept: seq<K> -> bool, script: seq<Directive<K>>)
      returns (success: bool, rules: seq<seq<K>>, ghost n: nat)
      requires Valid() && results[0] == 1 && operatorCount == 0 && !conditionActive
      modifies this, results, operators, parsedRule
      ensures n <= |script| && (forall i :: 0 <= i < n ==> WellPlaced(accept, script, i))
      ensures success == (n == |script|) && (n < |script| ==> !WellPlaced(accept, script, n))
      ensures rules == Applied(script, n)
    {
      rules := [];
      var i := 0;
      n := 0;
      while i < |script|
        invariant 0 <= i <= |script| && n == i
        invariant Valid() && operatorCount == 0
        invariant conditionActive == Governing(script, i).BeginCondition?
        invariant (results[0] != 0) == Enabled(script, i)
        invariant forall j :: 0 <= j < i ==> WellPlaced(accept, script, j)
        invariant rules == Applied(script, i)
      {
        match script[i] {
          case BeginCondition(tokens) =>
            if conditionActive {
              return false, rules, i;
            }
            conditionActive := true;
            var status := ScanCondition(tokens);
            if status.Stop? {
              return false, rules, i;
            }
          case EndCondition =>
            results[0] := 1;
            resultCount := 0;
            conditionActive := false;
          case Rule(keywords) =>
            var taken, rule := ScanRule(accept, keywords);
            if !taken {
              return false, rules, i;
            }
            rules := rules + rule;
        }
        i := i + 1;
        n := i;
      }
      return true, rules, n;
    }
  }
}
