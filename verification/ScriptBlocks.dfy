/** What a configuration file means: blocks of rules, some of them under a condition. */
module ScriptBlocks {
  import opened Condition
  import opened ConditionGrammar
  import opened ConfigScanner

  // Rules that always apply, or between `@condition` and `@end_condition`.
  datatype Block<K> = Always(rules: seq<seq<K>>) | Under(tokens: seq<Token>, rules: seq<seq<K>>)

  function Rules<K>(rules: seq<seq<K>>): (ds: seq<Directive<K>>)
    ensures |ds| == |rules|
  {
    seq(|rules|, i requires 0 <= i < |rules| => Directive<K>.Rule(rules[i]))
  }

  function Written<K>(b: Block<K>): seq<Directive<K>> {
    match b
    case Always(rules) => Rules(rules)
    case Under(tokens, rules) => [BeginCondition(tokens)] + Rules(rules) + [EndCondition]
  }

  function Script<K>(blocks: seq<Block<K>>): seq<Directive<K>> {
    if blocks == [] then [] else Script(blocks[..|blocks| - 1]) + Written(blocks[|blocks| - 1])
  }

  // The condition is an expression that C takes for true, small enough for the stacks.
  ghost predicate IsTrue(tokens: seq<Token>) {
    exists e :: IsEquality(e) && Text(e) == tokens && Fits(MAX_CONDITIONS, 0, 0, e) && Meaning(e) != 0
  }

  ghost function InForce<K>(b: Block<K>): seq<seq<K>> {
    if b.Always? || IsTrue(b.tokens) then b.rules else []
  }

  ghost function AllInForce<K>(blocks: seq<Block<K>>): seq<seq<K>> {
    if blocks == [] then [] else AllInForce(blocks[..|blocks| - 1]) + InForce(blocks[|blocks| - 1])
  }

  lemma HoldsIff(tokens: seq<Token>)
    ensures Holds(tokens) <==> IsTrue(tokens)
  {
    var r := Evaluate(INTEGERS, MAX_CONDITIONS, tokens);
    if r.Accepted? {
      ConditionInC(MAX_CONDITIONS, tokens, r.value);
    }
    forall e | IsEquality(e) && Text(e) == tokens && Fits(MAX_CONDITIONS, 0, 0, e) && Meaning(e) != 0
      ensures r == Accepted(Meaning(e))
    {
      ConditionInC(MAX_CONDITIONS, tokens, Meaning(e));
    }
  }

  // What comes later does not matter.
  lemma {:induction false} EarlierPart<K>(s: seq<Directive<K>>, t: seq<Directive<K>>, i: nat)
    requires i <= |s|
    ensures Governing(s + t, i) == Governing(s, i) && Applied(s + t, i) == Applied(s, i)
  {
    if i > 0 {
      EarlierPart(s, t, i - 1);
    }
  }

  // Rules apply together.
  lemma {:induction false} RulesApply<K>(s: seq<Directive<K>>, rules: seq<seq<K>>, n: nat)
    requires n <= |rules|
    ensures var all := s + Rules(rules);
            && Governing(all, |s| + n) == Governing(s, |s|)
            && Applied(all, |s| + n) == Applied(s, |s|) + if Enabled(s, |s|) then rules[..n] else []
  {
    if n == 0 {
      EarlierPart(s, Rules(rules), |s|);
    } else {
      RulesApply(s, rules, n - 1);
      assert (s + Rules(rules))[|s| + n - 1] == Rules(rules)[n - 1];
      assert rules[..n] == rules[..n - 1] + [rules[n - 1]];
    }
  }

  lemma {:induction false} BlockApplies<K>(s: seq<Directive<K>>, b: Block<K>)
    requires Governing(s, |s|) == EndCondition
    ensures var all := s + Written(b);
            && Governing(all, |all|) == EndCondition
            && Applied(all, |all|) == Applied(s, |s|) + InForce(b)
  {
    match b
    case Always(rules) =>
      RulesApply(s, rules, |rules|);
      assert rules[..|rules|] == rules;
    case Under(tokens, rules) =>
      UnderApplies(s, tokens, rules);
  }

  lemma UnderApplies<K>(s: seq<Directive<K>>, tokens: seq<Token>, rules: seq<seq<K>>)
    requires Governing(s, |s|) == EndCondition
    ensures var all := s + Written(Under(tokens, rules));
            && Governing(all, |all|) == EndCondition
            && Applied(all, |all|) == Applied(s, |s|) + if IsTrue(tokens) then rules else []
  {
    var begun := s + [BeginCondition(tokens)];
    var ruled := begun + Rules(rules);
    var all := ruled + [EndCondition];
    assert all == s + Written(Under(tokens, rules));
    EarlierPart(s, [BeginCondition(tokens)], |s|);
    RulesApply(begun, rules, |rules|);
    assert rules[..|rules|] == rules;
    EarlierPart(ruled, [EndCondition], |ruled|);
    HoldsIff(tokens);
  }

  lemma {:induction false} ScriptApplies<K>(blocks: seq<Block<K>>)
    ensures var s := Script(blocks); Governing(s, |s|) == EndCondition && Applied(s, |s|) == AllInForce(blocks)
  {
    if blocks != [] {
      ScriptApplies(blocks[..|blocks| - 1]);
      BlockApplies(Script(blocks[..|blocks| - 1]), blocks[|blocks| - 1]);
    }
  }

  /** The rules that a file of such blocks puts into force: those of the blocks without a condition, and of those
      whose condition is true, in order. */
  lemma BlocksApply<K>(blocks: seq<Block<K>>)
    ensures Applied(Script(blocks), |Script(blocks)|) == AllInForce(blocks)
  {
    ScriptApplies(blocks);
  }

  // The condition that is open before position i began at j.
  predicate OpenedAt<K>(script: seq<Directive<K>>, i: nat, j: nat)
    requires i <= |script|
  {
    j < i && script[j].BeginCondition? && forall k :: j < k < i ==> script[k].Rule?
  }

  lemma OpenedStep<K>(script: seq<Directive<K>>, i: nat, j: nat)
    requires 0 < i <= |script|
    ensures OpenedAt(script, i, j) <==>
            if script[i - 1].Rule? then OpenedAt(script, i - 1, j) else j == i - 1 && script[j].BeginCondition?
  {
    if OpenedAt(script, i, j) && j < i - 1 {
      assert script[i - 1].Rule?;
    }
  }

  lemma {:induction false} OpenCondition<K>(script: seq<Directive<K>>, i: nat)
    requires i <= |script|
    ensures Governing(script, i).BeginCondition? <==> exists j: nat :: OpenedAt(script, i, j)
  {
    if i > 0 {
      OpenCondition(script, i - 1);
      forall j: nat
        ensures OpenedAt(script, i, j) <==>
                if script[i - 1].Rule? then OpenedAt(script, i - 1, j) else j == i - 1 && script[j].BeginCondition?
      {
        OpenedStep(script, i, j);
      }
      assert OpenedAt(script, i, i - 1) <==> script[i - 1].BeginCondition?;
    }
  }

  /** A condition is accepted only when none is open, and when it has a value. */
  lemma ConditionPlaced<K>(accept: seq<K> -> bool, script: seq<Directive<K>>, i: nat)
    requires i < |script| && script[i].BeginCondition?
    ensures WellPlaced(accept, script, i) <==>
            && (forall j: nat :: !OpenedAt(script, i, j))
            && exists e :: IsEquality(e) && Text(e) == script[i].tokens && Fits(MAX_CONDITIONS, 0, 0, e)
  {
    OpenCondition(script, i);
    var r := Evaluate(INTEGERS, MAX_CONDITIONS, script[i].tokens);
    if r.Accepted? {
      ConditionInC(MAX_CONDITIONS, script[i].tokens, r.value);
    }
    forall e | IsEquality(e) && Text(e) == script[i].tokens && Fits(MAX_CONDITIONS, 0, 0, e) ensures r.Accepted? {
      ConditionInC(MAX_CONDITIONS, script[i].tokens, Meaning(e));
    }
  }

  /** A rule may have sixteen keywords. */
  lemma SixteenKeywords<K>(accept: seq<K> -> bool, keywords: seq<K>)
    ensures WellPlaced(accept, [Directive<K>.Rule(keywords)], 0) <==> |keywords| <= 16 && accept(keywords)
  {
  }
}
