/** The rules of `sp.disable_function`: src/sp_config_keywords.c stores them by the function they
    are about, and src/sp_disabled_functions.c looks them up and applies them. */
module RuleIndex {
  import opened CallChain
  import opened Wrappers

  // chain: the functions of a chained rule, the innermost first; empty for a plain rule. byRegexp: the
  // rule gives a regular expression in place of a name.
  datatype Rule =
    Rule(id: nat, name: string, chain: seq<string>, byRegexp: bool, allow: bool, simulation: bool)

  // The name under which a call is checked, and the calls in progress from it outwards.
  datatype Call = Call(name: string, stack: seq<Option<string>>)

  datatype Verdict = Pass | Allowed(rule: Rule) | Dropped(rule: Rule)

  datatype Outcome = Outcome(log: seq<Rule>, verdict: Verdict)

  const BUILTINS: set<string> := {"include", "include_once", "require", "require_once", "echo"}

  // What parse_disabled_functions stores for `.function("...")`; print is echo.
  function NewRule(id: nat, name: string, allow: bool, simulation: bool): Rule {
    Rule(id, if name == "print" then "echo" else name, Chain(name), false, allow, simulation)
  }

  // The function a rule is indexed by.
  function Key(rule: Rule): string {
    if rule.chain != [] then rule.chain[0] else rule.name
  }

  // conditions: everything else the rule asks for (a regular expression, file, line, address,
  // variables, parameters).
  predicate Matches(conditions: (Rule, Call) -> bool, rule: Rule, call: Call) {
    && (if rule.chain != [] then Walk(call.stack, rule.chain) else rule.byRegexp || rule.name == call.name)
    && conditions(rule, call)
  }

  // ---- applying a list of rules ----

  // An allow rule ends the scan, and so does a drop; a simulated drop is only logged.
  function Scan(conditions: (Rule, Call) -> bool, rules: seq<Rule>, call: Call): Outcome {
    if rules == [] then Outcome([], Pass)
    else if !Matches(conditions, rules[0], call) then Scan(conditions, rules[1..], call)
    else if rules[0].allow then Outcome([], Allowed(rules[0]))
    else if !rules[0].simulation then Outcome([], Dropped(rules[0]))
    else
      var rest := Scan(conditions, rules[1..], call);
      Outcome([rules[0]] + rest.log, rest.verdict)
  }

  method ShouldDisable(conditions: (Rule, Call) -> bool, rules: seq<Rule>, call: Call) returns (r: Outcome)
    ensures r == Scan(conditions, rules, call)
  {
    var log, i := [], 0;
    assert rules[0..] == rules;
    while i < |rules|
      invariant 0 <= i <= |rules|
      invariant var rest := Scan(conditions, rules[i..], call);
                Scan(conditions, rules, call) == Outcome(log + rest.log, rest.verdict)
    {
      var rule := rules[i];
      assert rules[i..][0] == rule && rules[i..][1..] == rules[i + 1..];
      if Matches(conditions, rule, call) {
        if rule.allow {
          return Outcome(log, Allowed(rule));
        }
        if !rule.simulation {
          return Outcome(log, Dropped(rule));
        }
        log := log + [rule];
      }
      i := i + 1;
    }
    return Outcome(log, Pass);
  }

  predicate Decides(conditions: (Rule, Call) -> bool, rule: Rule, call: Call) {
    Matches(conditions, rule, call) && (rule.allow || !rule.simulation)
  }

  function Matching(conditions: (Rule, Call) -> bool, rules: seq<Rule>, call: Call): seq<Rule> {
    if rules == [] then []
    else
      (if Matches(conditions, rules[0], call) then [rules[0]] else []) + Matching(conditions, rules[1..], call)
  }

  /** The first allow or real drop that matches decides; the log holds the matching rules before it. */
  lemma {:induction false} FirstDecides(conditions: (Rule, Call) -> bool, rules: seq<Rule>, call: Call, n: nat)
    requires n <= |rules| && (forall i :: 0 <= i < n ==> !Decides(conditions, rules[i], call))
    requires n < |rules| ==> Decides(conditions, rules[n], call)
    ensures Scan(conditions, rules, call) ==
            Outcome(Matching(conditions, rules[..n], call),
                    if n == |rules| then Pass else if rules[n].allow then Allowed(rules[n]) else Dropped(rules[n]))
  {
    if n > 0 {
      FirstDecides(conditions, rules[1..], call, n - 1);
      assert rules[..n][1..] == rules[1..][..n - 1];
    }
  }

  // ---- the index ----

  // The rules about one function, in configuration order.
  function Keyed(rules: seq<Rule>, key: string): seq<Rule> {
    if rules == [] then []
    else (if Key(rules[0]) == key then [rules[0]] else []) + Keyed(rules[1..], key)
  }

  lemma {:induction false} KeyedAppend(rules: seq<Rule>, rule: Rule, key: string)
    ensures Keyed(rules + [rule], key) == Keyed(rules, key) + if Key(rule) == key then [rule] else []
  {
    if rules == [] {
      assert [rule][1..] == [];
    } else {
      assert (rules + [rule])[1..] == rules[1..] + [rule];
      KeyedAppend(rules[1..], rule, key);
      var first, last := if Key(rules[0]) == key then [rules[0]] else [], if Key(rule) == key then [rule] else [];
      assert first + (Keyed(rules[1..], key) + last) == first + Keyed(rules[1..], key) + last;
    }
  }

  // Each function that has rules has a bucket, and the bucket holds them in configuration order.
  predicate Indexes(buckets: map<string, seq<Rule>>, rules: seq<Rule>) {
    && (forall key :: key in buckets ==> buckets[key] == Keyed(rules, key) && buckets[key] != [])
    && (forall i :: 0 <= i < |rules| ==> Key(rules[i]) in buckets)
  }

  // The functions that rules are about.
  function Keys(rules: seq<Rule>): set<string> {
    set i | 0 <= i < |rules| :: Key(rules[i])
  }

  /** The index is determined by the rules. */
  function IndexOf(rules: seq<Rule>): map<string, seq<Rule>> {
    map key | key in Keys(rules) :: Keyed(rules, key)
  }

  lemma IndexedIff(buckets: map<string, seq<Rule>>, rules: seq<Rule>)
    ensures Indexes(buckets, rules) <==> buckets == IndexOf(rules)
  {
    forall key ensures key in Keys(rules) <==> Keyed(rules, key) != [] {
      KeyedEmpty(rules, key);
    }
    if Indexes(buckets, rules) {
      assert buckets.Keys == Keys(rules);
    }
  }

  // What a scan of the whole configuration would do that passes over the rules about other functions.
  function ScanAll(conditions: (Rule, Call) -> bool, rules: seq<Rule>, call: Call): Outcome {
    if rules == [] then Outcome([], Pass)
    else if Key(rules[0]) != call.name || !Matches(conditions, rules[0], call) then
      ScanAll(conditions, rules[1..], call)
    else if rules[0].allow then Outcome([], Allowed(rules[0]))
    else if !rules[0].simulation then Outcome([], Dropped(rules[0]))
    else
      var rest := ScanAll(conditions, rules[1..], call);
      Outcome([rules[0]] + rest.log, rest.verdict)
  }

  lemma {:induction false} ScanKeyed(conditions: (Rule, Call) -> bool, rules: seq<Rule>, call: Call)
    ensures Scan(conditions, Keyed(rules, call.name), call) == ScanAll(conditions, rules, call)
  {
    if rules == [] {
    } else {
      ScanKeyed(conditions, rules[1..], call);
      var rest := Keyed(rules[1..], call.name);
      assert ([rules[0]] + rest)[1..] == rest && [] + rest == rest;
    }
  }

  lemma {:induction false} KeyedEmpty(rules: seq<Rule>, key: string)
    ensures Keyed(rules, key) == [] <==> forall i :: 0 <= i < |rules| ==> Key(rules[i]) != key
  {
    if rules == [] {
    } else {
      KeyedEmpty(rules[1..], key);
      assert forall i :: 1 <= i < |rules| ==> rules[i] == rules[1..][i - 1];
    }
  }

  // should_disable_ht: the rules by regular expression apply only to functions without a bucket.
  function Lookup(conditions: (Rule, Call) -> bool, buckets: map<string, seq<Rule>>, regexps: seq<Rule>, call: Call)
    : Outcome
  {
    if call.name in buckets then Scan(conditions, buckets[call.name], call) else Scan(conditions, regexps, call)
  }

  /** Looking a call up is the same as scanning the whole configuration in order: same verdict, same
      log. */
  lemma IndexRefinesScan(conditions: (Rule, Call) -> bool, buckets: map<string, seq<Rule>>, rules: seq<Rule>,
                         regexps: seq<Rule>, call: Call)
    requires Indexes(buckets, rules)
    ensures Lookup(conditions, buckets, regexps, call) ==
            if exists i :: 0 <= i < |rules| && Key(rules[i]) == call.name
            then ScanAll(conditions, rules, call) else Scan(conditions, regexps, call)
  {
    ScanKeyed(conditions, rules, call);
    KeyedEmpty(rules, call.name);
  }

  lemma IndexedAppend(buckets: map<string, seq<Rule>>, rules: seq<Rule>, rule: Rule)
    requires Indexes(buckets, rules)
    ensures Indexes(buckets[Key(rule) := Keyed(rules, Key(rule)) + [rule]], rules + [rule])
    ensures Key(rule) in buckets ==> buckets[Key(rule)] == Keyed(rules, Key(rule))
    ensures Key(rule) !in buckets ==> Keyed(rules, Key(rule)) + [rule] == [rule]
  {
    var grown := buckets[Key(rule) := Keyed(rules, Key(rule)) + [rule]];
    forall key | key in grown ensures grown[key] == Keyed(rules + [rule], key) {
      KeyedAppend(rules, rule, key);
    }
    KeyedEmpty(rules, Key(rule));
    forall i | 0 <= i < |rules + [rule]| ensures Key((rules + [rule])[i]) in grown {
      assert i < |rules| ==> (rules + [rule])[i] == rules[i];
    }
  }

  // The keys whose buckets move when their functions are hooked.
  predicate Moves(hookable: string -> bool, key: string) {
    hookable(key) || key in BUILTINS
  }

  // What has left and what is left when these keys have been looked at.
  function Moved(before: map<string, seq<Rule>>, hookable: string -> bool, keys: set<string>): map<string, seq<Rule>>
  {
    map key | key in before && key in keys && Moves(hookable, key) :: before[key]
  }

  function Kept(before: map<string, seq<Rule>>, hookable: string -> bool, keys: set<string>): map<string, seq<Rule>>
  {
    map key | key in before && !(key in keys && Moves(hookable, key)) :: before[key]
  }

  lemma MovedAlike(before: map<string, seq<Rule>>, f: string -> bool, g: string -> bool, keys: set<string>)
    requires forall key :: f(key) == g(key)
    ensures Moved(before, f, keys) == Moved(before, g, keys) && Kept(before, f, keys) == Kept(before, g, keys)
  {
  }

  lemma NothingMoved(before: map<string, seq<Rule>>, hookable: string -> bool)
    ensures Moved(before, hookable, {}) == map[] && Kept(before, hookable, {}) == before
  {
  }

  lemma MoveOne(before: map<string, seq<Rule>>, hookable: string -> bool, keys: set<string>, key: string)
    requires key in before && key !in keys
    ensures key in Kept(before, hookable, keys) && Kept(before, hookable, keys)[key] == before[key]
    ensures var moved := Moved(before, hookable, keys);
            Moved(before, hookable, keys + {key}) == if Moves(hookable, key) then moved[key := before[key]] else moved
    ensures var kept := Kept(before, hookable, keys);
            Kept(before, hookable, keys + {key}) == if Moves(hookable, key) then kept - {key} else kept
  {
  }

  /** For a call that is checked under its own name, a chained rule found through the index matches
      when the rest of its chain is found among the callers. */
  lemma ChainedRule(rule: Rule, call: Call)
    requires rule.chain != [] && Key(rule) == call.name
    requires call.stack != [] && call.stack[0] == Some(call.name)
    ensures Walk(call.stack, rule.chain) <==>
            |call.stack| > 1 && IsSubsequence(rule.chain[1..], Searched(call.stack[1..]))
  {
    WalkFindsSubsequence(call.stack[1..], rule.chain[1..]);
  }

  // ---- what one directive does ----

  lemma OneRuleIndex(rule: Rule)
    ensures IndexOf([rule]) == map[Key(rule) := [rule]]
  {
    forall key ensures Keyed([rule], key) == if Key(rule) == key then [rule] else [] {
      assert [rule][1..] == [];
    }
    assert Keys([rule]) == {Key(rule)} by {
      assert Key([rule][0]) in Keys([rule]);
    }
  }

  // A rule that is about a call lets it pass, or only logs it, or drops it.
  function Effect(rule: Rule, allow: bool, simulation: bool): Outcome {
    if allow then Outcome([], Allowed(rule)) else if simulation then Outcome([rule], Pass)
    else Outcome([], Dropped(rule))
  }

  lemma OneRuleLookup(conditions: (Rule, Call) -> bool, rule: Rule, call: Call)
    ensures Lookup(conditions, IndexOf([rule]), [], call) ==
            if Key(rule) == call.name && Matches(conditions, rule, call)
            then Effect(rule, rule.allow, rule.simulation) else Outcome([], Pass)
  {
    OneRuleIndex(rule);
    assert [rule][1..] == [] && [rule] + [] == [rule];
    assert Scan(conditions, [], call) == Outcome([], Pass);
  }

  /** A single directive about a function by its name decides the calls of this function, of `echo` when it
      says `print`, that meet its conditions, and no other call. */
  lemma PlainDirective(conditions: (Rule, Call) -> bool, id: nat, name: string, allow: bool, simulation: bool,
                       call: Call)
    requires '>' !in name
    ensures var rule := NewRule(id, name, allow, simulation);
            && rule.id == id
            && Lookup(conditions, IndexOf([rule]), [], call) ==
               if call.name == (if name == "print" then "echo" else name) && conditions(rule, call)
               then Effect(rule, allow, simulation) else Outcome([], Pass)
  {
    var rule := NewRule(id, name, allow, simulation);
    assert Chain(name) == [];
    OneRuleLookup(conditions, rule, call);
  }

  /** A single directive about a chain of functions, the outermost first, decides the calls of the last of them
      that meet its conditions, when the others are found among the callers in this order. */
  lemma ChainDirective(conditions: (Rule, Call) -> bool, id: nat, names: seq<string>, allow: bool,
                       simulation: bool, call: Call)
    requires |names| > 1 && forall i :: 0 <= i < |names| ==> names[i] != [] && '>' !in names[i]
    requires call.stack != [] && call.stack[0] == Some(call.name)
    ensures SEPARATOR == '>'
    ensures var rule := NewRule(id, Join(names), allow, simulation);
            Lookup(conditions, IndexOf([rule]), [], call) ==
            if call.name == names[|names| - 1] && conditions(rule, call) && |call.stack| > 1
               && IsSubsequence(Reversed(names[..|names| - 1]), Searched(call.stack[1..]))
            then Effect(rule, allow, simulation) else Outcome([], Pass)
  {
    var rule := NewRule(id, Join(names), allow, simulation);
    ChainOfJoin(names);
    OneRuleLookup(conditions, rule, call);
    if call.name == Key(rule) {
      ChainedRule(rule, call);
    }
  }

  lemma ChainOfJoin(names: seq<string>)
    requires |names| > 1 && forall i :: 0 <= i < |names| ==> names[i] != [] && SEPARATOR !in names[i]
    ensures var chain := Chain(Join(names));
            && chain != [] && chain[0] == names[|names| - 1] && chain[1..] == Reversed(names[..|names| - 1])
  {
    PiecesOfJoin(names);
    ReversedHead(names);
  }

  lemma ReversedHead(names: seq<string>)
    requires names != []
    ensures Reversed(names)[0] == names[|names| - 1] && Reversed(names)[1..] == Reversed(names[..|names| - 1])
  {
    var front, last := names[..|names| - 1], names[|names| - 1];
    assert names == front + [last];
    ReversedLast(front, last);
    assert ([last] + Reversed(front))[1..] == Reversed(front);
  }

  /** The language constructs that are looked up like hooked functions. */
  lemma Builtins(key: string)
    ensures Moves(_ => false, key) <==>
            key == "include" || key == "include_once" || key == "require" || key == "require_once" || key == "echo"
  {
  }

  class RuleTables {
    // disabled_functions and disabled_functions_hooked
    var buckets: map<string, seq<Rule>>
    var hooked: map<string, seq<Rule>>

    constructor ()
      ensures buckets == map[] && hooked == map[]
    {
      buckets, hooked := map[], map[];
    }

    method AddRule(rule: Rule, ghost rules: seq<Rule>)
      requires Indexes(buckets, rules)
      modifies this`buckets
      ensures Indexes(buckets, rules + [rule])
      ensures buckets == old(buckets)[Key(rule) := Keyed(rules, Key(rule)) + [rule]]
    {
      var key := if rule.chain != [] then rule.chain[0] else rule.name;
      IndexedAppend(buckets, rules, rule);
      if key !in buckets {
        buckets := buckets[key := [rule]];
      } else {
        buckets := buckets[key := buckets[key] + [rule]];
      }
    }

    // zend_hash_clean
    method Clear()
      modifies this
      ensures buckets == map[] && hooked == map[]
    {
      buckets, hooked := map[], map[];
    }
  }

  lemma {:induction false} KeyedHasKey(rules: seq<Rule>, key: string)
    ensures forall i :: 0 <= i < |Keyed(rules, key)| ==> Key(Keyed(rules, key)[i]) == key
  {
    if rules == [] {
    } else {
      KeyedHasKey(rules[1..], key);
    }
  }

  lemma BucketHasKey(rules: seq<Rule>, key: string)
    requires key in Keys(rules)
    ensures IndexOf(rules)[key] != [] && Key(IndexOf(rules)[key][0]) == key
  {
    KeyedHasKey(rules, key);
    KeyedEmpty(rules, key);
  }

  /** Hooking loses no bucket and leaves none in both tables. */
  lemma MovedAndKept(before: map<string, seq<Rule>>, hookable: string -> bool)
    ensures Moved(before, hookable, before.Keys) + Kept(before, hookable, before.Keys) == before
    ensures Moved(before, hookable, before.Keys).Keys !! Kept(before, hookable, before.Keys).Keys
  {
  }

  /** After hooking, a call is decided as by the whole configuration: a hooked function or a builtin by
      the table of moved buckets, every other function by the table of those that stayed. */
  lemma HookedLookup(conditions: (Rule, Call) -> bool, buckets: map<string, seq<Rule>>, regexps: seq<Rule>,
                     hookable: string -> bool, call: Call)
    ensures var hooked, kept := Moved(buckets, hookable, buckets.Keys), Kept(buckets, hookable, buckets.Keys);
            Lookup(conditions, if Moves(hookable, call.name) then hooked else kept, regexps, call) ==
            Lookup(conditions, buckets, regexps, call)
  {
  }

  /** Wherever the buckets of a configuration have moved, a call is decided, and logged, as by a scan of
      all its rules in order. */
  lemma MovedLookup(conditions: (Rule, Call) -> bool, rules: seq<Rule>, regexps: seq<Rule>,
                    hookable: string -> bool, call: Call)
    ensures var hooked := Moved(IndexOf(rules), hookable, Keys(rules));
            var kept := Kept(IndexOf(rules), hookable, Keys(rules));
            && Lookup(conditions, if Moves(hookable, call.name) then hooked else kept, regexps, call) ==
               (if call.name in Keys(rules) then ScanAll(conditions, rules, call) else Scan(conditions, regexps, call))
            && Indexes(hooked + kept, rules) && hooked.Keys !! kept.Keys
  {
    IndexedIff(IndexOf(rules), rules);
    assert IndexOf(rules).Keys == Keys(rules);
    HookedLookup(conditions, IndexOf(rules), regexps, hookable, call);
    IndexRefinesScan(conditions, IndexOf(rules), rules, regexps, call);
    MovedAndKept(IndexOf(rules), hookable);
  }
}
