/** What the directives of a configuration store (src/sp_config.c and src/sp_config_keywords.c), and which
    configurations are refused. */
module Directives {
  import opened Hooks
  import opened IniGuards
  import opened RuleIndex
  import opened Wrappers

  datatype Feature = Sloppy | Random | Xxe | Hmac | NoClass

  // The options that a parser takes only while they are not set.
  datatype OnceOption =
    | SecretKey | CookieEnvVar | UnserializeDump | ReadonlyDump | EvalDump | UploadScript | EvalWhitelist
    | WrapperList | StreamList

  // What a directive stores besides. Inert: nothing that is modelled.
  datatype Effect =
    | Enable(feature: Feature, on: bool)
    | AllowWrappers
    | EvalBlacklist(names: seq<string>)
    | IniProtection(enable: Option<bool>, readOnly: bool, silent: bool, drop: bool)
    | Ini(name: string, entry: IniEntry)
    | DisableFunction(id: nat, target: string, allow: bool, simulation: bool, onReturn: bool)
    | DisableByRegexp(rule: Rule, onReturn: bool)
    | Inert

  // gives: the options of the above kind that it sets, in order; needs: those that must be set by then (to
  // encrypt cookies or the session, or to validate uploads). Refused: a directive that is refused by itself.
  datatype Directive =
    | Directive(gives: seq<OnceOption>, needs: set<OnceOption>, effect: Effect)
    | Refused

  function Just(effect: Effect): Directive {
    Directive([], {}, effect)
  }

  // The options, without the two pairs of tables of rules about functions.
  datatype Config = Config(
    features: set<Feature>, given: set<OnceOption>, wrappers: bool, blacklist: Option<seq<string>>,
    iniEnabled: bool, iniReadOnly: bool, iniSilent: bool, iniDrop: bool, entries: map<string, IniEntry>,
    regexps: seq<Rule>, retRegexps: seq<Rule>)

  const DEFAULTS: Config := Config({}, {}, false, None, false, false, false, false, map[], [], [])

  // The options after these are set one after the other; none when one of them is set already.
  function Give(given: set<OnceOption>, gives: seq<OnceOption>): Option<set<OnceOption>>
    decreases |gives|
  {
    if gives == [] then Some(given)
    else if gives[0] in given then None
    else Give(given + {gives[0]}, gives[1..])
  }

  function Applied(c: Config, e: Effect): Option<Config> {
    match e
    case Enable(feature, on) =>
      Some(c.(features := if on then c.features + {feature} else c.features - {feature}))
    case AllowWrappers => Some(c.(wrappers := true))
    case EvalBlacklist(names) => if c.blacklist.Some? then None else Some(c.(blacklist := Some(names)))
    case IniProtection(enable, readOnly, silent, drop) =>
      if (c.iniSilent || silent) && (c.iniDrop || drop) then None
      else Some(c.(iniEnabled := if enable.Some? then enable.value else c.iniEnabled, iniReadOnly := readOnly,
                   iniSilent := c.iniSilent || silent, iniDrop := c.iniDrop || drop))
    case Ini(name, entry) => if name in c.entries then None else Some(c.(entries := c.entries[name := entry]))
    case DisableFunction(_, _, _, _, _) => Some(c)
    case DisableByRegexp(rule, onReturn) =>
      Some(if onReturn then c.(retRegexps := c.retRegexps + [rule]) else c.(regexps := c.regexps + [rule]))
    case Inert => Some(c)
  }

  // The options after a directive; none when it is refused.
  function Taken(c: Config, d: Directive): Option<Config> {
    match d
    case Refused => None
    case Directive(gives, needs, effect) =>
      var given := Give(c.given, gives);
      if given.None? || !(needs <= given.value) then None else Applied(c.(given := given.value), effect)
  }

  function Configured(c: Config, ds: seq<Directive>): Option<Config>
    decreases |ds|
  {
    if ds == [] then Some(c)
    else
      match Taken(c, ds[0])
      case None => None
      case Some(c') => Configured(c', ds[1..])
  }

  // The rules about functions, in configuration order: those about calls, or those about results.
  function FunctionRules(ds: seq<Directive>, onReturn: bool): seq<Rule> {
    if ds == [] then []
    else RuleOf(ds[0], onReturn) + FunctionRules(ds[1..], onReturn)
  }

  function RuleOf(d: Directive, onReturn: bool): seq<Rule> {
    if d.Directive? && d.effect.DisableFunction? && d.effect.onReturn == onReturn
    then [NewRule(d.effect.id, d.effect.target, d.effect.allow, d.effect.simulation)] else []
  }

  lemma {:induction false} FunctionRulesAppend(ds: seq<Directive>, d: Directive, onReturn: bool)
    ensures FunctionRules(ds + [d], onReturn) == FunctionRules(ds, onReturn) + RuleOf(d, onReturn)
    ensures RuleOf(d, onReturn) == [] ==> FunctionRules(ds + [d], onReturn) == FunctionRules(ds, onReturn)
  {
    if ds == [] {
      assert ([] + [d])[1..] == [];
    } else {
      assert (ds + [d])[1..] == ds[1..] + [d];
      FunctionRulesAppend(ds[1..], d, onReturn);
    }
  }

  lemma {:induction false} ConfiguredAppend(c: Config, ds: seq<Directive>, d: Directive)
    ensures Configured(c, ds + [d]) ==
            match Configured(c, ds) { case None => None case Some(c') => Taken(c', d) }
    decreases |ds|
  {
    if ds == [] {
      assert ([] + [d])[1..] == [];
    } else {
      assert (ds + [d])[1..] == ds[1..] + [d];
      var first := Taken(c, ds[0]);
      if first.Some? {
        ConfiguredAppend(first.value, ds[1..], d);
      }
    }
  }

  // A refused prefix refuses the whole configuration.
  lemma {:induction false} RefusedPrefix(c: Config, ds: seq<Directive>, n: nat)
    requires n <= |ds| && Configured(c, ds[..n]).None?
    ensures Configured(c, ds).None?
    decreases n
  {
    if n > 0 {
      assert ds[..n][0] == ds[0] && ds[..n][1..] == ds[1..][..n - 1];
      var first := Taken(c, ds[0]);
      if first.Some? {
        RefusedPrefix(first.value, ds[1..], n - 1);
      }
    }
  }

  // ---- which configurations are taken ----

  // What a directive leaves that a later one looks at.
  datatype Mark = Given(option: OnceOption) | BlacklistMark | EntryMark(name: string) | SilentMark | DropMark

  // May be given once, unlike the two policies, which exclude each other.
  predicate IsOnce(m: Mark) {
    m != SilentMark && m != DropMark
  }

  predicate Marks(d: Directive, m: Mark) {
    d.Directive? && (EffectMarks(d.effect, m) || (m.Given? && m.option in d.gives))
  }

  predicate EffectMarks(e: Effect, m: Mark) {
    match m
    case Given(_) => false
    case BlacklistMark => e.EvalBlacklist?
    case EntryMark(name) => e.Ini? && e.name == name
    case SilentMark => e.IniProtection? && e.silent
    case DropMark => e.IniProtection? && e.drop
  }

  predicate IsMarked(c: Config, m: Mark) {
    match m
    case Given(option) => option in c.given
    case BlacklistMark => c.blacklist.Some?
    case EntryMark(name) => name in c.entries
    case SilentMark => c.iniSilent
    case DropMark => c.iniDrop
  }

  // By the options from before or the first n directives.
  predicate IsMarkedBy(c: Config, ds: seq<Directive>, n: nat, m: Mark)
    requires n <= |ds|
  {
    IsMarked(c, m) || exists j :: 0 <= j < n && Marks(ds[j], m)
  }

  predicate HasRepeats<T(==)>(s: seq<T>) {
    exists i, j :: 0 <= i < j < |s| && s[i] == s[j]
  }

  // Not refused by itself; gives nothing twice that may be given once, whether in itself or because it has
  // been given before; has what it needs; and does not bring the two exclusive policies together.
  ghost predicate IsAcceptable(c: Config, ds: seq<Directive>, i: nat)
    requires i < |ds|
  {
    && ds[i].Directive? && !HasRepeats(ds[i].gives)
    && (forall m :: Marks(ds[i], m) && IsOnce(m) ==> !IsMarkedBy(c, ds, i, m))
    && (forall o :: o in ds[i].needs ==> IsMarkedBy(c, ds, i + 1, Given(o)))
    && (ds[i].effect.IniProtection? ==>
          !(IsMarkedBy(c, ds, i + 1, SilentMark) && IsMarkedBy(c, ds, i + 1, DropMark)))
  }

  lemma {:induction false} GiveAll(given: set<OnceOption>, gives: seq<OnceOption>)
    ensures var r := Give(given, gives);
            && (r.Some? <==> !HasRepeats(gives) && forall o :: o in gives ==> o !in given)
            && (r.Some? ==> forall o :: o in r.value <==> o in given || o in gives)
    decreases |gives|
  {
    if gives != [] {
      var first, rest := gives[0], gives[1..];
      GiveAll(given + {first}, rest);
      RepeatsNext(gives);
      assert gives == [first] + rest;
    }
  }

  lemma RepeatsNext<T>(s: seq<T>)
    requires s != []
    ensures HasRepeats(s) <==> s[0] in s[1..] || HasRepeats(s[1..])
  {
    if s[0] in s[1..] {
      var j :| 0 <= j < |s[1..]| && s[1..][j] == s[0];
      assert s[0] == s[j + 1];
    }
    if HasRepeats(s[1..]) {
      var i, j :| 0 <= i < j < |s[1..]| && s[1..][i] == s[1..][j];
      assert s[i + 1] == s[j + 1];
    }
    if HasRepeats(s) {
      var i, j :| 0 <= i < j < |s| && s[i] == s[j];
      assert s[j] == s[1..][j - 1] && (i > 0 ==> s[i] == s[1..][i - 1]);
    }
  }

  // What one directive leaves.
  lemma MarksLeft(c: Config, d: Directive, m: Mark)
    requires Taken(c, d).Some?
    ensures IsMarked(Taken(c, d).value, m) <==> IsMarked(c, m) || Marks(d, m)
  {
    GiveAll(c.given, d.gives);
    var given := Give(c.given, d.gives).value;
    EffectLeaves(c.(given := given), d.effect, m);
  }

  lemma EffectLeaves(c: Config, e: Effect, m: Mark)
    requires Applied(c, e).Some?
    ensures IsMarked(Applied(c, e).value, m) <==> IsMarked(c, m) || EffectMarks(e, m)
  {
  }

  // What it asks for.
  lemma TakenMarks(c: Config, d: Directive)
    ensures Taken(c, d).Some? <==>
            && d.Directive? && !HasRepeats(d.gives)
            && (forall m :: Marks(d, m) && IsOnce(m) ==> !IsMarked(c, m))
            && (forall o :: o in d.needs ==> IsMarked(c, Given(o)) || Marks(d, Given(o)))
            && (d.effect.IniProtection? ==>
                  !((c.iniSilent || Marks(d, SilentMark)) && (c.iniDrop || Marks(d, DropMark))))
  {
    if d.Directive? {
      GiveAll(c.given, d.gives);
      OnceMarks(c, d);
    }
  }

  lemma OnceMarks(c: Config, d: Directive)
    requires d.Directive?
    ensures (forall m :: Marks(d, m) && IsOnce(m) ==> !IsMarked(c, m)) <==>
            && (forall o :: o in d.gives ==> o !in c.given)
            && (d.effect.EvalBlacklist? ==> c.blacklist.None?)
            && (d.effect.Ini? ==> d.effect.name !in c.entries)
  {
    assert Marks(d, BlacklistMark) == d.effect.EvalBlacklist?;
    assert d.effect.Ini? ==> Marks(d, EntryMark(d.effect.name));
    assert forall o :: Marks(d, Given(o)) <==> o in d.gives;
  }

  lemma MarkedNext(c: Config, ds: seq<Directive>, n: nat, m: Mark)
    requires 0 < n <= |ds| && Taken(c, ds[0]).Some?
    ensures IsMarkedBy(c, ds, n, m) <==> IsMarkedBy(Taken(c, ds[0]).value, ds[1..], n - 1, m)
  {
    MarksLeft(c, ds[0], m);
    if exists j :: 0 <= j < n && Marks(ds[j], m) {
      var j :| 0 <= j < n && Marks(ds[j], m);
      assert j > 0 ==> ds[1..][j - 1] == ds[j];
    }
    if exists j :: 0 <= j < n - 1 && Marks(ds[1..][j], m) {
      var j :| 0 <= j < n - 1 && Marks(ds[1..][j], m);
      assert ds[1..][j] == ds[j + 1];
    }
  }

  lemma AcceptableNext(c: Config, ds: seq<Directive>, i: nat)
    requires 0 < i < |ds| && Taken(c, ds[0]).Some?
    ensures IsAcceptable(c, ds, i) <==> IsAcceptable(Taken(c, ds[0]).value, ds[1..], i - 1)
  {
    assert ds[1..][i - 1] == ds[i];
    forall m
      ensures IsMarkedBy(c, ds, i, m) <==> IsMarkedBy(Taken(c, ds[0]).value, ds[1..], i - 1, m)
      ensures IsMarkedBy(c, ds, i + 1, m) <==> IsMarkedBy(Taken(c, ds[0]).value, ds[1..], i, m)
    {
      MarkedNext(c, ds, i, m);
      MarkedNext(c, ds, i + 1, m);
    }
  }

  lemma AcceptableFirst(c: Config, ds: seq<Directive>)
    requires ds != []
    ensures IsAcceptable(c, ds, 0) <==> Taken(c, ds[0]).Some?
  {
    TakenMarks(c, ds[0]);
    forall m
      ensures IsMarkedBy(c, ds, 0, m) <==> IsMarked(c, m)
      ensures IsMarkedBy(c, ds, 1, m) <==> IsMarked(c, m) || Marks(ds[0], m)
    {
    }
  }

  /** A configuration is taken, on top of any options, exactly when all its directives are acceptable. */
  lemma {:induction false} TakenIff(c: Config, ds: seq<Directive>)
    ensures Configured(c, ds).Some? <==> forall i :: 0 <= i < |ds| ==> IsAcceptable(c, ds, i)
    decreases |ds|
  {
    if ds != [] {
      AcceptableFirst(c, ds);
      var first := Taken(c, ds[0]);
      if first.Some? {
        TakenIff(first.value, ds[1..]);
        AllAcceptableNext(c, ds);
      }
    }
  }

  lemma AllAcceptableNext(c: Config, ds: seq<Directive>)
    requires ds != [] && Taken(c, ds[0]).Some?
    ensures var c' := Taken(c, ds[0]).value;
            (forall i :: 0 < i < |ds| ==> IsAcceptable(c, ds, i)) <==>
            (forall i :: 0 <= i < |ds| - 1 ==> IsAcceptable(c', ds[1..], i))
  {
    var c' := Taken(c, ds[0]).value;
    forall i | 0 < i < |ds| ensures IsAcceptable(c, ds, i) <==> IsAcceptable(c', ds[1..], i - 1) {
      AcceptableNext(c, ds, i);
    }
    forall i | 0 <= i < |ds| - 1 ensures IsAcceptable(c, ds, i + 1) <==> IsAcceptable(c', ds[1..], i) {
      AcceptableNext(c, ds, i + 1);
    }
  }

  lemma {:induction false} MarkedAfter(c: Config, ds: seq<Directive>, m: Mark)
    requires Configured(c, ds).Some?
    ensures IsMarked(Configured(c, ds).value, m) <==> IsMarkedBy(c, ds, |ds|, m)
    decreases |ds|
  {
    if ds != [] {
      MarkedNext(c, ds, |ds|, m);
      MarkedAfter(Taken(c, ds[0]).value, ds[1..], m);
    }
  }

  // The two policies stay apart.
  lemma {:induction false} PoliciesApart(c: Config, ds: seq<Directive>, i: nat)
    requires Configured(c, ds).Some? && i < |ds| && ds[i].Directive? && ds[i].effect.IniProtection?
    ensures !(Configured(c, ds).value.iniSilent && Configured(c, ds).value.iniDrop)
    decreases |ds|
  {
    var c' := Taken(c, ds[0]).value;
    if i > 0 {
      assert ds[1..][i - 1] == ds[i];
      PoliciesApart(c', ds[1..], i - 1);
    } else {
      StayApart(c', ds[1..]);
    }
  }

  lemma {:induction false} StayApart(c: Config, ds: seq<Directive>)
    requires Configured(c, ds).Some? && !(c.iniSilent && c.iniDrop)
    ensures !(Configured(c, ds).value.iniSilent && Configured(c, ds).value.iniDrop)
    decreases |ds|
  {
    if ds != [] {
      StayApart(Taken(c, ds[0]).value, ds[1..]);
    }
  }

  lemma AcceptableAgain(c: Config, ds: seq<Directive>, i: nat)
    requires Configured(c, ds).Some? && i < |ds| && IsAcceptable(c, ds, i)
    ensures IsAcceptable(Configured(c, ds).value, ds, i) <==> forall m :: Marks(ds[i], m) ==> !IsOnce(m)
  {
    var c' := Configured(c, ds).value;
    forall m, n: nat | n <= |ds| ensures IsMarkedBy(c', ds, n, m) <==> IsMarkedBy(c, ds, |ds|, m) {
      MarkedAfter(c, ds, m);
    }
    assert forall m :: IsMarkedBy(c, ds, i + 1, m) ==> IsMarkedBy(c, ds, |ds|, m);
    assert forall m :: Marks(ds[i], m) ==> IsMarkedBy(c, ds, |ds|, m);
    if ds[i].effect.IniProtection? {
      PoliciesApart(c, ds, i);
      MarkedAfter(c, ds, SilentMark);
      MarkedAfter(c, ds, DropMark);
    }
  }

  /** Without a reset in between, reading a configuration again is refused exactly when it gives anything
      that may be given once. */
  lemma ReadAgain(c: Config, ds: seq<Directive>)
    requires Configured(c, ds).Some?
    ensures Configured(Configured(c, ds).value, ds).Some? <==>
            forall i, m :: 0 <= i < |ds| && Marks(ds[i], m) ==> !IsOnce(m)
  {
    var c' := Configured(c, ds).value;
    TakenIff(c, ds);
    TakenIff(c', ds);
    forall i | 0 <= i < |ds|
      ensures IsAcceptable(c', ds, i) <==> forall m :: Marks(ds[i], m) ==> !IsOnce(m)
    {
      AcceptableAgain(c, ds, i);
    }
  }

  // ---- what is hooked ----

  function Replace(names: seq<string>): (r: seq<Request>)
    ensures AreWrappers(r)
  {
    seq(|names|, i requires 0 <= i < |names| => Request(names[i], Wrapper(names[i])))
  }

  // The functions that the options replace, in hooking order.
  function ReplacedNames(c: Config): seq<string> {
    (if Sloppy in c.features then ["in_array", "array_search", "array_keys"] else []) +
    (if Random in c.features then ["rand", "mt_rand"] else []) +
    (if Xxe in c.features then ["libxml_disable_entity_loader", "libxml_set_external_entity_loader"] else []) +
    (if c.wrappers then ["stream_wrapper_register", "stream_wrapper_restore"] else []) +
    (if (SecretKey in c.given && Hmac in c.features) || NoClass in c.features
     then ["serialize", "unserialize"] else []) +
    ["setcookie"]
  }

  function Replaced(c: Config): (r: seq<Request>)
    ensures AreWrappers(r)
  {
    Replace(ReplacedNames(c))
  }

  // The functions whose names match a rule by regular expression.
  function Matched(matching: (Rule, string) -> bool, functions: set<string>, rules: seq<Rule>): set<string> {
    set name, i | name in functions && 0 <= i < |rules| && matching(rules[i], name) :: name
  }

  lemma MatchedNone(matching: (Rule, string) -> bool, rule: Rule, names: set<string>)
    ensures names + Matched(matching, {}, [rule]) == names
  {
  }

  lemma MatchedMore(matching: (Rule, string) -> bool, functions: set<string>, rule: Rule, name: string,
                    names: set<string>)
    ensures names + Matched(matching, functions + {name}, [rule]) ==
            names + Matched(matching, functions, [rule]) + if matching(rule, name) then {name} else {}
  {
    assert matching([rule][0], name) == matching(rule, name);
  }

  lemma MatchedNext(matching: (Rule, string) -> bool, functions: set<string>, rules: seq<Rule>, i: nat)
    requires i < |rules|
    ensures Matched(matching, functions, rules[..i + 1]) ==
            Matched(matching, functions, rules[..i]) + Matched(matching, functions, [rules[i]])
  {
    var now, more := Matched(matching, functions, rules[..i + 1]), Matched(matching, functions, rules[..i]);
    assert rules[..i + 1] == rules[..i] + [rules[i]];
    forall name | name in more + Matched(matching, functions, [rules[i]]) ensures name in now {
      if name in more {
        var k :| 0 <= k < i && matching(rules[..i][k], name);
        assert rules[..i + 1][k] == rules[..i][k];
      } else {
        assert matching(rules[..i + 1][i], name);
      }
    }
    forall name | name in now ensures name in more + Matched(matching, functions, [rules[i]]) {
      var k :| 0 <= k < i + 1 && matching(rules[..i + 1][k], name);
      if k < i {
        assert matching(rules[..i][k], name);
      } else {
        assert matching([rules[i]][0], name);
      }
    }
  }

  // All functions that rules are about.
  function Ruled(matching: (Rule, string) -> bool, functions: set<string>, c: Config, ds: seq<Directive>): set<string>
  {
    Keys(FunctionRules(ds, false)) + Keys(FunctionRules(ds, true)) +
    Matched(matching, functions, c.regexps) + Matched(matching, functions, c.retRegexps)
  }

  function Listed(c: Config): set<string> {
    if c.blacklist.Some? then Members(c.blacklist.value) else {}
  }

  function Members(names: seq<string>): set<string> {
    set i | 0 <= i < |names| :: names[i]
  }

  lemma MembersNext(names: seq<string>, i: nat)
    requires i < |names|
    ensures Members(names[..i + 1]) == Members(names[..i]) + {names[i]}
  {
    forall name | name in Members(names[..i + 1]) ensures name in Members(names[..i]) + {names[i]} {
      var k :| 0 <= k < i + 1 && names[..i + 1][k] == name;
      assert k < i ==> names[..i][k] == name;
    }
    forall name | name in Members(names[..i]) + {names[i]} ensures name in Members(names[..i + 1]) {
      if name in Members(names[..i]) {
        var k :| 0 <= k < i && names[..i][k] == name;
        assert names[..i + 1][k] == name;
      } else {
        assert names[..i + 1][i] == name;
      }
    }
  }
}
