/** What the options come to, read off the directives: some are those of the last directive about them, some
    are set by any. */
module OptionLaws {
  import opened Directives
  import opened IniGuards
  import opened RuleIndex
  import opened Wrappers

  // The last directive about something (of those of which p holds) has q.
  ghost predicate LastHas(ds: seq<Directive>, p: Directive -> bool, q: Directive -> bool) {
    exists i :: 0 <= i < |ds| && p(ds[i]) && q(ds[i]) && forall j :: i < j < |ds| ==> !p(ds[j])
  }

  lemma LastAppended(ds: seq<Directive>, d: Directive, p: Directive -> bool, q: Directive -> bool)
    ensures LastHas(ds + [d], p, q) <==> if p(d) then q(d) else LastHas(ds, p, q)
  {
    var all := ds + [d];
    assert all[|ds|] == d;
    if LastHas(all, p, q) {
      var i :| 0 <= i < |all| && p(all[i]) && q(all[i]) && forall j :: i < j < |all| ==> !p(all[j]);
      if i < |ds| {
        assert all[i] == ds[i] && forall j :: i < j < |ds| ==> all[j] == ds[j];
      }
    }
    if !p(d) && LastHas(ds, p, q) {
      var i :| 0 <= i < |ds| && p(ds[i]) && q(ds[i]) && forall j :: i < j < |ds| ==> !p(ds[j]);
      assert all[i] == ds[i] && forall j :: i < j < |ds| ==> all[j] == ds[j];
    }
  }

  ghost predicate SomeHas(ds: seq<Directive>, p: Directive -> bool) {
    exists i :: 0 <= i < |ds| && p(ds[i])
  }

  lemma SomeAppended(ds: seq<Directive>, d: Directive, p: Directive -> bool)
    ensures SomeHas(ds + [d], p) <==> SomeHas(ds, p) || p(d)
  {
    var all := ds + [d];
    assert all[|ds|] == d;
    if SomeHas(ds, p) {
      var i :| 0 <= i < |ds| && p(ds[i]);
      assert all[i] == ds[i];
    }
  }

  // ---- the directives about each option ----

  function Switches(feature: Feature): Directive -> bool {
    (d: Directive) => d.Directive? && d.effect.Enable? && d.effect.feature == feature
  }

  const IS_ON: Directive -> bool := (d: Directive) => d.Directive? && d.effect.Enable? && d.effect.on

  const ALLOWS_WRAPPERS: Directive -> bool := (d: Directive) => d.Directive? && d.effect.AllowWrappers?

  const PROTECTS: Directive -> bool := (d: Directive) => d.Directive? && d.effect.IniProtection?

  const READS_ONLY: Directive -> bool := (d: Directive) => d.Directive? && d.effect.IniProtection? && d.effect.readOnly

  const SAYS_ENABLED: Directive -> bool :=
    (d: Directive) => d.Directive? && d.effect.IniProtection? && d.effect.enable.Some?

  const IS_ENABLED: Directive -> bool :=
    (d: Directive) => d.Directive? && d.effect.IniProtection? && d.effect.enable == Some(true)

  function Lists(names: seq<string>): Directive -> bool {
    (d: Directive) => d.Directive? && d.effect == EvalBlacklist(names)
  }

  function Guards(name: string, entry: IniEntry): Directive -> bool {
    (d: Directive) => d.Directive? && d.effect == Ini(name, entry)
  }

  function Front(ds: seq<Directive>): seq<Directive>
    requires ds != []
  {
    ds[..|ds| - 1]
  }

  // The options before the last directive, and those that it leaves.
  function Earlier(ds: seq<Directive>): Config
    requires ds != [] && Configured(DEFAULTS, Front(ds)).Some?
  {
    Configured(DEFAULTS, Front(ds)).value
  }

  lemma LastTaken(ds: seq<Directive>)
    requires ds != [] && Configured(DEFAULTS, ds).Some?
    ensures ds == Front(ds) + [ds[|ds| - 1]]
    ensures Configured(DEFAULTS, Front(ds)).Some?
    ensures Taken(Earlier(ds), ds[|ds| - 1]) == Configured(DEFAULTS, ds)
  {
    assert ds == Front(ds) + [ds[|ds| - 1]];
    ConfiguredAppend(DEFAULTS, Front(ds), ds[|ds| - 1]);
  }

  // What one directive changes.
  lemma FeatureStep(c: Config, d: Directive, c': Config, feature: Feature)
    requires Taken(c, d) == Some(c')
    ensures feature in c'.features <==> if Switches(feature)(d) then IS_ON(d) else feature in c.features
  {
  }

  lemma SwitchStep(c: Config, d: Directive, c': Config)
    requires Taken(c, d) == Some(c')
    ensures c'.iniEnabled <==> if SAYS_ENABLED(d) then IS_ENABLED(d) else c.iniEnabled
    ensures c'.iniReadOnly <==> if PROTECTS(d) then READS_ONLY(d) else c.iniReadOnly
    ensures c'.wrappers <==> c.wrappers || ALLOWS_WRAPPERS(d)
  {
  }

  lemma TakenApplied(c: Config, d: Directive, c': Config) returns (given: set<OnceOption>)
    requires Taken(c, d) == Some(c')
    ensures d.Directive? && Applied(c.(given := given), d.effect) == Some(c')
  {
    given := Give(c.given, d.gives).value;
  }

  lemma BlacklistApplied(c: Config, e: Effect, c': Config)
    requires Applied(c, e) == Some(c')
    ensures c'.blacklist == if e.EvalBlacklist? then Some(e.names) else c.blacklist
    ensures e.EvalBlacklist? ==> c.blacklist.None?
  {
  }

  lemma EntriesApplied(c: Config, e: Effect, c': Config)
    requires Applied(c, e) == Some(c')
    ensures c'.entries == if e.Ini? then c.entries[e.name := e.entry] else c.entries
    ensures e.Ini? ==> e.name !in c.entries
  {
  }

  lemma TableStep(c: Config, d: Directive, c': Config, names: seq<string>, name: string, entry: IniEntry)
    requires Taken(c, d) == Some(c')
    ensures c'.blacklist == Some(names) <==> c.blacklist == Some(names) || Lists(names)(d)
    ensures name in c'.entries && c'.entries[name] == entry <==>
            (name in c.entries && c.entries[name] == entry) || Guards(name, entry)(d)
  {
    var given := TakenApplied(c, d, c');
    BlacklistApplied(c.(given := given), d.effect, c');
    EntriesApplied(c.(given := given), d.effect, c');
  }

  lemma RegexpStep(c: Config, d: Directive, c': Config)
    requires Taken(c, d) == Some(c')
    ensures c'.regexps == c.regexps + RegexpRule(d, false) && c'.retRegexps == c.retRegexps + RegexpRule(d, true)
  {
    var given := TakenApplied(c, d, c');
    RegexpsApplied(c.(given := given), d.effect, c');
    assert c.regexps + [] == c.regexps && c.retRegexps + [] == c.retRegexps;
  }

  lemma RegexpsApplied(c: Config, e: Effect, c': Config)
    requires Applied(c, e) == Some(c')
    ensures c'.regexps == if e.DisableByRegexp? && !e.onReturn then c.regexps + [e.rule] else c.regexps
    ensures c'.retRegexps == if e.DisableByRegexp? && e.onReturn then c.retRegexps + [e.rule] else c.retRegexps
  {
  }

  /** A feature is on when the last directive about it says so. */
  lemma {:induction false} FeatureIs(ds: seq<Directive>, feature: Feature)
    requires Configured(DEFAULTS, ds).Some?
    ensures feature in Configured(DEFAULTS, ds).value.features <==> LastHas(ds, Switches(feature), IS_ON)
  {
    if ds != [] {
      LastTaken(ds);
      FeatureIs(Front(ds), feature);
      FeatureStep(Earlier(ds), ds[|ds| - 1], Configured(DEFAULTS, ds).value, feature);
      LastAppended(Front(ds), ds[|ds| - 1], Switches(feature), IS_ON);
    }
  }

  /** The protection of settings is on when the last directive that says whether it is says so, and read-only when
      the last directive about it says so. Wrappers are looked after when any directive asks for it. */
  lemma {:induction false} SwitchesAre(ds: seq<Directive>)
    requires Configured(DEFAULTS, ds).Some?
    ensures var c := Configured(DEFAULTS, ds).value;
            && (c.iniEnabled <==> LastHas(ds, SAYS_ENABLED, IS_ENABLED))
            && (c.iniReadOnly <==> LastHas(ds, PROTECTS, READS_ONLY))
            && (c.wrappers <==> SomeHas(ds, ALLOWS_WRAPPERS))
  {
    if ds != [] {
      var d := ds[|ds| - 1];
      LastTaken(ds);
      SwitchesAre(Front(ds));
      SwitchStep(Earlier(ds), d, Configured(DEFAULTS, ds).value);
      LastAppended(Front(ds), d, SAYS_ENABLED, IS_ENABLED);
      LastAppended(Front(ds), d, PROTECTS, READS_ONLY);
      SomeAppended(Front(ds), d, ALLOWS_WRAPPERS);
    }
  }

  /** The blacklist is that of the directive that gives one, and the rules about settings are those that are given. */
  lemma {:induction false} TablesAre(ds: seq<Directive>, names: seq<string>, name: string, entry: IniEntry)
    requires Configured(DEFAULTS, ds).Some?
    ensures var c := Configured(DEFAULTS, ds).value;
            && (c.blacklist == Some(names) <==> SomeHas(ds, Lists(names)))
            && (name in c.entries && c.entries[name] == entry <==> SomeHas(ds, Guards(name, entry)))
  {
    if ds != [] {
      LastTaken(ds);
      TablesAre(Front(ds), names, name, entry);
      TableStep(Earlier(ds), ds[|ds| - 1], Configured(DEFAULTS, ds).value, names, name, entry);
      SomeAppended(Front(ds), ds[|ds| - 1], Lists(names));
      SomeAppended(Front(ds), ds[|ds| - 1], Guards(name, entry));
    }
  }

  function RegexpRule(d: Directive, onReturn: bool): seq<Rule> {
    if d.Directive? && d.effect.DisableByRegexp? && d.effect.onReturn == onReturn then [d.effect.rule] else []
  }

  function RegexpRules(ds: seq<Directive>, onReturn: bool): seq<Rule> {
    if ds == [] then [] else RegexpRules(Front(ds), onReturn) + RegexpRule(ds[|ds| - 1], onReturn)
  }

  /** The rules by regular expression are those that are given, in configuration order. */
  lemma {:induction false} RegexpRulesAre(ds: seq<Directive>)
    requires Configured(DEFAULTS, ds).Some?
    ensures var c := Configured(DEFAULTS, ds).value;
            c.regexps == RegexpRules(ds, false) && c.retRegexps == RegexpRules(ds, true)
  {
    if ds != [] {
      LastTaken(ds);
      RegexpRulesAre(Front(ds));
      RegexpStep(Earlier(ds), ds[|ds| - 1], Configured(DEFAULTS, ds).value);
    }
  }

  // ---- what is hooked ----

  // Directives that give this rule about calls or about results: by name, or by regular expression.
  function Disables(r: Rule, onReturn: bool): Directive -> bool {
    (d: Directive) =>
      && d.Directive? && d.effect.DisableFunction? && d.effect.onReturn == onReturn
      && r == NewRule(d.effect.id, d.effect.target, d.effect.allow, d.effect.simulation)
  }

  function DisablesMatching(r: Rule, onReturn: bool): Directive -> bool {
    (d: Directive) => d.Directive? && d.effect == DisableByRegexp(r, onReturn)
  }

  lemma {:induction false} NamedRules(ds: seq<Directive>, r: Rule, onReturn: bool)
    ensures r in FunctionRules(ds, onReturn) <==> SomeHas(ds, Disables(r, onReturn))
  {
    if ds != [] {
      var d := ds[|ds| - 1];
      assert ds == Front(ds) + [d];
      NamedRules(Front(ds), r, onReturn);
      FunctionRulesAppend(Front(ds), d, onReturn);
      SomeAppended(Front(ds), d, Disables(r, onReturn));
    }
  }

  lemma {:induction false} MatchingRules(ds: seq<Directive>, r: Rule, onReturn: bool)
    ensures r in RegexpRules(ds, onReturn) <==> SomeHas(ds, DisablesMatching(r, onReturn))
  {
    if ds != [] {
      var d := ds[|ds| - 1];
      assert ds == Front(ds) + [d];
      MatchingRules(Front(ds), r, onReturn);
      SomeAppended(Front(ds), d, DisablesMatching(r, onReturn));
    }
  }

  lemma KeysOf(rules: seq<Rule>, name: string)
    ensures name in Keys(rules) <==> exists r :: r in rules && Key(r) == name
  {
  }

  lemma MatchedBy(matching: (Rule, string) -> bool, functions: set<string>, rules: seq<Rule>, name: string)
    ensures name in Matched(matching, functions, rules) <==>
            name in functions && exists r :: r in rules && matching(r, name)
  {
  }

  /** The functions that are hooked because of rules: those that some directive is about, whether about its calls or
      its results, by its name (for a chain, the last one), or by a regular expression that it matches. */
  lemma RuledFunctions(matching: (Rule, string) -> bool, functions: set<string>, ds: seq<Directive>, name: string)
    requires Configured(DEFAULTS, ds).Some?
    ensures name in Ruled(matching, functions, Configured(DEFAULTS, ds).value, ds) <==>
            || (exists r, onReturn :: Key(r) == name && SomeHas(ds, Disables(r, onReturn)))
            || (name in functions &&
                exists r, onReturn :: matching(r, name) && SomeHas(ds, DisablesMatching(r, onReturn)))
  {
    RegexpRulesAre(ds);
    var a, b := FunctionRules(ds, false), FunctionRules(ds, true);
    var c, d := RegexpRules(ds, false), RegexpRules(ds, true);
    KeysOf(a, name);
    KeysOf(b, name);
    MatchedBy(matching, functions, c, name);
    MatchedBy(matching, functions, d, name);
    forall r
      ensures r in a <==> SomeHas(ds, Disables(r, false))
      ensures r in b <==> SomeHas(ds, Disables(r, true))
      ensures r in c <==> SomeHas(ds, DisablesMatching(r, false))
      ensures r in d <==> SomeHas(ds, DisablesMatching(r, true))
    {
      NamedRules(ds, r, false);
      NamedRules(ds, r, true);
      MatchingRules(ds, r, false);
      MatchingRules(ds, r, true);
    }
  }

  /** The functions that are hooked because of the blacklist. */
  lemma ListedFunctions(ds: seq<Directive>, name: string)
    requires Configured(DEFAULTS, ds).Some?
    ensures name in Listed(Configured(DEFAULTS, ds).value) <==>
            exists names :: name in names && SomeHas(ds, Lists(names))
  {
    var c := Configured(DEFAULTS, ds).value;
    forall names ensures c.blacklist == Some(names) <==> SomeHas(ds, Lists(names)) {
      TablesAre(ds, names, "", IniEntry(false, Unset, None));
    }
  }

  /** The functions that are replaced, feature by feature; `setcookie` always is. */
  lemma ReplacedFunctions(c: Config, name: string)
    ensures name in ReplacedNames(c) <==>
            || name == "setcookie"
            || (Sloppy in c.features && (name == "in_array" || name == "array_search" || name == "array_keys"))
            || (Random in c.features && (name == "rand" || name == "mt_rand"))
            || (Xxe in c.features &&
                (name == "libxml_disable_entity_loader" || name == "libxml_set_external_entity_loader"))
            || (c.wrappers && (name == "stream_wrapper_register" || name == "stream_wrapper_restore"))
            || (((SecretKey in c.given && Hmac in c.features) || NoClass in c.features) &&
                (name == "serialize" || name == "unserialize"))
  {
  }
}
