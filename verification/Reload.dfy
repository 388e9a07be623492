/** Loading a configuration, again and again: src/snuffleupagus.c undoes what the last load did, reads the
    directives into the tables that are there, and hooks functions and settings. */
module Reload {
  import opened Directives
  import opened Hooks
  import opened IniGuards
  import opened RuleIndex
  import opened Wrappers

  datatype Status = NotLoaded | Valid | Invalid

  // What one load is given: the directives of all files, and whether they are only to be dumped.
  datatype Source = Source(directives: seq<Directive>, dump: bool)

  // The options that the directives come to on a fresh process; none when they are refused.
  function Options(source: Source): Option<Config> {
    Configured(DEFAULTS, source.directives)
  }

  predicate StartsHooks(source: Source) {
    Options(source).Some? && !source.dump
  }

  function InternalIn(functions: Functions): string -> bool {
    name => IsInternal(functions, name)
  }

  // ---- what the values of settings come to ----

  // The rule by which a load sets the value of a setting.
  predicate Sets(accepts: (string, string) -> bool, own: OnModify, source: Source, name: string) {
    && StartsHooks(source) && Options(source).value.iniEnabled && name in Options(source).value.entries
    && Presets(accepts, name, own, Options(source).value.entries[name])
  }

  function ValueSet(accepts: (string, string) -> bool, own: OnModify, source: Source, name: string): string
    requires Sets(accepts, own, source, name)
  {
    Options(source).value.entries[name].preset.value
  }

  // A setting after a load that finds it with its own handler.
  function SettingAfter(accepts: (string, string) -> bool, own: OnModify, source: Source, name: string, value: string)
    : Setting
  {
    var s := Setting(own, value, Nothing);
    if !StartsHooks(source) || !Options(source).value.iniEnabled then s
    else
      var c := Options(source).value;
      if name in c.entries then Guard(accepts, c.iniReadOnly, name, s, c.entries[name]) else s
  }

  function SettingsAfter(accepts: (string, string) -> bool, own: map<string, OnModify>, source: Source,
                         settings: Settings): Settings
  {
    map name | name in settings && name in own ::
      SettingAfter(accepts, own[name], source, name, settings[name].value)
  }

  lemma SettingsLoaded(accepts: (string, string) -> bool, own: map<string, OnModify>, source: Source,
                       settings: Settings)
    requires SameHandlers(own, settings)
    ensures SettingsAfter(accepts, own, source, settings) ==
            if StartsHooks(source) && Options(source).value.iniEnabled then
              var c := Options(source).value;
              Guarded(accepts, c.iniReadOnly, settings, c.entries, c.entries.Keys)
            else settings
  {
  }

  // Only the values of the settings matter.
  lemma ValuesMatter(accepts: (string, string) -> bool, own: map<string, OnModify>, source: Source,
                     settings: Settings, others: Settings)
    requires settings.Keys == others.Keys
    requires forall name :: name in settings ==> settings[name].value == others[name].value
    ensures SettingsAfter(accepts, own, source, settings) == SettingsAfter(accepts, own, source, others)
  {
  }

  lemma NoLoads(accepts: (string, string) -> bool, own: map<string, OnModify>, settings: Settings)
    requires settings.Keys == own.Keys
    ensures AllComeFrom(accepts, own, [], settings, settings)
  {
  }

  // What one more load makes of all settings.
  lemma SettingsNext(accepts: (string, string) -> bool, own: map<string, OnModify>, sources: seq<Source>,
                     initial: Settings, before: Settings, source: Source)
    requires AllComeFrom(accepts, own, sources, initial, before)
    ensures AllComeFrom(accepts, own, sources + [source], initial, SettingsAfter(accepts, own, source, before))
    ensures AreSetBy(accepts, own, source, SettingsAfter(accepts, own, source, before))
  {
    var after := SettingsAfter(accepts, own, source, before);
    forall name | name in after
      ensures after[name] == SettingAfter(accepts, own[name], source, name, after[name].value)
      ensures ComesFrom(accepts, own[name], sources + [source], name, initial[name].value, after[name].value)
    {
      SettingAgain(accepts, own[name], source, name, before[name].value);
      ComesFromNext(accepts, own[name], sources, name, initial[name].value, before[name].value, source);
    }
  }

  ghost predicate AllComeFrom(accepts: (string, string) -> bool, own: map<string, OnModify>, sources: seq<Source>,
                              initial: Settings, settings: Settings)
  {
    && settings.Keys == own.Keys == initial.Keys
    && forall name :: name in settings ==>
         ComesFrom(accepts, own[name], sources, name, initial[name].value, settings[name].value)
  }

  // The handlers, guards and preset values are those that a load of this source leaves.
  predicate AreSetBy(accepts: (string, string) -> bool, own: map<string, OnModify>, source: Source,
                     settings: Settings)
  {
    && settings.Keys == own.Keys
    && forall name :: name in settings ==>
         settings[name] == SettingAfter(accepts, own[name], source, name, settings[name].value)
  }

  // A load that finds its own value leaves it.
  lemma SettingAgain(accepts: (string, string) -> bool, own: OnModify, source: Source, name: string, value: string)
    ensures var s := SettingAfter(accepts, own, source, name, value);
            SettingAfter(accepts, own, source, name, s.value) == s
  {
  }

  // The last of the loads that sets the value.
  predicate SetsLast(accepts: (string, string) -> bool, own: OnModify, sources: seq<Source>, name: string, i: nat) {
    && i < |sources| && Sets(accepts, own, sources[i], name)
    && forall j :: i < j < |sources| ==> !Sets(accepts, own, sources[j], name)
  }

  // The value is that of the last load that sets it, or the one before all loads.
  ghost predicate ComesFrom(accepts: (string, string) -> bool, own: OnModify, sources: seq<Source>, name: string,
                            before: string, after: string)
  {
    || ((forall i :: 0 <= i < |sources| ==> !Sets(accepts, own, sources[i], name)) && after == before)
    || (exists i: nat :: SetsLast(accepts, own, sources, name, i) &&
          after == ValueSet(accepts, own, sources[i], name))
  }

  lemma ComesFromNext(accepts: (string, string) -> bool, own: OnModify, sources: seq<Source>, name: string,
                      before: string, now: string, source: Source)
    requires ComesFrom(accepts, own, sources, name, before, now)
    ensures ComesFrom(accepts, own, sources + [source], name, before,
                      SettingAfter(accepts, own, source, name, now).value)
  {
    var all := sources + [source];
    if Sets(accepts, own, source, name) {
      assert SetsLast(accepts, own, all, name, |sources|);
    } else if i: nat :| SetsLast(accepts, own, sources, name, i) && now == ValueSet(accepts, own, sources[i], name) {
      assert all[i] == sources[i] && SetsLast(accepts, own, all, name, i);
    }
  }

  lemma TwoTaken(d: Directive, e: Directive)
    requires Taken(DEFAULTS, d).Some?
    ensures Configured(DEFAULTS, [d, e]) == Taken(Taken(DEFAULTS, d).value, e)
  {
    ConfiguredAppend(DEFAULTS, [], d);
    ConfiguredAppend(DEFAULTS, [d], e);
    assert [] + [d] == [d] && [d] + [e] == [d, e];
  }

  /** Unlike the handlers, a value stays: a load that does not set it leaves the one that an earlier load
      has set. */
  lemma ValuesPersist(accepts: (string, string) -> bool, own: OnModify)
    requires own == Nothing || accepts("memory_limit", "1G")
    ensures var entry := IniEntry(false, Unset, Some("1G"));
            var enable := Just(IniProtection(Some(true), false, false, false));
            var sources := [Source([enable, Just(Ini("memory_limit", entry))], false), Source([], false)];
            && ComesFrom(accepts, own, sources, "memory_limit", "128M", "1G")
            && !ComesFrom(accepts, own, sources, "memory_limit", "128M", "128M")
            && ComesFrom(accepts, own, sources[1..], "memory_limit", "128M", "128M")
  {
    var entry := IniEntry(false, Unset, Some("1G"));
    var ds := [Just(IniProtection(Some(true), false, false, false)), Just(Ini("memory_limit", entry))];
    var first, second := Source(ds, false), Source([], false);
    TwoTaken(ds[0], ds[1]);
    assert Options(first).value.entries == map["memory_limit" := entry];
    assert Sets(accepts, own, first, "memory_limit") && !Sets(accepts, own, second, "memory_limit");
    assert SetsLast(accepts, own, [first, second], "memory_limit", 0);
  }

  lemma PassOn<T>(seen: set<T>, left: set<T>, x: T)
    requires x in left
    ensures seen + {x} + (left - {x}) == seen + left
  {
  }

  lemma OneRule(d: Directive, e: Directive)
    requires d.Directive? && d.effect.Enable? && e.Directive? && e.effect.DisableFunction? && !e.effect.onReturn
    ensures FunctionRules([d, e], false) ==
            [NewRule(e.effect.id, e.effect.target, e.effect.allow, e.effect.simulation)]
  {
    FunctionRulesAppend([], d, false);
    FunctionRulesAppend([d], e, false);
    assert [] + [d] == [d] && [d] + [e] == [d, e];
  }

  lemma RandReached(matching: (Rule, string) -> bool, original: Functions, c: Config, ds: seq<Directive>)
    requires IsInternal(original, "rand") && c == DEFAULTS.(features := {Random})
    requires FunctionRules(ds, false) == [NewRule(0, "rand", false, false)]
    ensures "rand" in Hookable(original, false, Names(Replaced(c)))
    ensures "rand" in Hookable(original, false, Ruled(matching, original.Keys, c, ds))
  {
    assert ReplacedNames(c)[0] == "rand" && Replaced(c)[0].name == "rand";
    assert Key(FunctionRules(ds, false)[0]) == "rand" && "rand" in Reach(false, "rand");
  }

  /** A configuration after which unhooking in hooking order does not restore the handlers: `rand` is
      replaced, as random numbers are hardened, and it is disabled. */
  lemma RandWrappedTwice(matching: (Rule, string) -> bool)
    ensures var original := map["rand" := Function(true, Original(1))];
            var ds := [Just(Enable(Random, true)), Just(DisableFunction(0, "rand", false, false, false))];
            var c := Configured(DEFAULTS, ds);
            c.Some? &&
            ForwardUnhooked(Install(original, false, Replaced(c.value), Ruled(matching, original.Keys, c.value, ds),
                                    Listed(c.value))) != original
  {
    var original := map["rand" := Function(true, Original(1))];
    var ds := [Just(Enable(Random, true)), Just(DisableFunction(0, "rand", false, false, false))];
    TwoTaken(ds[0], ds[1]);
    var c := Configured(DEFAULTS, ds).value;
    OneRule(ds[0], ds[1]);
    RandReached(matching, original, c, ds);
    var b := Ruled(matching, original.Keys, c, ds);
    ForwardRestoresInstalled(original, false, Replaced(c), b, Listed(c));
  }

  // ---- the module ----

  class HookTable {
    var handlers: Table

    constructor ()
      ensures handlers == map[]
    {
      handlers := map[];
    }
  }

  class Extension {
    const multibyte: bool
    const accepts: (string, string) -> bool
    // whether a rule by regular expression is about a function
    const matching: (Rule, string) -> bool
    var functions: Functions
    const wrapped: HookTable
    const disabled: HookTable
    const blacklisted: HookTable
    var settings: Settings
    var config: Config
    const rules: RuleTables
    const retRules: RuleTables
    var status: Status
    ghost const original: Functions
    ghost const own: map<string, OnModify>

    ghost function Current(): Layers
      reads this, wrapped, disabled, blacklisted
    {
      Layers(functions, wrapped.handlers, disabled.handlers, blacklisted.handlers)
    }

    ghost predicate Tables() {
      && wrapped != disabled && wrapped != blacklisted && disabled != blacklisted && rules != retRules
      && IsPlain(original)
    }

    ghost predicate NoHooks()
      reads this, wrapped, disabled, blacklisted
    {
      Current() == Layers(original, map[], map[], map[]) && SameHandlers(own, settings)
    }

    // Neither options nor rules.
    ghost predicate NoRules()
      reads this, rules, retRules
    {
      && config == DEFAULTS && rules.buckets == rules.hooked == map[]
      && retRules.buckets == retRules.hooked == map[]
    }

    // Whatever has been loaded, the layers can be taken off, and so can the guards of the settings.
    ghost predicate Restorable()
      reads this, wrapped, disabled, blacklisted, rules, retRules
    {
      && Tables() && AreLayers(original, Current())
      && SameHandlers(own, if config.iniEnabled then Unguarded(settings, config.entries.Keys) else settings)
      && (status == NotLoaded ==> NoHooks() && NoRules())
    }

    // The tables hold these rules, and those about functions that could be hooked have moved.
    ghost predicate HaveRules(tables: RuleTables, rs: seq<Rule>, hooked: bool)
      reads tables
    {
      var index, hookable := IndexOf(rs), InternalIn(original);
      if hooked then
        tables.hooked == Moved(index, hookable, Keys(rs)) && tables.buckets == Kept(index, hookable, Keys(rs))
      else tables.hooked == map[] && tables.buckets == index
    }

    ghost function Installed(c: Config, ds: seq<Directive>): Layers {
      Install(original, multibyte, Replaced(c), Ruled(matching, original.Keys, c, ds), Listed(c))
    }

    // The options, the rules and the layers are those of a first load of this source.
    ghost predicate IsLoaded(source: Source)
      reads this, wrapped, disabled, blacklisted, rules, retRules
    {
      var c, ds := Options(source), source.directives;
      if c.None? then status == Invalid && NoRules() && NoHooks()
      else
        && status == Valid && config == c.value
        && HaveRules(rules, FunctionRules(ds, false), !source.dump)
        && HaveRules(retRules, FunctionRules(ds, true), !source.dump)
        && Current() == if source.dump then Layers(original, map[], map[], map[]) else Installed(c.value, ds)
    }

    constructor (functions: Functions, settings: Settings, own: map<string, OnModify>, multibyte: bool,
                 accepts: (string, string) -> bool, matching: (Rule, string) -> bool)
      requires IsPlain(functions) && SameHandlers(own, settings)
      ensures Restorable() && status == NotLoaded && this.settings == settings
      ensures original == functions && this.own == own && this.multibyte == multibyte
      ensures this.accepts == accepts && this.matching == matching
      ensures fresh(wrapped) && fresh(disabled) && fresh(blacklisted) && fresh(rules) && fresh(retRules)
    {
      this.functions, this.settings, this.multibyte := functions, settings, multibyte;
      this.accepts, this.matching := accepts, matching;
      wrapped := new HookTable();
      disabled := new HookTable();
      blacklisted := new HookTable();
      rules := new RuleTables();
      retRules := new RuleTables();
      config, status := DEFAULTS, NotLoaded;
      original, this.own := functions, own;
      new;
      PlainLayers(functions);
    }

    // ---- hooking functions ----

    method HookFunctionOnce(name: string, table: HookTable, handler: Handler) returns (success: bool)
      modifies this`functions, table
      ensures Hooked(functions, table.handlers) ==
              HookOne(Hooked(old(functions), old(table.handlers)), Request(name, handler))
      ensures success <==> name in functions && functions[name].isInternal && functions[name].handler == handler
    {
      if name in functions {
        var f := functions[name];
        if !f.isInternal {
          return false;
        }
        if f.handler == handler {
          return true;
        }
        if name in table.handlers {
          return false;
        }
        table.handlers := table.handlers[name := f.handler];
        functions := functions[name := f.(handler := handler)];
        return true;
      }
      return false;
    }

    method HookFunction(name: string, table: HookTable, handler: Handler) returns (success: bool)
      modifies this`functions, table
      ensures Hooked(functions, table.handlers) ==
              HookBoth(Hooked(old(functions), old(table.handlers)), multibyte, Request(name, handler))
      ensures var f := HookOne(Hooked(old(functions), old(table.handlers)), Request(name, handler)).functions;
              success <==> name in f && f[name].isInternal && f[name].handler == handler
    {
      success := HookFunctionOnce(name, table, handler);
      if !multibyte && "mb_" <= name {
        var _ := HookFunctionOnce(name[3..], table, handler);
      } else if multibyte {
        var _ := HookFunctionOnce("mb_" + name, table, handler);
      }
    }

    method HookRequests(table: HookTable, requests: seq<Request>)
      modifies this`functions, table
      ensures Hooked(functions, table.handlers) ==
              HookAll(Hooked(old(functions), old(table.handlers)), multibyte, requests)
    {
      assert requests[0..] == requests;
      for i := 0 to |requests|
        invariant HookAll(Hooked(functions, table.handlers), multibyte, requests[i..]) ==
                  HookAll(Hooked(old(functions), old(table.handlers)), multibyte, requests)
      {
        assert requests[i..][0] == requests[i] && requests[i..][1..] == requests[i + 1..];
        var _ := HookFunction(requests[i].name, table, requests[i].handler);
      }
    }

    method UnhookFunctions(table: HookTable)
      modifies this`functions
      ensures functions == Unhook(old(functions), table.handlers)
    {
      ghost var before, all := functions, table.handlers.Keys;
      var names := table.handlers.Keys;
      while names != {}
        invariant names <= all
        invariant functions == Unhook(before, Part(table.handlers, all - names))
        decreases |names|
      {
        var name :| name in names;
        UnhookNext(before, table.handlers, all - names, name);
        if name in functions && functions[name].isInternal {
          functions := functions[name := functions[name].(handler := table.handlers[name])];
        }
        assert all - (names - {name}) == all - names + {name};
        names := names - {name};
      }
      assert Part(table.handlers, all) == table.handlers;
    }

    // Hooks one name on top of what these targets have been hooked over.
    method CoverFunction(name: string, table: HookTable, handler: Handler, ghost before: Functions,
                         ghost targets: set<string>) returns (success: bool)
      requires IsFree(before, handler) && Hooked(functions, table.handlers) == Cover(before, handler, targets)
      modifies this`functions, table
      ensures Hooked(functions, table.handlers) == Cover(before, handler, targets + Reach(multibyte, name))
      ensures success <==> IsInternal(before, name)
    {
      CoverBoth(before, handler, targets, multibyte, name);
      success := HookFunction(name, table, handler);
    }

    // The state of the walk over the buckets when these keys are left.
    ghost predicate Walking(tables: RuleTables, rs: seq<Rule>, before: Functions, names: set<string>,
                            left: set<string>)
      reads this, disabled, tables
    {
      && left <= Keys(rs)
      && tables.hooked == Moved(IndexOf(rs), InternalIn(before), Keys(rs) - left)
      && tables.buckets == Kept(IndexOf(rs), InternalIn(before), Keys(rs) - left)
      && Covered(before, names + (Keys(rs) - left))
    }

    method HookBucket(key: string, tables: RuleTables, ghost rs: seq<Rule>, ghost before: Functions,
                      ghost names: set<string>, ghost left: set<string>)
      requires IsFree(before, Disabled) && key in left && Walking(tables, rs, before, names, left)
      modifies this`functions, disabled, tables
      ensures Walking(tables, rs, before, names, left - {key})
    {
      ghost var done := Keys(rs) - left;
      MoveOne(IndexOf(rs), InternalIn(before), done, key);
      BucketHasKey(rs, key);
      ReachMore(multibyte, names + done, key);
      assert Keys(rs) - (left - {key}) == done + {key} && names + (done + {key}) == names + done + {key};
      var success := CoverFunction(key, disabled, Disabled, before, ReachAll(multibyte, names + done));
      var isBuiltin := Key(tables.buckets[key][0]) in BUILTINS;
      if success || isBuiltin {
        tables.hooked := tables.hooked[key := tables.buckets[key]];
        tables.buckets := tables.buckets - {key};
      }
    }

    // hook_functions: the buckets of the functions that could be hooked, and of the builtins, move whole.
    method HookBuckets(tables: RuleTables, ghost rs: seq<Rule>, ghost before: Functions, ghost names: set<string>)
      requires tables.buckets == IndexOf(rs) && tables.hooked == map[]
      requires IsFree(before, Disabled) && Covered(before, names)
      modifies this`functions, disabled, tables
      ensures Covered(before, names + Keys(rs))
      ensures tables.hooked == Moved(IndexOf(rs), InternalIn(before), Keys(rs))
      ensures tables.buckets == Kept(IndexOf(rs), InternalIn(before), Keys(rs))
    {
      var keys := tables.buckets.Keys;
      NothingMoved(IndexOf(rs), InternalIn(before));
      assert keys == Keys(rs) && Keys(rs) - keys == {} && names + {} == names;
      while keys != {}
        invariant Walking(tables, rs, before, names, keys)
        decreases |keys|
      {
        var key :| key in keys;
        HookBucket(key, tables, rs, before, names, keys);
        keys := keys - {key};
      }
      assert Keys(rs) - {} == Keys(rs);
    }

    // The layer of disabled functions reaches what these names reach.
    ghost predicate Covered(before: Functions, names: set<string>)
      reads this, disabled
    {
      Hooked(functions, disabled.handlers) == Cover(before, Disabled, ReachAll(multibyte, names))
    }

    method HookMatch(rule: Rule, name: string, ghost before: Functions, ghost names: set<string>)
      requires IsFree(before, Disabled) && Covered(before, names)
      modifies this`functions, disabled
      ensures Covered(before, names + if matching(rule, name) then {name} else {})
    {
      assert names + {} == names;
      if matching(rule, name) {
        ReachMore(multibyte, names, name);
        var _ := CoverFunction(name, disabled, Disabled, before, ReachAll(multibyte, names));
      }
    }

    // Every function of the table that the regular expression matches, in whatever order.
    method HookRegexp(rule: Rule, ghost before: Functions, ghost names: set<string>)
      requires IsFree(before, Disabled) && Covered(before, names)
      modifies this`functions, disabled
      ensures Covered(before, names + Matched(matching, before.Keys, [rule]))
    {
      var left := functions.Keys;
      ghost var seen: set<string> := {};
      MatchedNone(matching, rule, names);
      assert left == before.Keys;
      while left != {}
        invariant seen + left == before.Keys && Covered(before, names + Matched(matching, seen, [rule]))
        decreases |left|
      {
        var name :| name in left;
        HookMatch(rule, name, before, names + Matched(matching, seen, [rule]));
        MatchedMore(matching, seen, rule, name, names);
        PassOn(seen, left, name);
        seen, left := seen + {name}, left - {name};
      }
      assert seen == before.Keys;
    }

    method HookRegexps(regexps: seq<Rule>, ghost before: Functions, ghost names: set<string>)
      requires IsFree(before, Disabled) && Covered(before, names)
      modifies this`functions, disabled
      ensures Covered(before, names + Matched(matching, before.Keys, regexps))
    {
      assert regexps[..0] == [] && names + Matched(matching, before.Keys, []) == names;
      for i := 0 to |regexps|
        invariant Covered(before, names + Matched(matching, before.Keys, regexps[..i]))
      {
        MatchedNext(matching, before.Keys, regexps, i);
        ghost var done := names + Matched(matching, before.Keys, regexps[..i]);
        assert names + Matched(matching, before.Keys, regexps[..i + 1]) ==
               done + Matched(matching, before.Keys, [regexps[i]]);
        HookRegexp(regexps[i], before, done);
      }
      assert regexps[..|regexps|] == regexps;
    }

    // The four parts of hook_disabled_functions that use one table.
    method HookRules(ghost ds: seq<Directive>, ghost before: Functions)
      requires rules != retRules && IsFree(before, Disabled) && Covered(before, {})
      requires rules.buckets == IndexOf(FunctionRules(ds, false)) && rules.hooked == map[]
      requires retRules.buckets == IndexOf(FunctionRules(ds, true)) && retRules.hooked == map[]
      modifies this`functions, disabled, rules, retRules
      ensures Covered(before, Ruled(matching, before.Keys, config, ds))
      ensures HasMoved(rules, FunctionRules(ds, false), before) && HasMoved(retRules, FunctionRules(ds, true), before)
    {
      HookBuckets(rules, FunctionRules(ds, false), before, {});
      ghost var names := {} + Keys(FunctionRules(ds, false));
      HookBuckets(retRules, FunctionRules(ds, true), before, names);
      names := names + Keys(FunctionRules(ds, true));
      HookRegexps(config.regexps, before, names);
      names := names + Matched(matching, before.Keys, config.regexps);
      HookRegexps(config.retRegexps, before, names);
      assert names + Matched(matching, before.Keys, config.retRegexps) == Ruled(matching, before.Keys, config, ds);
    }

    ghost predicate HasMoved(tables: RuleTables, rs: seq<Rule>, before: Functions)
      reads tables
    {
      && tables.hooked == Moved(IndexOf(rs), InternalIn(before), Keys(rs))
      && tables.buckets == Kept(IndexOf(rs), InternalIn(before), Keys(rs))
    }

    method HookBlacklist(names: seq<string>, ghost before: Functions)
      requires IsFree(before, Blacklisted) && functions == before && blacklisted.handlers == map[]
      modifies this`functions, blacklisted
      ensures Hooked(functions, blacklisted.handlers) == Cover(before, Blacklisted, ReachAll(multibyte, Members(names)))
    {
      CoverNone(before, Blacklisted, multibyte);
      assert Members(names[..0]) == {};
      for i := 0 to |names|
        invariant Hooked(functions, blacklisted.handlers) ==
                  Cover(before, Blacklisted, ReachAll(multibyte, Members(names[..i])))
      {
        ReachMore(multibyte, Members(names[..i]), names[i]);
        MembersNext(names, i);
        var _ := CoverFunction(names[i], blacklisted, Blacklisted, before, ReachAll(multibyte, Members(names[..i])));
      }
      assert names[..|names|] == names;
    }

    // ---- the settings ----

    method HookSetting(name: string)
      requires name in config.entries
      modifies this`settings
      ensures settings ==
              if name in old(settings) then
                old(settings)[
                  name := Guard(accepts, config.iniReadOnly, name, old(settings)[name], config.entries[name])]
              else old(settings)
    {
      if name in settings {
        var entry, own := config.entries[name], settings[name].onModify;
        if entry.hasChecks || entry.access.ReadOnly? || (entry.access.Unset? && config.iniReadOnly) {
          settings := settings[name := settings[name].(saved := own, onModify := Checked)];
        }
        if entry.preset.Some? && (own == Nothing || accepts(name, entry.preset.value)) {
          settings := settings[name := settings[name].(value := entry.preset.value)];
        }
      }
    }

    method HookIni()
      modifies this`settings
      ensures settings == Guarded(accepts, config.iniReadOnly, old(settings), config.entries, config.entries.Keys)
    {
      ghost var before, all, readOnly := settings, config.entries.Keys, config.iniReadOnly;
      var names := config.entries.Keys;
      ghost var seen: set<string> := {};
      while names != {}
        invariant names !! seen && seen + names == all
        invariant settings == Guarded(accepts, readOnly, before, config.entries, seen)
        decreases |names|
      {
        var name :| name in names;
        GuardNext(accepts, readOnly, before, config.entries, seen, name);
        HookSetting(name);
        PassOn(seen, names, name);
        seen, names := seen + {name}, names - {name};
      }
      assert seen == all;
    }

    method UnhookSetting(name: string)
      modifies this`settings
      ensures settings ==
              if name in old(settings) then old(settings)[name := Unguard(old(settings)[name])] else old(settings)
    {
      if name in settings {
        if settings[name].onModify == Checked {
          settings := settings[name := settings[name].(onModify := settings[name].saved)];
        }
        settings := settings[name := settings[name].(saved := Nothing)];
      }
    }

    method UnhookIni()
      modifies this`settings
      ensures settings == Unguarded(old(settings), config.entries.Keys)
    {
      ghost var before, all := settings, config.entries.Keys;
      var names := config.entries.Keys;
      ghost var seen: set<string> := {};
      while names != {}
        invariant names !! seen && seen + names == all
        invariant settings == Unguarded(before, seen)
        decreases |names|
      {
        var name :| name in names;
        UnguardNext(before, seen, name);
        UnhookSetting(name);
        PassOn(seen, names, name);
        seen, names := seen + {name}, names - {name};
      }
      assert seen == all;
    }

    // ---- reading directives ----

    // The options and the rules are those of these directives, on top of nothing.
    ghost predicate HasRead(ds: seq<Directive>)
      reads this, rules, retRules
    {
      && Configured(DEFAULTS, ds) == Some(config)
      && Indexes(rules.buckets, FunctionRules(ds, false)) && rules.hooked == map[]
      && Indexes(retRules.buckets, FunctionRules(ds, true)) && retRules.hooked == map[]
    }

    // The options that may be given once, up to one that is there already.
    method GiveOptions(gives: seq<OnceOption>) returns (ok: bool)
      modifies this`config
      ensures var given := Give(old(config.given), gives);
              ok == given.Some? && (ok ==> config == old(config).(given := given.value))
    {
      assert gives[0..] == gives && config.(given := config.given) == config;
      for i := 0 to |gives|
        invariant Give(config.given, gives[i..]) == Give(old(config.given), gives)
        invariant config == old(config).(given := config.given)
      {
        assert gives[i..][0] == gives[i] && gives[i..][1..] == gives[i + 1..];
        if gives[i] in config.given {
          return false;
        }
        config := config.(given := config.given + {gives[i]});
      }
      return true;
    }

    method ApplyEffect(e: Effect) returns (ok: bool)
      modifies this`config
      ensures ok == Applied(old(config), e).Some?
      ensures ok ==> config == Applied(old(config), e).value
    {
      match e {
        case Enable(feature, on) =>
          config := config.(features := if on then config.features + {feature} else config.features - {feature});
        case AllowWrappers =>
          config := config.(wrappers := true);
        case EvalBlacklist(names) =>
          if config.blacklist.Some? {
            return false;
          }
          config := config.(blacklist := Some(names));
        case IniProtection(enable, readOnly, silent, drop) =>
          config := config.(iniSilent := config.iniSilent || silent, iniDrop := config.iniDrop || drop);
          config := config.(
            iniEnabled := if enable.Some? then enable.value else config.iniEnabled, iniReadOnly := readOnly);
          if config.iniSilent && config.iniDrop {
            return false;
          }
        case Ini(name, entry) =>
          if name in config.entries {
            return false;
          }
          config := config.(entries := config.entries[name := entry]);
        case DisableByRegexp(rule, onReturn) =>
          if onReturn {
            config := config.(retRegexps := config.retRegexps + [rule]);
          } else {
            config := config.(regexps := config.regexps + [rule]);
          }
        case _ =>
      }
      return true;
    }

    method StoreOptions(d: Directive) returns (ok: bool)
      modifies this`config
      ensures ok == Taken(old(config), d).Some?
      ensures ok ==> config == Taken(old(config), d).value
    {
      if d.Refused? {
        return false;
      }
      ok := GiveOptions(d.gives);
      if !ok || !(d.needs <= config.given) {
        return false;
      }
      ok := ApplyEffect(d.effect);
    }

    method StoreRule(tables: RuleTables, d: Directive, onReturn: bool, ghost ds: seq<Directive>)
      requires Indexes(tables.buckets, FunctionRules(ds, onReturn))
      modifies tables`buckets
      ensures Indexes(tables.buckets, FunctionRules(ds + [d], onReturn))
    {
      FunctionRulesAppend(ds, d, onReturn);
      if d.Directive? && d.effect.DisableFunction? && d.effect.onReturn == onReturn {
        var rule := NewRule(d.effect.id, d.effect.target, d.effect.allow, d.effect.simulation);
        tables.AddRule(rule, FunctionRules(ds, onReturn));
      }
    }

    // One directive, stored in the tables and the options that are there.
    method StoreDirective(d: Directive, ghost ds: seq<Directive>) returns (ok: bool)
      requires rules != retRules && HasRead(ds)
      modifies this`config, rules, retRules
      ensures ok == Configured(DEFAULTS, ds + [d]).Some?
      ensures ok ==> HasRead(ds + [d])
    {
      ConfiguredAppend(DEFAULTS, ds, d);
      ok := StoreOptions(d);
      if ok {
        StoreRule(rules, d, false, ds);
        StoreRule(retRules, d, true, ds);
      }
    }

    /** Reads a configuration, up to the first directive that is refused. */
    method StoreDirectives(ds: seq<Directive>) returns (success: bool)
      requires rules != retRules && NoRules()
      modifies this`config, rules, retRules
      ensures success == Configured(DEFAULTS, ds).Some?
      ensures success ==> HasRead(ds)
    {
      assert ds[..0] == [];
      for i := 0 to |ds|
        invariant HasRead(ds[..i])
      {
        assert ds[..i] + [ds[i]] == ds[..i + 1];
        var ok := StoreDirective(ds[i], ds[..i]);
        if !ok {
          RefusedPrefix(DEFAULTS, ds, i + 1);
          return false;
        }
      }
      assert ds[..|ds|] == ds;
      return true;
    }

    // sp_free_config: the tables are emptied, and all options are back to their defaults.
    method FreeConfig()
      modifies this`config, rules, retRules
      ensures NoRules()
    {
      rules.Clear();
      retRules.Clear();
      config := DEFAULTS;
    }

    // ---- loading ----

    method HookBlacklisted(ghost before: Functions)
      requires IsFree(before, Blacklisted) && functions == before && blacklisted.handlers == map[]
      modifies this`functions, blacklisted
      ensures Hooked(functions, blacklisted.handlers) == Cover(before, Blacklisted, ReachAll(multibyte, Listed(config)))
    {
      CoverNone(before, Blacklisted, multibyte);
      if config.blacklist.Some? {
        HookBlacklist(config.blacklist.value, before);
      }
    }

    // hook_disabled_functions
    method HookDisabledFunctions(ghost ds: seq<Directive>, ghost before: Functions)
      requires Tables() && HasRead(ds) && functions == before
      requires disabled.handlers == blacklisted.handlers == map[]
      requires IsFree(before, Disabled)
      requires IsFree(
                 Cover(before, Disabled, ReachAll(multibyte, Ruled(matching, before.Keys, config, ds))).functions,
                 Blacklisted)
      modifies this`functions, disabled, blacklisted, rules, retRules
      ensures HasMoved(rules, FunctionRules(ds, false), before) && HasMoved(retRules, FunctionRules(ds, true), before)
      ensures var b := Cover(before, Disabled, ReachAll(multibyte, Ruled(matching, before.Keys, config, ds)));
              disabled.handlers == b.table &&
              Hooked(functions, blacklisted.handlers) ==
              Cover(b.functions, Blacklisted, ReachAll(multibyte, Listed(config)))
    {
      IndexedIff(rules.buckets, FunctionRules(ds, false));
      IndexedIff(retRules.buckets, FunctionRules(ds, true));
      CoverNone(before, Disabled, multibyte);
      HookRules(ds, before);
      HookBlacklisted(functions);
    }

    lemma MovedAsOriginal(tables: RuleTables, rs: seq<Rule>, before: Functions)
      requires HasMoved(tables, rs, before)
      requires forall name :: IsInternal(original, name) <==> IsInternal(before, name)
      ensures HaveRules(tables, rs, true)
    {
      MovedAlike(IndexOf(rs), InternalIn(original), InternalIn(before), Keys(rs));
    }

    // The internal wrappers, on functions that are not hooked.
    method HookReplaced(ghost ds: seq<Directive>)
      requires IsPlain(original) && functions == original && wrapped.handlers == map[]
      modifies this`functions, wrapped
      ensures Hooked(functions, wrapped.handlers) ==
              HookAll(Hooked(original, map[]), multibyte, Replaced(config))
      ensures functions.Keys == original.Keys
      ensures forall name :: IsInternal(original, name) <==> IsInternal(functions, name)
      ensures var names := ReachAll(multibyte, Ruled(matching, functions.Keys, config, ds));
              IsFree(functions, Disabled) && IsFree(Cover(functions, Disabled, names).functions, Blacklisted)
    {
      SameFunctions(original, multibyte, Replaced(config));
      InstallFree(original, multibyte, Replaced(config), Ruled(matching, original.Keys, config, ds));
      HookRequests(wrapped, Replaced(config));
    }

    // The second half of sp_load_config. The settings are independent of the functions.
    method StartHooks(ghost ds: seq<Directive>)
      requires Tables() && HasRead(ds) && NoHooks()
      modifies this`functions, this`settings, wrapped, disabled, blacklisted, rules, retRules
      ensures Current() == Installed(config, ds)
      ensures HaveRules(rules, FunctionRules(ds, false), true) && HaveRules(retRules, FunctionRules(ds, true), true)
      ensures settings == if config.iniEnabled
                          then Guarded(accepts, config.iniReadOnly, old(settings), config.entries, config.entries.Keys)
                          else old(settings)
    {
      HookReplaced(ds);
      ghost var before := functions;
      if config.iniEnabled {
        HookIni();
      }
      HookDisabledFunctions(ds, before);
      MovedAsOriginal(rules, FunctionRules(ds, false), before);
      MovedAsOriginal(retRules, FunctionRules(ds, true), before);
    }

    // The first part of sp_load_config: hooks are undone, the upper layers first, and all rules are freed.
    method Reset()
      requires Restorable()
      modifies this`functions, this`settings, this`config, wrapped, disabled, blacklisted, rules, retRules
      ensures NoHooks() && NoRules()
      ensures settings.Keys == old(settings).Keys
      ensures forall name :: name in settings ==> settings[name].value == old(settings)[name].value
    {
      if config.iniEnabled {
        UnhookIni();
      }
      UnhookFunctions(blacklisted);
      UnhookFunctions(disabled);
      UnhookFunctions(wrapped);
      blacklisted.handlers := map[];
      disabled.handlers := map[];
      wrapped.handlers := map[];
      FreeConfig();
    }

    // sp_config_failed: no rule is left, not even those of files that were read before.
    method FailConfig()
      modifies this`config, this`status, rules, retRules
      ensures NoRules() && status == Invalid
    {
      FreeConfig();
      status := Invalid;
    }

    lemma LoadedIsRestorable(source: Source, before: Settings)
      requires Tables() && IsLoaded(source) && SameHandlers(own, before)
      requires settings == SettingsAfter(accepts, own, source, before)
      ensures Restorable()
    {
      PlainLayers(original);
      SettingsLoaded(accepts, own, source, before);
      var c := Options(source);
      if c.Some? {
        var ds := source.directives;
        InstallLayers(original, multibyte, Replaced(c.value), Ruled(matching, original.Keys, c.value, ds),
                      Listed(c.value));
        UnguardRestores(accepts, c.value.iniReadOnly, own, before, c.value.entries);
        UnguardSame(own, before, c.value.entries.Keys);
      }
    }

    // Reading, and what follows it.
    method Apply(source: Source) returns (success: bool)
      requires Tables() && NoHooks() && NoRules()
      modifies this, wrapped, disabled, blacklisted, rules, retRules
      ensures IsLoaded(source) && success == Options(source).Some?
      ensures settings == SettingsAfter(accepts, own, source, old(settings))
    {
      SettingsLoaded(accepts, own, source, settings);
      success := StoreDirectives(source.directives);
      if !success {
        FailConfig();
        return;
      }
      status := Valid;
      IndexedIff(rules.buckets, FunctionRules(source.directives, false));
      IndexedIff(retRules.buckets, FunctionRules(source.directives, true));
      if !source.dump {
        StartHooks(source.directives);
      }
    }

    /** One load, from any state that loads can lead to. What it leaves does not depend on the loads
        before, but for the values of settings: the options, the rules, the layers and the guards are those
        of a first load, and there are none at all after a load that fails. */
    method Load(source: Source) returns (success: bool)
      requires Restorable()
      modifies this, wrapped, disabled, blacklisted, rules, retRules
      ensures Restorable() && IsLoaded(source) && success == Options(source).Some?
      ensures settings == SettingsAfter(accepts, own, source, old(settings)) && settings.Keys == own.Keys
    {
      ghost var found := settings;
      if status != NotLoaded {
        Reset();
      }
      ghost var before := settings;
      ValuesMatter(accepts, own, source, before, found);
      success := Apply(source);
      LoadedIsRestorable(source, before);
    }

    /** Any number of loads. Only the last one counts; the value of a setting is that of the last load
        that set it, or the one before all loads. */
    method LoadAll(sources: seq<Source>)
      requires Restorable()
      modifies this, wrapped, disabled, blacklisted, rules, retRules
      ensures AfterLoads(sources, old(settings))
    {
      ghost var initial := settings;
      NoLoads(accepts, own, initial);
      for i := 0 to |sources|
        invariant AfterLoads(sources[..i], initial)
      {
        LoadNext(sources[i], sources[..i], initial);
        assert sources[..i] + [sources[i]] == sources[..i + 1];
      }
      assert sources[..|sources|] == sources;
    }

    ghost predicate AfterLoads(sources: seq<Source>, initial: Settings)
      reads this, wrapped, disabled, blacklisted, rules, retRules
    {
      && Restorable() && AllComeFrom(accepts, own, sources, initial, settings)
      && (sources != [] ==>
            IsLoaded(sources[|sources| - 1]) && AreSetBy(accepts, own, sources[|sources| - 1], settings))
    }

    method LoadNext(source: Source, ghost sources: seq<Source>, ghost initial: Settings)
      requires AfterLoads(sources, initial)
      modifies this, wrapped, disabled, blacklisted, rules, retRules
      ensures AfterLoads(sources + [source], initial)
    {
      SettingsNext(accepts, own, sources, initial, settings, source);
      var _ := Load(source);
      assert (sources + [source])[|sources|] == source;
    }

    /** After a load that starts hooks, a call is decided, and logged, as by a scan of the whole
        configuration in order: in the table of hooked functions or in the other one, as the case may be. */
    lemma CallsAreScanned(conditions: (Rule, Call) -> bool, source: Source, call: Call)
      requires IsLoaded(source) && StartsHooks(source)
      ensures var rs, regexps := FunctionRules(source.directives, false), config.regexps;
              var table := if Moves(InternalIn(original), call.name) then rules.hooked else rules.buckets;
              Lookup(conditions, table, regexps, call) ==
              if call.name in Keys(rs) then ScanAll(conditions, rs, call) else Scan(conditions, regexps, call)
      ensures Indexes(rules.hooked + rules.buckets, FunctionRules(source.directives, false))
      ensures rules.hooked.Keys !! rules.buckets.Keys
    {
      MovedLookup(conditions, FunctionRules(source.directives, false), config.regexps, InternalIn(original), call);
    }

    /** The module shutdown unhooks in hooking order: all handlers are restored exactly when none was
        wrapped twice. */
    method Shutdown()
      requires Restorable()
      modifies this`functions, this`settings
      ensures functions == original <==> AreDisjoint(old(Current()))
      ensures SameHandlers(own, settings)
    {
      ForwardRestores(original, Current());
      UnhookFunctions(wrapped);
      UnhookFunctions(disabled);
      UnhookFunctions(blacklisted);
      if config.iniEnabled {
        UnhookIni();
      }
    }
  }
}
