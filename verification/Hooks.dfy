/** Hook tables: src/sp_utils.c wraps function handlers through up to three of them, one over the other. */
module Hooks {
  import opened Wrappers

  // Original: what PHP installed. Wrapper: a replacement for one function. Disabled and Blacklisted:
  // check_disabled_function and eval_blacklist_callback.
  datatype Handler = Original(id: nat) | Wrapper(name: string) | Disabled | Blacklisted

  datatype Function = Function(isInternal: bool, handler: Handler)

  type Functions = map<string, Function>

  // A hook table: the handlers that were replaced.
  type Table = map<string, Handler>

  datatype Hooked = Hooked(functions: Functions, table: Table)

  datatype Request = Request(name: string, handler: Handler)

  // ---- hooking ----

  // _hook_function
  function HookOne(h: Hooked, r: Request): Hooked {
    if r.name !in h.functions then h
    else
      var f := h.functions[r.name];
      if !f.isInternal || f.handler == r.handler || r.name in h.table then h
      else Hooked(h.functions[r.name := f.(handler := r.handler)], h.table[r.name := f.handler])
  }

  // hook_function: the multibyte variant is hooked as well.
  function Variant(multibyte: bool, name: string): Option<string> {
    if !multibyte && "mb_" <= name then Some(name[3..])
    else if multibyte then Some("mb_" + name)
    else None
  }

  function HookBoth(h: Hooked, multibyte: bool, r: Request): Hooked {
    var v := Variant(multibyte, r.name);
    if v.Some? then HookOne(HookOne(h, r), r.(name := v.value)) else HookOne(h, r)
  }

  function HookAll(h: Hooked, multibyte: bool, requests: seq<Request>): Hooked
    decreases |requests|
  {
    if requests == [] then h else HookAll(HookBoth(h, multibyte, requests[0]), multibyte, requests[1..])
  }

  function Unhook(functions: Functions, table: Table): Functions {
    map name | name in functions ::
      if name in table && functions[name].isInternal then functions[name].(handler := table[name]) else functions[name]
  }

  function Part(table: Table, names: set<string>): Table {
    map name | name in table && name in names :: table[name]
  }

  lemma UnhookNext(functions: Functions, table: Table, names: set<string>, name: string)
    requires name in table && name !in names
    ensures Unhook(functions, Part(table, names + {name})) ==
            var f := Unhook(functions, Part(table, names));
            if name in f && f[name].isInternal then f[name := f[name].(handler := table[name])] else f
  {
  }

  // One layer of wrappers of these kinds over the functions before: the table holds the handlers
  // below, and exactly the functions in it are wrapped.
  predicate IsLayer(before: Functions, wraps: Handler -> bool, h: Hooked) {
    && h.functions.Keys == before.Keys && h.table.Keys <= before.Keys
    && (forall name :: name in h.table ==>
          before[name].isInternal && h.table[name] == before[name].handler &&
          h.functions[name].isInternal && wraps(h.functions[name].handler))
    && (forall name :: name in before && name !in h.table ==> h.functions[name] == before[name])
  }

  lemma HookOneLayer(before: Functions, wraps: Handler -> bool, h: Hooked, r: Request)
    requires IsLayer(before, wraps, h) && wraps(r.handler)
    ensures IsLayer(before, wraps, HookOne(h, r))
  {
  }

  lemma {:induction false} HookAllLayer(
      before: Functions, wraps: Handler -> bool, h: Hooked, multibyte: bool, requests: seq<Request>)
    requires IsLayer(before, wraps, h) && forall i :: 0 <= i < |requests| ==> wraps(requests[i].handler)
    ensures IsLayer(before, wraps, HookAll(h, multibyte, requests))
    decreases |requests|
  {
    if requests == [] {
    } else {
      var r := requests[0];
      HookOneLayer(before, wraps, h, r);
      var v := Variant(multibyte, r.name);
      if v.Some? {
        HookOneLayer(before, wraps, HookOne(h, r), r.(name := v.value));
      }
      HookAllLayer(before, wraps, HookBoth(h, multibyte, r), multibyte, requests[1..]);
    }
  }

  /** Unhooking takes a layer off. */
  lemma UnhookLayer(before: Functions, wraps: Handler -> bool, h: Hooked)
    requires IsLayer(before, wraps, h)
    ensures Unhook(h.functions, h.table) == before
  {
  }

  // ---- three layers ----

  datatype Layers = Layers(functions: Functions, internal_: Table, disabled: Table, blacklisted: Table)

  // With the upper layers taken off.
  function BelowBlacklisted(l: Layers): Functions { Unhook(l.functions, l.blacklisted) }

  function BelowDisabled(l: Layers): Functions { Unhook(BelowBlacklisted(l), l.disabled) }

  function Restored(l: Layers): Functions { Unhook(BelowDisabled(l), l.internal_) }

  predicate IsPlain(functions: Functions) {
    forall name :: name in functions ==> functions[name].handler.Original?
  }

  // Each function runs its blacklist wrapper over its disabling wrapper over its internal wrapper
  // over its original handler, as far as it has them.
  predicate AreLayers(original: Functions, l: Layers) {
    && Restored(l) == original
    && IsLayer(original, (h: Handler) => h.Wrapper?, Hooked(BelowDisabled(l), l.internal_))
    && IsLayer(BelowDisabled(l), (h: Handler) => h.Disabled?, Hooked(BelowBlacklisted(l), l.disabled))
    && IsLayer(BelowBlacklisted(l), (h: Handler) => h.Blacklisted?, Hooked(l.functions, l.blacklisted))
  }

  // ---- one handler for a set of functions ----

  // Functions have this handler nowhere yet.
  predicate IsFree(before: Functions, handler: Handler) {
    forall name :: name in before ==> before[name].handler != handler
  }

  // One layer with one handler over the functions of these names, in whatever order they were hooked.
  function Cover(before: Functions, handler: Handler, targets: set<string>): Hooked {
    Hooked(
      map name | name in before ::
        if name in targets && before[name].isInternal then before[name].(handler := handler) else before[name],
      map name | name in before && name in targets && before[name].isInternal :: before[name].handler)
  }

  // The functions that hooking a name reaches.
  function Reach(multibyte: bool, name: string): set<string> {
    var v := Variant(multibyte, name);
    if v.Some? then {name, v.value} else {name}
  }

  /** Of a function and the one whose name is `mb_` and its name, hooking the second reaches both, and hooking the
      first does when multibyte support is on; nothing else is reached. */
  lemma ReachIs(multibyte: bool, name: string)
    ensures Reach(false, "mb_" + name) == {"mb_" + name, name} && Reach(true, name) == {name, "mb_" + name}
    ensures !("mb_" <= name) ==> Reach(false, name) == {name}
  {
    assert ("mb_" + name)[3..] == name;
  }

  function ReachAll(multibyte: bool, names: set<string>): set<string> {
    set name, target | name in names && target in Reach(multibyte, name) :: target
  }

  lemma ReachMore(multibyte: bool, names: set<string>, name: string)
    ensures ReachAll(multibyte, names + {name}) == ReachAll(multibyte, names) + Reach(multibyte, name)
  {
  }

  lemma CoverOne(before: Functions, handler: Handler, targets: set<string>, name: string)
    requires IsFree(before, handler)
    ensures HookOne(Cover(before, handler, targets), Request(name, handler)) == Cover(before, handler, targets + {name})
  {
    var h := Cover(before, handler, targets);
    if name in before && before[name].isInternal && name !in targets {
      assert Cover(before, handler, targets + {name}).functions ==
             h.functions[name := before[name].(handler := handler)];
      assert Cover(before, handler, targets + {name}).table == h.table[name := before[name].handler];
    }
  }

  /** Hooking one more name, with its variant, adds what it reaches. It succeeds exactly for an internal
      function. */
  lemma CoverBoth(before: Functions, handler: Handler, targets: set<string>, multibyte: bool, name: string)
    requires IsFree(before, handler)
    ensures var h := Cover(before, handler, targets);
            HookBoth(h, multibyte, Request(name, handler)) ==
            Cover(before, handler, targets + Reach(multibyte, name))
    ensures var h := HookOne(Cover(before, handler, targets), Request(name, handler)).functions;
            name in h && h[name].isInternal && h[name].handler == handler <==> IsInternal(before, name)
  {
    CoverOne(before, handler, targets, name);
    var v := Variant(multibyte, name);
    if v.Some? {
      CoverOne(before, handler, targets + {name}, v.value);
      assert targets + {name} + {v.value} == targets + Reach(multibyte, name);
    }
  }

  predicate IsInternal(functions: Functions, name: string) {
    name in functions && functions[name].isInternal
  }

  lemma CoverNone(before: Functions, handler: Handler, multibyte: bool)
    ensures ReachAll(multibyte, {}) == {} && Cover(before, handler, {}) == Hooked(before, map[])
  {
  }

  lemma CoverLayer(before: Functions, wraps: Handler -> bool, handler: Handler, targets: set<string>)
    requires wraps(handler)
    ensures IsLayer(before, wraps, Cover(before, handler, targets))
  {
  }

  // ---- a load on functions that are not hooked ----

  function Names(requests: seq<Request>): set<string> {
    set i | 0 <= i < |requests| :: requests[i].name
  }

  predicate AreWrappers(requests: seq<Request>) {
    forall i :: 0 <= i < |requests| ==> requests[i].handler.Wrapper?
  }

  function Install(original: Functions, multibyte: bool, wrappers: seq<Request>, disabled: set<string>,
                   blacklist: set<string>): Layers
  {
    var a := HookAll(Hooked(original, map[]), multibyte, wrappers);
    var b := Cover(a.functions, Disabled, ReachAll(multibyte, disabled));
    var c := Cover(b.functions, Blacklisted, ReachAll(multibyte, blacklist));
    Layers(c.functions, a.table, b.table, c.table)
  }

  // Neither of the two upper layers finds its own handler below.
  lemma InstallFree(original: Functions, multibyte: bool, wrappers: seq<Request>, disabled: set<string>)
    requires IsPlain(original) && AreWrappers(wrappers)
    ensures var a := HookAll(Hooked(original, map[]), multibyte, wrappers);
            IsFree(a.functions, Disabled) &&
            IsFree(Cover(a.functions, Disabled, ReachAll(multibyte, disabled)).functions, Blacklisted)
  {
    HookAllLayer(original, (h: Handler) => h.Wrapper?, Hooked(original, map[]), multibyte, wrappers);
  }

  // Wrapping changes handlers only.
  lemma SameFunctions(original: Functions, multibyte: bool, wrappers: seq<Request>)
    requires AreWrappers(wrappers)
    ensures var a := HookAll(Hooked(original, map[]), multibyte, wrappers).functions;
            a.Keys == original.Keys && forall name :: IsInternal(a, name) <==> IsInternal(original, name)
  {
    HookAllLayer(original, (h: Handler) => h.Wrapper?, Hooked(original, map[]), multibyte, wrappers);
  }

  /** Hooking internal wrappers, then disabled functions, then the blacklist gives three layers. */
  lemma InstallLayers(original: Functions, multibyte: bool, wrappers: seq<Request>, disabled: set<string>,
                      blacklist: set<string>)
    requires AreWrappers(wrappers)
    ensures AreLayers(original, Install(original, multibyte, wrappers, disabled, blacklist))
  {
    var a := HookAll(Hooked(original, map[]), multibyte, wrappers);
    var b := Cover(a.functions, Disabled, ReachAll(multibyte, disabled));
    var c := Cover(b.functions, Blacklisted, ReachAll(multibyte, blacklist));
    var wrapper, isDisabled, isBlacklisted :=
      (h: Handler) => h.Wrapper?, (h: Handler) => h.Disabled?, (h: Handler) => h.Blacklisted?;
    HookAllLayer(original, wrapper, Hooked(original, map[]), multibyte, wrappers);
    CoverLayer(a.functions, isDisabled, Disabled, ReachAll(multibyte, disabled));
    CoverLayer(b.functions, isBlacklisted, Blacklisted, ReachAll(multibyte, blacklist));
    UnhookLayer(original, wrapper, a);
    UnhookLayer(a.functions, isDisabled, b);
    UnhookLayer(b.functions, isBlacklisted, c);
  }

  // Functions that are not hooked have three empty layers.
  lemma PlainLayers(original: Functions)
    ensures AreLayers(original, Layers(original, map[], map[], map[]))
  {
  }

  // ---- what a call runs ----

  function Rank(h: Handler): nat {
    match h
    case Original(_) => 0
    case Wrapper(_) => 1
    case Disabled => 2
    case Blacklisted => 3
  }

  // The handler that was saved when this one was put over it. An internal wrapper looks it up under the
  // name of the function it was written for.
  function Below(l: Layers, name: string, h: Handler): Option<Handler> {
    match h
    case Original(_) => None
    case Wrapper(own) => if own in l.internal_ then Some(l.internal_[own]) else None
    case Disabled => if name in l.disabled then Some(l.disabled[name]) else None
    case Blacklisted => if name in l.blacklisted then Some(l.blacklisted[name]) else None
  }

  // The replacements that do all the work themselves: sp_setcookie and the two of src/sp_disable_xxe.c.
  predicate IsReplacement(h: Handler) {
    h.Wrapper? && h.name in {"setcookie", "libxml_disable_entity_loader", "libxml_set_external_entity_loader"}
  }

  // What a call runs. ends: whether a handler ends this call without continuing, because it drops it, or
  // rejects it, or has done the work by other means.
  function Run(l: Layers, ends: Handler -> bool, name: string, h: Handler): seq<Handler>
    decreases Rank(h)
  {
    var below := Below(l, name, h);
    if below.Some? && Rank(below.value) < Rank(h) && !ends(h) && !IsReplacement(h)
    then [h] + Run(l, ends, name, below.value) else [h]
  }

  // Up to the first handler that ends the call.
  function UpTo(ends: Handler -> bool, handlers: seq<Handler>): seq<Handler> {
    if handlers == [] then []
    else if ends(handlers[0]) || IsReplacement(handlers[0]) then [handlers[0]]
    else [handlers[0]] + UpTo(ends, handlers[1..])
  }

  // The wrappers of a function, the outermost first.
  function WrappersOf(l: Layers, name: string): seq<Handler>
    requires name in BelowDisabled(l)
  {
    (if name in l.blacklisted then [Blacklisted] else []) + (if name in l.disabled then [Disabled] else []) +
    (if name in l.internal_ then [BelowDisabled(l)[name].handler] else [])
  }

  // The function whose handler an internal wrapper continues with: not the one that is called when it was
  // hooked as the multibyte variant of another.
  function Innermost(l: Layers, name: string): string
    requires name in BelowDisabled(l)
  {
    var h := BelowDisabled(l)[name].handler;
    if name in l.internal_ && h.Wrapper? then h.name else name
  }

  /** A call runs the wrappers of its function from the outermost to the innermost, at most one of each kind,
      up to the first that ends it. It comes to an original handler exactly when none of them does. */
  lemma CallRuns(original: Functions, l: Layers, ends: Handler -> bool, name: string)
    requires AreLayers(original, l) && IsPlain(original) && name in l.functions
    requires name in BelowDisabled(l) && (name in l.internal_ ==> Innermost(l, name) in l.internal_)
    ensures var n, ws := Innermost(l, name), WrappersOf(l, name);
            n in original &&
            var run := Run(l, ends, name, l.functions[name].handler);
            && run == UpTo(ends, ws + [original[n].handler]) && run != []
            && (original[n].handler in run <==> forall h :: h in ws ==> !ends(h) && !IsReplacement(h))
  {
    CallHandlers(original, l, name);
    var f0, f1 := original[Innermost(l, name)].handler, BelowDisabled(l)[name].handler;
    RunLayers(l, ends, name, f0, f1, BelowBlacklisted(l)[name].handler, l.functions[name].handler);
    WrappersOnly(l, name);
    UpToEnd(ends, WrappersOf(l, name), f0);
  }

  lemma WrappersOnly(l: Layers, name: string)
    requires name in BelowDisabled(l) && (name in l.internal_ ==> BelowDisabled(l)[name].handler.Wrapper?)
    ensures forall h :: h in WrappersOf(l, name) ==> !h.Original?
  {
  }

  lemma CallHandlers(original: Functions, l: Layers, name: string)
    requires AreLayers(original, l) && IsPlain(original) && name in l.functions
    requires name in BelowDisabled(l) && (name in l.internal_ ==> Innermost(l, name) in l.internal_)
    ensures Innermost(l, name) in original && name in BelowBlacklisted(l)
    ensures var f0, f1 := original[Innermost(l, name)].handler, BelowDisabled(l)[name].handler;
            var f2, f3 := BelowBlacklisted(l)[name].handler, l.functions[name].handler;
            && f0.Original?
            && (if name in l.internal_ then f1.Wrapper? && f1.name in l.internal_ && l.internal_[f1.name] == f0
                else f1 == f0)
            && (if name in l.disabled then f2.Disabled? && l.disabled[name] == f1 else f2 == f1)
            && (if name in l.blacklisted then f3.Blacklisted? && l.blacklisted[name] == f2 else f3 == f2)
  {
    LayersAt(original, l, name);
    InternalsAt(original, l, Innermost(l, name));
  }

  lemma InternalsAt(original: Functions, l: Layers, name: string)
    requires AreLayers(original, l)
    ensures name in l.internal_ ==> name in original && l.internal_[name] == original[name].handler
  {
  }

  lemma {:induction false} UpToEnd(ends: Handler -> bool, ws: seq<Handler>, last: Handler)
    requires last.Original? && forall h :: h in ws ==> !h.Original?
    ensures UpTo(ends, ws + [last]) != []
    ensures last in UpTo(ends, ws + [last]) <==> forall h :: h in ws ==> !ends(h) && !IsReplacement(h)
  {
    if ws == [] {
      assert [last][1..] == [] && UpTo(ends, [last]) == [last] && ws + [last] == [last];
    } else {
      assert (ws + [last])[1..] == ws[1..] + [last];
      UpToEnd(ends, ws[1..], last);
      assert ws == [ws[0]] + ws[1..];
    }
  }

  lemma RunLayers(l: Layers, ends: Handler -> bool, name: string, f0: Handler, f1: Handler, f2: Handler, f3: Handler)
    requires f0.Original?
    requires if name in l.internal_ then f1.Wrapper? && f1.name in l.internal_ && l.internal_[f1.name] == f0
             else f1 == f0
    requires if name in l.disabled then f2.Disabled? && l.disabled[name] == f1 else f2 == f1
    requires if name in l.blacklisted then f3.Blacklisted? && l.blacklisted[name] == f2 else f3 == f2
    ensures Run(l, ends, name, f3) ==
            UpTo(ends, (if name in l.blacklisted then [Blacklisted] else []) +
                       (if name in l.disabled then [Disabled] else []) +
                       (if name in l.internal_ then [f1] else []) + [f0])
  {
    var a, b, c := if name in l.blacklisted then [Blacklisted] else [], if name in l.disabled then [Disabled] else [],
                   if name in l.internal_ then [f1] else [];
    assert [f0][1..] == [] && Run(l, ends, name, f0) == [f0] == UpTo(ends, [f0]);
    RunLayer(l, ends, name, f1, f0, name in l.internal_, [f0]);
    RunLayer(l, ends, name, f2, f1, name in l.disabled, c + [f0]);
    RunLayer(l, ends, name, f3, f2, name in l.blacklisted, b + (c + [f0]));
    Joined(a, b, c, [f0]);
  }

  // A handler that wraps another runs before it, and before all that it leads to.
  lemma RunLayer(l: Layers, ends: Handler -> bool, name: string, h: Handler, below: Handler, wrapped: bool,
                 rest: seq<Handler>)
    requires if wrapped then Below(l, name, h) == Some(below) && Rank(below) < Rank(h) else h == below
    requires Run(l, ends, name, below) == UpTo(ends, rest)
    ensures Run(l, ends, name, h) == UpTo(ends, (if wrapped then [h] else []) + rest)
  {
    if wrapped {
      assert ([h] + rest)[1..] == rest;
    } else {
      assert [] + rest == rest;
    }
  }

  lemma Joined<T>(a: seq<T>, b: seq<T>, c: seq<T>, d: seq<T>)
    ensures a + (b + (c + d)) == a + b + c + d
  {
  }

  // The handlers of one function, from layer to layer.
  lemma LayersAt(original: Functions, l: Layers, name: string)
    requires AreLayers(original, l) && name in l.functions
    ensures name in original && name in BelowDisabled(l) && name in BelowBlacklisted(l)
    ensures var f1, f2, f3 := BelowDisabled(l)[name], BelowBlacklisted(l)[name], l.functions[name];
            && (if name in l.internal_
                then f1.handler.Wrapper? && f1.isInternal && l.internal_[name] == original[name].handler
                else f1 == original[name])
            && (if name in l.disabled
                then f2.handler.Disabled? && f2.isInternal && l.disabled[name] == f1.handler else f2 == f1)
            && (if name in l.blacklisted
                then f3.handler.Blacklisted? && f3.isInternal && l.blacklisted[name] == f2.handler else f3 == f2)
            && original[name].isInternal == f1.isInternal == f2.isInternal == f3.isInternal
  {
    assert original.Keys == BelowDisabled(l).Keys == BelowBlacklisted(l).Keys == l.functions.Keys;
  }

  // ---- undoing in hooking order ----

  function ForwardUnhooked(l: Layers): Functions {
    Unhook(Unhook(Unhook(l.functions, l.internal_), l.disabled), l.blacklisted)
  }

  predicate WrappedTwice(l: Layers, name: string) {
    || (name in l.internal_ && name in l.disabled)
    || (name in l.internal_ && name in l.blacklisted)
    || (name in l.disabled && name in l.blacklisted)
  }

  predicate AreDisjoint(l: Layers) {
    && l.internal_.Keys !! l.disabled.Keys && l.internal_.Keys !! l.blacklisted.Keys
    && l.disabled.Keys !! l.blacklisted.Keys
  }

  lemma DisjointTables(original: Functions, l: Layers)
    requires AreLayers(original, l)
    ensures AreDisjoint(l) <==> forall name :: name in l.functions ==> !WrappedTwice(l, name)
  {
    TablesWithin(original, l);
    if forall name :: name in l.functions ==> !WrappedTwice(l, name) {
      forall name | name in l.internal_ || name in l.disabled || name in l.blacklisted
        ensures !WrappedTwice(l, name)
      {
        assert name in l.functions;
      }
    }
  }

  lemma ForwardRestoresAt(original: Functions, l: Layers, name: string)
    requires AreLayers(original, l) && IsPlain(original) && name in l.functions
    ensures name in original && name in ForwardUnhooked(l)
    ensures ForwardUnhooked(l)[name] == original[name] <==> !WrappedTwice(l, name)
  {
    LayersAt(original, l, name);
    ForwardAt(l, name);
  }

  /** Unhooking in hooking order, as the module shutdown does, restores the original handlers exactly
      when no function is wrapped twice. */
  lemma ForwardRestores(original: Functions, l: Layers)
    requires AreLayers(original, l) && IsPlain(original)
    ensures ForwardUnhooked(l) == original <==> AreDisjoint(l)
  {
    DisjointTables(original, l);
    assert ForwardUnhooked(l).Keys == l.functions.Keys == original.Keys by {
      assert original == Restored(l);
    }
    forall name | name in l.functions
      ensures name in original && name in ForwardUnhooked(l)
      ensures ForwardUnhooked(l)[name] == original[name] <==> !WrappedTwice(l, name)
    {
      ForwardRestoresAt(original, l, name);
    }
  }

  lemma TablesWithin(original: Functions, l: Layers)
    requires AreLayers(original, l)
    ensures l.internal_.Keys <= l.functions.Keys && l.disabled.Keys <= l.functions.Keys
    ensures l.blacklisted.Keys <= l.functions.Keys
  {
    assert original.Keys == BelowDisabled(l).Keys == BelowBlacklisted(l).Keys == l.functions.Keys;
  }

  lemma ForwardAt(l: Layers, name: string)
    requires name in l.functions
    ensures var f := l.functions[name];
            name in ForwardUnhooked(l) && ForwardUnhooked(l)[name] ==
            if !f.isInternal then f
            else if name in l.blacklisted then f.(handler := l.blacklisted[name])
            else if name in l.disabled then f.(handler := l.disabled[name])
            else if name in l.internal_ then f.(handler := l.internal_[name])
            else f
  {
  }

  // ---- when functions are wrapped twice ----

  function Internals(original: Functions, targets: set<string>): set<string> {
    set name | name in targets && IsInternal(original, name)
  }

  lemma InternalsSum(original: Functions, a: set<string>, b: set<string>)
    ensures Internals(original, a + b) == Internals(original, a) + Internals(original, b)
  {
  }

  // The internal functions that these names reach.
  function Hookable(original: Functions, multibyte: bool, names: set<string>): set<string> {
    Internals(original, ReachAll(multibyte, names))
  }

  predicate IsWrapped(original: Functions, h: Hooked) {
    && IsPlain(original)
    && IsLayer(original, (x: Handler) => x.Wrapper?, h)
  }

  function IfInternal(original: Functions, name: string): set<string> {
    if IsInternal(original, name) then {name} else {}
  }

  lemma HookOneKeys(original: Functions, h: Hooked, r: Request)
    requires IsWrapped(original, h) && r.handler.Wrapper?
    ensures IsWrapped(original, HookOne(h, r))
    ensures HookOne(h, r).table.Keys == h.table.Keys + IfInternal(original, r.name)
  {
    HookOneLayer(original, (x: Handler) => x.Wrapper?, h, r);
    if IsInternal(original, r.name) && r.name !in h.table {
      assert h.functions[r.name] == original[r.name];
    }
  }

  lemma HookableOne(original: Functions, multibyte: bool, name: string)
    ensures var v := Variant(multibyte, name);
            Hookable(original, multibyte, {name}) ==
            IfInternal(original, name) + if v.Some? then IfInternal(original, v.value) else {}
  {
    assert ReachAll(multibyte, {name}) == Reach(multibyte, name);
  }

  lemma HookBothKeys(original: Functions, h: Hooked, multibyte: bool, r: Request)
    requires IsWrapped(original, h) && r.handler.Wrapper?
    ensures IsWrapped(original, HookBoth(h, multibyte, r))
    ensures HookBoth(h, multibyte, r).table.Keys == h.table.Keys + Hookable(original, multibyte, {r.name})
  {
    HookableOne(original, multibyte, r.name);
    HookOneKeys(original, h, r);
    var v := Variant(multibyte, r.name);
    if v.Some? {
      HookOneKeys(original, HookOne(h, r), r.(name := v.value));
    }
  }

  lemma HookableMore(original: Functions, multibyte: bool, names: set<string>, name: string)
    ensures Hookable(original, multibyte, names + {name}) ==
            Hookable(original, multibyte, names) + Hookable(original, multibyte, {name})
  {
    ReachMore(multibyte, names, name);
    assert ReachAll(multibyte, {name}) == Reach(multibyte, name);
    InternalsSum(original, ReachAll(multibyte, names), Reach(multibyte, name));
  }

  lemma {:induction false} HookAllKeys(original: Functions, h: Hooked, multibyte: bool, requests: seq<Request>)
    requires IsWrapped(original, h) && AreWrappers(requests)
    ensures HookAll(h, multibyte, requests).table.Keys ==
            h.table.Keys + Hookable(original, multibyte, Names(requests))
    decreases |requests|
  {
    if requests == [] {
      assert Hookable(original, multibyte, Names(requests)) == {};
    } else {
      var r := requests[0];
      HookBothKeys(original, h, multibyte, r);
      HookAllKeys(original, HookBoth(h, multibyte, r), multibyte, requests[1..]);
      NamesOf(requests);
      HookableMore(original, multibyte, Names(requests[1..]), r.name);
    }
  }

  lemma NamesOf(requests: seq<Request>)
    requires requests != []
    ensures Names(requests) == Names(requests[1..]) + {requests[0].name}
  {
    forall name | name in Names(requests) ensures name in Names(requests[1..]) + {requests[0].name} {
      var i :| 0 <= i < |requests| && requests[i].name == name;
      assert i > 0 ==> requests[1..][i - 1] == requests[i];
    }
  }

  /** The tables hold exactly the internal functions that the configuration names. */
  lemma InstallKeys(original: Functions, multibyte: bool, wrappers: seq<Request>, disabled: set<string>,
                    blacklist: set<string>)
    requires IsPlain(original) && AreWrappers(wrappers)
    ensures var l := Install(original, multibyte, wrappers, disabled, blacklist);
            && l.internal_.Keys == Hookable(original, multibyte, Names(wrappers))
            && l.disabled.Keys == Hookable(original, multibyte, disabled)
            && l.blacklisted.Keys == Hookable(original, multibyte, blacklist)
  {
    HookAllKeys(original, Hooked(original, map[]), multibyte, wrappers);
    HookAllLayer(original, (h: Handler) => h.Wrapper?, Hooked(original, map[]), multibyte, wrappers);
  }

  /** Unhooking in hooking order restores the original handlers exactly when no internal function is
      reached from two of: the internal wrappers, the rules and the blacklist. */
  lemma ForwardRestoresInstalled(original: Functions, multibyte: bool, wrappers: seq<Request>, disabled: set<string>,
                                 blacklist: set<string>)
    requires IsPlain(original) && AreWrappers(wrappers)
    ensures var a := Hookable(original, multibyte, Names(wrappers));
            var b, c := Hookable(original, multibyte, disabled), Hookable(original, multibyte, blacklist);
            ForwardUnhooked(Install(original, multibyte, wrappers, disabled, blacklist)) == original <==>
            a !! b && a !! c && b !! c
  {
    InstallLayers(original, multibyte, wrappers, disabled, blacklist);
    InstallKeys(original, multibyte, wrappers, disabled, blacklist);
    ForwardRestores(original, Install(original, multibyte, wrappers, disabled, blacklist));
  }
}
