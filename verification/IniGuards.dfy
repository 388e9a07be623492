/** The guards of ini settings: src/sp_ini.c replaces the handlers that accept new values, and puts them
    back. */
module IniGuards {
  import opened Wrappers

  // Nothing is a setting without a handler; Checked is sp_ini_onmodify.
  datatype OnModify = Nothing | Own(id: nat) | Checked

  // saved: the handler kept in the rule about the setting while it is replaced.
  datatype Setting = Setting(onModify: OnModify, value: string, saved: OnModify)

  type Settings = map<string, Setting>

  datatype Access = Unset | ReadOnly | ReadWrite

  // hasChecks: the rule has a minimum, a maximum or a regular expression.
  datatype IniEntry = IniEntry(hasChecks: bool, access: Access, preset: Option<string>)

  // A rule guards its setting when there is anything to check, under this policy for all settings.
  predicate Guards(readOnly: bool, entry: IniEntry) {
    entry.hasChecks || entry.access.ReadOnly? || (entry.access.Unset? && readOnly)
  }

  // Whether the setting's own handler takes the value that the rule presets.
  predicate Presets(accepts: (string, string) -> bool, name: string, own: OnModify, entry: IniEntry) {
    entry.preset.Some? && (own == Nothing || accepts(name, entry.preset.value))
  }

  // sp_hook_ini for one setting.
  function Guard(accepts: (string, string) -> bool, readOnly: bool, name: string, s: Setting, entry: IniEntry)
    : Setting
  {
    var hooked := if Guards(readOnly, entry) then s.(onModify := Checked, saved := s.onModify) else s;
    if Presets(accepts, name, s.onModify, entry) then hooked.(value := entry.preset.value) else hooked
  }

  function Guarded(accepts: (string, string) -> bool, readOnly: bool, settings: Settings,
                   entries: map<string, IniEntry>, names: set<string>): Settings
  {
    map name | name in settings ::
      if name in entries && name in names then Guard(accepts, readOnly, name, settings[name], entries[name])
      else settings[name]
  }

  lemma GuardNext(accepts: (string, string) -> bool, readOnly: bool, settings: Settings,
                  entries: map<string, IniEntry>, names: set<string>, name: string)
    requires name in entries && name !in names
    ensures var now := Guarded(accepts, readOnly, settings, entries, names);
            Guarded(accepts, readOnly, settings, entries, names + {name}) ==
            if name in now then now[name := Guard(accepts, readOnly, name, now[name], entries[name])] else now
  {
  }

  /** A setting is guarded by a rule that checks values or forbids to write; by a rule that says nothing about
      writing, under the policy that settings are read-only; and by no other. */
  lemma GuardedIff(accepts: (string, string) -> bool, readOnly: bool, settings: Settings,
                   entries: map<string, IniEntry>, name: string)
    requires name in settings && settings[name].onModify != Checked
    ensures var now := Guarded(accepts, readOnly, settings, entries, entries.Keys);
            name in now &&
            (now[name].onModify == Checked <==>
             name in entries && (entries[name].hasChecks || match entries[name].access
                                                           case Unset => readOnly
                                                           case ReadOnly => true
                                                           case ReadWrite => false))
    ensures var now := Guarded(accepts, readOnly, settings, entries, entries.Keys);
            now[name].value ==
            if name in entries && entries[name].preset.Some? &&
               (settings[name].onModify == Nothing || accepts(name, entries[name].preset.value))
            then entries[name].preset.value else settings[name].value
  {
  }

  // sp_unhook_ini for one setting.
  function Unguard(s: Setting): Setting {
    s.(onModify := if s.onModify == Checked then s.saved else s.onModify, saved := Nothing)
  }

  function Unguarded(settings: Settings, names: set<string>): Settings {
    map name | name in settings :: if name in names then Unguard(settings[name]) else settings[name]
  }

  lemma UnguardNext(settings: Settings, names: set<string>, name: string)
    requires name !in names
    ensures var now := Unguarded(settings, names);
            Unguarded(settings, names + {name}) == if name in now then now[name := Unguard(now[name])] else now
  {
  }

  // The same settings with the same handlers, none of them replaced.
  predicate SameHandlers(own: map<string, OnModify>, settings: Settings) {
    && settings.Keys == own.Keys
    && forall name :: name in settings ==>
         settings[name].onModify == own[name] && own[name] != Checked && settings[name].saved == Nothing
  }

  lemma UnguardSame(own: map<string, OnModify>, settings: Settings, names: set<string>)
    requires SameHandlers(own, settings)
    ensures SameHandlers(own, Unguarded(settings, names))
  {
  }

  /** Unhooking gives every setting its own handler back. */
  lemma UnguardRestores(accepts: (string, string) -> bool, readOnly: bool, own: map<string, OnModify>,
                        settings: Settings, entries: map<string, IniEntry>)
    requires SameHandlers(own, settings)
    ensures var now := Guarded(accepts, readOnly, settings, entries, entries.Keys);
            SameHandlers(own, Unguarded(now, entries.Keys))
  {
  }
}
