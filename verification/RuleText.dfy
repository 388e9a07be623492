/** Rules as text, in src/sp_config_scanner.re: printing a parsed rule, scanning it back, and the
    unescaping of a string argument. */
module RuleText {
  import ConfigScanner

  // Unknown is the value an argument has before the scanner decides; no scanned rule holds it.
  datatype Arg = Unknown | NoArg | EmptyArg | Str(text: string)

  datatype Keyword = Keyword(name: string, arg: Arg)

  // ---- printing ----

  function ArgText(arg: Arg): string {
    match arg
    case Unknown => "()"
    case NoArg => ""
    case EmptyArg => "()"
    case Str(text) => "(\"" + text + "\")"
  }

  function ItemText(k: Keyword): string {
    "." + k.name + ArgText(k.arg)
  }

  // The keywords, and the semicolon.
  function ItemsText(rule: seq<Keyword>): string {
    if rule == [] then ";" else ItemText(rule[0]) + ItemsText(rule[1..])
  }

  function Print(rule: seq<Keyword>): string {
    "sp" + ItemsText(rule)
  }

  // What a keyword adds to the length computed before allocation.
  function ItemLength(k: Keyword): nat {
    1 + |k.name| +
    match k.arg
    case EmptyArg => 2
    case Str(text) => 4 + |text|
    case _ => 0
  }

  function PrintLength(rule: seq<Keyword>): nat {
    if rule == [] then 3 else ItemLength(rule[0]) + PrintLength(rule[1..])
  }

  predicate Known(rule: seq<Keyword>) {
    forall i :: 0 <= i < |rule| ==> rule[i].arg != Unknown
  }

  /** The length computed first is the length written, as long as no argument is Unknown. */
  lemma {:induction false} LengthExact(rule: seq<Keyword>)
    ensures PrintLength(rule) <= |Print(rule)|
    ensures PrintLength(rule) == |Print(rule)| <==> Known(rule)
  {
    if rule == [] {
    } else {
      LengthExact(rule[1..]);
      assert Known(rule) <==> rule[0].arg != Unknown && Known(rule[1..]) by {
        if rule[0].arg != Unknown && Known(rule[1..]) {
          assert forall i :: 1 <= i < |rule| ==> rule[i] == rule[1..][i - 1];
        }
      }
    }
  }

  method Copy(ret: array<char>, p: nat, s: string)
    requires p + |s| <= ret.Length
    modifies ret
    ensures ret[..p + |s|] == old(ret[..p]) + s
  {
    var i := 0;
    while i < |s|
      invariant 0 <= i <= |s|
      invariant ret[..p + i] == old(ret[..p]) + s[..i]
    {
      ret[p + i] := s[i];
      i := i + 1;
    }
  }

  method ComputeLength(rule: seq<Keyword>) returns (len: nat)
    ensures len == PrintLength(rule)
  {
    len := 3;
    var i := 0;
    assert rule[0..] == rule;
    while i < |rule|
      invariant 0 <= i <= |rule|
      invariant len + PrintLength(rule[i..]) == 3 + PrintLength(rule)
    {
      assert rule[i..][0] == rule[i] && rule[i..][1..] == rule[i + 1..];
      len := len + 1;
      len := len + |rule[i].name|;
      if rule[i].arg.EmptyArg? {
        len := len + 2;
      } else if rule[i].arg.Str? {
        len := len + 2;
        len := len + |rule[i].arg.text|;
        len := len + 2;
      }
      i := i + 1;
    }
  }

  /** The buffer has the size computed beforehand, and holds the printed rule and a final NUL. */
  method TextualRepresentation(rule: seq<Keyword>) returns (ret: array<char>)
    requires Known(rule)
    ensures ret[..] == Print(rule) + ['\0']
  {
    var len := ComputeLength(rule);
    LengthExact(rule);
    ret := new char[len + 1];
    Copy(ret, 0, "sp");
    WriteItems(ret, 2, rule);
    Put(ret, len, '\0');
    assert ret[..] == ret[..len + 1];
  }

  lemma ItemsFrom(done: string, rule: seq<Keyword>, i: nat)
    requires i < |rule|
    ensures done + ItemsText(rule[i..]) == done + ItemText(rule[i]) + ItemsText(rule[i + 1..])
    ensures |ItemsText(rule[i..])| > |ItemText(rule[i])|
  {
    assert rule[i..][0] == rule[i] && rule[i..][1..] == rule[i + 1..];
  }

  method WriteItems(ret: array<char>, start: nat, rule: seq<Keyword>)
    requires start + |ItemsText(rule)| <= ret.Length
    modifies ret
    ensures ret[..start + |ItemsText(rule)|] == old(ret[..start]) + ItemsText(rule)
  {
    ghost var whole := ret[..start] + ItemsText(rule);
    var p: nat, i: nat := start, 0;
    assert rule[0..] == rule;
    while i < |rule|
      invariant 0 <= i <= |rule| && p < ret.Length
      invariant ret[..p] + ItemsText(rule[i..]) == whole
    {
      ghost var done := ret[..p];
      ItemsFrom(done, rule, i);
      assert p + |ItemsText(rule[i..])| == |whole|;
      WriteItem(ret, p, rule[i]);
      p := p + |ItemText(rule[i])|;
      assert ret[..p] == done + ItemText(rule[i]);
      i := i + 1;
    }
    assert rule[i..] == [];
    Put(ret, p, ';');
  }

  method Put(ret: array<char>, p: nat, c: char)
    requires p < ret.Length
    modifies ret
    ensures ret[..p + 1] == old(ret[..p]) + [c]
    ensures forall i :: 0 <= i < ret.Length && i != p ==> ret[i] == old(ret[i])
  {
    ret[p] := c;
  }

  method WriteItem(ret: array<char>, start: nat, k: Keyword)
    requires start + |ItemText(k)| <= ret.Length
    modifies ret
    ensures ret[..start + |ItemText(k)|] == old(ret[..start]) + ItemText(k)
  {
    ghost var before := ret[..start];
    Put(ret, start, '.');
    Copy(ret, start + 1, k.name);
    var p := start + 1 + |k.name|;
    assert ret[..p] == before + ("." + k.name);
    WriteArg(ret, p, k.arg);
  }

  method WriteArg(ret: array<char>, start: nat, arg: Arg)
    requires start + |ArgText(arg)| <= ret.Length
    modifies ret
    ensures ret[..start + |ArgText(arg)|] == old(ret[..start]) + ArgText(arg)
  {
    ArgParts(ret[..start], arg);
    var p := start;
    var hasParens := arg.EmptyArg? || arg.Str? || arg.Unknown?;
    if hasParens {
      Put(ret, p, '(');
      p := p + 1;
    }
    if arg.Str? {
      WriteQuoted(ret, p, arg.text);
      p := p + |arg.text| + 2;
    }
    if hasParens {
      Put(ret, p, ')');
      p := p + 1;
    }
  }

  lemma ArgParts(before: string, arg: Arg)
    ensures before + ArgText(arg) ==
            match arg
            case NoArg => before
            case Str(text) => before + ['('] + ("\"" + text + "\"") + [')']
            case _ => before + ['('] + [')']
  {
    if arg.Str? {
      assert ArgText(arg) == ['('] + ("\"" + arg.text + "\"") + [')'];
    } else if !arg.NoArg? {
      assert ArgText(arg) == ['('] + [')'];
    }
  }

  method WriteQuoted(ret: array<char>, start: nat, text: string)
    requires start + |text| + 2 <= ret.Length
    modifies ret
    ensures ret[..start + |text| + 2] == old(ret[..start]) + ("\"" + text + "\"")
  {
    ghost var before := ret[..start];
    Put(ret, start, '"');
    Copy(ret, start + 1, text);
    Put(ret, start + 1 + |text|, '"');
    assert ret[..start + |text| + 2] == before + "\"" + text + "\"";
  }

  // ---- unescaping ----

  // A backslash keeps the character after it; at the very end it keeps the terminating NUL.
  function Unescape(s: string): string {
    if s == [] then []
    else if s[0] != '\\' then [s[0]] + Unescape(s[1..])
    else if |s| == 1 then ['\0']
    else [s[1]] + Unescape(s[2..])
  }

  // Backslashes before backslashes and quotes.
  function Escape(s: string): string {
    if s == [] then []
    else if s[0] == '\\' || s[0] == '"' then ['\\', s[0]] + Escape(s[1..])
    else [s[0]] + Escape(s[1..])
  }

  lemma {:induction false} UnescapeEscape(s: string)
    ensures Unescape(Escape(s)) == s
  {
    if s == [] {
    } else {
      UnescapeEscape(s[1..]);
      var e := Escape(s);
      if s[0] == '\\' || s[0] == '"' {
        assert e[0] == '\\' && e[1] == s[0] && e[2..] == Escape(s[1..]);
      } else {
        assert e[0] == s[0] && e[1..] == Escape(s[1..]);
      }
      assert [s[0]] + s[1..] == s;
    }
  }

  // What is still to be unescaped at i; nothing once the final NUL has been kept.
  function Remaining(s: string, i: nat): string {
    if i < |s| then Unescape(s[i..]) else []
  }

  lemma UnescapeStep(s: string, i: nat)
    requires i < |s|
    ensures var n := if s[i] == '\\' then i + 1 else i;
            Remaining(s, i) == [if n < |s| then s[n] else '\0'] + Remaining(s, n + 1)
  {
    assert s[i..][1..] == s[i + 1..];
    if i + 1 < |s| {
      assert s[i..][2..] == s[i + 2..];
    } else {
      assert s[i..] == [s[i]] && Unescape([s[i]]) == [if s[i] == '\\' then '\0' else s[i]];
    }
  }

  lemma KeepOne(done: string, c: char, rest: string, all: string)
    requires done + ([c] + rest) == all
    ensures done + [c] + rest == all
  {
    assert done + [c] + rest == done + ([c] + rest);
  }

  // One turn of the loop: the kept character moves from pin, or from behind a backslash, to pout.
  method CompactOne(buffer: array<char>, pin: nat, pout: nat, ghost arg: string) returns (next: nat)
    requires pout <= pin < |arg| && buffer.Length == |arg| + 1 && buffer[|arg|] == '\0'
    requires forall j :: pin <= j < |arg| ==> buffer[j] == arg[j]
    requires buffer[..pout] + Remaining(arg, pin) == Unescape(arg)
    modifies buffer
    ensures pin < next <= |arg| + 1 && pout < next && buffer[|arg|] == '\0'
    ensures forall j :: next <= j < |arg| ==> buffer[j] == arg[j]
    ensures buffer[..pout + 1] + Remaining(arg, next) == Unescape(arg)
  {
    UnescapeStep(arg, pin);
    ghost var done := buffer[..pout];
    var from := pin;
    if buffer[from] == '\\' {
      from := from + 1;
    }
    KeepOne(done, buffer[from], Remaining(arg, from + 1), Unescape(arg));
    Put(buffer, pout, buffer[from]);
    next := from + 1;
  }

  /** The copy is compacted in place: the writing position never passes the reading position. The
      buffer holds the argument and its NUL. */
  method CompactInPlace(buffer: array<char>) returns (len: nat)
    requires buffer.Length > 0 && buffer[buffer.Length - 1] == '\0'
    modifies buffer
    ensures len < buffer.Length && buffer[len] == '\0'
    ensures buffer[..len] == Unescape(old(buffer[..buffer.Length - 1]))
  {
    ghost var arg := buffer[..buffer.Length - 1];
    var pin, pout := 0, 0;
    var pend := buffer.Length - 1;
    assert arg[0..] == arg;
    while pin < pend
      invariant pout <= pin <= pend + 1 && pout <= pend && buffer[pend] == '\0'
      invariant forall j :: pin <= j < pend ==> buffer[j] == arg[j]
      invariant buffer[..pout] + Remaining(arg, pin) == Unescape(arg)
      decreases pend - pin
    {
      pin := CompactOne(buffer, pin, pout, arg);
      pout := pout + 1;
    }
    len := pout;
    if pin != pout {
      buffer[len] := '\0';
    }
  }

  // ---- scanning ----

  predicate IsLetter(c: char) {
    'a' <= c <= 'z' || 'A' <= c <= 'Z'
  }

  predicate IsWord(c: char) {
    IsLetter(c) || '0' <= c <= '9' || c == '_'
  }

  // [a-zA-Z][a-zA-Z0-9_]*
  predicate IsName(s: string) {
    s != [] && IsLetter(s[0]) && forall i :: 0 <= i < |s| ==> IsWord(s[i])
  }

  // ("\\"["] | [^"\r\n\x00])*
  predicate IsBody(s: string) {
    if s == [] then true
    else if s[0] == '\\' && |s| > 1 && s[1] == '"' then IsBody(s[2..])
    else s[0] !in {'"', '\r', '\n', '\0'} && IsBody(s[1..])
  }

  predicate IsQuoted(s: string) {
    |s| >= 2 && s[0] == '"' && s[|s| - 1] == '"' && IsBody(s[1..|s| - 1])
  }

  // Where the word characters at i end.
  function WordEnd(s: string, i: nat): (e: nat)
    requires i <= |s|
    ensures i <= e <= |s| && (forall j :: i <= j < e ==> IsWord(s[j])) && (e < |s| ==> !IsWord(s[e]))
    decreases |s| - i
  {
    if i < |s| && IsWord(s[i]) then WordEnd(s, i + 1) else i
  }

  // "." keyword ( "(" ( string? | keyword ) ")" )?
  predicate IsItem(s: string) {
    && |s| >= 2 && s[0] == '.' && IsLetter(s[1])
    && var e := WordEnd(s, 1);
       s[e..] == [] || IsGroup(s[e..])
  }

  predicate IsGroup(s: string) {
    && |s| >= 2 && s[0] == '(' && s[|s| - 1] == ')'
    && var inner := s[1..|s| - 1];
       inner == [] || IsQuoted(inner) || IsName(inner)
  }

  // The longest match at the beginning of s, of at most n characters; 0 for none.
  function Longest(s: string, n: nat): (m: nat)
    requires n <= |s|
    ensures m <= n && (m > 0 ==> IsItem(s[..m]))
  {
    if n == 0 || IsItem(s[..n]) then n else Longest(s, n - 1)
  }

  datatype Scanned = Parsed(rule: seq<Keyword>) | Rejected

  // The keyword for a matched item.
  function ItemOf(vars: map<string, string>, item: string): (r: Scanned)
    requires IsItem(item)
    ensures r.Parsed? ==> |r.rule| == 1
  {
    var e := WordEnd(item, 1);
    if e == |item| then Parsed([Keyword(item[1..e], NoArg)])
    else WithArgument(vars, item[1..e], item[e..])
  }

  // The argument between the parentheses; a name stands for a variable.
  function WithArgument(vars: map<string, string>, name: string, group: string): (r: Scanned)
    requires IsGroup(group)
    ensures r.Parsed? ==> |r.rule| == 1
  {
    var inner := group[1..|group| - 1];
    if !IsAscii(inner) then Rejected
    else if inner == [] then Parsed([Keyword(name, EmptyArg)])
    else if inner[0] == '"' then Parsed([Keyword(name, Str(inner[1..|inner| - 1]))])
    else if inner in vars then Parsed([Keyword(name, Str(vars[inner]))])
    else Rejected
  }

  predicate IsAscii(s: string) {
    forall i :: 0 <= i < |s| ==> s[i] < 128 as char
  }

  // A line break continues the rule only if a dot follows the blank space.
  predicate DotFollows(s: string) {
    s != [] && (s[0] == '.' || (s[0] in {' ', '\t', '\n'} && DotFollows(s[1..])) ||
                (s[0] == '\r' && |s| > 1 && s[1] == '\n' && DotFollows(s[2..])))
  }

  // From after `sp` to the end of the rule; room is what is left of the keyword buffer.
  function ScanItems(vars: map<string, string>, room: nat, s: string): Scanned
    decreases |s|
  {
    if s == [] then Parsed([])
    else if s[0] in {' ', '\t'} then ScanItems(vars, room, s[1..])
    else if s[0] == '\n' && DotFollows(s[1..]) then ScanItems(vars, room, s[1..])
    else if s[0] == '\r' && |s| > 1 && s[1] == '\n' && DotFollows(s[2..]) then ScanItems(vars, room, s[2..])
    else if s[0] >= 128 as char then Rejected
    else
      var n := Longest(s, |s|);
      if n == 0 then Parsed([])
      else if room == 0 then Rejected
      else
        var first := ItemOf(vars, s[..n]);
        if first.Rejected? then Rejected
        else
          match ScanItems(vars, room - 1, s[n..])
          case Rejected => Rejected
          case Parsed(rest) => Parsed(first.rule + rest)
  }

  function ScanRule(vars: map<string, string>, s: string): Scanned {
    if |s| >= 2 && s[..2] == "sp" then ScanItems(vars, ConfigScanner.MAX_KEYWORDS, s[2..]) else Rejected
  }

  // ---- what the scanner builds ----

  predicate WellFormed(k: Keyword) {
    IsName(k.name) && k.arg != Unknown && (k.arg.Str? ==> IsBody(k.arg.text))
  }

  predicate AllWellFormed(rule: seq<Keyword>) {
    forall i :: 0 <= i < |rule| ==> WellFormed(rule[i])
  }

  lemma BothWellFormed(first: seq<Keyword>, rest: seq<Keyword>)
    requires |first| == 1 && WellFormed(first[0]) && AllWellFormed(rest)
    ensures AllWellFormed(first + rest)
  {
  }

  lemma ItemIsWellFormed(vars: map<string, string>, item: string)
    requires IsItem(item) && forall v :: v in vars ==> IsBody(vars[v])
    ensures var r := ItemOf(vars, item); r.Parsed? ==> WellFormed(r.rule[0])
  {
    var e := WordEnd(item, 1);
    assert e > 1 && IsName(item[1..e]);
  }

  /** Every rule that is scanned is well formed and fits the keyword buffer. */
  lemma {:induction false} ScannedIsWellFormed(vars: map<string, string>, room: nat, s: string)
    requires forall v :: v in vars ==> IsBody(vars[v])
    ensures var r := ScanItems(vars, room, s); r.Parsed? ==> AllWellFormed(r.rule) && |r.rule| <= room
    decreases |s|, 1
  {
    if s == [] {
    } else if s[0] in {' ', '\t'} || (s[0] == '\n' && DotFollows(s[1..])) {
      ScannedIsWellFormed(vars, room, s[1..]);
    } else if s[0] == '\r' && |s| > 1 && s[1] == '\n' && DotFollows(s[2..]) {
      ScannedIsWellFormed(vars, room, s[2..]);
    } else {
      var n := Longest(s, |s|);
      if s[0] < 128 as char && n > 0 && room > 0 {
        FirstIsWellFormed(vars, room, s, n);
      }
    }
  }

  lemma {:induction false} FirstIsWellFormed(vars: map<string, string>, room: nat, s: string, n: nat)
    requires forall v :: v in vars ==> IsBody(vars[v])
    requires 0 < n <= |s| && IsItem(s[..n]) && room > 0
    ensures var first, rest := ItemOf(vars, s[..n]), ScanItems(vars, room - 1, s[n..]);
            first.Parsed? && rest.Parsed? ==>
              AllWellFormed(first.rule + rest.rule) && |first.rule + rest.rule| <= room
    decreases |s|, 0
  {
    ScannedIsWellFormed(vars, room - 1, s[n..]);
    ItemIsWellFormed(vars, s[..n]);
    var first, rest := ItemOf(vars, s[..n]), ScanItems(vars, room - 1, s[n..]);
    if first.Parsed? && rest.Parsed? {
      BothWellFormed(first.rule, rest.rule);
    }
  }

  // ---- the body of a string ----

  predicate IsClean(s: string) {
    forall i :: 0 <= i < |s| ==> IsCleanAt(s, i)
  }

  predicate IsCleanAt(s: string, i: nat)
    requires i < |s|
  {
    s[i] !in {'\r', '\n', '\0'} && (s[i] == '"' ==> i > 0 && s[i - 1] == '\\')
  }

  /** A string body is text without control characters in which every quote follows a backslash. */
  lemma {:induction false} BodyIsClean(s: string)
    ensures IsBody(s) <==> IsClean(s)
  {
    if s == [] {
    } else if s[0] == '\\' && |s| > 1 && s[1] == '"' {
      BodyIsClean(s[2..]);
      CleanTail(s, 2);
      assert IsCleanAt(s, 0) && IsCleanAt(s, 1);
    } else {
      BodyIsClean(s[1..]);
      CleanTail(s, 1);
      assert IsCleanAt(s, 0) <==> s[0] !in {'"', '\r', '\n', '\0'};
    }
  }

  // Nothing but a backslash before a quote passes from the first n characters to the rest.
  lemma CleanTail(s: string, n: nat)
    requires 0 < n <= |s| && (n < |s| && s[n] == '"' ==> s[n - 1] != '\\')
    ensures IsClean(s) <==> (forall i :: 0 <= i < n ==> IsCleanAt(s, i)) && IsClean(s[n..])
  {
    forall i | n <= i < |s| ensures IsCleanAt(s, i) <==> IsCleanAt(s[n..], i - n) {
      assert s[i] == s[n..][i - n] && (i > n ==> s[i - 1] == s[n..][i - n - 1]);
    }
    if IsClean(s) {
      forall i | 0 <= i < |s| - n ensures IsCleanAt(s[n..], i) {
        assert IsCleanAt(s, i + n);
      }
    }
  }

  // ---- the longest match ----

  lemma {:induction false} WordEndIs(s: string, i: nat, e: nat)
    requires i <= e <= |s| && (forall j :: i <= j < e ==> IsWord(s[j])) && (e < |s| ==> !IsWord(s[e]))
    ensures WordEnd(s, i) == e
    decreases e - i
  {
    if i < e {
      WordEndIs(s, i + 1, e);
    }
  }

  lemma {:induction false} LongestAtLeast(s: string, n: nat, k: nat)
    requires k <= n <= |s| && IsItem(s[..k])
    ensures k <= Longest(s, n)
  {
    if !IsItem(s[..n]) {
      LongestAtLeast(s, n - 1, k);
    }
  }

  lemma {:induction false} LongestIs(s: string, n: nat, m: nat)
    requires m <= n <= |s| && IsItem(s[..m]) && forall k :: m < k <= n ==> !IsItem(s[..k])
    ensures Longest(s, n) == m
  {
    if m < n {
      LongestIs(s, n - 1, m);
    }
  }

  lemma ItemWord(k: Keyword, rest: string)
    requires IsName(k.name) && (ArgText(k.arg) + rest == [] || !IsWord((ArgText(k.arg) + rest)[0]))
    ensures var t := ItemText(k) + rest;
            |t| >= 2 && t[0] == '.' && IsLetter(t[1]) && WordEnd(t, 1) == 1 + |k.name| &&
            t[1..1 + |k.name|] == k.name && t[1 + |k.name|..] == ArgText(k.arg) + rest
  {
    var t := ItemText(k) + rest;
    assert t == "." + k.name + (ArgText(k.arg) + rest);
    WordEndIs(t, 1, 1 + |k.name|);
  }

  /** A printed keyword is one item, and is read back as long as it is all ASCII. */
  lemma ItemReadBack(vars: map<string, string>, k: Keyword)
    requires WellFormed(k)
    ensures var t := ItemText(k);
            IsItem(t) && ItemOf(vars, t) == if k.arg.Str? && !IsAscii(k.arg.text) then Rejected else Parsed([k])
  {
    var t := ItemText(k);
    assert t + [] == t && ArgText(k.arg) + [] == ArgText(k.arg);
    ItemWord(k, []);
    if k.arg.Str? {
      StringReadBack(vars, k.name, k.arg.text);
    } else if k.arg.EmptyArg? {
      EmptyReadBack(vars, k.name);
    }
  }

  lemma EmptyReadBack(vars: map<string, string>, name: string)
    ensures IsGroup("()") && WithArgument(vars, name, "()") == Parsed([Keyword(name, EmptyArg)])
  {
    assert "()"[1..1] == [];
  }

  lemma StringReadBack(vars: map<string, string>, name: string, text: string)
    requires IsBody(text)
    ensures var g := ArgText(Str(text));
            IsGroup(g) &&
            WithArgument(vars, name, g) == if IsAscii(text) then Parsed([Keyword(name, Str(text))]) else Rejected
  {
    var g := ArgText(Str(text));
    var inner := g[1..|g| - 1];
    assert inner == "\"" + text + "\"";
    assert inner[1..|inner| - 1] == text;
    assert IsAscii(text) <==> IsAscii(inner) by {
      assert forall i :: 0 <= i < |text| ==> inner[i + 1] == text[i];
    }
  }

  // ---- matches that run past the printed keyword ----

  function FirstQuote(s: string): (p: nat)
    ensures p <= |s| && (forall i :: 0 <= i < p ==> s[i] != '"') && (p < |s| ==> s[p] == '"')
  {
    if s == [] || s[0] == '"' then 0 else 1 + FirstQuote(s[1..])
  }

  predicate QuoteCloses(s: string) {
    var p := FirstQuote(s);
    p + 1 < |s| && s[p + 1] == ')'
  }

  // What follows a printed keyword: no control character and no backslash before a quote opens.
  predicate Follows(s: string) {
    && s != [] && s[0] in {'.', ';'}
    && (forall i :: 0 <= i < FirstQuote(s) ==> s[i] !in {'\r', '\n', '\0', '\\'})
  }

  predicate EndsInBackslash(k: Keyword) {
    k.arg.Str? && k.arg.text != [] && k.arg.text[|k.arg.text| - 1] == '\\'
  }

  // A match that runs past the keyword reads the keyword's parenthesis and goes on.
  lemma LongerGroup(k: Keyword, more: string)
    requires WellFormed(k) && more != [] && more[0] in {'.', ';'} && IsItem(ItemText(k) + more)
    ensures var t := ItemText(k) + more;
            WordEnd(t, 1) == 1 + |k.name| && t[1 + |k.name|..] == ArgText(k.arg) + more &&
            IsGroup(ArgText(k.arg) + more)
  {
    ItemWord(k, more);
  }

  // Only a string can go on so.
  lemma LongerArg(arg: Arg, more: string)
    requires arg != Unknown && more != [] && more[0] in {'.', ';'}
    ensures var g := ArgText(arg) + more;
            IsGroup(g) ==> arg.Str? && IsQuoted(g[1..|g| - 1])
  {
    var g := ArgText(arg) + more;
    match arg
    case NoArg =>
      assert g[0] == more[0];
    case EmptyArg =>
      assert g[1] == ')' && g[1..|g| - 1][0] == ')';
    case Str(_) =>
      assert g[1] == '"' && g[1..|g| - 1][0] == '"';
  }

  // The text between the outer quotes of a match that runs past the keyword.
  lemma LongerBody(k: Keyword, rest: string, n: nat)
    requires WellFormed(k) && Follows(rest) && |ItemText(k)| < n <= |ItemText(k) + rest|
    requires IsItem((ItemText(k) + rest)[..n])
    ensures k.arg.Str? && |k.name| + 5 + |k.arg.text| < n
    ensures var t := (ItemText(k) + rest)[..n];
            var e := 1 + |k.name|;
            WordEnd(t, 1) == e && t[e..] != [] && IsQuoted(t[e + 1..n - 1])
  {
    var t := (ItemText(k) + rest)[..n];
    var more := rest[..n - |ItemText(k)|];
    assert t == ItemText(k) + more && more[0] == rest[0];
    LongerGroup(k, more);
    LongerArg(k.arg, more);
    var e := 1 + |k.name|;
    assert t[e..][1..|t[e..]| - 1] == t[e + 1..n - 1];
  }

  lemma BodyOf(k: Keyword, more: string)
    requires k.arg.Str? && more != []
    ensures var t := ItemText(k) + more;
            var inner := t[2 + |k.name|..|t| - 1];
            inner == "\"" + k.arg.text + "\")" + more[..|more| - 1] &&
            (|more| >= 2 ==> inner[1..|inner| - 1] == k.arg.text + "\")" + more[..|more| - 2])
  {
    var inner := "\"" + k.arg.text + "\")" + more[..|more| - 1];
    assert ItemText(k) + more == "." + k.name + "(" + inner + more[|more| - 1..];
  }

  lemma LongerClashes(k: Keyword, rest: string, n: nat)
    requires WellFormed(k) && Follows(rest) && |ItemText(k)| < n <= |ItemText(k) + rest|
    requires IsItem((ItemText(k) + rest)[..n])
    ensures EndsInBackslash(k) && QuoteCloses(rest)
  {
    var more := rest[..n - |ItemText(k)|];
    assert (ItemText(k) + rest)[..n] == ItemText(k) + more;
    LongerBody(k, rest, n);
    LongerEnd(k, more);
    var p := |more| - 2;
    assert more[..p] == rest[..p];
    BodyCut(k.arg.text, rest, p);
  }

  // A longer match ends in a quote and a parenthesis, and all before them is one string body.
  lemma LongerEnd(k: Keyword, more: string)
    requires k.arg.Str? && more != [] && more[0] in {'.', ';'}
    requires var t := ItemText(k) + more;
             IsQuoted(t[2 + |k.name|..|t| - 1]) && t[|t| - 1] == ')'
    ensures |more| >= 2 && more[|more| - 2] == '"'
    ensures IsBody(k.arg.text + "\")" + more[..|more| - 2])
  {
    var t := ItemText(k) + more;
    var inner := t[2 + |k.name|..|t| - 1];
    BodyOf(k, more);
    assert more[|more| - 1] == t[|t| - 1] == ')';
    assert |more| >= 2 && more[|more| - 2] == inner[|inner| - 1] == '"';
  }

  lemma BodyCut(a: string, rest: string, p: nat)
    requires Follows(rest) && p < |rest| && rest[p] == '"' && IsBody(a + "\")" + rest[..p])
    ensures a != [] && a[|a| - 1] == '\\' && FirstQuote(rest) == p
  {
    var body, q := a + "\")" + rest[..p], FirstQuote(rest);
    assert body[|a|] == '"' && (|a| > 0 ==> body[|a| - 1] == a[|a| - 1]);
    assert q < p ==> body[|a| + 2 + q] == rest[q];
    assert 0 < q < p ==> body[|a| + 1 + q] == rest[q - 1];
    assert q < p ==> !IsCleanAt(body, |a| + 2 + q);
    BodyIsClean(body);
    assert IsCleanAt(body, |a|);
  }

  lemma TakeInto(a: string, b: string, n: nat)
    requires n <= |b|
    ensures (a + b)[..|a| + n] == a + b[..n]
  {
  }

  lemma ClashIsLonger(k: Keyword, rest: string)
    requires WellFormed(k) && Follows(rest) && EndsInBackslash(k) && QuoteCloses(rest)
    ensures var n := |ItemText(k)| + FirstQuote(rest) + 2;
            n <= |ItemText(k) + rest| && IsItem((ItemText(k) + rest)[..n])
  {
    var q := FirstQuote(rest);
    var before := rest[..q];
    assert rest[..q + 2] == before + "\")";
    TakeInto(ItemText(k), rest, q + 2);
    ClashBody(k.arg.text, rest);
    ClashItem(k, before);
  }

  lemma ClashItem(k: Keyword, before: string)
    requires WellFormed(k) && k.arg.Str? && IsBody(k.arg.text + "\")" + before)
    ensures IsItem(ItemText(k) + (before + "\")"))
  {
    var more := before + "\")";
    ClashGroup(k.arg.text, before);
    assert (ArgText(k.arg) + more)[0] == '(';
    ItemWord(k, more);
  }

  lemma ClashGroup(a: string, before: string)
    requires IsBody(a + "\")" + before)
    ensures IsGroup(ArgText(Str(a)) + (before + "\")"))
  {
    Between("(\"", a, "\")", before);
    QuotedGroup(ArgText(Str(a)) + (before + "\")"), a + "\")" + before);
  }

  lemma Between(open: string, a: string, close: string, b: string)
    ensures open + a + close + (b + close) == open + (a + close + b) + close
  {
  }

  lemma QuotedGroup(group: string, body: string)
    requires group == "(\"" + body + "\")" && IsBody(body)
    ensures IsGroup(group)
  {
    var inner := group[1..|group| - 1];
    assert inner == "\"" + body + "\"" && inner[1..|inner| - 1] == body;
  }

  lemma ClashBody(a: string, rest: string)
    requires IsBody(a) && a != [] && a[|a| - 1] == '\\' && Follows(rest)
    ensures IsBody(a + "\")" + rest[..FirstQuote(rest)])
  {
    var more := rest[..FirstQuote(rest)];
    var body := a + "\")" + more;
    BodyIsClean(a);
    BodyIsClean(body);
    forall i | 0 <= i < |body| ensures IsCleanAt(body, i) {
      if i < |a| {
        assert IsCleanAt(a, i);
        assert body[i] == a[i] && (i > 0 ==> body[i - 1] == a[i - 1]);
      } else if i >= |a| + 2 {
        assert body[i] == more[i - |a| - 2];
      }
    }
  }

  lemma ClashIsLongest(k: Keyword, rest: string)
    requires WellFormed(k) && Follows(rest) && EndsInBackslash(k) && QuoteCloses(rest)
    ensures var t := ItemText(k) + rest;
            var n := Longest(t, |t|);
            n > |ItemText(k)| && IsItem(t[..n])
  {
    var t := ItemText(k) + rest;
    ClashIsLonger(k, rest);
    LongestAtLeast(t, |t|, |ItemText(k)| + FirstQuote(rest) + 2);
  }

  lemma LongerIsRead(vars: map<string, string>, k: Keyword, rest: string, n: nat)
    requires WellFormed(k) && Follows(rest) && |ItemText(k)| < n <= |ItemText(k) + rest|
    requires IsItem((ItemText(k) + rest)[..n])
    ensures ItemOf(vars, (ItemText(k) + rest)[..n]) != Parsed([k])
  {
    LongerBody(k, rest, n);
    LongerIsOther(vars, k, (ItemText(k) + rest)[..n]);
  }

  lemma ClashIsRead(vars: map<string, string>, k: Keyword, rest: string)
    requires WellFormed(k) && Follows(rest) && EndsInBackslash(k) && QuoteCloses(rest)
    ensures var t := ItemText(k) + rest;
            var n := Longest(t, |t|);
            n > 0 && ItemOf(vars, t[..n]) != Parsed([k])
  {
    var t := ItemText(k) + rest;
    ClashIsLongest(k, rest);
    LongerIsRead(vars, k, rest, Longest(t, |t|));
  }

  lemma LongerIsOther(vars: map<string, string>, k: Keyword, item: string)
    requires k.arg.Str? && IsItem(item) && |k.name| + 5 + |k.arg.text| < |item|
    requires WordEnd(item, 1) == 1 + |k.name| && IsQuoted(item[2 + |k.name|..|item| - 1])
    ensures ItemOf(vars, item) != Parsed([k])
  {
    var group := item[1 + |k.name|..];
    assert group[1..|group| - 1] == item[2 + |k.name|..|item| - 1];
  }

  lemma KeywordIsRead(k: Keyword, rest: string)
    requires WellFormed(k) && Follows(rest) && !(EndsInBackslash(k) && QuoteCloses(rest))
    ensures var t := ItemText(k) + rest; Longest(t, |t|) == |ItemText(k)|
  {
    var t, m := ItemText(k) + rest, |ItemText(k)|;
    assert t[..m] == ItemText(k);
    ItemReadBack(map[], k);
    forall n | m < n <= |t| ensures !IsItem(t[..n]) {
      if IsItem(t[..n]) {
        LongerClashes(k, rest, n);
      }
    }
    LongestIs(t, |t|, m);
  }

  /** Where the scanner ends a printed keyword, and what it then takes it for. */
  lemma FirstItem(vars: map<string, string>, k: Keyword, rest: string)
    requires WellFormed(k) && Follows(rest)
    ensures var t := ItemText(k) + rest;
            var n := Longest(t, |t|);
            n > 0 &&
            if EndsInBackslash(k) && QuoteCloses(rest) then ItemOf(vars, t[..n]) != Parsed([k])
            else n == |ItemText(k)| && t[..n] == ItemText(k) && t[n..] == rest
  {
    if EndsInBackslash(k) && QuoteCloses(rest) {
      ClashIsRead(vars, k, rest);
    } else {
      KeywordIsRead(k, rest);
    }
  }

  // ---- the round trip ----

  // The next string argument begins with a parenthesis.
  predicate NextCloses(rule: seq<Keyword>) {
    rule != [] &&
    if rule[0].arg.Str? then rule[0].arg.text != [] && rule[0].arg.text[0] == ')' else NextCloses(rule[1..])
  }

  lemma {:induction false} ItemsFollow(rule: seq<Keyword>)
    requires AllWellFormed(rule)
    ensures Follows(ItemsText(rule)) && (QuoteCloses(ItemsText(rule)) <==> NextCloses(rule))
  {
    if rule == [] {
      assert FirstQuote(ItemsText(rule)) == 1;
    } else {
      ItemsFollow(rule[1..]);
      ItemFollows(rule[0], ItemsText(rule[1..]));
    }
  }

  lemma ItemFollows(k: Keyword, rest: string)
    requires WellFormed(k) && Follows(rest)
    ensures var s := ItemText(k) + rest;
            Follows(s) &&
            (QuoteCloses(s) <==> if k.arg.Str? then k.arg.text != [] && k.arg.text[0] == ')' else QuoteCloses(rest))
  {
    var name := "." + k.name;
    assert name[0] == '.' && forall i :: 0 < i < |name| ==> IsWord(name[i]);
    if k.arg.Str? {
      var after := "\"" + (k.arg.text + "\")" + rest);
      assert ItemText(k) + rest == name + "(" + after;
      assert FirstQuote(after) == 0 && after[1] == (k.arg.text + "\"")[0];
      QuoteAfter(name + "(", after);
    } else {
      assert ItemText(k) + rest == name + ArgText(k.arg) + rest;
      QuoteAfter(name + ArgText(k.arg), rest);
    }
  }

  lemma QuoteAfter(x: string, y: string)
    requires x != [] && x[0] == '.' && (forall i :: 0 <= i < |x| ==> IsWord(x[i]) || x[i] in {'.', '(', ')'})
    ensures FirstQuote(x + y) == |x| + FirstQuote(y)
    ensures QuoteCloses(x + y) <==> QuoteCloses(y)
    ensures Follows(y) || FirstQuote(y) == 0 ==> Follows(x + y)
  {
    var s, q := x + y, |x| + FirstQuote(y);
    assert forall i :: |x| <= i < q ==> s[i] == y[i - |x|];
    assert q < |s| ==> s[q] == y[q - |x|];
    QuoteAt(s, q);
  }

  lemma QuoteAt(s: string, p: nat)
    requires p <= |s| && (forall i :: 0 <= i < p ==> s[i] != '"') && (p < |s| ==> s[p] == '"')
    ensures FirstQuote(s) == p
  {
    var q := FirstQuote(s);
    assert q < |s| ==> s[q] == '"';
  }

  lemma ScanItem(vars: map<string, string>, room: nat, s: string)
    requires room > 0 && s != [] && s[0] == '.' && Longest(s, |s|) > 0
    ensures var n := Longest(s, |s|);
            var first, rest := ItemOf(vars, s[..n]), ScanItems(vars, room - 1, s[n..]);
            ScanItems(vars, room, s) ==
            if first.Rejected? || rest.Rejected? then Rejected else Parsed(first.rule + rest.rule)
  {
  }

  // The printed rule is scanned as the same rule.
  predicate RoundTrips(vars: map<string, string>, room: nat, rule: seq<Keyword>) {
    ScanItems(vars, room, ItemsText(rule)) == Parsed(rule)
  }

  predicate PrintableBefore(k: Keyword, tail: seq<Keyword>) {
    (k.arg.Str? ==> IsAscii(k.arg.text)) && !(EndsInBackslash(k) && NextCloses(tail))
  }

  lemma KeywordRoundTrips(vars: map<string, string>, room: nat, rule: seq<Keyword>)
    requires AllWellFormed(rule) && rule != [] && room > 0
    ensures RoundTrips(vars, room, rule) ==
            (PrintableBefore(rule[0], rule[1..]) && RoundTrips(vars, room - 1, rule[1..]))
  {
    var s := ItemsText(rule);
    ItemsFollow(rule[1..]);
    FirstItem(vars, rule[0], ItemsText(rule[1..]));
    ItemReadBack(vars, rule[0]);
    ScanItem(vars, room, s);
    var n := Longest(s, |s|);
    var first, rest := ItemOf(vars, s[..n]), ScanItems(vars, room - 1, s[n..]);
    if first.Parsed? && rest.Parsed? {
      ConsEqual(first.rule, rest.rule, rule);
    }
  }

  predicate Printable(rule: seq<Keyword>) {
    rule != [] ==> PrintableBefore(rule[0], rule[1..]) && Printable(rule[1..])
  }

  lemma WellFormedTail(rule: seq<Keyword>)
    requires AllWellFormed(rule) && rule != []
    ensures AllWellFormed(rule[1..]) && |rule[1..]| == |rule| - 1
  {
  }

  lemma EmptyRoundTrips(vars: map<string, string>, room: nat, rule: seq<Keyword>)
    requires rule == []
    ensures RoundTrips(vars, room, rule) && Printable(rule)
  {
    ScanEnd(vars, room);
  }

  lemma NextRoundTrips(vars: map<string, string>, room: nat, rule: seq<Keyword>)
    requires AllWellFormed(rule) && |rule| <= room && rule != []
    requires RoundTrips(vars, room - 1, rule[1..]) == Printable(rule[1..])
    ensures RoundTrips(vars, room, rule) == Printable(rule)
  {
    KeywordRoundTrips(vars, room, rule);
  }

  /** Printing a rule that was scanned, and scanning the text, gives the same rule exactly when its
      string arguments are ASCII and none that ends in a backslash is followed, as the next string
      argument, by one that begins with a parenthesis. */
  lemma {:induction false} PrintScan(vars: map<string, string>, room: nat, rule: seq<Keyword>)
    requires AllWellFormed(rule) && |rule| <= room
    ensures RoundTrips(vars, room, rule) == Printable(rule)
    decreases |rule|, 1
  {
    if rule == [] {
      EmptyRoundTrips(vars, room, rule);
    } else {
      PrintScanNext(vars, room, rule);
    }
  }

  lemma {:induction false} PrintScanNext(vars: map<string, string>, room: nat, rule: seq<Keyword>)
    requires AllWellFormed(rule) && |rule| <= room && rule != []
    ensures RoundTrips(vars, room, rule) == Printable(rule)
    decreases |rule|, 0
  {
    WellFormedTail(rule);
    PrintScan(vars, room - 1, rule[1..]);
    NextRoundTrips(vars, room, rule);
  }

  lemma ConsEqual<T>(first: seq<T>, tail: seq<T>, whole: seq<T>)
    requires |first| == 1 && whole != []
    ensures first + tail == whole <==> first == [whole[0]] && tail == whole[1..]
  {
    assert whole == [whole[0]] + whole[1..];
    if first + tail == whole {
      assert whole[0] == first[0] && whole[1..] == tail;
    }
  }

  lemma ScanEnd(vars: map<string, string>, room: nat)
    ensures ScanItems(vars, room, ";") == Parsed([])
  {
    LongestNone(";");
  }

  lemma LongestNone(s: string)
    requires s == [] || s[0] != '.'
    ensures Longest(s, |s|) == 0
  {
  }

  /** For every rule the scanner can build from any text, whatever the variables hold. */
  lemma ScannedRoundTrip(vars: map<string, string>, s: string)
    requires forall v :: v in vars ==> IsBody(vars[v])
    ensures var r := ScanRule(vars, s);
            r.Parsed? ==> (ScanRule(vars, Print(r.rule)) == r <==> Printable(r.rule))
  {
    var r := ScanRule(vars, s);
    if r.Parsed? {
      ScannedIsWellFormed(vars, ConfigScanner.MAX_KEYWORDS, s[2..]);
      PrintScan(vars, ConfigScanner.MAX_KEYWORDS, r.rule);
      assert Print(r.rule)[..2] == "sp" && Print(r.rule)[2..] == ItemsText(r.rule);
    }
  }

  // ---- rules that are not read back ----

  // The same rule, with each keyword on a line of its own.
  function Lines(rule: seq<Keyword>): string {
    if rule == [] then ";" else "\n" + ItemText(rule[0]) + Lines(rule[1..])
  }

  predicate AllAscii(rule: seq<Keyword>) {
    forall i :: 0 <= i < |rule| ==> rule[i].arg.Str? ==> IsAscii(rule[i].arg.text)
  }

  // No match goes beyond a line break.
  lemma ItemOnLine(s: string)
    requires IsItem(s)
    ensures '\n' !in s
  {
    var e := WordEnd(s, 1);
    assert s == [s[0]] + s[1..e] + s[e..];
    if s[e..] != [] {
      GroupOnLine(s[e..]);
    }
  }

  lemma GroupOnLine(group: string)
    requires IsGroup(group)
    ensures '\n' !in group
  {
    var inner := group[1..|group| - 1];
    assert group == "(" + inner + ")";
    if IsQuoted(inner) {
      var body := inner[1..|inner| - 1];
      BodyIsClean(body);
      forall i | 0 <= i < |inner| ensures inner[i] != '\n' {
        if 1 <= i < |inner| - 1 {
          assert IsCleanAt(body, i - 1) && body[i - 1] == inner[i];
        }
      }
    }
  }

  lemma ItemBeforeBreak(k: Keyword, rest: string)
    requires WellFormed(k) && rest != [] && (rest[0] == '\n' || rest == ";")
    ensures var t := ItemText(k) + rest; Longest(t, |t|) == |ItemText(k)|
  {
    var t, m := ItemText(k) + rest, |ItemText(k)|;
    if rest == ";" {
      KeywordIsRead(k, rest);
    } else {
      assert t[..m] == ItemText(k);
      ItemReadBack(map[], k);
      forall n | m < n <= |t| ensures !IsItem(t[..n]) {
        assert t[..n][m] == '\n';
        if IsItem(t[..n]) {
          ItemOnLine(t[..n]);
        }
      }
      LongestIs(t, |t|, m);
    }
  }

  lemma BreakScan(vars: map<string, string>, room: nat, t: string)
    requires t != [] && t[0] == '.'
    ensures ScanItems(vars, room, "\n" + t) == ScanItems(vars, room, t)
  {
    assert ("\n" + t)[1..] == t;
  }

  lemma LineScan(vars: map<string, string>, room: nat, k: Keyword, rest: string)
    requires room > 0 && WellFormed(k) && (k.arg.Str? ==> IsAscii(k.arg.text))
    requires rest != [] && (rest[0] == '\n' || rest == ";")
    ensures ScanItems(vars, room, ItemText(k) + rest) ==
            match ScanItems(vars, room - 1, rest) case Rejected => Rejected case Parsed(tail) => Parsed([k] + tail)
  {
    var t := ItemText(k) + rest;
    ItemBeforeBreak(k, rest);
    ItemReadBack(vars, k);
    ScanItem(vars, room, t);
    assert t[..|ItemText(k)|] == ItemText(k) && t[|ItemText(k)|..] == rest;
  }

  /** Every well formed ASCII rule that fits the buffer is scanned from some text, namely from this one. */
  lemma {:induction false} LinesScan(vars: map<string, string>, room: nat, rule: seq<Keyword>)
    requires AllWellFormed(rule) && AllAscii(rule) && |rule| <= room
    ensures ScanItems(vars, room, Lines(rule)) == Parsed(rule)
    decreases |rule|, 1
  {
    if rule == [] {
      NoLine(vars, room, rule);
    } else {
      LinesScanNext(vars, room, rule);
    }
  }

  lemma {:induction false} LinesScanNext(vars: map<string, string>, room: nat, rule: seq<Keyword>)
    requires AllWellFormed(rule) && AllAscii(rule) && |rule| <= room && rule != []
    ensures ScanItems(vars, room, Lines(rule)) == Parsed(rule)
    decreases |rule|, 0
  {
    AsciiTail(rule);
    LinesScan(vars, room - 1, rule[1..]);
    FirstLine(vars, room, rule);
  }

  lemma NoLine(vars: map<string, string>, room: nat, rule: seq<Keyword>)
    requires rule == []
    ensures ScanItems(vars, room, Lines(rule)) == Parsed(rule)
  {
    ScanEnd(vars, room);
  }

  lemma AsciiTail(rule: seq<Keyword>)
    requires AllWellFormed(rule) && AllAscii(rule) && rule != []
    ensures AllWellFormed(rule[1..]) && AllAscii(rule[1..]) && WellFormed(rule[0])
    ensures rule[0].arg.Str? ==> IsAscii(rule[0].arg.text)
  {
  }

  lemma FirstLine(vars: map<string, string>, room: nat, rule: seq<Keyword>)
    requires rule != [] && room > 0 && WellFormed(rule[0]) && (rule[0].arg.Str? ==> IsAscii(rule[0].arg.text))
    requires ScanItems(vars, room - 1, Lines(rule[1..])) == Parsed(rule[1..])
    ensures ScanItems(vars, room, Lines(rule)) == Parsed(rule)
  {
    var t := ItemText(rule[0]) + Lines(rule[1..]);
    assert Lines(rule) == "\n" + t;
    BreakScan(vars, room, t);
    LineScan(vars, room, rule[0], Lines(rule[1..]));
    assert [rule[0]] + rule[1..] == rule;
  }

  // A rule in one text and in another.
  lemma ScanTexts(vars: map<string, string>, rule: seq<Keyword>)
    requires AllWellFormed(rule) && AllAscii(rule) && |rule| <= ConfigScanner.MAX_KEYWORDS
    ensures ScanRule(vars, "sp" + Lines(rule)) == Parsed(rule)
    ensures ScanRule(vars, Print(rule)) == Parsed(rule) <==> Printable(rule)
  {
    LinesScan(vars, ConfigScanner.MAX_KEYWORDS, rule);
    PrintScan(vars, ConfigScanner.MAX_KEYWORDS, rule);
    assert ("sp" + Lines(rule))[..2] == "sp" && ("sp" + Lines(rule))[2..] == Lines(rule);
    assert Print(rule)[..2] == "sp" && Print(rule)[2..] == ItemsText(rule);
  }

  lemma TwoLines(k: Keyword, l: Keyword)
    ensures Lines([k, l]) == "\n" + ItemText(k) + ("\n" + ItemText(l) + ";")
  {
    assert [k, l][1..] == [l] && [l][1..] == [];
    assert Lines([l][1..]) == ";";
    assert Lines([l]) == "\n" + ItemText(l) + ";";
  }

  lemma DanglingText()
    ensures "sp" + Lines([Keyword("a", Str("x\\")), Keyword("b", Str(")z"))]) ==
            "sp\n.a(\"x\\\")\n.b(\")z\");"
  {
    TwoLines(Keyword("a", Str("x\\")), Keyword("b", Str(")z")));
    assert ItemText(Keyword("a", Str("x\\"))) == ".a(\"x\\\")";
    assert ItemText(Keyword("b", Str(")z"))) == ".b(\")z\")";
  }

  /** A text whose rule does not survive: printed, its first argument runs on into the second. */
  lemma DanglingBackslash(vars: map<string, string>)
    ensures var s := "sp\n.a(\"x\\\")\n.b(\")z\");";
            var rule := [Keyword("a", Str("x\\")), Keyword("b", Str(")z"))];
            ScanRule(vars, s) == Parsed(rule) && ScanRule(vars, Print(rule)) != Parsed(rule)
  {
    var rule := [Keyword("a", Str("x\\")), Keyword("b", Str(")z"))];
    BodyIsClean("x\\");
    BodyIsClean(")z");
    assert rule[1..] == [rule[1]];
    assert EndsInBackslash(rule[0]) && NextCloses(rule[1..]);
    ScanTexts(vars, rule);
    DanglingText();
  }

  /** Another one: its argument is the value of a variable, which is not ASCII. */
  lemma NonAsciiVariable()
    ensures var vars := map["v" := ['\U{e9}']];
            var rule := [Keyword("a", Str(['\U{e9}']))];
            ScanRule(vars, "sp.a(v);") == Parsed(rule) && ScanRule(vars, Print(rule)) != Parsed(rule)
  {
    var vars, rule := map["v" := ['\U{e9}']], [Keyword("a", Str(['\U{e9}']))];
    VariableScan(vars);
    PrintScan(vars, ConfigScanner.MAX_KEYWORDS, rule);
    assert !IsAscii(rule[0].arg.text);
    var s := "sp.a(v);";
    assert s[..2] == "sp" && s[2..] == ".a(v);";
    assert Print(rule)[..2] == "sp" && Print(rule)[2..] == ItemsText(rule);
  }

  // The longest match in this text is all but the semicolon.
  lemma VariableItem()
    ensures Longest(".a(v);", 6) == 5 && IsItem(".a(v)") && WordEnd(".a(v)", 1) == 2
  {
    var s, item := ".a(v);", ".a(v)";
    WordEndIs(item, 1, 2);
    WordEndIs(s, 1, 2);
    assert item[2..] == "(v)" && item[2..][1..2] == "v" && IsGroup(item[2..]);
    assert s[..5] == item && s[..6] == s && !IsItem(s);
    LongestIs(s, 6, 5);
  }

  lemma VariableScan(vars: map<string, string>)
    requires "v" in vars
    ensures ScanItems(vars, ConfigScanner.MAX_KEYWORDS, ".a(v);") == Parsed([Keyword("a", Str(vars["v"]))])
  {
    var s, item := ".a(v);", ".a(v)";
    VariableItem();
    assert item[2..] == "(v)" && item[2..][1..2] == "v" && item[1..2] == "a";
    assert s[..5] == item && s[5..] == ";";
    ScanItem(vars, ConfigScanner.MAX_KEYWORDS, s);
    ScanEnd(vars, ConfigScanner.MAX_KEYWORDS - 1);
  }

  /** An escaped text is a string body, and the rule parser gets the text back from it. */
  lemma {:induction false} EscapedArgument(text: string)
    requires forall i :: 0 <= i < |text| ==> text[i] !in {'\r', '\n', '\0'}
    ensures IsBody(Escape(text)) && Unescape(Escape(text)) == text
  {
    UnescapeEscape(text);
    EscapeIsBody(text);
  }

  lemma {:induction false} EscapeIsBody(text: string)
    requires forall i :: 0 <= i < |text| ==> text[i] !in {'\r', '\n', '\0'}
    ensures IsBody(Escape(text)) && (Escape(text) != [] ==> Escape(text)[0] != '"')
  {
    if text == [] {
    } else {
      EscapeIsBody(text[1..]);
      var e := Escape(text);
      if text[0] == '"' {
        assert e[0] == '\\' && e[1] == '"' && e[2..] == Escape(text[1..]);
      } else if text[0] == '\\' {
        assert e[0] == '\\' && e[1] == '\\' && e[1..][1..] == Escape(text[1..]);
      } else {
        assert e[0] == text[0] && e[1..] == Escape(text[1..]);
      }
    }
  }
}
