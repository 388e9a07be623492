/** What fixes the printer and the patterns of RuleText from outside: the characters, a printed rule, and what a
    backslash does. */
module RuleSyntax {
  import opened RuleText

  // ---- characters ----

  const LOWER: string := "abcdefghijklmnopqrstuvwxyz"
  const UPPER: string := "ABCDEFGHIJKLMNOPQRSTUVWXYZ"

  lemma InRange(s: string, first: char, c: char)
    requires |s| <= 26 && first <= 'z' && forall i :: 0 <= i < |s| ==> s[i] as int == first as int + i
    ensures c in s <==> first as int <= c as int < first as int + |s|
  {
    if first as int <= c as int < first as int + |s| {
      assert s[c as int - first as int] == c;
    }
  }

  /** Letters, and the characters of keywords. */
  lemma WordCharacters(c: char)
    ensures IsLetter(c) <==> c in LOWER || c in UPPER
    ensures IsWord(c) <==> IsLetter(c) || c in "0123456789" || c == '_'
  {
    InRange(LOWER, 'a', c);
    InRange(UPPER, 'A', c);
    InRange("0123456789", '0', c);
  }

  // ---- a rule ----

  /** A rule with each kind of argument, as it is written. */
  lemma WrittenRule(m: string, n: string, text: string, o: string)
    ensures Print([Keyword(m, NoArg), Keyword(n, Str(text)), Keyword(o, EmptyArg)])
         == "sp." + m + "." + n + "(\"" + text + "\")." + o + "();"
  {
    var a, b, c := Keyword(m, NoArg), Keyword(n, Str(text)), Keyword(o, EmptyArg);
    assert [a, b, c][1..] == [b, c] && [b, c][1..] == [c] && [c][1..] == [];
    assert ItemsText([]) == ";" && ItemsText([c]) == "." + o + "()" + ";";
    assert ItemsText([b, c]) == "." + n + ("(\"" + text + "\")") + ItemsText([c]);
    assert ItemsText([a, b, c]) == "." + m + "" + ItemsText([b, c]);
    assert "sp" + "." == "sp.";
    Regroup("sp", m, n, text, o);
  }

  lemma Regroup(sp: string, m: string, n: string, text: string, o: string)
    ensures sp + ("." + m + "" + ("." + n + ("(\"" + text + "\")") + ("." + o + "()" + ";")))
         == sp + "." + m + "." + n + "(\"" + text + "\")." + o + "();"
  {
    assert "\")" + "." == "\")." && "()" + ";" == "();";
  }

  // ---- backslashes ----

  /** A backslash is struck out, and what follows it stays, even if it is another one. */
  lemma {:induction false} Unescaped(a: string, c: char, rest: string)
    requires '\\' !in a
    ensures Unescape(a + ['\\', c] + rest) == a + [c] + Unescape(rest)
  {
    var s := a + ['\\', c] + rest;
    if a == [] {
      assert s[0] == '\\' && s[1] == c && s[2..] == rest;
    } else {
      Unescaped(a[1..], c, rest);
      assert s[0] == a[0] && s[1..] == a[1..] + ['\\', c] + rest;
    }
  }

  /** Text without any stays whole; one at the very end keeps the terminating NUL. */
  lemma {:induction false} UnescapedEnd(a: string)
    requires '\\' !in a
    ensures Unescape(a) == a && Unescape(a + ['\\']) == a + ['\0']
  {
    if a != [] {
      UnescapedEnd(a[1..]);
      assert (a + ['\\'])[1..] == a[1..] + ['\\'];
      assert a == [a[0]] + a[1..];
    }
  }
}
