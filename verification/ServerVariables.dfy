/** The filter on `$_SERVER` of src/sp_ifilter.c: dangerous characters are percent-encoded in two
    variables and struck out in others. */
module ServerVariables {
  import opened Digits

  predicate IsDangerous(c: u8) {
    c == 0x0A || c == 0x0D || c == 0x22 || c == 0x27 || c == 0x3C || c == 0x3E || c == 0x60
  }

  const PERCENT: u8 := 0x25
  const UNDERSCORE: u8 := 0x5F

  // sp_hexchars
  function HexDigit(n: u8): u8
    requires n < 16
  {
    if n < 10 then 0x30 + n else 0x41 + n - 10
  }

  predicate IsClean(s: seq<u8>) {
    forall i :: 0 <= i < |s| ==> !IsDangerous(s[i])
  }

  // ---- encoding ----

  function EncodeByte(c: u8): seq<u8> {
    if IsDangerous(c) then [PERCENT, HexDigit(c / 16), HexDigit(c % 16)] else [c]
  }

  function Encode(s: seq<u8>): seq<u8> {
    if s == [] then [] else EncodeByte(s[0]) + Encode(s[1..])
  }

  // The counting pass.
  function Extra(s: seq<u8>): nat {
    if s == [] then 0 else (if IsDangerous(s[0]) then 2 else 0) + Extra(s[1..])
  }

  lemma {:induction false} EncodeAppend(s: seq<u8>, c: u8)
    ensures Encode(s + [c]) == Encode(s) + EncodeByte(c)
    ensures Extra(s + [c]) == Extra(s) + if IsDangerous(c) then 2 else 0
  {
    if s == [] {
    } else {
      assert (s + [c])[1..] == s[1..] + [c];
      EncodeAppend(s[1..], c);
    }
  }

  /** The counting pass predicts the length exactly. */
  lemma {:induction false} EncodedLength(s: seq<u8>)
    ensures |Encode(s)| == |s| + Extra(s)
  {
    if s == [] {
    } else {
      EncodedLength(s[1..]);
    }
  }

  /** No dangerous character is left, and without one nothing changes: encoding is idempotent. */
  lemma {:induction false} EncodedIsClean(s: seq<u8>)
    ensures IsClean(Encode(s))
    ensures IsClean(s) ==> Encode(s) == s && Extra(s) == 0
    ensures Extra(s) == 0 ==> IsClean(s)
  {
    if s == [] {
    } else {
      EncodedIsClean(s[1..]);
      assert s == [s[0]] + s[1..];
    }
  }

  lemma EncodeTwice(s: seq<u8>)
    ensures Encode(Encode(s)) == Encode(s)
  {
    EncodedIsClean(s);
    EncodedIsClean(Encode(s));
  }

  /** The seven dangerous characters, the character that replaces them, and the digits that encode them. */
  lemma Characters(c: u8)
    ensures IsDangerous(c) <==> exists i :: 0 <= i < 7 && c == "\n\r\"'<>`"[i] as int
    ensures PERCENT == '%' as int && UNDERSCORE == '_' as int
    ensures c < 16 ==> HexDigit(c) == "0123456789ABCDEF"[c] as int
  {
    var s := "\n\r\"'<>`";
    assert s[0] as int == 0x0A && s[1] as int == 0x0D && s[2] as int == 0x22 && s[3] as int == 0x27;
    assert s[4] as int == 0x3C && s[5] as int == 0x3E && s[6] as int == 0x60;
  }

  // ---- decoding: section 2.1 of RFC 3986; a percent sign without two digits stands for itself ----

  predicate IsHex(c: u8) {
    0x30 <= c <= 0x39 || 0x41 <= c <= 0x46 || 0x61 <= c <= 0x66
  }

  function HexValue(c: u8): u8
    requires IsHex(c)
  {
    if c <= 0x39 then c - 0x30 else if c <= 0x46 then c - 0x41 + 10 else c - 0x61 + 10
  }

  predicate IsTriplet(s: seq<u8>) {
    |s| >= 3 && s[0] == PERCENT && IsHex(s[1]) && IsHex(s[2])
  }

  function Decode(s: seq<u8>): seq<u8> {
    if s == [] then []
    else if IsTriplet(s) then [(HexValue(s[1]) * 16 + HexValue(s[2])) as u8] + Decode(s[3..])
    else [s[0]] + Decode(s[1..])
  }

  // Two hexadecimal digits come from two hexadecimal digits.
  lemma TripletKept(s: seq<u8>)
    requires s != [] && s[0] == PERCENT
    ensures IsTriplet(Encode(s)) <==> IsTriplet(s)
    ensures IsTriplet(s) ==> Encode(s) == s[..3] + Encode(s[3..])
  {
    if |s| >= 2 {
      assert Encode(s) == [PERCENT] + (EncodeByte(s[1]) + Encode(s[1..][1..]));
      assert s[1..][1..] == s[2..];
      if |s| >= 3 && !IsDangerous(s[1]) {
        assert Encode(s[2..]) == EncodeByte(s[2]) + Encode(s[2..][1..]);
        assert s[2..][1..] == s[3..];
      }
    }
  }

  /** For any text, stray percent signs included, decoding undoes the encoding as far as decoding sees:
      the encoded text decodes to what the original decodes to. */
  lemma {:induction false} DecodeEncoded(s: seq<u8>)
    ensures Decode(Encode(s)) == Decode(s)
  {
    if s == [] {
    } else if IsDangerous(s[0]) {
      DecodeEncoded(s[1..]);
      EncodedTriplet(s[0], Encode(s[1..]));
    } else if s[0] != PERCENT {
      DecodeEncoded(s[1..]);
      assert Encode(s)[1..] == Encode(s[1..]);
    } else {
      TripletKept(s);
      if IsTriplet(s) {
        DecodeEncoded(s[3..]);
        assert Encode(s)[3..] == Encode(s[3..]) && Encode(s)[..3] == s[..3];
      } else {
        DecodeEncoded(s[1..]);
        assert Encode(s)[1..] == Encode(s[1..]);
      }
    }
  }

  lemma EncodedTriplet(c: u8, rest: seq<u8>)
    requires IsDangerous(c)
    ensures Decode(EncodeByte(c) + rest) == [c] + Decode(rest)
  {
    var t := EncodeByte(c) + rest;
    assert t[3..] == rest;
  }

  // ---- striking out ----

  function Stripped(s: seq<u8>): (r: seq<u8>)
    ensures |r| == |s| && IsClean(r)
    ensures forall i :: 0 <= i < |s| ==> r[i] == if IsDangerous(s[i]) then UNDERSCORE else s[i]
  {
    seq(|s|, i requires 0 <= i < |s| => if IsDangerous(s[i]) then UNDERSCORE else s[i])
  }

  lemma StripTwice(s: seq<u8>)
    ensures Stripped(Stripped(s)) == Stripped(s) && (IsClean(s) <==> Stripped(s) == s)
  {
    if Stripped(s) == s {
    } else {
      assert exists i :: 0 <= i < |s| && IsDangerous(s[i]);
    }
  }

  // ---- the variables ----

  method CountExtra(tmp: array<u8>) returns (extra: nat)
    ensures extra == Extra(tmp[..])
  {
    extra := 0;
    for i := 0 to tmp.Length
      invariant extra == Extra(tmp[..i])
    {
      EncodeAppend(tmp[..i], tmp[i]);
      assert tmp[..i] + [tmp[i]] == tmp[..i + 1];
      extra := extra + if IsDangerous(tmp[i]) then 2 else 0;
    }
    assert tmp[..tmp.Length] == tmp[..];
  }

  // Fills a new buffer of exactly the predicted length.
  method EncodedCopy(tmp: array<u8>, extra: nat) returns (text: array<u8>)
    requires extra == Extra(tmp[..])
    ensures fresh(text) && text[..] == Encode(tmp[..])
  {
    EncodedLength(tmp[..]);
    text := new u8[tmp.Length + extra];
    ghost var all := Encode(tmp[..]);
    var n := 0;
    assert tmp[0..] == tmp[..];
    for i := 0 to tmp.Length
      invariant 0 <= n && n + |Encode(tmp[i..])| == text.Length
      invariant text[..n] + Encode(tmp[i..]) == all
    {
      ghost var done := text[..n];
      assert tmp[i..][0] == tmp[i] && tmp[i..][1..] == tmp[i + 1..];
      assert done + EncodeByte(tmp[i]) + Encode(tmp[i + 1..]) == all;
      n := WriteByte(text, n, tmp[i]);
    }
    assert tmp[tmp.Length..] == [] && text[..n] == text[..];
  }

  method WriteByte(text: array<u8>, start: nat, c: u8) returns (n: nat)
    requires start + |EncodeByte(c)| <= text.Length
    modifies text
    ensures n == start + |EncodeByte(c)| && text[..n] == old(text[..start]) + EncodeByte(c)
  {
    n := start;
    if IsDangerous(c) {
      text[n] := PERCENT;
      n := n + 1;
      text[n] := HexDigit(c / 16);
      n := n + 1;
      text[n] := HexDigit(c % 16);
    } else {
      text[n] := c;
    }
    n := n + 1;
  }

  const ENCODED: seq<string> := ["REQUEST_URI", "QUERY_STRING"]

  const STRIPPED: seq<string> :=
    ["PHP_SELF", "HTTP_HOST", "HTTP_USER_AGENT", "PATH_INFO", "PATH_TRANSLATED", "ORIG_PATH_TRANSLATED",
     "ORIG_PATH_INFO"]

  /** The variables that are encoded, and those that are stripped. */
  lemma Treated(key: string)
    ensures key in ENCODED <==> key == "REQUEST_URI" || key == "QUERY_STRING"
    ensures key in STRIPPED <==>
            || key == "PHP_SELF" || key == "HTTP_HOST" || key == "HTTP_USER_AGENT" || key == "PATH_INFO"
            || key == "PATH_TRANSLATED" || key == "ORIG_PATH_TRANSLATED" || key == "ORIG_PATH_INFO"
  {
  }

  datatype Value = Text(bytes: array<u8>) | Other

  predicate HasText(values: map<string, Value>, key: string) {
    key in values && values[key].Text?
  }

  // The buffers of the first n of the variables that are stripped.
  function Buffers(values: map<string, Value>, n: nat): set<array<u8>>
    requires n <= |STRIPPED|
  {
    set j | 0 <= j < n && HasText(values, STRIPPED[j]) :: values[STRIPPED[j]].bytes
  }

  lemma BuffersNext(values: map<string, Value>, n: nat)
    requires n < |STRIPPED|
    ensures Buffers(values, n + 1) ==
            Buffers(values, n) + if HasText(values, STRIPPED[n]) then {values[STRIPPED[n]].bytes} else {}
  {
  }

  class Variables {
    var values: map<string, Value>

    constructor (values: map<string, Value>)
      ensures this.values == values
    {
      this.values := values;
    }

    /** The variable has an encoded text, in a new buffer if anything was encoded; no other variable
        changes, even if it has the same buffer. */
    method ServerEncode(key: string)
      modifies this
      ensures values.Keys == old(values).Keys
      ensures forall k :: k in values && k != key ==> values[k] == old(values)[k]
      ensures key in values ==> values[key].Text? == old(values)[key].Text?
      ensures HasText(values, key) ==>
                values[key] == old(values)[key] || fresh(values[key].bytes)
      ensures HasText(values, key) ==>
                (values[key] == old(values)[key] <==> IsClean(old(values[key].bytes[..])))
      ensures HasText(values, key) ==> values[key].bytes[..] == Encode(old(values[key].bytes[..]))
    {
      if key !in values || values[key].Other? {
        return;
      }
      var tmp := values[key].bytes;
      var extra := CountExtra(tmp);
      EncodedIsClean(tmp[..]);
      if extra == 0 {
        return;
      }
      var text := EncodedCopy(tmp, extra);
      values := values[key := Text(text)];
    }

    /** The variable is stripped in its buffer, and so is every variable that has the same one. Only this
        variable changes exactly when no other one has its buffer, or nothing in it is dangerous. */
    method ServerStrip(key: string)
      modifies if HasText(values, key) then {values[key].bytes} else {}
      ensures forall k :: HasText(values, k) ==>
                values[k].bytes[..] ==
                if HasText(values, key) && values[k].bytes == values[key].bytes
                then Stripped(old(values[k].bytes[..])) else old(values[k].bytes[..])
      ensures (forall k :: HasText(values, k) && k != key ==> values[k].bytes[..] == old(values[k].bytes[..])) <==>
              (HasText(values, key) && !IsClean(old(values[key].bytes[..])) ==>
                 forall k :: HasText(values, k) && k != key ==> values[k].bytes != values[key].bytes)
    {
      if key !in values || values[key].Other? {
        return;
      }
      var tmp := values[key].bytes;
      ghost var before := tmp[..];
      for i := 0 to tmp.Length
        invariant forall j :: 0 <= j < tmp.Length ==>
                    tmp[j] == if j < i && IsDangerous(before[j]) then UNDERSCORE else before[j]
      {
        if IsDangerous(tmp[i]) {
          tmp[i] := UNDERSCORE;
        }
      }
      assert tmp[..] == Stripped(before);
      StripTwice(before);
    }

    /** Every variable after both filters, as they are switched on. A stripped variable takes along those
        that have its buffer, but not an encoded one. */
    method Register(encode: bool, strip: bool)
      modifies this, if strip then Buffers(values, |STRIPPED|) else {}
      ensures values.Keys == old(values).Keys
      ensures forall k :: k in values ==> values[k].Text? == old(values)[k].Text?
      ensures forall k :: k in values && !(encode && k in ENCODED) ==> values[k] == old(values)[k]
      ensures forall k :: HasText(values, k) ==>
                values[k].bytes[..] ==
                if encode && k in ENCODED then Encode(old(values[k].bytes[..]))
                else if strip && old(values[k].bytes) in Buffers(old(values), |STRIPPED|)
                then Stripped(old(values[k].bytes[..]))
                else old(values[k].bytes[..])
    {
      if encode {
        EncodeBoth();
      }
      if strip {
        SameBuffers(old(values), values);
        StripAll();
        forall k | HasText(values, k) && encode && k in ENCODED
          ensures values[k].bytes[..] == Encode(old(values[k].bytes[..]))
        {
          EncodedIsClean(old(values[k].bytes[..]));
          StripTwice(Encode(old(values[k].bytes[..])));
        }
      }
    }

    method EncodeBoth()
      modifies this
      ensures values.Keys == old(values).Keys
      ensures forall k :: k in values ==> values[k].Text? == old(values)[k].Text?
      ensures forall k :: k in values && k !in ENCODED ==> values[k] == old(values)[k]
      ensures forall k :: HasText(values, k) ==> values[k] == old(values)[k] || fresh(values[k].bytes)
      ensures forall k :: HasText(values, k) && k in ENCODED ==>
                values[k].bytes[..] == Encode(old(values[k].bytes[..]))
    {
      ServerEncode(ENCODED[0]);
      ServerEncode(ENCODED[1]);
    }

    method StripAll()
      modifies Buffers(values, |STRIPPED|)
      ensures forall k :: HasText(values, k) ==>
                values[k].bytes[..] ==
                if values[k].bytes in Buffers(values, |STRIPPED|) then Stripped(old(values[k].bytes[..]))
                else old(values[k].bytes[..])
    {
      for i := 0 to |STRIPPED|
        invariant forall k :: HasText(values, k) ==>
                    values[k].bytes[..] ==
                    if values[k].bytes in Buffers(values, i) then Stripped(old(values[k].bytes[..]))
                    else old(values[k].bytes[..])
      {
        BuffersNext(values, i);
        ServerStrip(STRIPPED[i]);
        forall k | HasText(values, k)
          ensures Stripped(Stripped(old(values[k].bytes[..]))) == Stripped(old(values[k].bytes[..]))
        {
          StripTwice(old(values[k].bytes[..]));
        }
      }
    }
  }

  // Encoding leaves the buffers of the variables that are stripped.
  lemma SameBuffers(before: map<string, Value>, after: map<string, Value>)
    requires before.Keys == after.Keys
    requires forall k :: k in after && k !in ENCODED ==> after[k] == before[k]
    ensures Buffers(before, |STRIPPED|) == Buffers(after, |STRIPPED|)
  {
    assert forall j :: 0 <= j < |STRIPPED| ==> STRIPPED[j] !in ENCODED;
  }

  /** A variable that is stripped only because it has the buffer of another one. */
  method StripsShared() returns (values: Variables)
    ensures fresh(values) && HasText(values.values, "HTTP_REFERER") && "HTTP_REFERER" !in STRIPPED + ENCODED
    ensures values.values["HTTP_REFERER"].bytes[..] == [UNDERSCORE] != ['<' as int]
  {
    var text := new u8[] ['<' as int];
    values := new Variables(map["PHP_SELF" := Text(text), "HTTP_REFERER" := Text(text)]);
    assert text[..] == ['<' as int];
    values.ServerStrip("PHP_SELF");
    assert IsDangerous('<' as int);
  }
}
