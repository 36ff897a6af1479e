/** cJSON.c: the \u escapes that parse_string accepts, against UTF-16 and UTF-8 as their standards define them. */
module KJsonUnicode {
  import opened Octets
  import opened KJsonText
  import opened KJsonGrammar

  /** A Unicode scalar value: any code point but the surrogates. */
  predicate IsScalar(codepoint: nat) {
    codepoint < 0xD800 || 0xE000 <= codepoint <= 0x10_FFFF
  }

  function Hex4Text(n: nat): (t: Text)
    requires n < 0x1_0000
    ensures |t| == 4
  {
    [HexDigit(n / 4096), HexDigit(n / 256 % 16), HexDigit(n / 16 % 16), HexDigit(n % 16)]
  }

  function UnitEscape(n: nat): (t: Text)
    requires n < 0x1_0000
    ensures |t| == 6
  {
    ['\\', 'u'] + Hex4Text(n)
  }

  /** Section 2.1 of RFC 2781, each unit written as an escape. */
  function Utf16Escape(codepoint: nat): Text
    requires IsScalar(codepoint)
  {
    if codepoint < 0x1_0000 then UnitEscape(codepoint)
    else UnitEscape(0xD800 + (codepoint - 0x1_0000) / 0x400) + UnitEscape(0xDC00 + (codepoint - 0x1_0000) % 0x400)
  }

  predicate Continuation(b: Octet) {
    0x80 <= b as int < 0xC0
  }

  /** Section 3 of RFC 3629: the one well-formed sequence that t is, if it is one. */
  function FromUtf8(t: Text): Option<nat> {
    if |t| == 1 && t[0] as int < 0x80 then Some(t[0] as int)
    else if |t| == 2 && 0xC2 <= t[0] as int < 0xE0 && Continuation(t[1]) then
      Some((t[0] as int - 0xC0) * 64 + (t[1] as int - 0x80))
    else if |t| == 3 && 0xE0 <= t[0] as int < 0xF0 && Continuation(t[1]) && Continuation(t[2]) then
      var n := ((t[0] as int - 0xE0) * 64 + (t[1] as int - 0x80)) * 64 + (t[2] as int - 0x80);
      if n >= 0x800 && IsScalar(n) then Some(n) else None
    else if |t| == 4 && 0xF0 <= t[0] as int < 0xF5 && Continuation(t[1]) && Continuation(t[2]) && Continuation(t[3]) then
      var n := (((t[0] as int - 0xF0) * 64 + (t[1] as int - 0x80)) * 64 + (t[2] as int - 0x80)) * 64 + (t[3] as int - 0x80);
      if 0x1_0000 <= n <= 0x10_FFFF then Some(n) else None
    else None
  }

  /** What the parser writes for a code point is its UTF-8 form, the shortest one; the surrogates have none. */
  lemma Utf8IsWellFormed(codepoint: nat)
    requires codepoint <= 0x10_FFFF
    ensures FromUtf8(Utf8(codepoint)) == if IsScalar(codepoint) then Some(codepoint) else None
  {
    if codepoint < 0x80 {
    } else if codepoint < 0x800 {
      Base64(codepoint);
    } else {
      Base64(codepoint);
      Base64(codepoint / 64);
      assert codepoint / 64 / 64 == codepoint / 4096;
      if codepoint >= 0x1_0000 {
        Base64(codepoint / 4096);
        assert codepoint / 4096 / 64 == codepoint / 0x4_0000;
      }
    }
  }

  lemma Base64(n: nat)
    ensures n / 64 * 64 + n % 64 == n
  {
  }

  lemma HexDigitValue(n: nat)
    requires n < 16
    ensures HexValue(HexDigit(n)) == Some(n)
  {
  }

  lemma Hex4OfText(c: Text, i: nat, n: nat)
    requires n < 0x1_0000 && At(c, i, Hex4Text(n))
    ensures Hex4(c, i) == n
  {
    hide HexDigit, HexValue;
    var t := Hex4Text(n);
    assert c[i] == c[i + 0] == t[0] && c[i + 1] == t[1] && c[i + 2] == t[2] && c[i + 3] == t[3];
    HexDigitValue(n / 4096);
    HexDigitValue(n / 256 % 16);
    HexDigitValue(n / 16 % 16);
    HexDigitValue(n % 16);
    Nibbles(n);
  }

  lemma Nibbles(n: nat)
    requires n < 0x1_0000
    ensures ((n / 4096 * 16 + n / 256 % 16) * 16 + n / 16 % 16) * 16 + n % 16 == n
  {
    assert n / 256 / 16 == n / 4096;
    assert n / 16 / 16 == n / 256;
  }

  /** One escaped unit read by the parser. */
  lemma UnitIsRead(c: Text, i: nat, n: nat)
    requires n < 0x1_0000 && At(c, i, UnitEscape(n))
    ensures c[i] == '\\' && c[i + 1] == 'u' && Hex4(c, i + 2) == n
  {
    hide Hex4;
    var t := UnitEscape(n);
    assert c[i + 0] == t[0] && c[i + 1] == t[1];
    forall k | 0 <= k < 4 ensures c[i + 2 + k] == Hex4Text(n)[k] { assert c[i + (2 + k)] == t[2 + k]; }
    Hex4OfText(c, i + 2, n);
  }

  /** Every scalar value escaped in UTF-16, as one unit or as a surrogate pair, is read as its UTF-8 form. */
  lemma EscapedScalarIsRead(c: Text, i: nat, e: nat, codepoint: nat)
    requires IsScalar(codepoint) && At(c, i, Utf16Escape(codepoint)) && i + |Utf16Escape(codepoint)| <= e < |c|
    ensures var r := Utf16Literal(c, i, e);
      r == Ok(Utf8(codepoint), |Utf16Escape(codepoint)|) && FromUtf8(r.value) == Some(codepoint)
  {
    hide Hex4, Hex4Text, Utf8, FromUtf8;
    Utf8IsWellFormed(codepoint);
    if codepoint < 0x1_0000 {
      UnitIsRead(c, i, codepoint);
    } else {
      var high, low := 0xD800 + (codepoint - 0x1_0000) / 0x400, 0xDC00 + (codepoint - 0x1_0000) % 0x400;
      AtSplit(c, i, UnitEscape(high), UnitEscape(low));
      UnitIsRead(c, i, high);
      UnitIsRead(c, i + 6, low);
      Surrogates(codepoint - 0x1_0000);
    }
  }

  lemma Surrogates(n: nat)
    requires n < 0x10_0000
    ensures (0xD800 + n / 0x400) % 0x400 == n / 0x400 && (0xDC00 + n % 0x400) % 0x400 == n % 0x400
    ensures n / 0x400 * 0x400 + n % 0x400 == n
  {
  }

  /** And nothing else is: whatever the escape, what is written is the form of a scalar value. */
  lemma OnlyScalarsAreWritten(c: Text, i: nat, e: nat)
    requires i <= e < |c| && Utf16Literal(c, i, e).Ok?
    ensures FromUtf8(Utf16Literal(c, i, e).value).Some?
  {
    hide Hex4, Utf8, FromUtf8;
    var first := Hex4(c, i + 2);
    if 0xD800 <= first <= 0xDBFF {
      Utf8IsWellFormed(0x1_0000 + (first % 0x400 * 0x400 + Hex4(c, i + 8) % 0x400));
    } else {
      Utf8IsWellFormed(first);
    }
  }
}
