/** The parser accepts exactly what is spelled as KJsonSpelling says, as the tree that is spelled. */
module KJsonAccepts {
  import opened Octets
  import opened KJson
  import opened KJsonGrammar
  import opened KJsonNumbers
  import opened KJsonUnicode
  import opened KJsonSpelling
  import opened KJsonRoundTrip

  // ----- white space

  lemma {:induction false} SkipsBlanks(c: Text, o: nat)
    requires o < |c|
    ensures var r := SkipWhitespace(c, o); Blank(c, o, r, false) && (r + 1 < |c| ==> c[r] > ' ')
    decreases |c| - o
  {
    if c[o] <= ' ' && o + 1 < |c| { SkipsBlanks(c, o + 1); }
  }

  lemma {:induction false} BlanksAreSkipped(c: Text, o: nat, r: nat)
    requires Blank(c, o, r, false) && r < |c| && c[r] > ' '
    ensures SkipWhitespace(c, o) == r
    decreases r - o
  {
    if o < r { BlanksAreSkipped(c, o + 1, r); }
  }

  // ----- strings

  lemma HexIsRead(c: Text, i: nat)
    requires i + 4 <= |c|
    ensures Hex4(c, i) == HexOf(c[i..i + 4])
  {
    var h := c[i..i + 4];
    assert h[0] == c[i] && h[1] == c[i + 1] && h[2] == c[i + 2] && h[3] == c[i + 3];
    hide HexValue, Nibble;
    NibbleIsRead(h[0]);
    NibbleIsRead(h[1]);
    NibbleIsRead(h[2]);
    NibbleIsRead(h[3]);
  }

  lemma NibbleIsRead(b: Octet)
    ensures HexValue(b) == Nibble(b)
  {
  }

  /** A scalar value has just one form in UTF-8, the one that is written. */
  lemma Utf8IsOnly(t: Text, n: nat)
    requires FromUtf8(t) == Some(n)
    ensures IsScalar(n) && n <= 0x10_FFFF && t == Utf8(n)
  {
    if |t| == 2 {
      Split64(t[0] as int - 0xC0, t[1] as int - 0x80);
    } else if |t| == 3 {
      Utf8OfThree(t, n);
    } else if |t| == 4 {
      Utf8OfFour(t, n);
    }
  }

  lemma Split64(a: nat, b: nat)
    requires b < 64
    ensures (a * 64 + b) / 64 == a && (a * 64 + b) % 64 == b
  {
  }

  lemma Utf8OfThree(t: Text, n: nat)
    requires FromUtf8(t) == Some(n) && |t| == 3
    ensures n <= 0x10_FFFF && t == Utf8(n)
  {
    var a, b, d := t[0] as int - 0xE0, t[1] as int - 0x80, t[2] as int - 0x80;
    assert n == (a * 64 + b) * 64 + d;
    Split64(a * 64 + b, d);
    Split64(a, b);
    assert n / 4096 == n / 64 / 64;
  }

  lemma Utf8OfFour(t: Text, n: nat)
    requires FromUtf8(t) == Some(n) && |t| == 4
    ensures n <= 0x10_FFFF && t == Utf8(n)
  {
    var a, b, d, e := t[0] as int - 0xF0, t[1] as int - 0x80, t[2] as int - 0x80, t[3] as int - 0x80;
    assert n == ((a * 64 + b) * 64 + d) * 64 + e;
    Split64((a * 64 + b) * 64 + d, e);
    Split64(a * 64 + b, d);
    Split64(a, b);
    assert n / 4096 == n / 64 / 64 && n / 0x4_0000 == n / 4096 / 64;
  }

  lemma {:induction false} QuoteFound(c: Text, i: nat)
    requires i <= |c| && ClosingQuote(c, i).Some?
    ensures QuotesEscaped(c[i..ClosingQuote(c, i).value])
    decreases |c| - i
  {
    var e := ClosingQuote(c, i).value;
    if c[i] == '"' {
      assert c[i..e] == [];
    } else if c[i] != '\\' {
      QuoteFound(c, i + 1);
      assert c[i..e][1..] == c[i + 1..e];
    } else {
      QuoteFound(c, i + 2);
      assert c[i..e][2..] == c[i + 2..e];
    }
  }

  lemma {:induction false} QuoteIsFound(c: Text, i: nat, e: nat)
    requires i <= e < |c| && c[e] == '"' && QuotesEscaped(c[i..e])
    ensures ClosingQuote(c, i) == Some(e)
    decreases e - i
  {
    var body := c[i..e];
    if body != [] {
      if body[0] != '\\' {
        assert body[1..] == c[i + 1..e];
        QuoteIsFound(c, i + 1, e);
      } else {
        assert body[2..] == c[i + 2..e];
        QuoteIsFound(c, i + 2, e);
      }
    }
  }

  /** What an escape with \u stands for. */
  lemma LiteralFound(c: Text, i: nat, e: nat) returns (p: Piece)
    requires i < e < |c| && c[i] == '\\' && c[i + 1] == 'u' && Utf16Literal(c, i, e).Ok?
    ensures var n := Utf16Literal(c, i, e).offset;
      i + n <= e && c[i..i + n] == UnitText(p.unit) && p.means == Utf16Literal(c, i, e).value
    ensures UnitMeans(p.unit, p.means, false) && !p.unit.Cut?
  {
    hide Hex4, HexOf, Utf8, FromUtf8;
    HexIsRead(c, i + 2);
    var first := Hex4(c, i + 2);
    var h := c[i + 2..i + 6];
    assert c[i..i + 6] == [c[i], c[i + 1]] + h;
    var t := Utf16Literal(c, i, e).value;
    if 0xD800 <= first <= 0xDBFF {
      HexIsRead(c, i + 8);
      var l := c[i + 8..i + 12];
      assert c[i..i + 12] == c[i..i + 6] + [c[i + 6], c[i + 7]] + l;
      PairCodes(first, Hex4(c, i + 8));
      Utf8IsWellFormed(0x1_0000 + (first - 0xD800) * 0x400 + (Hex4(c, i + 8) - 0xDC00));
      p := Piece(Pair(h, l), t);
    } else {
      Utf8IsWellFormed(first);
      p := Piece(Code(h), t);
    }
  }

  lemma PairCodes(first: nat, second: nat)
    requires 0xD800 <= first < 0xDC00 && 0xDC00 <= second < 0xE000
    ensures first % 0x400 == first - 0xD800 && second % 0x400 == second - 0xDC00
    ensures 0x1_0000 <= 0x1_0000 + (first - 0xD800) * 0x400 + (second - 0xDC00) <= 0x10_FFFF
  {
  }

  lemma {:induction false} PiecesFound(c: Text, i: nat, e: nat) returns (ps: seq<Piece>)
    requires i <= e < |c| && c[e] == '"' && Unescaped(c, i, e).Some?
    ensures Proper(ps, false) && BodyOf(ps) == c[i..e] && MeantBy(ps) == Unescaped(c, i, e).value
    decreases e - i
  {
    hide UnitMeans, UnitText, Unescaped, Proper;
    if i == e {
      NothingUnescaped(c, i, e);
      NoneProper();
      return [];
    }
    var p, n := PieceFound(c, i, e);
    if p.unit.Cut? {
      ps := [p];
      NothingUnescaped(c, i + 2, e);
      OneCut(p);
      assert c[i..e] == ['\\'];
    } else {
      var rest := PiecesFound(c, i + n, e);
      ps := [p] + rest;
      assert ps[1..] == rest && c[i..e] == c[i..i + n] + c[i + n..e];
      ProperCons(p, rest, false);
    }
  }

  lemma NoneProper()
    ensures Proper([], false)
  {
  }

  lemma OneCut(p: Piece)
    requires p.unit.Cut? && UnitMeans(p.unit, p.means, false)
    ensures Proper([p], false) && BodyOf([p]) == ['\\'] && MeantBy([p]) == ['"'] == p.means
  {
    assert [p][1..] == [];
    assert BodyOf([]) == [] && MeantBy([]) == [];
  }

  lemma ProperCons(p: Piece, rest: seq<Piece>, rfc: bool)
    requires UnitMeans(p.unit, p.means, rfc) && !p.unit.Cut?
    ensures Proper([p] + rest, rfc) <==> Proper(rest, rfc)
  {
    hide UnitMeans;
    var ps := [p] + rest;
    if Proper(ps, rfc) {
      forall i | 0 <= i < |rest| ensures UnitMeans(rest[i].unit, rest[i].means, rfc) && (rest[i].unit.Cut? ==> i == |rest| - 1) {
        assert rest[i] == ps[i + 1];
      }
    }
  }

  /** The unit at i; n is how far the second pass moves on. */
  lemma PieceFound(c: Text, i: nat, e: nat) returns (p: Piece, n: nat)
    requires i < e < |c| && c[e] == '"' && Unescaped(c, i, e).Some?
    ensures UnitMeans(p.unit, p.means, false) && Unescaped(c, i, e) == Prefix(p.means, Unescaped(c, i + n, e))
    ensures if p.unit.Cut? then i + 1 == e && n == 2 && c[i] == '\\'
            else 0 < n <= e - i && c[i..i + n] == UnitText(p.unit)
  {
    hide Utf16Literal, FromUtf8;
    if c[i] != '\\' {
      p, n := Piece(Raw(c[i]), [c[i]]), 1;
    } else if c[i + 1] == 'u' {
      p := LiteralFound(c, i, e);
      n := Utf16Literal(c, i, e).offset;
    } else {
      var b := SimpleEscape(c[i + 1]).value;
      n := 2;
      if i + 1 == e {
        p := Piece(Cut, ['"']);
      } else {
        p := Piece(Short(c[i + 1]), [b]);
        ShortMeans(c[i + 1], b);
        assert c[i..i + 2] == [c[i], c[i + 1]];
      }
    }
  }

  /** The short escapes. */
  lemma ShortMeans(x: Octet, b: Octet)
    ensures SimpleEscape(x) == Some(b) <==> UnitMeans(Short(x), [b], false)
  {
    var from, to := "\"\\/bfnrt", "\"\\/\U{8}\U{C}\n\r\t";
    if SimpleEscape(x) == Some(b) {
      var k := if x == '"' then 0 else if x == '\\' then 1 else if x == '/' then 2 else if x == 'b' then 3
               else if x == 'f' then 4 else if x == 'n' then 5 else if x == 'r' then 6 else 7;
      assert x == from[k] && [b] == [to[k]];
    }
  }

  lemma Slice(c: Text, i: nat, j: nat, a: nat, b: nat)
    requires i <= j <= |c| && a <= b <= j - i
    ensures c[i..j][a..b] == c[i + a..i + b]
  {
    var t := c[i..j];
    forall k | 0 <= k < b - a ensures t[a..b][k] == c[i + a..i + b][k] { assert t[a + k] == c[i + (a + k)]; }
    assert t[a..b] == c[i + a..i + b];
  }

  lemma LiteralIsRead(c: Text, i: nat, e: nat, p: Piece)
    requires (p.unit.Code? || p.unit.Pair?) && UnitMeans(p.unit, p.means, false)
    requires i + |UnitText(p.unit)| <= e < |c| && c[i..i + |UnitText(p.unit)|] == UnitText(p.unit)
    ensures c[i] == '\\' && c[i + 1] == 'u' && Utf16Literal(c, i, e) == Ok(p.means, |UnitText(p.unit)|)
  {
    hide Hex4, HexOf, Utf8, FromUtf8;
    var u := UnitText(p.unit);
    assert forall k | 0 <= k < |u| :: c[i + k] == u[k];
    assert c[i + 0] == u[0] && c[i + 1] == u[1];
    HexIsRead(c, i + 2);
    match p.unit
    case Code(h) =>
      Slice(c, i, i + 6, 2, 6);
      assert u[2..6] == h;
      Utf8IsOnly(p.means, HexOf(h));
    case Pair(h, l) =>
      Slice(c, i, i + 12, 2, 6);
      Slice(c, i, i + 12, 8, 12);
      assert u[2..6] == h && u[8..12] == l;
      assert c[i + 6] == u[6] && c[i + 7] == u[7];
      HexIsRead(c, i + 8);
      PairCodes(HexOf(h), HexOf(l));
      Utf8IsOnly(p.means, 0x1_0000 + (HexOf(h) - 0xD800) * 0x400 + (HexOf(l) - 0xDC00));
  }

  lemma PieceIsRead(c: Text, i: nat, e: nat, p: Piece)
    requires UnitMeans(p.unit, p.means, false)
    requires i + |UnitText(p.unit)| <= e < |c| && c[i..i + |UnitText(p.unit)|] == UnitText(p.unit) && c[e] == '"'
    requires p.unit.Cut? ==> i + 1 == e
    ensures Unescaped(c, i, e) == Prefix(p.means, if p.unit.Cut? then Some([]) else Unescaped(c, i + |UnitText(p.unit)|, e))
  {
    hide Utf16Literal, FromUtf8, SimpleEscape;
    var u := UnitText(p.unit);
    assert c[i] == c[i..i + |u|][0] == u[0];
    match p.unit
    case Raw(b) =>
    case Short(b) =>
      assert c[i + 1] == c[i..i + |u|][1] == u[1];
      ShortIsNotU(b, p.means);
      ShortMeans(b, p.means[0]);
    case Cut =>
      ShortMeans('"', '"');
      assert "\"\\/bfnrt"[0] == '"' && "\"\\/\U{8}\U{C}\n\r\t"[0] == '"';
      assert Unescaped(c, i + 2, e) == Some([]);
    case _ => LiteralIsRead(c, i, e, p);
  }

  lemma ShortIsNotU(b: Octet, t: Text)
    requires UnitMeans(Short(b), t, false)
    ensures b != 'u' && |t| == 1 && t == [t[0]]
  {
  }

  lemma {:induction false} PiecesAreRead(c: Text, i: nat, e: nat, ps: seq<Piece>)
    requires i <= e < |c| && c[e] == '"' && Proper(ps, false) && BodyOf(ps) == c[i..e]
    ensures Unescaped(c, i, e) == Some(MeantBy(ps))
    decreases |ps|
  {
    hide UnitMeans, UnitText, Unescaped;
    if ps == [] {
      NothingUnescaped(c, i, e);
    } else {
      var p := ps[0];
      var n := |UnitText(p.unit)|;
      assert c[i..e] == UnitText(p.unit) + BodyOf(ps[1..]);
      assert c[i..e][..n] == UnitText(p.unit) && c[i..e][n..] == BodyOf(ps[1..]);
      assert c[i..i + n] == c[i..e][..n] && c[i + n..e] == c[i..e][n..];
      if p.unit.Cut? {
        assert ps[1..] == [];
        OneByte(p.unit);
      }
      PieceIsRead(c, i, e, p);
      if p.unit.Cut? {
        assert MeantBy(ps) == p.means + [];
      } else {
        assert ps == [p] + ps[1..];
        ProperCons(p, ps[1..], false);
        PiecesAreRead(c, i + n, e, ps[1..]);
      }
    }
  }

  lemma OneByte(u: Unit)
    requires u.Cut?
    ensures |UnitText(u)| == 1 && BodyOf([]) == []
  {
  }

  lemma NothingUnescaped(c: Text, i: nat, e: nat)
    requires e < |c| && i >= e
    ensures Unescaped(c, i, e) == Some([])
  {
  }

  /** parse_string. */
  lemma ReadsStrings(c: Text, o: nat, s: Text, end: nat)
    requires o < |c|
    ensures StringAt(c, o) == Ok(s, end) <==> o < end <= |c| && SpellsString(c[o..end], s, false)
  {
    hide Proper, BodyOf, MeantBy, QuotesEscaped, Unescaped, ClosingQuote, UpToNul;
    if StringAt(c, o) == Ok(s, end) { StringFound(c, o, s, end); }
    if o < end <= |c| && SpellsString(c[o..end], s, false) { StringIsRead(c, o, s, end); }
  }

  lemma StringFound(c: Text, o: nat, s: Text, end: nat)
    requires o < |c| && StringAt(c, o) == Ok(s, end)
    ensures o < end <= |c| && SpellsString(c[o..end], s, false)
  {
    hide Proper, BodyOf, MeantBy, QuotesEscaped, Unescaped, ClosingQuote, UpToNul;
    var e := ClosingQuote(c, o + 1).value;
    QuoteFound(c, o + 1);
    QuoteStands(c, o + 1);
    var ps := PiecesFound(c, o + 1, e);
    assert c[o..end] == ['"'] + c[o + 1..e] + ['"'];
    assert Proper(ps, false) && QuotesEscaped(BodyOf(ps)) && c[o..end] == "\"" + BodyOf(ps) + "\"" && s == UpToNul(MeantBy(ps));
  }

  lemma QuoteStands(c: Text, i: nat)
    requires ClosingQuote(c, i).Some?
    ensures var e := ClosingQuote(c, i).value; i <= e < |c| && c[e] == '"'
  {
  }

  lemma StringIsRead(c: Text, o: nat, s: Text, end: nat)
    requires o < end <= |c| && SpellsString(c[o..end], s, false)
    ensures StringAt(c, o) == Ok(s, end)
  {
    hide Proper, BodyOf, MeantBy, QuotesEscaped, Unescaped, ClosingQuote, UpToNul;
    var ps: seq<Piece> :|
      Proper(ps, false) && QuotesEscaped(BodyOf(ps)) && c[o..end] == "\"" + BodyOf(ps) + "\"" && s == UpToNul(MeantBy(ps));
    var t, e := c[o..end], end - 1;
    assert |t| == |BodyOf(ps)| + 2;
    assert c[o] == t[0] == '"' && c[e] == t[|t| - 1] == '"';
    Slice(c, o, end, 1, |t| - 1);
    assert t[1..|t| - 1] == BodyOf(ps);
    QuoteIsFound(c, o + 1, e);
    PiecesAreRead(c, o + 1, e, ps);
  }

  // ----- numbers

  lemma IntIsOnly(i: int, d: real)
    ensures IsInt(i, d) <==> i == Saturate(d)
  {
  }

  ghost predicate NumberChars(t: Text) {
    forall i | 0 <= i < |t| :: IsNumberChar(t[i])
  }

  lemma NumberCharsJoin(a: Text, b: Text)
    requires NumberChars(a) && NumberChars(b)
    ensures NumberChars(a + b)
  {
  }

  lemma NumeralChars(n: Numeral)
    requires IsNumeral(n)
    ensures NumberChars(NumeralText(n))
  {
    hide NumberChars;
    assert NumberChars(n.sign) && NumberChars(n.whole) && NumberChars(n.fraction) by { PartChars(n); }
    assert NumberChars(n.mark) && NumberChars(n.esign) && NumberChars(n.exponent) && NumberChars(".") && NumberChars([]) by { PartChars(n); }
    NumberCharsJoin(n.sign, n.whole);
    NumberCharsJoin(".", n.fraction);
    NumberCharsJoin(n.sign + n.whole, PointText(n));
    NumberCharsJoin(n.mark, n.esign);
    NumberCharsJoin(n.mark + n.esign, n.exponent);
    NumberCharsJoin(n.sign + n.whole + PointText(n), ExponentText(n));
  }

  lemma PartChars(n: Numeral)
    requires IsNumeral(n)
    ensures NumberChars(n.sign) && NumberChars(n.whole) && NumberChars(n.fraction)
    ensures NumberChars(n.mark) && NumberChars(n.esign) && NumberChars(n.exponent) && NumberChars(".") && NumberChars([])
  {
  }

  /** A number is taken as far as there are bytes that may be in one, so none may follow. */
  lemma NumberIsRead(c: Text, o: nat, end: nat, d: real)
    requires o < end < |c| && SpellsNumber(c[o..end], d, false) && !IsNumberChar(c[end])
    ensures NumberAt(c, o) == Ok(Number(Saturate(d), d), end)
  {
    hide IsNumeral, NumeralText, Denotes, Strtod, NumberRun, IsNumberChar;
    var t := c[o..end];
    var n: Numeral :| NumeralText(n) == t && IsNumeral(n) && Denotes(n, d) && MayStand(n, false) && |t| <= 63;
    NumeralChars(n);
    Stands(c, o, end);
    NumberRunIsText(c, o, t, 0);
    StrtodReads(n);
    DenotesOnce(n, d, Strtod(t).0);
  }

  lemma Stands(c: Text, o: nat, end: nat)
    requires o <= end <= |c|
    ensures At(c, o, c[o..end])
  {
  }

  lemma NumberFound(c: Text, o: nat)
    requires o < |c| && (c[o] == '-' || IsDigit(c[o])) && NumberAt(c, o).Ok?
    ensures var r := NumberAt(c, o); r.value.Number? && IsInt(r.value.valueint, r.value.valuedouble)
    ensures SpellsNumber(c[o..NumberAt(c, o).offset], NumberAt(c, o).value.valuedouble, false)
  {
    hide IsNumeral, NumeralText, Denotes, Strtod, NumberRun, IsInt;
    var run := c[o..o + NumberRun(c, o, 0)];
    var (d, used) := Strtod(run);
    IntIsOnly(Saturate(d), d);
    var n := StrtodIsNumeral(run);
    Slice(c, o, o + |run|, 0, used);
    assert c[o..o + used] == run[..used] == NumeralText(n);
    StandsAlone(n, c[o]);
    assert |c[o..o + used]| <= 63;
    assert NumeralText(n) == c[o..o + used] && IsNumeral(n) && Denotes(n, d) && MayStand(n, false);
  }

  lemma StandsAlone(n: Numeral, first: Octet)
    requires IsNumeral(n) && NumeralText(n) != [] && NumeralText(n)[0] == first && (first == '-' || IsDigit(first))
    ensures MayStand(n, false)
  {
    FirstOfParts(n);
  }

  // ----- trees

  lemma FirstOfSpelled(c: Text, o: nat, end: nat, v: Json)
    requires Spells(c, o, end, v, false)
    ensures c[o] > ' ' && c[o] != ']' && c[o] != '}'
    ensures v.Number? ==> c[o] == '-' || IsDigit(c[o])
    ensures v.String? ==> c[o] == '"'
  {
    hide SpellsItems, SpellsMembers;
    var t := c[o..end];
    assert c[o] == t[0];
    match v
    case Number(_, d) =>
      var n: Numeral :| NumeralText(n) == t && IsNumeral(n) && Denotes(n, d) && MayStand(n, false) && |t| <= 63;
      if n.sign == "" { assert t[0] == n.whole[0]; } else { assert t[0] == n.sign[0]; }
    case String(s) => FirstOfString(t, s);
    case _ =>
  }

  lemma FirstOfString(t: Text, s: Text)
    requires SpellsString(t, s, false)
    ensures |t| >= 2 && t[0] == '"'
  {
  }

  lemma ObjectStep(c: Text, o: nat, depth: nat)
    requires Terminated(c) && o + 1 < |c| && c[o] == '{'
    ensures depth >= NESTING_LIMIT ==> ValueAt(c, o, depth) == Fail
    ensures depth < NESTING_LIMIT ==>
      var p := SkipWhitespace(c, o + 1);
      ValueAt(c, o, depth) == if c[p] == '}' then Ok(Object(NoMember), p + 1)
                              else var r := MembersAt(c, p, depth + 1); if r.Ok? then Ok(Object(r.value), r.offset) else Fail
  {
    hide Terminated, Literal, MembersAt, SkipWhitespace;
    NoLiteral(c, o);
  }

  lemma OpensInside(c: Text, o: nat)
    requires Terminated(c) && o < |c| && c[o] != '\0'
    ensures o + 1 < |c|
  {
  }

  /** Whatever is accepted is spelled, and not nested too deeply. */
  lemma {:induction false} ValueFound(c: Text, o: nat, depth: nat)
    requires Terminated(c) && o < |c| && depth <= NESTING_LIMIT && ValueAt(c, o, depth).Ok?
    ensures var r := ValueAt(c, o, depth); Spells(c, o, r.offset, r.value, false) && depth + Nesting(r.value) <= NESTING_LIMIT
    decreases |c| - o, 1
  {
    if c[o] == '[' {
      ArrayFound(c, o, depth);
    } else if c[o] == '{' {
      ObjectFound(c, o, depth);
    } else {
      ScalarFound(c, o, depth);
    }
  }

  lemma ScalarFound(c: Text, o: nat, depth: nat)
    requires Terminated(c) && o < |c| && c[o] != '[' && c[o] != '{' && ValueAt(c, o, depth).Ok?
    ensures var r := ValueAt(c, o, depth); Spells(c, o, r.offset, r.value, false) && Nesting(r.value) == 0
  {
    hide SpellsString, SpellsNumber, NumberAt, StringAt, IsInt;
    var r := ValueAt(c, o, depth);
    NoLiteral(c, o);
    if Literal(c, o, "null") {
      WordStands(c, o, "null");
    } else if Literal(c, o, "false") {
      WordStands(c, o, "false");
    } else if Literal(c, o, "true") {
      WordStands(c, o, "true");
    } else if c[o] == '"' {
      ReadsStrings(c, o, r.value.valuestring, r.offset);
    } else {
      NumberFound(c, o);
    }
  }

  lemma WordStands(c: Text, o: nat, word: Text)
    ensures Literal(c, o, word) <==> o + |word| <= |c| && c[o..o + |word|] == word
  {
    if o + |word| <= |c| && c[o..o + |word|] == word {
      forall i | 0 <= i < |word| ensures c[o + i] == word[i] { assert c[o..o + |word|][i] == word[i]; }
    }
  }

  lemma {:induction false} ArrayFound(c: Text, o: nat, depth: nat)
    requires Terminated(c) && o < |c| && depth <= NESTING_LIMIT && c[o] == '[' && ValueAt(c, o, depth).Ok?
    ensures var r := ValueAt(c, o, depth); Spells(c, o, r.offset, r.value, false) && depth + Nesting(r.value) <= NESTING_LIMIT
    decreases |c| - o, 0
  {
    hide Terminated, Blank, ValueAt, ItemsAt, SkipWhitespace, Spells, SpellsItems;
    OpensInside(c, o);
    ArrayAt(c, o, depth);
    SkipsBlanks(c, o + 1);
    var p := SkipWhitespace(c, o + 1);
    if c[p] != ']' { ItemsFound(c, p, depth + 1); } else { NoItems(c, p); }
    ArraySpelled(c, o, p, ValueAt(c, o, depth).offset, ValueAt(c, o, depth).value.items);
  }

  lemma NoItems(c: Text, p: nat)
    requires ByteAt(c, p, ']')
    ensures SpellsItems(c, p, p + 1, NoItem, false)
  {
  }

  lemma ArraySpelled(c: Text, o: nat, p: nat, end: nat, items: Items)
    requires o < end <= |c| && c[o] == '[' && Blank(c, o + 1, p, false) && SpellsItems(c, p, end, items, false)
    ensures Spells(c, o, end, Array(items), false)
  {
    hide Blank, SpellsItems;
  }

  lemma {:induction false} ItemsFound(c: Text, o: nat, depth: nat)
    requires Terminated(c) && o < |c| && depth <= NESTING_LIMIT && ItemsAt(c, o, depth).Ok?
    ensures var r := ItemsAt(c, o, depth);
      SpellsItems(c, o, r.offset, r.value, false) && depth + ItemsNesting(r.value) <= NESTING_LIMIT
    decreases |c| - o, 2
  {
    hide Terminated, Blank, ValueAt, ItemsAt, SkipWhitespace, Spells, Nesting;
    ItemsStep(c, o, depth);
    ValueFound(c, o, depth);
    var v := ValueAt(c, o, depth);
    var p := v.offset;
    var q := SkipWhitespace(c, p);
    SkipsBlanks(c, p);
    if c[q] == ',' {
      var r := SkipWhitespace(c, q + 1);
      SkipsBlanks(c, q + 1);
      ItemsFound(c, r, depth);
      ItemsMore(c, o, p, q, r, ItemsAt(c, r, depth).offset, v.value, ItemsAt(c, r, depth).value);
    } else {
      ItemsLast(c, o, p, q, v.value);
    }
  }

  lemma ItemsLast(c: Text, o: nat, p: nat, q: nat, v: Json)
    requires Spells(c, o, p, v, false) && Blank(c, p, q, false) && ByteAt(c, q, ']')
    ensures SpellsItems(c, o, q + 1, Item(v, NoItem), false)
  {
    hide Spells, Blank;
  }

  lemma ItemsMore(c: Text, o: nat, p: nat, q: nat, r: nat, end: nat, v: Json, next: Items)
    requires Spells(c, o, p, v, false) && Blank(c, p, q, false) && ByteAt(c, q, ',') && Blank(c, q + 1, r, false)
    requires next.Item? && SpellsItems(c, r, end, next, false)
    ensures SpellsItems(c, o, end, Item(v, next), false)
  {
    hide Spells, Blank;
  }

  lemma {:induction false} ObjectFound(c: Text, o: nat, depth: nat)
    requires Terminated(c) && o < |c| && depth <= NESTING_LIMIT && c[o] == '{' && ValueAt(c, o, depth).Ok?
    ensures var r := ValueAt(c, o, depth); Spells(c, o, r.offset, r.value, false) && depth + Nesting(r.value) <= NESTING_LIMIT
    decreases |c| - o, 0
  {
    hide Terminated, Blank, ValueAt, MembersAt, SkipWhitespace, Spells, SpellsMembers;
    OpensInside(c, o);
    ObjectStep(c, o, depth);
    SkipsBlanks(c, o + 1);
    var p := SkipWhitespace(c, o + 1);
    if c[p] != '}' { MembersFound(c, p, depth + 1); } else { NoMembers(c, p); }
    ObjectSpelled(c, o, p, ValueAt(c, o, depth).offset, ValueAt(c, o, depth).value.members);
  }

  lemma NoMembers(c: Text, p: nat)
    requires ByteAt(c, p, '}')
    ensures SpellsMembers(c, p, p + 1, NoMember, false)
  {
  }

  lemma ObjectSpelled(c: Text, o: nat, p: nat, end: nat, members: Members)
    requires o < end <= |c| && c[o] == '{' && Blank(c, o + 1, p, false) && SpellsMembers(c, p, end, members, false)
    ensures Spells(c, o, end, Object(members), false)
  {
    hide Blank, SpellsMembers;
  }

  lemma NameFound(c: Text, o: nat)
    requires Terminated(c) && o < |c| && NameAt(c, o).Ok?
    ensures NameAt(c, o).offset + 1 < |c|
    ensures SpellsName(c, o, SkipWhitespace(c, NameAt(c, o).offset + 1), NameAt(c, o).value, false)
  {
    hide SpellsString, Blank, SkipWhitespace, StringAt;
    var (key, m) := (StringAt(c, o).value, StringAt(c, o).offset);
    ReadsStrings(c, o, key, m);
    SkipsBlanks(c, m);
    var k := SkipWhitespace(c, m);
    SkipsBlanks(c, k + 1);
    assert ByteAt(c, k, ':');
  }

  lemma {:induction false} MembersFound(c: Text, o: nat, depth: nat)
    requires Terminated(c) && o < |c| && depth <= NESTING_LIMIT && MembersAt(c, o, depth).Ok?
    ensures var r := MembersAt(c, o, depth);
      SpellsMembers(c, o, r.offset, r.value, false) && depth + MembersNesting(r.value) <= NESTING_LIMIT
    decreases |c| - o, 2
  {
    hide Terminated, Blank, ValueAt, MembersAt, NameAt, SkipWhitespace, Spells, SpellsName, Nesting;
    MembersStep(c, o, depth);
    NameFound(c, o);
    var key, colon := NameAt(c, o).value, NameAt(c, o).offset;
    SkipsBlanks(c, colon + 1);
    var x := SkipWhitespace(c, colon + 1);
    BlankGoesOn(c, colon + 1, x);
    ValueFound(c, x, depth);
    var v := ValueAt(c, x, depth);
    var p := v.offset;
    var q := SkipWhitespace(c, p);
    SkipsBlanks(c, p);
    assert SpellsMember(c, o, q, key, v.value, false);
    if c[q] == ',' {
      var r := SkipWhitespace(c, q + 1);
      SkipsBlanks(c, q + 1);
      BlankGoesOn(c, q + 1, r);
      MembersFound(c, r, depth);
      MembersMore(c, o, q, r, MembersAt(c, r, depth).offset, key, v.value, MembersAt(c, r, depth).value);
    } else {
      MembersLast(c, o, q, key, v.value);
    }
  }

  lemma BlankGoesOn(c: Text, i: nat, j: nat)
    requires Blank(c, i, j, false)
    ensures i <= j
  {
  }

  lemma MembersLast(c: Text, o: nat, q: nat, key: Text, v: Json)
    requires SpellsMember(c, o, q, key, v, false) && ByteAt(c, q, '}')
    ensures SpellsMembers(c, o, q + 1, Member(key, v, NoMember), false)
  {
    hide SpellsMember;
  }

  lemma MembersMore(c: Text, o: nat, q: nat, r: nat, end: nat, key: Text, v: Json, next: Members)
    requires SpellsMember(c, o, q, key, v, false) && ByteAt(c, q, ',') && Blank(c, q + 1, r, false)
    requires next.Member? && SpellsMembers(c, r, end, next, false)
    ensures SpellsMembers(c, o, end, Member(key, v, next), false)
  {
    hide SpellsMember, Blank;
  }

  /** Whatever is spelled and not nested too deeply is accepted; behind a number there must be nothing that could go on with it. */
  lemma {:induction false} ValueIsRead(c: Text, o: nat, end: nat, v: Json, depth: nat)
    requires Terminated(c) && Spells(c, o, end, v, false) && end < |c| && depth + Nesting(v) <= NESTING_LIMIT
    requires v.Number? ==> !IsNumberChar(c[end])
    ensures ValueAt(c, o, depth) == Ok(v, end)
    decreases v, 1
  {
    match v
    case Array(items) => ArrayIsRead(c, o, end, items, depth);
    case Object(members) => ObjectIsRead(c, o, end, members, depth);
    case _ => ScalarIsRead(c, o, end, v, depth);
  }

  lemma ScalarIsRead(c: Text, o: nat, end: nat, v: Json, depth: nat)
    requires Terminated(c) && Spells(c, o, end, v, false) && end < |c| && !v.Array? && !v.Object?
    requires v.Number? ==> !IsNumberChar(c[end])
    ensures ValueAt(c, o, depth) == Ok(v, end)
  {
    hide SpellsString, SpellsNumber, NumberAt, StringAt, IsInt, IsNumberChar;
    FirstOfSpelled(c, o, end, v);
    NoLiteral(c, o);
    match v
    case Null => WordStands(c, o, "null");
    case False => WordStands(c, o, "false");
    case True => WordStands(c, o, "true");
    case Number(i, d) =>
      IntIsOnly(i, d);
      NumberIsRead(c, o, end, d);
    case String(s) => ReadsStrings(c, o, s, end);
  }

  lemma {:induction false} ArrayIsRead(c: Text, o: nat, end: nat, items: Items, depth: nat)
    requires Terminated(c) && Spells(c, o, end, Array(items), false) && end < |c| && depth + 1 + ItemsNesting(items) <= NESTING_LIMIT
    ensures ValueAt(c, o, depth) == Ok(Array(items), end)
    decreases items, 3
  {
    hide Terminated, Blank, ValueAt, ItemsAt, SkipWhitespace, Spells, SpellsItems;
    var p := ArrayPart(c, o, end, items);
    InBounds(c, o, end, Array(items));
    ArrayAt(c, o, depth);
    if items.NoItem? { EmptyEnds(c, p, end); }
    FirstOfItems(c, p, end, items);
    BlanksAreSkipped(c, o + 1, p);
    if items.Item? { ItemsAreRead(c, p, end, items, depth + 1); }
  }

  lemma FirstOfItems(c: Text, o: nat, end: nat, items: Items)
    requires SpellsItems(c, o, end, items, false)
    ensures o < |c| && c[o] > ' ' && (c[o] == ']' <==> items.NoItem?)
  {
    hide Spells, Blank;
    if items.Item? {
      var p, q, r := ItemParts(c, o, end, items);
      FirstOfSpelled(c, o, p, items.value);
      InBounds(c, o, p, items.value);
    }
  }

  /** Where an element ends, where the byte behind it stands, and where the next element begins. */
  lemma ItemParts(c: Text, o: nat, end: nat, items: Items) returns (p: nat, q: nat, r: nat)
    requires SpellsItems(c, o, end, items, false) && items.Item?
    ensures Spells(c, o, p, items.value, false) && Blank(c, p, q, false)
    ensures items.next.NoItem? ==> ByteAt(c, q, ']') && q + 1 == end
    ensures items.next.Item? ==> ByteAt(c, q, ',') && Blank(c, q + 1, r, false) && SpellsItems(c, r, end, items.next, false)
  {
    hide Spells, Blank;
    match items
    case Item(v, NoItem) =>
      var x: nat, y: nat :| Spells(c, o, x, v, false) && Blank(c, x, y, false) && ByteAt(c, y, ']') && y + 1 == end;
      p, q, r := x, y, 0;
    case Item(v, next) =>
      var x: nat, y: nat, z: nat :| Spells(c, o, x, v, false) && Blank(c, x, y, false) && ByteAt(c, y, ',')
                                    && Blank(c, y + 1, z, false) && SpellsItems(c, z, end, next, false);
      p, q, r := x, y, z;
  }

  lemma InBounds(c: Text, o: nat, end: nat, v: Json)
    requires Spells(c, o, end, v, false)
    ensures o < end <= |c|
  {
  }

  lemma ArrayPart(c: Text, o: nat, end: nat, items: Items) returns (p: nat)
    requires Spells(c, o, end, Array(items), false)
    ensures o < |c| && c[o] == '[' && o + 1 <= p <= |c| && Blank(c, o + 1, p, false) && SpellsItems(c, p, end, items, false)
  {
    hide SpellsItems;
    var x: nat :| Blank(c, o + 1, x, false) && SpellsItems(c, x, end, items, false);
    p := x;
  }

  lemma ObjectPart(c: Text, o: nat, end: nat, members: Members) returns (p: nat)
    requires Spells(c, o, end, Object(members), false)
    ensures o < |c| && c[o] == '{' && o + 1 <= p <= |c| && Blank(c, o + 1, p, false) && SpellsMembers(c, p, end, members, false)
  {
    hide SpellsMembers;
    var x: nat :| Blank(c, o + 1, x, false) && SpellsMembers(c, x, end, members, false);
    p := x;
  }

  lemma EmptyEnds(c: Text, p: nat, end: nat)
    ensures SpellsItems(c, p, end, NoItem, false) ==> p + 1 == end
    ensures SpellsMembers(c, p, end, NoMember, false) ==> p + 1 == end
  {
  }

  /** Between a value and the byte behind it. */
  lemma AfterValue(c: Text, p: nat, q: nat, b: Octet)
    requires Blank(c, p, q, false) && ByteAt(c, q, b) && (b == ',' || b == ']' || b == '}')
    ensures p <= q < |c| && SkipWhitespace(c, p) == q && c[q] == b && !IsNumberChar(c[p])
  {
    BlanksAreSkipped(c, p, q);
  }

  lemma {:induction false} ItemsAreRead(c: Text, o: nat, end: nat, items: Items, depth: nat)
    requires Terminated(c) && SpellsItems(c, o, end, items, false) && items.Item? && depth + ItemsNesting(items) <= NESTING_LIMIT
    ensures o < |c| && ItemsAt(c, o, depth) == Ok(items, end)
    decreases items, 2
  {
    hide Terminated, Blank, ValueAt, ItemsAt, SkipWhitespace, Spells, SpellsItems, Nesting, IsNumberChar;
    FirstOfItems(c, o, end, items);
    ItemsStep(c, o, depth);
    var p, q, r := ItemParts(c, o, end, items);
    AfterValue(c, p, q, if items.next.Item? then ',' else ']');
    ValueIsRead(c, o, p, items.value, depth);
    if items.next.Item? {
      FirstOfItems(c, r, end, items.next);
      BlanksAreSkipped(c, q + 1, r);
      ItemsAreRead(c, r, end, items.next, depth);
    }
  }

  lemma {:induction false} ObjectIsRead(c: Text, o: nat, end: nat, members: Members, depth: nat)
    requires Terminated(c) && Spells(c, o, end, Object(members), false) && end < |c|
    requires depth + 1 + MembersNesting(members) <= NESTING_LIMIT
    ensures ValueAt(c, o, depth) == Ok(Object(members), end)
    decreases members, 3
  {
    hide Terminated, Blank, ValueAt, MembersAt, SkipWhitespace, Spells, SpellsMembers;
    var p := ObjectPart(c, o, end, members);
    InBounds(c, o, end, Object(members));
    ObjectStep(c, o, depth);
    if members.NoMember? { EmptyEnds(c, p, end); }
    FirstOfMembers(c, p, end, members);
    BlanksAreSkipped(c, o + 1, p);
    if members.Member? { MembersAreRead(c, p, end, members, depth + 1); }
  }

  lemma FirstOfName(c: Text, o: nat, x: nat, key: Text)
    requires SpellsName(c, o, x, key, false)
    ensures o < |c| && c[o] == '"'
  {
    hide SpellsString, Blank;
    var m: nat, k: nat :| o < m <= |c| && SpellsString(c[o..m], key, false) && Blank(c, m, k, false) && ByteAt(c, k, ':')
                          && Blank(c, k + 1, x, false);
    FirstOfString(c[o..m], key);
    assert c[o] == c[o..m][0];
  }

  lemma FirstOfMembers(c: Text, o: nat, end: nat, members: Members)
    requires SpellsMembers(c, o, end, members, false)
    ensures o < |c| && c[o] > ' ' && (c[o] == '}' <==> members.NoMember?) && (members.Member? ==> c[o] == '"')
  {
    hide Spells, SpellsName, Blank;
    match members
    case NoMember =>
    case Member(key, v, NoMember) =>
      var q: nat :| SpellsMember(c, o, q, key, v, false) && ByteAt(c, q, '}') && q + 1 == end;
      var x: nat, p: nat :| SpellsName(c, o, x, key, false) && Spells(c, x, p, v, false) && Blank(c, p, q, false);
      FirstOfName(c, o, x, key);
    case Member(key, v, next) =>
      var q: nat, r: nat :| SpellsMember(c, o, q, key, v, false) && ByteAt(c, q, ',') && Blank(c, q + 1, r, false)
                            && SpellsMembers(c, r, end, next, false);
      var x: nat, p: nat :| SpellsName(c, o, x, key, false) && Spells(c, x, p, v, false) && Blank(c, p, q, false);
      FirstOfName(c, o, x, key);
  }

  /** A name, and where its value stands. */
  lemma NameIsRead(c: Text, o: nat, x: nat, key: Text)
    requires Terminated(c) && SpellsName(c, o, x, key, false) && x < |c| && c[x] > ' '
    ensures o < |c| && NameAt(c, o).Ok? && NameAt(c, o).value == key
    ensures NameAt(c, o).offset + 1 < |c| && SkipWhitespace(c, NameAt(c, o).offset + 1) == x
  {
    hide SpellsString, Blank, SkipWhitespace, StringAt;
    var m: nat, k: nat :| o < m <= |c| && SpellsString(c[o..m], key, false) && Blank(c, m, k, false) && ByteAt(c, k, ':')
                          && Blank(c, k + 1, x, false);
    ReadsStrings(c, o, key, m);
    BlankGoesOn(c, m, k);
    BlankGoesOn(c, k + 1, x);
    BlanksAreSkipped(c, m, k);
    BlanksAreSkipped(c, k + 1, x);
  }

  /** One member, up to the byte behind it. */
  lemma {:induction false} MemberIsRead(c: Text, o: nat, q: nat, key: Text, v: Json, depth: nat, b: Octet)
    requires Terminated(c) && SpellsMember(c, o, q, key, v, false) && ByteAt(c, q, b) && (b == ',' || b == '}')
    requires depth + Nesting(v) <= NESTING_LIMIT
    ensures o < |c| && NameAt(c, o).Ok? && NameAt(c, o).value == key && NameAt(c, o).offset + 1 < |c|
    ensures var r := ValueAt(c, SkipWhitespace(c, NameAt(c, o).offset + 1), depth);
      r.Ok? && r.value == v && SkipWhitespace(c, r.offset) == q
    decreases v, 2
  {
    hide Terminated, Blank, ValueAt, NameAt, SkipWhitespace, Spells, SpellsName, Nesting, IsNumberChar;
    var x: nat, p: nat :| SpellsName(c, o, x, key, false) && Spells(c, x, p, v, false) && Blank(c, p, q, false);
    AfterValue(c, p, q, b);
    FirstOfSpelled(c, x, p, v);
    InBounds(c, x, p, v);
    NameIsRead(c, o, x, key);
    ValueIsRead(c, x, p, v, depth);
  }

  lemma {:induction false} MembersAreRead(c: Text, o: nat, end: nat, members: Members, depth: nat)
    requires Terminated(c) && SpellsMembers(c, o, end, members, false) && members.Member?
    requires depth + MembersNesting(members) <= NESTING_LIMIT
    ensures o < |c| && MembersAt(c, o, depth) == Ok(members, end)
    decreases members, 2
  {
    hide Terminated, Blank, ValueAt, MembersAt, NameAt, SkipWhitespace, SpellsMember, Nesting;
    FirstOfMembers(c, o, end, members);
    MembersStep(c, o, depth);
    match members
    case Member(key, v, NoMember) =>
      var q: nat :| SpellsMember(c, o, q, key, v, false) && ByteAt(c, q, '}') && q + 1 == end;
      MemberIsRead(c, o, q, key, v, depth, '}');
    case Member(key, v, next) =>
      var q: nat, r: nat :| SpellsMember(c, o, q, key, v, false) && ByteAt(c, q, ',') && Blank(c, q + 1, r, false)
                            && SpellsMembers(c, r, end, next, false);
      MemberIsRead(c, o, q, key, v, depth, ',');
      FirstOfMembers(c, r, end, next);
      BlanksAreSkipped(c, q + 1, r);
      MembersAreRead(c, r, end, next, depth);
  }

  // ----- whole texts

  /** A text is white space, a value and white space; behind a byte order mark too, which RFC 8259 lets parsers ignore. */
  ghost predicate SpellsText(text: Text, v: Json, rfc: bool) {
    exists start: nat, o: nat, end: nat :: TextParts(text + ['\0'], |text|, start, o, end, v, rfc)
  }

  ghost predicate TextParts(c: Text, n: nat, start: nat, o: nat, end: nat, v: Json, rfc: bool) {
    && (start == 0 || (start == 3 <= n <= |c| && !rfc && c[0] == '\U{EF}' && c[1] == '\U{BB}' && c[2] == '\U{BF}'))
    && Blank(c, start, o, rfc) && Spells(c, o, end, v, rfc) && Blank(c, end, n, rfc)
  }

  lemma BelowMark(c: Text, o: nat, end: nat, v: Json)
    requires Spells(c, o, end, v, false)
    ensures c[o] < '\U{80}'
  {
    hide SpellsItems, SpellsMembers, SpellsNumber, SpellsString;
    FirstOfSpelled(c, o, end, v);
    assert c[o] == c[o..end][0];
  }

  lemma TextFound(text: Text)
    requires NulFree(text) && Parse(text, true).Ok?
    ensures var r := Parse(text, true); r.offset == |text| && SpellsText(text, r.value, false) && Nesting(r.value) <= NESTING_LIMIT
  {
    hide ValueAt, SkipWhitespace, Spells, Blank, Nesting;
    var c := text + ['\0'];
    CStringIsTerminated(text);
    var start := SkipBom(c);
    var o := SkipWhitespace(c, start);
    SkipsBlanks(c, start);
    ValueFound(c, o, 0);
    var v, end := ValueAt(c, o, 0).value, ValueAt(c, o, 0).offset;
    SkipsBlanks(c, end);
    assert SkipWhitespace(c, end) == |text|;
    assert TextParts(c, |text|, start, o, end, v, false);
  }

  lemma TextIsRead(text: Text, v: Json)
    requires NulFree(text) && SpellsText(text, v, false) && Nesting(v) <= NESTING_LIMIT
    ensures Parse(text, true) == Ok(v, |text|)
  {
    hide ValueAt, SkipWhitespace, Spells, Nesting;
    var c := text + ['\0'];
    CStringIsTerminated(text);
    var start: nat, o: nat, end: nat :| TextParts(c, |text|, start, o, end, v, false);
    InBounds(c, o, end, v);
    FirstOfSpelled(c, o, end, v);
    BelowMark(c, o, end, v);
    assert SkipBom(c) == start;
    BlanksAreSkipped(c, start, o);
    ValueIsRead(c, o, end, v, 0);
    TerminatorFound(c, end);
  }

  lemma {:induction false} TerminatorFound(c: Text, i: nat)
    requires Terminated(c) && i < |c| && Blank(c, i, |c| - 1, false)
    ensures SkipWhitespace(c, i) == |c| - 1
    decreases |c| - i
  {
    if i + 1 < |c| { TerminatorFound(c, i + 1); }
  }

  /** Main result: kJSON_ParseWithOpts accepts exactly the texts that spell a tree nested at most 1000 deep, as that tree. */
  lemma ParsesExactly(text: Text, v: Json)
    requires NulFree(text)
    ensures Parse(text, true) == Ok(v, |text|) <==> SpellsText(text, v, false) && Nesting(v) <= 1000
    ensures Parse(text, true).Ok? ==> Parse(text, true).offset == |text|
  {
    hide Parse, SpellsText, Nesting;
    if Parse(text, true).Ok? { TextFound(text); }
    if SpellsText(text, v, false) && Nesting(v) <= 1000 { TextIsRead(text, v); }
  }

  /** Without the demand for a terminator behind it, a value is taken from the front of the text. */
  lemma ParsesFront(text: Text)
    requires NulFree(text) && Parse(text, false).Ok?
    ensures var r := Parse(text, false); var c := text + ['\0'];
      r.offset <= |text| && Nesting(r.value) <= 1000 && exists o: nat :: Spells(c, o, r.offset, r.value, false)
  {
    hide ValueAt, SkipWhitespace, Spells, Nesting;
    var c := text + ['\0'];
    CStringIsTerminated(text);
    ValueFound(c, SkipWhitespace(c, SkipBom(c)), 0);
  }

  /** The texts of RFC 8259 are accepted, up to the depth and the length of numerals. */
  lemma RfcTextsAreParsed(text: Text, v: Json)
    requires NulFree(text) && SpellsText(text, v, true) && Nesting(v) <= 1000
    ensures Parse(text, true) == Ok(v, |text|)
  {
    hide Spells, Nesting;
    var c := text + ['\0'];
    var start: nat, o: nat, end: nat :| TextParts(c, |text|, start, o, end, v, true);
    RfcSpells(c, o, end, v);
    assert TextParts(c, |text|, start, o, end, v, false);
    TextIsRead(text, v);
  }

  /** A text spells one tree at most. */
  lemma SpelledOnce(text: Text, v: Json, w: Json)
    requires NulFree(text) && SpellsText(text, v, false) && SpellsText(text, w, false) && Nesting(v) <= 1000 && Nesting(w) <= 1000
    ensures v == w
  {
    TextIsRead(text, v);
    TextIsRead(text, w);
  }
}
