/** Parsing undoes printing: the printed text of a tree reads back as the tree, in either layout. */
module KJsonRoundTrip {
  import opened Octets
  import opened KJson
  import opened KJsonText
  import opened KJsonGrammar
  import opened KJsonNumbers

  // ----- strings

  /** The first pass over an escaped string stops at the quote behind it, never inside. */
  lemma {:induction false} ClosingQuoteSkipsEscaped(c: Text, i: nat, s: Text)
    requires NulFree(s) && At(c, i, Escaped(s) + ['"'])
    ensures ClosingQuote(c, i) == Some(i + |Escaped(s)|)
    decreases |s|
  {
    if s == [] {
      assert Escaped(s) + ['"'] == ['"'];
      AtFirst(c, i, ['"']);
    } else {
      var head, rest := Escape(s[0]), Escaped(s[1..]) + ['"'];
      assert Escaped(s) + ['"'] == head + rest;
      AtSplit(c, i, head, rest);
      ClosingQuoteSkipsEscaped(c, i + |head|, s[1..]);
      EscapeIsSkipped(c, i, s[0]);
    }
  }

  lemma EscapeIsSkipped(c: Text, i: nat, b: Octet)
    requires b != '\0' && At(c, i, Escape(b))
    ensures ClosingQuote(c, i) == ClosingQuote(c, i + |Escape(b)|)
  {
    var e := Escape(b);
    assert forall k | 0 <= k < |e| :: c[i + k] == e[k];
    assert c[i] == e[0];
    if |e| > 1 { assert c[i + 1] == e[1]; }
    if |e| == 6 {
      assert c[i + 2] == e[2] && c[i + 3] == e[3] && c[i + 4] == e[4] && c[i + 5] == e[5];
      assert ClosingQuote(c, i + 4) == ClosingQuote(c, i + 5) == ClosingQuote(c, i + 6);
      assert ClosingQuote(c, i + 2) == ClosingQuote(c, i + 3) == ClosingQuote(c, i + 4);
    }
  }

  /** The second pass turns one escaped byte back into that byte. */
  lemma EscapeIsUndone(c: Text, i: nat, e: nat, b: Octet)
    requires b != '\0' && At(c, i, Escape(b)) && i + |Escape(b)| <= e < |c|
    ensures Unescaped(c, i, e) == Prefix([b], Unescaped(c, i + |Escape(b)|, e))
  {
    var t := Escape(b);
    assert forall k | 0 <= k < |t| :: c[i + k] == t[k];
    assert c[i] == t[0];
    if |t| > 1 { assert c[i + 1] == t[1]; }
    if |t| == 6 {
      assert c[i + 2] == t[2] && c[i + 3] == t[3] && c[i + 4] == t[4] && c[i + 5] == t[5];
      assert Hex4(c, i + 2) == b as int;
      assert Utf8(b as int) == [b];
    }
  }

  lemma {:induction false} UnescapedUndoesEscaped(c: Text, i: nat, s: Text)
    requires NulFree(s) && At(c, i, Escaped(s)) && i + |Escaped(s)| < |c|
    ensures Unescaped(c, i, i + |Escaped(s)|) == Some(s)
    decreases |s|
  {
    hide Escape, Escaped, At, Unescaped, NulFree;
    if s == [] {
      NothingEscaped(c, i);
    } else {
      EscapedSplit(s);
      var head, rest := Escape(s[0]), Escaped(s[1..]);
      AtSplit(c, i, head, rest);
      NulFreeRest(s);
      UnescapedUndoesEscaped(c, i + |head|, s[1..]);
      EscapeIsUndone(c, i, i + |Escaped(s)|, s[0]);
      assert [s[0]] + s[1..] == s;
    }
  }

  lemma NothingEscaped(c: Text, i: nat)
    ensures Escaped([]) == [] && (i < |c| ==> Unescaped(c, i, i) == Some([]))
  {
  }

  lemma EscapedSplit(s: Text)
    requires s != []
    ensures Escaped(s) == Escape(s[0]) + Escaped(s[1..]) && |Escaped(s)| == |Escape(s[0])| + |Escaped(s[1..])|
  {
    hide Escape;
  }

  lemma NulFreeRest(s: Text)
    requires NulFree(s) && s != []
    ensures s[0] != '\0' && NulFree(s[1..])
  {
  }

  lemma StringRoundTrip(c: Text, o: nat, s: Text)
    requires NulFree(s) && At(c, o, Quoted(s))
    ensures StringAt(c, o) == Ok(s, o + |Quoted(s)|)
  {
    hide At, Escaped, ClosingQuote, Unescaped, UpToNul;
    AtSplit(c, o, ['"'], Escaped(s) + ['"']);
    AtFirst(c, o, ['"']);
    AtSplit(c, o + 1, Escaped(s), ['"']);
    ClosingQuoteSkipsEscaped(c, o + 1, s);
    UnescapedUndoesEscaped(c, o + 1, s);
    UpToNulIdentity(s);
  }

  // ----- numbers

  /** The text of a number as a numeral. */
  function FixedNumeral(d: real): Numeral {
    Numeral(if d < 0.0 then "-" else "", Decimal(Millionths(d) / 1000000), true, Padded(Millionths(d) % 1000000, 6), "", "", "")
  }

  lemma {:induction false} PaddedDenotes(n: nat, width: nat, acc: nat)
    requires n < Ten(width)
    ensures AllDigits(Padded(n, width)) && Fold(Padded(n, width), acc) == acc * Ten(width) + n
    decreases width
  {
    if width > 0 {
      TenMore(acc, width - 1);
      PaddedDenotes(n / 10, width - 1, acc);
      FoldSnoc(Padded(n / 10, width - 1), '0' + (n % 10) as char, acc);
      hide Fold, Ten;
      TenMore(acc, width - 1);
    } else {
      assert acc * Ten(0) == acc;
    }
  }

  lemma FixedIsNumeral(d: real)
    ensures IsNumeral(FixedNumeral(d)) && NumeralText(FixedNumeral(d)) == FixedText(d)
    ensures Fold(FixedNumeral(d).whole + FixedNumeral(d).fraction, 0) == Millionths(d)
  {
    hide Millionths, Decimal, Padded, Fold, IsNumeral, NumeralText;
    var m := Millionths(d);
    DecimalDenotes(m / 1000000);
    SixDenote(m % 1000000, m / 1000000);
    FoldJoin(Decimal(m / 1000000), Padded(m % 1000000, 6), 0);
    FixedParts(d);
  }

  lemma SixDenote(n: nat, acc: nat)
    requires n < 1000000
    ensures AllDigits(Padded(n, 6)) && Fold(Padded(n, 6), acc) == acc * 1000000 + n
  {
    hide Padded, Fold, Ten;
    SixZeros();
    PaddedDenotes(n, 6, acc);
  }

  lemma FixedParts(d: real)
    requires AllDigits(Decimal(Millionths(d) / 1000000)) && AllDigits(Padded(Millionths(d) % 1000000, 6))
    ensures IsNumeral(FixedNumeral(d)) && NumeralText(FixedNumeral(d)) == FixedText(d)
  {
    hide Millionths, Decimal, Padded, AllDigits;
    var a, b := Decimal(Millionths(d) / 1000000), Padded(Millionths(d) % 1000000, 6);
    assert AllDigits([]) by { NoDigits(); }
    var sign := if d < 0.0 then "-" else "";
    assert sign + a + ("." + b) + [] == sign + (a + (['.'] + b));
    assert a + b != [];
  }

  lemma NoDigits()
    ensures AllDigits([])
  {
  }

  lemma SixZeros()
    ensures Ten(6) == 1000000 && Ten(0) == 1
  {
    assert Ten(2) == 100;
    assert Ten(4) == 10000;
  }

  /** strtod reads the text of a number completely, as the number rounded to millionths. */
  lemma StrtodOfFixed(d: real)
    ensures Strtod(FixedText(d)) == (Nearest(d), |FixedText(d)|)
  {
    hide Strtod, FixedText, Millionths, Fold, NumeralText, Denotes, Ten;
    var n := FixedNumeral(d);
    FixedIsNumeral(d);
    StrtodReads(n);
    NearestIsDenoted(d);
    DenotesOnce(n, Nearest(d), Strtod(FixedText(d)).0);
  }

  lemma NearestIsDenoted(d: real)
    requires IsNumeral(FixedNumeral(d))
    requires Fold(FixedNumeral(d).whole + FixedNumeral(d).fraction, 0) == Millionths(d)
    ensures Denotes(FixedNumeral(d), Nearest(d))
  {
    hide Millionths, Padded, Decimal;
    SixZeros();
    var n := FixedNumeral(d);
    assert Fold(n.exponent, 0) == 0;
    assert Signed(n) == if d < 0.0 then 0.0 - Millionths(d) as real else Millionths(d) as real;
    IsShifted(Nearest(d), Signed(n), Ten(6), Ten(0), false);
  }

  /** The text of an integer as a numeral. */
  function IntNumeral(n: int): Numeral {
    Numeral(if n < 0 then "-" else "", Decimal(if n < 0 then -n else n), false, "", "", "", "")
  }

  lemma IntIsNumeral(n: int)
    ensures IsNumeral(IntNumeral(n)) && NumeralText(IntNumeral(n)) == IntText(n) && Denotes(IntNumeral(n), n as real)
  {
    var m := if n < 0 then -n else n;
    DecimalDenotes(m);
    SixZeros();
    var x := IntNumeral(n);
    assert x.whole + x.fraction == x.whole;
    assert Fold(x.exponent, 0) == 0;
    assert Signed(x) == n as real;
    IsShifted(n as real, Signed(x), Ten(0), Ten(0), false);
  }

  lemma StrtodOfInteger(n: int)
    ensures Strtod(IntText(n)) == (n as real, |IntText(n)|)
  {
    hide Strtod, IntText, Denotes, IsNumeral, NumeralText;
    IntIsNumeral(n);
    StrtodReads(IntNumeral(n));
    DenotesOnce(IntNumeral(n), n as real, Strtod(IntText(n)).0);
  }

  lemma InMillionths(n: int)
    ensures n as real * 1000000.0 == (n * 1000000) as real
  {
  }

  lemma IntegersAreWhole(x: real, k: int)
    requires x == k as real
    ensures x.Floor as real == x
  {
  }

  lemma NearestOfInteger(n: int)
    ensures Nearest(n as real) == n as real
  {
    hide Nearest;
    InMillionths(n);
    IntegersAreWhole(n as real * 1000000.0, n * 1000000);
    NearestIsExact(n as real);
  }

  /** strtod reads the text of a number completely: an integer as it is, any other number rounded to millionths. */
  lemma StrtodOfNumber(d: real)
    ensures Strtod(NumberText(d)) == (Nearest(d), |NumberText(d)|) && (Integral(d) ==> Nearest(d) == d)
  {
    hide Strtod, FixedText, IntText, Nearest;
    if Integral(d) {
      StrtodOfInteger(d.Floor);
      NearestOfInteger(d.Floor);
    } else {
      StrtodOfFixed(d);
    }
  }

  lemma {:induction false} NumberRunIsText(c: Text, o: nat, t: Text, k: nat)
    requires At(c, o, t) && k <= |t| <= 63
    requires forall i | 0 <= i < |t| :: IsNumberChar(t[i])
    requires o + |t| < |c| && !IsNumberChar(c[o + |t|])
    ensures NumberRun(c, o, k) == |t|
    decreases |t| - k
  {
    if k < |t| {
      assert c[o + k] == t[k];
      NumberRunIsText(c, o, t, k + 1);
    }
  }

  lemma FixedTextShape(d: real)
    ensures |FixedText(d)| >= 8
    ensures forall i | 0 <= i < |FixedText(d)| :: IsNumberChar(FixedText(d)[i])
    ensures FixedText(d)[0] == '-' || IsDigit(FixedText(d)[0])
  {
    hide Millionths, Decimal, Padded;
    FixedIsNumeral(d);
  }

  lemma NumberTextShape(d: real)
    ensures |NumberText(d)| >= 1
    ensures forall i | 0 <= i < |NumberText(d)| :: IsNumberChar(NumberText(d)[i])
    ensures NumberText(d)[0] == '-' || IsDigit(NumberText(d)[0])
  {
    hide FixedText, Decimal;
    if Integral(d) { DecimalDenotes(if d.Floor < 0 then -d.Floor else d.Floor); } else { FixedTextShape(d); }
  }

  lemma NumberRoundTrip(c: Text, o: nat, d: real)
    requires |NumberText(d)| <= NUMBER_ROOM && At(c, o, NumberText(d))
    requires o + |NumberText(d)| < |c| && !IsNumberChar(c[o + |NumberText(d)|])
    ensures NumberAt(c, o) == Ok(Number(Saturate(Nearest(d)), Nearest(d)), o + |NumberText(d)|)
  {
    hide NumberText, Nearest, Strtod;
    NumberTextShape(d);
    NumberRunIsText(c, o, NumberText(d), 0);
    assert c[o..o + |NumberText(d)|] == NumberText(d);
    StrtodOfNumber(d);
  }

  // ----- trees

  lemma FirstByte(t: Json, fmt: bool, depth: nat)
    requires Printable(t)
    ensures var s := TextOf(t, fmt, depth);
      |s| > 0 && s[0] > ' ' && s[0] != ']' && s[0] != '}'
  {
    if t.Number? { NumberTextShape(t.valuedouble); }
  }

  lemma {:induction false} ValueRoundTrip(t: Json, fmt: bool, textDepth: nat, c: Text, o: nat, depth: nat)
    requires Printable(t) && depth <= NESTING_LIMIT
    requires Terminated(c) && At(c, o, TextOf(t, fmt, textDepth))
    requires o + |TextOf(t, fmt, textDepth)| < |c| && !IsNumberChar(c[o + |TextOf(t, fmt, textDepth)|])
    ensures o < |c|
    ensures ValueAt(c, o, depth) ==
            if depth + Nesting(t) <= NESTING_LIMIT then Ok(Rounded(t), o + |TextOf(t, fmt, textDepth)|) else Fail
    decreases t, 2
  {
    match t
    case Array(items) => ArrayRoundTrip(items, fmt, textDepth, c, o, depth);
    case Object(members) => ObjectRoundTrip(members, fmt, textDepth, c, o, depth);
    case _ => ScalarRoundTrip(t, fmt, textDepth, c, o, depth);
  }

  lemma ScalarRoundTrip(t: Json, fmt: bool, textDepth: nat, c: Text, o: nat, depth: nat)
    requires Printable(t) && !t.Array? && !t.Object?
    requires Terminated(c) && At(c, o, TextOf(t, fmt, textDepth))
    requires o + |TextOf(t, fmt, textDepth)| < |c| && !IsNumberChar(c[o + |TextOf(t, fmt, textDepth)|])
    ensures o < |c|
    ensures ValueAt(c, o, depth) == Ok(Rounded(t), o + |TextOf(t, fmt, textDepth)|)
  {
    hide At, Terminated, StringAt, NumberAt, Nesting;
    FirstByte(t, fmt, textDepth);
    AtFirst(c, o, TextOf(t, fmt, textDepth));
    NoLiteral(c, o);
    match t
    case Number(_, d) =>
      NumberTextShape(d);
      NumberRoundTrip(c, o, d);
    case String(v) => StringRoundTrip(c, o, v);
    case _ =>
  }

  lemma {:induction false} ArrayRoundTrip(items: Items, fmt: bool, textDepth: nat, c: Text, o: nat, depth: nat)
    requires PrintableItems(items) && depth <= NESTING_LIMIT
    requires Terminated(c) && At(c, o, TextOf(Array(items), fmt, textDepth))
    ensures o < |c|
    ensures ValueAt(c, o, depth) ==
            if depth + 1 + ItemsNesting(items) <= NESTING_LIMIT
            then Ok(Array(RoundedItems(items)), o + |TextOf(Array(items), fmt, textDepth)|) else Fail
    decreases items, 1
  {
    hide At, Terminated, Literal, Nesting, Printable, ValueAt, ItemsAt, SkipWhitespace;
    var body := ItemsText(items, fmt, textDepth + 1);
    AtSplit(c, o, ['['], body + [']']);
    AtFirst(c, o, ['[']);
    AtSplit(c, o + 1, body, [']']);
    ArrayAt(c, o, depth);
    if depth == NESTING_LIMIT {
    } else if items.Item? {
      ItemsRoundTrip(items, fmt, textDepth + 1, c, o + 1, depth + 1);
      Visible(c, o + 1);
    } else {
      AtFirst(c, o + 1, [']']);
      Visible(c, o + 1);
    }
  }

  lemma ArrayAt(c: Text, o: nat, depth: nat)
    requires Terminated(c) && o + 1 < |c| && c[o] == '['
    ensures depth >= NESTING_LIMIT ==> ValueAt(c, o, depth) == Fail
    ensures depth < NESTING_LIMIT ==>
      var p := SkipWhitespace(c, o + 1);
      && (c[p] == ']' ==> ValueAt(c, o, depth) == Ok(Array(NoItem), p + 1))
      && (c[p] != ']' ==>
            var r := ItemsAt(c, p, depth + 1);
            ValueAt(c, o, depth) == if r.Ok? then Ok(Array(r.value), r.offset) else Fail)
  {
    hide Terminated, Literal, ItemsAt, SkipWhitespace;
    NoLiteral(c, o);
  }

  lemma {:induction false} ItemsRoundTrip(items: Items, fmt: bool, textDepth: nat, c: Text, o: nat, depth: nat)
    requires items.Item? && PrintableItems(items) && depth <= NESTING_LIMIT
    requires Terminated(c) && At(c, o, ItemsText(items, fmt, textDepth))
    requires At(c, o + |ItemsText(items, fmt, textDepth)|, [']'])
    ensures o < |c| && c[o] > ' ' && c[o] != ']'
    ensures ItemsAt(c, o, depth) ==
            if depth + ItemsNesting(items) <= NESTING_LIMIT
            then Ok(RoundedItems(items), o + |ItemsText(items, fmt, textDepth)| + 1) else Fail
    decreases items, 0
  {
    hide At, Terminated, ValueAt, ItemsAt, TextOf, Printable, ItemSeparator, SkipWhitespace, Nesting;
    var Item(v, next) := items;
    var head, gap, tail := TextOf(v, fmt, textDepth), ItemSeparator(next.Item?, fmt), ItemsText(next, fmt, textDepth);
    AtSplit(c, o, head, gap + tail);
    var p := o + |head|;
    AtSplit(c, p, gap, tail);
    FirstByte(v, fmt, textDepth);
    AtFirst(c, o, head);
    if next.Item? {
      ItemsRoundTrip(next, fmt, textDepth, c, p + |gap|, depth);
      SeparatorIsSkipped(c, p, fmt);
    } else {
      NoSeparator(fmt);
      AtFirst(c, p, [']']);
      Visible(c, p);
    }
    ValueRoundTrip(v, fmt, textDepth, c, o, depth);
    ItemsStep(c, o, depth);
  }

  lemma Visible(c: Text, p: nat)
    requires p < |c| && c[p] > ' '
    ensures SkipWhitespace(c, p) == p
  {
  }

  lemma NoSeparator(fmt: bool)
    ensures ItemSeparator(false, fmt) == []
  {
  }

  lemma SeparatorIsSkipped(c: Text, p: nat, fmt: bool)
    requires At(c, p, ItemSeparator(true, fmt))
    requires p + |ItemSeparator(true, fmt)| < |c| && c[p + |ItemSeparator(true, fmt)|] > ' '
    ensures c[p] == ',' && SkipWhitespace(c, p) == p && SkipWhitespace(c, p + 1) == p + |ItemSeparator(true, fmt)|
  {
    var gap := ItemSeparator(true, fmt);
    assert c[p] == gap[0];
    if fmt { assert c[p + 1] == gap[1]; }
  }

  lemma {:induction false} SkipsTabs(c: Text, o: nat, n: nat)
    requires At(c, o, Tabs(n)) && o + n < |c|
    ensures SkipWhitespace(c, o) == SkipWhitespace(c, o + n)
    decreases n
  {
    if n > 0 {
      AtFirst(c, o, Tabs(n));
      assert Tabs(n)[1..] == Tabs(n - 1);
      SkipsTabs(c, o + 1, n - 1);
    }
  }

  lemma {:induction false} ObjectRoundTrip(members: Members, fmt: bool, textDepth: nat, c: Text, o: nat, depth: nat)
    requires PrintableMembers(members) && depth <= NESTING_LIMIT
    requires Terminated(c) && At(c, o, TextOf(Object(members), fmt, textDepth))
    ensures o < |c|
    ensures ValueAt(c, o, depth) ==
            if depth + 1 + MembersNesting(members) <= NESTING_LIMIT
            then Ok(Object(RoundedMembers(members)), o + |TextOf(Object(members), fmt, textDepth)|) else Fail
    decreases members, 1
  {
    hide At, Terminated, Literal, Nesting, Printable, Opening, Closing, SkipWhitespace, ValueAt, MembersAt, MembersText;
    var open, body, close := Opening(fmt), MembersText(members, fmt, textDepth + 1), Closing(fmt, textDepth);
    AtSplit(c, o, open, body + close);
    AtSplit(c, o + |open|, body, close);
    ClosingNonempty(fmt, textDepth);
    if depth == NESTING_LIMIT {
    } else if members.Member? {
      MembersRoundTrip(members, fmt, textDepth + 1, c, o + |open|, depth + 1, textDepth);
    } else {
      NoMembersText(fmt, textDepth + 1);
      CloserIsFound(c, o + |open|, fmt, textDepth);
    }
    OpenerIsSkipped(c, o, fmt);
    ObjectAt(c, o, depth);
  }

  lemma ClosingNonempty(fmt: bool, depth: nat)
    ensures |Closing(fmt, depth)| > 0
  {
  }

  lemma NoMembersText(fmt: bool, depth: nat)
    ensures MembersText(NoMember, fmt, depth) == []
  {
  }

  lemma ObjectAt(c: Text, o: nat, depth: nat)
    requires Terminated(c) && o + 1 < |c| && c[o] == '{'
    ensures depth >= NESTING_LIMIT ==> ValueAt(c, o, depth) == Fail
    ensures depth < NESTING_LIMIT ==>
      var p := SkipWhitespace(c, o + 1);
      && (c[p] == '}' ==> ValueAt(c, o, depth) == Ok(Object(NoMember), p + 1))
      && (c[p] == '"' ==>
            var r := MembersAt(c, p, depth + 1);
            ValueAt(c, o, depth) == if r.Ok? then Ok(Object(r.value), r.offset) else Fail)
  {
    hide Terminated, Literal, MembersAt, SkipWhitespace;
    NoLiteral(c, o);
  }

  lemma OpenerIsSkipped(c: Text, o: nat, fmt: bool)
    requires At(c, o, Opening(fmt)) && o + |Opening(fmt)| < |c|
    ensures c[o] == '{' && SkipWhitespace(c, o + 1) == SkipWhitespace(c, o + |Opening(fmt)|)
  {
    assert c[o] == Opening(fmt)[0];
    if fmt { assert c[o + 1] == Opening(fmt)[1]; }
  }

  /** The indentation before a closing brace is skipped. */
  lemma CloserIsFound(c: Text, p: nat, fmt: bool, n: nat)
    requires At(c, p, Closing(fmt, n))
    ensures p < |c| && SkipWhitespace(c, p) + 1 == p + |Closing(fmt, n)|
    ensures c[SkipWhitespace(c, p)] == '}'
  {
    hide At;
    var indent := Layout(fmt, Tabs(n));
    AtSplit(c, p, indent, ['}']);
    AtFirst(c, p + |indent|, ['}']);
    if fmt { SkipsTabs(c, p, n); }
  }

  lemma QuotedFirst(key: Text)
    ensures |Quoted(key)| > 0 && Quoted(key)[0] == '"'
  {
  }

  lemma OneBlank(c: Text, p: nat)
    requires p + 1 < |c| && c[p] <= ' '
    ensures SkipWhitespace(c, p) == SkipWhitespace(c, p + 1)
  {
  }

  /** A name with its indentation and colon is read, up to the value behind it. */
  lemma HeadIsRead(c: Text, p: nat, key: Text, fmt: bool, n: nat)
    requires Terminated(c) && NulFree(key) && At(c, p, MemberHead(key, fmt, n))
    requires p + |MemberHead(key, fmt, n)| < |c| && c[p + |MemberHead(key, fmt, n)|] > ' '
    ensures p < |c| && c[SkipWhitespace(c, p)] == '"'
    ensures var r := NameAt(c, SkipWhitespace(c, p));
      r.Ok? && r.value == key && SkipWhitespace(c, r.offset + 1) == p + |MemberHead(key, fmt, n)|
  {
    hide At, Terminated, StringAt, Quoted, SkipWhitespace;
    var indent, name, colon := Layout(fmt, Tabs(n)), Quoted(key), [':'] + Layout(fmt, ['\t']);
    AtSplit(c, p, indent, name + colon);
    var q := p + |indent|;
    AtSplit(c, q, name, colon);
    QuotedFirst(key);
    AtFirst(c, q, name);
    if fmt { SkipsTabs(c, p, n); }
    Visible(c, q);
    StringRoundTrip(c, q, key);
    AtFirst(c, q + |name|, colon);
    Visible(c, q + |name|);
    Visible(c, q + |name| + |colon|);
    if fmt {
      assert colon[1..] == ['\t'];
      AtFirst(c, q + |name| + 1, ['\t']);
      OneBlank(c, q + |name| + 1);
    }
  }

  lemma {:induction false} MembersRoundTrip(
      members: Members, fmt: bool, n: nat, c: Text, p: nat, depth: nat, closing: nat)
    requires members.Member? && PrintableMembers(members) && depth <= NESTING_LIMIT
    requires Terminated(c) && At(c, p, MembersText(members, fmt, n))
    requires At(c, p + |MembersText(members, fmt, n)|, Closing(fmt, closing))
    ensures p < |c| && c[SkipWhitespace(c, p)] == '"'
    ensures MembersAt(c, SkipWhitespace(c, p), depth) ==
            if depth + MembersNesting(members) <= NESTING_LIMIT
            then Ok(RoundedMembers(members), p + |MembersText(members, fmt, n)| + |Closing(fmt, closing)|) else Fail
    decreases members, 0
  {
    hide At, Terminated, ValueAt, MembersAt, NameAt, TextOf, MemberHead, MemberSeparator, Printable, Closing,
      SkipWhitespace, Nesting;
    var Member(key, v, next) := members;
    var head, text := MemberHead(key, fmt, n), TextOf(v, fmt, n);
    var gap, tail := MemberSeparator(next.Member?, fmt), MembersText(next, fmt, n);
    AtSplit(c, p, head, text + (gap + tail));
    var q := p + |head|;
    AtSplit(c, q, text, gap + tail);
    var r := q + |text|;
    AtSplit(c, r, gap, tail);
    FirstByte(v, fmt, n);
    AtFirst(c, q, text);
    HeadIsRead(c, p, key, fmt, n);
    if next.Member? {
      MembersRoundTrip(next, fmt, n, c, r + |gap|, depth, closing);
      CommaIsSkipped(c, r, fmt);
    } else {
      LastMemberIsClosed(c, r, fmt, closing);
    }
    ValueRoundTrip(v, fmt, n, c, q, depth);
    MembersStep(c, SkipWhitespace(c, p), depth);
  }

  /** Behind a member that another one follows. */
  lemma CommaIsSkipped(c: Text, r: nat, fmt: bool)
    requires At(c, r, MemberSeparator(true, fmt)) && r + |MemberSeparator(true, fmt)| < |c|
    ensures c[r] == ',' && SkipWhitespace(c, r) == r
    ensures SkipWhitespace(c, r + 1) == SkipWhitespace(c, r + |MemberSeparator(true, fmt)|)
  {
    var gap := MemberSeparator(true, fmt);
    assert c[r] == gap[0];
    if fmt { assert c[r + 1] == gap[1]; }
  }

  /** Behind the last member: white space, then the closing brace. */
  lemma LastMemberIsClosed(c: Text, r: nat, fmt: bool, closing: nat)
    requires At(c, r, MemberSeparator(false, fmt))
    requires At(c, r + |MemberSeparator(false, fmt)|, Closing(fmt, closing))
    ensures r < |c| && !IsNumberChar(c[r]) && c[SkipWhitespace(c, r)] == '}'
    ensures SkipWhitespace(c, r) + 1 == r + |MemberSeparator(false, fmt)| + |Closing(fmt, closing)|
  {
    hide At, SkipWhitespace, Closing;
    var gap := MemberSeparator(false, fmt);
    CloserIsFound(c, r + |gap|, fmt, closing);
    if fmt {
      AtFirst(c, r, gap);
      OneBlank(c, r);
    } else {
      ClosesAtOnce(c, r, closing);
    }
  }

  lemma ClosesAtOnce(c: Text, r: nat, n: nat)
    requires At(c, r, Closing(false, n))
    ensures r < |c| && c[r] == '}'
  {
    AtFirst(c, r, Closing(false, n));
  }

  // ----- whole texts

  lemma NulFreeConcat(a: Text, b: Text)
    ensures NulFree(a + b) <==> NulFree(a) && NulFree(b)
  {
    if NulFree(a + b) {
      forall i | 0 <= i < |a| ensures a[i] != '\0' { assert (a + b)[i] == a[i]; }
      forall i | 0 <= i < |b| ensures b[i] != '\0' { assert (a + b)[|a| + i] == b[i]; }
    }
  }

  lemma {:induction false} EscapedNulFree(s: Text)
    requires NulFree(s)
    ensures NulFree(Quoted(s))
    decreases |s|
  {
    EscapedOnlyNulFree(s);
    NulFreeConcat(Escaped(s), ['"']);
    NulFreeConcat(['"'], Escaped(s) + ['"']);
  }

  lemma {:induction false} EscapedOnlyNulFree(s: Text)
    requires NulFree(s)
    ensures NulFree(Escaped(s))
    decreases |s|
  {
    if s != [] {
      EscapedOnlyNulFree(s[1..]);
      NulFreeConcat(Escape(s[0]), Escaped(s[1..]));
    }
  }

  lemma {:induction false} TextNulFree(t: Json, fmt: bool, depth: nat)
    requires Printable(t)
    ensures NulFree(TextOf(t, fmt, depth))
    decreases t, 1
  {
    hide NulFree, Quoted, Opening, Closing, Nesting;
    match t
    case Array(items) =>
      ItemsTextNulFree(items, fmt, depth + 1);
      PunctuationNulFree(fmt, depth);
      NulFreeConcat(ItemsText(items, fmt, depth + 1), [']']);
      NulFreeConcat(['['], ItemsText(items, fmt, depth + 1) + [']']);
    case Object(members) =>
      MembersTextNulFree(members, fmt, depth + 1);
      PunctuationNulFree(fmt, depth);
      NulFreeConcat(MembersText(members, fmt, depth + 1), Closing(fmt, depth));
      NulFreeConcat(Opening(fmt), MembersText(members, fmt, depth + 1) + Closing(fmt, depth));
    case _ => ScalarNulFree(t, fmt, depth);
  }

  lemma PunctuationNulFree(fmt: bool, depth: nat)
    ensures NulFree(['[']) && NulFree([']']) && NulFree(Opening(fmt)) && NulFree(Closing(fmt, depth))
  {
  }

  lemma ScalarNulFree(t: Json, fmt: bool, depth: nat)
    requires Printable(t) && !t.Array? && !t.Object?
    ensures NulFree(TextOf(t, fmt, depth))
  {
    hide Quoted;
    match t
    case Number(_, d) => NumberTextShape(d);
    case String(s) => EscapedNulFree(s);
    case _ =>
  }

  lemma {:induction false} ItemsTextNulFree(items: Items, fmt: bool, depth: nat)
    requires PrintableItems(items)
    ensures NulFree(ItemsText(items, fmt, depth))
    decreases items, 0
  {
    if items.Item? {
      TextNulFree(items.value, fmt, depth);
      ItemsTextNulFree(items.next, fmt, depth);
      var gap, tail := ItemSeparator(items.next.Item?, fmt), ItemsText(items.next, fmt, depth);
      NulFreeConcat(gap, tail);
      NulFreeConcat(TextOf(items.value, fmt, depth), gap + tail);
    }
  }

  lemma HeadNulFree(key: Text, fmt: bool, n: nat)
    requires NulFree(key)
    ensures NulFree(MemberHead(key, fmt, n))
  {
    hide Quoted;
    EscapedNulFree(key);
    var colon := [':'] + Layout(fmt, ['\t']);
    NulFreeConcat(Quoted(key), colon);
    NulFreeConcat(Layout(fmt, Tabs(n)), Quoted(key) + colon);
  }

  lemma {:induction false} MembersTextNulFree(members: Members, fmt: bool, depth: nat)
    requires PrintableMembers(members)
    ensures NulFree(MembersText(members, fmt, depth))
    decreases members, 0
  {
    hide NulFree, MemberHead, TextOf;
    if members.Member? {
      var Member(key, v, next) := members;
      HeadNulFree(key, fmt, depth);
      TextNulFree(v, fmt, depth);
      MembersTextNulFree(next, fmt, depth);
      var head, text := MemberHead(key, fmt, depth), TextOf(v, fmt, depth);
      var gap, tail := MemberSeparator(next.Member?, fmt), MembersText(next, fmt, depth);
      GapNulFree(next.Member?, fmt);
      NulFreeConcat(gap, tail);
      NulFreeConcat(text, gap + tail);
      NulFreeConcat(head, text + (gap + tail));
    } else {
      EmptyNulFree();
    }
  }

  lemma EmptyNulFree()
    ensures NulFree([])
  {
  }

  lemma GapNulFree(more: bool, fmt: bool)
    ensures NulFree(MemberSeparator(more, fmt))
  {
  }

  /** What kJSON_ParseWithOpts sees of a C string. */
  lemma CStringIsTerminated(text: Text)
    requires NulFree(text)
    ensures Terminated(text + ['\0'])
  {
  }

  /** Main result: the text of a tree parses back to the tree, its numbers rounded to millionths, and is consumed to its last
      byte, exactly when the tree respects the nesting limit; deeper trees print but do not parse. */
  lemma ParseUndoesPrint(t: Json, fmt: bool, requireNul: bool)
    requires Printable(t)
    ensures NulFree(TextOf(t, fmt, 0))
    ensures Parse(TextOf(t, fmt, 0), requireNul) ==
            if Nesting(t) <= 1000 then Ok(Rounded(t), |TextOf(t, fmt, 0)|) else Fail
  {
    hide Terminated, ValueAt, TextOf;
    var text := TextOf(t, fmt, 0);
    var c := text + ['\0'];
    TextNulFree(t, fmt, 0);
    CStringIsTerminated(text);
    FirstByte(t, fmt, 0);
    assert c[0] == text[0] && c[|text|] == '\0';
    BytesStand(text, c);
    ValueRoundTrip(t, fmt, 0, c, 0, 0);
    PrintedBelow128(t, fmt, 0);
  }

  lemma BytesStand(text: Text, c: Text)
    requires c == text + ['\0']
    ensures At(c, 0, text)
  {
  }

  /** Printed text never opens with a byte order mark. */
  lemma PrintedBelow128(t: Json, fmt: bool, depth: nat)
    requires Printable(t)
    ensures |TextOf(t, fmt, depth)| > 0 && TextOf(t, fmt, depth)[0] < '\U{80}'
  {
    if t.Number? { NumberTextShape(t.valuedouble); }
  }

  /** No number has more than six decimals, and the int beside it is what parsing would put there. */
  ghost predicate SixDecimals(t: Json) {
    match t
    case Number(i, d) => (d * 1000000.0).Floor as real == d * 1000000.0 && i == Saturate(d)
    case Array(items) => SixDecimalItems(items)
    case Object(members) => SixDecimalMembers(members)
    case _ => true
  }

  ghost predicate SixDecimalItems(items: Items) {
    items.Item? ==> SixDecimals(items.value) && SixDecimalItems(items.next)
  }

  ghost predicate SixDecimalMembers(members: Members) {
    members.Member? ==> SixDecimals(members.value) && SixDecimalMembers(members.next)
  }

  lemma NearestIsExact(d: real)
    ensures Nearest(d) == d <==> (d * 1000000.0).Floor as real == d * 1000000.0
  {
    var x := d * 1000000.0;
    if d < 0.0 {
      if x.Floor as real == x { assert ((-d) * 1000000.0) == (-x.Floor) as real; }
      if Nearest(d) == d { assert x == (-(Millionths(d) as int)) as real; }
    } else {
      if Nearest(d) == d { assert x == Millionths(d) as real; }
    }
  }

  /** So a tree comes back as it was exactly if its numbers have at most six decimals. */
  lemma {:induction false} RoundedIsSame(t: Json)
    ensures Rounded(t) == t <==> SixDecimals(t)
    decreases t
  {
    hide Nearest;
    match t
    case Number(i, d) => NearestIsExact(d);
    case Array(items) => RoundedItemsAreSame(items);
    case Object(members) => RoundedMembersAreSame(members);
    case _ =>
  }

  lemma {:induction false} RoundedItemsAreSame(items: Items)
    ensures RoundedItems(items) == items <==> SixDecimalItems(items)
    decreases items
  {
    if items.Item? {
      RoundedIsSame(items.value);
      RoundedItemsAreSame(items.next);
    }
  }

  lemma {:induction false} RoundedMembersAreSame(members: Members)
    ensures RoundedMembers(members) == members <==> SixDecimalMembers(members)
    decreases members
  {
    if members.Member? {
      RoundedIsSame(members.value);
      RoundedMembersAreSame(members.next);
    }
  }

  /** Both layouts denote the same tree, so printing again after parsing reproduces the unformatted text. */
  lemma ReprintIsStable(t: Json, fmt: bool)
    requires Printable(t) && SixDecimals(t) && Nesting(t) <= NESTING_LIMIT
    ensures NulFree(TextOf(t, fmt, 0))
    ensures var r := Parse(TextOf(t, fmt, 0), true);
      r.Ok? && r.value == t && TextOf(r.value, false, 0) == TextOf(t, false, 0)
  {
    ParseUndoesPrint(t, fmt, true);
    RoundedIsSame(t);
  }
}
