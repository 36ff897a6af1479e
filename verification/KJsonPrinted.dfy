/** What is printed, said without the printer: the one text of each number and each string, the two layouts, and that it is JSON
    by RFC 8259. */
module KJsonPrinted {
  import opened Octets
  import opened KJson
  import opened KJsonText
  import opened KJsonGrammar
  import opened KJsonNumbers
  import opened KJsonUnicode
  import opened KJsonSpelling
  import opened KJsonRoundTrip
  import opened KJsonAccepts

  // ----- numbers

  /** m is the integer nearest to x; halfway between two it is the even one. */
  ghost predicate IsNearest(m: nat, x: real) {
    -0.5 <= m as real - x <= 0.5 && (m as real - x == 0.5 || m as real - x == -0.5 ==> m % 2 == 0)
  }

  /** Digits without a needless zero in front, a point, and six more digits, which together are the millionths of d. */
  ghost predicate IsFixed(t: Text, d: real) {
    exists a: Text, b: Text :: FixedParts(t, d, a, b)
  }

  ghost predicate FixedParts(t: Text, d: real, a: Text, b: Text) {
    && t == (if d < 0.0 then "-" else "") + a + "." + b
    && a != [] && (a[0] == '0' ==> |a| == 1) && |b| == 6
    && AllDigits(a + b) && IsNearest(Fold(a + b, 0), (if d < 0.0 then -d else d) * 1000000.0)
  }

  lemma OneNearest(m: nat, n: nat, x: real)
    requires IsNearest(m, x) && IsNearest(n, x)
    ensures m == n
  {
  }

  lemma MillionthsAreNearest(d: real)
    ensures IsNearest(Millionths(d), (if d < 0.0 then -d else d) * 1000000.0)
  {
  }

  lemma {:induction false} PaddedIsOnly(b: Text)
    requires AllDigits(b)
    ensures Fold(b, 0) < Ten(|b|) && b == Padded(Fold(b, 0), |b|)
    decreases |b|
  {
    if b != [] {
      var front, x := b[..|b| - 1], b[|b| - 1];
      assert b == front + [x];
      FoldSnoc(front, x, 0);
      PaddedIsOnly(front);
      hide Fold, Ten, AllDigits;
      LastPadded(Fold(front, 0), x, |front|);
    }
  }

  lemma LastPadded(n: nat, x: Octet, width: nat)
    requires n < Ten(width) && IsDigit(x)
    ensures n * 10 + (x as int - '0' as int) < Ten(width + 1)
    ensures Padded(n * 10 + (x as int - '0' as int), width + 1) == Padded(n, width) + [x]
  {
  }

  lemma {:induction false} FoldBehind(b: Text, acc: nat)
    requires AllDigits(b)
    ensures Fold(b, acc) == acc * Ten(|b|) + Fold(b, 0)
    decreases |b|
  {
    if b != [] {
      var front, x := b[..|b| - 1], b[|b| - 1];
      assert b == front + [x];
      FoldSnoc(front, x, 0);
      FoldSnoc(front, x, acc);
      FoldBehind(front, acc);
      hide Fold, Ten;
      TenMore(acc, |b| - 1);
    }
  }

  /** A minus sign or none, and digits without a needless zero in front that denote the integer. */
  ghost predicate IsInteger(t: Text, d: real) {
    exists a: Text :: IntegerParts(t, d, a)
  }

  ghost predicate IntegerParts(t: Text, d: real, a: Text) {
    && t == (if d < 0.0 then "-" else "") + a
    && a != [] && (a[0] == '0' ==> |a| == 1) && AllDigits(a) && Fold(a, 0) as real == if d < 0.0 then -d else d
  }

  /** print_number: just this text, an integer's or one with six decimals. */
  lemma NumberTextIsOnly(t: Text, d: real)
    ensures t == NumberText(d) <==> if d.Floor as real == d then IsInteger(t, d) else IsFixed(t, d)
  {
    hide FixedText, IntText, Millionths, Fold, IsNearest, AllDigits, IsInteger, IsFixed;
    if Integral(d) {
      if t == NumberText(d) { IntIsInteger(d); }
      if IsInteger(t, d) { OnlyInteger(t, d); }
    } else {
      if t == NumberText(d) { FixedIsFixed(d); }
      if IsFixed(t, d) { OnlyFixed(t, d); }
    }
  }

  lemma IntIsInteger(d: real)
    requires Integral(d)
    ensures IsInteger(IntText(d.Floor), d)
  {
    hide Decimal, Fold;
    var m := if d.Floor < 0 then -d.Floor else d.Floor;
    DecimalDenotes(m);
    NoLeadingZero(m);
    assert IntegerParts(IntText(d.Floor), d, Decimal(m));
  }

  lemma OnlyInteger(t: Text, d: real)
    requires Integral(d) && IsInteger(t, d)
    ensures t == IntText(d.Floor)
  {
    hide Decimal, Fold;
    var a: Text :| IntegerParts(t, d, a);
    DecimalIsOnly(a);
    assert Fold(a, 0) == if d.Floor < 0 then -d.Floor else d.Floor;
  }

  lemma FixedIsFixed(d: real)
    ensures IsFixed(FixedText(d), d)
  {
    hide Millionths, Fold, IsNearest, Decimal, Padded, Ten;
    MillionthsAreNearest(d);
    var n, m := FixedNumeral(d), Millionths(d);
    FixedIsNumeral(d);
    FoldJoin(n.whole, n.fraction, 0);
    NoLeadingZero(m / 1000000);
    var t := FixedText(d);
    assert t == (if d < 0.0 then "-" else "") + n.whole + "." + n.fraction;
    assert FixedParts(t, d, n.whole, n.fraction);
  }

  lemma OnlyFixed(t: Text, d: real)
    requires IsFixed(t, d)
    ensures t == FixedText(d)
  {
    hide Millionths, Fold, IsNearest, Decimal, Padded, AllDigits, Ten;
    var a: Text, b: Text :| FixedParts(t, d, a, b);
    DigitsParted(a, b);
    var m := Fold(a + b, 0);
    MillionthsAreNearest(d);
    OneNearest(m, Millionths(d), (if d < 0.0 then -d else d) * 1000000.0);
    FoldJoin(a, b, 0);
    FoldBehind(b, Fold(a, 0));
    PaddedIsOnly(b);
    DecimalIsOnly(a);
    SixZeros();
    Parted(Fold(a, 0), Fold(b, 0), m);
    assert (if d < 0.0 then "-" else "") + a + "." + b == (if d < 0.0 then "-" else "") + (a + ("." + b));
  }

  lemma DigitsParted(a: Text, b: Text)
    requires AllDigits(a + b)
    ensures AllDigits(a) && AllDigits(b)
  {
    forall i | 0 <= i < |a| ensures IsDigit(a[i]) { assert (a + b)[i] == a[i]; }
    forall i | 0 <= i < |b| ensures IsDigit(b[i]) { assert (a + b)[|a| + i] == b[i]; }
  }

  lemma Parted(q: nat, r: nat, m: nat)
    requires r < 1000000 && m == q * 1000000 + r
    ensures m / 1000000 == q && m % 1000000 == r
  {
  }

  lemma {:induction false} DecimalSize(n: nat, k: nat)
    requires k >= 1
    ensures |Decimal(n)| <= k <==> n < Ten(k)
    decreases k
  {
    if n >= 10 {
      if k > 1 { DecimalSize(n / 10, k - 1); }
      assert Ten(k) == 10 * Ten(k - 1) && Ten(0) == 1;
    } else {
      TenGrows(k);
    }
  }

  lemma {:induction false} TenGrows(k: nat)
    requires k >= 1
    ensures Ten(k) >= 10
  {
    if k > 1 { TenGrows(k - 1); } else { assert Ten(0) == 1; }
  }

  /** Every integer that fits a long can be printed, and any other number exactly if it rounds to less than 10^18, or as a
      negative one to less than 10^17, as all doubles with a fraction do. */
  lemma PrintableIff(i: int, d: real)
    requires Integral(d) ==> -0x8000_0000_0000_0000 <= d.Floor < 0x8000_0000_0000_0000
    ensures Printable(Number(i, d)) <==>
      d.Floor as real == d || Millionths(d) < if d < 0.0 then 100000_000000_000000_000000 else 1_000000_000000_000000_000000
  {
    hide Decimal, Padded, Millionths, Ten;
    DecimalSize(if d.Floor < 0 then -d.Floor else d.Floor, 24);
    assert Ten(24) > 0x1_0000_0000_0000_0000 by { LargeTens(); }
    var q := Millionths(d) / 1000000;
    DecimalSize(q, 17);
    DecimalSize(q, 18);
    LargeTens();
  }

  lemma LargeTens()
    ensures Ten(17) == 100_000_000_000_000_000 && Ten(18) == 1_000_000_000_000_000_000
    ensures Ten(24) == 1_000_000_000_000_000_000_000_000
  {
    assert Ten(3) == 1000;
    assert Ten(6) == 1000_000;
    assert Ten(9) == 1000_000_000;
    assert Ten(12) == 1000_000_000_000;
    assert Ten(15) == 1000_000_000_000_000;
    assert Ten(18) == 1000_000_000_000_000_000;
    assert Ten(21) == 1000_000_000_000_000_000_000;
  }

  // ----- strings

  /** The shortest unit that stands for the byte in a JSON string, with small letters in hexadecimal digits. */
  ghost predicate Shortest(u: Unit, b: Octet) {
    && UnitMeans(u, [b], true)
    && (forall w: Unit | UnitMeans(w, [b], true) :: |UnitText(u)| <= |UnitText(w)|)
    && (u.Code? ==> forall i | 0 <= i < |u.h| :: !('A' <= u.h[i] <= 'F'))
  }

  /** Units are one, two, six or twelve bytes long, and which of them can stand for the byte. */
  lemma UnitsOf(u: Unit, b: Octet)
    requires UnitMeans(u, [b], true)
    ensures match u
      case Raw(x) => x == b && |UnitText(u)| == 1 && b >= ' ' && b != '"' && b != '\\'
      case Short(x) => |UnitText(u)| == 2 && SimpleEscape(x) == Some(b)
      case Code(h) => |UnitText(u)| == 6 && AllHex(h) && HexOf(h) == b as int
      case Pair(_, _) => |UnitText(u)| == 12
      case Cut => false
  {
    hide AllHex, HexOf;
    match u
    case Short(x) =>
      ShortMeans(x, b);
    case _ =>
  }

  lemma RawMeans(b: Octet)
    ensures UnitMeans(Raw(b), [b], true) <==> b >= ' ' && b != '"' && b != '\\'
  {
  }

  lemma ShortMeansRfc(x: Octet, b: Octet)
    ensures SimpleEscape(x) == Some(b) <==> UnitMeans(Short(x), [b], true)
  {
    ShortMeans(x, b);
  }

  /** The letter of a short escape. */
  function Letter(b: Octet): Option<Octet> {
    if b == '"' || b == '\\' then Some(b)
    else if b == '\U{8}' then Some('b')
    else if b == '\U{C}' then Some('f')
    else if b == '\n' then Some('n')
    else if b == '\r' then Some('r')
    else if b == '\t' then Some('t')
    else None
  }

  lemma OnlyLetter(x: Octet, b: Octet)
    requires SimpleEscape(x) == Some(b) && b != '/'
    ensures Letter(b) == Some(x)
  {
  }

  /** What is escaped how. */
  lemma EscapeOf(b: Octet)
    ensures b >= ' ' && b != '"' && b != '\\' ==> Escape(b) == [b]
    ensures Letter(b).Some? ==> Escape(b) == ['\\', Letter(b).value]
    ensures b < ' ' && Letter(b).None? ==> Escape(b) == "\\u" + Hex4Text(b as int)
  {
  }

  lemma HexOfText(n: nat)
    requires n < 256
    ensures var h := Hex4Text(n); AllHex(h) && HexOf(h) == n && forall i | 0 <= i < 4 :: !('A' <= h[i] <= 'F')
    ensures FromUtf8([n as char]) == if n < 128 then Some(n) else None
  {
    hide HexDigit, Nibble;
    assert n / 4096 == 0 && n / 256 % 16 == 0 && n / 16 % 16 == n / 16;
    DigitIsNibble(0);
    DigitIsNibble(n / 16);
    DigitIsNibble(n % 16);
  }

  lemma DigitIsNibble(n: nat)
    requires n < 16
    ensures Nibble(HexDigit(n)) == Some(n) && !('A' <= HexDigit(n) <= 'F')
  {
  }

  /** Four hexadecimal digits with small letters are those of the number they denote. */
  lemma OnlyHex(h: Text, n: nat)
    requires AllHex(h) && HexOf(h) == n < 256 && forall i | 0 <= i < |h| :: !('A' <= h[i] <= 'F')
    ensures h == Hex4Text(n)
  {
    var a, b, d, e := Nibble(h[0]).value, Nibble(h[1]).value, Nibble(h[2]).value, Nibble(h[3]).value;
    assert a == 0 && b == 0;
    assert n / 16 == d && n % 16 == e;
    SmallDigit(h[0]);
    SmallDigit(h[1]);
    SmallDigit(h[2]);
    SmallDigit(h[3]);
  }

  lemma SmallDigit(x: Octet)
    requires Nibble(x).Some? && !('A' <= x <= 'F')
    ensures Nibble(x).value < 16 && HexDigit(Nibble(x).value) == x
  {
  }

  /** print_string_ptr writes each byte in the shortest way that JSON has for it. */
  lemma EscapeIsShortest(b: Octet, u: Unit)
    requires b != '\0' && Shortest(u, b)
    ensures UnitText(u) == Escape(b)
  {
    hide UnitMeans, Escape, SimpleEscape, AllHex, HexOf, Hex4Text, Letter;
    EscapeOf(b);
    UnitsOf(u, b);
    RawMeans(b);
    if b >= ' ' && b != '"' && b != '\\' {
      assert |UnitText(Raw(b))| == 1;
    } else if Letter(b).Some? {
      LetterMeans(b);
      assert |UnitText(Short(Letter(b).value))| == 2;
      if u.Short? { OnlyLetter(u.b, b); }
    } else {
      NotVisible(b);
      HexOfText(b as int);
      CodeMeans(b);
      assert |UnitText(Code(Hex4Text(b as int)))| == 6;
      if u.Short? { OnlyLetter(u.b, b); } else if u.Code? { OnlyHex(u.h, b as int); }
    }
  }

  lemma LetterMeans(b: Octet)
    requires Letter(b).Some?
    ensures UnitMeans(Short(Letter(b).value), [b], true) && b != '/' && (b < ' ' || b == '"' || b == '\\')
  {
    ShortMeansRfc(Letter(b).value, b);
  }

  lemma CodeMeans(b: Octet)
    requires b < ' '
    ensures UnitMeans(Code(Hex4Text(b as int)), [b], true)
  {
    hide AllHex, HexOf, Hex4Text;
    HexOfText(b as int);
  }

  /** There is such a way. */
  lemma SomeShortest(b: Octet) returns (u: Unit)
    ensures Shortest(u, b) && !u.Cut?
  {
    hide UnitMeans, SimpleEscape, AllHex, HexOf, Hex4Text, Letter;
    RawMeans(b);
    if b >= ' ' && b != '"' && b != '\\' {
      u := Raw(b);
    } else if Letter(b).Some? {
      LetterMeans(b);
      u := Short(Letter(b).value);
    } else {
      NotVisible(b);
      HexOfText(b as int);
      CodeMeans(b);
      u := Code(Hex4Text(b as int));
    }
    forall w: Unit | UnitMeans(w, [b], true) ensures |UnitText(u)| <= |UnitText(w)| {
      UnitsOf(w, b);
      if w.Short? && u.Code? { OnlyLetter(w.b, b); }
    }
  }

  lemma NotVisible(b: Octet)
    requires Letter(b).None? && !(b >= ' ' && b != '"' && b != '\\')
    ensures b < ' ' && b != '/'
  {
  }

  /** The bytes of s between quotes, each in its shortest way. */
  ghost predicate IsQuoted(t: Text, s: Text) {
    exists us: seq<Unit> :: ShortestAll(us, s) && t == "\"" + TextOfUnits(us) + "\""
  }

  ghost predicate ShortestAll(us: seq<Unit>, s: Text) {
    |us| == |s| && forall i | 0 <= i < |s| :: Shortest(us[i], s[i])
  }

  function TextOfUnits(us: seq<Unit>): Text {
    if us == [] then [] else UnitText(us[0]) + TextOfUnits(us[1..])
  }

  lemma {:induction false} UnitsAreEscaped(us: seq<Unit>, s: Text)
    requires ShortestAll(us, s) && NulFree(s)
    ensures TextOfUnits(us) == Escaped(s)
    decreases |s|
  {
    hide Shortest, Escape, UnitText;
    if s != [] {
      assert Shortest(us[0], s[0]);
      EscapeIsShortest(s[0], us[0]);
      forall i | 0 <= i < |s[1..]| ensures Shortest(us[1..][i], s[1..][i]) { assert Shortest(us[i + 1], s[i + 1]); }
      UnitsAreEscaped(us[1..], s[1..]);
    }
  }

  lemma {:induction false} SomeUnits(s: Text) returns (us: seq<Unit>)
    ensures ShortestAll(us, s) && forall i | 0 <= i < |us| :: !us[i].Cut?
    decreases |s|
  {
    hide Shortest;
    us := [];
    if s != [] {
      var u := SomeShortest(s[0]);
      var rest := SomeUnits(s[1..]);
      us := [u] + rest;
      forall i | 0 <= i < |s| ensures Shortest(us[i], s[i]) && !us[i].Cut? {
        if i > 0 { assert us[i] == rest[i - 1] && s[i] == s[1..][i - 1]; }
      }
    }
  }

  /** print_string: just this text. */
  lemma StringTextIsOnly(t: Text, s: Text)
    requires NulFree(s)
    ensures t == Quoted(s) <==> IsQuoted(t, s)
  {
    hide ShortestAll, TextOfUnits, Escaped;
    if t == Quoted(s) {
      var us := SomeUnits(s);
      UnitsAreEscaped(us, s);
      assert ShortestAll(us, s) && t == "\"" + TextOfUnits(us) + "\"";
    }
    if IsQuoted(t, s) {
      var us: seq<Unit> :| ShortestAll(us, s) && t == "\"" + TextOfUnits(us) + "\"";
      UnitsAreEscaped(us, s);
    }
  }

  // ----- layouts

  function Join(parts: seq<Text>, between: Text): Text {
    if parts == [] then [] else if |parts| == 1 then parts[0] else parts[0] + between + Join(parts[1..], between)
  }

  function Indent(n: nat): Text {
    seq(n, i => '\t')
  }

  function ElementTexts(items: Items, fmt: bool, depth: nat): seq<Text> {
    match items
    case NoItem => []
    case Item(v, next) => [TextOf(v, fmt, depth)] + ElementTexts(next, fmt, depth)
  }

  /** The members, each on a line of its own if formatted. */
  function MemberTexts(members: Members, fmt: bool, depth: nat): seq<Text> {
    match members
    case NoMember => []
    case Member(k, v, next) =>
      [if fmt then Indent(depth) + Quoted(k) + ":\t" + TextOf(v, true, depth) else Quoted(k) + ":" + TextOf(v, false, depth)]
      + MemberTexts(next, fmt, depth)
  }

  /** print_array: elements behind each other, formatted or not. */
  lemma ArrayLayout(items: Items, fmt: bool, depth: nat)
    ensures TextOf(Array(items), fmt, depth)
         == "[" + Join(ElementTexts(items, fmt, depth + 1), if fmt then ", " else ",") + "]"
  {
    hide TextOf;
    assert TextOf(Array(items), fmt, depth) == ['['] + (ItemsText(items, fmt, depth + 1) + [']']) by { ArrayText(items, fmt, depth); }
    ItemsJoined(items, fmt, depth + 1);
  }

  lemma ArrayText(items: Items, fmt: bool, depth: nat)
    ensures TextOf(Array(items), fmt, depth) == ['['] + (ItemsText(items, fmt, depth + 1) + [']'])
  {
  }

  lemma {:induction false} ItemsJoined(items: Items, fmt: bool, depth: nat)
    ensures ItemsText(items, fmt, depth) == Join(ElementTexts(items, fmt, depth), if fmt then ", " else ",")
    decreases items
  {
    hide TextOf;
    if items.Item? {
      var texts := ElementTexts(items, fmt, depth);
      assert texts[1..] == ElementTexts(items.next, fmt, depth);
      ItemsJoined(items.next, fmt, depth);
      assert ItemSeparator(true, fmt) == if fmt then ", " else ",";
      assert ItemSeparator(false, fmt) == [];
    }
  }

  /** print_object: in one line, or with every member on a line of its own, indented as deep as it is nested. */
  lemma ObjectLayout(members: Members, depth: nat)
    ensures TextOf(Object(members), false, depth) == "{" + Join(MemberTexts(members, false, depth + 1), ",") + "}"
    ensures TextOf(Object(members), true, depth)
         == "{\n" + Join(MemberTexts(members, true, depth + 1), ",\n") + (if members.Member? then "\n" else "") + Indent(depth) + "}"
  {
    hide TextOf, MembersText;
    ObjectText(members, false, depth);
    ObjectText(members, true, depth);
    MembersJoined(members, depth + 1);
    TabsIndent(depth);
    assert Opening(true) == "{\n" && Opening(false) == "{" && Closing(false, depth) == "}" && Closing(true, depth) == Indent(depth) + "}";
  }

  lemma ObjectText(members: Members, fmt: bool, depth: nat)
    ensures TextOf(Object(members), fmt, depth)
         == Opening(fmt) + (MembersText(members, fmt, depth + 1) + Closing(fmt, depth))
  {
  }

  lemma TabsIndent(n: nat)
    ensures Tabs(n) == Indent(n)
  {
  }

  lemma {:induction false} MembersJoined(members: Members, depth: nat)
    ensures MembersText(members, false, depth) == Join(MemberTexts(members, false, depth), ",")
    ensures MembersText(members, true, depth)
         == Join(MemberTexts(members, true, depth), ",\n") + if members.Member? then "\n" else ""
    decreases members
  {
    hide TextOf, Quoted;
    if members.Member? {
      MembersJoined(members.next, depth);
      MembersMore(members, false, depth);
      MembersMore(members, true, depth);
    }
  }

  lemma MembersMore(members: Members, fmt: bool, depth: nat)
    requires members.Member?
    ensures var texts := MemberTexts(members, fmt, depth); var more := MembersText(members.next, fmt, depth);
      && texts != [] && texts[1..] == MemberTexts(members.next, fmt, depth)
      && MembersText(members, fmt, depth)
         == texts[0] + (if members.next.Member? then "," else "") + (if fmt then "\n" else "") + more
  {
    hide TextOf, Quoted, MembersText, MemberTexts, MemberHead, MemberSeparator, Indent;
    MembersUnfold(members, fmt, depth);
    HeadIs(members.key, fmt, depth);
    FirstMember(members, fmt, depth);
    Regrouped(MemberHead(members.key, fmt, depth), TextOf(members.value, fmt, depth), if members.next.Member? then "," else "",
              if fmt then "\n" else "", MembersText(members.next, fmt, depth));
  }

  lemma FirstMember(members: Members, fmt: bool, depth: nat)
    requires members.Member?
    ensures var texts := MemberTexts(members, fmt, depth);
      && texts != [] && texts[1..] == MemberTexts(members.next, fmt, depth)
      && texts[0] == MemberHead(members.key, fmt, depth) + TextOf(members.value, fmt, depth)
  {
    hide TextOf, Quoted, MemberHead, Indent;
    HeadIs(members.key, fmt, depth);
  }

  lemma HeadIs(key: Text, fmt: bool, depth: nat)
    ensures MemberHead(key, fmt, depth) == if fmt then Indent(depth) + Quoted(key) + ":\t" else Quoted(key) + ":"
    ensures forall more :: MemberSeparator(more, fmt) == (if more then "," else "") + if fmt then "\n" else ""
  {
    hide Quoted;
    TabsIndent(depth);
    if fmt {
      assert Indent(depth) + (Quoted(key) + ([':'] + ['\t'])) == Indent(depth) + Quoted(key) + ":\t";
    } else {
      assert [] + (Quoted(key) + ([':'] + [])) == Quoted(key) + ":";
    }
  }

  lemma Regrouped(a: Text, b: Text, x: Text, y: Text, d: Text)
    ensures a + (b + ((x + y) + d)) == (a + b) + x + y + d
  {
  }

  lemma MembersUnfold(members: Members, fmt: bool, depth: nat)
    requires members.Member?
    ensures MembersText(members, fmt, depth)
         == MemberHead(members.key, fmt, depth)
            + (TextOf(members.value, fmt, depth) + (MemberSeparator(members.next.Member?, fmt) + MembersText(members.next, fmt, depth)))
  {
  }

  // ----- printed text is JSON

  lemma {:induction false} EscapedPieces(s: Text) returns (ps: seq<Piece>)
    requires NulFree(s)
    ensures Proper(ps, true) && (forall i | 0 <= i < |ps| :: !ps[i].unit.Cut?) && BodyOf(ps) == Escaped(s) && MeantBy(ps) == s
    decreases |s|
  {
    hide UnitMeans, Escape, UnitText, Proper;
    if s == [] {
      ps := [];
      NoPieces();
    } else {
      var u := SomeShortest(s[0]);
      EscapeIsShortest(s[0], u);
      NulFreeRest(s);
      var rest := EscapedPieces(s[1..]);
      ps := [Piece(u, [s[0]])] + rest;
      assert ps[1..] == rest;
      ProperCons(ps[0], rest, true);
      assert [s[0]] + s[1..] == s;
    }
  }

  lemma NoPieces()
    ensures Proper([], true)
  {
  }

  lemma QuotedSpells(s: Text)
    requires NulFree(s)
    ensures SpellsString(Quoted(s), s, true)
  {
    hide Proper, BodyOf, MeantBy, QuotesEscaped, ClosingQuote, Escaped;
    var ps := EscapedPieces(s);
    var c := Escaped(s) + ['"'];
    EscapedCloses(s, c);
    assert c[0..|Escaped(s)|] == Escaped(s);
    QuoteFound(c, 0);
    UpToNulIdentity(s);
    assert Proper(ps, true) && QuotesEscaped(BodyOf(ps)) && Quoted(s) == "\"" + BodyOf(ps) + "\"" && s == UpToNul(MeantBy(ps));
  }

  lemma EscapedCloses(s: Text, c: Text)
    requires NulFree(s) && c == Escaped(s) + ['"']
    ensures ClosingQuote(c, 0) == Some(|Escaped(s)|)
  {
    ClosingQuoteSkipsEscaped(c, 0, s);
  }

  lemma NumberSpells(d: real)
    requires |NumberText(d)| <= NUMBER_ROOM
    ensures SpellsNumber(NumberText(d), Nearest(d), true) && IsInt(Saturate(Nearest(d)), Nearest(d))
  {
    hide Denotes, Nearest, IsInt, NumeralText, FixedText, IntText, Fold, IsNumeral, MayStand;
    StrtodOfNumber(d);
    IntIsOnly(Saturate(Nearest(d)), Nearest(d));
    var n := if Integral(d) then IntNumeral(d.Floor) else FixedNumeral(d);
    if Integral(d) { IntIsNumeral(d.Floor); } else { FixedIsNumeral(d); FixedDenotes(d); }
    NumberMayStand(d);
    assert NumeralText(n) == NumberText(d) && IsNumeral(n) && Denotes(n, Nearest(d)) && MayStand(n, true) && |NumberText(d)| <= 63;
  }

  lemma FixedDenotes(d: real)
    ensures IsNumeral(FixedNumeral(d)) && Denotes(FixedNumeral(d), Nearest(d))
  {
    hide Denotes, Nearest, Millionths, Fold, NumeralText;
    FixedIsNumeral(d);
    NearestIsDenoted(d);
  }

  lemma NumberMayStand(d: real)
    ensures MayStand(if Integral(d) then IntNumeral(d.Floor) else FixedNumeral(d), true)
  {
    hide Millionths, Padded, Decimal;
    NoLeadingZero(Millionths(d) / 1000000);
    NoLeadingZero(if d.Floor < 0 then -d.Floor else d.Floor);
  }

  lemma AtSlice(c: Text, o: nat, t: Text)
    requires At(c, o, t)
    ensures o + |t| <= |c| && c[o..o + |t|] == t
  {
  }

  /** Wherever the text of a tree stands, it spells the tree as rounded by printing, by RFC 8259. */
  lemma {:induction false} PrintedSpells(t: Json, fmt: bool, depth: nat, c: Text, o: nat)
    requires Printable(t) && At(c, o, TextOf(t, fmt, depth))
    ensures Spells(c, o, o + |TextOf(t, fmt, depth)|, Rounded(t), true)
    decreases t, 1
  {
    hide At, TextOf, Spells;
    match t
    case Array(items) => PrintedArray(items, fmt, depth, c, o);
    case Object(members) => PrintedObject(members, fmt, depth, c, o);
    case _ => PrintedScalar(t, fmt, depth, c, o);
  }

  lemma PrintedScalar(t: Json, fmt: bool, depth: nat, c: Text, o: nat)
    requires Printable(t) && !t.Array? && !t.Object? && At(c, o, TextOf(t, fmt, depth))
    ensures Spells(c, o, o + |TextOf(t, fmt, depth)|, Rounded(t), true)
  {
    hide At, SpellsNumber, SpellsString, IsInt, NumberText, Nearest, Escaped;
    AtSlice(c, o, TextOf(t, fmt, depth));
    match t
    case Number(_, d) =>
      NumberSpells(d);
      NumberTextShape(d);
    case String(s) => QuotedSpells(s);
    case _ =>
  }

  lemma {:induction false} PrintedArray(items: Items, fmt: bool, depth: nat, c: Text, o: nat)
    requires PrintableItems(items) && At(c, o, TextOf(Array(items), fmt, depth))
    ensures Spells(c, o, o + |TextOf(Array(items), fmt, depth)|, Array(RoundedItems(items)), true)
    decreases items, 3
  {
    hide At, TextOf, SpellsItems;
    var body := ItemsText(items, fmt, depth + 1);
    ArrayText(items, fmt, depth);
    AtSplit(c, o, ['['], body + [']']);
    AtFirst(c, o, ['[']);
    AtSplit(c, o + 1, body, [']']);
    assert Blank(c, o + 1, o + 1, true);
    if items.Item? { PrintedItems(items, fmt, depth + 1, c, o + 1); } else { AtFirst(c, o + 1, [']']); NoItemsRfc(c, o + 1); }
  }

  lemma NoItemsRfc(c: Text, p: nat)
    requires ByteAt(c, p, ']')
    ensures SpellsItems(c, p, p + 1, NoItem, true)
  {
  }

  lemma {:induction false} PrintedItems(items: Items, fmt: bool, depth: nat, c: Text, o: nat)
    requires items.Item? && PrintableItems(items) && At(c, o, ItemsText(items, fmt, depth))
    requires At(c, o + |ItemsText(items, fmt, depth)|, [']'])
    ensures SpellsItems(c, o, o + |ItemsText(items, fmt, depth)| + 1, RoundedItems(items), true)
    decreases items, 2
  {
    hide At, TextOf, Spells, SpellsItems, ItemSeparator, Rounded, Blank;
    var Item(v, next) := items;
    var text, gap, more := TextOf(v, fmt, depth), ItemSeparator(next.Item?, fmt), ItemsText(next, fmt, depth);
    AtSplit(c, o, text, gap + more);
    var p := o + |text|;
    AtSplit(c, p, gap, more);
    PrintedSpells(v, fmt, depth, c, o);
    AtEnd(c, p, gap);
    NoBlank(c, p);
    if next.Item? {
      SeparatorSpells(c, p, fmt);
      PrintedItems(next, fmt, depth, c, p + |gap|);
      NextItemSpells(c, o, p, p + |gap|, o + |ItemsText(items, fmt, depth)| + 1, Rounded(v), RoundedItems(next));
    } else {
      NoSeparator(fmt);
      AtFirst(c, p, [']']);
      LastItemSpells(c, o, p, Rounded(v));
    }
  }

  lemma LastItemSpells(c: Text, o: nat, p: nat, v: Json)
    requires Spells(c, o, p, v, true) && ByteAt(c, p, ']')
    ensures SpellsItems(c, o, p + 1, Item(v, NoItem), true)
  {
    hide Spells, Blank;
    NoBlank(c, p);
  }

  lemma NextItemSpells(c: Text, o: nat, p: nat, r: nat, end: nat, v: Json, next: Items)
    requires Spells(c, o, p, v, true) && ByteAt(c, p, ',') && Blank(c, p + 1, r, true)
    requires next.Item? && SpellsItems(c, r, end, next, true)
    ensures SpellsItems(c, o, end, Item(v, next), true)
  {
    hide Spells, Blank;
    NoBlank(c, p);
  }

  lemma NoBlank(c: Text, p: nat)
    requires p <= |c|
    ensures Blank(c, p, p, true)
  {
  }

  lemma SeparatorSpells(c: Text, p: nat, fmt: bool)
    requires At(c, p, ItemSeparator(true, fmt))
    ensures ByteAt(c, p, ',') && Blank(c, p + 1, p + |ItemSeparator(true, fmt)|, true)
  {
    var gap := ItemSeparator(true, fmt);
    assert c[p] == gap[0];
    if fmt { assert c[p + 1] == gap[1]; }
  }

  lemma {:induction false} PrintedObject(members: Members, fmt: bool, depth: nat, c: Text, o: nat)
    requires PrintableMembers(members) && At(c, o, TextOf(Object(members), fmt, depth))
    ensures Spells(c, o, o + |TextOf(Object(members), fmt, depth)|, Object(RoundedMembers(members)), true)
    decreases members, 3
  {
    hide At, TextOf, SpellsMembers, Opening, Closing, Blank, MembersText;
    var open, body, close := Opening(fmt), MembersText(members, fmt, depth + 1), Closing(fmt, depth);
    ObjectText(members, fmt, depth);
    AtSplit(c, o, open, body + close);
    AtSplit(c, o + |open|, body, close);
    OpeningSpells(c, o, fmt);
    var r := PrintedMembers(members, fmt, depth + 1, c, o + |open|, depth);
    BlanksJoin(c, o + 1, o + |open|, r);
    AtEnd(c, o + |open| + |body|, close);
    ClosingNonempty(fmt, depth);
  }

  lemma OpeningSpells(c: Text, o: nat, fmt: bool)
    requires At(c, o, Opening(fmt))
    ensures ByteAt(c, o, '{') && Blank(c, o + 1, o + |Opening(fmt)|, true)
  {
    var open := Opening(fmt);
    assert c[o] == open[0];
    if fmt { assert c[o + 1] == open[1]; }
  }

  lemma BlanksJoin(c: Text, i: nat, j: nat, k: nat)
    requires Blank(c, i, j, true) && Blank(c, j, k, true)
    ensures Blank(c, i, k, true)
  {
  }

  /** The indentation in front of the first name, or of the closing brace. */
  lemma IndentSpells(c: Text, p: nat, fmt: bool, n: nat)
    requires At(c, p, Layout(fmt, Tabs(n)))
    ensures Blank(c, p, p + |Layout(fmt, Tabs(n))|, true)
  {
    forall k | p <= k < p + |Layout(fmt, Tabs(n))| ensures c[k] == '\t' { assert c[p + (k - p)] == Layout(fmt, Tabs(n))[k - p]; }
  }

  lemma {:induction false} PrintedMembers(members: Members, fmt: bool, n: nat, c: Text, p: nat, closing: nat) returns (r: nat)
    requires PrintableMembers(members) && At(c, p, MembersText(members, fmt, n))
    requires At(c, p + |MembersText(members, fmt, n)|, Closing(fmt, closing))
    ensures Blank(c, p, r, true)
    ensures SpellsMembers(c, r, p + |MembersText(members, fmt, n)| + |Closing(fmt, closing)|, RoundedMembers(members), true)
    decreases members, 2
  {
    hide At, TextOf, Spells, SpellsMember, SpellsMembers, SpellsName, Blank, MemberHead, MemberSeparator, Closing, MembersText, Rounded;
    if members.NoMember? {
      NoMembersText(fmt, n);
      r := ClosingSpells(c, p, fmt, closing);
    } else {
      var Member(key, v, next) := members;
      MembersUnfold(members, fmt, n);
      var head, text := MemberHead(key, fmt, n), TextOf(v, fmt, n);
      var gap, more := MemberSeparator(next.Member?, fmt), MembersText(next, fmt, n);
      AtSplit(c, p, head, text + (gap + more));
      AtSplit(c, p + |head|, text, gap + more);
      var q := p + |head| + |text|;
      AtSplit(c, q, gap, more);
      r := HeadSpells(c, p, key, fmt, n);
      PrintedSpells(v, fmt, n, c, p + |head|);
      var y := PrintedMembers(next, fmt, n, c, q + |gap|, closing);
      MemberSpells(c, r, p + |head|, q, key, Rounded(v));
      if next.Member? {
        CommaSpells(c, q, fmt);
        BlanksJoin(c, q + 1, q + |gap|, y);
        NextSpells(c, r, q, y, p + |MembersText(members, fmt, n)| + |Closing(fmt, closing)|, key, Rounded(v), RoundedMembers(next));
      } else {
        NoMembersText(fmt, n);
        JustBrace(c, y, q + |gap| + |Closing(fmt, closing)|);
        LastSpells(c, r, q, y, key, Rounded(v), fmt);
      }
    }
  }

  lemma JustBrace(c: Text, y: nat, end: nat)
    requires SpellsMembers(c, y, end, NoMember, true)
    ensures ByteAt(c, y, '}') && y + 1 == end
  {
  }

  lemma NextSpells(c: Text, r: nat, q: nat, y: nat, end: nat, key: Text, v: Json, next: Members)
    requires SpellsMember(c, r, q, key, v, true) && ByteAt(c, q, ',') && Blank(c, q + 1, y, true)
    requires next.Member? && SpellsMembers(c, y, end, next, true)
    ensures SpellsMembers(c, r, end, Member(key, v, next), true)
  {
    hide SpellsMember, Blank;
  }

  lemma ClosingSpells(c: Text, p: nat, fmt: bool, n: nat) returns (r: nat)
    requires At(c, p, Closing(fmt, n))
    ensures Blank(c, p, r, true) && ByteAt(c, r, '}') && r + 1 == p + |Closing(fmt, n)| && SpellsMembers(c, r, r + 1, NoMember, true)
  {
    var indent := Layout(fmt, Tabs(n));
    AtSplit(c, p, indent, ['}']);
    IndentSpells(c, p, fmt, n);
    AtFirst(c, p + |indent|, ['}']);
    r := p + |indent|;
  }

  /** Indentation, name and colon. */
  lemma HeadSpells(c: Text, p: nat, key: Text, fmt: bool, n: nat) returns (r: nat)
    requires NulFree(key) && At(c, p, MemberHead(key, fmt, n))
    ensures Blank(c, p, r, true) && SpellsName(c, r, p + |MemberHead(key, fmt, n)|, key, true)
  {
    hide At, SpellsString, Quoted, Blank;
    var indent, name, colon := Layout(fmt, Tabs(n)), Quoted(key), [':'] + Layout(fmt, ['\t']);
    AtSplit(c, p, indent, name + colon);
    r := p + |indent|;
    AtSplit(c, r, name, colon);
    var m := r + |name|;
    IndentSpells(c, p, fmt, n);
    AtSlice(c, r, name);
    QuotedFirst(key);
    QuotedSpells(key);
    ColonSpells(c, m, fmt);
    NoBlank(c, m);
  }

  lemma ColonSpells(c: Text, m: nat, fmt: bool)
    requires At(c, m, [':'] + Layout(fmt, ['\t']))
    ensures ByteAt(c, m, ':') && Blank(c, m + 1, m + |[':'] + Layout(fmt, ['\t'])|, true)
  {
    var colon := [':'] + Layout(fmt, ['\t']);
    assert c[m] == colon[0];
    if fmt { assert c[m + 1] == colon[1]; }
  }

  lemma MemberSpells(c: Text, r: nat, x: nat, q: nat, key: Text, v: Json)
    requires SpellsName(c, r, x, key, true) && Spells(c, x, q, v, true)
    ensures SpellsMember(c, r, q, key, v, true)
  {
    hide SpellsName;
    NoBlank(c, q);
  }

  lemma CommaSpells(c: Text, q: nat, fmt: bool)
    requires At(c, q, MemberSeparator(true, fmt))
    ensures ByteAt(c, q, ',') && Blank(c, q + 1, q + |MemberSeparator(true, fmt)|, true)
  {
    var gap := MemberSeparator(true, fmt);
    assert c[q] == gap[0];
    if fmt { assert c[q + 1] == gap[1]; }
  }

  /** Behind the last member a line may end before the brace. */
  lemma LastSpells(c: Text, r: nat, q: nat, y: nat, key: Text, v: Json, fmt: bool)
    requires SpellsMember(c, r, q, key, v, true) && At(c, q, MemberSeparator(false, fmt))
    requires Blank(c, q + |MemberSeparator(false, fmt)|, y, true) && ByteAt(c, y, '}')
    ensures SpellsMembers(c, r, y + 1, Member(key, v, NoMember), true)
  {
    hide SpellsName, Spells;
    var gap := MemberSeparator(false, fmt);
    if fmt { assert c[q] == gap[0] == '\n'; }
    var x: nat, p: nat :| SpellsName(c, r, x, key, true) && Spells(c, x, p, v, true) && Blank(c, p, q, true);
    assert Blank(c, p, y, true);
    assert SpellsMember(c, r, y, key, v, true);
  }

  /** Main result: what is printed is JSON by RFC 8259, in either layout, and spells the tree. */
  lemma PrintedIsJson(t: Json, fmt: bool)
    requires Printable(t)
    ensures SpellsText(TextOf(t, fmt, 0), Rounded(t), true)
  {
    hide TextOf, Spells, Blank, Rounded;
    var text := TextOf(t, fmt, 0);
    var c := text + ['\0'];
    BytesStand(text, c);
    PrintedSpells(t, fmt, 0, c, 0);
    NoBlank(c, 0);
    NoBlank(c, |text|);
    assert TextParts(c, |text|, 0, 0, |text|, Rounded(t), true);
  }
}
