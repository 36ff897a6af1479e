/** What the recursive-descent parser accepts, as functions of the content and the read offset. */
module KJsonGrammar {
  import opened Octets
  import opened KJson

  datatype Parsed<+T> = Fail | Ok(value: T, offset: nat)

  /** kJSON_ParseWithOpts hands the parser a C string together with its terminator. */
  ghost predicate Terminated(c: Text) {
    |c| > 0 && forall i | 0 <= i < |c| :: c[i] == '\0' <==> i == |c| - 1
  }

  /** buffer_skip_whitespace: never leaves the offset past the last byte. */
  function SkipWhitespace(c: Text, o: nat): (r: nat)
    requires o < |c|
    ensures o <= r < |c|
    decreases |c| - o
  {
    if c[o] > ' ' then o
    else if o + 1 == |c| then o
    else SkipWhitespace(c, o + 1)
  }

  predicate IsDigit(b: Octet) {
    '0' <= b <= '9'
  }

  predicate IsNumberChar(b: Octet) {
    IsDigit(b) || b == '+' || b == '-' || b == 'e' || b == 'E' || b == '.'
  }

  /** Length of the run that parse_number copies to its 64-byte buffer. */
  function NumberRun(c: Text, o: nat, k: nat): (r: nat)
    requires o + k <= |c| && k <= 63
    ensures k <= r <= 63 && o + r <= |c|
    ensures forall i | o + k <= i < o + r :: IsNumberChar(c[i])
    decreases 63 - k
  {
    if k == 63 || o + k >= |c| || !IsNumberChar(c[o + k]) then k else NumberRun(c, o, k + 1)
  }

  /** The digits from p on, accumulated after acc, and where they end. */
  function Digits(s: Text, p: nat, acc: nat): (r: (nat, nat))
    requires p <= |s|
    ensures p <= r.1 <= |s|
    decreases |s| - p
  {
    if p < |s| && IsDigit(s[p]) then Digits(s, p + 1, 10 * acc + (s[p] as int - '0' as int)) else (acc, p)
  }

  function Power10(e: int): real
    decreases if e < 0 then -e else e
  {
    if e == 0 then 1.0 else if e > 0 then 10.0 * Power10(e - 1) else Power10(e + 1) / 10.0
  }

  function Magnitude(mantissa: nat, exponent: int): real {
    mantissa as real * Power10(exponent)
  }

  /** strtod on text over the number alphabet, without rounding: the value and how much was used. */
  function Strtod(s: Text): (r: (real, nat))
    ensures r.1 <= |s|
  {
    var sign := |s| > 0 && (s[0] == '-' || s[0] == '+');
    var p0 := if sign then 1 else 0;
    var (whole, p1) := Digits(s, p0, 0);
    var dot := p1 < |s| && s[p1] == '.';
    var (mantissa, p2) := if dot then Digits(s, p1 + 1, whole) else (whole, p1);
    var scale := if dot then p2 - p1 - 1 else 0;
    if (p1 - p0) + scale == 0 then (0.0, 0)
    else
      var (exponent, p3) := Exponent(s, p2);
      var magnitude := Magnitude(mantissa, exponent - scale);
      (if sign && s[0] == '-' then -magnitude else magnitude, p3)
  }

  function Exponent(s: Text, p: nat): (r: (int, nat))
    requires p <= |s|
    ensures r.1 <= |s|
  {
    if p < |s| && (s[p] == 'e' || s[p] == 'E') then
      var sign := p + 1 < |s| && (s[p + 1] == '-' || s[p + 1] == '+');
      var q := if sign then p + 2 else p + 1;
      var (e, end) := Digits(s, q, 0);
      var value: int := if sign && s[p + 1] == '-' then 0 - e else e;
      if end == q then (0, p) else (value, end)
    else (0, p)
  }

  function NumberAt(c: Text, o: nat): (r: Parsed<Json>)
    requires o <= |c|
    ensures r.Ok? ==> o < r.offset <= |c| && IsNumberChar(c[r.offset - 1])
  {
    var run := c[o..o + NumberRun(c, o, 0)];
    var (d, used) := Strtod(run);
    if used == 0 then Fail else Ok(Number(Saturate(d), d), o + used)
  }

  /** parse_string's first scan: the closing quote, stepping over escaped bytes. */
  function ClosingQuote(c: Text, i: nat): (r: Option<nat>)
    ensures r.Some? ==> i <= r.value < |c| && c[r.value] == '"'
    decreases |c| - i
  {
    if i >= |c| then None
    else if c[i] == '"' then Some(i)
    else if c[i] != '\\' then ClosingQuote(c, i + 1)
    else if i + 1 >= |c| then None
    else ClosingQuote(c, i + 2)
  }

  function HexValue(b: Octet): (r: Option<nat>)
    ensures r.Some? ==> r.value < 16
  {
    if '0' <= b <= '9' then Some(b as int - '0' as int)
    else if 'A' <= b <= 'F' then Some(10 + b as int - 'A' as int)
    else if 'a' <= b <= 'f' then Some(10 + b as int - 'a' as int)
    else None
  }

  /** parse_hex4: an invalid digit anywhere makes the whole code 0. */
  function Hex4(c: Text, i: nat): (h: nat)
    requires i + 4 <= |c|
    ensures h < 0x1_0000
  {
    var a, b := HexValue(c[i]), HexValue(c[i + 1]);
    var d, e := HexValue(c[i + 2]), HexValue(c[i + 3]);
    if a.Some? && b.Some? && d.Some? && e.Some?
    then ((a.value * 16 + b.value) * 16 + d.value) * 16 + e.value
    else 0
  }

  function Utf8(codepoint: nat): (t: Text)
    requires codepoint <= 0x10_FFFF
    ensures 1 <= |t| <= 4
  {
    if codepoint < 0x80 then [codepoint as char]
    else if codepoint < 0x800 then
      [(0xC0 + codepoint / 64) as char, (0x80 + codepoint % 64) as char]
    else if codepoint < 0x1_0000 then
      [(0xE0 + codepoint / 4096) as char, (0x80 + codepoint / 64 % 64) as char, (0x80 + codepoint % 64) as char]
    else
      [(0xF0 + codepoint / 0x4_0000) as char, (0x80 + codepoint / 4096 % 64) as char,
       (0x80 + codepoint / 64 % 64) as char, (0x80 + codepoint % 64) as char]
  }

  /** utf16_literal_to_utf8 on the escape at i; e is the closing quote. The offset is the length of the literal. */
  function Utf16Literal(c: Text, i: nat, e: nat): (r: Parsed<Text>)
    requires i <= e < |c|
    ensures r.Ok? ==> r.offset == 6 || r.offset == 12
  {
    if e - i < 6 then Fail
    else
      var first := Hex4(c, i + 2);
      if 0xDC00 <= first <= 0xDFFF then Fail
      else if 0xD800 <= first <= 0xDBFF then
        if e - i < 12 || c[i + 6] != '\\' || c[i + 7] != 'u' then Fail
        else
          var second := Hex4(c, i + 8);
          if second < 0xDC00 || second > 0xDFFF then Fail
          else Ok(Utf8(0x1_0000 + (first % 0x400 * 0x400 + second % 0x400)), 12)
      else Ok(Utf8(first), 6)
  }

  /** The byte a two-character escape stands for. */
  function SimpleEscape(b: Octet): Option<Octet> {
    match b
    case 'b' => Some('\U{8}')
    case 'f' => Some('\U{C}')
    case 'n' => Some('\n')
    case 'r' => Some('\r')
    case 't' => Some('\t')
    case '"' => Some('"')
    case '\\' => Some('\\')
    case '/' => Some('/')
    case _ => None
  }

  /** parse_string's second pass over the bytes from i up to the closing quote at e. */
  function Unescaped(c: Text, i: nat, e: nat): Option<Text>
    requires e < |c|
    decreases e - i
  {
    if i >= e then Some([])
    else if c[i] != '\\' then Prefix([c[i]], Unescaped(c, i + 1, e))
    else if c[i + 1] == 'u' then
      match Utf16Literal(c, i, e)
      case Fail => None
      case Ok(t, n) => Prefix(t, Unescaped(c, i + n, e))
    else
      match SimpleEscape(c[i + 1])
      case None => None
      case Some(b) => Prefix([b], Unescaped(c, i + 2, e))
  }

  function Prefix(t: Text, rest: Option<Text>): Option<Text> {
    match rest
    case None => None
    case Some(s) => Some(t + s)
  }

  /** parse_string: the C string read and the offset behind the closing quote. */
  function StringAt(c: Text, o: nat): (r: Parsed<Text>)
    requires o < |c|
    ensures r.Ok? ==> o + 1 < r.offset <= |c| && c[r.offset - 1] == '"'
  {
    if c[o] != '"' then Fail
    else
      match ClosingQuote(c, o + 1)
      case None => Fail
      case Some(e) =>
        match Unescaped(c, o + 1, e)
        case None => Fail
        case Some(s) => Ok(UpToNul(s), e + 1)
  }

  /** can_read and strncmp: the word stands at o. */
  predicate Literal(c: Text, o: nat, word: Text)
    ensures Literal(c, o, word) <==> At(c, o, word)
  {
    o + |word| <= |c| && forall i | 0 <= i < |word| :: c[o + i] == word[i]
  }

  /** parse_value. */
  function ValueAt(c: Text, o: nat, depth: nat): (r: Parsed<Json>)
    requires Terminated(c) && o < |c|
    ensures r.Ok? ==> o < r.offset < |c|
    decreases |c| - o, 0
  {
    assert Literal(c, o, "null") ==> c[o + 3] == "null"[3];
    assert Literal(c, o, "false") ==> c[o + 4] == "false"[4];
    assert Literal(c, o, "true") ==> c[o + 3] == "true"[3];
    if Literal(c, o, "null") then Ok(Null, o + 4)
    else if Literal(c, o, "false") then Ok(False, o + 5)
    else if Literal(c, o, "true") then Ok(True, o + 4)
    else if c[o] == '"' then
      match StringAt(c, o)
      case Fail => Fail
      case Ok(s, end) => Ok(String(s), end)
    else if c[o] == '-' || IsDigit(c[o]) then NumberAt(c, o)
    else if c[o] == '[' then
      if depth >= NESTING_LIMIT then Fail
      else
        var p := SkipWhitespace(c, o + 1);
        if c[p] == ']' then Ok(Array(NoItem), p + 1)
        else
          match ItemsAt(c, p, depth + 1)
          case Fail => Fail
          case Ok(items, end) => Ok(Array(items), end)
    else if c[o] == '{' then
      if depth >= NESTING_LIMIT then Fail
      else
        var p := SkipWhitespace(c, o + 1);
        if c[p] == '}' then Ok(Object(NoMember), p + 1)
        else
          match MembersAt(c, p, depth + 1)
          case Fail => Fail
          case Ok(members, end) => Ok(Object(members), end)
    else Fail
  }

  /** The elements from o on, through the closing bracket. */
  function ItemsAt(c: Text, o: nat, depth: nat): (r: Parsed<Items>)
    requires Terminated(c) && o < |c|
    ensures r.Ok? ==> o < r.offset < |c| && r.value.Item?
    decreases |c| - o, 1
  {
    match ValueAt(c, o, depth)
    case Fail => Fail
    case Ok(v, end) =>
      var p := SkipWhitespace(c, end);
      if c[p] == ',' then
        match ItemsAt(c, SkipWhitespace(c, p + 1), depth)
        case Fail => Fail
        case Ok(rest, last) => Ok(Item(v, rest), last)
      else if c[p] == ']' then Ok(Item(v, NoItem), p + 1)
      else Fail
  }

  /** The members from o on, through the closing brace. */
  function MembersAt(c: Text, o: nat, depth: nat): (r: Parsed<Members>)
    requires Terminated(c) && o < |c|
    ensures r.Ok? ==> o < r.offset < |c| && r.value.Member?
    decreases |c| - o, 1
  {
    match NameAt(c, o)
    case Fail => Fail
    case Ok(key, colon) =>
      match ValueAt(c, SkipWhitespace(c, colon + 1), depth)
      case Fail => Fail
      case Ok(v, end) =>
        var p := SkipWhitespace(c, end);
        if c[p] == ',' then
          match MembersAt(c, SkipWhitespace(c, p + 1), depth)
          case Fail => Fail
          case Ok(rest, last) => Ok(Member(key, v, rest), last)
        else if c[p] == '}' then Ok(Member(key, v, NoMember), p + 1)
        else Fail
  }

  /** A member's name, and the offset of the colon behind it. */
  function NameAt(c: Text, o: nat): (r: Parsed<Text>)
    requires Terminated(c) && o < |c|
    ensures r.Ok? ==> o < r.offset < |c| - 1
  {
    match StringAt(c, o)
    case Fail => Fail
    case Ok(key, end) =>
      var p := SkipWhitespace(c, end);
      if c[p] != ':' then Fail else Ok(key, p)
  }

  const BOM: Text := ['\U{EF}', '\U{BB}', '\U{BF}']

  /** skip_utf8_bom: only when a fifth byte can be read. */
  function SkipBom(c: Text): (o: nat)
    requires |c| > 0
    ensures o < |c|
  {
    if |c| > 4 && c[0] == BOM[0] && c[1] == BOM[1] && c[2] == BOM[2] then 3 else 0
  }

  /** kJSON_ParseWithOpts on a C string: the tree and the offset of *return_parse_end. */
  function Parse(text: Text, requireNul: bool): (r: Parsed<Json>)
    requires NulFree(text)
  {
    var c := text + ['\0'];
    match ValueAt(c, SkipWhitespace(c, SkipBom(c)), 0)
    case Fail => Fail
    case Ok(v, end) =>
      if !requireNul then Ok(v, end)
      else
        var last := SkipWhitespace(c, end);
        if c[last] != '\0' then Fail else Ok(v, last)
  }

  /** The three words are told from everything else by their first byte. */
  lemma NoLiteral(c: Text, o: nat)
    requires o < |c|
    ensures c[o] != 'n' ==> !Literal(c, o, "null")
    ensures c[o] != 'f' ==> !Literal(c, o, "false")
    ensures c[o] != 't' ==> !Literal(c, o, "true")
  {
    if Literal(c, o, "null") { AtFirst(c, o, "null"); }
    if Literal(c, o, "false") { AtFirst(c, o, "false"); }
    if Literal(c, o, "true") { AtFirst(c, o, "true"); }
  }

  /** One round of parse_array's loop. */
  lemma ItemsStep(c: Text, o: nat, depth: nat)
    requires Terminated(c) && o < |c|
    ensures var r := ValueAt(c, o, depth);
      && (r.Fail? ==> ItemsAt(c, o, depth) == Fail)
      && (r.Ok? ==>
            var p := SkipWhitespace(c, r.offset);
            && (c[p] == ']' ==> ItemsAt(c, o, depth) == Ok(Item(r.value, NoItem), p + 1))
            && (c[p] != ']' && c[p] != ',' ==> ItemsAt(c, o, depth) == Fail)
            && (c[p] == ',' ==> p + 1 < |c|)
            && (c[p] == ',' ==>
                  var rest := ItemsAt(c, SkipWhitespace(c, p + 1), depth);
                  ItemsAt(c, o, depth) == if rest.Ok? then Ok(Item(r.value, rest.value), rest.offset) else Fail))
  {
    hide ValueAt, SkipWhitespace;
  }

  /** One round of parse_object's loop. */
  lemma MembersStep(c: Text, o: nat, depth: nat)
    requires Terminated(c) && o < |c|
    ensures NameAt(c, o).Fail? ==> MembersAt(c, o, depth) == Fail
    ensures NameAt(c, o).Ok? ==>
      var name := NameAt(c, o); var r := ValueAt(c, SkipWhitespace(c, name.offset + 1), depth);
      && (r.Fail? ==> MembersAt(c, o, depth) == Fail)
      && (r.Ok? ==>
            var p := SkipWhitespace(c, r.offset);
            && (c[p] == '}' ==> MembersAt(c, o, depth) == Ok(Member(name.value, r.value, NoMember), p + 1))
            && (c[p] != '}' && c[p] != ',' ==> MembersAt(c, o, depth) == Fail)
            && (c[p] == ',' ==> p + 1 < |c|)
            && (c[p] == ',' ==>
                  var rest := MembersAt(c, SkipWhitespace(c, p + 1), depth);
                  MembersAt(c, o, depth)
                  == if rest.Ok? then Ok(Member(name.value, r.value, rest.value), rest.offset) else Fail))
  {
    hide ValueAt, SkipWhitespace, NameAt;
  }
}
