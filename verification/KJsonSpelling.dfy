/** How JSON trees are spelled, as a relation between bytes and trees. With rfc it is the grammar of RFC 8259, but for numerals
    of more than 63 bytes; without, it is all that this parser takes. */
module KJsonSpelling {
  import opened Octets
  import opened KJson
  import opened KJsonNumbers
  import opened KJsonUnicode

  ghost predicate Blank(c: Text, i: nat, j: nat, rfc: bool) {
    i <= j <= |c| && forall k | i <= k < j :: c[k] <= ' ' && (rfc ==> c[k] in " \t\n\r")
  }

  // ----- numbers

  /** The int beside a double: truncated, and kept within the range of an int. */
  ghost predicate IsInt(i: int, d: real) {
    if d >= 2147483647.0 then i == 2147483647
    else if d <= -2147483648.0 then i == -2147483648
    else if d >= 0.0 then i as real <= d < i as real + 1.0
    else i as real - 1.0 < d <= i as real
  }

  /** The parser turns to numbers at a minus sign or a digit. */
  ghost predicate SpellsNumber(t: Text, d: real, rfc: bool) {
    exists n: Numeral :: NumeralText(n) == t && IsNumeral(n) && Denotes(n, d) && MayStand(n, rfc) && |t| <= 63
  }

  ghost predicate MayStand(n: Numeral, rfc: bool) {
    && n.sign != "+" && (n.sign == "" ==> n.whole != "")
    && (rfc ==> n.whole != "" && (n.whole[0] == '0' ==> |n.whole| == 1) && (n.point ==> n.fraction != ""))
  }

  // ----- strings

  /** A byte as it is, a short escape, a \u escape, a surrogate pair of them; and a backslash that takes the closing quote of
      the string for its second byte, which comes about only behind four bytes that are not hexadecimal. */
  datatype Unit = Raw(b: Octet) | Short(b: Octet) | Code(h: Text) | Pair(h: Text, l: Text) | Cut

  /** A unit and the bytes that it stands for. */
  datatype Piece = Piece(unit: Unit, means: Text)

  function UnitText(u: Unit): (t: Text)
    ensures t != []
  {
    match u
    case Raw(b) => [b]
    case Short(b) => ['\\', b]
    case Code(h) => "\\u" + h
    case Pair(h, l) => "\\u" + h + "\\u" + l
    case Cut => ['\\']
  }

  function Nibble(b: Octet): Option<nat> {
    if '0' <= b <= '9' then Some(b as int - '0' as int)
    else if 'a' <= b <= 'f' then Some(10 + b as int - 'a' as int)
    else if 'A' <= b <= 'F' then Some(10 + b as int - 'A' as int)
    else None
  }

  predicate AllHex(h: Text) {
    |h| == 4 && Nibble(h[0]).Some? && Nibble(h[1]).Some? && Nibble(h[2]).Some? && Nibble(h[3]).Some?
  }

  /** Four hexadecimal digits; anything else counts as 0. */
  function HexOf(h: Text): nat {
    if !AllHex(h) then 0
    else Nibble(h[0]).value * 4096 + Nibble(h[1]).value * 256 + Nibble(h[2]).value * 16 + Nibble(h[3]).value
  }

  ghost predicate UnitMeans(u: Unit, t: Text, rfc: bool) {
    match u
    case Raw(b) => t == [b] && b != '\\' && (rfc ==> b != '"' && b >= ' ')
    case Short(b) => exists k | 0 <= k < 8 :: b == "\"\\/bfnrt"[k] && t == ["\"\\/\U{8}\U{C}\n\r\t"[k]]
    case Code(h) => |h| == 4 && FromUtf8(t) == Some(HexOf(h)) && (rfc ==> AllHex(h))
    case Pair(h, l) =>
      && |h| == 4 && |l| == 4 && 0xD800 <= HexOf(h) < 0xDC00 && 0xDC00 <= HexOf(l) < 0xE000
      && FromUtf8(t) == Some(0x1_0000 + (HexOf(h) - 0xD800) * 0x400 + (HexOf(l) - 0xDC00))
    case Cut => t == ['"'] && !rfc
  }

  /** Only the last unit can be cut. */
  ghost predicate Proper(ps: seq<Piece>, rfc: bool) {
    forall i | 0 <= i < |ps| :: UnitMeans(ps[i].unit, ps[i].means, rfc) && (ps[i].unit.Cut? ==> i == |ps| - 1)
  }

  function BodyOf(ps: seq<Piece>): Text {
    if ps == [] then [] else UnitText(ps[0].unit) + BodyOf(ps[1..])
  }

  function MeantBy(ps: seq<Piece>): Text {
    if ps == [] then [] else ps[0].means + MeantBy(ps[1..])
  }

  /** Every quote and every backslash is escaped, taking two bytes at each backslash. */
  ghost predicate QuotesEscaped(body: Text) {
    body == [] || (body[0] != '"' && body[0] != '\\' && QuotesEscaped(body[1..]))
    || (|body| >= 2 && body[0] == '\\' && QuotesEscaped(body[2..]))
  }

  /** A C string ends at the first NUL, also one that is escaped. */
  ghost predicate SpellsString(t: Text, s: Text, rfc: bool) {
    exists ps: seq<Piece> ::
      Proper(ps, rfc) && QuotesEscaped(BodyOf(ps)) && t == "\"" + BodyOf(ps) + "\"" && s == UpToNul(MeantBy(ps))
  }

  // ----- trees

  /** The bytes of c from o up to end spell the tree. */
  ghost predicate Spells(c: Text, o: nat, end: nat, v: Json, rfc: bool)
    decreases v, 1
  {
    && o < end <= |c|
    && match v
       case Invalid => false
       case Null => c[o..end] == "null"
       case False => c[o..end] == "false"
       case True => c[o..end] == "true"
       case Number(i, d) => IsInt(i, d) && SpellsNumber(c[o..end], d, rfc)
       case String(s) => SpellsString(c[o..end], s, rfc)
       case Array(items) => c[o] == '[' && (exists p: nat :: Blank(c, o + 1, p, rfc) && SpellsItems(c, p, end, items, rfc))
       case Object(members) => c[o] == '{' && (exists p: nat :: Blank(c, o + 1, p, rfc) && SpellsMembers(c, p, end, members, rfc))
  }

  ghost predicate ByteAt(c: Text, i: nat, b: Octet) {
    i < |c| && c[i] == b
  }

  /** Elements with commas between them, through the closing bracket. */
  ghost predicate SpellsItems(c: Text, o: nat, end: nat, items: Items, rfc: bool)
    decreases items, 0
  {
    match items
    case NoItem => o + 1 == end && ByteAt(c, o, ']')
    case Item(v, NoItem) => exists p: nat, q: nat :: Spells(c, o, p, v, rfc) && Blank(c, p, q, rfc) && ByteAt(c, q, ']') && q + 1 == end
    case Item(v, next) =>
      exists p: nat, q: nat, r: nat :: Spells(c, o, p, v, rfc) && Blank(c, p, q, rfc) && ByteAt(c, q, ',') && Blank(c, q + 1, r, rfc)
                        && SpellsItems(c, r, end, next, rfc)
  }

  /** A name and the colon behind it, up to x. */
  ghost predicate SpellsName(c: Text, o: nat, x: nat, key: Text, rfc: bool) {
    exists m: nat, k: nat :: o < m <= |c| && SpellsString(c[o..m], key, rfc) && Blank(c, m, k, rfc) && ByteAt(c, k, ':')
                   && Blank(c, k + 1, x, rfc)
  }

  ghost predicate SpellsMember(c: Text, o: nat, q: nat, key: Text, v: Json, rfc: bool)
    decreases v, 2
  {
    exists x: nat, p: nat :: SpellsName(c, o, x, key, rfc) && Spells(c, x, p, v, rfc) && Blank(c, p, q, rfc)
  }

  ghost predicate SpellsMembers(c: Text, o: nat, end: nat, members: Members, rfc: bool)
    decreases members, 0
  {
    match members
    case NoMember => o + 1 == end && ByteAt(c, o, '}')
    case Member(key, v, NoMember) => exists q: nat :: SpellsMember(c, o, q, key, v, rfc) && ByteAt(c, q, '}') && q + 1 == end
    case Member(key, v, next) =>
      exists q: nat, r: nat :: SpellsMember(c, o, q, key, v, rfc) && ByteAt(c, q, ',') && Blank(c, q + 1, r, rfc)
                     && SpellsMembers(c, r, end, next, rfc)
  }

  // ----- what RFC 8259 allows, the parser allows

  lemma {:induction false} RfcSpells(c: Text, o: nat, end: nat, v: Json)
    requires Spells(c, o, end, v, true)
    ensures Spells(c, o, end, v, false)
    decreases v, 1
  {
    hide SpellsNumber, SpellsString, SpellsItems, SpellsMembers;
    match v
    case Number(i, d) => RfcNumber(c[o..end], d);
    case String(s) => RfcString(c[o..end], s);
    case Array(items) =>
      var p: nat :| Blank(c, o + 1, p, true) && SpellsItems(c, p, end, items, true);
      RfcItems(c, p, end, items);
      assert Blank(c, o + 1, p, false);
    case Object(members) =>
      var p: nat :| Blank(c, o + 1, p, true) && SpellsMembers(c, p, end, members, true);
      RfcMembers(c, p, end, members);
      assert Blank(c, o + 1, p, false);
    case _ =>
  }

  lemma RfcNumber(t: Text, d: real)
    requires SpellsNumber(t, d, true)
    ensures SpellsNumber(t, d, false)
  {
    var n: Numeral :| NumeralText(n) == t && IsNumeral(n) && Denotes(n, d) && MayStand(n, true) && |t| <= 63;
    assert MayStand(n, false);
  }

  lemma RfcString(t: Text, s: Text)
    requires SpellsString(t, s, true)
    ensures SpellsString(t, s, false)
  {
    var ps: seq<Piece> :|
      Proper(ps, true) && QuotesEscaped(BodyOf(ps)) && t == "\"" + BodyOf(ps) + "\"" && s == UpToNul(MeantBy(ps));
    assert Proper(ps, false);
  }

  lemma {:induction false} RfcItems(c: Text, o: nat, end: nat, items: Items)
    requires SpellsItems(c, o, end, items, true)
    ensures SpellsItems(c, o, end, items, false)
    decreases items, 0
  {
    hide Spells;
    match items
    case NoItem =>
    case Item(v, NoItem) =>
      var p: nat, q: nat :| Spells(c, o, p, v, true) && Blank(c, p, q, true) && ByteAt(c, q, ']') && q + 1 == end;
      RfcSpells(c, o, p, v);
      assert Blank(c, p, q, false);
    case Item(v, next) =>
      var p: nat, q: nat, r: nat :| Spells(c, o, p, v, true) && Blank(c, p, q, true) && ByteAt(c, q, ',') && Blank(c, q + 1, r, true)
                     && SpellsItems(c, r, end, next, true);
      RfcSpells(c, o, p, v);
      RfcItems(c, r, end, next);
      assert Blank(c, p, q, false) && Blank(c, q + 1, r, false);
  }

  lemma RfcName(c: Text, o: nat, x: nat, key: Text)
    requires SpellsName(c, o, x, key, true)
    ensures SpellsName(c, o, x, key, false)
  {
    hide SpellsString;
    var m: nat, k: nat :| o < m <= |c| && SpellsString(c[o..m], key, true) && Blank(c, m, k, true) && ByteAt(c, k, ':')
                && Blank(c, k + 1, x, true);
    RfcString(c[o..m], key);
    assert Blank(c, m, k, false) && Blank(c, k + 1, x, false);
  }

  lemma {:induction false} RfcMember(c: Text, o: nat, q: nat, key: Text, v: Json)
    requires SpellsMember(c, o, q, key, v, true)
    ensures SpellsMember(c, o, q, key, v, false)
    decreases v, 2
  {
    hide Spells, SpellsName;
    var x: nat, p: nat :| SpellsName(c, o, x, key, true) && Spells(c, x, p, v, true) && Blank(c, p, q, true);
    RfcName(c, o, x, key);
    RfcSpells(c, x, p, v);
    assert Blank(c, p, q, false);
  }

  lemma {:induction false} RfcMembers(c: Text, o: nat, end: nat, members: Members)
    requires SpellsMembers(c, o, end, members, true)
    ensures SpellsMembers(c, o, end, members, false)
    decreases members, 0
  {
    hide SpellsMember;
    match members
    case NoMember =>
    case Member(key, v, NoMember) =>
      var q: nat :| SpellsMember(c, o, q, key, v, true) && ByteAt(c, q, '}') && q + 1 == end;
      RfcMember(c, o, q, key, v);
    case Member(key, v, next) =>
      var q: nat, r: nat :| SpellsMember(c, o, q, key, v, true) && ByteAt(c, q, ',') && Blank(c, q + 1, r, true)
                  && SpellsMembers(c, r, end, next, true);
      RfcMember(c, o, q, key, v);
      RfcMembers(c, r, end, next);
      assert Blank(c, q + 1, r, false);
  }
}
