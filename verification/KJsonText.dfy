/** The text a tree prints to: what print_value leaves behind, without the buffer. */
module KJsonText {
  import opened Octets
  import opened KJson

  const BACKSPACE: Octet := '\U{8}'
  const FORM_FEED: Octet := '\U{C}'

  function HexDigit(n: nat): Octet
    requires n < 16
  {
    if n < 10 then '0' + n as char else 'a' + (n - 10) as char
  }

  /** One byte of a string as print_string_ptr writes it. */
  function Escape(b: Octet): Text {
    if b > '\U{1F}' && b != '"' && b != '\\' then [b]
    else if b == '\\' then ['\\', '\\']
    else if b == '"' then ['\\', '"']
    else if b == BACKSPACE then ['\\', 'b']
    else if b == FORM_FEED then ['\\', 'f']
    else if b == '\n' then ['\\', 'n']
    else if b == '\r' then ['\\', 'r']
    else if b == '\t' then ['\\', 't']
    else ['\\', 'u', '0', '0', HexDigit(b as int / 16), HexDigit(b as int % 16)]
  }

  function Escaped(s: Text): Text {
    if s == [] then [] else Escape(s[0]) + Escaped(s[1..])
  }

  function Quoted(s: Text): Text {
    ['"'] + (Escaped(s) + ['"'])
  }

  function Decimal(n: nat): (t: Text)
    ensures |t| >= 1
  {
    if n < 10 then ['0' + n as char] else Decimal(n / 10) + ['0' + (n % 10) as char]
  }

  /** The last digits of n, with zeros in front. */
  function Padded(n: nat, width: nat): (t: Text)
    ensures |t| == width
  {
    if width == 0 then [] else Padded(n / 10, width - 1) + ['0' + (n % 10) as char]
  }

  /** |d| in millionths: to the nearest one, and from halfway between two of them to the even one. */
  function Millionths(d: real): nat {
    var x := (if d < 0.0 then -d else d) * 1000000.0;
    var rest := x - x.Floor as real;
    if rest < 0.5 || (rest == 0.5 && x.Floor % 2 == 0) then x.Floor else x.Floor + 1
  }

  /** printf's "%ld". */
  function IntText(n: int): Text {
    if n < 0 then ['-'] + Decimal(-n) else Decimal(n)
  }

  /** printf's "%lf". */
  function FixedText(d: real): Text {
    (if d < 0.0 then ['-'] else []) + (Decimal(Millionths(d) / 1000000) + (['.'] + Padded(Millionths(d) % 1000000, 6)))
  }

  predicate Integral(d: real) {
    d == d.Floor as real
  }

  /** print_number: integers without a fraction, all other numbers with six decimals. */
  function NumberText(d: real): Text {
    if Integral(d) then IntText(d.Floor) else FixedText(d)
  }

  /** What fits into print_number's buffer of 26 bytes. */
  const NUMBER_ROOM: nat := 25

  function Tabs(n: nat): (t: Text)
    ensures |t| == n
    ensures forall i | 0 <= i < n :: t[i] == '\t'
  {
    if n == 0 then [] else ['\t'] + Tabs(n - 1)
  }

  /** The layout pieces that differ between kJSON_Print (fmt) and kJSON_PrintUnformatted. */
  function Layout(fmt: bool, t: Text): Text {
    if fmt then t else []
  }

  function TextOf(t: Json, fmt: bool, depth: nat): Text
    decreases t, 1
  {
    match t
    case Invalid => []
    case Null => "null"
    case False => "false"
    case True => "true"
    case Number(_, d) => NumberText(d)
    case String(s) => Quoted(s)
    case Array(items) => ['['] + (ItemsText(items, fmt, depth + 1) + [']'])
    case Object(members) =>
      Opening(fmt) + (MembersText(members, fmt, depth + 1) + Closing(fmt, depth))
  }

  function ItemsText(items: Items, fmt: bool, depth: nat): Text
    decreases items, 0
  {
    match items
    case NoItem => []
    case Item(v, next) =>
      TextOf(v, fmt, depth) + (ItemSeparator(next.Item?, fmt) + ItemsText(next, fmt, depth))
  }

  function ItemSeparator(more: bool, fmt: bool): Text {
    if more then [','] + Layout(fmt, [' ']) else []
  }

  function Opening(fmt: bool): Text {
    ['{'] + Layout(fmt, ['\n'])
  }

  function Closing(fmt: bool, depth: nat): Text {
    Layout(fmt, Tabs(depth)) + ['}']
  }

  function MembersText(members: Members, fmt: bool, depth: nat): Text
    decreases members, 0
  {
    match members
    case NoMember => []
    case Member(k, v, next) =>
      MemberHead(k, fmt, depth)
      + (TextOf(v, fmt, depth) + (MemberSeparator(next.Member?, fmt) + MembersText(next, fmt, depth)))
  }

  function MemberHead(key: Text, fmt: bool, depth: nat): Text {
    Layout(fmt, Tabs(depth)) + (Quoted(key) + ([':'] + Layout(fmt, ['\t'])))
  }

  function MemberSeparator(more: bool, fmt: bool): Text {
    (if more then [','] else []) + Layout(fmt, ['\n'])
  }

  // ----- what can be printed

  /** Trees that can be printed: no number is too long for print_number. Strings are C strings. */
  ghost predicate Printable(t: Json) {
    match t
    case Invalid => false
    case Number(_, d) => |NumberText(d)| <= NUMBER_ROOM
    case String(s) => NulFree(s)
    case Array(items) => PrintableItems(items)
    case Object(members) => PrintableMembers(members)
    case _ => true
  }

  ghost predicate PrintableItems(items: Items) {
    match items
    case NoItem => true
    case Item(v, next) => Printable(v) && PrintableItems(next)
  }

  ghost predicate PrintableMembers(members: Members) {
    match members
    case NoMember => true
    case Member(k, v, next) => NulFree(k) && Printable(v) && PrintableMembers(next)
  }

  /** The number that the text of d denotes. */
  function Nearest(d: real): real {
    (if d < 0.0 then 0.0 - Millionths(d) as real else Millionths(d) as real) / 1000000.0
  }

  /** The tree with its numbers as printing rounds them. */
  function Rounded(t: Json): Json {
    match t
    case Number(_, d) => Number(Saturate(Nearest(d)), Nearest(d))
    case Array(items) => Array(RoundedItems(items))
    case Object(members) => Object(RoundedMembers(members))
    case _ => t
  }

  function RoundedItems(items: Items): Items {
    match items
    case NoItem => NoItem
    case Item(v, next) => Item(Rounded(v), RoundedItems(next))
  }

  function RoundedMembers(members: Members): Members {
    match members
    case NoMember => NoMember
    case Member(k, v, next) => Member(k, Rounded(v), RoundedMembers(next))
  }
}
