/** kJSON trees: a value owns the chain of its children. */
module KJson {
  import opened Octets

  datatype Json =
    | Invalid
    | Null
    | False
    | True
    | Number(valueint: int, valuedouble: real)
    | String(valuestring: Text)
    | Array(items: Items)
    | Object(members: Members)

  /** The `next` chain below an array. */
  datatype Items = NoItem | Item(value: Json, next: Items)

  /** The `next` chain below an object; every link carries its name. */
  datatype Members = NoMember | Member(key: Text, value: Json, next: Members)

  const INT_MAX: int := 0x7FFF_FFFF
  const INT_MIN: int := -0x8000_0000

  /** C's conversion from double to int rounds toward zero. */
  function Truncate(d: real): int {
    if d >= 0.0 then d.Floor else -((-d).Floor)
  }

  /** valueint as parse_number and kJSON_SetNumberHelper derive it from valuedouble. */
  function Saturate(d: real): (i: int)
    ensures INT_MIN <= i <= INT_MAX
  {
    if d >= INT_MAX as real then INT_MAX
    else if d <= INT_MIN as real then INT_MIN
    else Truncate(d)
  }

  const NESTING_LIMIT: nat := 1000

  function Max(a: nat, b: nat): nat {
    if a < b then b else a
  }

  /** How deeply arrays and objects are nested in a value. */
  function Nesting(t: Json): nat {
    match t
    case Array(items) => 1 + ItemsNesting(items)
    case Object(members) => 1 + MembersNesting(members)
    case _ => 0
  }

  function ItemsNesting(items: Items): nat {
    match items
    case NoItem => 0
    case Item(v, next) => Max(Nesting(v), ItemsNesting(next))
  }

  function MembersNesting(members: Members): nat {
    match members
    case NoMember => 0
    case Member(_, v, next) => Max(Nesting(v), MembersNesting(next))
  }

  function AppendItems(a: Items, b: Items): Items {
    match a
    case NoItem => b
    case Item(v, next) => Item(v, AppendItems(next, b))
  }

  lemma {:induction false} AppendNothing(a: Items)
    ensures AppendItems(a, NoItem) == a
  {
    if a.Item? { AppendNothing(a.next); }
  }

  function AppendMembers(a: Members, b: Members): Members {
    match a
    case NoMember => b
    case Member(k, v, next) => Member(k, v, AppendMembers(next, b))
  }
}
