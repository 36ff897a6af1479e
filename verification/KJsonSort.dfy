/** sort_list: the merge sort over the members of an object, along its `next` chain. */
module KJsonSort {
  import opened KJson
  import opened KJsonStrings

  function Count(ms: Members): nat {
    match ms
    case NoMember => 0
    case Member(_, _, next) => 1 + Count(next)
  }

  /** Number of nodes; what recursion over sorted members decreases. */
  function Size(t: Json): (n: nat)
    ensures n >= 1
  {
    match t
    case Array(items) => 1 + ItemsSize(items)
    case Object(members) => 1 + MembersSize(members)
    case _ => 1
  }

  function ItemsSize(items: Items): nat {
    match items
    case NoItem => 0
    case Item(v, next) => Size(v) + ItemsSize(next)
  }

  function MembersSize(ms: Members): nat {
    match ms
    case NoMember => 0
    case Member(_, v, next) => Size(v) + MembersSize(next)
  }

  function Take(ms: Members, n: nat): (r: Members)
    requires n <= Count(ms)
    ensures Count(r) == n
  {
    if n == 0 then NoMember else Member(ms.key, ms.value, Take(ms.next, n - 1))
  }

  function Drop(ms: Members, n: nat): (r: Members)
    requires n <= Count(ms)
    ensures Count(r) == Count(ms) - n
    ensures MembersSize(r) + MembersSize(Take(ms, n)) == MembersSize(ms)
  {
    if n == 0 then ms else Drop(ms.next, n - 1)
  }

  /** The test that leaves a list alone: strictly ascending along the chain. */
  predicate IsSorted(ms: Members, caseSensitive: bool) {
    ms.Member? && ms.next.Member? ==>
      CompareStrings(ms.key, ms.next.key, caseSensitive) < 0 && IsSorted(ms.next, caseSensitive)
  }

  /** The merging loop. It compares without regard to case, whatever sort was asked for; on a tie the second goes
      first. */
  function Merge(first: Members, second: Members): (r: Members)
    ensures Count(r) == Count(first) + Count(second)
    ensures MembersSize(r) == MembersSize(first) + MembersSize(second)
  {
    match (first, second)
    case (NoMember, _) => second
    case (_, NoMember) => first
    case (Member(k1, v1, next1), Member(k2, v2, next2)) =>
      if CompareStrings(k1, k2, false) < 0 then Member(k1, v1, Merge(next1, second))
      else Member(k2, v2, Merge(first, next2))
  }

  function SortMembers(ms: Members, caseSensitive: bool): (r: Members)
    ensures Count(r) == Count(ms) && MembersSize(r) == MembersSize(ms)
    decreases Count(ms)
  {
    if Count(ms) <= 1 || IsSorted(ms, caseSensitive) then ms
    else
      var half := (Count(ms) + 1) / 2;
      Merge(SortMembers(Take(ms, half), caseSensitive), SortMembers(Drop(ms, half), caseSensitive))
  }
}
