/** sort_list as it runs: it relinks the nodes of the `next` chain in place. Whichever node comes first keeps the `prev`
    pointer it had, which is what makes removing it go wrong. */
module KJsonSortList {
  import opened Octets
  import opened KJson
  import opened KJsonStrings
  import opened KJsonSort
  import opened KJsonTree

  /** The names of the nodes in a list and the branches below them, which stay with the nodes. */
  type Kin = map<TreeNode, (Text, Branch)>

  ghost function KinOf(kin: Kin, n: TreeNode): (Text, Branch) {
    if n in kin then kin[n] else ([], Branch(n, Leaf(Null), NoKid, null))
  }

  ghost predicate Distinct(ns: seq<TreeNode>) {
    forall i, j | 0 <= i < j < |ns| :: ns[i] != ns[j]
  }

  /** Neighbours point at each other. */
  ghost predicate Linked(ns: seq<TreeNode>)
    reads ns
  {
    && (forall i | 0 <= i < |ns| - 1 :: ns[i].next == ns[i + 1])
    && (forall i | 0 < i < |ns| :: ns[i].prev == ns[i - 1])
  }

  /** p is the head of a list of exactly these nodes. */
  ghost predicate List(p: TreeNode?, ns: seq<TreeNode>)
    reads ns
  {
    && Distinct(ns) && Linked(ns)
    && if ns == [] then p == null else p == ns[0] && ns[|ns| - 1].next == null
  }

  ghost function Nodes(ns: seq<TreeNode>): set<TreeNode> {
    set n | n in ns
  }

  /** The members a list of nodes stands for. */
  ghost function MembersOf(ns: seq<TreeNode>, kin: Kin): (ms: Members)
    ensures Count(ms) == |ns|
  {
    if ns == [] then NoMember else Member(KinOf(kin, ns[0]).0, Value(KinOf(kin, ns[0]).1), MembersOf(ns[1..], kin))
  }

  ghost predicate KeysOf(ns: seq<TreeNode>, kin: Kin)
    reads ns`key
  {
    forall n | n in ns :: n.key == KinOf(kin, n).0
  }

  lemma {:induction false} MembersOfSplit(ns: seq<TreeNode>, n: nat, kin: Kin)
    requires n <= |ns|
    ensures MembersOf(ns[..n], kin) == Take(MembersOf(ns, kin), n) && MembersOf(ns[n..], kin) == Drop(MembersOf(ns, kin), n)
    decreases n
  {
    if n > 0 {
      MembersOfSplit(ns[1..], n - 1, kin);
      assert ns[..n][1..] == ns[1..][..n - 1] && ns[1..][n - 1..] == ns[n..];
    }
  }

  lemma {:induction false} MembersOfAppend(a: seq<TreeNode>, b: seq<TreeNode>, kin: Kin)
    ensures MembersOf(a + b, kin) == AppendMembers(MembersOf(a, kin), MembersOf(b, kin))
    decreases |a|
  {
    if a == [] {
      assert a + b == b;
    } else {
      assert (a + b)[1..] == a[1..] + b;
      MembersOfAppend(a[1..], b, kin);
    }
  }

  lemma Rest(p: TreeNode, ns: seq<TreeNode>)
    requires List(p, ns)
    ensures ns != [] && List(p.next, ns[1..]) && p !in ns[1..] && Nodes(ns) == {p} + Nodes(ns[1..])
  {
    forall i | 0 <= i < |ns[1..]| - 1 ensures ns[1..][i].next == ns[1..][i + 1] { assert ns[i + 1].next == ns[i + 2]; }
    forall i | 0 < i < |ns[1..]| ensures ns[1..][i].prev == ns[1..][i - 1] { assert ns[i + 1].prev == ns[i]; }
    if |ns| > 1 { assert ns[0].next == ns[1]; }
  }

  /** The merged part is m; what is left of the two lists is x and y. */
  ghost predicate Merging(result: TreeNode?, tail: TreeNode?, m: seq<TreeNode>, first: TreeNode?, x: seq<TreeNode>, second: TreeNode?, y: seq<TreeNode>, kin: Kin)
    reads m, x, y
  {
    && List(first, x) && List(second, y) && Distinct(m) && Linked(m)
    && (if m == [] then tail == null == result else tail == m[|m| - 1] && result == m[0])
    && Nodes(m) !! Nodes(x) && Nodes(m) !! Nodes(y) && Nodes(x) !! Nodes(y)
    && KeysOf(x, kin) && KeysOf(y, kin)
  }

  /** Moves the first node of the list at p to the end of the merged part; q is the other list. */
  method Move(result: TreeNode?, tail: TreeNode?, p: TreeNode, q: TreeNode?, ghost m: seq<TreeNode>, ghost x: seq<TreeNode>, ghost y: seq<TreeNode>, ghost kin: Kin)
      returns (head: TreeNode, rest: TreeNode?)
    requires Merging(result, tail, m, p, x, q, y, kin)
    modifies Nodes(m)`next, Nodes(m)`prev, p`next, p`prev
    ensures x != [] && Merging(head, p, m + [p], rest, x[1..], q, y, kin)
    ensures Nodes(m + [p]) + Nodes(x[1..]) == Nodes(m) + Nodes(x)
    ensures head == (if m == [] then p else result) && head.prev == old(head.prev)
  {
    Rest(p, x);
    if tail != null {
      tail.next := p;
      p.prev := tail;
    }
    head := if result == null then p else result;
    rest := p.next;
    assert forall i | 0 <= i < |m| - 1 :: m[i].next == m[i + 1];
    assert p !in m;
    Rest(p, x);
  }

  lemma MergingSwap(result: TreeNode?, tail: TreeNode?, m: seq<TreeNode>, first: TreeNode?, x: seq<TreeNode>, second: TreeNode?, y: seq<TreeNode>, kin: Kin)
    requires Merging(result, tail, m, first, x, second, y, kin)
    ensures Merging(result, tail, m, second, y, first, x, kin)
  {
  }

  method MoveSecond(result: TreeNode?, tail: TreeNode?, p: TreeNode?, q: TreeNode, ghost m: seq<TreeNode>, ghost x: seq<TreeNode>, ghost y: seq<TreeNode>, ghost kin: Kin)
      returns (head: TreeNode, rest: TreeNode?)
    requires Merging(result, tail, m, p, x, q, y, kin)
    modifies Nodes(m)`next, Nodes(m)`prev, q`next, q`prev
    ensures y != [] && Merging(head, q, m + [q], p, x, rest, y[1..], kin)
    ensures Nodes(m + [q]) + Nodes(y[1..]) == Nodes(m) + Nodes(y)
    ensures head == (if m == [] then q else result) && head.prev == old(head.prev)
  {
    hide Merging;
    MergingSwap(result, tail, m, p, x, q, y, kin);
    head, rest := Move(result, tail, q, p, m, y, x, kin);
    MergingSwap(head, q, m + [q], rest, y[1..], p, x, kin);
  }

  lemma NodesAppend(a: seq<TreeNode>, b: seq<TreeNode>)
    ensures Nodes(a + b) == Nodes(a) + Nodes(b)
  {
  }

  /** Hangs the rest of a list behind the merged part. */
  method Finish(result: TreeNode, tail: TreeNode, p: TreeNode?, ghost m: seq<TreeNode>, ghost x: seq<TreeNode>, ghost kin: Kin)
    requires Merging(result, tail, m, p, x, null, [], kin)
    modifies Nodes(m)`next, Nodes(m)`prev, Nodes(x)`next, Nodes(x)`prev
    ensures List(result, m + x) && result.prev == old(result.prev)
  {
    tail.next := p;
    if p != null { p.prev := tail; }
    assert forall i | 0 <= i < |m| - 1 :: m[i].next == m[i + 1];
    forall i, j | 0 <= i < j < |m + x| ensures (m + x)[i] != (m + x)[j] {
      if i < |m| <= j {
        assert (m + x)[i] in Nodes(m) && (m + x)[j] in Nodes(x);
      }
    }
  }

  lemma MergingFacts(result: TreeNode?, tail: TreeNode?, m: seq<TreeNode>, first: TreeNode?, x: seq<TreeNode>, second: TreeNode?, y: seq<TreeNode>, kin: Kin)
    requires Merging(result, tail, m, first, x, second, y, kin)
    ensures first == null <==> x == []
    ensures second == null <==> y == []
    ensures first != null ==> x[0] == first && first in Nodes(x) && first.key == KinOf(kin, first).0
    ensures second != null ==> y[0] == second && second in Nodes(y) && second.key == KinOf(kin, second).0
    ensures m == [] <==> tail == null
    ensures m == [] <==> result == null
  {
  }

  /** What moving the smaller head does to the members. */
  lemma MergedMembers(m: seq<TreeNode>, x: seq<TreeNode>, y: seq<TreeNode>, kin: Kin)
    requires x != [] && y != []
    ensures var whole := AppendMembers(MembersOf(m, kin), Merge(MembersOf(x, kin), MembersOf(y, kin)));
      if CompareStrings(KinOf(kin, x[0]).0, KinOf(kin, y[0]).0, false) < 0
      then AppendMembers(MembersOf(m + [x[0]], kin), Merge(MembersOf(x[1..], kin), MembersOf(y, kin))) == whole
      else AppendMembers(MembersOf(m + [y[0]], kin), Merge(MembersOf(x, kin), MembersOf(y[1..], kin))) == whole
  {
    var p := if CompareStrings(KinOf(kin, x[0]).0, KinOf(kin, y[0]).0, false) < 0 then x[0] else y[0];
    MembersOfAppend(m, [p], kin);
    assert [p][1..] == [];
    AppendTwice(MembersOf(m, kin), KinOf(kin, p).0, Value(KinOf(kin, p).1),
      if p == x[0] && CompareStrings(KinOf(kin, x[0]).0, KinOf(kin, y[0]).0, false) < 0
      then Merge(MembersOf(x[1..], kin), MembersOf(y, kin)) else Merge(MembersOf(x, kin), MembersOf(y[1..], kin)));
  }

  lemma {:induction false} AppendTwice(a: Members, k: Text, v: Json, b: Members)
    ensures AppendMembers(AppendMembers(a, Member(k, v, NoMember)), b) == AppendMembers(a, Member(k, v, b))
  {
    if a.Member? { AppendTwice(a.next, k, v, b); }
  }

  lemma MergedRest(m: seq<TreeNode>, x: seq<TreeNode>, y: seq<TreeNode>, kin: Kin)
    requires x == [] || y == []
    ensures MembersOf(m + (if x == [] then y else x), kin) == AppendMembers(MembersOf(m, kin), Merge(MembersOf(x, kin), MembersOf(y, kin)))
  {
    MembersOfAppend(m, if x == [] then y else x, kin);
  }

  lemma MergingStarts(one: TreeNode?, two: TreeNode?, a: seq<TreeNode>, b: seq<TreeNode>, kin: Kin)
    requires List(one, a) && List(two, b) && Nodes(a) !! Nodes(b) && KeysOf(a, kin) && KeysOf(b, kin)
    ensures Merging(null, null, [], one, a, two, b, kin) && Nodes([]) == {}
    ensures AppendMembers(MembersOf([], kin), Merge(MembersOf(a, kin), MembersOf(b, kin))) == Merge(MembersOf(a, kin), MembersOf(b, kin))
  {
  }

  /** The merging loop of sort_list, on two lists that are not empty: one of them is used up. */
  method MergeLoop(one: TreeNode, two: TreeNode, ghost a: seq<TreeNode>, ghost b: seq<TreeNode>, ghost kin: Kin)
      returns (result: TreeNode, tail: TreeNode, first: TreeNode?, second: TreeNode?,
               ghost m: seq<TreeNode>, ghost x: seq<TreeNode>, ghost y: seq<TreeNode>)
    requires List(one, a) && List(two, b) && Nodes(a) !! Nodes(b) && KeysOf(a, kin) && KeysOf(b, kin)
    modifies Nodes(a)`next, Nodes(a)`prev, Nodes(b)`next, Nodes(b)`prev
    ensures Merging(result, tail, m, first, x, second, y, kin) && (first == null || second == null)
    ensures Nodes(m) + Nodes(x) + Nodes(y) == Nodes(a) + Nodes(b)
    ensures AppendMembers(MembersOf(m, kin), Merge(MembersOf(x, kin), MembersOf(y, kin)))
         == Merge(MembersOf(a, kin), MembersOf(b, kin))
    ensures (result == one || result == two) && result.prev == old(result.prev)
  {
    ghost var all := Nodes(a) + Nodes(b);
    hide Merging, Merge, MembersOf, AppendMembers, CompareStrings, KeysOf, Nodes, List;
    var head: TreeNode?, last: TreeNode? := null, null;
    first, second, x, y, m := one, two, a, b, [];
    MergingStarts(one, two, a, b, kin);
    while first != null && second != null
      invariant Merging(head, last, m, first, x, second, y, kin)
      invariant Nodes(m) + Nodes(x) + Nodes(y) == all
      invariant AppendMembers(MembersOf(m, kin), Merge(MembersOf(x, kin), MembersOf(y, kin))) == Merge(MembersOf(a, kin), MembersOf(b, kin))
      invariant one.prev == old(one.prev) || (m != [] && one != head)
      invariant two.prev == old(two.prev) || (m != [] && two != head)
      invariant if m == [] then first == one && second == two else head == one || head == two
      decreases |x| + |y|
    {
      MergingFacts(head, last, m, first, x, second, y, kin);
      MergedMembers(m, x, y, kin);
      if CompareStrings(first.key, second.key, false) < 0 {
        var p: TreeNode := first;
        head, first := Move(head, last, p, second, m, x, y, kin);
        last, m, x := p, m + [p], x[1..];
      } else {
        var p: TreeNode := second;
        head, second := MoveSecond(head, last, first, p, m, x, y, kin);
        last, m, y := p, m + [p], y[1..];
      }
    }
    MergingFacts(head, last, m, first, x, second, y, kin);
    result, tail := head, last;
  }

  /** Merging two lists: what the loop leaves over is hung behind the merged part. */
  method MergeLists(one: TreeNode, two: TreeNode, ghost a: seq<TreeNode>, ghost b: seq<TreeNode>, ghost kin: Kin)
      returns (result: TreeNode?, ghost out: seq<TreeNode>)
    requires List(one, a) && List(two, b) && Nodes(a) !! Nodes(b) && KeysOf(a, kin) && KeysOf(b, kin)
    modifies Nodes(a)`next, Nodes(a)`prev, Nodes(b)`next, Nodes(b)`prev
    ensures List(result, out) && Nodes(out) == Nodes(a) + Nodes(b)
    ensures MembersOf(out, kin) == Merge(MembersOf(a, kin), MembersOf(b, kin))
    ensures (result == one || result == two) && result.prev == old(result.prev)
  {
    hide Merging, Merge, MembersOf, AppendMembers, List, KeysOf;
    var tail, first, second;
    ghost var m, x, y;
    result, tail, first, second, m, x, y := MergeLoop(one, two, a, b, kin);
    MergingFacts(result, tail, m, first, x, second, y, kin);
    MergedRest(m, x, y, kin);
    if first != null {
      NodesAppend(m, x);
      Finish(result, tail, first, m, x, kin);
      out := m + x;
    } else {
      MergingSwap(result, tail, m, first, x, second, y, kin);
      NodesAppend(m, y);
      Finish(result, tail, second, m, y, kin);
      out := m + y;
    }
  }

  /** Where the list is cut: the second pointer takes one step for every two of the first, rounded up. */
  method Middle(list: TreeNode?, ghost ns: seq<TreeNode>) returns (second: TreeNode?)
    requires List(list, ns)
    ensures second == if (|ns| + 1) / 2 < |ns| then ns[(|ns| + 1) / 2] else null
  {
    var current := list;
    second := list;
    ghost var i, j := 0, 0;
    while current != null
      invariant i <= |ns| && current == (if i < |ns| then ns[i] else null)
      invariant j == (i + 1) / 2 && second == (if j < |ns| then ns[j] else null)
      invariant i % 2 == 0 || i == |ns|
      decreases |ns| - i
    {
      assert i < |ns| && j < |ns|;
      second := NextOf(second, ns, j);
      current := NextOf(current, ns, i);
      i, j := i + 1, j + 1;
      if current != null {
        current := NextOf(current, ns, i);
        i := i + 1;
      }
    }
  }

  method NextOf(p: TreeNode?, ghost ns: seq<TreeNode>, ghost i: nat) returns (q: TreeNode?)
    requires i < |ns| && p == ns[i] && Distinct(ns) && Linked(ns) && ns[|ns| - 1].next == null
    ensures q == if i + 1 < |ns| then ns[i + 1] else null
  {
    q := p.next;
  }

  /** The test that leaves a strictly sorted list alone. */
  method AlreadySorted(list: TreeNode?, caseSensitive: bool, ghost ns: seq<TreeNode>, ghost kin: Kin) returns (sorted: bool)
    requires List(list, ns) && KeysOf(ns, kin)
    ensures sorted <==> IsSorted(MembersOf(ns, kin), caseSensitive)
  {
    hide CompareStrings;
    var current := list;
    ghost var rest := ns;
    while current != null && current.next != null && CompareStrings(current.key, current.next.key, caseSensitive) < 0
      invariant List(current, rest) && KeysOf(rest, kin)
      invariant IsSorted(MembersOf(ns, kin), caseSensitive) <==> IsSorted(MembersOf(rest, kin), caseSensitive)
      decreases |rest|
    {
      Rest(current, rest);
      Rest(current.next, rest[1..]);
      current := current.next;
      rest := rest[1..];
    }
    sorted := current == null || current.next == null;
    if current != null {
      Rest(current, rest);
      if current.next != null { Rest(current.next, rest[1..]); }
    }
  }

  /** Cuts a list in two before the node at `second`, through its prev pointer. */
  method Cut(list: TreeNode, second: TreeNode, ghost ns: seq<TreeNode>, ghost half: nat)
    requires List(list, ns) && 0 < half < |ns| && second == ns[half]
    modifies Nodes(ns[..half])`next
    ensures List(list, ns[..half]) && List(second, ns[half..]) && Nodes(ns[..half]) !! Nodes(ns[half..])
  {
    assert ns[half].prev == ns[half - 1] && ns[half - 1] == ns[..half][half - 1];
    second.prev.next := null;
  }

  /** sort_list: refines SortMembers on the same nodes. */
  method SortList(list: TreeNode?, caseSensitive: bool, ghost ns: seq<TreeNode>, ghost kin: Kin) returns (result: TreeNode?, ghost out: seq<TreeNode>)
    requires List(list, ns) && KeysOf(ns, kin)
    modifies Nodes(ns)`next, Nodes(ns)`prev
    ensures List(result, out) && Nodes(out) == Nodes(ns)
    ensures MembersOf(out, kin) == SortMembers(MembersOf(ns, kin), caseSensitive)
    ensures result != null ==> result in ns && result.prev == old(result.prev)
    decreases |ns|, 1
  {
    hide MembersOf, IsSorted, Merge, SortMembers, Take, Drop, Nodes, List;
    SortStep(MembersOf(ns, kin), caseSensitive);
    ListFacts(list, ns);
    if list == null || list.next == null {
      return list, ns;
    }
    var sorted := AlreadySorted(list, caseSensitive, ns, kin);
    if sorted {
      return list, ns;
    }
    var second := Middle(list, ns);
    result, out := SortHalves(list, second, caseSensitive, ns, (|ns| + 1) / 2, kin);
  }

  method SortHalves(list: TreeNode, second: TreeNode, caseSensitive: bool, ghost ns: seq<TreeNode>, ghost half: nat, ghost kin: Kin)
      returns (result: TreeNode?, ghost out: seq<TreeNode>)
    requires List(list, ns) && 0 < half < |ns| && second == ns[half] && KeysOf(ns, kin)
    modifies Nodes(ns)`next, Nodes(ns)`prev
    ensures List(result, out) && Nodes(out) == Nodes(ns)
    ensures MembersOf(out, kin) == Merge(SortMembers(Take(MembersOf(ns, kin), half), caseSensitive),
                                    SortMembers(Drop(MembersOf(ns, kin), half), caseSensitive))
    ensures result != null && result in ns && result.prev == old(result.prev)
    decreases |ns|, 0
  {
    hide MembersOf, IsSorted, Merge, SortMembers, Take, Drop, List, KeysOf;
    KeysPart(ns, ns[..half], kin);
    KeysPart(ns, ns[half..], kin);
    MembersOfSplit(ns, half, kin);
    HalvesCover(ns, half);
    Cut(list, second, ns, half);
    var a, b;
    ghost var left, right;
    a, left := SortList(list, caseSensitive, ns[..half], kin);
    b, right := SortList(second, caseSensitive, ns[half..], kin);
    NotEmptied(ns[..half], left);
    NotEmptied(ns[half..], right);
    HeadsOf(a, left, b, right);
    KeysPart(ns, left, kin);
    KeysPart(ns, right, kin);
    result, out := MergeLists(a, b, left, right, kin);
  }

  lemma KeysPart(ns: seq<TreeNode>, part: seq<TreeNode>, kin: Kin)
    requires KeysOf(ns, kin) && Nodes(part) <= Nodes(ns)
    ensures KeysOf(part, kin)
  {
    forall n | n in part ensures n in ns { assert n in Nodes(part); }
  }

  lemma HeadsOf(a: TreeNode?, left: seq<TreeNode>, b: TreeNode?, right: seq<TreeNode>)
    requires List(a, left) && List(b, right) && left != [] && right != []
    ensures a != null && b != null && a in left && b in right
  {
  }

  lemma ListFacts(list: TreeNode?, ns: seq<TreeNode>)
    requires List(list, ns)
    ensures list == null <==> ns == []
    ensures list != null ==> (list.next == null <==> |ns| == 1) && list == ns[0]
  {
    if |ns| > 1 { assert ns[0].next == ns[1]; }
  }

  lemma SortStep(ms: Members, caseSensitive: bool)
    ensures Count(ms) <= 1 || IsSorted(ms, caseSensitive) ==> SortMembers(ms, caseSensitive) == ms
    ensures Count(ms) > 1 && !IsSorted(ms, caseSensitive) ==>
      var half := (Count(ms) + 1) / 2;
      SortMembers(ms, caseSensitive)
      == Merge(SortMembers(Take(ms, half), caseSensitive), SortMembers(Drop(ms, half), caseSensitive))
  {
    hide IsSorted, Merge, Take, Drop;
  }

  lemma HalvesCover(ns: seq<TreeNode>, half: nat)
    requires half <= |ns|
    ensures Nodes(ns) == Nodes(ns[..half]) + Nodes(ns[half..])
  {
    NodesAppend(ns[..half], ns[half..]);
    assert ns[..half] + ns[half..] == ns;
  }

  lemma NotEmptied(a: seq<TreeNode>, b: seq<TreeNode>)
    requires Nodes(a) == Nodes(b) && a != []
    ensures b != []
  {
    assert a[0] in Nodes(b);
  }

  /** detach_item_from_array on the first node of a list. A `prev` that is not null is taken for a sign that it is not
      the first; when it points into the list, the list is closed to a circle. */
  method DetachFirst(list: TreeNode, ghost ns: seq<TreeNode>) returns (rest: TreeNode?)
    requires List(list, ns)
    modifies Nodes(ns)`next, Nodes(ns)`prev, (if list.prev == null then {} else {list.prev})`next
    ensures List(rest, ns[1..]) <==> old(list.prev) == null || old(list.prev) !in ns[1..]
    ensures forall j | 1 <= j < |ns| :: old(list.prev) == ns[j] ==> rest == ns[1] && ns[j].next == ns[1]
    ensures list.next == null && list.prev == null
  {
    Rest(list, ns);
    ghost var before := list.prev;
    if list.prev != null { list.prev.next := list.next; }
    if list.next != null { list.next.prev := list.prev; }
    rest := list.next;
    list.prev, list.next := null, null;
    if before != null && before in ns[1..] {
      ghost var j :| 1 <= j < |ns| && before == ns[j];
      if j < |ns| - 1 {
        assert ns[1..][j - 1].next == ns[1] && ns[1..][j] == ns[j + 1];
      } else {
        assert ns[1..][|ns[1..]| - 1].next == ns[1];
      }
    } else {
      forall i | 0 <= i < |ns[1..]| - 1 ensures ns[1..][i].next == ns[1..][i + 1] { assert ns[i + 1].next == ns[i + 2]; }
    }
  }

  /** In a list whose head has no predecessor every other node points back into the list. */
  lemma PointsBack(list: TreeNode, ns: seq<TreeNode>)
    requires List(list, ns)
    ensures ns != [] && list == ns[0]
    ensures forall n | n in ns && n != list :: n.prev != null && n.prev in ns && n.prev != n
  {
    forall n | n in ns && n != list ensures n.prev != null && n.prev in ns && n.prev != n {
      var i :| 0 <= i < |ns| && ns[i] == n;
      assert n.prev == ns[i - 1];
    }
  }

  lemma InTheRest(n: TreeNode, ns: seq<TreeNode>)
    requires ns != [] && n in Nodes(ns) && n != ns[0]
    ensures n in ns[1..]
  {
  }

  /** Sorting an object and removing its first member: right exactly when the sort left the first node where it was.
      Any other node still points back at the one it used to follow. */
  method SortThenDetachFirst(list: TreeNode, caseSensitive: bool, ghost ns: seq<TreeNode>, ghost kin: Kin) returns (rest: TreeNode?, ghost out: seq<TreeNode>)
    requires List(list, ns) && list.prev == null && KeysOf(ns, kin)
    modifies Nodes(ns)`next, Nodes(ns)`prev
    ensures out != [] && MembersOf(out, kin) == SortMembers(MembersOf(ns, kin), caseSensitive)
    ensures List(rest, out[1..]) <==> out[0] == list
  {
    hide MembersOf, SortMembers, Linked;
    PointsBack(list, ns);
    var sorted;
    sorted, out := SortList(list, caseSensitive, ns, kin);
    NotEmptied(ns, out);
    PointsBack(sorted, out);
    if sorted != list { InTheRest(sorted.prev, out); }
    rest := DetachFirst(sorted, out);
  }
}
