/** create_patches on linked nodes: the objects of both trees are sorted in place as the generator comes to them. */
module KJsonPatcher {
  import opened Octets
  import opened KJson
  import opened KJsonText
  import opened KJsonStrings
  import opened KJsonSort
  import opened KJsonPatch
  import opened KJsonTree
  import opened KJsonLinks
  import opened KJsonCompare

  lemma {:induction false} AppendThree(a: Items, b: Items, c: Items)
    ensures AppendItems(AppendItems(a, b), c) == AppendItems(a, AppendItems(b, c))
  {
    if a.Item? { AppendThree(a.next, b, c); }
  }

  lemma OneMore(chain: Items, patch: Json, rest: Items)
    ensures AppendItems(AppendItems(chain, Item(patch, NoItem)), rest) == AppendItems(chain, Item(patch, rest))
  {
    AppendThree(chain, Item(patch, NoItem), rest);
  }

  /** The name of a node and its neighbours. */
  ghost function Place(n: TreeNode): (Text, TreeNode?, TreeNode?)
    reads n
  {
    (n.key, n.next, n.prev)
  }

  /** Two trees in nodes of their own. */
  ghost predicate Both(f: Branch, t: Branch)
    reads NodesOf(f), NodesOf(t)
  {
    Owns(f) && Owns(t) && NodesOf(f) !! NodesOf(t)
  }

  /** The kid at i, what it is, and the kids behind it. */
  lemma KidThere(b: Branch, i: nat, n: TreeNode?)
    requires Owns(b) && i <= KidCount(b.kids) && n == NodeAt(b.kids, i)
    ensures n == null ==> KidsFrom(b.kids, i) == NoKid
    ensures n != null ==>
      && i < KidCount(b.kids) && KidsFrom(b.kids, i) == Kid(KeyAt(b.kids, i), KidAt(b.kids, i), KidsFrom(b.kids, i + 1))
      && n.key == KeyAt(b.kids, i) && n.next == NodeAt(b.kids, i + 1)
      && Owns(KidAt(b.kids, i)) && n == KidAt(b.kids, i).node
  {
    AtOrNull(b.kids, i);
    if n != null {
      KidLinks(b, i);
      OwnsKid(b, i);
      PutThen(b.kids, i, KidAt(b.kids, i), NoItem, NoMember);
    } else {
      FromEnd(b.kids, i);
    }
  }

  lemma NoKids()
    ensures KidItems(NoKid) == NoItem
  {
  }

  lemma StartOfKids(b: Branch)
    requires Owns(b)
    ensures b.node.tag == b.tag && b.node.child == NodeAt(b.kids, 0) && KidsFrom(b.kids, 0) == b.kids
    ensures b.tag.Leaf? ==> b.kids.NoKid?
  {
    TopLinks(b);
  }

  /** The patches for the members from the i-th and the j-th on. */
  ghost function MembersLeft(path: Text, x: Branch, i: nat, y: Branch, j: nat, caseSensitive: bool, memory: Memory): Items
    requires i <= KidCount(x.kids) && j <= KidCount(y.kids)
  {
    DiffMembers(path, KidMembers(KidsFrom(x.kids, i)), KidMembers(KidsFrom(y.kids, j)), caseSensitive, memory)
  }

  ghost function SizeLeft(x: Branch, i: nat, y: Branch, j: nat): nat
    requires i <= KidCount(x.kids) && j <= KidCount(y.kids)
  {
    MembersSize(KidMembers(KidsFrom(x.kids, i))) + MembersSize(KidMembers(KidsFrom(y.kids, j)))
  }

  /** One round of the walk. */
  lemma MembersRound(path: Text, x: Branch, i: nat, y: Branch, j: nat, caseSensitive: bool, memory: Memory)
    requires i <= KidCount(x.kids) && j <= KidCount(y.kids) && (i < KidCount(x.kids) || j < KidCount(y.kids))
    ensures var whole := MembersLeft(path, x, i, y, j, caseSensitive, memory);
      var diff := if i == KidCount(x.kids) then 1 else if j == KidCount(y.kids) then -1
                  else CompareStrings(KeyAt(x.kids, i), KeyAt(y.kids, j), caseSensitive);
      if diff == 0 then
        && whole == AppendItems(Diff(Suffixed(path, KeyAt(x.kids, i), memory), Value(KidAt(x.kids, i)), Value(KidAt(y.kids, j)),
                                     caseSensitive, memory),
                                MembersLeft(path, x, i + 1, y, j + 1, caseSensitive, memory))
        && Size(Value(KidAt(x.kids, i))) + Size(Value(KidAt(y.kids, j))) + SizeLeft(x, i + 1, y, j + 1) == SizeLeft(x, i, y, j)
      else if diff < 0 then
        && whole == Item(Compose("remove", Suffixed(path, KeyAt(x.kids, i), memory), None),
                         MembersLeft(path, x, i + 1, y, j, caseSensitive, memory))
        && SizeLeft(x, i + 1, y, j) <= SizeLeft(x, i, y, j)
      else
        && whole == Item(Compose("add", Suffixed(path, KeyAt(y.kids, j), memory), Some(Value(KidAt(y.kids, j)))),
                         MembersLeft(path, x, i, y, j + 1, caseSensitive, memory))
        && SizeLeft(x, i, y, j + 1) <= SizeLeft(x, i, y, j)
  {
    hide Diff, Compose, Suffixed, Value, AppendItems, CompareStrings;
    FromEnd(x.kids, i);
    FromEnd(y.kids, j);
    if i < KidCount(x.kids) { PutThen(x.kids, i, KidAt(x.kids, i), NoItem, NoMember); }
    if j < KidCount(y.kids) { PutThen(y.kids, j, KidAt(y.kids, j), NoItem, NoMember); }
  }

  lemma NoneLeft(path: Text, x: Branch, y: Branch, caseSensitive: bool, memory: Memory)
    ensures MembersLeft(path, x, KidCount(x.kids), y, KidCount(y.kids), caseSensitive, memory) == NoItem
  {
    FromEnd(x.kids, KidCount(x.kids));
    FromEnd(y.kids, KidCount(y.kids));
  }

  lemma AllLeft(path: Text, x: Branch, y: Branch, caseSensitive: bool, memory: Memory)
    ensures MembersLeft(path, x, 0, y, 0, caseSensitive, memory)
         == DiffMembers(path, KidMembers(x.kids), KidMembers(y.kids), caseSensitive, memory)
    ensures SizeLeft(x, 0, y, 0) == MembersSize(KidMembers(x.kids)) + MembersSize(KidMembers(y.kids))
  {
  }

  /** What is left depends on the kids that are left. */
  lemma SameLeft(path: Text, x: Branch, y: Branch, p: Branch, q: Branch, i: nat, j: nat, caseSensitive: bool, memory: Memory)
    requires i <= KidCount(x.kids) == KidCount(p.kids) && j <= KidCount(y.kids) == KidCount(q.kids)
    requires KidsFrom(p.kids, i) == KidsFrom(x.kids, i) && KidsFrom(q.kids, j) == KidsFrom(y.kids, j)
    ensures MembersLeft(path, p, i, q, j, caseSensitive, memory) == MembersLeft(path, x, i, y, j, caseSensitive, memory)
    ensures SizeLeft(p, i, q, j) == SizeLeft(x, i, y, j)
  {
  }

  // ----- what the walks leave of the trees

  /** What becomes of the elements of x: those before the i-th are done, in step with those of y before the j-th. */
  ghost function ItemsBehind(x: Branch, y: Branch, i: nat, caseSensitive: bool): Items
    requires i <= KidCount(x.kids) && i <= KidCount(y.kids)
  {
    ItemsThen(x.kids, i, VisitedItems(KidItems(KidsFrom(x.kids, i)), KidItems(KidsFrom(y.kids, i)), caseSensitive))
  }

  lemma ItemsStart(x: Branch, y: Branch, caseSensitive: bool)
    ensures ItemsBehind(x, y, 0, caseSensitive) == VisitedItems(KidItems(x.kids), KidItems(y.kids), caseSensitive)
  {
  }

  lemma ItemsStop(x: Branch, y: Branch, i: nat, caseSensitive: bool)
    requires i <= KidCount(x.kids) && i <= KidCount(y.kids) && (i == KidCount(x.kids) || i == KidCount(y.kids))
    ensures ItemsBehind(x, y, i, caseSensitive) == KidItems(x.kids)
  {
    FromEnd(x.kids, i);
    FromEnd(y.kids, i);
    ThenAll(x.kids, i);
  }

  lemma ItemsNext(x: Branch, y: Branch, i: nat, u: Branch, v: Branch, caseSensitive: bool)
    requires i < KidCount(x.kids) && i < KidCount(y.kids)
    requires Value(u) == Visited(Value(KidAt(x.kids, i)), Value(KidAt(y.kids, i)), caseSensitive)
    ensures var p, q := x.(kids := PutKid(x.kids, i, u)), y.(kids := PutKid(y.kids, i, v));
      && KidCount(p.kids) == KidCount(x.kids) && KidCount(q.kids) == KidCount(y.kids)
      && ItemsBehind(p, q, i + 1, caseSensitive) == ItemsBehind(x, y, i, caseSensitive)
  {
    hide Value, Visited, PutKid;
    var rest := VisitedItems(KidItems(KidsFrom(x.kids, i + 1)), KidItems(KidsFrom(y.kids, i + 1)), caseSensitive);
    PutThen(x.kids, i, u, rest, NoMember);
    PutThen(y.kids, i, v, NoItem, NoMember);
  }

  ghost function MembersBehind(x: Branch, i: nat, y: Branch, j: nat, caseSensitive: bool): Members
    requires i <= KidCount(x.kids) && j <= KidCount(y.kids)
  {
    MembersThen(x.kids, i, VisitedMembers(KidMembers(KidsFrom(x.kids, i)), KidMembers(KidsFrom(y.kids, j)), caseSensitive))
  }

  lemma MembersStart(x: Branch, y: Branch, caseSensitive: bool)
    ensures MembersBehind(x, 0, y, 0, caseSensitive) == VisitedMembers(KidMembers(x.kids), KidMembers(y.kids), caseSensitive)
  {
  }

  lemma MembersStop(x: Branch, y: Branch, j: nat, caseSensitive: bool)
    requires j <= KidCount(y.kids)
    ensures MembersBehind(x, KidCount(x.kids), y, j, caseSensitive) == KidMembers(x.kids)
  {
    FromEnd(x.kids, KidCount(x.kids));
    ThenAll(x.kids, KidCount(x.kids));
  }

  /** A name of its own is passed on either side. */
  lemma MembersPass(x: Branch, i: nat, y: Branch, j: nat, caseSensitive: bool)
    requires i < KidCount(x.kids) && j <= KidCount(y.kids)
    requires j == KidCount(y.kids) || CompareStrings(KeyAt(x.kids, i), KeyAt(y.kids, j), caseSensitive) < 0
    ensures MembersBehind(x, i + 1, y, j, caseSensitive) == MembersBehind(x, i, y, j, caseSensitive)
    ensures MembersBehind(y, j, x, i + 1, caseSensitive) == MembersBehind(y, j, x, i, caseSensitive)
  {
    hide Value, Visited, CompareStrings;
    FromEnd(y.kids, j);
    var kid := KidAt(x.kids, i);
    if j < KidCount(y.kids) {
      Asymmetric(KeyAt(x.kids, i), KeyAt(y.kids, j), caseSensitive);
      PutThen(y.kids, j, KidAt(y.kids, j), NoItem, NoMember);
    }
    PutThen(x.kids, i, kid, NoItem, VisitedMembers(KidMembers(KidsFrom(x.kids, i + 1)), KidMembers(KidsFrom(y.kids, j)), caseSensitive));
    PutSameKid(x.kids, i);
  }

  lemma {:induction false} PutSameKid(kids: Kids, i: nat)
    requires i < KidCount(kids)
    ensures PutKid(kids, i, KidAt(kids, i)) == kids
    decreases kids
  {
    if i > 0 { PutSameKid(kids.next, i - 1); }
  }

  lemma MembersNext(x: Branch, i: nat, y: Branch, j: nat, u: Branch, v: Branch, caseSensitive: bool)
    requires i < KidCount(x.kids) && j < KidCount(y.kids)
    requires CompareStrings(KeyAt(x.kids, i), KeyAt(y.kids, j), caseSensitive) == 0
    requires Value(u) == Visited(Value(KidAt(x.kids, i)), Value(KidAt(y.kids, j)), caseSensitive)
    ensures var p, q := x.(kids := PutKid(x.kids, i, u)), y.(kids := PutKid(y.kids, j, v));
      && KidCount(p.kids) == KidCount(x.kids) && KidCount(q.kids) == KidCount(y.kids)
      && MembersBehind(p, i + 1, q, j + 1, caseSensitive) == MembersBehind(x, i, y, j, caseSensitive)
  {
    hide Value, Visited, PutKid, CompareStrings;
    var rest := VisitedMembers(KidMembers(KidsFrom(x.kids, i + 1)), KidMembers(KidsFrom(y.kids, j + 1)), caseSensitive);
    PutThen(x.kids, i, u, NoItem, rest);
    PutThen(y.kids, j, v, NoItem, NoMember);
  }

  /** The walk over the sorted objects a and b after i and j members: the patches still to come, and what becomes of both. */
  ghost predicate InStep(path: Text, caseSensitive: bool, memory: Memory, a: Branch, b: Branch, whole: Items,
                         chain: Items, x: Branch, i: nat, y: Branch, j: nat)
  {
    && i <= KidCount(x.kids) && j <= KidCount(y.kids)
    && AppendItems(chain, MembersLeft(path, x, i, y, j, caseSensitive, memory)) == whole
    && MembersBehind(x, i, y, j, caseSensitive) == MembersBehind(a, 0, b, 0, caseSensitive)
    && MembersBehind(y, j, x, i, caseSensitive) == MembersBehind(b, 0, a, 0, caseSensitive)
    && SizeLeft(x, i, y, j) <= SizeLeft(a, 0, b, 0)
  }

  lemma StepFirst(path: Text, caseSensitive: bool, memory: Memory, a: Branch, b: Branch, chain: Items)
    ensures var whole := AppendItems(chain, DiffMembers(path, KidMembers(a.kids), KidMembers(b.kids), caseSensitive, memory));
      InStep(path, caseSensitive, memory, a, b, whole, chain, a, 0, b, 0)
    ensures SizeLeft(a, 0, b, 0) == MembersSize(KidMembers(a.kids)) + MembersSize(KidMembers(b.kids))
  {
    AllLeft(path, a, b, caseSensitive, memory);
  }

  lemma StepLast(path: Text, caseSensitive: bool, memory: Memory, a: Branch, b: Branch, whole: Items, chain: Items, x: Branch, y: Branch)
    requires InStep(path, caseSensitive, memory, a, b, whole, chain, x, KidCount(x.kids), y, KidCount(y.kids))
    ensures chain == whole
    ensures KidMembers(x.kids) == VisitedMembers(KidMembers(a.kids), KidMembers(b.kids), caseSensitive)
    ensures KidMembers(y.kids) == VisitedMembers(KidMembers(b.kids), KidMembers(a.kids), caseSensitive)
  {
    hide MembersLeft, MembersBehind;
    NoneLeft(path, x, y, caseSensitive, memory);
    AppendNothing(chain);
    MembersStart(a, b, caseSensitive);
    MembersStart(b, a, caseSensitive);
    MembersStop(x, y, KidCount(y.kids), caseSensitive);
    MembersStop(y, x, KidCount(x.kids), caseSensitive);
  }

  lemma StepSizes(path: Text, caseSensitive: bool, memory: Memory, a: Branch, b: Branch, whole: Items, chain: Items,
                  x: Branch, i: nat, y: Branch, j: nat)
    requires InStep(path, caseSensitive, memory, a, b, whole, chain, x, i, y, j) && i < KidCount(x.kids) && j < KidCount(y.kids)
    requires CompareStrings(KeyAt(x.kids, i), KeyAt(y.kids, j), caseSensitive) == 0
    ensures Size(Value(KidAt(x.kids, i))) + Size(Value(KidAt(y.kids, j))) <= SizeLeft(a, 0, b, 0)
  {
    hide MembersLeft, MembersBehind, SizeLeft, CompareStrings;
    MembersRound(path, x, i, y, j, caseSensitive, memory);
  }

  lemma StepBoth(path: Text, caseSensitive: bool, memory: Memory, a: Branch, b: Branch, whole: Items, chain: Items,
                 x: Branch, i: nat, y: Branch, j: nat, u: Branch, v: Branch)
    requires InStep(path, caseSensitive, memory, a, b, whole, chain, x, i, y, j) && i < KidCount(x.kids) && j < KidCount(y.kids)
    requires CompareStrings(KeyAt(x.kids, i), KeyAt(y.kids, j), caseSensitive) == 0
    requires Value(u) == Visited(Value(KidAt(x.kids, i)), Value(KidAt(y.kids, j)), caseSensitive)
    requires Value(v) == Visited(Value(KidAt(y.kids, j)), Value(KidAt(x.kids, i)), caseSensitive)
    ensures var p, q := x.(kids := PutKid(x.kids, i, u)), y.(kids := PutKid(y.kids, j, v));
      var here := Suffixed(path, KeyAt(x.kids, i), memory);
      var now := AppendItems(chain, Diff(here, Value(KidAt(x.kids, i)), Value(KidAt(y.kids, j)), caseSensitive, memory));
      InStep(path, caseSensitive, memory, a, b, whole, now, p, i + 1, q, j + 1)
  {
    hide MembersLeft, MembersBehind, SizeLeft, CompareStrings, Diff, Suffixed, Value, Visited, AppendItems, PutKid, KidAt, KeyAt;
    LeftNext(path, caseSensitive, memory, chain, x, i, y, j, u, v);
    Asymmetric(KeyAt(x.kids, i), KeyAt(y.kids, j), caseSensitive);
    MembersNext(x, i, y, j, u, v, caseSensitive);
    MembersNext(y, j, x, i, v, u, caseSensitive);
  }

  lemma LeftNext(path: Text, caseSensitive: bool, memory: Memory, chain: Items, x: Branch, i: nat, y: Branch, j: nat, u: Branch, v: Branch)
    requires i < KidCount(x.kids) && j < KidCount(y.kids)
    requires CompareStrings(KeyAt(x.kids, i), KeyAt(y.kids, j), caseSensitive) == 0
    ensures var p, q := x.(kids := PutKid(x.kids, i, u)), y.(kids := PutKid(y.kids, j, v));
      var here := Suffixed(path, KeyAt(x.kids, i), memory);
      var now := AppendItems(chain, Diff(here, Value(KidAt(x.kids, i)), Value(KidAt(y.kids, j)), caseSensitive, memory));
      && KidCount(p.kids) == KidCount(x.kids) && KidCount(q.kids) == KidCount(y.kids)
      && AppendItems(now, MembersLeft(path, p, i + 1, q, j + 1, caseSensitive, memory))
         == AppendItems(chain, MembersLeft(path, x, i, y, j, caseSensitive, memory))
      && SizeLeft(p, i + 1, q, j + 1) <= SizeLeft(x, i, y, j)
  {
    hide MembersLeft, SizeLeft, CompareStrings, Diff, Suffixed, Value, AppendItems, PutKid;
    var p, q := x.(kids := PutKid(x.kids, i, u)), y.(kids := PutKid(y.kids, j, v));
    MembersRound(path, x, i, y, j, caseSensitive, memory);
    AppendThree(chain, Diff(Suffixed(path, KeyAt(x.kids, i), memory), Value(KidAt(x.kids, i)), Value(KidAt(y.kids, j)), caseSensitive, memory),
                MembersLeft(path, x, i + 1, y, j + 1, caseSensitive, memory));
    PutThen(x.kids, i, u, NoItem, NoMember);
    PutThen(y.kids, j, v, NoItem, NoMember);
    SameLeft(path, x, y, p, q, i + 1, j + 1, caseSensitive, memory);
  }

  lemma StepSource(path: Text, caseSensitive: bool, memory: Memory, a: Branch, b: Branch, whole: Items, chain: Items,
                   x: Branch, i: nat, y: Branch, j: nat)
    requires InStep(path, caseSensitive, memory, a, b, whole, chain, x, i, y, j) && i < KidCount(x.kids)
    requires j < KidCount(y.kids) ==> CompareStrings(KeyAt(x.kids, i), KeyAt(y.kids, j), caseSensitive) < 0
    ensures var now := AppendItems(chain, Item(Compose("remove", Suffixed(path, KeyAt(x.kids, i), memory), None), NoItem));
      InStep(path, caseSensitive, memory, a, b, whole, now, x, i + 1, y, j)
  {
    hide MembersLeft, MembersBehind, SizeLeft, CompareStrings, Compose, Suffixed, AppendItems;
    MembersRound(path, x, i, y, j, caseSensitive, memory);
    OneMore(chain, Compose("remove", Suffixed(path, KeyAt(x.kids, i), memory), None),
            MembersLeft(path, x, i + 1, y, j, caseSensitive, memory));
    MembersPass(x, i, y, j, caseSensitive);
  }

  lemma StepTarget(path: Text, caseSensitive: bool, memory: Memory, a: Branch, b: Branch, whole: Items, chain: Items,
                   x: Branch, i: nat, y: Branch, j: nat)
    requires InStep(path, caseSensitive, memory, a, b, whole, chain, x, i, y, j) && j < KidCount(y.kids)
    requires i < KidCount(x.kids) ==> CompareStrings(KeyAt(x.kids, i), KeyAt(y.kids, j), caseSensitive) > 0
    ensures var patch := Compose("add", Suffixed(path, KeyAt(y.kids, j), memory), Some(Value(KidAt(y.kids, j))));
      InStep(path, caseSensitive, memory, a, b, whole, AppendItems(chain, Item(patch, NoItem)), x, i, y, j + 1)
  {
    hide MembersLeft, MembersBehind, SizeLeft, CompareStrings, Compose, Suffixed, AppendItems, Value;
    MembersRound(path, x, i, y, j, caseSensitive, memory);
    OneMore(chain, Compose("add", Suffixed(path, KeyAt(y.kids, j), memory), Some(Value(KidAt(y.kids, j)))),
            MembersLeft(path, x, i, y, j + 1, caseSensitive, memory));
    if i < KidCount(x.kids) { Asymmetric(KeyAt(x.kids, i), KeyAt(y.kids, j), caseSensitive); }
    MembersPass(y, j, x, i, caseSensitive);
  }

  /** The patch array under construction. */
  class PatchArray {
    var chain: Items

    constructor ()
      ensures chain == NoItem
    {
      chain := NoItem;
    }

    /** compose_patch, once the path is complete. */
    method Add(operation: Text, path: Text, value: Option<Json>)
      modifies this
      ensures chain == AppendItems(old(chain), Item(Compose(operation, path, value), NoItem))
    {
      chain := AppendItems(chain, Item(Compose(operation, path, value), NoItem));
    }

    /** An "add" of a copy of an item. */
    method AddCopy(path: Text, item: TreeNode, ghost b: Branch)
      requires Owns(b) && item == b.node
      modifies this
      ensures chain == AppendItems(old(chain), Item(Compose("add", path, Some(Value(b))), NoItem))
    {
      hide Owns, Value;
      var value := Read(item, b);
      Add("add", path, Some(value));
    }

    /** A "replace" by a copy of the target's value. */
    method Replace(path: Text, to: TreeNode, ghost t: Branch)
      requires Owns(t) && to == t.node
      modifies this
      ensures chain == AppendItems(old(chain), Item(Compose("replace", path, Some(Value(t))), NoItem))
    {
      hide Owns, Value;
      var value := Read(to, t);
      Add("replace", path, Some(value));
    }

    method CreatePatches(path: Text, from: TreeNode, to: TreeNode, caseSensitive: bool, memory: Memory, ghost f: Branch, ghost t: Branch)
        returns (ghost x: Branch, ghost y: Branch)
      requires Both(f, t) && from == f.node && to == t.node
      modifies this, NodesOf(f), NodesOf(t)
      ensures Both(x, y) && Kept(f, x) && Kept(t, y)
      ensures chain == AppendItems(old(chain), Diff(path, Value(f), Value(t), caseSensitive, memory))
      ensures Value(x) == Visited(Value(f), Value(t), caseSensitive) && Value(y) == Visited(Value(t), Value(f), caseSensitive)
      ensures Place(from) == old(Place(from)) && Place(to) == old(Place(to))
      decreases Size(Value(f)) + Size(Value(t)), 1
    {
      hide Wired, Apart, NodesOf, Kept, Compose, SortMembers, AppendItems, KidItems, KidMembers, DiffItems, DiffMembers, VisitedItems,
        VisitedMembers;
      AppendNothing(chain);
      KeptSame(f);
      KeptSame(t);
      StartOfKids(f);
      StartOfKids(t);
      assert allocated(NodesOf(f)) && allocated(NodesOf(t));
      x, y := f, t;
      match (from.tag, to.tag)
      case (ArrayTag, ArrayTag) =>
        x, y := CreateForArray(path, from, to, caseSensitive, memory, f, t);
        KeptFacts(f, x);
        KeptFacts(t, y);
      case (ObjectTag, ObjectTag) =>
        x, y := CreateForObject(path, from, to, caseSensitive, memory, f, t);
        KeptFacts(f, x);
        KeptFacts(t, y);
      case (Leaf(v), Leaf(w)) =>
        if Kind(v) != Kind(w) || (v.Number? && v != w) || (v.String? && v != w) { Replace(path, to, t); }
      case _ => Replace(path, to, t);
    }

    /** One kid of each, compared and patched in place. */
    method Descend(path: Text, from: TreeNode, to: TreeNode, caseSensitive: bool, memory: Memory,
                   ghost f: Branch, ghost c: Branch, ghost i: nat, ghost t: Branch, ghost d: Branch, ghost j: nat)
        returns (ghost x: Branch, ghost y: Branch)
      requires Both(c, d) && Kept(f, c) && Kept(t, d)
      requires i < KidCount(c.kids) && from == NodeAt(c.kids, i) && j < KidCount(d.kids) && to == NodeAt(d.kids, j)
      modifies this, NodesOf(c), NodesOf(d)
      ensures var p, q := c.(kids := PutKid(c.kids, i, x)), d.(kids := PutKid(d.kids, j, y));
        && Both(p, q) && Kept(f, p) && Kept(t, q)
        && KidCount(p.kids) == KidCount(c.kids) && KidsFrom(p.kids, i + 1) == KidsFrom(c.kids, i + 1)
        && KidCount(q.kids) == KidCount(d.kids) && KidsFrom(q.kids, j + 1) == KidsFrom(d.kids, j + 1)
        && from.next == NodeAt(p.kids, i + 1) && to.next == NodeAt(q.kids, j + 1)
      ensures var v, w := Value(KidAt(c.kids, i)), Value(KidAt(d.kids, j));
        Value(x) == Visited(v, w, caseSensitive) && Value(y) == Visited(w, v, caseSensitive)
      ensures chain == AppendItems(old(chain), Diff(path, Value(KidAt(c.kids, i)), Value(KidAt(d.kids, j)), caseSensitive, memory))
      ensures Place(c.node) == old(Place(c.node)) && Place(d.node) == old(Place(d.node))
      decreases Size(Value(KidAt(c.kids, i))) + Size(Value(KidAt(d.kids, j))), 2
    {
      hide Wired, Apart, NodesOf, Befores, Diff, PutKid, Value, Visited, AppendItems;
      ghost var a, b, h, g := KidAt(c.kids, i), KidAt(d.kids, j), HeapOf(NodesOf(c)), HeapOf(NodesOf(d));
      OwnsKid(c, i);
      OwnsKid(d, j);
      KidLinks(c, i);
      KidLinks(d, j);
      WiredKeys(h, c);
      WiredKeys(g, d);
      TopApart(c, i);
      TopApart(d, j);
      x, y := CreatePatches(path, from, to, caseSensitive, memory, a, b);
      ComparedKid(h, f, c, i, x);
      ComparedKid(g, t, d, j, y);
      PutThen(c.kids, i, x, NoItem, NoMember);
      PutThen(d.kids, j, y, NoItem, NoMember);
    }

    method CreateForArray(path: Text, from: TreeNode, to: TreeNode, caseSensitive: bool, memory: Memory, ghost f: Branch, ghost t: Branch)
        returns (ghost x: Branch, ghost y: Branch)
      requires Both(f, t) && from == f.node && to == t.node
      modifies this, NodesOf(f), NodesOf(t)
      ensures Both(x, y) && Kept(f, x) && Kept(t, y)
      ensures chain == AppendItems(old(chain), DiffItems(path, 0, KidItems(f.kids), KidItems(t.kids), caseSensitive, memory))
      ensures KidItems(x.kids) == VisitedItems(KidItems(f.kids), KidItems(t.kids), caseSensitive)
      ensures KidItems(y.kids) == VisitedItems(KidItems(t.kids), KidItems(f.kids), caseSensitive)
      ensures Place(from) == old(Place(from)) && Place(to) == old(Place(to))
      decreases ItemsSize(KidItems(f.kids)) + ItemsSize(KidItems(t.kids)), 4
    {
      hide Owns, Kept, NodesOf, Befores, Diff, Compose, Decimal, Suffixed, AppendItems, KidAt, NodeAt, Value, KidsFrom, ItemsBehind,
        VisitedItems, KidItems;
      ItemsStart(f, t, caseSensitive);
      ItemsStart(t, f, caseSensitive);
      var fromChild, toChild, index;
      fromChild, toChild, index, x, y := CreateForCommon(path, from, to, caseSensitive, memory, f, t);
      assert allocated(NodesOf(x)) && allocated(NodesOf(y));
      AtOrNull(x.kids, index);
      AtOrNull(y.kids, index);
      ItemsStop(x, y, index, caseSensitive);
      ItemsStop(y, x, index, caseSensitive);
      NoKids();
      KidThere(x, index, fromChild);
      KidThere(y, index, toChild);
      AppendNothing(chain);
      RemoveRest(path, fromChild, index, caseSensitive, memory, x, index);
      AppendNothing(chain);
      AddRest(path, toChild, index, caseSensitive, memory, y, index);
    }

    /** The loop over the elements that both arrays have. */
    method CreateForCommon(path: Text, from: TreeNode, to: TreeNode, caseSensitive: bool, memory: Memory, ghost f: Branch, ghost t: Branch)
        returns (fromChild: TreeNode?, toChild: TreeNode?, index: nat, ghost x: Branch, ghost y: Branch)
      requires Both(f, t) && from == f.node && to == t.node
      modifies this, NodesOf(f), NodesOf(t)
      ensures Both(x, y) && Kept(f, x) && Kept(t, y) && (fromChild == null || toChild == null)
      ensures index <= KidCount(x.kids) && fromChild == NodeAt(x.kids, index)
      ensures index <= KidCount(y.kids) && toChild == NodeAt(y.kids, index)
      ensures AppendItems(chain, DiffItems(path, index, KidItems(KidsFrom(x.kids, index)), KidItems(KidsFrom(y.kids, index)),
                                           caseSensitive, memory))
           == AppendItems(old(chain), DiffItems(path, 0, KidItems(f.kids), KidItems(t.kids), caseSensitive, memory))
      ensures ItemsBehind(x, y, index, caseSensitive) == ItemsBehind(f, t, 0, caseSensitive)
      ensures ItemsBehind(y, x, index, caseSensitive) == ItemsBehind(t, f, 0, caseSensitive)
      ensures Place(from) == old(Place(from)) && Place(to) == old(Place(to))
      decreases ItemsSize(KidItems(f.kids)) + ItemsSize(KidItems(t.kids)), 3
    {
      hide Owns, Kept, NodesOf, Befores, Diff, Compose, Decimal, Suffixed, AppendItems, PutKid, KidAt, NodeAt, Value, KidsFrom, Visited,
        ItemsBehind;
      ghost var whole := AppendItems(chain, DiffItems(path, 0, KidItems(f.kids), KidItems(t.kids), caseSensitive, memory));
      x, y := f, t;
      KeptSame(f);
      KeptSame(t);
      StartOfKids(f);
      StartOfKids(t);
      fromChild, toChild, index := from.child, to.child, 0;
      while fromChild != null && toChild != null
        invariant Both(x, y) && Kept(f, x) && Kept(t, y)
        invariant index <= KidCount(x.kids) && fromChild == NodeAt(x.kids, index)
        invariant index <= KidCount(y.kids) && toChild == NodeAt(y.kids, index)
        invariant AppendItems(chain, DiffItems(path, index, KidItems(KidsFrom(x.kids, index)), KidItems(KidsFrom(y.kids, index)),
                                               caseSensitive, memory)) == whole
        invariant ItemsBehind(x, y, index, caseSensitive) == ItemsBehind(f, t, 0, caseSensitive)
        invariant ItemsBehind(y, x, index, caseSensitive) == ItemsBehind(t, f, 0, caseSensitive)
        invariant ItemsSize(KidItems(KidsFrom(x.kids, index))) + ItemsSize(KidItems(KidsFrom(y.kids, index)))
               <= ItemsSize(KidItems(f.kids)) + ItemsSize(KidItems(t.kids))
        invariant Place(from) == old(Place(from)) && Place(to) == old(Place(to))
        decreases KidCount(x.kids) - index
      {
        KidThere(x, index, fromChild);
        KidThere(y, index, toChild);
        KeptFacts(f, x);
        KeptFacts(t, y);
        var here := path + ['/'] + Decimal(index);
        ghost var patches := Diff(here, Value(KidAt(x.kids, index)), Value(KidAt(y.kids, index)), caseSensitive, memory);
        ghost var a, b := KidItems(KidsFrom(x.kids, index + 1)), KidItems(KidsFrom(y.kids, index + 1));
        AppendThree(chain, patches, DiffItems(path, index + 1, a, b, caseSensitive, memory));
        ghost var u, v := Descend(here, fromChild, toChild, caseSensitive, memory, f, x, index, t, y, index);
        ItemsNext(x, y, index, u, v, caseSensitive);
        ItemsNext(y, x, index, v, u, caseSensitive);
        x, y := x.(kids := PutKid(x.kids, index, u)), y.(kids := PutKid(y.kids, index, v));
        fromChild, toChild, index := fromChild.next, toChild.next, index + 1;
      }
    }

    /** The elements that only the source has. */
    method RemoveRest(path: Text, from: TreeNode?, index: nat, caseSensitive: bool, memory: Memory, ghost x: Branch, ghost start: nat)
      requires Owns(x) && start <= KidCount(x.kids) && from == NodeAt(x.kids, start)
      modifies this
      ensures chain == AppendItems(old(chain), DiffItems(path, index, KidItems(KidsFrom(x.kids, start)), NoItem, caseSensitive, memory))
    {
      hide Owns, Compose, Decimal, Suffixed, AppendItems, KidAt, NodeAt, Value, KidsFrom;
      ghost var whole := AppendItems(chain, DiffItems(path, index, KidItems(KidsFrom(x.kids, start)), NoItem, caseSensitive, memory));
      var current := from;
      ghost var i := start;
      assert allocated(NodesOf(x));
      while current != null
        invariant Owns(x) && i <= KidCount(x.kids) && current == NodeAt(x.kids, i)
        invariant AppendItems(chain, DiffItems(path, index, KidItems(KidsFrom(x.kids, i)), NoItem, caseSensitive, memory)) == whole
        decreases KidCount(x.kids) - i
      {
        KidThere(x, i, current);
        var suffixed := Suffixed(path, Decimal(index), memory);
        OneMore(chain, Compose("remove", suffixed, None),
                DiffItems(path, index, KidItems(KidsFrom(x.kids, i + 1)), NoItem, caseSensitive, memory));
        Add("remove", suffixed, None);
        current, i := current.next, i + 1;
      }
      KidThere(x, i, current);
      AppendNothing(chain);
    }

    /** The elements that only the target has. */
    method AddRest(path: Text, to: TreeNode?, index: nat, caseSensitive: bool, memory: Memory, ghost y: Branch, ghost start: nat)
      requires Owns(y) && start <= KidCount(y.kids) && to == NodeAt(y.kids, start)
      modifies this
      ensures chain == AppendItems(old(chain), DiffItems(path, index, NoItem, KidItems(KidsFrom(y.kids, start)), caseSensitive, memory))
    {
      hide Owns, Compose, Decimal, Suffixed, AppendItems, KidAt, NodeAt, Value, KidsFrom;
      ghost var whole := AppendItems(chain, DiffItems(path, index, NoItem, KidItems(KidsFrom(y.kids, start)), caseSensitive, memory));
      var current, count := to, index;
      ghost var j := start;
      assert allocated(NodesOf(y));
      while current != null
        invariant Owns(y) && j <= KidCount(y.kids) && current == NodeAt(y.kids, j)
        invariant AppendItems(chain, DiffItems(path, count, NoItem, KidItems(KidsFrom(y.kids, j)), caseSensitive, memory)) == whole
        decreases KidCount(y.kids) - j
      {
        KidThere(y, j, current);
        var suffixed := Suffixed(path, "-", memory);
        var value := Read(current, KidAt(y.kids, j));
        OneMore(chain, Compose("add", suffixed, Some(value)),
                DiffItems(path, count + 1, NoItem, KidItems(KidsFrom(y.kids, j + 1)), caseSensitive, memory));
        Add("add", suffixed, Some(value));
        current, count, j := current.next, count + 1, j + 1;
      }
      KidThere(y, j, current);
      AppendNothing(chain);
    }

    method CreateForObject(path: Text, from: TreeNode, to: TreeNode, caseSensitive: bool, memory: Memory, ghost f: Branch, ghost t: Branch)
        returns (ghost x: Branch, ghost y: Branch)
      requires Both(f, t) && from == f.node && to == t.node && f.tag.ObjectTag? && t.tag.ObjectTag?
      modifies this, NodesOf(f), NodesOf(t)
      ensures Both(x, y) && Kept(f, x) && Kept(t, y)
      ensures chain == AppendItems(old(chain), DiffMembers(path, SortMembers(KidMembers(f.kids), caseSensitive),
                                                           SortMembers(KidMembers(t.kids), caseSensitive), caseSensitive, memory))
      ensures var v, w := SortMembers(KidMembers(f.kids), caseSensitive), SortMembers(KidMembers(t.kids), caseSensitive);
        KidMembers(x.kids) == VisitedMembers(v, w, caseSensitive) && KidMembers(y.kids) == VisitedMembers(w, v, caseSensitive)
      ensures Place(from) == old(Place(from)) && Place(to) == old(Place(to))
      decreases MembersSize(KidMembers(f.kids)) + MembersSize(KidMembers(t.kids)), 4
    {
      hide Owns, Kept, NodesOf, Befores, SortMembers, DiffMembers, AppendItems, Resorted, KidMembers;
      OneNode(f);
      OneNode(t);
      assert allocated(NodesOf(f)) && allocated(NodesOf(t));
      ghost var a := SortObject(from, caseSensitive, f);
      ghost var b := SortObject(to, caseSensitive, t);
      SortedKept(f, a, caseSensitive);
      SortedKept(t, b, caseSensitive);
      KeptFacts(f, a);
      KeptFacts(t, b);
      x, y := CreateForSorted(path, from, to, caseSensitive, memory, f, a, t, b);
    }

    /** The walk over two sorted objects. */
    method CreateForSorted(path: Text, from: TreeNode, to: TreeNode, caseSensitive: bool, memory: Memory,
                           ghost f: Branch, ghost a: Branch, ghost t: Branch, ghost b: Branch)
        returns (ghost x: Branch, ghost y: Branch)
      requires Both(a, b) && Kept(f, a) && Kept(t, b) && from == a.node && to == b.node
      modifies this, NodesOf(a), NodesOf(b)
      ensures Both(x, y) && Kept(f, x) && Kept(t, y)
      ensures chain == AppendItems(old(chain), DiffMembers(path, KidMembers(a.kids), KidMembers(b.kids), caseSensitive, memory))
      ensures KidMembers(x.kids) == VisitedMembers(KidMembers(a.kids), KidMembers(b.kids), caseSensitive)
      ensures KidMembers(y.kids) == VisitedMembers(KidMembers(b.kids), KidMembers(a.kids), caseSensitive)
      ensures Place(from) == old(Place(from)) && Place(to) == old(Place(to))
      decreases MembersSize(KidMembers(a.kids)) + MembersSize(KidMembers(b.kids)), 3
    {
      hide Owns, Kept, NodesOf, Befores, Diff, Compose, Suffixed, AppendItems, KidAt, NodeAt, KeyAt, Value, KidsFrom, CompareStrings,
        InStep, SizeLeft, DiffMembers, KidMembers, MembersSize, Size, Visited, VisitedMembers, PutKid;
      ghost var whole := AppendItems(chain, DiffMembers(path, KidMembers(a.kids), KidMembers(b.kids), caseSensitive, memory));
      x, y := a, b;
      StartOfKids(a);
      StartOfKids(b);
      StepFirst(path, caseSensitive, memory, a, b, chain);
      KeptFacts(f, a);
      KeptFacts(t, b);
      var fromChild, toChild := from.child, to.child;
      ghost var i, j := 0, 0;
      while fromChild != null || toChild != null
        invariant Both(x, y) && Kept(f, x) && Kept(t, y) && i <= KidCount(x.kids) && j <= KidCount(y.kids)
        invariant fromChild == NodeAt(x.kids, i) && toChild == NodeAt(y.kids, j)
        invariant InStep(path, caseSensitive, memory, a, b, whole, chain, x, i, y, j)
        invariant Place(from) == old(Place(from)) && Place(to) == old(Place(to))
        decreases KidCount(x.kids) - i + KidCount(y.kids) - j
      {
        assert allocated(NodesOf(x)) && allocated(NodesOf(y));
        KidThere(x, i, fromChild);
        KidThere(y, j, toChild);
        AtOrNull(x.kids, i);
        AtOrNull(y.kids, j);
        KeptFacts(f, x);
        KeptFacts(t, y);
        var diff := if fromChild == null then 1 else if toChild == null then -1
                    else CompareStrings(fromChild.key, toChild.key, caseSensitive);
        if diff == 0 {
          StepSizes(path, caseSensitive, memory, a, b, whole, chain, x, i, y, j);
          ghost var chainBefore := chain;
          ghost var u, v := Descend(Suffixed(path, fromChild.key, memory), fromChild, toChild, caseSensitive, memory, f, x, i, t, y, j);
          StepBoth(path, caseSensitive, memory, a, b, whole, chainBefore, x, i, y, j, u, v);
          x, y := x.(kids := PutKid(x.kids, i, u)), y.(kids := PutKid(y.kids, j, v));
          fromChild, toChild, i, j := fromChild.next, toChild.next, i + 1, j + 1;
        } else if diff < 0 {
          StepSource(path, caseSensitive, memory, a, b, whole, chain, x, i, y, j);
          Add("remove", Suffixed(path, fromChild.key, memory), None);
          fromChild, i := fromChild.next, i + 1;
        } else {
          StepTarget(path, caseSensitive, memory, a, b, whole, chain, x, i, y, j);
          AddCopy(Suffixed(path, toChild.key, memory), toChild, KidAt(y.kids, j));
          toChild, j := toChild.next, j + 1;
        }
      }
      AtOrNull(x.kids, i);
      AtOrNull(y.kids, j);
      StepLast(path, caseSensitive, memory, a, b, whole, chain, x, y);
    }
  }
}
