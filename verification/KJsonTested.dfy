/** What becomes of an object that is tested and then relieved of its first member: testing sorts it in place. */
module KJsonTested {
  import opened Octets
  import opened KJson
  import opened KJsonStrings
  import opened KJsonSort
  import opened KJsonPatch
  import opened KJsonDiff
  import opened KJsonTree
  import opened KJsonLinks
  import opened KJsonCompare
  import opened KJsonStray
  import opened KJsonDocument
  import L = KJsonSortList

  /** Where the prev of a first kid that has moved leads: to another kid. */
  lemma StrayIsKid(q: Branch, x: Branch)
    requires Apart(q) && Apart(x) && q.before == null && Resorted(q, x) && q.kids.Kid? && x.kids.Kid?
    ensures x.before == null <==> First(x.kids) == First(q.kids)
    ensures x.before != null ==> exists j :: 1 <= j < KidCount(x.kids) && NodeAt(x.kids, j) == x.before
  {
    var k: nat :| FirstWasAt(q, x, k);
    assert NodeAt(q.kids, 0) == First(q.kids);
    if k > 0 {
      KidsDiffer(q.kids, 0, k);
      KidsDiffer(q.kids, k - 1, k);
      HeadsAt(q.kids, k - 1);
      assert x.before in L.Nodes(Heads(x.kids));
      var j :| 0 <= j < |Heads(x.kids)| && Heads(x.kids)[j] == x.before;
      HeadsAt(x.kids, j);
      assert 1 <= j < KidCount(x.kids) && NodeAt(x.kids, j) == x.before;
    }
  }

  /** Detaching the first kid does no harm exactly if it was the first before sorting. */
  lemma CalmIffFirstStayed(h: Heap, tree: Branch, q: Branch, x: Branch)
    requires Apart(q) && Apart(x) && q.before == null && Resorted(q, x) && q.kids.Kid? && x.kids.Kid?
    requires Wired(h, x) && KidNodes(x.kids) <= KidNodes(tree.kids)
    ensures Calm(h, tree, x, 0) <==> First(x.kids) == First(q.kids)
  {
    hide Resorted;
    StrayIsKid(q, x);
    if x.before != null {
      var j :| 1 <= j < KidCount(x.kids) && NodeAt(x.kids, j) == x.before;
      KidAtWired(h, x.before, x.kids, j);
      KidAtWired(h, x.before, x.kids, 0);
      KidsDiffer(x.kids, 0, j);
      if j + 1 < KidCount(x.kids) { KidsDiffer(x.kids, 1, j + 1); }
    }
  }

  ghost function Between(kids: Kids, j: nat): set<TreeNode>
    requires j < KidCount(kids)
  {
    set m | 1 <= m <= j :: KidAt(kids, m).node
  }

  /** The next of a kid after that. */
  lemma NextAfterDetach(h: Heap, x: Branch, j: nat, m: nat)
    requires Wired(h, x) && Apart(x) && 1 <= m <= j < KidCount(x.kids) && NodeAt(x.kids, j) == x.before
    ensures var g, n := Unlinking(h, x.node, NodeAt(x.kids, 0)), KidAt(x.kids, m).node;
      && n in g && g[n].next == NodeAt(x.kids, if m == j then 1 else m + 1)
      && x.node in g && g[x.node].child == NodeAt(x.kids, 1)
  {
    hide Unlinking, KidsApart, Chain, NodesOf;
    var n := KidAt(x.kids, m).node;
    NeighboursIn(h, x, 0);
    NeighboursIn(h, x, m);
    NeighboursIn(h, x, j);
    UnlinkingIs(h, x, 0);
    StrayOverwritten(h, x, 0);
    KidsDiffer(x.kids, 0, m);
    KidsDiffer(x.kids, 0, j);
    if m < j { KidsDiffer(x.kids, m, j); }
  }

  /** Detaching the first kid when its prev leads to the j-th: kids 1 to j are a circle then. */
  lemma ClosedToCircle(h: Heap, all: set<TreeNode>, x: Branch, j: nat)
    requires Wired(h, x) && Apart(x) && NodesOf(x) <= all
    requires 1 <= j < KidCount(x.kids) && NodeAt(x.kids, j) == x.before
    requires HeapOf(all) == Unlinking(h, x.node, NodeAt(x.kids, 0))
    ensures Circular(x.node.child, Between(x.kids, j))
  {
    hide Wired, Apart, Unlinking;
    NextAfterDetach(h, x, j, 1);
    assert KidAt(x.kids, 1).node == NodeAt(x.kids, 1);
    forall n | n in Between(x.kids, j) ensures n.next in Between(x.kids, j) {
      var m :| 1 <= m <= j && KidAt(x.kids, m).node == n;
      NextAfterDetach(h, x, j, m);
      KidAtNodes(x.kids, m);
      assert KidAt(x.kids, if m == j then 1 else m + 1).node == NodeAt(x.kids, if m == j then 1 else m + 1);
    }
  }

  lemma {:induction false} BelowPut(b: Branch, path: seq<nat>, x: Branch)
    requires Below(b, path).Some?
    ensures Below(PutBelow(b, path, x), path) == Some(x)
    decreases path
  {
    if path != [] {
      var y := PutBelow(KidAt(b.kids, path[0]), path[1..], x);
      KidPut(b.kids, path[0], y);
      BelowPut(KidAt(b.kids, path[0]), path[1..], x);
    }
  }

  lemma {:induction false} KidPut(kids: Kids, i: nat, x: Branch)
    requires i < KidCount(kids)
    ensures KidCount(PutKid(kids, i, x)) == KidCount(kids) && KidAt(PutKid(kids, i, x), i) == x
    decreases kids
  {
    if i > 0 { KidPut(kids.next, i - 1, x); }
  }

  lemma KidsBelow(b: Branch, path: seq<nat>)
    requires Below(b, path).Some?
    ensures KidNodes(Below(b, path).value.kids) <= KidNodes(b.kids)
  {
    if path != [] {
      KidAtNodes(b.kids, path[0]);
      BelowNodes(KidAt(b.kids, path[0]), path[1..]);
    }
  }

  lemma FirstIsNamed(x: Branch)
    requires x.tag.ObjectTag? && x.kids.Kid?
    ensures KidToDetach(x, x.kids.key) == Some(0)
  {
    SameString(x.kids.key, false);
    assert KeyAt(x.kids, 0) == x.kids.key;
    assert Named(x.kids.key, false)(x.kids.key);
  }

  /** No two kids have the same name. */
  ghost predicate NamesDiffer(kids: Kids) {
    forall i, j | 0 <= i < j < KidCount(kids) :: KeyAt(kids, i) != KeyAt(kids, j)
  }

  /** The first kid stayed exactly if its name is the first one still. */
  lemma FirstByName(q: Branch, x: Branch, w: Members, caseSensitive: bool)
    requires Resorted(q, x) && q.kids.Kid? && x.kids.Kid? && NamesDiffer(q.kids) && Apart(q)
    requires KidMembers(x.kids) == ComparedMembers(SortMembers(KidMembers(q.kids), caseSensitive), w, caseSensitive)
    ensures First(x.kids) == First(q.kids) <==> SortMembers(KidMembers(q.kids), caseSensitive).key == q.kids.key
  {
    hide SortMembers;
    var k: nat :| FirstWasAt(q, x, k);
    assert NodeAt(q.kids, 0) == First(q.kids) && KeyAt(q.kids, 0) == q.kids.key;
    if k > 0 { KidsDiffer(q.kids, 0, k); }
  }

  /** Detaching the first member of an object that has been sorted since its kids were those of q: what is left is a tree
      exactly if sorting left the first member where it was; otherwise the members are closed to a circle. */
  method TakeFirst(d: Document, parent: TreeNode, ghost at: seq<nat>, ghost q: Branch, ghost x: Branch)
      returns (stale: bool, ghost circle: set<TreeNode>)
    requires d.Valid() && Below(d.tree, at) == Some(x) && parent == x.node
    requires Apart(q) && q.before == null && Resorted(q, x) && q.kids.Kid? && x.kids.Kid? && x.tag.ObjectTag?
    modifies d, d.all
    ensures d.tree == PutBelow(old(d.tree), at, Without(x, 0))
    ensures stale <==> First(x.kids) != First(q.kids)
    ensures Owns(d.tree) && Owns(x.kids.branch) <==> First(x.kids) == First(q.kids)
    ensures !stale ==> d.Valid()
    ensures d.tree.node == d.root && (stale ==> Circular(parent.child, circle))
  {
    hide Owns, Wired, Apart, Below, PutBelow, NodesOf, Befores, Resorted, KidToDetach, Calm, Unlinking;
    assert allocated(d.all);
    ghost var h := HeapOf(d.all);
    WiredIn(d.tree, d.all);
    BelowWired(h, d.tree, at);
    BelowNodes(d.tree, at);
    OwnsBelow(d.tree, at);
    KidsBelow(d.tree, at);
    CalmIffFirstStayed(h, d.tree, q, x);
    StrayIsKid(q, x);
    TopLinks(x);
    KidLinks(x, 0);
    FirstIsNamed(x);
    var item;
    ghost var b;
    item, stale, b := d.TakeOut(parent, parent.child.key, at);
    circle := {};
    if stale {
      ghost var j :| 1 <= j < KidCount(x.kids) && NodeAt(x.kids, j) == x.before;
      ClosedToCircle(h, d.all, x, j);
      circle := Between(x.kids, j);
    }
  }

  /** A "test" on an object of a tree without stray predecessors, and then the detaching of the member that is first
      afterwards; x is the object in between. */
  method TestThenTakeFirst(d: Document, path: Text, wanted: Json, caseSensitive: bool)
      returns (equal: bool, stale: bool, ghost x: Branch, ghost circle: set<TreeNode>)
    requires d.Valid() && Tidy(d.tree) && wanted.Object? && Resolve(d.tree, path, caseSensitive).Some?
    requires var q := Below(d.tree, Resolve(d.tree, path, caseSensitive).value).value; q.tag.ObjectTag? && q.kids.Kid?
    modifies d, d.all
    ensures var q := Below(old(d.tree), Resolve(old(d.tree), path, caseSensitive).value).value;
      && equal == CompareJson(Value(q), wanted, caseSensitive) && Value(x) == Compared(Value(q), wanted, caseSensitive)
      && x.kids.Kid? && (stale <==> First(x.kids) != First(q.kids))
      && (Owns(d.tree) && Owns(x.kids.branch) <==> First(x.kids) == First(q.kids))
      && (NamesDiffer(q.kids) ==>
            (First(x.kids) == First(q.kids) <==> SortMembers(KidMembers(q.kids), caseSensitive).key == q.kids.key))
    ensures !stale ==> d.Valid()
    ensures d.tree.node == d.root && (stale ==> Circular(x.node.child, circle))
    ensures x.node == Below(old(d.tree), Resolve(old(d.tree), path, caseSensitive).value).value.node
  {
    hide Owns, Wired, Apart, Below, PutBelow, NodesOf, Befores, Tidy, Resorted, Compared, CompareJson, Get;
    assert allocated(d.all) && allocated(NodesOf(d.tree));
    ghost var at := Resolve(d.tree, path, caseSensitive).value;
    ghost var q := Below(d.tree, at).value;
    BelowIsTidy(d.tree, at);
    GetIs(d.tree, path, caseSensitive);
    var parent := GetNode(d.root, path, caseSensitive, d.tree);
    ghost var before := d.tree;
    equal, x := d.Test(path, wanted, caseSensitive);
    BelowPut(before, at, x);
    StillKids(q, x, wanted, caseSensitive);
    stale, circle := TakeFirst(d, parent, at, q, x);
  }

  lemma BelowIsTidy(tree: Branch, at: seq<nat>)
    requires Owns(tree) && Tidy(tree) && Below(tree, at).Some?
    ensures Below(tree, at).value.before == null && Apart(Below(tree, at).value)
  {
    TidyBelow(tree, at);
    BelowNodes(tree, at);
  }

  /** Comparing leaves an object that has kids an object with kids. */
  lemma StillKids(q: Branch, x: Branch, wanted: Json, caseSensitive: bool)
    requires q.tag.ObjectTag? && wanted.Object? && q.kids.Kid? && Kept(q, x) && Resorted(q, x) && Apart(q)
    requires Value(x) == Compared(Value(q), wanted, caseSensitive)
    ensures x.kids.Kid? && x.tag.ObjectTag? && x.node == q.node
    ensures NamesDiffer(q.kids) ==>
      (First(x.kids) == First(q.kids) <==> SortMembers(KidMembers(q.kids), caseSensitive).key == q.kids.key)
  {
    hide Apart, Befores, NodesOf, Resorted;
    SortedSize(KidMembers(q.kids), caseSensitive);
    if NamesDiffer(q.kids) { FirstByName(q, x, SortMembers(wanted.members, caseSensitive), caseSensitive); }
  }

  lemma SortedSize(ms: Members, caseSensitive: bool)
    ensures ms.Member? <==> SortMembers(ms, caseSensitive).Member?
  {
    assert ms.Member? <==> Count(ms) > 0;
    assert SortMembers(ms, caseSensitive).Member? <==> Count(SortMembers(ms, caseSensitive)) > 0;
  }

  // ----- an input

  /** {"b": 1, "a": 2} and the same members the other way round. */
  const ONE_TWO: Json := Object(Member("b", Number(1, 1.0), Member("a", Number(2, 2.0), NoMember)))
  const TWO_ONE: Json := Object(Member("a", Number(2, 2.0), Member("b", Number(1, 1.0), NoMember)))

  lemma TwoMembersSorted()
    ensures SortMembers(ONE_TWO.members, false) == TWO_ONE.members && SortMembers(TWO_ONE.members, false) == TWO_ONE.members
  {
    hide SortMembers;
    assert CompareStrings("b", "a", false) == 1 && CompareStrings("a", "b", false) == -1;
    TwoSorted("b", Number(1, 1.0), "a", Number(2, 2.0), false);
    TwoSorted("a", Number(2, 2.0), "b", Number(1, 1.0), false);
  }

  lemma TwoMembersCompared()
    ensures CompareJson(ONE_TWO, TWO_ONE, false) && Compared(ONE_TWO, TWO_ONE, false) == TWO_ONE
  {
    hide SortMembers;
    TwoMembersSorted();
    var b, sorted := Member("b", Number(1, 1.0), NoMember), TWO_ONE.members;
    assert CompareStrings("a", "a", false) == 0 && CompareStrings("b", "b", false) == 0;
    assert CompareMembers(b, b, false) && CompareMembers(sorted, sorted, false);
    assert ComparedMembers(b, b, false) == b && ComparedMembers(sorted, sorted, false) == sorted;
  }

  /** Testing {"b": 1, "a": 2} against the same members the other way round succeeds and leaves them sorted; removing "a"
      then closes "b" to a circle. */
  method TestedThenBroken() returns (d: Document, equal: bool, stale: bool, ghost circle: set<TreeNode>)
    ensures fresh(d) && equal && stale && !Owns(d.tree) && Circular(d.root.child, circle)
  {
    d := new Document(ONE_TWO);
    TwoMembersSorted();
    TwoMembersCompared();
    RootKids(d.tree, Member("a", Number(2, 2.0), NoMember));
    ghost var x;
    equal, stale, x, circle := TestThenTakeFirst(d, [], TWO_ONE, false);
    if Owns(d.tree) { CircleIsNoTree(d.tree, circle); }
  }

  /** A tree with two members. */
  lemma RootKids(tree: Branch, rest: Members)
    requires Value(tree).Object? && Value(tree).members.Member? && Value(tree).members.next == rest
    requires rest.Member? && rest.next.NoMember? && rest.key != Value(tree).members.key
    ensures Resolve(tree, [], false) == Some([]) && Below(tree, []) == Some(tree)
    ensures tree.tag.ObjectTag? && tree.kids.Kid? && tree.kids.key == Value(tree).members.key && NamesDiffer(tree.kids)
  {
    var kids := tree.kids.next;
    assert KidMembers(kids) == rest && KidMembers(kids.next) == NoMember;
    assert kids.Kid? && kids.next.NoKid?;
    assert KidCount(kids.next) == 0;
    assert KidCount(kids) == 1;
    assert KeyAt(kids, 0) == kids.key;
    assert KidCount(tree.kids) == 2 && KeyAt(tree.kids, 0) == tree.kids.key && KeyAt(tree.kids, 1) == tree.kids.next.key;
  }
}
