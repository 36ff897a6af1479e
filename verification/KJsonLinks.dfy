/** Walking, reading, copying and relinking kJSON nodes. Every method works on the branch below one node. */
module KJsonLinks {
  import opened Octets
  import opened KJson
  import opened KJsonStrings
  import opened KJsonPatch
  import opened KJsonTree

  /** The branch is there, in nodes of its own. */
  ghost predicate Owns(b: Branch)
    reads NodesOf(b)
  {
    Apart(b) && Wired(HeapOf(NodesOf(b)), b)
  }

  lemma OwnsKid(b: Branch, i: nat)
    requires Owns(b) && i < KidCount(b.kids)
    ensures var kid := KidAt(b.kids, i); Owns(kid) && NodesOf(kid) <= NodesOf(b) && kid.node == NodeAt(b.kids, i)
  {
    var kid := KidAt(b.kids, i);
    KidIn(HeapOf(NodesOf(b)), b, i);
    SameWired(HeapOf(NodesOf(b)), HeapOf(NodesOf(kid)), kid);
  }

  /** The fields of a kid. */
  lemma KidLinks(b: Branch, i: nat)
    requires Owns(b) && i < KidCount(b.kids)
    ensures var c := NodeAt(b.kids, i);
      && c != null && c in KidNodes(b.kids) && c in NodesOf(b) && c.key == KeyAt(b.kids, i)
      && c.next == NodeAt(b.kids, i + 1) && c.prev == (if i == 0 then b.before else NodeAt(b.kids, i - 1))
  {
    KidAtWired(HeapOf(NodesOf(b)), b.before, b.kids, i);
    KidAtKey(HeapOf(NodesOf(b)), b.before, b.kids, i);
  }

  lemma {:induction false} KidAtKey(h: Heap, before: TreeNode?, kids: Kids, i: nat)
    requires Chain(h, before, kids) && i < KidCount(kids)
    ensures KidAt(kids, i).node in h && h[KidAt(kids, i).node].key == KeyAt(kids, i)
    decreases kids
  {
    if i > 0 { KidAtKey(h, kids.branch.node, kids.next, i - 1); }
  }

  lemma TopLinks(b: Branch)
    requires Owns(b)
    ensures b.node.tag == b.tag && b.node.child == NodeAt(b.kids, 0)
    ensures b.tag.Leaf? ==> b.kids.NoKid?
  {
  }

  /** The walk of get_array_item, detach_item_from_array and insert_item_in_array; left is how far it fell short. */
  method NthChild(parent: TreeNode, index: nat, ghost b: Branch) returns (child: TreeNode?, left: nat)
    requires Owns(b) && parent == b.node
    ensures child == NodeAt(b.kids, index)
    ensures left > 0 <==> index > KidCount(b.kids)
  {
    hide Wired, Apart, KidAt, NodeAt;
    TopLinks(b);
    child := parent.child;
    assert allocated(NodesOf(b));
    left := index;
    ghost var i := 0;
    while child != null && left > 0
      invariant i <= KidCount(b.kids) && child == NodeAt(b.kids, i) && i + left == index
      decreases left
    {
      AtOrNull(b.kids, i);
      KidLinks(b, i);
      child := child.next;
      left, i := left - 1, i + 1;
    }
    AtOrNull(b.kids, i);
    AtOrNull(b.kids, index);
  }

  lemma AtOrNull(kids: Kids, i: nat)
    ensures NodeAt(kids, i) != null <==> i < KidCount(kids)
  {
  }

  /** The loop of get_item_from_pointer over the members of an object. */
  method ChildByToken(parent: TreeNode, pointer: Text, caseSensitive: bool, ghost b: Branch) returns (child: TreeNode?)
    requires Owns(b) && parent == b.node
    ensures var at := FirstWhere(b.kids, Spelled(pointer, caseSensitive));
      child == if at.Some? then NodeAt(b.kids, at.value) else null
  {
    hide Wired, Apart, KidAt, NodeAt, MatchesToken, FirstWhere;
    TopLinks(b);
    child := parent.child;
    assert allocated(NodesOf(b));
    ghost var i := 0;
    AtOrNull(b.kids, i);
    if child != null { KidLinks(b, 0); }
    while child != null && !MatchesToken(child.key, pointer, caseSensitive)
      invariant i <= KidCount(b.kids) && child == NodeAt(b.kids, i)
      invariant child != null ==> i < KidCount(b.kids) && child.key == KeyAt(b.kids, i)
      invariant forall j | 0 <= j < i :: !Spelled(pointer, caseSensitive)(KeyAt(b.kids, j))
      decreases KidCount(b.kids) - i
    {
      KidLinks(b, i);
      child := child.next;
      i := i + 1;
      AtOrNull(b.kids, i);
      if i < KidCount(b.kids) { KidLinks(b, i); }
    }
    AtOrNull(b.kids, i);
  }

  /** kJSON_GetObjectItem and its case-sensitive variant, on an object. */
  method ChildByName(parent: TreeNode, name: Text, caseSensitive: bool, ghost b: Branch) returns (child: TreeNode?)
    requires Owns(b) && parent == b.node
    ensures var at := FirstWhere(b.kids, Named(name, caseSensitive));
      child == if at.Some? then NodeAt(b.kids, at.value) else null
  {
    hide Wired, Apart, KidAt, NodeAt, CompareStrings, FirstWhere;
    TopLinks(b);
    child := parent.child;
    assert allocated(NodesOf(b));
    ghost var i := 0;
    AtOrNull(b.kids, i);
    if child != null { KidLinks(b, 0); }
    while child != null && CompareStrings(name, child.key, caseSensitive) != 0
      invariant i <= KidCount(b.kids) && child == NodeAt(b.kids, i)
      invariant child != null ==> i < KidCount(b.kids) && child.key == KeyAt(b.kids, i)
      invariant forall j | 0 <= j < i :: !Named(name, caseSensitive)(KeyAt(b.kids, j))
      decreases KidCount(b.kids) - i
    {
      KidLinks(b, i);
      child := child.next;
      i := i + 1;
      AtOrNull(b.kids, i);
      if i < KidCount(b.kids) { KidLinks(b, i); }
    }
    AtOrNull(b.kids, i);
  }

  /** What get_item_from_pointer does for one token. */
  method ChildNode(parent: TreeNode, pointer: Text, caseSensitive: bool, ghost b: Branch) returns (child: TreeNode?)
    requires Owns(b) && parent == b.node
    ensures var at := KidIndex(b, pointer, caseSensitive);
      child == if at.Some? then NodeAt(b.kids, at.value) else null
  {
    hide Wired, Apart, KidAt, DecodeIndex, FirstWhere, NodeAt;
    TopLinks(b);
    child := null;
    if parent.tag.ArrayTag? {
      var index := DecodeIndex(pointer);
      if index.Some? {
        var left;
        child, left := NthChild(parent, index.value, b);
        AtOrNull(b.kids, index.value);
      }
    } else if parent.tag.ObjectTag? {
      child := ChildByToken(parent, pointer, caseSensitive, b);
    }
  }

  lemma {:induction false} BelowFurther(b: Branch, path: seq<nat>, i: nat)
    requires Below(b, path).Some? && i < KidCount(Below(b, path).value.kids)
    ensures Below(b, path + [i]) == Some(KidAt(Below(b, path).value.kids, i))
    decreases path
  {
    if path == [] {
      assert path + [i] == [i] && [i][1..] == [];
    } else {
      assert (path + [i])[1..] == path[1..] + [i];
      BelowFurther(KidAt(b.kids, path[0]), path[1..], i);
    }
  }

  /** The positions of a pointer that starts at a branch found before. */
  ghost function From(path: seq<nat>, rest: Option<seq<nat>>): Option<seq<nat>> {
    if rest.Some? then Some(path + rest.value) else None
  }

  lemma ResolveOnce(b: Branch, p: Text, caseSensitive: bool, path: seq<nat>)
    requires p != [] && p[0] == '/'
    ensures var i := KidIndex(b, p[1..], caseSensitive);
      From(path, Resolve(b, p, caseSensitive))
      == if i.Some? then From(path + [i.value], Resolve(KidAt(b.kids, i.value), SkipToken(p[1..]), caseSensitive)) else None
  {
    hide KidIndex, SkipToken, Below;
    var i := KidIndex(b, p[1..], caseSensitive);
    if i.Some? {
      var rest := Resolve(KidAt(b.kids, i.value), SkipToken(p[1..]), caseSensitive);
      if rest.Some? { assert path + ([i.value] + rest.value) == path + [i.value] + rest.value; }
    }
  }

  /** get_item_from_pointer */
  method GetNode(root: TreeNode, pointer: Text, caseSensitive: bool, ghost b: Branch) returns (item: TreeNode?)
    requires Owns(b) && root == b.node
    ensures var at := Resolve(b, pointer, caseSensitive);
      item == if at.Some? then Below(b, at.value).value.node else null
  {
    hide Wired, Apart, KidAt, KidIndex, NodesOf, Below, Resolve;
    item := root;
    var p := pointer;
    ghost var sub, path: seq<nat> := b, [];
    StartOf(b, Resolve(b, pointer, caseSensitive));
    assert allocated(NodesOf(b));
    while p != [] && p[0] == '/' && item != null
      invariant item != null ==> Owns(sub) && NodesOf(sub) <= NodesOf(b) && item == sub.node && Below(b, path) == Some(sub)
      invariant Resolve(b, pointer, caseSensitive) == if item != null then From(path, Resolve(sub, p, caseSensitive)) else None
      decreases |p|
    {
      item := ChildNode(item, p[1..], caseSensitive, sub);
      ResolveOnce(sub, p, caseSensitive, path);
      ghost var i := KidIndex(sub, p[1..], caseSensitive);
      if i.Some? {
        AtOrNull(sub.kids, i.value);
        OwnsKid(sub, i.value);
        BelowFurther(b, path, i.value);
        sub, path := KidAt(sub.kids, i.value), path + [i.value];
      }
      p := SkipToken(p[1..]);
    }
    if item != null { EndOf(sub, p, caseSensitive, path); }
  }

  lemma StartOf(b: Branch, at: Option<seq<nat>>)
    ensures Below(b, []) == Some(b) && From([], at) == at
  {
    if at.Some? { assert [] + at.value == at.value; }
  }

  lemma EndOf(b: Branch, p: Text, caseSensitive: bool, path: seq<nat>)
    requires p == [] || p[0] != '/'
    ensures From(path, Resolve(b, p, caseSensitive)) == Some(path)
  {
    assert path + [] == path;
  }

  // ----- editing the kids of one node

  lemma {:induction false} KidsDiffer(kids: Kids, i: nat, j: nat)
    requires KidsApart(kids) && i < j < KidCount(kids)
    ensures NodesOf(KidAt(kids, i)) !! NodesOf(KidAt(kids, j)) && NodeAt(kids, i) != NodeAt(kids, j)
    decreases kids
  {
    if i == 0 {
      KidAtNodes(kids.next, j - 1);
    } else {
      KidsDiffer(kids.next, i - 1, j - 1);
    }
  }

  /** The neighbours of a kid, none of them the same node. */
  lemma Neighbours(b: Branch, i: nat)
    requires Owns(b) && i < KidCount(b.kids)
    ensures var c, p, q := NodeAt(b.kids, i), if i == 0 then null else NodeAt(b.kids, i - 1), NodeAt(b.kids, i + 1);
      && c != null && c in NodesOf(b) && c != b.node && c.prev == (if i == 0 then b.before else p) && c.next == q
      && (p != null <==> i > 0) && (p != null ==> p in NodesOf(b) && p != b.node && p != c)
      && (q != null ==> q in NodesOf(b) && q != b.node && q != c && q != p)
      && (b.node.child == c <==> i == 0)
      && b.node in NodesOf(b) && b.node.tag == b.tag && b.node.child == NodeAt(b.kids, 0)
  {
    hide Wired, Chain;
    KidLinks(b, i);
    TopLinks(b);
    if i > 0 { KidsDiffer(b.kids, 0, i); KidsDiffer(b.kids, i - 1, i); }
    if i + 1 < KidCount(b.kids) {
      KidsDiffer(b.kids, i, i + 1);
      if i > 0 { KidsDiffer(b.kids, i - 1, i + 1); }
    }
  }

  /** The links after a kid has been taken out of its chain. */
  ghost predicate Unlinked(h: Heap, g: Heap, b: Branch, i: nat) {
    var c, p, q := NodeAt(b.kids, i), if i == 0 then null else NodeAt(b.kids, i - 1), NodeAt(b.kids, i + 1);
    && (forall n | n in NodesOf(b) :: n in h && n in g)
    && (forall n | n in NodesOf(b) && n != c && n != p && n != q && n != b.node :: g[n] == h[n])
    && (c in NodesOf(b) ==> g[c] == h[c].(next := null, prev := null))
    && (p in NodesOf(b) ==> g[p] == h[p].(next := q))
    && (q in NodesOf(b) ==> g[q] == h[q].(prev := if i == 0 then b.before else p))
    && (b.node in NodesOf(b) ==> g[b.node] == if i == 0 then h[b.node].(child := q) else h[b.node])
  }

  lemma UnlinkedRest(h: Heap, g: Heap, b: Branch, i: nat)
    requires Wired(h, b) && Apart(b) && i < KidCount(b.kids) && Unlinked(h, g, b, i)
    ensures var rest := Without(b, i);
      Wired(g, rest) && Apart(rest) && NodesOf(rest) == NodesOf(b) - NodesOf(KidAt(b.kids, i))
  {
    hide Chain;
    KidAtNodes(b.kids, i);
    RemoveKidWired(h, g, b.before, b.kids, i);
    if i > 0 { assert NodeAt(b.kids, 0) == First(b.kids); }
  }

  lemma UnlinkedKid(h: Heap, g: Heap, b: Branch, i: nat)
    requires Wired(h, b) && Apart(b) && i < KidCount(b.kids) && Unlinked(h, g, b, i)
    ensures var kid := KidAt(b.kids, i); Wired(g, kid) && Apart(kid) && NodesOf(kid) <= NodesOf(b)
  {
    KidIn(h, b, i);
    if i > 0 { KidsDiffer(b.kids, i - 1, i); }
    if i + 1 < KidCount(b.kids) { KidsDiffer(b.kids, i, i + 1); }
    MovedWired(h, g, KidAt(b.kids, i));
  }

  lemma OwnsPart(b: Branch, nodes: set<TreeNode>)
    requires Wired(HeapOf(nodes), b) && Apart(b) && NodesOf(b) <= nodes
    ensures Owns(b)
  {
    SameWired(HeapOf(nodes), HeapOf(NodesOf(b)), b);
  }

  /** The node whose next is overwritten when the kid at i is detached although it is no neighbour: a first kid may have
      been left with a predecessor. */
  ghost function Stray(b: Branch, i: nat): TreeNode? {
    if i == 0 then b.before else null
  }

  ghost function AsSet(n: TreeNode?): set<TreeNode> {
    if n == null then {} else {n}
  }

  ghost function StrayAt(b: Branch, i: Option<nat>): set<TreeNode> {
    if i.Some? then AsSet(Stray(b, i.value)) else {}
  }

  ghost function Renext(h: Heap, n: TreeNode?, next: TreeNode?): Heap {
    if n != null && n in h then h[n := h[n].(next := next)] else h
  }

  ghost function Reprev(h: Heap, n: TreeNode?, prev: TreeNode?): Heap {
    if n != null && n in h then h[n := h[n].(prev := prev)] else h
  }

  ghost function Rechild(h: Heap, n: TreeNode?, child: TreeNode?): Heap {
    if n != null && n in h then h[n := h[n].(child := child)] else h
  }

  /** if (n) n->next = next; */
  method Point(n: TreeNode?, next: TreeNode?, ghost nodes: set<TreeNode>)
    modifies AsSet(n)`next
    ensures HeapOf(nodes) == Renext(old(HeapOf(nodes)), n, next)
    ensures n != null ==> n.next == next
  {
    if n != null { n.next := next; }
  }

  method PointBack(n: TreeNode?, prev: TreeNode?, ghost nodes: set<TreeNode>)
    modifies AsSet(n)`prev
    ensures HeapOf(nodes) == Reprev(old(HeapOf(nodes)), n, prev)
  {
    if n != null { n.prev := prev; }
  }

  method PointDown(n: TreeNode, child: TreeNode?, ghost nodes: set<TreeNode>)
    modifies n`child
    ensures HeapOf(nodes) == Rechild(old(HeapOf(nodes)), n, child)
  {
    n.child := child;
  }

  /** The heap g with the stray's next as it was in h. */
  ghost function Mended(h: Heap, g: Heap, b: Branch, i: nat): Heap {
    var stray := Stray(b, i);
    if stray != null && stray != NodeAt(b.kids, i) && stray in h then Renext(g, stray, h[stray].next) else g
  }

  /** What the assignments of detaching make of the heap. */
  ghost function Unlinking(h: Heap, parent: TreeNode, c: TreeNode): Heap {
    if parent !in h || c !in h then h
    else
      var q, p := h[c].next, h[c].prev;
      var back := Reprev(Renext(h, p, q), q, p);
      var top := if h[parent].child == c then Rechild(back, parent, q) else back;
      Renext(Reprev(top, c, null), c, null)
  }

  /** detach_item_from_array once the item is found, and kJSON_DetachItemViaPointer. */
  method DetachNode(parent: TreeNode, item: TreeNode, ghost nodes: set<TreeNode>)
    requires parent in nodes && item in nodes && item.next != item
    modifies AsSet(item.prev)`next, AsSet(item.next)`prev, parent`child, item`next, item`prev
    ensures HeapOf(nodes) == Unlinking(old(HeapOf(nodes)), parent, item)
    ensures old(item.prev) != null && old(item.prev) != item ==> old(item.prev).next == old(item.next)
  {
    hide HeapOf, Renext, Reprev, Rechild;
    ghost var h := HeapOf(nodes);
    HeapHas(nodes, parent);
    HeapHas(nodes, item);
    var next, prev, first := item.next, item.prev, parent.child;
    Point(prev, next, nodes);
    PointBack(next, prev, nodes);
    if item == first { PointDown(parent, next, nodes); }
    PointBack(item, null, nodes);
    Point(item, null, nodes);
  }

  lemma HeapHas(nodes: set<TreeNode>, n: TreeNode)
    requires n in nodes
    ensures n in HeapOf(nodes) && HeapOf(nodes)[n] == Links(n.tag, n.key, n.next, n.prev, n.child)
  {
  }

  /** Neighbours, in a heap. */
  lemma NeighboursIn(h: Heap, b: Branch, i: nat)
    requires Wired(h, b) && Apart(b) && i < KidCount(b.kids)
    ensures var c, p, q := NodeAt(b.kids, i), if i == 0 then null else NodeAt(b.kids, i - 1), NodeAt(b.kids, i + 1);
      && c != null && c in h && c in NodesOf(b) && c != b.node && b.node in h && b.node in NodesOf(b)
      && h[c].prev == (if i == 0 then b.before else p) && h[c].next == q
      && (p != null <==> i > 0) && (p != null ==> p in h && p in NodesOf(b) && p != b.node && p != c)
      && (q != null ==> q in h && q in NodesOf(b) && q != b.node && q != c && q != p)
      && (h[b.node].child == c <==> i == 0)
  {
    hide Chain;
    KidAtNodes(b.kids, i);
    KidAtWired(h, b.before, b.kids, i);
    if i > 0 { KidAtWired(h, b.before, b.kids, i - 1); KidsDiffer(b.kids, 0, i); KidsDiffer(b.kids, i - 1, i); }
    if i + 1 < KidCount(b.kids) {
      KidAtWired(h, b.before, b.kids, i + 1);
      KidsDiffer(b.kids, i, i + 1);
      if i > 0 { KidsDiffer(b.kids, i - 1, i + 1); }
    }
  }

  /** Apart from the stray's next, the assignments of detaching unlink the kid. */
  lemma UnlinkingIs(h: Heap, b: Branch, i: nat)
    requires Wired(h, b) && Apart(b) && i < KidCount(b.kids)
    ensures b.node in h && NodeAt(b.kids, i) in h
    ensures Unlinked(h, Mended(h, Unlinking(h, b.node, NodeAt(b.kids, i)), b, i), b, i)
  {
    hide Wired, Chain, Apart, NodesOf, NodeAt;
    NeighboursIn(h, b, i);
    AllIn(h, b);
  }

  lemma {:induction false} AllIn(h: Heap, b: Branch)
    requires Wired(h, b)
    ensures NodesOf(b) <= h.Keys
    decreases b
  {
    AllInKids(h, b.before, b.kids);
  }

  lemma {:induction false} AllInKids(h: Heap, before: TreeNode?, kids: Kids)
    requires Chain(h, before, kids)
    ensures KidNodes(kids) <= h.Keys
    decreases kids
  {
    if kids.Kid? {
      AllIn(h, kids.branch);
      AllInKids(h, kids.branch.node, kids.next);
    }
  }

  lemma UnlinkedInHeap(h: Heap, nodes: set<TreeNode>, b: Branch, i: nat)
    requires Wired(h, b) && Apart(b) && i < KidCount(b.kids) && NodesOf(b) <= nodes && Stray(b, i) == null
    requires b.node in h && NodeAt(b.kids, i) in h && HeapOf(nodes) == Unlinking(h, b.node, NodeAt(b.kids, i))
    ensures var rest, kid := Without(b, i), KidAt(b.kids, i);
      && Owns(rest) && Owns(kid) && NodesOf(rest) == NodesOf(b) - NodesOf(kid) && NodesOf(kid) <= NodesOf(b)
    ensures Unlinked(h, HeapOf(nodes), b, i)
  {
    hide Wired, Apart, NodesOf, Unlinked, Unlinking;
    var g := HeapOf(nodes);
    UnlinkingIs(h, b, i);
    UnlinkedRest(h, g, b, i);
    UnlinkedKid(h, g, b, i);
    OwnsPart(Without(b, i), nodes);
    OwnsPart(KidAt(b.kids, i), nodes);
  }

  /** Detaching a kid: right for the branch unless a stray predecessor is in front of it. */
  method Unlink(parent: TreeNode, item: TreeNode, ghost b: Branch, ghost i: nat, ghost nodes: set<TreeNode>)
    requires Owns(b) && parent == b.node && i < KidCount(b.kids) && item == NodeAt(b.kids, i) && NodesOf(b) <= nodes
    modifies NodesOf(b), AsSet(Stray(b, i))`next
    ensures HeapOf(nodes) == Unlinking(old(HeapOf(nodes)), parent, item)
    ensures Stray(b, i) == null ==>
      var rest, kid := Without(b, i), KidAt(b.kids, i);
      && Owns(rest) && Owns(kid) && NodesOf(rest) == NodesOf(b) - NodesOf(kid) && NodesOf(kid) <= NodesOf(b)
      && item.next == null && item.prev == null && item.key == old(item.key)
      && parent.key == old(parent.key) && parent.next == old(parent.next) && parent.prev == old(parent.prev)
  {
    hide Wired, Chain, KidNodes, Apart, NodesOf, NodeAt, KidAt, Unlinking;
    ghost var h := HeapOf(nodes);
    WiredIn(b, nodes);
    NeighboursIn(h, b, i);
    DetachNode(parent, item, nodes);
    if Stray(b, i) == null {
      UnlinkedInHeap(h, nodes, b, i);
    }
  }

  lemma WiredIn(b: Branch, nodes: set<TreeNode>)
    requires Owns(b) && NodesOf(b) <= nodes
    ensures Wired(HeapOf(nodes), b) && Apart(b)
  {
    SameWired(HeapOf(NodesOf(b)), HeapOf(nodes), b);
  }

  /** The links after x has been put in front of the kid at i, or behind the last. */
  ghost predicate Inserted(h: Heap, g: Heap, b: Branch, i: nat, x: Branch) {
    var n, p, q := x.node, if i == 0 then null else NodeAt(b.kids, i - 1), NodeAt(b.kids, i);
    && (forall m | m in NodesOf(b) + NodesOf(x) :: m in h && m in g)
    && (forall m | m in NodesOf(b) + NodesOf(x) && m != n && m != p && m != q && m != b.node :: g[m] == h[m])
    && n in h && n in g && g[n] == h[n].(next := q, prev := if i > 0 then p else if b.kids.NoKid? then null else b.before)
    && (p in NodesOf(b) ==> g[p] == h[p].(next := n))
    && (q in NodesOf(b) ==> g[q] == h[q].(prev := n))
    && (b.node in NodesOf(b) ==> g[b.node] == if i == 0 then h[b.node].(child := n) else h[b.node])
  }

  lemma InsertedWhole(h: Heap, g: Heap, b: Branch, i: nat, x: Branch)
    requires Wired(h, b) && Apart(b) && Wired(h, x) && Apart(x) && NodesOf(b) !! NodesOf(x) && !b.tag.Leaf?
    requires i <= KidCount(b.kids) && Inserted(h, g, b, i, x)
    ensures var whole := With(b, i, h[x.node].key, x);
      Wired(g, whole) && Apart(whole) && NodesOf(whole) == NodesOf(b) + NodesOf(x)
  {
    hide Chain;
    if i > 0 { AtOrNull(b.kids, i - 1); }
    AtOrNull(b.kids, i);
    InsertedKid(h, g, b, i, x);
    if 0 < i < KidCount(b.kids) { KidsDiffer(b.kids, i - 1, i); }
    InsertKidWired(h, g, With(b, i, h[x.node].key, x).before, b.kids, i, h[x.node].key, x);
    if i > 0 { assert NodeAt(b.kids, 0) == First(b.kids); }
  }

  lemma InsertedKid(h: Heap, g: Heap, b: Branch, i: nat, x: Branch)
    requires Wired(h, x) && Apart(x) && NodesOf(b) !! NodesOf(x) && Inserted(h, g, b, i, x)
    ensures Wired(g, x)
  {
    MovedWired(h, g, x);
  }

  lemma InsertedOwns(h: Heap, b: Branch, i: nat, x: Branch)
    requires Wired(h, b) && Apart(b) && Wired(h, x) && Apart(x) && NodesOf(b) !! NodesOf(x) && !b.tag.Leaf?
    requires i <= KidCount(b.kids) && Inserted(h, HeapOf(NodesOf(b) + NodesOf(x)), b, i, x)
    ensures var whole := With(b, i, h[x.node].key, x);
      Owns(whole) && NodesOf(whole) == NodesOf(b) + NodesOf(x)
  {
    hide Wired, Apart, NodesOf;
    InsertedWhole(h, HeapOf(NodesOf(b) + NodesOf(x)), b, i, x);
    OwnsPart(With(b, i, h[x.node].key, x), NodesOf(b) + NodesOf(x));
  }

  /** Both branches in one heap. */
  lemma OwnsBoth(b: Branch, x: Branch)
    requires Owns(b) && Owns(x)
    ensures var h := HeapOf(NodesOf(b) + NodesOf(x)); Wired(h, b) && Wired(h, x)
  {
    SameWired(HeapOf(NodesOf(b)), HeapOf(NodesOf(b) + NodesOf(x)), b);
    SameWired(HeapOf(NodesOf(x)), HeapOf(NodesOf(b) + NodesOf(x)), x);
  }

  /** insert_item_in_array in front of an element that is there. */
  method LinkBefore(parent: TreeNode, child: TreeNode, item: TreeNode, ghost b: Branch, ghost i: nat, ghost x: Branch)
    requires Owns(b) && parent == b.node && i < KidCount(b.kids) && child == NodeAt(b.kids, i)
    requires Owns(x) && item == x.node && NodesOf(b) !! NodesOf(x)
    modifies NodesOf(b), item
    ensures var whole := With(b, i, old(item.key), x);
      Owns(whole) && NodesOf(whole) == NodesOf(b) + NodesOf(x)
    ensures parent.key == old(parent.key) && parent.next == old(parent.next) && parent.prev == old(parent.prev)
  {
    hide Wired, Chain, KidNodes, Apart, NodeAt, KidAt;
    ghost var h := HeapOf(NodesOf(b) + NodesOf(x));
    OwnsBoth(b, x);
    Neighbours(b, i);
    item.next := child;
    item.prev := child.prev;
    child.prev := item;
    if child == parent.child {
      parent.child := item;
    } else {
      item.prev.next := item;
    }
    assert Inserted(h, HeapOf(NodesOf(b) + NodesOf(x)), b, i, x);
    InsertedOwns(h, b, i, x);
  }

  method LastChild(first: TreeNode, ghost b: Branch) returns (child: TreeNode)
    requires Owns(b) && first == NodeAt(b.kids, 0)
    ensures KidCount(b.kids) > 0 && child == NodeAt(b.kids, KidCount(b.kids) - 1)
  {
    hide Wired, Apart, KidAt, NodeAt;
    assert allocated(NodesOf(b));
    child := first;
    ghost var i := 0;
    AtOrNull(b.kids, 0);
    KidLinks(b, 0);
    while child.next != null
      invariant i < KidCount(b.kids) && child == NodeAt(b.kids, i) && child.next == NodeAt(b.kids, i + 1)
      decreases KidCount(b.kids) - i
    {
      AtOrNull(b.kids, i + 1);
      child := child.next;
      i := i + 1;
      KidLinks(b, i);
    }
    AtOrNull(b.kids, i + 1);
  }

  ghost function LastNode(kids: Kids): TreeNode? {
    if kids.NoKid? then null else NodeAt(kids, KidCount(kids) - 1)
  }

  lemma LastIs(kids: Kids)
    ensures LastNode(kids) == null <==> KidCount(kids) == 0
    ensures KidCount(kids) > 0 ==> LastNode(kids) == NodeAt(kids, KidCount(kids) - 1)
  {
  }

  /** suffix_object, or the first child of a parent that has none; an item that is added has no neighbours. */
  method LinkBehind(parent: TreeNode, tail: TreeNode?, item: TreeNode, ghost b: Branch, ghost x: Branch)
    requires Owns(b) && parent == b.node && !b.tag.Leaf?
    requires tail == LastNode(b.kids)
    requires Owns(x) && item == x.node && NodesOf(b) !! NodesOf(x) && item.next == null && item.prev == null
    modifies NodesOf(b), item
    ensures var whole := With(b, KidCount(b.kids), old(item.key), x);
      Owns(whole) && NodesOf(whole) == NodesOf(b) + NodesOf(x)
    ensures parent.key == old(parent.key) && parent.next == old(parent.next) && parent.prev == old(parent.prev)
  {
    hide Wired, Chain, KidNodes, Apart, NodeAt, KidAt, InsertKid, LastNode;
    ghost var h, count := HeapOf(NodesOf(b) + NodesOf(x)), KidCount(b.kids);
    OwnsBoth(b, x);
    TopLinks(b);
    AtOrNull(b.kids, count);
    LastIs(b.kids);
    if tail == null {
      parent.child := item;
    } else {
      Neighbours(b, count - 1);
      tail.next := item;
      item.prev := tail;
    }
    assert Inserted(h, HeapOf(NodesOf(b) + NodesOf(x)), b, count, x);
    InsertedOwns(h, b, count, x);
  }

  /** add_item_to_array */
  method LinkLast(parent: TreeNode, item: TreeNode, ghost b: Branch, ghost x: Branch)
    requires Owns(b) && parent == b.node && !b.tag.Leaf?
    requires Owns(x) && item == x.node && NodesOf(b) !! NodesOf(x) && item.next == null && item.prev == null
    modifies NodesOf(b), item
    ensures var whole := With(b, KidCount(b.kids), old(item.key), x);
      Owns(whole) && NodesOf(whole) == NodesOf(b) + NodesOf(x)
    ensures parent.key == old(parent.key) && parent.next == old(parent.next) && parent.prev == old(parent.prev)
  {
    hide Wired, Chain, KidNodes, Apart, NodeAt, KidAt, InsertKid;
    TopLinks(b);
    AtOrNull(b.kids, 0);
    var child := parent.child;
    assert allocated(NodesOf(b)) && allocated(NodesOf(x));
    if child != null { child := LastChild(child, b); }
    LinkBehind(parent, child, item, b, x);
  }

  // ----- reading and copying

  /** The kids from some position on. */
  ghost predicate OwnsKids(before: TreeNode?, kids: Kids)
    reads KidNodes(kids)
  {
    KidsApart(kids) && Chain(HeapOf(KidNodes(kids)), before, kids)
  }

  lemma OwnsKidsOf(b: Branch)
    requires Owns(b)
    ensures OwnsKids(b.before, b.kids) && b.node.tag == b.tag && b.node.child == First(b.kids)
  {
    SameChain(HeapOf(NodesOf(b)), HeapOf(KidNodes(b.kids)), b.before, b.kids);
  }

  lemma OwnsKidsStep(before: TreeNode?, kids: Kids)
    requires OwnsKids(before, kids) && kids.Kid?
    ensures var n := kids.branch.node;
      Owns(kids.branch) && n.key == kids.key && n.next == First(kids.next) && OwnsKids(n, kids.next)
  {
    SameWired(HeapOf(KidNodes(kids)), HeapOf(NodesOf(kids.branch)), kids.branch);
    SameChain(HeapOf(KidNodes(kids)), HeapOf(KidNodes(kids.next)), kids.branch.node, kids.next);
  }

  /** The value a node stands for, as compare_json and kJSON_Duplicate go through it. */
  method Read(node: TreeNode, ghost b: Branch) returns (value: Json)
    requires Owns(b) && node == b.node
    ensures value == Value(b)
    decreases b
  {
    hide Owns, OwnsKids;
    OwnsKidsOf(b);
    match node.tag
    case Leaf(v) => value := v;
    case ArrayTag =>
      var items := ReadItems(node.child, b.before, b.kids);
      value := Array(items);
    case ObjectTag =>
      var members := ReadMembers(node.child, b.before, b.kids);
      value := Object(members);
  }

  method ReadItems(first: TreeNode?, ghost before: TreeNode?, ghost kids: Kids) returns (items: Items)
    requires OwnsKids(before, kids) && first == First(kids)
    ensures items == KidItems(kids)
    decreases kids
  {
    hide Wired, Apart, Chain, KidsApart;
    if first == null { return NoItem; }
    OwnsKidsStep(before, kids);
    assert allocated(KidNodes(kids.next));
    var value := Read(first, kids.branch);
    var rest := ReadItems(first.next, first, kids.next);
    items := Item(value, rest);
  }

  method ReadMembers(first: TreeNode?, ghost before: TreeNode?, ghost kids: Kids) returns (members: Members)
    requires OwnsKids(before, kids) && first == First(kids)
    ensures members == KidMembers(kids)
    decreases kids
  {
    hide Wired, Apart, Chain, KidsApart;
    if first == null { return NoMember; }
    OwnsKidsStep(before, kids);
    assert allocated(KidNodes(kids.next));
    var value := Read(first, kids.branch);
    var rest := ReadMembers(first.next, first, kids.next);
    members := Member(first.key, value, rest);
  }

  lemma {:induction false} AppendOne(a: Items, v: Json, rest: Items)
    ensures AppendItems(AppendItems(a, Item(v, NoItem)), rest) == AppendItems(a, Item(v, rest))
  {
    if a.Item? { AppendOne(a.next, v, rest); }
  }

  lemma {:induction false} AddOne(a: Members, key: Text, v: Json, rest: Members)
    ensures AppendMembers(AddMember(a, key, v), rest) == AppendMembers(a, Member(key, v, rest))
  {
    if a.Member? { AddOne(a.next, key, v, rest); }
  }

  lemma Grown(kids: Kids, key: Text, x: Branch, items: Items, members: Members)
    ensures var more := InsertKid(kids, KidCount(kids), key, x);
      && AppendItems(KidItems(more), items) == AppendItems(KidItems(kids), Item(Value(x), items))
      && AppendMembers(KidMembers(more), members) == AppendMembers(KidMembers(kids), Member(key, Value(x), members))
      && LastNode(more) == x.node
  {
    AppendIs(kids, key, x);
    AppendOne(KidItems(kids), Value(x), items);
    AddOne(KidMembers(kids), key, Value(x), members);
    LastInserted(kids, key, x);
  }

  lemma {:induction false} LastInserted(kids: Kids, key: Text, x: Branch)
    ensures var more := InsertKid(kids, KidCount(kids), key, x); KidCount(more) == KidCount(kids) + 1 && NodeAt(more, KidCount(kids)) == x.node
    decreases kids
  {
    if kids.Kid? { LastInserted(kids.next, key, x); }
  }

  method NewNode(tag: Tag) returns (node: TreeNode, ghost b: Branch)
    ensures fresh(node) && b == Branch(node, tag, NoKid, null) && Owns(b) && Tidy(b)
    ensures node.key == [] && node.next == null && node.prev == null
  {
    node := new TreeNode(tag);
    b := Branch(node, tag, NoKid, null);
  }

  /** A node is given its name before it is added. */
  method Rename(node: TreeNode, key: Text, ghost b: Branch)
    requires Owns(b) && node == b.node
    modifies node
    ensures Owns(b) && node.key == key && node.next == old(node.next) && node.prev == old(node.prev)
  {
    ghost var h := HeapOf(NodesOf(b));
    node.key := key;
    MovedWired(h, HeapOf(NodesOf(b)), b);
  }

  /** kJSON_Duplicate of a value of the patch. */
  method Build(value: Json) returns (node: TreeNode, ghost b: Branch)
    ensures fresh(NodesOf(b)) && Owns(b) && node == b.node && Value(b) == value && Tidy(b)
    ensures node.key == [] && node.next == null && node.prev == null
    decreases value, 1
  {
    hide Owns, NodesOf;
    match value
    case Array(items) => node, b := BuildArray(items);
    case Object(members) => node, b := BuildObject(members);
    case _ => node, b := NewNode(Leaf(value)); OneNode(b);
  }

  lemma OneNode(b: Branch)
    ensures b.node in NodesOf(b) && LastNode(NoKid) == null
    ensures b.kids.NoKid? ==> NodesOf(b) == {b.node}
  {
  }

  method BuildArray(items: Items) returns (node: TreeNode, ghost b: Branch)
    ensures fresh(NodesOf(b)) && Owns(b) && node == b.node && Value(b) == Array(items) && Tidy(b)
    ensures node.key == [] && node.next == null && node.prev == null
    decreases items, 0
  {
    hide Wired, Apart, NodesOf, LastNode, InsertKid;
    node, b := NewNode(ArrayTag);
    OneNode(b);
    var current, next := items, null;
    while current.Item?
      invariant fresh(NodesOf(b)) && Owns(b) && node == b.node && b.tag == ArrayTag && Tidy(b)
      invariant node.key == [] && node.next == null && node.prev == null
      invariant next == LastNode(b.kids)
      invariant AppendItems(KidItems(b.kids), current) == items
      invariant items nonincreases to current
      decreases current
    {
      assert allocated(NodesOf(b));
      var child, x := Build(current.value);
      OneNode(x);
      Grown(b.kids, [], x, current.next, NoMember);
      LinkBehind(node, next, child, b, x);
      TidyInsert(b.kids, KidCount(b.kids), [], x);
      b := With(b, KidCount(b.kids), [], x);
      next := child;
      current := current.next;
    }
    AppendNothing(KidItems(b.kids));
  }

  method BuildObject(members: Members) returns (node: TreeNode, ghost b: Branch)
    ensures fresh(NodesOf(b)) && Owns(b) && node == b.node && Value(b) == Object(members) && Tidy(b)
    ensures node.key == [] && node.next == null && node.prev == null
    decreases members, 0
  {
    hide Wired, Apart, NodesOf, LastNode, InsertKid;
    node, b := NewNode(ObjectTag);
    OneNode(b);
    var current, next := members, null;
    while current.Member?
      invariant fresh(NodesOf(b)) && Owns(b) && node == b.node && b.tag == ObjectTag && Tidy(b)
      invariant node.key == [] && node.next == null && node.prev == null
      invariant next == LastNode(b.kids)
      invariant AppendMembers(KidMembers(b.kids), current) == members
      invariant members nonincreases to current
      decreases current
    {
      assert allocated(NodesOf(b));
      var child, x := Build(current.value);
      OneNode(x);
      Rename(child, current.key, x);
      Grown(b.kids, current.key, x, NoItem, current.next);
      LinkBehind(node, next, child, b, x);
      TidyInsert(b.kids, KidCount(b.kids), current.key, x);
      b := With(b, KidCount(b.kids), current.key, x);
      next := child;
      current := current.next;
    }
    AppendNoMember(KidMembers(b.kids));
  }

  lemma {:induction false} AppendNoMember(a: Members)
    ensures AppendMembers(a, NoMember) == a
  {
    if a.Member? { AppendNoMember(a.next); }
  }

  // ----- taking out and putting in by name or index

  /** The kid that detach_path takes out of its parent. */
  ghost function KidToDetach(p: Branch, child: Text): (r: Option<nat>)
    ensures r.Some? ==> r.value < KidCount(p.kids)
  {
    match p.tag
    case ArrayTag =>
      var index := DecodeIndex(child);
      if index.Some? && index.value < KidCount(p.kids) then index else None
    case ObjectTag => FirstWhere(p.kids, Named(child, false))
    case Leaf(_) => None
  }

  method DetachFrom(parent: TreeNode, child: Text, ghost p: Branch, ghost nodes: set<TreeNode>) returns (item: TreeNode?, stale: bool)
    requires Owns(p) && parent == p.node && NodesOf(p) <= nodes
    modifies NodesOf(p), StrayAt(p, KidToDetach(p, child))`next
    ensures var at := KidToDetach(p, child);
      if at.None? then item == null && !stale && HeapOf(nodes) == old(HeapOf(nodes))
      else
        && item == KidAt(p.kids, at.value).node && (stale <==> Stray(p, at.value) != null)
        && HeapOf(nodes) == Unlinking(old(HeapOf(nodes)), parent, item)
        && (!stale ==>
              var rest, kid := Without(p, at.value), KidAt(p.kids, at.value);
              && Owns(rest) && Owns(kid) && NodesOf(rest) == NodesOf(p) - NodesOf(kid) && NodesOf(kid) <= NodesOf(p)
              && item.next == null && item.prev == null
              && parent.key == old(parent.key) && parent.next == old(parent.next) && parent.prev == old(parent.prev))
  {
    hide Wired, Apart, KidAt, FirstWhere, DecodeIndex, NodesOf, RemoveKid, Unlinking;
    TopLinks(p);
    item, stale := null, false;
    assert allocated(nodes);
    ghost var at := KidToDetach(p, child);
    if at.Some? { AtOrNull(p.kids, at.value); }
    if parent.tag.ArrayTag? {
      var index := DecodeIndex(child);
      if index.None? { return; }
      var left;
      item, left := NthChild(parent, index.value, p);
      AtOrNull(p.kids, index.value);
    } else if parent.tag.ObjectTag? {
      item := ChildByName(parent, child, false, p);
    }
    if item == null { return; }
    Neighbours(p, at.value);
    stale := item == parent.child && item.prev != null;
    Unlink(parent, item, p, at.value, nodes);
  }

  /** What adding x as `child` does to its parent; key is the name x came with. */
  ghost function WithAdded(p: Branch, child: Text, x: Branch, key: Text, caseSensitive: bool): (r: (int, Branch))
    ensures r.1.node == p.node
  {
    match p.tag
    case ArrayTag =>
      if child == "-" then (0, With(p, KidCount(p.kids), key, x))
      else
        var index := DecodeIndex(child);
        if index.None? then (11, p)
        else if index.value > KidCount(p.kids) then (10, p)
        else (0, With(p, index.value, key, x))
    case ObjectTag =>
      var q := Cleared(p, child, caseSensitive);
      (0, With(q, KidCount(q.kids), child, x))
    case Leaf(_) => (9, p)
  }

  /** The object without the member that is in the way. */
  ghost function Cleared(p: Branch, name: Text, caseSensitive: bool): Branch {
    var at := FirstWhere(p.kids, Named(name, caseSensitive));
    if at.Some? then Without(p, at.value) else p
  }

  /** The member in the way is the first and has a stray predecessor. */
  ghost predicate StrayInTheWay(p: Branch, name: Text, caseSensitive: bool) {
    p.tag.ObjectTag? && p.before != null && FirstWhere(p.kids, Named(name, caseSensitive)) == Some(0)
  }

  /** kJSON_DetachItemFromObject and its case-sensitive variant. */
  method TakeMember(parent: TreeNode, name: Text, caseSensitive: bool, ghost p: Branch) returns (item: TreeNode?, stale: bool)
    requires Owns(p) && parent == p.node && p.tag.ObjectTag?
    modifies NodesOf(p), StrayAt(p, FirstWhere(p.kids, Named(name, caseSensitive)))`next
    ensures stale <==> StrayInTheWay(p, name, caseSensitive)
    ensures var at := FirstWhere(p.kids, Named(name, caseSensitive));
      if at.None? then item == null
      else
        && item == KidAt(p.kids, at.value).node
        && (!stale ==>
              var kid := KidAt(p.kids, at.value);
              && Owns(kid) && NodesOf(kid) <= NodesOf(p) && NodesOf(kid) !! NodesOf(Without(p, at.value))
              && item.next == null && item.prev == null)
    ensures !stale ==>
      && Owns(Cleared(p, name, caseSensitive)) && NodesOf(Cleared(p, name, caseSensitive)) <= NodesOf(p)
      && parent.key == old(parent.key) && parent.next == old(parent.next) && parent.prev == old(parent.prev)
  {
    hide Wired, Apart, KidAt, FirstWhere, NodesOf, RemoveKid, Unlinking;
    assert allocated(NodesOf(p));
    ghost var at := FirstWhere(p.kids, Named(name, caseSensitive));
    if at.Some? { AtOrNull(p.kids, at.value); }
    stale := false;
    item := ChildByName(parent, name, caseSensitive, p);
    if item != null {
      Neighbours(p, at.value);
      stale := item == parent.child && item.prev != null;
      Unlink(parent, item, p, at.value, NodesOf(p));
    }
  }

  /** kJSON_DeleteItemFromObject and its case-sensitive variant. */
  method DeleteMember(parent: TreeNode, name: Text, caseSensitive: bool, ghost p: Branch) returns (stale: bool)
    requires Owns(p) && parent == p.node && p.tag.ObjectTag?
    modifies NodesOf(p), StrayAt(p, FirstWhere(p.kids, Named(name, caseSensitive)))`next
    ensures stale <==> StrayInTheWay(p, name, caseSensitive)
    ensures !stale ==>
      && Owns(Cleared(p, name, caseSensitive)) && NodesOf(Cleared(p, name, caseSensitive)) <= NodesOf(p)
      && parent.key == old(parent.key) && parent.next == old(parent.next) && parent.prev == old(parent.prev)
  {
    hide Owns, KidAt, FirstWhere, NodesOf, RemoveKid;
    var item;
    item, stale := TakeMember(parent, name, caseSensitive, p);
  }

  /** insert_item_in_array */
  method InsertAt(parent: TreeNode, index: nat, value: TreeNode, ghost p: Branch, ghost x: Branch) returns (inserted: bool)
    requires Owns(p) && parent == p.node && !p.tag.Leaf?
    requires Owns(x) && value == x.node && NodesOf(p) !! NodesOf(x) && value.next == null && value.prev == null
    modifies NodesOf(p), value
    ensures inserted <==> index <= KidCount(p.kids)
    ensures inserted ==>
      var q := With(p, index, old(value.key), x); Owns(q) && NodesOf(q) == NodesOf(p) + NodesOf(x)
    ensures !inserted ==> HeapOf(NodesOf(p)) == old(HeapOf(NodesOf(p)))
    ensures parent.key == old(parent.key) && parent.next == old(parent.next) && parent.prev == old(parent.prev)
  {
    hide Wired, Apart, NodeAt, NodesOf, InsertKid;
    assert allocated(NodesOf(p)) && allocated(NodesOf(x));
    var child, left := NthChild(parent, index, p);
    if left > 0 { return false; }
    AtOrNull(p.kids, index);
    if child == null {
      LinkLast(parent, value, p, x);
    } else {
      LinkBefore(parent, child, value, p, index, x);
    }
    inserted := true;
  }

  /** The stray node that the closing part of apply_patch would overwrite. */
  ghost function StrayAdding(p: Branch, child: Text, caseSensitive: bool): set<TreeNode> {
    if p.tag.ObjectTag? then StrayAt(p, FirstWhere(p.kids, Named(child, caseSensitive))) else {}
  }

  /** The closing part of apply_patch. */
  method AddTo(parent: TreeNode, child: Text, value: TreeNode, caseSensitive: bool, ghost p: Branch, ghost x: Branch)
      returns (status: int, stale: bool)
    requires Owns(p) && parent == p.node
    requires Owns(x) && value == x.node && NodesOf(p) !! NodesOf(x) && value.next == null && value.prev == null
    modifies NodesOf(p), value, StrayAdding(p, child, caseSensitive)`next
    ensures stale <==> StrayInTheWay(p, child, caseSensitive)
    ensures !stale ==>
      var (s, q) := WithAdded(p, child, x, old(value.key), caseSensitive);
      && status == s && (s == 0 ==> Owns(q) && NodesOf(x) <= NodesOf(q) <= NodesOf(p) + NodesOf(x))
      && parent.key == old(parent.key) && parent.next == old(parent.next) && parent.prev == old(parent.prev)
    ensures !stale && status != 0 ==> HeapOf(NodesOf(p)) == old(HeapOf(NodesOf(p)))
  {
    hide Wired, Apart, KidAt, FirstWhere, NodesOf, RemoveKid, InsertKid, DecodeIndex;
    TopLinks(p);
    OneNode(p);
    OneNode(x);
    assert allocated(NodesOf(p)) && allocated(NodesOf(x));
    stale := false;
    if parent.tag.ArrayTag? {
      if child == "-" {
        LinkLast(parent, value, p, x);
        return 0, false;
      }
      var index := DecodeIndex(child);
      if index.None? { return 11, false; }
      var inserted := InsertAt(parent, index.value, value, p, x);
      return if inserted then 0 else 10, false;
    }
    if parent.tag.ObjectTag? {
      stale := DeleteMember(parent, child, caseSensitive, p);
      if stale { return 0, true; }
      Rename(value, child, x);
      LinkLast(parent, value, Cleared(p, child, caseSensitive), x);
      return 0, false;
    }
    status := 9;
  }

  // ----- editing one branch of a tree

  lemma OwnsBelow(b: Branch, path: seq<nat>)
    requires Owns(b) && Below(b, path).Some?
    ensures var sub := Below(b, path).value; Owns(sub) && NodesOf(sub) <= NodesOf(b)
  {
    var sub := Below(b, path).value;
    BelowNodes(b, path);
    BelowWired(HeapOf(NodesOf(b)), b, path);
    OwnsPart(sub, NodesOf(b));
  }

  /** h is the heap before the branch was edited. */
  lemma PutOwns(h: Heap, b: Branch, path: seq<nat>, x: Branch)
    requires Wired(h, b) && Apart(b) && Below(b, path).Some?
    requires var sub := Below(b, path).value;
      && Owns(x) && x.node == sub.node && NodesOf(x) !! NodesOf(b) - NodesOf(sub)
      && Same(h, HeapOf(NodesOf(b)), NodesOf(b) - NodesOf(sub))
      && x.node in h && x.node.key == h[x.node].key && x.node.next == h[x.node].next && x.node.prev == h[x.node].prev
    ensures Owns(PutBelow(b, path, x)) && PutBelow(b, path, x).node == b.node
    ensures NodesOf(PutBelow(b, path, x)) == NodesOf(b) - NodesOf(Below(b, path).value) + NodesOf(x)
  {
    hide PutBelow, Below, Chain;
    var nodes := NodesOf(b) + NodesOf(x);
    SameWired(HeapOf(NodesOf(x)), HeapOf(nodes), x);
    assert Became(h, HeapOf(nodes), NodesOf(b), Below(b, path).value, x);
    PutWired(h, HeapOf(nodes), b, path, x);
    OwnsPart(PutBelow(b, path, x), nodes);
  }

  lemma OwnsStill(h: Heap, b: Branch)
    requires Wired(h, b) && Apart(b) && Same(h, HeapOf(NodesOf(b)), NodesOf(b))
    ensures Owns(b)
  {
    SameWired(h, HeapOf(NodesOf(b)), b);
  }
}
