/** sort_object and compare_json on linked nodes: comparing sorts the objects that it comes to, in place. */
module KJsonCompare {
  import opened KJson
  import opened KJsonStrings
  import opened KJsonSort
  import opened KJsonPatch
  import opened KJsonTree
  import opened KJsonLinks
  import L = KJsonSortList

  // ----- kids as a list of nodes

  ghost function Heads(kids: Kids): seq<TreeNode> {
    if kids.NoKid? then [] else [kids.branch.node] + Heads(kids.next)
  }

  ghost function KinIn(kids: Kids): L.Kin {
    if kids.NoKid? then map[] else KinIn(kids.next)[kids.branch.node := (kids.key, kids.branch)]
  }

  /** The kids in the order of a list of nodes. */
  ghost function Along(ns: seq<TreeNode>, kin: L.Kin): Kids {
    if ns == [] then NoKid else Kid(L.KinOf(kin, ns[0]).0, L.KinOf(kin, ns[0]).1, Along(ns[1..], kin))
  }

  lemma {:induction false} AlongMembers(ns: seq<TreeNode>, kin: L.Kin)
    ensures KidMembers(Along(ns, kin)) == L.MembersOf(ns, kin)
    ensures KidCount(Along(ns, kin)) == |ns|
  {
    if ns != [] { AlongMembers(ns[1..], kin); }
  }

  lemma {:induction false} HeadsAt(kids: Kids, i: nat)
    ensures |Heads(kids)| == KidCount(kids)
    ensures i < KidCount(kids) ==> Heads(kids)[i] == KidAt(kids, i).node == NodeAt(kids, i)
    decreases kids
  {
    if kids.Kid? {
      HeadsAt(kids.next, if i > 0 then i - 1 else 0);
    }
  }

  /** Every kid is found again by its node. */
  lemma {:induction false} KinAt(kids: Kids, i: nat)
    requires KidsApart(kids) && i < KidCount(kids)
    ensures L.KinOf(KinIn(kids), KidAt(kids, i).node) == (KeyAt(kids, i), KidAt(kids, i))
    decreases kids
  {
    if i > 0 {
      KinAt(kids.next, i - 1);
      KidAtNodes(kids.next, i - 1);
    }
  }

  /** The kids have nodes of their own. */
  ghost predicate KinApart(ns: seq<TreeNode>, kin: L.Kin) {
    && (forall i | 0 <= i < |ns| :: Apart(L.KinOf(kin, ns[i]).1) && L.KinOf(kin, ns[i]).1.node == ns[i])
    && forall i, j | 0 <= i < j < |ns| :: NodesOf(L.KinOf(kin, ns[i]).1) !! NodesOf(L.KinOf(kin, ns[j]).1)
  }

  lemma HeadsApart(kids: Kids)
    requires KidsApart(kids)
    ensures KinApart(Heads(kids), KinIn(kids))
  {
    var ns := Heads(kids);
    HeadsAt(kids, 0);
    forall i | 0 <= i < |ns|
      ensures ns[i] == KidAt(kids, i).node && L.KinOf(KinIn(kids), ns[i]).1 == KidAt(kids, i) && Apart(KidAt(kids, i))
    {
      HeadsAt(kids, i);
      KinAt(kids, i);
      KidAtNodes(kids, i);
    }
    forall i, j | 0 <= i < j < |ns| ensures NodesOf(KidAt(kids, i)) !! NodesOf(KidAt(kids, j)) {
      KidsDiffer(kids, i, j);
    }
  }

  lemma {:induction false} AlongHeads(kids: Kids, kin: L.Kin)
    requires forall i | 0 <= i < KidCount(kids) :: L.KinOf(kin, KidAt(kids, i).node) == (KeyAt(kids, i), KidAt(kids, i))
    ensures Along(Heads(kids), kin) == kids
    decreases kids
  {
    if kids.Kid? {
      assert KidAt(kids, 0) == kids.branch && KeyAt(kids, 0) == kids.key;
      forall i | 0 <= i < KidCount(kids.next)
        ensures L.KinOf(kin, KidAt(kids.next, i).node) == (KeyAt(kids.next, i), KidAt(kids.next, i))
      {
        assert KidAt(kids, i + 1) == KidAt(kids.next, i) && KeyAt(kids, i + 1) == KeyAt(kids.next, i);
      }
      AlongHeads(kids.next, kin);
      assert Heads(kids)[1..] == Heads(kids.next);
    }
  }

  lemma AlongOwnHeads(kids: Kids)
    requires KidsApart(kids)
    ensures Along(Heads(kids), KinIn(kids)) == kids
  {
    forall i | 0 <= i < KidCount(kids) ensures L.KinOf(KinIn(kids), KidAt(kids, i).node) == (KeyAt(kids, i), KidAt(kids, i)) {
      KinAt(kids, i);
    }
    AlongHeads(kids, KinIn(kids));
  }

  lemma {:induction false} AlongNodes(ns: seq<TreeNode>, kin: L.Kin, x: TreeNode)
    ensures x in KidNodes(Along(ns, kin)) <==> exists n | n in ns :: x in NodesOf(L.KinOf(kin, n).1)
  {
    if ns != [] { AlongNodes(ns[1..], kin, x); }
  }

  lemma {:induction false} AlongApart(ns: seq<TreeNode>, kin: L.Kin)
    requires KinApart(ns, kin)
    ensures KidsApart(Along(ns, kin))
  {
    if ns != [] {
      var first, rest := L.KinOf(kin, ns[0]).1, ns[1..];
      forall i | 0 <= i < |rest| ensures NodesOf(first) !! NodesOf(L.KinOf(kin, rest[i]).1) { assert rest[i] == ns[i + 1]; }
      forall i, j | 0 <= i < j < |rest| ensures NodesOf(L.KinOf(kin, rest[i]).1) !! NodesOf(L.KinOf(kin, rest[j]).1) {
        assert rest[i] == ns[i + 1] && rest[j] == ns[j + 1];
      }
      AlongApart(rest, kin);
      forall x | x in KidNodes(Along(rest, kin)) ensures x !in NodesOf(first) { AlongNodes(rest, kin, x); }
    }
  }

  lemma KinApartReordered(ns: seq<TreeNode>, out: seq<TreeNode>, kin: L.Kin)
    requires KinApart(ns, kin) && L.Distinct(out) && L.Nodes(out) == L.Nodes(ns)
    ensures KinApart(out, kin)
  {
    forall i | 0 <= i < |out| ensures out[i] in ns { assert out[i] in L.Nodes(out); }
    forall i, j | 0 <= i < j < |out| ensures NodesOf(L.KinOf(kin, out[i]).1) !! NodesOf(L.KinOf(kin, out[j]).1) {
      var a :| 0 <= a < |ns| && ns[a] == out[i];
      var b :| 0 <= b < |ns| && ns[b] == out[j];
      assert a != b;
    }
  }

  lemma MoreNodes(ns: seq<TreeNode>, out: seq<TreeNode>, kin: L.Kin)
    requires L.Nodes(ns) <= L.Nodes(out)
    ensures KidNodes(Along(ns, kin)) <= KidNodes(Along(out, kin))
  {
    forall x | x in KidNodes(Along(ns, kin)) ensures x in KidNodes(Along(out, kin)) {
      AlongNodes(ns, kin, x);
      AlongNodes(out, kin, x);
      var n :| n in ns && x in NodesOf(L.KinOf(kin, n).1);
      assert n in L.Nodes(ns);
    }
  }

  /** Putting kids in another order: the same nodes, still apart. */
  lemma Reordered(kids: Kids, out: seq<TreeNode>)
    requires KidsApart(kids) && L.Distinct(out) && L.Nodes(out) == L.Nodes(Heads(kids))
    ensures KidsApart(Along(out, KinIn(kids))) && KidNodes(Along(out, KinIn(kids))) == KidNodes(kids)
  {
    hide KinApart, KidsApart, KidNodes, L.Nodes;
    var ns, kin := Heads(kids), KinIn(kids);
    HeadsApart(kids);
    KinApartReordered(ns, out, kin);
    AlongApart(out, kin);
    AlongOwnHeads(kids);
    MoreNodes(ns, out, kin);
    MoreNodes(out, ns, kin);
  }

  /** The heap has the i-th node between its neighbours, with its name, and below it the branch that belongs to it. */
  ghost predicate InPlace(g: Heap, before: TreeNode?, ns: seq<TreeNode>, kin: L.Kin, i: nat)
    requires i < |ns|
  {
    var n, (key, b) := ns[i], L.KinOf(kin, ns[i]);
    && n in g && b.node == n && Wired(g, b) && g[n].key == key
    && g[n].prev == (if i == 0 then before else ns[i - 1])
    && g[n].next == if i + 1 < |ns| then ns[i + 1] else null
  }

  ghost predicate InRow(g: Heap, before: TreeNode?, ns: seq<TreeNode>, kin: L.Kin) {
    forall i | 0 <= i < |ns| :: InPlace(g, before, ns, kin, i)
  }

  lemma {:induction false} RowIsChain(g: Heap, before: TreeNode?, ns: seq<TreeNode>, kin: L.Kin)
    requires InRow(g, before, ns, kin)
    ensures Chain(g, before, Along(ns, kin)) && First(Along(ns, kin)) == if ns == [] then null else ns[0]
    decreases |ns|
  {
    if ns != [] {
      var rest := ns[1..];
      assert InPlace(g, before, ns, kin, 0);
      forall i | 0 <= i < |rest| ensures InPlace(g, ns[0], rest, kin, i) { assert InPlace(g, before, ns, kin, i + 1); }
      RowIsChain(g, ns[0], rest, kin);
    }
  }

  /** A chain in the heap is a row, and a list for the sort. */
  lemma ChainIsRow(g: Heap, before: TreeNode?, kids: Kids)
    requires Chain(g, before, kids) && KidsApart(kids)
    ensures InRow(g, before, Heads(kids), KinIn(kids))
  {
    var ns, kin := Heads(kids), KinIn(kids);
    HeadsAt(kids, 0);
    forall i | 0 <= i < |ns| ensures InPlace(g, before, ns, kin, i) {
      HeadsAt(kids, i);
      if i > 0 { HeadsAt(kids, i - 1); }
      HeadsAt(kids, i + 1);
      KinAt(kids, i);
      KidAtWired(g, before, kids, i);
      KidAtKey(g, before, kids, i);
    }
  }

  lemma DistinctHeads(kids: Kids)
    requires KidsApart(kids)
    ensures L.Distinct(Heads(kids))
  {
    var ns := Heads(kids);
    HeadsAt(kids, 0);
    forall i, j | 0 <= i < j < |ns| ensures ns[i] != ns[j] {
      HeadsAt(kids, i);
      HeadsAt(kids, j);
      KidsDiffer(kids, i, j);
    }
  }

  // ----- sort_object

  /** From h to g the heads of the kids got other neighbours, and nothing else changed below the node. */
  ghost predicate Shuffled(h: Heap, g: Heap, kids: Kids) {
    forall n | n in KidNodes(kids) ::
      && n in h && n in g && g[n] == h[n].(next := g[n].next, prev := g[n].prev)
      && (n !in Heads(kids) ==> g[n] == h[n])
  }

  lemma ShuffledKid(h: Heap, g: Heap, before: TreeNode?, kids: Kids, n: TreeNode)
    requires Chain(h, before, kids) && KidsApart(kids) && Shuffled(h, g, kids) && n in Heads(kids)
    ensures var (key, b) := L.KinOf(KinIn(kids), n); n in g && b.node == n && Wired(g, b) && g[n].key == key
  {
    var i :| 0 <= i < |Heads(kids)| && Heads(kids)[i] == n;
    HeadsAt(kids, i);
    KinAt(kids, i);
    KidAtNodes(kids, i);
    KidAtWired(h, before, kids, i);
    KidAtKey(h, before, kids, i);
    var b := KidAt(kids, i);
    forall m | m in KidNodes(b.kids) ensures m !in Heads(kids) {
      if m in Heads(kids) {
        var j :| 0 <= j < |Heads(kids)| && Heads(kids)[j] == m;
        HeadsAt(kids, j);
        if j < i { KidsDiffer(kids, j, i); } else if i < j { KidsDiffer(kids, i, j); }
      }
    }
    MovedWired(h, g, b);
  }

  /** The next and prev of a list in the heap. */
  ghost predicate Threaded(g: Heap, before: TreeNode?, out: seq<TreeNode>) {
    forall i | 0 <= i < |out| ::
      && out[i] in g
      && g[out[i]].prev == (if i == 0 then before else out[i - 1])
      && g[out[i]].next == if i + 1 < |out| then out[i + 1] else null
  }

  lemma ShuffledRow(h: Heap, g: Heap, before: TreeNode?, after: TreeNode?, kids: Kids, out: seq<TreeNode>)
    requires Chain(h, before, kids) && KidsApart(kids) && Shuffled(h, g, kids)
    requires L.Nodes(out) == L.Nodes(Heads(kids)) && Threaded(g, after, out)
    ensures Chain(g, after, Along(out, KinIn(kids)))
    ensures First(Along(out, KinIn(kids))) == if out == [] then null else out[0]
  {
    hide Chain, Shuffled;
    var kin := KinIn(kids);
    forall i | 0 <= i < |out| ensures InPlace(g, after, out, kin, i) {
      assert out[i] in L.Nodes(out);
      ShuffledKid(h, g, before, kids, out[i]);
    }
    RowIsChain(g, after, out, kin);
  }

  /** The kids of a branch are a list for the sort. */
  lemma KidsAreList(b: Branch)
    requires Owns(b)
    ensures L.List(b.node.child, Heads(b.kids)) && L.KeysOf(Heads(b.kids), KinIn(b.kids))
    ensures L.Nodes(Heads(b.kids)) <= KidNodes(b.kids)
  {
    hide Chain, KidsApart;
    var ns, kin := Heads(b.kids), KinIn(b.kids);
    ChainIsRow(HeapOf(NodesOf(b)), b.before, b.kids);
    DistinctHeads(b.kids);
    HeadsAt(b.kids, 0);
    forall i | 0 <= i < |ns| ensures InPlace(HeapOf(NodesOf(b)), b.before, ns, kin, i) && ns[i] in KidNodes(b.kids) {
      HeadsAt(b.kids, i);
    }
    if ns != [] { HeadsAt(b.kids, 0); }
  }

  /** The first kid of c was the k-th of b, and it still has the prev that it had there; or there is no kid at all. */
  ghost predicate FirstWasAt(b: Branch, c: Branch, k: nat) {
    && First(c.kids) == NodeAt(b.kids, k)
    && c.before == (if 0 < k < KidCount(b.kids) then NodeAt(b.kids, k - 1) else b.before)
    && (k < KidCount(b.kids) && c.kids.Kid? ==> c.kids.key == KeyAt(b.kids, k))
  }

  /** The kids of c are those of b in another order. */
  ghost predicate Resorted(b: Branch, c: Branch) {
    L.Nodes(Heads(c.kids)) == L.Nodes(Heads(b.kids)) && exists k :: FirstWasAt(b, c, k)
  }

  /** What sorting promises about the branch that comes out. */
  ghost predicate SortedFrom(b: Branch, c: Branch, caseSensitive: bool) {
    && c.node == b.node && c.tag == b.tag && NodesOf(c) == NodesOf(b)
    && KidMembers(c.kids) == SortMembers(KidMembers(b.kids), caseSensitive)
    && Befores(c) <= Befores(b) + NodesOf(b)
    && Resorted(b, c)
  }

  /** The branch after its kids were put in the order of out. */
  ghost function Rearranged(b: Branch, out: seq<TreeNode>, before: TreeNode?): Branch {
    Branch(b.node, b.tag, Along(out, KinIn(b.kids)), before)
  }

  lemma RearrangedWired(h: Heap, g: Heap, b: Branch, out: seq<TreeNode>, before: TreeNode?)
    requires Wired(h, b) && Apart(b) && Shuffled(h, g, b.kids) && Threaded(g, before, out) && !b.tag.Leaf?
    requires L.Distinct(out) && L.Nodes(out) == L.Nodes(Heads(b.kids))
    requires b.node in g && g[b.node].tag == b.tag && g[b.node].child == if out == [] then null else out[0]
    ensures var c := Rearranged(b, out, before);
      && Wired(g, c) && Apart(c) && NodesOf(c) == NodesOf(b)
      && First(c.kids) == if out == [] then null else out[0]
  {
    hide Chain, Shuffled, Threaded;
    Reordered(b.kids, out);
    ShuffledRow(h, g, b.before, before, b.kids, out);
  }

  /** Where the first node was before. */
  lemma FirstWas(h: Heap, b: Branch, out: seq<TreeNode>, before: TreeNode?)
    requires Wired(h, b) && Apart(b) && L.Nodes(out) == L.Nodes(Heads(b.kids))
    requires out != [] && out[0] in h ==> before == h[out[0]].prev
    requires out == [] ==> before == b.before
    ensures exists k :: FirstWasAt(b, Rearranged(b, out, before), k)
    ensures before != null ==> before in Befores(b) + NodesOf(b)
  {
    var c := Rearranged(b, out, before);
    if out != [] {
      assert out[0] in L.Nodes(Heads(b.kids));
      var k :| 0 <= k < |Heads(b.kids)| && Heads(b.kids)[k] == out[0];
      HeadsAt(b.kids, k);
      KinAt(b.kids, k);
      KidAtWired(h, b.before, b.kids, k);
      assert FirstWasAt(b, c, k);
    } else {
      assert FirstWasAt(b, c, KidCount(b.kids));
    }
  }

  /** Every node that is put along is the head of its branch. */
  lemma {:induction false} HeadsAlong(ns: seq<TreeNode>, kin: L.Kin)
    requires forall n | n in ns :: L.KinOf(kin, n).1.node == n
    ensures Heads(Along(ns, kin)) == ns
  {
    if ns != [] { HeadsAlong(ns[1..], kin); }
  }

  lemma RearrangedHeads(b: Branch, out: seq<TreeNode>, before: TreeNode?)
    requires Apart(b) && L.Nodes(out) == L.Nodes(Heads(b.kids))
    ensures Heads(Rearranged(b, out, before).kids) == out
  {
    HeadsApart(b.kids);
    forall n | n in out ensures L.KinOf(KinIn(b.kids), n).1.node == n { assert n in L.Nodes(out); }
    HeadsAlong(out, KinIn(b.kids));
  }

  /** The heap after sort_list, seen from before it. */
  lemma ShuffledBy(h: Heap, b: Branch, list: TreeNode?, out: seq<TreeNode>)
    requires NodesOf(b) <= h.Keys && b.node !in KidNodes(b.kids)
    requires forall n | n in KidNodes(b.kids) :: n.tag == h[n].tag && n.key == h[n].key && n.child == h[n].child
    requires forall n | n in KidNodes(b.kids) && n !in Heads(b.kids) :: n.next == h[n].next && n.prev == h[n].prev
    requires L.List(list, out) && L.Nodes(out) == L.Nodes(Heads(b.kids)) <= KidNodes(b.kids)
    ensures Shuffled(h, HeapOf(NodesOf(b)), b.kids)
    ensures Threaded(HeapOf(NodesOf(b)), if out == [] then b.before else out[0].prev, out)
  {
    forall i | 0 <= i < |out| ensures out[i] in KidNodes(b.kids) { assert out[i] in L.Nodes(out); }
  }

  lemma SortedOwns(h: Heap, b: Branch, out: seq<TreeNode>, before: TreeNode?, caseSensitive: bool)
    requires Wired(h, b) && Apart(b) && b.tag.ObjectTag?
    requires Shuffled(h, HeapOf(NodesOf(b)), b.kids) && Threaded(HeapOf(NodesOf(b)), before, out)
    requires L.Distinct(out) && L.Nodes(out) == L.Nodes(Heads(b.kids))
    requires b.node.tag == b.tag && b.node.child == if out == [] then null else out[0]
    requires out != [] && out[0] in h ==> before == h[out[0]].prev
    requires out == [] ==> before == b.before
    requires L.MembersOf(out, KinIn(b.kids)) == SortMembers(L.MembersOf(Heads(b.kids), KinIn(b.kids)), caseSensitive)
    ensures Owns(Rearranged(b, out, before)) && SortedFrom(b, Rearranged(b, out, before), caseSensitive)
  {
    hide Wired, Chain, KidsApart, Shuffled, Threaded;
    var c := Rearranged(b, out, before);
    RearrangedWired(h, HeapOf(NodesOf(b)), b, out, before);
    FirstWas(h, b, out, before);
    RearrangedBefores(b, out, before);
    RearrangedHeads(b, out, before);
    AlongMembers(out, KinIn(b.kids));
    AlongMembers(Heads(b.kids), KinIn(b.kids));
    AlongOwnHeads(b.kids);
  }

  /** sort_object */
  method SortObject(parent: TreeNode, caseSensitive: bool, ghost b: Branch) returns (ghost c: Branch)
    requires Owns(b) && parent == b.node && b.tag.ObjectTag?
    modifies NodesOf(b)
    ensures Owns(c) && SortedFrom(b, c, caseSensitive)
    ensures parent.key == old(parent.key) && parent.next == old(parent.next) && parent.prev == old(parent.prev)
  {
    hide Wired, Chain, KidsApart, L.List, L.KeysOf, Rearranged, SortedFrom, Shuffled, Threaded, KinIn, L.MembersOf;
    ghost var h := HeapOf(NodesOf(b));
    KidsAreList(b);
    WiredKeys(h, b);
    var result;
    ghost var out;
    result, out := L.SortList(parent.child, caseSensitive, Heads(b.kids), KinIn(b.kids));
    parent.child := result;
    ghost var before := if out == [] then b.before else out[0].prev;
    ListHead(result, out);
    ShuffledBy(h, b, result, out);
    SortedOwns(h, b, out, before, caseSensitive);
    c := Rearranged(b, out, before);
  }

  lemma WiredKeys(h: Heap, b: Branch)
    requires Wired(h, b)
    ensures NodesOf(b) <= h.Keys && b.node in NodesOf(b) && h[b.node].tag == b.tag
  {
    AllIn(h, b);
  }

  lemma ListHead(list: TreeNode?, ns: seq<TreeNode>)
    requires L.List(list, ns)
    ensures list == (if ns == [] then null else ns[0]) && L.Distinct(ns)
    ensures ns != [] ==> ns[0] in L.Nodes(ns)
  {
  }

  // ----- predecessors in front of first kids

  lemma {:induction false} AlongBefores(ns: seq<TreeNode>, kin: L.Kin, x: TreeNode)
    ensures x in KidBefores(Along(ns, kin)) <==> exists n | n in ns :: x in Befores(L.KinOf(kin, n).1)
  {
    if ns != [] { AlongBefores(ns[1..], kin, x); }
  }

  lemma RearrangedBefores(b: Branch, out: seq<TreeNode>, before: TreeNode?)
    requires Apart(b) && L.Nodes(out) <= L.Nodes(Heads(b.kids))
    ensures Befores(Rearranged(b, out, before)) <= Befores(b) + AsSet(before)
  {
    AlongOwnHeads(b.kids);
    forall x | x in KidBefores(Along(out, KinIn(b.kids))) ensures x in KidBefores(b.kids) {
      AlongBefores(out, KinIn(b.kids), x);
      AlongBefores(Heads(b.kids), KinIn(b.kids), x);
      var n :| n in out && x in Befores(L.KinOf(KinIn(b.kids), n).1);
      assert n in L.Nodes(out);
    }
  }

  // ----- values in the middle of comparing

  /** The kids from the i-th on. */
  ghost function KidsFrom(kids: Kids, i: nat): Kids
    requires i <= KidCount(kids)
  {
    if i == 0 then kids else KidsFrom(kids.next, i - 1)
  }

  ghost function ItemsThen(kids: Kids, i: nat, rest: Items): Items
    requires i <= KidCount(kids)
  {
    if i == 0 then rest else Item(Value(kids.branch), ItemsThen(kids.next, i - 1, rest))
  }

  ghost function MembersThen(kids: Kids, i: nat, rest: Members): Members
    requires i <= KidCount(kids)
  {
    if i == 0 then rest else Member(kids.key, Value(kids.branch), MembersThen(kids.next, i - 1, rest))
  }

  lemma {:induction false} ThenAll(kids: Kids, i: nat)
    requires i <= KidCount(kids)
    ensures ItemsThen(kids, i, KidItems(KidsFrom(kids, i))) == KidItems(kids)
    ensures MembersThen(kids, i, KidMembers(KidsFrom(kids, i))) == KidMembers(kids)
    decreases kids
  {
    if i > 0 { ThenAll(kids.next, i - 1); }
  }

  /** What putting x at i and going on changes. */
  lemma {:induction false} PutThen(kids: Kids, i: nat, x: Branch, items: Items, members: Members)
    requires i < KidCount(kids)
    ensures var put := PutKid(kids, i, x);
      && KidCount(put) == KidCount(kids) && KidsFrom(put, i + 1) == KidsFrom(kids, i + 1) && NodeAt(put, i + 1) == NodeAt(kids, i + 1)
      && KeyAt(put, i) == KeyAt(kids, i)
      && ItemsThen(put, i + 1, items) == ItemsThen(kids, i, Item(Value(x), items))
      && MembersThen(put, i + 1, members) == MembersThen(kids, i, Member(KeyAt(kids, i), Value(x), members))
    ensures KidsFrom(kids, i) == Kid(KeyAt(kids, i), KidAt(kids, i), KidsFrom(kids, i + 1))
    decreases kids
  {
    if i > 0 { PutThen(kids.next, i - 1, x, items, members); }
  }

  // ----- compare_json

  /** The branch after comparing: the same nodes below the same node. */
  ghost predicate Kept(b: Branch, c: Branch) {
    && c.node == b.node && c.tag == b.tag && NodesOf(c) == NodesOf(b)
    && Befores(c) <= Befores(b) + NodesOf(b)
  }

  lemma KeptFacts(b: Branch, c: Branch)
    requires Kept(b, c)
    ensures c.node == b.node && c.tag == b.tag && NodesOf(c) == NodesOf(b)
  {
  }

  /** One kid has been compared: h is the heap before. */
  lemma ComparedKid(h: Heap, b: Branch, c: Branch, i: nat, x: Branch)
    requires Kept(b, c) && Wired(h, c) && Apart(c) && i < KidCount(c.kids) && Owns(x) && Kept(KidAt(c.kids, i), x)
    requires Same(h, HeapOf(NodesOf(c)), NodesOf(c) - NodesOf(x))
    requires x.node in h && x.node.key == h[x.node].key && x.node.next == h[x.node].next && x.node.prev == h[x.node].prev
    ensures var d := c.(kids := PutKid(c.kids, i, x)); Owns(d) && Kept(b, d) && SameHeads(c, d)
  {
    hide Chain;
    var d := c.(kids := PutKid(c.kids, i, x));
    KidIn(h, c, i);
    SameWired(HeapOf(NodesOf(x)), HeapOf(NodesOf(c)), x);
    BecameOneUp(h, HeapOf(NodesOf(c)), c, i, x);
    ReplaceBefores(c.kids, i, x);
    assert NodesOf(d) == NodesOf(c);
    PutHeads(c.kids, i, x);
  }

  /** The same nodes in the same order, under the same names. */
  ghost predicate SameHeads(c: Branch, d: Branch) {
    && Heads(d.kids) == Heads(c.kids) && First(d.kids) == First(c.kids) && d.before == c.before
    && (c.kids.Kid? && d.kids.Kid? ==> d.kids.key == c.kids.key)
  }

  lemma {:induction false} PutHeads(kids: Kids, i: nat, x: Branch)
    requires i < KidCount(kids) && x.node == KidAt(kids, i).node
    ensures Heads(PutKid(kids, i, x)) == Heads(kids)
    decreases kids
  {
    if i > 0 { PutHeads(kids.next, i - 1, x); }
  }

  lemma StillResorted(b: Branch, c: Branch, d: Branch)
    requires Resorted(b, c) && SameHeads(c, d)
    ensures Resorted(b, d)
  {
    var k :| FirstWasAt(b, c, k);
    assert c.kids.Kid? <==> d.kids.Kid?;
    assert FirstWasAt(b, d, k);
  }

  method Compare(node: TreeNode, wanted: Json, caseSensitive: bool, ghost b: Branch) returns (equal: bool, ghost c: Branch)
    requires Owns(b) && node == b.node
    modifies NodesOf(b)
    ensures Owns(c) && Kept(b, c)
    ensures Value(c) == Compared(Value(b), wanted, caseSensitive)
    ensures equal == CompareJson(Value(b), wanted, caseSensitive)
    ensures b.tag.ObjectTag? && wanted.Object? ==> Resorted(b, c)
    ensures node.key == old(node.key) && node.next == old(node.next) && node.prev == old(node.prev)
    decreases Size(wanted), 1
  {
    hide Owns, Kept, SortMembers;
    KeptSame(b);
    c := b;
    OwnsTag(b);
    match node.tag
    case Leaf(v) =>
      equal := Kind(v) == Kind(wanted) && CompareJson(v, wanted, caseSensitive);
    case ArrayTag =>
      equal := false;
      if wanted.Array? {
        equal, c := CompareArray(node, wanted.items, caseSensitive, b);
        KeptFacts(b, c);
      }
    case ObjectTag =>
      equal := false;
      if wanted.Object? {
        equal, c := CompareObject(node, wanted.members, caseSensitive, b);
        KeptFacts(b, c);
      }
  }

  lemma KeptSame(b: Branch)
    ensures Kept(b, b)
  {
  }

  lemma OwnsTag(b: Branch)
    requires Owns(b)
    ensures b.node.tag == b.tag
  {
  }

  /** One round of the loops: the i-th kid is compared in place. */
  method CompareKid(current: TreeNode, wanted: Json, caseSensitive: bool, ghost b: Branch, ghost c: Branch, ghost i: nat)
      returns (same: bool, ghost x: Branch)
    requires Owns(c) && Kept(b, c) && i < KidCount(c.kids) && current == NodeAt(c.kids, i)
    modifies NodesOf(c)
    ensures var d := c.(kids := PutKid(c.kids, i, x)); Owns(d) && Kept(b, d) && SameHeads(c, d)
    ensures Value(x) == Compared(Value(KidAt(c.kids, i)), wanted, caseSensitive)
    ensures same == CompareJson(Value(KidAt(c.kids, i)), wanted, caseSensitive)
    ensures current.next == NodeAt(c.kids, i + 1)
    ensures c.node.key == old(c.node.key) && c.node.next == old(c.node.next) && c.node.prev == old(c.node.prev)
    decreases Size(wanted), 2
  {
    hide Wired, Apart, NodesOf, Befores, Compared, CompareJson, PutKid;
    ghost var kid, h := KidAt(c.kids, i), HeapOf(NodesOf(c));
    OwnsKid(c, i);
    KidLinks(c, i);
    WiredKeys(h, c);
    TopApart(c, i);
    same, x := Compare(current, wanted, caseSensitive, kid);
    ComparedKid(h, b, c, i, x);
  }

  lemma TopApart(c: Branch, i: nat)
    requires Apart(c) && i < KidCount(c.kids)
    ensures c.node !in NodesOf(KidAt(c.kids, i)) && KidAt(c.kids, i).node in NodesOf(KidAt(c.kids, i))
  {
    KidAtNodes(c.kids, i);
  }

  method CompareArray(node: TreeNode, items: Items, caseSensitive: bool, ghost b: Branch) returns (equal: bool, ghost c: Branch)
    requires Owns(b) && node == b.node && b.tag.ArrayTag?
    modifies NodesOf(b)
    ensures Owns(c) && Kept(b, c)
    ensures KidItems(c.kids) == ComparedItems(KidItems(b.kids), items, caseSensitive)
    ensures equal == CompareItems(KidItems(b.kids), items, caseSensitive)
    ensures node.key == old(node.key) && node.next == old(node.next) && node.prev == old(node.prev)
    decreases ItemsSize(items), 3
  {
    hide Owns, Kept, Compared, CompareJson, KidAt, NodeAt, PutKid;
    c := b;
    KeptSame(b);
    TopLinks(b);
    var current, wanted := node.child, items;
    ghost var i := 0;
    while current != null && wanted.Item?
      invariant Owns(c) && Kept(b, c) && i <= KidCount(c.kids) && current == NodeAt(c.kids, i)
      invariant ItemsSize(wanted) <= ItemsSize(items)
      invariant ItemsThen(c.kids, i, ComparedItems(KidItems(KidsFrom(c.kids, i)), wanted, caseSensitive))
             == ComparedItems(KidItems(b.kids), items, caseSensitive)
      invariant CompareItems(KidItems(KidsFrom(c.kids, i)), wanted, caseSensitive) == CompareItems(KidItems(b.kids), items, caseSensitive)
      invariant node.key == old(node.key) && node.next == old(node.next) && node.prev == old(node.prev)
      decreases wanted
    {
      AtOrNull(c.kids, i);
      KeptFacts(b, c);
      var same;
      ghost var x;
      same, x := CompareKid(current, wanted.value, caseSensitive, b, c, i);
      ItemCompared(c.kids, i, x, wanted, caseSensitive);
      c := c.(kids := PutKid(c.kids, i, x));
      if !same { return false, c; }
      current, wanted, i := current.next, wanted.next, i + 1;
    }
    AtOrNull(c.kids, i);
    ItemsEnd(c.kids, i, wanted, caseSensitive);
    equal := current == null && wanted.NoItem?;
  }

  /** What a round does to the values. */
  lemma ItemCompared(kids: Kids, i: nat, x: Branch, wanted: Items, caseSensitive: bool)
    requires i < KidCount(kids) && wanted.Item? && Value(x) == Compared(Value(KidAt(kids, i)), wanted.value, caseSensitive)
    ensures var put, v := PutKid(kids, i, x), Value(KidAt(kids, i));
      var whole := ItemsThen(kids, i, ComparedItems(KidItems(KidsFrom(kids, i)), wanted, caseSensitive));
      && KidCount(put) == KidCount(kids) && NodeAt(put, i + 1) == NodeAt(kids, i + 1)
      && if CompareJson(v, wanted.value, caseSensitive) then
           && ItemsThen(put, i + 1, ComparedItems(KidItems(KidsFrom(put, i + 1)), wanted.next, caseSensitive)) == whole
           && CompareItems(KidItems(KidsFrom(put, i + 1)), wanted.next, caseSensitive)
              == CompareItems(KidItems(KidsFrom(kids, i)), wanted, caseSensitive)
         else KidItems(put) == whole && !CompareItems(KidItems(KidsFrom(kids, i)), wanted, caseSensitive)
  {
    hide Compared, CompareJson, PutKid;
    var put, v := PutKid(kids, i, x), Value(KidAt(kids, i));
    var same := CompareJson(v, wanted.value, caseSensitive);
    var rest := KidItems(KidsFrom(kids, i + 1));
    PutThen(kids, i, x, if same then ComparedItems(rest, wanted.next, caseSensitive) else rest, NoMember);
    assert KidItems(KidsFrom(kids, i)) == Item(v, rest);
    ThenAll(put, i + 1);
  }

  lemma ItemsEnd(kids: Kids, i: nat, wanted: Items, caseSensitive: bool)
    requires i <= KidCount(kids) && (i == KidCount(kids) || wanted.NoItem?)
    ensures ItemsThen(kids, i, ComparedItems(KidItems(KidsFrom(kids, i)), wanted, caseSensitive)) == KidItems(kids)
    ensures CompareItems(KidItems(KidsFrom(kids, i)), wanted, caseSensitive) == (i == KidCount(kids) && wanted.NoItem?)
  {
    ThenAll(kids, i);
    FromEnd(kids, i);
  }

  lemma {:induction false} FromEnd(kids: Kids, i: nat)
    requires i <= KidCount(kids)
    ensures KidsFrom(kids, i).NoKid? <==> i == KidCount(kids)
    decreases kids
  {
    if i > 0 { FromEnd(kids.next, i - 1); }
  }

  method CompareObject(node: TreeNode, members: Members, caseSensitive: bool, ghost b: Branch) returns (equal: bool, ghost c: Branch)
    requires Owns(b) && node == b.node && b.tag.ObjectTag?
    modifies NodesOf(b)
    ensures Owns(c) && Kept(b, c)
    ensures var a, w := SortMembers(KidMembers(b.kids), caseSensitive), SortMembers(members, caseSensitive);
      && KidMembers(c.kids) == ComparedMembers(a, w, caseSensitive)
      && equal == CompareMembers(a, w, caseSensitive)
    ensures Resorted(b, c)
    ensures node.key == old(node.key) && node.next == old(node.next) && node.prev == old(node.prev)
    decreases MembersSize(members), 4
  {
    hide Owns, Kept, Compared, CompareJson, ComparedMembers, CompareMembers, SortMembers, Resorted;
    ghost var sorted := SortObject(node, caseSensitive, b);
    SortedKept(b, sorted, caseSensitive);
    KeptFacts(b, sorted);
    equal, c := CompareSorted(node, SortMembers(members, caseSensitive), caseSensitive, b, sorted);
    StillResorted(b, sorted, c);
  }

  /** The loop over two sorted objects. */
  method CompareSorted(node: TreeNode, members: Members, caseSensitive: bool, ghost b: Branch, ghost sorted: Branch)
      returns (equal: bool, ghost c: Branch)
    requires Owns(sorted) && Kept(b, sorted) && node == sorted.node
    modifies NodesOf(sorted)
    ensures Owns(c) && Kept(b, c) && SameHeads(sorted, c)
    ensures KidMembers(c.kids) == ComparedMembers(KidMembers(sorted.kids), members, caseSensitive)
    ensures equal == CompareMembers(KidMembers(sorted.kids), members, caseSensitive)
    ensures node.key == old(node.key) && node.next == old(node.next) && node.prev == old(node.prev)
    decreases MembersSize(members), 3
  {
    hide Owns, Kept, Compared, CompareJson, CompareStrings, ComparedMembers, CompareMembers, KidAt, NodeAt, PutKid, KidsFrom, MembersThen;
    c := sorted;
    KeptFacts(b, sorted);
    TopLinks(c);
    var current, wanted := node.child, members;
    ghost var i := 0;
    StartMembers(c.kids, ComparedMembers(KidMembers(c.kids), members, caseSensitive));
    while current != null && wanted.Member?
      invariant Owns(c) && Kept(b, c) && i <= KidCount(c.kids) && current == NodeAt(c.kids, i)
      invariant SameHeads(sorted, c)
      invariant MembersSize(wanted) <= MembersSize(members)
      invariant MembersThen(c.kids, i, ComparedMembers(KidMembers(KidsFrom(c.kids, i)), wanted, caseSensitive))
             == ComparedMembers(KidMembers(sorted.kids), members, caseSensitive)
      invariant CompareMembers(KidMembers(KidsFrom(c.kids, i)), wanted, caseSensitive)
             == CompareMembers(KidMembers(sorted.kids), members, caseSensitive)
      invariant node.key == old(node.key) && node.next == old(node.next) && node.prev == old(node.prev)
      decreases wanted
    {
      AtOrNull(c.kids, i);
      KeptFacts(b, c);
      KidLinks(c, i);
      if CompareStrings(current.key, wanted.key, caseSensitive) != 0 {
        MemberMissing(c.kids, i, wanted, caseSensitive);
        return false, c;
      }
      var same;
      ghost var x;
      same, x := CompareKid(current, wanted.value, caseSensitive, b, c, i);
      MemberCompared(c.kids, i, x, wanted, caseSensitive);
      c := c.(kids := PutKid(c.kids, i, x));
      if !same { return false, c; }
      current, wanted, i := current.next, wanted.next, i + 1;
    }
    AtOrNull(c.kids, i);
    MembersEnd(c.kids, i, wanted, caseSensitive);
    equal := current == null && wanted.NoMember?;
  }

  lemma StartMembers(kids: Kids, members: Members)
    ensures KidsFrom(kids, 0) == kids && MembersThen(kids, 0, members) == members
  {
  }

  lemma SortedKept(b: Branch, c: Branch, caseSensitive: bool)
    requires SortedFrom(b, c, caseSensitive)
    ensures Kept(b, c) && Resorted(b, c)
  {
  }

  lemma MemberMissing(kids: Kids, i: nat, wanted: Members, caseSensitive: bool)
    requires i < KidCount(kids) && wanted.Member? && CompareStrings(KeyAt(kids, i), wanted.key, caseSensitive) != 0
    ensures MembersThen(kids, i, ComparedMembers(KidMembers(KidsFrom(kids, i)), wanted, caseSensitive)) == KidMembers(kids)
    ensures !CompareMembers(KidMembers(KidsFrom(kids, i)), wanted, caseSensitive)
  {
    PutThen(kids, i, KidAt(kids, i), NoItem, NoMember);
    ThenAll(kids, i);
  }

  lemma MemberCompared(kids: Kids, i: nat, x: Branch, wanted: Members, caseSensitive: bool)
    requires i < KidCount(kids) && wanted.Member? && Value(x) == Compared(Value(KidAt(kids, i)), wanted.value, caseSensitive)
    requires CompareStrings(KeyAt(kids, i), wanted.key, caseSensitive) == 0
    ensures var put, v := PutKid(kids, i, x), Value(KidAt(kids, i));
      var whole := MembersThen(kids, i, ComparedMembers(KidMembers(KidsFrom(kids, i)), wanted, caseSensitive));
      && KidCount(put) == KidCount(kids) && NodeAt(put, i + 1) == NodeAt(kids, i + 1)
      && if CompareJson(v, wanted.value, caseSensitive) then
           && MembersThen(put, i + 1, ComparedMembers(KidMembers(KidsFrom(put, i + 1)), wanted.next, caseSensitive)) == whole
           && CompareMembers(KidMembers(KidsFrom(put, i + 1)), wanted.next, caseSensitive)
              == CompareMembers(KidMembers(KidsFrom(kids, i)), wanted, caseSensitive)
         else KidMembers(put) == whole && !CompareMembers(KidMembers(KidsFrom(kids, i)), wanted, caseSensitive)
  {
    hide Compared, CompareJson, CompareStrings, PutKid;
    var put, v := PutKid(kids, i, x), Value(KidAt(kids, i));
    var same := CompareJson(v, wanted.value, caseSensitive);
    var rest := KidMembers(KidsFrom(kids, i + 1));
    PutThen(kids, i, x, NoItem, if same then ComparedMembers(rest, wanted.next, caseSensitive) else rest);
    assert KidMembers(KidsFrom(kids, i)) == Member(KeyAt(kids, i), v, rest);
    ThenAll(put, i + 1);
  }

  lemma MembersEnd(kids: Kids, i: nat, wanted: Members, caseSensitive: bool)
    requires i <= KidCount(kids) && (i == KidCount(kids) || wanted.NoMember?)
    ensures MembersThen(kids, i, ComparedMembers(KidMembers(KidsFrom(kids, i)), wanted, caseSensitive)) == KidMembers(kids)
    ensures CompareMembers(KidMembers(KidsFrom(kids, i)), wanted, caseSensitive) == (i == KidCount(kids) && wanted.NoMember?)
  {
    ThenAll(kids, i);
    FromEnd(kids, i);
  }
}
