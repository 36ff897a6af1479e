/** Sorting leaves the first member of an object with a predecessor. When it is detached afterwards, the next pointer of
    that predecessor is overwritten: this is when the tree survives it. */
module KJsonStray {
  import opened Octets
  import opened KJsonPatch
  import opened KJsonTree
  import opened KJsonLinks

  // ----- adding

  lemma TidyAdded(p: Branch, child: Text, x: Branch, key: Text, caseSensitive: bool)
    requires Tidy(p) && Tidy(x)
    ensures Tidy(WithAdded(p, child, x, key, caseSensitive).1)
  {
    hide FirstWhere, DecodeIndex;
    match p.tag
    case ArrayTag =>
      TidyInsert(p.kids, KidCount(p.kids), key, x);
      if DecodeIndex(child).Some? && DecodeIndex(child).value <= KidCount(p.kids) {
        TidyInsert(p.kids, DecodeIndex(child).value, key, x);
      }
    case ObjectTag =>
      var at := FirstWhere(p.kids, Named(child, caseSensitive));
      if at.Some? { TidyKid(p.kids, at.value); }
      var q := Cleared(p, child, caseSensitive);
      TidyInsert(q.kids, KidCount(q.kids), child, x);
    case Leaf(_) =>
  }

  lemma AddedBefores(p: Branch, child: Text, x: Branch, key: Text, caseSensitive: bool)
    ensures Befores(WithAdded(p, child, x, key, caseSensitive).1) <= Befores(p) + Befores(x)
  {
    hide FirstWhere, DecodeIndex;
    match p.tag
    case ArrayTag =>
      InsertBefores(p.kids, KidCount(p.kids), key, x);
      if DecodeIndex(child).Some? && DecodeIndex(child).value <= KidCount(p.kids) {
        InsertBefores(p.kids, DecodeIndex(child).value, key, x);
      }
    case ObjectTag =>
      var at := FirstWhere(p.kids, Named(child, caseSensitive));
      if at.Some? { RemoveBefores(p.kids, at.value); }
      var q := Cleared(p, child, caseSensitive);
      InsertBefores(q.kids, KidCount(q.kids), child, x);
    case Leaf(_) =>
  }

  // ----- detaching

  /** Overwriting the stray's next does no harm: there is none, it is not among the kids of the tree, or it has the right
      next already. */
  ghost predicate Calm(h: Heap, tree: Branch, p: Branch, i: nat) {
    var stray, c := Stray(p, i), NodeAt(p.kids, i);
    stray == null || stray == c || stray !in KidNodes(tree.kids) || stray !in h || c !in h || h[stray].next == h[c].next
  }

  lemma UnlinkingElsewhere(h: Heap, tree: Branch, p: Branch, i: nat)
    requires Wired(h, tree) && Wired(h, p) && Apart(p) && i < KidCount(p.kids)
    ensures Same(h, Mended(h, Unlinking(h, p.node, NodeAt(p.kids, i)), p, i), NodesOf(tree) - NodesOf(p))
  {
    hide Wired, Apart, NodesOf, NodeAt, KidCount;
    NeighboursIn(h, p, i);
    AllIn(h, tree);
  }

  lemma UnlinkingBecame(h: Heap, m: Heap, tree: Branch, p: Branch, i: nat)
    requires i < KidCount(p.kids) && p.node in h && Unlinked(h, m, p, i) && NodesOf(p) <= NodesOf(tree)
    requires Wired(m, Without(p, i)) && Apart(Without(p, i)) && NodesOf(Without(p, i)) <= NodesOf(p)
    requires Same(h, m, NodesOf(tree) - NodesOf(p)) && NodeAt(p.kids, i) != p.node && NodeAt(p.kids, i + 1) != p.node
    requires i > 0 ==> NodeAt(p.kids, i - 1) != p.node
    ensures Became(h, m, NodesOf(tree), p, Without(p, i))
  {
    hide Wired, Apart;
    assert p.node in NodesOf(p);
  }

  /** With the stray's next mended, the tree is wired whatever was overwritten. */
  lemma MendedWired(h: Heap, tree: Branch, at: seq<nat>, i: nat)
    requires Wired(h, tree) && Apart(tree) && Below(tree, at).Some? && i < KidCount(Below(tree, at).value.kids)
    ensures var p := Below(tree, at).value;
      var m, t, kid := Mended(h, Unlinking(h, p.node, NodeAt(p.kids, i)), p, i), PutBelow(tree, at, Without(p, i)), KidAt(p.kids, i);
      && Wired(m, t) && Apart(t) && t.node == tree.node && Wired(m, kid) && Apart(kid)
      && NodesOf(t) == NodesOf(tree) - NodesOf(kid) && NodesOf(kid) <= NodesOf(tree)
  {
    hide Wired, Apart, NodesOf, Unlinking, Mended, Without, Unlinked, NodeAt, Below, PutBelow;
    var p := Below(tree, at).value;
    var m := Mended(h, Unlinking(h, p.node, NodeAt(p.kids, i)), p, i);
    BelowNodes(tree, at);
    BelowWired(h, tree, at);
    NeighboursIn(h, p, i);
    UnlinkingIs(h, p, i);
    UnlinkedRest(h, m, p, i);
    UnlinkedKid(h, m, p, i);
    UnlinkingElsewhere(h, tree, p, i);
    UnlinkingBecame(h, m, tree, p, i);
    PutWired(h, m, tree, at, Without(p, i));
    BecameWired(h, m, NodesOf(tree), tree, PutBelow(tree, at, Without(p, i)));
  }

  lemma BecameWired(h: Heap, g: Heap, whole: set<TreeNode>, sub: Branch, x: Branch)
    requires Became(h, g, whole, sub, x)
    ensures Wired(g, x) && Apart(x) && x.node == sub.node
  {
  }

  /** The stray's next after detaching. */
  lemma StrayOverwritten(h: Heap, p: Branch, i: nat)
    requires Wired(h, p) && Apart(p) && i < KidCount(p.kids)
    ensures var g, stray, c := Unlinking(h, p.node, NodeAt(p.kids, i)), Stray(p, i), NodeAt(p.kids, i);
      var m := Mended(h, g, p, i);
      && c in h && g.Keys == h.Keys == m.Keys
      && (forall n | n in h && n != stray :: m[n] == g[n])
      && (stray == null || stray == c || stray !in h ==> m == g)
      && (stray != null && stray != c && stray in h ==>
            && g[stray].next == h[c].next && m[stray] == g[stray].(next := h[stray].next)
            && (h[stray].next == h[c].next ==> m == g))
  {
    hide Wired, Apart, NodesOf, NodeAt, KidCount;
    NeighboursIn(h, p, i);
  }

  /** After detaching a kid anywhere in a tree, what is left is a tree and the kid is one, exactly if overwriting the
      stray's next does no harm. */
  lemma DetachKeepsTreesIff(h: Heap, tree: Branch, at: seq<nat>, i: nat)
    requires Wired(h, tree) && Apart(tree) && Below(tree, at).Some? && i < KidCount(Below(tree, at).value.kids)
    ensures var p := Below(tree, at).value;
      var g, t, kid := Unlinking(h, p.node, NodeAt(p.kids, i)), PutBelow(tree, at, Without(p, i)), KidAt(p.kids, i);
      && (Wired(g, t) && Wired(g, kid) <==> Calm(h, tree, p, i))
      && Apart(t) && t.node == tree.node && Apart(kid)
      && NodesOf(t) == NodesOf(tree) - NodesOf(kid) && NodesOf(kid) <= NodesOf(tree)
  {
    hide Wired, Unlinking, Mended, Without, Below, PutBelow, KidsApart;
    var p := Below(tree, at).value;
    var g, t, kid := Unlinking(h, p.node, NodeAt(p.kids, i)), PutBelow(tree, at, Without(p, i)), KidAt(p.kids, i);
    var m, stray := Mended(h, g, p, i), Stray(p, i);
    MendedWired(h, tree, at, i);
    BelowNodes(tree, at);
    BelowWired(h, tree, at);
    StrayOverwritten(h, p, i);
    AllIn(h, tree);
    if Calm(h, tree, p, i) {
      if m != g {
        HarmlessOutside(m, g, t, stray);
        HarmlessOutside(m, g, kid, stray);
      }
    } else if Wired(g, t) && Wired(g, kid) {
      if stray in NodesOf(t) {
        NextAgrees(g, m, t, stray);
      } else {
        NextAgrees(g, m, kid, stray);
      }
    }
  }

  /** Changing the next of a node that is no kid of a tree leaves the tree wired. */
  lemma HarmlessOutside(m: Heap, g: Heap, b: Branch, stray: TreeNode?)
    requires Wired(m, b) && g.Keys == m.Keys && stray !in KidNodes(b.kids)
    requires forall n | n in m && n != stray :: m[n] == g[n]
    requires stray != null && stray in m ==> m[stray] == g[stray].(next := m[stray].next)
    ensures Wired(g, b)
  {
    AllIn(m, b);
    MovedWired(m, g, b);
  }

  lemma OwnsIff(b: Branch, nodes: set<TreeNode>)
    requires NodesOf(b) <= nodes && Apart(b)
    ensures Owns(b) <==> Wired(HeapOf(nodes), b)
  {
    if Owns(b) { WiredIn(b, nodes); }
    if Wired(HeapOf(nodes), b) { OwnsPart(b, nodes); }
  }

  /** The same for the nodes themselves; h is the heap before. */
  lemma DetachedTrees(h: Heap, tree: Branch, at: seq<nat>, i: nat, all: set<TreeNode>)
    requires Wired(h, tree) && Apart(tree) && Below(tree, at).Some? && i < KidCount(Below(tree, at).value.kids)
    requires NodesOf(tree) <= all
    requires var p := Below(tree, at).value; HeapOf(all) == Unlinking(h, p.node, NodeAt(p.kids, i))
    ensures var p := Below(tree, at).value;
      var t, kid := PutBelow(tree, at, Without(p, i)), KidAt(p.kids, i);
      && (Owns(t) && Owns(kid) <==> Calm(h, tree, p, i))
      && t.node == tree.node && NodesOf(t) == NodesOf(tree) - NodesOf(kid) && NodesOf(kid) <= NodesOf(tree)
      && Befores(t) <= Befores(tree) && Befores(kid) <= Befores(tree)
  {
    hide Wired, Apart, Unlinking, NodesOf, Below, PutBelow, Calm, Owns;
    var p := Below(tree, at).value;
    DetachKeepsTreesIff(h, tree, at, i);
    OwnsIff(PutBelow(tree, at, Without(p, i)), all);
    OwnsIff(KidAt(p.kids, i), all);
    BelowBefores(tree, at);
    RemoveBefores(p.kids, i);
    PutBefores(tree, at, Without(p, i));
  }

  // ----- circles

  /** A set of nodes that following next never leaves. */
  ghost predicate Circular(first: TreeNode?, circle: set<TreeNode>)
    reads circle
  {
    first in circle && forall n | n in circle :: n.next in circle
  }

  /** No tree has a circle below its top node. */
  lemma CircleIsNoTree(b: Branch, circle: set<TreeNode>)
    requires Owns(b)
    ensures !Circular(b.node.child, circle)
  {
    if Circular(b.node.child, circle) {
      StaysInCircle(b, circle, KidCount(b.kids));
    }
  }

  lemma {:induction false} StaysInCircle(b: Branch, circle: set<TreeNode>, i: nat)
    requires Owns(b) && Circular(b.node.child, circle) && i <= KidCount(b.kids)
    ensures NodeAt(b.kids, i) in circle
  {
    TopLinks(b);
    if i > 0 {
      StaysInCircle(b, circle, i - 1);
      KidLinks(b, i - 1);
    }
  }
}
