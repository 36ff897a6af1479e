/** merge_patch on linked nodes: members are detached, merged and added again in place. */
module KJsonMerger {
  import opened Octets
  import opened KJson
  import opened KJsonPatch
  import opened KJsonMerge
  import opened KJsonTree
  import opened KJsonLinks

  ghost function ValueOf(node: TreeNode?, b: Branch): Option<Json> {
    if node == null then None else Some(Value(b))
  }

  /** merge_patch, on a target without stray predecessors; NULL is a name that was not there. The nodes that are kept are
      the target's own, the others are new. */
  method MergeNodes(target: TreeNode?, patch: Json, caseSensitive: bool, ghost b: Branch) returns (merged: TreeNode, ghost c: Branch)
    requires target != null ==> Owns(b) && target == b.node && Tidy(b) && target.next == null && target.prev == null
    modifies if target == null then {} else NodesOf(b)
    ensures Owns(c) && merged == c.node && Tidy(c) && merged.next == null && merged.prev == null
    ensures fresh(NodesOf(c) - if target == null then {} else NodesOf(b))
    ensures Value(c) == MergePatch(ValueOf(target, b), patch, caseSensitive)
    decreases patch, 0
  {
    hide Wired, Apart, NodesOf, Tidy, KidMembers, KidItems;
    if !patch.Object? {
      merged, c := Build(patch);
      return;
    }
    merged, c := ObjectFor(target, b);
    var current := patch.members;
    ghost var base := KidMembers(c.kids);
    while current.Member?
      invariant Owns(c) && merged == c.node && c.tag.ObjectTag? && Tidy(c) && merged.next == null && merged.prev == null
      invariant fresh(NodesOf(c) - if target == null then {} else NodesOf(b))
      invariant MergeMembers(KidMembers(c.kids), current, caseSensitive) == MergeMembers(base, patch.members, caseSensitive)
      invariant patch.members nonincreases to current
      decreases current
    {
      c := MergeOne(merged, current.key, current.value, caseSensitive, c);
      assert allocated(NodesOf(c));
      current := current.next;
    }
  }

  /** The target, or a new object if the target is none. */
  method ObjectFor(target: TreeNode?, ghost b: Branch) returns (node: TreeNode, ghost c: Branch)
    requires target != null ==> Owns(b) && target == b.node && Tidy(b) && target.next == null && target.prev == null
    ensures Owns(c) && node == c.node && c.tag.ObjectTag? && Tidy(c) && node.next == null && node.prev == null
    ensures if target != null && b.tag.ObjectTag? then c == b else fresh(NodesOf(c))
    ensures KidMembers(c.kids) == if target != null && Value(b).Object? then Value(b).members else NoMember
  {
    if target != null {
      TopLinks(b);
      if target.tag.ObjectTag? { return target, b; }
    }
    node, c := NewNode(ObjectTag);
    OneNode(c);
  }

  /** One round of the loop. */
  method MergeOne(node: TreeNode, key: Text, value: Json, caseSensitive: bool, ghost c: Branch) returns (ghost d: Branch)
    requires Owns(c) && node == c.node && c.tag.ObjectTag? && Tidy(c)
    modifies NodesOf(c)
    ensures Owns(d) && d.node == c.node && d.tag.ObjectTag? && Tidy(d)
    ensures node.next == old(node.next) && node.prev == old(node.prev)
    ensures fresh(NodesOf(d) - NodesOf(c))
    ensures KidMembers(d.kids) == MergeMember(KidMembers(c.kids), key, value, caseSensitive)
    decreases value, 1
  {
    hide Wired, Apart, NodesOf, Tidy, KidMembers, KidItems, KidAt, FirstWhere, RemoveKid, InsertKid, RemoveMember, AddMember;
    ghost var at := FirstWhere(c.kids, Named(key, caseSensitive));
    ghost var rest := Cleared(c, key, caseSensitive);
    TidyCleared(c, key, caseSensitive);
    RemoveMemberIs(c.kids, key, caseSensitive);
    LookupIs(c.kids, key, caseSensitive);
    OneNode(rest);
    var item, stale := TakeMember(node, key, caseSensitive, c);
    d := rest;
    if !value.Null? {
      ghost var kid := if at.Some? then KidAt(c.kids, at.value) else c;
      assert allocated(NodesOf(rest)) && allocated(NodesOf(kid));
      var replacement;
      ghost var x;
      replacement, x := MergeNodes(item, value, caseSensitive, kid);
      OneNode(x);
      Rename(replacement, key, x);
      AppendIs(rest.kids, key, x);
      TidyWith(rest, key, x);
      LinkLast(node, replacement, rest, x);
      d := With(rest, KidCount(rest.kids), key, x);
      assert allocated(NodesOf(d));
    }
  }

  lemma TidyCleared(c: Branch, key: Text, caseSensitive: bool)
    requires Tidy(c)
    ensures !StrayInTheWay(c, key, caseSensitive) && Tidy(Cleared(c, key, caseSensitive))
    ensures FirstWhere(c.kids, Named(key, caseSensitive)).Some? ==>
      Tidy(KidAt(c.kids, FirstWhere(c.kids, Named(key, caseSensitive)).value))
    ensures StrayAt(c, FirstWhere(c.kids, Named(key, caseSensitive))) == {}
  {
    var at := FirstWhere(c.kids, Named(key, caseSensitive));
    if at.Some? { TidyKid(c.kids, at.value); }
  }

  lemma TidyWith(rest: Branch, key: Text, x: Branch)
    requires Tidy(rest) && Tidy(x)
    ensures Tidy(With(rest, KidCount(rest.kids), key, x))
  {
    TidyInsert(rest.kids, KidCount(rest.kids), key, x);
  }
}
