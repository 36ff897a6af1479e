/** apply_patch on linked nodes: what is detached, inserted and overwritten is one node among its neighbours, and the tree
    as a whole changes as KJsonPatch says. */
module KJsonDocument {
  import opened Octets
  import opened KJson
  import opened KJsonPatch
  import opened KJsonTree
  import opened KJsonLinks
  import opened KJsonCompare
  import opened KJsonStray
  import opened KJsonMeaning
  import opened KJsonDiff

  // ----- the value after an edit

  /** What detach_path takes out of a parent, and the parent without it. */
  ghost function Detached(parent: Json, child: Text): Option<(Json, Json)> {
    match parent
    case Array(items) =>
      var index := DecodeIndex(child);
      if index.None? || Nth(items, index.value).None? then None
      else Some((Nth(items, index.value).value, Array(RemoveNth(items, index.value))))
    case Object(members) =>
      var item := Lookup(members, child, false);
      if item.None? then None else Some((item.value, Object(RemoveMember(members, child, false))))
    case _ => None
  }

  lemma DetachedIs(p: Branch, child: Text)
    ensures var i := KidToDetach(p, child);
      Detached(Value(p), child)
      == if i.Some? then Some((Value(KidAt(p.kids, i.value)), Value(Without(p, i.value)))) else None
  {
    hide DecodeIndex, FirstWhere;
    var index := DecodeIndex(child);
    if p.tag.ArrayTag? && index.Some? {
      NthIs(p.kids, index.value);
      if index.value < KidCount(p.kids) { RemoveNthIs(p.kids, index.value); }
    }
    LookupIs(p.kids, child, false);
    RemoveMemberIs(p.kids, child, false);
  }

  lemma DetachPathIs(doc: Json, path: Text, caseSensitive: bool)
    ensures DetachPath(doc, path, caseSensitive) ==
      match LastSlash(path, |path|)
      case None => None
      case Some(k) =>
        var parent := Get(doc, path[..k], caseSensitive);
        if parent.None? then None
        else
          var r := Detached(parent.value, DecodeInPlace(path[k + 1..], 0, 0));
          if r.None? then None else Some((r.value.0, SetAt(doc, path[..k], r.value.1, caseSensitive)))
  {
    hide DecodeIndex, DecodeInPlace, Get, SetAt, LastSlash, Lookup, Nth, RemoveNth, RemoveMember;
  }

  /** Taking a kid out of the branch below a path is detach_path on the value. */
  lemma DetachIs(tree: Branch, path: Text, k: nat, caseSensitive: bool)
    requires LastSlash(path, |path|) == Some(k)
    ensures var at := Resolve(tree, path[..k], caseSensitive);
      at.None? ==> DetachPath(Value(tree), path, caseSensitive) == None
    ensures var at := Resolve(tree, path[..k], caseSensitive);
      at.Some? ==>
        var p := Below(tree, at.value).value;
        var i := KidToDetach(p, DecodeInPlace(path[k + 1..], 0, 0));
        DetachPath(Value(tree), path, caseSensitive)
        == if i.None? then None
           else Some((Value(KidAt(p.kids, i.value)), Value(PutBelow(tree, at.value, Without(p, i.value)))))
  {
    hide KidToDetach, DecodeInPlace, Get, SetAt, Resolve, Below, PutBelow, LastSlash, DetachPath, Detached, Without, Value;
    DetachPathIs(Value(tree), path, caseSensitive);
    GetIs(tree, path[..k], caseSensitive);
    var at := Resolve(tree, path[..k], caseSensitive);
    if at.Some? {
      var p, child := Below(tree, at.value).value, DecodeInPlace(path[k + 1..], 0, 0);
      DetachedIs(p, child);
      var i := KidToDetach(p, child);
      if i.Some? { PutIs(tree, path[..k], caseSensitive, Without(p, i.value)); }
    }
  }

  /** What the closing part of apply_patch makes of a parent. */
  ghost function AddedTo(parent: Json, child: Text, v: Json, caseSensitive: bool): (int, Json) {
    match parent
    case Array(items) =>
      if child == "-" then (0, Array(AppendItems(items, Item(v, NoItem))))
      else
        var index := DecodeIndex(child);
        if index.None? then (11, parent)
        else
          var more := InsertNth(items, index.value, v);
          if more.None? then (10, parent) else (0, Array(more.value))
    case Object(members) => (0, Object(AddMember(RemoveMember(members, child, caseSensitive), child, v)))
    case _ => (9, parent)
  }

  lemma AddedIs(p: Branch, child: Text, x: Branch, key: Text, caseSensitive: bool)
    ensures var (s, q) := WithAdded(p, child, x, key, caseSensitive);
      AddedTo(Value(p), child, Value(x), caseSensitive) == (s, Value(q))
  {
    hide DecodeIndex, FirstWhere, InsertNth, InsertKid, RemoveKid, RemoveMember, AddMember;
    if p.tag.ArrayTag? {
      AppendIs(p.kids, key, x);
      if DecodeIndex(child).Some? { InsertNthIs(p.kids, DecodeIndex(child).value, key, x); }
    } else if p.tag.ObjectTag? {
      RemoveMemberIs(p.kids, child, caseSensitive);
      AppendIs(Cleared(p, child, caseSensitive).kids, child, x);
    }
  }

  lemma AddAtIs(doc: Json, path: Text, v: Json, caseSensitive: bool)
    ensures AddAt(doc, path, v, caseSensitive) ==
      match LastSlash(path, |path|)
      case None => (9, doc)
      case Some(k) =>
        var parent := Get(doc, path[..k], caseSensitive);
        if parent.None? then (9, doc)
        else
          var (status, after) := AddedTo(parent.value, DecodeInPlace(path[k + 1..], 0, 0), v, caseSensitive);
          if status != 0 then (status, doc) else (0, SetAt(doc, path[..k], after, caseSensitive))
  {
    hide DecodeIndex, DecodeInPlace, Get, SetAt, LastSlash, InsertNth, RemoveMember, AddMember, AppendItems;
  }

  /** Adding to the branch below a path is the closing part of apply_patch on the value. */
  lemma AddIs(tree: Branch, path: Text, k: nat, x: Branch, key: Text, caseSensitive: bool)
    requires LastSlash(path, |path|) == Some(k)
    ensures var at := Resolve(tree, path[..k], caseSensitive);
      at.None? ==> AddAt(Value(tree), path, Value(x), caseSensitive) == (9, Value(tree))
    ensures var at := Resolve(tree, path[..k], caseSensitive);
      at.Some? ==>
        var (s, q) := WithAdded(Below(tree, at.value).value, DecodeInPlace(path[k + 1..], 0, 0), x, key, caseSensitive);
        AddAt(Value(tree), path, Value(x), caseSensitive)
        == (s, if s != 0 then Value(tree) else Value(PutBelow(tree, at.value, q)))
  {
    hide WithAdded, DecodeInPlace, Get, SetAt, Resolve, Below, PutBelow, LastSlash, AddAt, AddedTo, Value;
    AddAtIs(Value(tree), path, Value(x), caseSensitive);
    GetIs(tree, path[..k], caseSensitive);
    var at := Resolve(tree, path[..k], caseSensitive);
    if at.Some? {
      var p, child := Below(tree, at.value).value, DecodeInPlace(path[k + 1..], 0, 0);
      AddedIs(p, child, x, key, caseSensitive);
      PutIs(tree, path[..k], caseSensitive, WithAdded(p, child, x, key, caseSensitive).1);
    }
  }

  // ----- which patches meet a stray predecessor

  /** What detach_path takes out is the first kid of a parent whose kids have been left with a predecessor. */
  ghost predicate DetachStrays(tree: Branch, path: Text, caseSensitive: bool) {
    match LastSlash(path, |path|)
    case None => false
    case Some(k) =>
      match Resolve(tree, path[..k], caseSensitive)
      case None => false
      case Some(at) =>
        var p := Below(tree, at).value;
        p.before != null && KidToDetach(p, DecodeInPlace(path[k + 1..], 0, 0)) == Some(0)
  }

  /** The tree after detach_path. */
  ghost function AfterDetach(tree: Branch, path: Text, caseSensitive: bool): Branch {
    match LastSlash(path, |path|)
    case None => tree
    case Some(k) =>
      match Resolve(tree, path[..k], caseSensitive)
      case None => tree
      case Some(at) =>
        var p := Below(tree, at).value;
        var i := KidToDetach(p, DecodeInPlace(path[k + 1..], 0, 0));
        if i.None? then tree else PutBelow(tree, at, Without(p, i.value))
  }

  /** The member that the closing part of apply_patch deletes is such a kid. */
  ghost predicate InsertStrays(tree: Branch, path: Text, caseSensitive: bool) {
    match LastSlash(path, |path|)
    case None => false
    case Some(k) =>
      match Resolve(tree, path[..k], caseSensitive)
      case None => false
      case Some(at) => StrayInTheWay(Below(tree, at).value, DecodeInPlace(path[k + 1..], 0, 0), caseSensitive)
  }

  /** Either step of taking out at one path and putting in at another. */
  ghost predicate MoveStrays(tree: Branch, from: Text, path: Text, caseSensitive: bool) {
    || DetachStrays(tree, from, caseSensitive)
    || (DetachPath(Value(tree), from, caseSensitive).Some? && InsertStrays(AfterDetach(tree, from, caseSensitive), path, caseSensitive))
  }

  /** The patch comes to overwrite a stray's next. */
  ghost predicate Strays(tree: Branch, patch: Json, caseSensitive: bool) {
    match Field(patch, "path", caseSensitive)
    case Some(String(path)) =>
      (match DecodeOperation(patch, caseSensitive)
       case REMOVE => path != [] && DetachStrays(tree, path, caseSensitive)
       case REPLACE =>
         && path != []
         && if Field(patch, "value", caseSensitive).Some? then MoveStrays(tree, path, path, caseSensitive)
            else DetachStrays(tree, path, caseSensitive)
       case ADD => path != [] && Field(patch, "value", caseSensitive).Some? && InsertStrays(tree, path, caseSensitive)
       case MOVE =>
         var from := Field(patch, "from", caseSensitive);
         from.Some? && from.value.String? && MoveStrays(tree, from.value.valuestring, path, caseSensitive)
       case COPY =>
         var from := Field(patch, "from", caseSensitive);
         && from.Some? && from.value.String? && Get(Value(tree), from.value.valuestring, caseSensitive).Some?
         && InsertStrays(tree, path, caseSensitive)
       case _ => false)
    case _ => false
  }

  lemma TidyDetach(tree: Branch, at: seq<nat>, child: Text)
    requires Tidy(tree) && Below(tree, at).Some?
    ensures var p := Below(tree, at).value; var i := KidToDetach(p, child);
      p.before == null && (i.Some? ==> Tidy(PutBelow(tree, at, Without(p, i.value))) && Tidy(KidAt(p.kids, i.value)))
  {
    hide KidToDetach, Below, PutBelow;
    var p := Below(tree, at).value;
    var i := KidToDetach(p, child);
    TidyBelow(tree, at);
    if i.Some? {
      TidyKid(p.kids, i.value);
      TidyPut(tree, at, Without(p, i.value));
    }
  }

  /** The parent has been added to in place: h is the heap before. */
  lemma AddedInTree(h: Heap, tree: Branch, at: seq<nat>, child: Text, x: Branch, key: Text, caseSensitive: bool)
    requires Wired(h, tree) && Apart(tree) && Below(tree, at).Some? && NodesOf(x) !! NodesOf(tree)
    requires var p := Below(tree, at).value; var q := WithAdded(p, child, x, key, caseSensitive).1;
      && Owns(q) && NodesOf(q) <= NodesOf(p) + NodesOf(x)
      && Same(h, HeapOf(NodesOf(tree)), NodesOf(tree) - NodesOf(p))
      && q.node in h && q.node.key == h[q.node].key && q.node.next == h[q.node].next && q.node.prev == h[q.node].prev
    ensures var t := PutBelow(tree, at, WithAdded(Below(tree, at).value, child, x, key, caseSensitive).1);
      Owns(t) && t.node == tree.node && NodesOf(t) <= NodesOf(tree) + NodesOf(x) && Befores(t) <= Befores(tree) + Befores(x)
  {
    hide Owns, Wired, Apart, Below, PutBelow, NodesOf, Befores, WithAdded;
    var p := Below(tree, at).value;
    var q := WithAdded(p, child, x, key, caseSensitive).1;
    BelowNodes(tree, at);
    BelowBefores(tree, at);
    AddedBefores(p, child, x, key, caseSensitive);
    PutBefores(tree, at, q);
    PutOwns(h, tree, at, q);
  }

  lemma NothingAdded(h: Heap, before: Heap, tree: Branch, p: Branch)
    requires Wired(h, tree) && Apart(tree) && NodesOf(p) <= NodesOf(tree)
    requires HeapOf(NodesOf(p)) == before && (forall n | n in NodesOf(p) :: n in h && n in before && before[n] == h[n])
    requires Same(h, HeapOf(NodesOf(tree)), NodesOf(tree) - NodesOf(p))
    ensures Owns(tree)
  {
    hide Wired, Apart, NodesOf;
    forall n | n in NodesOf(p) ensures HeapOf(NodesOf(tree))[n] == h[n] {
      assert HeapOf(NodesOf(p))[n] == before[n];
    }
    OwnsStill(h, tree);
  }

  lemma TidyInserted(tree: Branch, at: seq<nat>, child: Text, x: Branch, key: Text, caseSensitive: bool)
    requires Tidy(tree) && Tidy(x) && Below(tree, at).Some?
    ensures var p := Below(tree, at).value;
      p.before == null && Tidy(PutBelow(tree, at, WithAdded(p, child, x, key, caseSensitive).1))
  {
    hide WithAdded, Below, PutBelow;
    var p := Below(tree, at).value;
    TidyBelow(tree, at);
    TidyAdded(p, child, x, key, caseSensitive);
    TidyPut(tree, at, WithAdded(p, child, x, key, caseSensitive).1);
  }

  lemma StrayIsBefore(p: Branch, at: Option<nat>)
    ensures StrayAt(p, at) <= Befores(p)
  {
  }

  // ----- the tree that patches are applied to

  class Document {
    const root: TreeNode
    ghost var tree: Branch
    /** Every node that has ever been in the tree. */
    ghost var all: set<TreeNode>

    /** Links below the root are those of a tree; first kids may have been left with a predecessor. */
    ghost predicate Valid()
      reads this, NodesOf(tree)
    {
      root == tree.node && Owns(tree) && NodesOf(tree) <= all && Befores(tree) <= all
    }

    ghost function Contents(): Json
      reads this
    {
      Value(tree)
    }

    constructor (value: Json)
      ensures Valid() && Contents() == value && fresh(all) && Tidy(tree)
    {
      var node, b := Build(value);
      TidyHasNone(b);
      root, tree, all := node, b, NodesOf(b);
    }

    /** Takes a kid out of the branch at a place. What is left is a tree, and so is the kid, exactly if no stray's next is
        overwritten with harm. */
    method TakeOut(parent: TreeNode, child: Text, ghost at: seq<nat>) returns (item: TreeNode?, stale: bool, ghost b: Branch)
      requires Valid() && Below(tree, at).Some? && parent == Below(tree, at).value.node
      modifies this, all
      ensures all == old(all) && tree.node == root
      ensures var p := Below(old(tree), at).value;
        match KidToDetach(p, child)
        case None => item == null && !stale && tree == old(tree)
        case Some(i) =>
          && b == KidAt(p.kids, i) && item == b.node && tree == PutBelow(old(tree), at, Without(p, i))
          && (stale <==> Stray(p, i) != null)
          && (Owns(tree) && Owns(b) <==> Calm(old(HeapOf(all)), old(tree), p, i))
          && HeapOf(all) == Unlinking(old(HeapOf(all)), parent, item)
      ensures !stale ==> Valid()
      ensures !stale && item != null ==>
        && item == b.node && Owns(b) && item.next == null && item.prev == null
        && NodesOf(b) !! NodesOf(tree) && NodesOf(b) + NodesOf(tree) <= old(NodesOf(tree)) && Befores(b) <= all
    {
      hide Owns, Wired, Apart, Below, PutBelow, NodesOf, KidAt, NodeAt, KidToDetach, Without, Befores, Unlinking;
      assert allocated(all);
      ghost var p, h := Below(tree, at).value, HeapOf(all);
      WiredIn(tree, all);
      OwnsBelow(tree, at);
      BelowBefores(tree, at);
      StrayIsBefore(p, KidToDetach(p, child));
      OneNode(p);
      item, stale := DetachFrom(parent, child, p, all);
      b := tree;
      if item == null {
        OwnsPart(tree, all);
      } else {
        ghost var i := KidToDetach(p, child).value;
        DetachedTrees(h, tree, at, i, all);
        b := KidAt(p.kids, i);
        tree := PutBelow(tree, at, Without(p, i));
      }
    }

    /** detach_path */
    method Detach(path: Text, caseSensitive: bool) returns (item: TreeNode?, stale: bool, ghost b: Branch)
      requires Valid()
      modifies this, all
      ensures all == old(all) && tree == AfterDetach(old(tree), path, caseSensitive)
      ensures stale <==> DetachStrays(old(tree), path, caseSensitive)
      ensures !stale ==> Valid()
      ensures !stale ==>
        match DetachPath(old(Contents()), path, caseSensitive)
        case None => item == null && tree == old(tree)
        case Some((v, rest)) => item != null && Value(b) == v && Contents() == rest
      ensures !stale && item != null ==>
        && item == b.node && Owns(b) && item.next == null && item.prev == null
        && NodesOf(b) !! NodesOf(tree) && NodesOf(b) + NodesOf(tree) <= old(NodesOf(tree)) && Befores(b) <= all
      ensures old(Tidy(tree)) ==> !stale && Tidy(tree) && (item != null ==> Tidy(b))
    {
      hide Owns, Below, PutBelow, NodesOf, Befores, Value, KidAt, KidToDetach, Without, DecodeInPlace, LastSlash, DetachPath, Tidy;
      item, stale, b := null, false, tree;
      DetachPathIs(Contents(), path, caseSensitive);
      var last := LastSlash(path, |path|);
      if last.None? { return; }
      DetachIs(tree, path, last.value, caseSensitive);
      assert allocated(NodesOf(tree)) && allocated(all);
      var parent := GetNode(root, path[..last.value], caseSensitive, tree);
      var child := DecodeInPlace(path[last.value + 1..], 0, 0);
      if parent != null {
        ghost var at := Resolve(tree, path[..last.value], caseSensitive).value;
        if Tidy(tree) { TidyDetach(tree, at, child); }
        item, stale, b := TakeOut(parent, child, at);
      }
    }

    /** Puts x under a name or index into the branch at a place. */
    method PutInto(parent: TreeNode, child: Text, value: TreeNode, caseSensitive: bool, ghost at: seq<nat>, ghost x: Branch)
        returns (status: int, stale: bool)
      requires Valid() && Below(tree, at).Some? && parent == Below(tree, at).value.node
      requires Owns(x) && value == x.node && NodesOf(x) !! NodesOf(tree) && value.next == null && value.prev == null
      requires NodesOf(x) <= all && Befores(x) <= all
      modifies this, all
      ensures stale <==> StrayInTheWay(Below(old(tree), at).value, child, caseSensitive)
      ensures all == old(all)
      ensures !stale ==>
        var (s, q) := WithAdded(Below(old(tree), at).value, child, x, old(value.key), caseSensitive);
        Valid() && status == s && tree == if s != 0 then old(tree) else PutBelow(old(tree), at, q)
    {
      hide Wired, Apart, Below, PutBelow, NodesOf, Befores, WithAdded, FirstWhere;
      assert allocated(NodesOf(tree)) && allocated(all);
      ghost var p, h := Below(tree, at).value, HeapOf(NodesOf(tree));
      OwnsBelow(tree, at);
      BelowBefores(tree, at);
      StrayIsBefore(p, FirstWhere(p.kids, Named(child, caseSensitive)));
      OneNode(p);
      OneNode(x);
      ghost var before, key := HeapOf(NodesOf(p)), value.key;
      status, stale := AddTo(parent, child, value, caseSensitive, p, x);
      if stale { return; }
      ghost var q := WithAdded(p, child, x, key, caseSensitive).1;
      if status != 0 {
        NothingAdded(h, before, tree, p);
      } else {
        AddedInTree(h, tree, at, child, x, key, caseSensitive);
        tree := PutBelow(tree, at, q);
      }
    }

    /** The closing part of apply_patch: the value goes to its path. */
    method Insert(path: Text, value: TreeNode, caseSensitive: bool, ghost x: Branch) returns (status: int, stale: bool)
      requires Valid()
      requires Owns(x) && value == x.node && NodesOf(x) !! NodesOf(tree) && value.next == null && value.prev == null
      requires Befores(x) <= all
      modifies this, all, NodesOf(x)
      ensures stale <==> InsertStrays(old(tree), path, caseSensitive)
      ensures all == old(all) + NodesOf(x)
      ensures !stale ==> Valid() && (status, Contents()) == AddAt(old(Contents()), path, Value(x), caseSensitive)
      ensures old(Tidy(tree)) && Tidy(x) ==> !stale && Tidy(tree)
    {
      hide Wired, Apart, Below, PutBelow, NodesOf, Befores, Value, WithAdded, DecodeInPlace, LastSlash, AddAt, Tidy;
      OneNode(x);
      AddAtIs(Contents(), path, Value(x), caseSensitive);
      all := all + NodesOf(x);
      var last := LastSlash(path, |path|);
      status, stale := 9, false;
      if last.Some? {
        AddIs(tree, path, last.value, x, value.key, caseSensitive);
        assert allocated(NodesOf(tree)) && allocated(NodesOf(x)) && allocated(all);
        var parent := GetNode(root, path[..last.value], caseSensitive, tree);
        var child := DecodeInPlace(path[last.value + 1..], 0, 0);
        if parent != null {
          ghost var at := Resolve(tree, path[..last.value], caseSensitive).value;
          if Tidy(tree) && Tidy(x) { TidyInserted(tree, at, child, x, value.key, caseSensitive); }
          status, stale := PutInto(parent, child, value, caseSensitive, at, x);
        }
      }
    }

    /** overwrite_item on the root: it becomes a copy of the value's node and takes over its children. */
    method Overwrite(value: TreeNode, ghost x: Branch)
      requires Valid()
      requires Owns(x) && value == x.node && NodesOf(x) !! NodesOf(tree) && Tidy(x)
      modifies this, root
      ensures Valid() && Contents() == Value(x) && Tidy(tree) && all == old(all) + NodesOf(x)
    {
      hide Chain, KidsApart, KidNodes, KidItems, KidMembers, KidsTidy, KidBefores;
      OneNode(tree);
      OneNode(x);
      TidyHasNone(x);
      assert allocated(NodesOf(x));
      ghost var h := HeapOf(NodesOf(x));
      root.tag, root.key, root.next, root.prev, root.child := value.tag, value.key, value.next, value.prev, value.child;
      tree, all := Branch(root, x.tag, x.kids, null), all + NodesOf(x);
      SameChain(h, HeapOf(NodesOf(tree)), null, x.kids);
    }

    /** get_item_from_pointer, with a copy of the value of the item that is found. */
    method ValueUnder(path: Text, caseSensitive: bool) returns (value: Option<Json>)
      requires Valid()
      ensures Valid() && value == Get(Contents(), path, caseSensitive)
    {
      hide Wired, Apart, Below, Value, Befores;
      GetIs(tree, path, caseSensitive);
      assert allocated(NodesOf(tree));
      var item := GetNode(root, path, caseSensitive, tree);
      if item == null { return None; }
      ghost var at := Resolve(tree, path, caseSensitive).value;
      OwnsBelow(tree, at);
      var found := Read(item, Below(tree, at).value);
      value := Some(found);
    }

    /** The branch of apply_patch for "test": compare_json on the item that is found, which sorts it in place. x is the item
        afterwards. */
    method Test(path: Text, wanted: Json, caseSensitive: bool) returns (equal: bool, ghost x: Branch)
      requires Valid()
      modifies this, all
      ensures Valid() && all == old(all)
      ensures match Get(old(Contents()), path, caseSensitive)
        case None => !equal && tree == old(tree)
        case Some(found) =>
          && equal == CompareJson(found, wanted, caseSensitive)
          && Contents() == SetAt(old(Contents()), path, Compared(found, wanted, caseSensitive), caseSensitive)
      ensures match Resolve(old(tree), path, caseSensitive)
        case None => true
        case Some(at) =>
          var q := Below(old(tree), at).value;
          && tree == PutBelow(old(tree), at, x) && Kept(q, x) && Value(x) == Compared(Value(q), wanted, caseSensitive)
          && (q.tag.ObjectTag? && wanted.Object? ==> Resorted(q, x))
    {
      hide Wired, Apart, Below, PutBelow, NodesOf, Befores, Value, Get, SetAt, Compared, CompareJson, Resorted;
      GetIs(tree, path, caseSensitive);
      assert allocated(NodesOf(tree)) && allocated(all);
      var item := GetNode(root, path, caseSensitive, tree);
      x := tree;
      if item == null { return false, tree; }
      ghost var at := Resolve(tree, path, caseSensitive).value;
      ghost var q, h := Below(tree, at).value, HeapOf(NodesOf(tree));
      OwnsBelow(tree, at);
      BelowBefores(tree, at);
      OneNode(q);
      equal, x := Compare(item, wanted, caseSensitive, q);
      PutIs(tree, path, caseSensitive, x);
      PutOwns(h, tree, at, x);
      PutBefores(tree, at, x);
      tree := PutBelow(tree, at, x);
    }

    /** The branch of apply_patch for a path that is the root. */
    method OverwriteRoot(value: Json)
      requires Valid()
      modifies this, root
      ensures Valid() && Contents() == value && Tidy(tree) && fresh(all - old(all))
    {
      assert allocated(NodesOf(tree)) && allocated(all);
      var node, x := Build(value);
      Overwrite(node, x);
    }

    /** Adding a copy of a value. */
    method InsertCopy(path: Text, value: Json, caseSensitive: bool) returns (status: int, stale: bool)
      requires Valid()
      modifies this, all
      ensures fresh(all - old(all))
      ensures stale <==> InsertStrays(old(tree), path, caseSensitive)
      ensures !stale ==> Valid() && (status, Contents()) == AddAt(old(Contents()), path, value, caseSensitive)
      ensures old(Tidy(tree)) ==> !stale && Tidy(tree)
    {
      hide AddAt, Tidy, InsertStrays;
      assert allocated(NodesOf(tree)) && allocated(all);
      var node, x := Build(value);
      TidyHasNone(x);
      status, stale := Insert(path, node, caseSensitive, x);
      assert allocated(all);
    }

    /** The branch of apply_patch for "move": the node itself goes to its new place. */
    method MoveTo(from: Text, path: Text, caseSensitive: bool) returns (status: int, stale: bool)
      requires Valid()
      modifies this, all
      ensures all == old(all)
      ensures stale <==> MoveStrays(old(tree), from, path, caseSensitive)
      ensures !stale ==> Valid()
      ensures !stale ==>
        (status, Contents()) == match DetachPath(old(Contents()), from, caseSensitive)
          case None => (5, old(Contents()))
          case Some((v, rest)) => AddAt(rest, path, v, caseSensitive)
      ensures old(Tidy(tree)) ==> !stale && Tidy(tree)
    {
      hide Owns, NodesOf, Befores, AddAt, DetachPath, Tidy, DetachStrays, InsertStrays, AfterDetach;
      var item;
      ghost var b;
      item, stale, b := Detach(from, caseSensitive);
      status := 5;
      if !stale && item != null {
        status, stale := Insert(path, item, caseSensitive, b);
      }
    }

    /** The branch of apply_patch for "move" and "copy". */
    method Transfer(patch: Json, path: Text, move: bool, caseSensitive: bool) returns (status: int, stale: bool)
      requires Valid()
      modifies this, all
      ensures fresh(all - old(all))
      ensures stale <==>
        var from := Field(patch, "from", caseSensitive);
        && from.Some? && from.value.String?
        && if move then MoveStrays(old(tree), from.value.valuestring, path, caseSensitive)
           else Get(old(Contents()), from.value.valuestring, caseSensitive).Some? && InsertStrays(old(tree), path, caseSensitive)
      ensures !stale ==> Valid()
      ensures !stale ==>
        (status, Contents()) == match Field(patch, "from", caseSensitive)
          case None => (4, old(Contents()))
          case Some(String(from)) =>
            if move then
              (match DetachPath(old(Contents()), from, caseSensitive)
               case None => (5, old(Contents()))
               case Some((v, rest)) => AddAt(rest, path, v, caseSensitive))
            else
              (match Get(old(Contents()), from, caseSensitive)
               case None => (5, old(Contents()))
               case Some(v) => AddAt(old(Contents()), path, v, caseSensitive))
          case Some(_) => (5, old(Contents()))
      ensures old(Tidy(tree)) ==> !stale && Tidy(tree)
    {
      hide Owns, NodesOf, Befores, Field, Get, DetachPath, AddAt, Value, Tidy, MoveStrays, InsertStrays;
      var from := Field(patch, "from", caseSensitive);
      if from.None? { return 4, false; }
      if !from.value.String? { return 5, false; }
      if move {
        status, stale := MoveTo(from.value.valuestring, path, caseSensitive);
        return;
      }
      var found := ValueUnder(from.value.valuestring, caseSensitive);
      if found.None? { return 5, false; }
      status, stale := InsertCopy(path, found.value, caseSensitive);
      assert allocated(all);
    }

    /** The branch of apply_patch for "add" and "replace" below the root; for "remove" it ends after the first step. */
    method Exchange(patch: Json, path: Text, opcode: Operation, caseSensitive: bool) returns (status: int, stale: bool)
      requires Valid() && (opcode == REMOVE || opcode == REPLACE || opcode == ADD)
      modifies this, all
      ensures fresh(all - old(all))
      ensures stale <==>
        if opcode == REMOVE || (opcode == REPLACE && Field(patch, "value", caseSensitive).None?)
        then DetachStrays(old(tree), path, caseSensitive)
        else if opcode == REPLACE then MoveStrays(old(tree), path, path, caseSensitive)
        else Field(patch, "value", caseSensitive).Some? && InsertStrays(old(tree), path, caseSensitive)
      ensures !stale ==> Valid()
      ensures !stale ==>
        var taken, value := DetachPath(old(Contents()), path, caseSensitive), Field(patch, "value", caseSensitive);
        (status, Contents()) ==
          if opcode != ADD && taken.None? then (13, old(Contents()))
          else if opcode == REMOVE then (0, taken.value.1)
          else
            var left := if opcode == ADD then old(Contents()) else taken.value.1;
            if value.None? then (7, left) else AddAt(left, path, value.value, caseSensitive)
      ensures old(Tidy(tree)) ==> !stale && Tidy(tree)
    {
      hide Owns, NodesOf, Befores, Field, DetachPath, AddAt, Value, Tidy, DetachStrays, InsertStrays, AfterDetach;
      stale := false;
      if opcode != ADD {
        var item;
        ghost var b;
        item, stale, b := Detach(path, caseSensitive);
        if stale { return 0, true; }
        if item == null { return 13, false; }
        if opcode == REMOVE { return 0, false; }
      }
      var value := Field(patch, "value", caseSensitive);
      if value.None? { return 7, false; }
      status, stale := InsertCopy(path, value.value, caseSensitive);
      assert allocated(all);
    }

    /** The branch of apply_patch for the root. */
    method ApplyAtRoot(patch: Json, opcode: Operation, caseSensitive: bool) returns (status: int)
      requires Valid() && (opcode == REMOVE || opcode == REPLACE || opcode == ADD)
      modifies this, all
      ensures Valid() && fresh(all - old(all)) && (old(Tidy(tree)) ==> Tidy(tree))
      ensures var value := Field(patch, "value", caseSensitive);
        (status, Contents()) ==
          if opcode == REMOVE then (0, Invalid) else if value.None? then (7, old(Contents())) else (0, value.value)
    {
      hide Owns, NodesOf, Befores, Field, Value, Tidy;
      OneNode(tree);
      if opcode == REMOVE {
        OverwriteRoot(Invalid);
        return 0;
      }
      var value := Field(patch, "value", caseSensitive);
      if value.None? { return 7; }
      OverwriteRoot(value.value);
      status := 0;
    }

    /** The operations that change the tree. */
    method Change(patch: Json, path: Text, caseSensitive: bool) returns (status: int, stale: bool)
      requires Valid() && Field(patch, "path", caseSensitive) == Some(String(path))
      requires DecodeOperation(patch, caseSensitive) != INVALID && DecodeOperation(patch, caseSensitive) != TEST
      modifies this, all
      ensures fresh(all - old(all))
      ensures stale <==> Strays(old(tree), patch, caseSensitive)
      ensures !stale ==> Valid()
      ensures !stale ==> (status, Contents()) == ApplyAt(old(Contents()), patch, path, caseSensitive)
      ensures old(Tidy(tree)) ==> !stale && Tidy(tree)
    {
      hide Owns, NodesOf, Befores, Field, Get, SetAt, DetachPath, AddAt, CompareJson, Compared, DecodeOperation, Value, Tidy;
      hide MoveStrays, InsertStrays, DetachStrays;
      var opcode := DecodeOperation(patch, caseSensitive);
      stale := false;
      if path == [] && (opcode == REMOVE || opcode == REPLACE || opcode == ADD) {
        status := ApplyAtRoot(patch, opcode, caseSensitive);
      } else if opcode == MOVE || opcode == COPY {
        status, stale := Transfer(patch, path, opcode == MOVE, caseSensitive);
      } else {
        status, stale := Exchange(patch, path, opcode, caseSensitive);
      }
    }

    /** apply_patch. A stale result says that a stray's next was overwritten; the call is not followed any further then, and
        status means nothing. */
    method ApplyPatch(patch: Json, caseSensitive: bool) returns (status: int, stale: bool)
      requires Valid()
      modifies this, all
      ensures fresh(all - old(all))
      ensures stale <==> Strays(old(tree), patch, caseSensitive)
      ensures !stale ==> Valid()
      ensures !stale ==> (status, Contents()) == KJsonPatch.ApplyPatch(old(Contents()), patch, caseSensitive)
      ensures old(Tidy(tree)) ==> !stale
      ensures old(Tidy(tree)) && DecodeOperation(patch, caseSensitive) != TEST ==> Tidy(tree)
    {
      hide Owns, NodesOf, Befores, Field, Get, SetAt, DetachPath, AddAt, CompareJson, Compared, DecodeOperation, Value, Tidy;
      var pathItem := Field(patch, "path", caseSensitive);
      if pathItem.None? || !pathItem.value.String? { return 2, false; }
      var path := pathItem.value.valuestring;
      var opcode := DecodeOperation(patch, caseSensitive);
      if opcode == INVALID { return 3, false; }
      if opcode == TEST {
        var wanted := Field(patch, "value", caseSensitive);
        if wanted.None? { return 1, false; }
        var equal, _ := Test(path, wanted.value, caseSensitive);
        return if equal then 0 else 1, false;
      }
      hide ApplyAt, Strays;
      status, stale := Change(patch, path, caseSensitive);
    }

    /** kJSONUtils_ApplyPatches and its case-sensitive variant: stops at the first patch that fails. */
    method ApplyPatches(patches: Json, caseSensitive: bool) returns (status: int, stale: bool)
      requires Valid()
      modifies this, all
      ensures fresh(all - old(all))
      ensures !stale ==> Valid() && (status, Contents()) == KJsonPatch.ApplyPatches(old(Contents()), patches, caseSensitive)
      ensures old(Tidy(tree)) && (patches.Array? ==> NoTests(patches.items, caseSensitive)) ==> !stale && Tidy(tree)
    {
      hide KJsonPatch.ApplyPatch, Owns, NodesOf, Befores, Value, Tidy, Strays;
      if !patches.Array? { return 1, false; }
      var current := patches.items;
      while current.Item?
        invariant Valid() && fresh(all - old(all))
        invariant ApplyAll(Contents(), current, caseSensitive) == ApplyAll(old(Contents()), patches.items, caseSensitive)
        invariant old(Tidy(tree)) && NoTests(patches.items, caseSensitive) ==> Tidy(tree) && NoTests(current, caseSensitive)
        decreases current
      {
        status, stale := ApplyPatch(current.value, caseSensitive);
        if stale || status != 0 { return; }
        current := current.next;
      }
      status, stale := 0, false;
    }

    /** Patches generated between two values bring a tree that means the first to the second. */
    method Follow(from: Json, to: Json, generate: bool, apply: bool, memory: Memory) returns (status: int, stale: bool)
      requires Valid() && Tidy(tree)
      requires Clean(from) && Clean(to) && Clean(Contents()) && Meaning(Contents()) == Meaning(from)
      requires Comparable(Meaning(from), Meaning(to)) && (generate ==> Sortable(from, true))
      modifies this, all
      ensures !stale && Valid() && Tidy(tree)
      ensures status == 0 && Clean(Contents()) && Meaning(Contents()) == Meaning(to)
    {
      hide Owns, NodesOf, Befores, Value, Clean, Meaning, Comparable, Sortable, Tidy, Diff, KJsonPatch.ApplyPatches;
      DiffThenPatch(from, to, Contents(), generate, apply, memory);
      GeneratesNoTest([], from, to, generate, apply, memory);
      status, stale := ApplyPatches(GeneratePatches(from, to, generate, memory), apply);
    }
  }
}
