/** kJSON trees as linked nodes. A branch says which nodes hang where; it is ghost, what runs has only the links. */
module KJsonTree {
  import opened Octets
  import opened KJson
  import opened KJsonStrings
  import opened KJsonPatch

  type Scalar = j: Json | !j.Array? && !j.Object? witness Null

  /** The type tag of a node, with what a node without children holds. */
  datatype Tag = Leaf(value: Scalar) | ArrayTag | ObjectTag

  class TreeNode {
    var tag: Tag
    var key: Text
    var next: TreeNode?
    var prev: TreeNode?
    var child: TreeNode?

    constructor (tag: Tag)
      ensures this.tag == tag && key == [] && next == null && prev == null && child == null
    {
      this.tag, key, next, prev, child := tag, [], null, null, null;
    }
  }

  /** `before` is what the first kid's prev holds: null, unless the kids have been sorted. */
  datatype Branch = Branch(node: TreeNode, tag: Tag, kids: Kids, before: TreeNode?)

  datatype Kids = NoKid | Kid(key: Text, branch: Branch, next: Kids)

  // ----- what a branch stands for

  ghost function Value(b: Branch): Json {
    match b.tag
    case Leaf(v) => v
    case ArrayTag => Array(KidItems(b.kids))
    case ObjectTag => Object(KidMembers(b.kids))
  }

  ghost function KidItems(kids: Kids): Items {
    match kids
    case NoKid => NoItem
    case Kid(_, b, next) => Item(Value(b), KidItems(next))
  }

  ghost function KidMembers(kids: Kids): Members {
    match kids
    case NoKid => NoMember
    case Kid(key, b, next) => Member(key, Value(b), KidMembers(next))
  }

  ghost function NodesOf(b: Branch): set<TreeNode> {
    {b.node} + KidNodes(b.kids)
  }

  ghost function KidNodes(kids: Kids): set<TreeNode> {
    match kids
    case NoKid => {}
    case Kid(_, b, next) => NodesOf(b) + KidNodes(next)
  }

  /** No node occurs twice. */
  ghost predicate Apart(b: Branch) {
    b.node !in KidNodes(b.kids) && KidsApart(b.kids)
  }

  ghost predicate KidsApart(kids: Kids) {
    kids.Kid? ==> Apart(kids.branch) && KidsApart(kids.next) && NodesOf(kids.branch) !! KidNodes(kids.next)
  }

  /** No list of kids has been left with a predecessor in front. */
  ghost predicate Tidy(b: Branch) {
    b.before == null && KidsTidy(b.kids)
  }

  ghost predicate KidsTidy(kids: Kids) {
    kids.Kid? ==> Tidy(kids.branch) && KidsTidy(kids.next)
  }

  /** The nodes that first kids point back at. */
  ghost function Befores(b: Branch): set<TreeNode> {
    (if b.before == null then {} else {b.before}) + KidBefores(b.kids)
  }

  ghost function KidBefores(kids: Kids): set<TreeNode> {
    match kids
    case NoKid => {}
    case Kid(_, b, next) => Befores(b) + KidBefores(next)
  }

  // ----- kids by position

  ghost function KidCount(kids: Kids): nat {
    if kids.NoKid? then 0 else 1 + KidCount(kids.next)
  }

  ghost function KidAt(kids: Kids, i: nat): (b: Branch)
    requires i < KidCount(kids)
    ensures b < kids
  {
    if i == 0 then kids.branch else KidAt(kids.next, i - 1)
  }

  ghost function NodeAt(kids: Kids, i: nat): (n: TreeNode?)
    ensures n == if i < KidCount(kids) then KidAt(kids, i).node else null
    ensures n != null ==> n in KidNodes(kids)
  {
    if kids.NoKid? then null else if i == 0 then kids.branch.node else NodeAt(kids.next, i - 1)
  }

  ghost function First(kids: Kids): TreeNode? {
    if kids.NoKid? then null else kids.branch.node
  }

  ghost function PutKid(kids: Kids, i: nat, b: Branch): Kids
    requires i < KidCount(kids)
  {
    if i == 0 then kids.(branch := b) else kids.(next := PutKid(kids.next, i - 1, b))
  }

  ghost function RemoveKid(kids: Kids, i: nat): Kids
    requires i < KidCount(kids)
  {
    if i == 0 then kids.next else kids.(next := RemoveKid(kids.next, i - 1))
  }

  ghost function InsertKid(kids: Kids, i: nat, key: Text, b: Branch): Kids
    requires i <= KidCount(kids)
  {
    if i == 0 then Kid(key, b, kids) else kids.(next := InsertKid(kids.next, i - 1, key, b))
  }

  ghost function Without(b: Branch, i: nat): (r: Branch)
    requires i < KidCount(b.kids)
    ensures r.node == b.node
  {
    b.(kids := RemoveKid(b.kids, i))
  }

  ghost function With(b: Branch, i: nat, key: Text, x: Branch): (r: Branch)
    requires i <= KidCount(b.kids)
    ensures r.node == b.node
  {
    b.(kids := InsertKid(b.kids, i, key, x), before := if b.kids.NoKid? then null else b.before)
  }

  // ----- branches by position

  /** The branch reached by going down through kids at these positions. */
  ghost function Below(b: Branch, path: seq<nat>): Option<Branch>
    decreases path
  {
    if path == [] then Some(b)
    else if path[0] < KidCount(b.kids) then Below(KidAt(b.kids, path[0]), path[1..])
    else None
  }

  ghost function PutBelow(b: Branch, path: seq<nat>, x: Branch): Branch
    requires Below(b, path).Some?
    decreases path
  {
    if path == [] then x
    else b.(kids := PutKid(b.kids, path[0], PutBelow(KidAt(b.kids, path[0]), path[1..], x)))
  }

  // ----- the links

  datatype Links = Links(tag: Tag, key: Text, next: TreeNode?, prev: TreeNode?, child: TreeNode?)

  type Heap = map<TreeNode, Links>

  ghost function HeapOf(nodes: set<TreeNode>): Heap
    reads nodes
  {
    map n | n in nodes :: Links(n.tag, n.key, n.next, n.prev, n.child)
  }

  /** The nodes are linked as the branch says. */
  ghost predicate Wired(h: Heap, b: Branch)
    decreases b
  {
    && b.node in h
    && h[b.node].tag == b.tag
    && h[b.node].child == First(b.kids)
    && (b.tag.Leaf? ==> b.kids.NoKid?)
    && Chain(h, b.before, b.kids)
  }

  ghost predicate Chain(h: Heap, before: TreeNode?, kids: Kids)
    decreases kids
  {
    match kids
    case NoKid => true
    case Kid(key, b, next) =>
      && Wired(h, b)
      && h[b.node].key == key
      && h[b.node].prev == before
      && h[b.node].next == First(next)
      && Chain(h, b.node, next)
  }

  ghost predicate Same(h: Heap, g: Heap, nodes: set<TreeNode>) {
    forall n | n in nodes :: n in h && n in g && g[n] == h[n]
  }

  lemma {:induction false} SameWired(h: Heap, g: Heap, b: Branch)
    requires Wired(h, b) && Same(h, g, NodesOf(b))
    ensures Wired(g, b)
    decreases b
  {
    SameChain(h, g, b.before, b.kids);
  }

  lemma {:induction false} SameChain(h: Heap, g: Heap, before: TreeNode?, kids: Kids)
    requires Chain(h, before, kids) && Same(h, g, KidNodes(kids))
    ensures Chain(g, before, kids)
    decreases kids
  {
    if kids.Kid? {
      SameWired(h, g, kids.branch);
      SameChain(h, g, kids.branch.node, kids.next);
    }
  }

  /** A node may get other neighbours. */
  lemma MovedWired(h: Heap, g: Heap, b: Branch)
    requires Wired(h, b) && Same(h, g, KidNodes(b.kids))
    requires b.node in g && g[b.node].tag == h[b.node].tag && g[b.node].child == h[b.node].child
    ensures Wired(g, b)
  {
    SameChain(h, g, b.before, b.kids);
  }

  /** The first kid gets another predecessor. */
  lemma Rehead(h: Heap, g: Heap, before: TreeNode?, after: TreeNode?, kids: Kids)
    requires Chain(h, before, kids) && KidsApart(kids)
    requires kids.Kid? ==> Same(h, g, KidNodes(kids) - {kids.branch.node})
    requires kids.Kid? ==>
      var n := kids.branch.node;
      n in h && n in g && g[n] == h[n].(prev := after)
    ensures Chain(g, after, kids)
  {
    if kids.Kid? {
      MovedWired(h, g, kids.branch);
      SameChain(h, g, kids.branch.node, kids.next);
    }
  }

  lemma {:induction false} KidAtNodes(kids: Kids, i: nat)
    requires i < KidCount(kids)
    ensures NodesOf(KidAt(kids, i)) <= KidNodes(kids)
    ensures KidsApart(kids) ==> Apart(KidAt(kids, i))
    decreases kids
  {
    if i > 0 { KidAtNodes(kids.next, i - 1); }
  }

  /** What the heap knows about the kid at a position. */
  lemma {:induction false} KidAtWired(h: Heap, before: TreeNode?, kids: Kids, i: nat)
    requires Chain(h, before, kids) && i < KidCount(kids)
    ensures Wired(h, KidAt(kids, i))
    ensures h[KidAt(kids, i).node].prev == (if i == 0 then before else NodeAt(kids, i - 1))
    ensures h[KidAt(kids, i).node].next == NodeAt(kids, i + 1)
    decreases kids
  {
    if i > 0 { KidAtWired(h, kids.branch.node, kids.next, i - 1); }
  }

  /** Two heaps that are wired alike agree on every next in the tree. */
  lemma {:induction false} NextAgrees(h: Heap, g: Heap, b: Branch, n: TreeNode)
    requires Wired(h, b) && Wired(g, b) && n in KidNodes(b.kids)
    ensures n in h && n in g && h[n].next == g[n].next
    decreases b
  {
    NextAgreesInKids(h, g, b.before, b.kids, n);
  }

  lemma {:induction false} NextAgreesInKids(h: Heap, g: Heap, before: TreeNode?, kids: Kids, n: TreeNode)
    requires Chain(h, before, kids) && Chain(g, before, kids) && n in KidNodes(kids)
    ensures n in h && n in g && h[n].next == g[n].next
    decreases kids
  {
    if n in KidNodes(kids.branch.kids) {
      NextAgrees(h, g, kids.branch, n);
    } else if n != kids.branch.node {
      NextAgreesInKids(h, g, kids.branch.node, kids.next, n);
    }
  }

  // ----- one branch changed

  /** From h to g the branch sub of a larger whole became x: what else there is stayed, and so did the neighbours of the
      topmost node. */
  ghost predicate Became(h: Heap, g: Heap, whole: set<TreeNode>, sub: Branch, x: Branch) {
    && Wired(g, x) && Apart(x) && x.node == sub.node
    && NodesOf(x) !! whole - NodesOf(sub)
    && Same(h, g, whole - NodesOf(sub))
    && x.node in h && g[x.node].key == h[x.node].key
    && g[x.node].next == h[x.node].next && g[x.node].prev == h[x.node].prev
  }

  lemma {:induction false} PutKidWired(h: Heap, g: Heap, before: TreeNode?, kids: Kids, i: nat, x: Branch)
    requires Chain(h, before, kids) && KidsApart(kids) && i < KidCount(kids)
    requires Became(h, g, KidNodes(kids), KidAt(kids, i), x)
    ensures Chain(g, before, PutKid(kids, i, x)) && KidsApart(PutKid(kids, i, x))
    ensures KidNodes(PutKid(kids, i, x)) == KidNodes(kids) - NodesOf(KidAt(kids, i)) + NodesOf(x)
    ensures First(PutKid(kids, i, x)) == First(kids)
    decreases kids
  {
    if i == 0 {
      SameChain(h, g, x.node, kids.next);
    } else {
      KidAtNodes(kids.next, i - 1);
      SameWired(h, g, kids.branch);
      PutKidWired(h, g, kids.branch.node, kids.next, i - 1, x);
    }
  }

  lemma BecameOneUp(h: Heap, g: Heap, b: Branch, i: nat, x: Branch)
    requires Wired(h, b) && Apart(b) && i < KidCount(b.kids) && Became(h, g, NodesOf(b), KidAt(b.kids, i), x)
    ensures Became(h, g, NodesOf(b), b, b.(kids := PutKid(b.kids, i, x)))
    ensures NodesOf(b.(kids := PutKid(b.kids, i, x))) == NodesOf(b) - NodesOf(KidAt(b.kids, i)) + NodesOf(x)
  {
    hide Chain;
    KidAtNodes(b.kids, i);
    PutKidWired(h, g, b.before, b.kids, i, x);
  }

  lemma BecameWithin(h: Heap, g: Heap, whole: set<TreeNode>, part: set<TreeNode>, sub: Branch, x: Branch)
    requires Became(h, g, whole, sub, x) && part <= whole
    ensures Became(h, g, part, sub, x)
  {
  }

  /** What grows or shrinks inside a branch changes the whole around it in the same way. */
  lemma BecameOutside(h: Heap, g: Heap, whole: set<TreeNode>, mid: Branch, sub: Branch, x: Branch, y: Branch)
    requires Became(h, g, whole, sub, x) && Became(h, g, NodesOf(mid), mid, y)
    requires NodesOf(sub) <= NodesOf(mid) <= whole && NodesOf(y) == NodesOf(mid) - NodesOf(sub) + NodesOf(x)
    ensures Became(h, g, whole, mid, y)
  {
  }

  /** Changing one branch in place keeps the whole tree wired. */
  lemma {:induction false} PutWired(h: Heap, g: Heap, b: Branch, path: seq<nat>, x: Branch)
    requires Wired(h, b) && Apart(b) && Below(b, path).Some? && Became(h, g, NodesOf(b), Below(b, path).value, x)
    ensures Became(h, g, NodesOf(b), b, PutBelow(b, path, x))
    ensures NodesOf(PutBelow(b, path, x)) == NodesOf(b) - NodesOf(Below(b, path).value) + NodesOf(x)
    decreases path
  {
    if path != [] {
      hide Wired, Apart, Became, NodesOf;
      var kid, sub := KidAt(b.kids, path[0]), Below(b, path).value;
      KidIn(h, b, path[0]);
      BelowNodes(kid, path[1..]);
      BecameWithin(h, g, NodesOf(b), NodesOf(kid), sub, x);
      PutWired(h, g, kid, path[1..], x);
      BecameOutside(h, g, NodesOf(b), kid, sub, x, PutBelow(kid, path[1..], x));
      BecameOneUp(h, g, b, path[0], PutBelow(kid, path[1..], x));
    } else {
      BecameTop(h, g, b, x);
    }
  }

  lemma BecameTop(h: Heap, g: Heap, b: Branch, x: Branch)
    requires Became(h, g, NodesOf(b), b, x)
    ensures NodesOf(x) == NodesOf(b) - NodesOf(b) + NodesOf(x)
  {
  }

  lemma KidIn(h: Heap, b: Branch, i: nat)
    requires Wired(h, b) && Apart(b) && i < KidCount(b.kids)
    ensures Wired(h, KidAt(b.kids, i)) && Apart(KidAt(b.kids, i)) && NodesOf(KidAt(b.kids, i)) <= NodesOf(b)
  {
    KidAtNodes(b.kids, i);
    KidAtWired(h, b.before, b.kids, i);
  }

  lemma {:induction false} BelowNodes(b: Branch, path: seq<nat>)
    requires Below(b, path).Some?
    ensures NodesOf(Below(b, path).value) <= NodesOf(b)
    ensures Apart(b) ==> Apart(Below(b, path).value)
    decreases path
  {
    if path != [] {
      KidAtNodes(b.kids, path[0]);
      BelowNodes(KidAt(b.kids, path[0]), path[1..]);
    }
  }

  lemma {:induction false} BelowWired(h: Heap, b: Branch, path: seq<nat>)
    requires Wired(h, b) && Below(b, path).Some?
    ensures Wired(h, Below(b, path).value)
    decreases path
  {
    if path != [] {
      KidAtWired(h, b.before, b.kids, path[0]);
      BelowWired(h, KidAt(b.kids, path[0]), path[1..]);
    }
  }

  // ----- a kid taken out

  /** The links after the kid at i has been taken out of a chain. */
  ghost predicate TakenOut(h: Heap, g: Heap, before: TreeNode?, kids: Kids, i: nat)
    requires i < KidCount(kids)
  {
    var p, q := if i == 0 then before else NodeAt(kids, i - 1), NodeAt(kids, i + 1);
    forall n | n in KidNodes(kids) - NodesOf(KidAt(kids, i)) ::
      && n in h && n in g
      && g[n] == if i > 0 && n == p then h[n].(next := q) else if n == q then h[n].(prev := p) else h[n]
  }

  lemma {:induction false} RemoveKidWired(h: Heap, g: Heap, before: TreeNode?, kids: Kids, i: nat)
    requires Chain(h, before, kids) && KidsApart(kids) && i < KidCount(kids)
    requires TakenOut(h, g, before, kids, i)
    ensures Chain(g, before, RemoveKid(kids, i)) && KidsApart(RemoveKid(kids, i))
    ensures KidNodes(RemoveKid(kids, i)) == KidNodes(kids) - NodesOf(KidAt(kids, i))
    ensures First(RemoveKid(kids, i)) == if i == 0 then NodeAt(kids, 1) else First(kids)
    decreases kids
  {
    if i == 0 {
      Rehead(h, g, kids.branch.node, before, kids.next);
    } else {
      KidAtNodes(kids.next, i - 1);
      MovedWired(h, g, kids.branch);
      RemoveKidWired(h, g, kids.branch.node, kids.next, i - 1);
    }
  }

  // ----- a kid put in

  ghost predicate Spliced(h: Heap, g: Heap, before: TreeNode?, kids: Kids, i: nat, n: TreeNode) {
    var p, q := if i == 0 then before else NodeAt(kids, i - 1), NodeAt(kids, i);
    && n in g && g[n].prev == p && g[n].next == q
    && forall m | m in KidNodes(kids) ::
      && m in h && m in g
      && g[m] == if i > 0 && m == p then h[m].(next := n) else if m == q then h[m].(prev := n) else h[m]
  }

  lemma {:induction false} InsertKidWired(h: Heap, g: Heap, before: TreeNode?, kids: Kids, i: nat, key: Text, x: Branch)
    requires Chain(h, before, kids) && KidsApart(kids) && i <= KidCount(kids)
    requires Wired(g, x) && Apart(x) && NodesOf(x) !! KidNodes(kids)
    requires Spliced(h, g, before, kids, i, x.node) && g[x.node].key == key
    ensures Chain(g, before, InsertKid(kids, i, key, x)) && KidsApart(InsertKid(kids, i, key, x))
    ensures KidNodes(InsertKid(kids, i, key, x)) == KidNodes(kids) + NodesOf(x)
    ensures First(InsertKid(kids, i, key, x)) == if i == 0 then x.node else First(kids)
    decreases kids
  {
    if i == 0 {
      Rehead(h, g, before, x.node, kids);
    } else {
      MovedWired(h, g, kids.branch);
      InsertKidWired(h, g, kids.branch.node, kids.next, i - 1, key, x);
    }
  }

  // ----- what first kids point back at

  lemma {:induction false} TidyKid(kids: Kids, i: nat)
    requires KidsTidy(kids) && i < KidCount(kids)
    ensures Tidy(KidAt(kids, i)) && KidsTidy(RemoveKid(kids, i))
    decreases kids
  {
    if i > 0 { TidyKid(kids.next, i - 1); }
  }

  lemma {:induction false} TidyInsert(kids: Kids, i: nat, key: Text, x: Branch)
    requires KidsTidy(kids) && Tidy(x) && i <= KidCount(kids)
    ensures KidsTidy(InsertKid(kids, i, key, x))
    decreases kids
  {
    if i > 0 { TidyInsert(kids.next, i - 1, key, x); }
  }

  lemma {:induction false} TidyPutKid(kids: Kids, i: nat, x: Branch)
    requires KidsTidy(kids) && Tidy(x) && i < KidCount(kids)
    ensures KidsTidy(PutKid(kids, i, x))
    decreases kids
  {
    if i > 0 { TidyPutKid(kids.next, i - 1, x); }
  }

  lemma {:induction false} TidyBelow(b: Branch, path: seq<nat>)
    requires Tidy(b) && Below(b, path).Some?
    ensures Tidy(Below(b, path).value)
    decreases path
  {
    if path != [] {
      TidyKid(b.kids, path[0]);
      TidyBelow(KidAt(b.kids, path[0]), path[1..]);
    }
  }

  lemma {:induction false} TidyPut(b: Branch, path: seq<nat>, x: Branch)
    requires Tidy(b) && Tidy(x) && Below(b, path).Some?
    ensures Tidy(PutBelow(b, path, x))
    decreases path
  {
    if path != [] {
      TidyKid(b.kids, path[0]);
      TidyPut(KidAt(b.kids, path[0]), path[1..], x);
      TidyPutKid(b.kids, path[0], PutBelow(KidAt(b.kids, path[0]), path[1..], x));
    }
  }

  lemma {:induction false} TidyHasNone(b: Branch)
    requires Tidy(b)
    ensures Befores(b) == {}
    decreases b
  {
    TidyKidsHaveNone(b.kids);
  }

  lemma {:induction false} TidyKidsHaveNone(kids: Kids)
    requires KidsTidy(kids)
    ensures KidBefores(kids) == {}
    decreases kids
  {
    if kids.Kid? {
      TidyHasNone(kids.branch);
      TidyKidsHaveNone(kids.next);
    }
  }

  lemma {:induction false} RemoveBefores(kids: Kids, i: nat)
    requires i < KidCount(kids)
    ensures KidBefores(RemoveKid(kids, i)) <= KidBefores(kids) && Befores(KidAt(kids, i)) <= KidBefores(kids)
    decreases kids
  {
    if i > 0 { RemoveBefores(kids.next, i - 1); }
  }

  lemma {:induction false} InsertBefores(kids: Kids, i: nat, key: Text, x: Branch)
    requires i <= KidCount(kids)
    ensures KidBefores(InsertKid(kids, i, key, x)) == KidBefores(kids) + Befores(x)
    decreases kids
  {
    if i > 0 { InsertBefores(kids.next, i - 1, key, x); }
  }

  lemma {:induction false} ReplaceBefores(kids: Kids, i: nat, x: Branch)
    requires i < KidCount(kids)
    ensures KidBefores(PutKid(kids, i, x)) <= KidBefores(kids) + Befores(x) && Befores(KidAt(kids, i)) <= KidBefores(kids)
    decreases kids
  {
    if i > 0 { ReplaceBefores(kids.next, i - 1, x); }
  }

  lemma {:induction false} BelowBefores(b: Branch, path: seq<nat>)
    requires Below(b, path).Some?
    ensures Befores(Below(b, path).value) <= Befores(b)
    decreases path
  {
    if path != [] {
      RemoveBefores(b.kids, path[0]);
      BelowBefores(KidAt(b.kids, path[0]), path[1..]);
    }
  }

  lemma {:induction false} PutBefores(b: Branch, path: seq<nat>, x: Branch)
    requires Below(b, path).Some?
    ensures Befores(PutBelow(b, path, x)) <= Befores(b) + Befores(x)
    decreases path
  {
    if path != [] {
      ReplaceBefores(b.kids, path[0], KidAt(b.kids, path[0]));
      PutBefores(KidAt(b.kids, path[0]), path[1..], x);
      ReplaceBefores(b.kids, path[0], PutBelow(KidAt(b.kids, path[0]), path[1..], x));
    }
  }

  // ----- positions and what the values at them are

  ghost function KeyAt(kids: Kids, i: nat): Text
    requires i < KidCount(kids)
  {
    if i == 0 then kids.key else KeyAt(kids.next, i - 1)
  }

  /** The first kid whose name is accepted. */
  ghost function FirstWhere(kids: Kids, accepted: Text -> bool): (r: Option<nat>)
    ensures r.Some? ==> r.value < KidCount(kids) && accepted(KeyAt(kids, r.value))
    ensures forall j | 0 <= j < if r.Some? then r.value else KidCount(kids) :: !accepted(KeyAt(kids, j))
  {
    if kids.NoKid? then None
    else if accepted(kids.key) then Some(0)
    else
      match FirstWhere(kids.next, accepted)
      case None => None
      case Some(i) => Some(i + 1)
  }

  ghost function Spelled(p: Text, caseSensitive: bool): Text -> bool {
    (key: Text) => MatchesToken(key, p, caseSensitive)
  }

  ghost function Named(name: Text, caseSensitive: bool): Text -> bool {
    (key: Text) => CompareStrings(name, key, caseSensitive) == 0
  }

  /** The position of the kid that the first token of p names. */
  ghost function KidIndex(b: Branch, p: Text, caseSensitive: bool): (r: Option<nat>)
    ensures r.Some? ==> r.value < KidCount(b.kids)
  {
    match b.tag
    case ArrayTag =>
      var index := DecodeIndex(p);
      if index.Some? && index.value < KidCount(b.kids) then index else None
    case ObjectTag => FirstWhere(b.kids, Spelled(p, caseSensitive))
    case Leaf(_) => None
  }

  /** The positions a pointer goes through. */
  ghost function Resolve(b: Branch, p: Text, caseSensitive: bool): (r: Option<seq<nat>>)
    ensures r.Some? ==> Below(b, r.value).Some?
    decreases |p|
  {
    if p == [] || p[0] != '/' then Some([])
    else
      match KidIndex(b, p[1..], caseSensitive)
      case None => None
      case Some(i) =>
        match Resolve(KidAt(b.kids, i), SkipToken(p[1..]), caseSensitive)
        case None => None
        case Some(rest) => assert ([i] + rest)[1..] == rest; Some([i] + rest)
  }

  lemma {:induction false} NthIs(kids: Kids, i: nat)
    ensures Nth(KidItems(kids), i) == if i < KidCount(kids) then Some(Value(KidAt(kids, i))) else None
    decreases kids
  {
    if kids.Kid? && i > 0 { NthIs(kids.next, i - 1); }
  }

  lemma {:induction false} TokenIs(kids: Kids, p: Text, caseSensitive: bool)
    ensures var at := FirstWhere(kids, Spelled(p, caseSensitive));
      FindToken(KidMembers(kids), p, caseSensitive) == if at.Some? then Some(Value(KidAt(kids, at.value))) else None
    decreases kids
  {
    if kids.Kid? { TokenIs(kids.next, p, caseSensitive); }
  }

  lemma {:induction false} LookupIs(kids: Kids, name: Text, caseSensitive: bool)
    ensures var at := FirstWhere(kids, Named(name, caseSensitive));
      Lookup(KidMembers(kids), name, caseSensitive) == if at.Some? then Some(Value(KidAt(kids, at.value))) else None
    decreases kids
  {
    if kids.Kid? { LookupIs(kids.next, name, caseSensitive); }
  }

  lemma ChildIs(b: Branch, p: Text, caseSensitive: bool)
    ensures var at := KidIndex(b, p, caseSensitive);
      Child(Value(b), p, caseSensitive) == if at.Some? then Some(Value(KidAt(b.kids, at.value))) else None
  {
    hide DecodeIndex, MatchesToken;
    if DecodeIndex(p).Some? { NthIs(b.kids, DecodeIndex(p).value); }
    TokenIs(b.kids, p, caseSensitive);
  }

  /** A pointer finds in the value what the links lead to. */
  lemma {:induction false} GetIs(b: Branch, p: Text, caseSensitive: bool)
    ensures var at := Resolve(b, p, caseSensitive);
      Get(Value(b), p, caseSensitive) == if at.Some? then Some(Value(Below(b, at.value).value)) else None
    decreases |p|
  {
    if p != [] && p[0] == '/' {
      hide Child, KidIndex, Value;
      ChildIs(b, p[1..], caseSensitive);
      var i := KidIndex(b, p[1..], caseSensitive);
      if i.Some? {
        GetIs(KidAt(b.kids, i.value), SkipToken(p[1..]), caseSensitive);
      }
    }
  }

  // ----- edits and what they do to the value

  lemma {:induction false} PutNthIs(kids: Kids, i: nat, x: Branch)
    requires i < KidCount(kids)
    ensures Nth(KidItems(kids), i).Some? && KidItems(PutKid(kids, i, x)) == SetNth(KidItems(kids), i, Value(x))
    decreases kids
  {
    if i > 0 { PutNthIs(kids.next, i - 1, x); }
  }

  lemma {:induction false} PutTokenIs(kids: Kids, p: Text, caseSensitive: bool, x: Branch)
    requires FirstWhere(kids, Spelled(p, caseSensitive)).Some?
    ensures FindToken(KidMembers(kids), p, caseSensitive).Some?
    ensures KidMembers(PutKid(kids, FirstWhere(kids, Spelled(p, caseSensitive)).value, x))
         == SetToken(KidMembers(kids), p, Value(x), caseSensitive)
    decreases kids
  {
    TokenIs(kids, p, caseSensitive);
    if !MatchesToken(kids.key, p, caseSensitive) { PutTokenIs(kids.next, p, caseSensitive, x); }
  }

  /** Changing the branch a pointer leads to changes the value as SetAt says. */
  lemma {:induction false} PutIs(b: Branch, p: Text, caseSensitive: bool, x: Branch)
    requires Resolve(b, p, caseSensitive).Some?
    ensures Get(Value(b), p, caseSensitive).Some?
    ensures Value(PutBelow(b, Resolve(b, p, caseSensitive).value, x)) == SetAt(Value(b), p, Value(x), caseSensitive)
    decreases |p|
  {
    GetIs(b, p, caseSensitive);
    if p != [] && p[0] == '/' {
      hide DecodeIndex, FirstWhere;
      ChildIs(b, p[1..], caseSensitive);
      var i := KidIndex(b, p[1..], caseSensitive).value;
      var rest := Resolve(KidAt(b.kids, i), SkipToken(p[1..]), caseSensitive).value;
      assert ([i] + rest)[1..] == rest;
      PutIs(KidAt(b.kids, i), SkipToken(p[1..]), caseSensitive, x);
      var y := PutBelow(KidAt(b.kids, i), rest, x);
      if b.tag.ArrayTag? {
        PutNthIs(b.kids, i, y);
      } else {
        PutTokenIs(b.kids, p[1..], caseSensitive, y);
      }
    }
  }

  lemma {:induction false} RemoveNthIs(kids: Kids, i: nat)
    requires i < KidCount(kids)
    ensures Nth(KidItems(kids), i).Some? && KidItems(RemoveKid(kids, i)) == RemoveNth(KidItems(kids), i)
    decreases kids
  {
    if i > 0 { RemoveNthIs(kids.next, i - 1); }
  }

  lemma {:induction false} RemoveMemberIs(kids: Kids, name: Text, caseSensitive: bool)
    ensures var at := FirstWhere(kids, Named(name, caseSensitive));
      RemoveMember(KidMembers(kids), name, caseSensitive) == KidMembers(if at.Some? then RemoveKid(kids, at.value) else kids)
    decreases kids
  {
    if kids.Kid? { RemoveMemberIs(kids.next, name, caseSensitive); }
  }

  lemma {:induction false} InsertNthIs(kids: Kids, i: nat, key: Text, x: Branch)
    ensures InsertNth(KidItems(kids), i, Value(x))
         == if i <= KidCount(kids) then Some(KidItems(InsertKid(kids, i, key, x))) else None
    decreases kids
  {
    if kids.Kid? && i > 0 { InsertNthIs(kids.next, i - 1, key, x); }
  }

  lemma {:induction false} AppendIs(kids: Kids, key: Text, x: Branch)
    ensures KidItems(InsertKid(kids, KidCount(kids), key, x)) == AppendItems(KidItems(kids), Item(Value(x), NoItem))
    ensures KidMembers(InsertKid(kids, KidCount(kids), key, x)) == AddMember(KidMembers(kids), key, Value(x))
    decreases kids
  {
    if kids.Kid? { AppendIs(kids.next, key, x); }
  }
}
