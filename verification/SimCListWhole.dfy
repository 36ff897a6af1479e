/** simclist.c: the checker of the representation and concatenation. */
module SimCListWhole {
  import opened SimCList

  /** c is the one and only chain of l. */
  ghost predicate Represents(l: List, c: seq<Entry>)
    reads l, c
  {
    && Linked(c) && |c| == l.numels + 2 && l.head == c[0] && l.tail == c[l.numels + 1]
    && l.mid == (if l.numels == 0 then null else c[MidIndex(l.numels)])
    && |l.spareels| <= MAX_SPARE
  }

  /** c has been walked from the head on, every step found linked both ways. */
  ghost predicate Walked(c: seq<Entry>)
    reads c
  {
    && |c| >= 1 && c[0].prev == null
    && (forall i {:trigger c[i].next} | 0 <= i < |c| - 1 :: c[i].next == c[i + 1])
    && (forall i {:trigger c[i].prev} | 0 < i < |c| :: c[i].prev == c[i - 1])
  }

  /** Such a walk cannot meet a node twice, so it cannot go in circles. */
  lemma {:induction false} WalkMeetsNoneTwice(c: seq<Entry>, i: nat, j: nat)
    requires Walked(c) && i < j < |c|
    ensures c[i] != c[j]
  {
    assert c[j].prev == c[j - 1];
    if i > 0 {
      assert c[i].prev == c[i - 1];
      WalkMeetsNoneTwice(c, i - 1, j - 1);
    }
  }

  lemma {:induction false} DistinctFit(c: seq<Entry>, nodes: set<Entry>)
    requires Distinct(c) && forall e | e in c :: e in nodes
    ensures |c| <= |nodes|
  {
    if c != [] {
      var e := c[|c| - 1];
      DistinctFit(c[..|c| - 1], nodes - {e});
    }
  }

  lemma WalkFits(c: seq<Entry>, nodes: set<Entry>)
    requires Walked(c) && forall e | e in c :: e in nodes
    ensures Distinct(c) && |c| <= |nodes|
  {
    forall i, j | 0 <= i < j < |c| ensures c[i] != c[j] { WalkMeetsNoneTwice(c, i, j); }
    DistinctFit(c, nodes);
  }

  lemma WalkOn(c: seq<Entry>, s: Entry)
    requires Walked(c) && c[|c| - 1].next == s && s.prev == c[|c| - 1]
    ensures Walked(c + [s])
  {
  }

  /** Every chain that represents l begins with the walk c. */
  ghost predicate Forced(l: List, c: seq<Entry>, d: seq<Entry>)
    reads l, d
  {
    Represents(l, d) ==> c <= d
  }

  /** One round of the loops of ks_list_repOk; going on or breaking off. */
  method Step(l: List, s: Entry, ghost c: seq<Entry>, ghost d: seq<Entry>, ghost nodes: set<Entry>) returns (go: bool, t: Entry)
    requires Walked(c) && s == c[|c| - 1] && s.next != null && Forced(l, c, d)
    requires (forall e | e in nodes && e.next != null :: e.next in nodes) && forall e | e in c :: e in nodes
    ensures go ==> t == s.next && Walked(c + [t]) && Forced(l, c + [t], d) && t in nodes
    ensures !go ==> t == s && !Represents(l, d)
  {
    go := s.next.prev == s;
    t := if go then s.next else s;
    if Represents(l, d) {
      Neighbours(d, |c| - 1);
      if |c| < |d| { Neighbours(d, |c|); }
    }
    if go { WalkOn(c, t); }
  }

  /** ks_list_repOk is exact: it accepts just the lists that have a complete, doubly linked chain of the right length
      with the middle in place. It gives that chain, and refuses no list that has one, whatever chain d this is.
      nodes is any finite set of nodes in which the links stay. */
  method RepOk(l: List, ghost nodes: set<Entry>, ghost d: seq<Entry>) returns (ok: bool, ghost c: seq<Entry>)
    requires l.head in nodes && forall e | e in nodes && e.next != null :: e.next in nodes
    ensures ok ==> Represents(l, c)
    ensures Represents(l, d) ==> ok
  {
    c := [l.head];
    ok := l.head != l.tail && l.head.prev == null && l.tail.next == null
          && (l.numels > 0 || (l.mid == null && l.head.next == l.tail && l.tail.prev == l.head))
          && |l.spareels| <= MAX_SPARE;
    if !ok { return; }
    if l.numels >= 1 {
      var s := l.head;
      var i := -1;
      var go := true;
      while go && i < (l.numels - 1) / 2 && s.next != null
        invariant -1 <= i <= (l.numels - 1) / 2 && |c| == i + 2 && s == c[|c| - 1] && c[0] == l.head
        invariant Walked(c) && Forced(l, c, d) && forall e | e in c :: e in nodes
        invariant !go ==> !Represents(l, d)
        decreases go, (l.numels - 1) / 2 - i
      {
        go, s := Step(l, s, c, d, nodes);
        if go {
          i := i + 1;
          c := c + [s];
        }
      }
      ok := i == (l.numels - 1) / 2 && l.mid == s;
      if !ok { return; }
      WalkFits(c, nodes);
      go := true;
      while go && s.next != null
        invariant |c| == i + 2 && s == c[|c| - 1] && c[0] == l.head && |c| <= |nodes|
        invariant |c| > MidIndex(l.numels) && l.mid == c[MidIndex(l.numels)]
        invariant Walked(c) && Forced(l, c, d) && forall e | e in c :: e in nodes
        invariant !go ==> !Represents(l, d)
        decreases go, |nodes| - |c|
      {
        go, s := Step(l, s, c, d, nodes);
        if go {
          i := i + 1;
          c := c + [s];
          WalkFits(c, nodes);
        }
      }
      ok := i == l.numels && s == l.tail;
      WalkFits(c, nodes);
    } else {
      c := [l.head, l.tail];
    }
  }

  /** The checker accepts every list that the operations can leave behind. */
  lemma ValidIsRepresented(l: List)
    requires l.Valid()
    ensures Represents(l, l.chain)
  {
  }

  /** A new last node of the walk. */
  method Grow(el: Entry, data: Pointer, ghost c: seq<Entry>) returns (node: Entry)
    requires Walked(c) && el == c[|c| - 1]
    modifies el`next
    ensures fresh(node) && Walked(c + [node]) && DataOf(c + [node]) == old(DataOf(c)) + [data]
  {
    WalkFits(c, set e: Entry | e in c);
    node := new Entry();
    el.next := node;
    node.prev := el;
    node.data := data;
  }

  /** Copies the elements of src behind the walk c. */
  method CopyOnto(src: List, end: Entry, ghost c: seq<Entry>) returns (el: Entry, ghost d: seq<Entry>)
    requires src.Valid() && |c| >= 1 && Walked(c) && end == c[|c| - 1] && end !in src.chain
    modifies end`next
    ensures Walked(d) && el == d[|d| - 1] && (el == end || fresh(el)) && |d| == |c| + src.numels
    ensures d[..|c|] == c && forall e | e in d :: e in c || fresh(e)
    ensures src.Valid() && DataOf(d) == old(DataOf(c)) + src.Contents()
  {
    hide DataOf, Walked;
    Neighbours(src.chain, 0);
    var srcel := src.head.next;
    el := end;
    d := c;
    ghost var k := 0;
    while srcel != src.tail
      invariant k <= src.numels && srcel == src.chain[k + 1] && src.Valid()
      invariant |c| >= 1 && |d| == |c| + k && d[..|c|] == c && Walked(d) && el == d[|d| - 1] && (el == end || fresh(el))
      invariant forall e | e in d :: e in c || fresh(e)
      invariant DataOf(d) == old(DataOf(c)) + src.Contents()[..k]
      decreases src.numels - k
    {
      ghost var was := src.Contents();
      ContentsAt(src, k);
      el := Grow(el, srcel.data, d);
      assert src.Contents() == was;
      Neighbours(src.chain, k + 1);
      srcel := srcel.next;
      d := d + [el];
      k := k + 1;
    }
  }

  lemma ContentsAt(l: List, k: nat)
    requires l.Valid() && k <= l.numels
    ensures k < l.numels ==> l.Contents()[..k + 1] == l.Contents()[..k] + [l.chain[k + 1].data]
    ensures k < l.numels <==> l.chain[k + 1] != l.tail
  {
  }

  /** Links the tail behind the walk. */
  method Close(dest: List, el: Entry, ghost c: seq<Entry>)
    requires Walked(c) && |c| == dest.numels + 1 && c[0] == dest.head && el == c[dest.numels]
    requires dest.tail !in c && dest.tail.next == null && dest.tail.data == 0
    requires |dest.spareels| <= MAX_SPARE && Distinct(dest.spareels)
    requires forall e | e in dest.spareels :: e !in c && e != dest.tail
    modifies dest`chain, el`next, dest.tail`prev
    ensures dest.Shape(dest.numels) && dest.chain == c + [dest.tail]
    ensures dest.Contents() == old(DataOf(c)[1..])
  {
    hide DataOf;
    WalkFits(c, set e: Entry | e in c);
    ghost var d := c + [dest.tail];
    el.next := dest.tail;
    dest.tail.prev := el;
    dest.chain := d;
    assert Walked(d);
    WalkFits(d, set e: Entry | e in d);
    assert DataOf(d) == old(DataOf(c)) + [dest.tail.data];
  }

  /** ks_list_concat into an empty list. */
  method Concat(l1: List, l2: List, dest: List) returns (r: int)
    requires l1.Valid() && l2.Valid()
    requires l1 != dest && l2 != dest ==> dest.Valid() && dest.numels == 0
    requires l1 != dest && l2 != dest ==> forall e | e in dest.chain :: e !in l1.chain && e !in l2.chain
    modifies dest, dest.chain
    ensures if l1 == dest || l2 == dest then r == -1 && unchanged(dest) && unchanged(dest.chain)
            else r == 0 && dest.Valid() && dest.Contents() == old(l1.Contents() + l2.Contents()) && l1.Valid() && l2.Valid()
  {
    if l1 == dest || l2 == dest { return -1; }
    dest.numels := l1.numels + l2.numels;
    if dest.numels > 0 { CopyBoth(l1, l2, dest); }
    r := 0;
  }

  /** The middle is left at the end of the first part and then moved by half the difference of the lengths, with C's
      division towards zero. */
  method CopyBoth(l1: List, l2: List, dest: List)
    requires l1.Valid() && l2.Valid() && l1 != dest && l2 != dest
    requires dest.ValidFor(0) && dest.numels == l1.numels + l2.numels > 0
    requires forall e | e in dest.chain :: e !in l1.chain && e !in l2.chain
    modifies dest`chain, dest`mid, dest.chain
    ensures dest.Valid() && dest.Contents() == old(l1.Contents() + l2.Contents()) && l1.Valid() && l2.Valid()
  {
    hide Linked, Distinct, DataOf, Walked, List.Contents;
    assert dest.tail == dest.chain[1] && dest.head == dest.chain[0];
    Start(dest);
    var el, c := CopyPair(l1, l2, dest);
    assert el !in l1.chain && el !in l2.chain && dest.tail !in l1.chain && dest.tail !in l2.chain;
    assert l1.Valid() && l2.Valid();
    label before:
    Close(dest, el, c);
    assert unchanged@before(l1) && unchanged@before(l1.chain);
    assert Linked(l1.chain);
    assert l1.Valid() && l2.Valid();
    MidForConcat(dest, l1.numels, l2.numels);
  }

  method CopyPair(l1: List, l2: List, dest: List) returns (el: Entry, ghost c: seq<Entry>)
    requires l1.Valid() && l2.Valid() && l1 != dest && l2 != dest && Walked([dest.head])
    requires dest.head !in l1.chain && dest.head !in l2.chain
    modifies dest`mid, dest.head`next
    ensures Walked(c) && |c| == l1.numels + l2.numels + 1 && c[0] == dest.head && el == c[|c| - 1]
    ensures dest.mid == c[l1.numels]
    ensures (el == dest.head || fresh(el)) && forall e | e in c :: e == dest.head || fresh(e)
    ensures DataOf(c)[1..] == old(l1.Contents() + l2.Contents()) && l1.Valid() && l2.Valid()
  {
    hide Linked, Distinct, DataOf, Walked, List.Contents, List.Shape;
    el, c := CopyOnto(l1, dest.head, [dest.head]);
    dest.mid := el;
    ghost var half := c;
    el, c := CopyOnto(l2, el, c);
    assert c[|half| - 1] == half[|half| - 1];
  }

  lemma Start(l: List)
    requires l.ValidFor(0)
    ensures Walked([l.head]) && l.head != l.tail && l.tail.next == null && l.tail.data == 0 && DataOf([l.head])[1..] == []
  {
  }

  method MidForConcat(dest: List, n1: nat, n2: nat)
    requires Linked(dest.chain) && dest.numels == n1 + n2 > 0 && |dest.chain| == n1 + n2 + 2
    requires dest.mid == dest.chain[n1]
    modifies dest`mid
    ensures dest.mid == dest.chain[MidIndex(n1 + n2)]
  {
    hide Linked;
    var err := n2 - n1;
    if Halved(err + 1) > 0 {
      err := Halved(err + 1);
      for cnt := 0 to err
        invariant dest.mid == dest.chain[n1 + cnt]
      {
        Neighbours(dest.chain, n1 + cnt);
        dest.mid := dest.mid.next;
      }
    } else if Halved(err) < 0 {
      err := Halved(-err);
      for cnt := 0 to err
        invariant dest.mid == dest.chain[n1 - cnt]
      {
        Neighbours(dest.chain, n1 - cnt);
        dest.mid := dest.mid.prev;
      }
    }
  }

  /** x / 2 in C. */
  function Halved(x: int): int {
    if x >= 0 then x / 2 else -(-x / 2)
  }
}
