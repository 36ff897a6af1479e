/** simclist.c: a doubly linked list between two sentinels, with a pointer to its middle and a few spare nodes. */
module SimCList {
  import opened Octets

  /** void *; 0 is NULL. */
  type Pointer = nat

  const MAX_SPARE: nat := 5

  class Entry {
    var data: Pointer
    var next: Entry?
    var prev: Entry?

    constructor ()
      ensures data == 0 && next == null && prev == null
    {
      data, next, prev := 0, null, null;
    }
  }

  ghost predicate Distinct(c: seq<Entry>) {
    forall i, j | 0 <= i < j < |c| :: c[i] != c[j]
  }

  /** c is a complete chain, sentinels included. */
  ghost predicate Linked(c: seq<Entry>)
    reads c`next, c`prev
  {
    && |c| >= 2 && Distinct(c)
    && c[0].prev == null && c[|c| - 1].next == null
    && (forall i {:trigger c[i].next} | 0 <= i < |c| - 1 :: c[i].next == c[i + 1])
    && (forall i {:trigger c[i].prev} | 0 < i < |c| :: c[i].prev == c[i - 1])
  }

  /** Where the middle pointer of a list of n elements stands in the chain. */
  function MidIndex(n: nat): nat
    requires n > 0
  {
    (n - 1) / 2 + 1
  }

  ghost function DataOf(c: seq<Entry>): (s: seq<Pointer>)
    reads c
    ensures |s| == |c| && forall i | 0 <= i < |c| :: s[i] == c[i].data
  {
    seq(|c|, i requires 0 <= i < |c| reads c => c[i].data)
  }

  /** Puts a node behind c[k]. */
  method Splice(prec: Entry, lent: Entry, ghost c: seq<Entry>, ghost k: nat)
    requires Linked(c) && k < |c| - 1 && prec == c[k] && lent !in c
    modifies prec`next, prec.next`prev, lent`next, lent`prev
    ensures Linked(c[..k + 1] + [lent] + c[k + 1..])
  {
    var succ := prec.next;
    prec.next := lent;
    lent.prev := prec;
    lent.next := succ;
    succ.prev := lent;
    ghost var d := c[..k + 1] + [lent] + c[k + 1..];
    assert forall i | 0 <= i <= k :: d[i] == c[i];
    assert forall i | k + 2 <= i < |d| :: d[i] == c[i - 1];
  }

  /** Takes everything between c[i] and c[j] out. */
  method Bridge(left: Entry, right: Entry, ghost c: seq<Entry>, ghost i: nat, ghost j: nat)
    requires Linked(c) && i < j < |c| && left == c[i] && right == c[j]
    modifies left`next, right`prev
    ensures Linked(c[..i + 1] + c[j..])
  {
    left.next := right;
    right.prev := left;
    ghost var d := c[..i + 1] + c[j..];
    assert forall k | 0 <= k <= i :: d[k] == c[k];
    assert forall k | i < k < |d| :: d[k] == c[k - i - 1 + j];
  }

  /** A node's neighbours in its chain. */
  lemma Neighbours(c: seq<Entry>, k: nat)
    requires Linked(c) && k < |c|
    ensures k < |c| - 1 ==> c[k].next == c[k + 1]
    ensures 0 < k ==> c[k].prev == c[k - 1]
  {
  }

  lemma Apart(c: seq<Entry>, i: nat, j: nat)
    requires Linked(c) && i < |c| && j < |c| && c[i] == c[j]
    ensures i == j
  {
  }

  lemma OnlyOnce(c: seq<Entry>, k: nat)
    requires Linked(c) && k < |c|
    ensures forall i | 0 <= i < |c| && i != k :: c[i] != c[k]
  {
  }

  lemma OneChanged(s: seq<Pointer>, pos: nat)
    requires pos + 2 < |s|
    ensures var t := s[pos + 1 := 0][1..|s| - 1]; var u := s[1..|s| - 1];
      t[..pos] == u[..pos] && t[pos + 1..] == u[pos + 1..] && u[pos] == s[pos + 1]
  {
  }

  /** Spares that come from before or from what was cut out are not in the shorter chain. */
  lemma SparesAreOut(c: seq<Entry>, i: nat, j: nat, before: seq<Entry>, spares: seq<Entry>)
    requires Linked(c) && i < j < |c| && forall e | e in before :: e !in c
    requires forall e | e in spares :: e in before || e in c[i + 1..j]
    ensures forall e | e in spares :: e !in c[..i + 1] + c[j..]
    ensures forall e | e in spares :: e in before || e in c
  {
    Gone(c, i, j);
    forall e | e in spares ensures e !in c[..i + 1] + c[j..] && (e in before || e in c) {
      if e !in before {
        var k :| 0 <= k < |c[i + 1..j]| && c[i + 1..j][k] == e;
        assert e == c[i + 1 + k];
      }
    }
  }

  /** What lies between c[i] and c[j] is not in the shorter chain. */
  lemma Gone(c: seq<Entry>, i: nat, j: nat)
    requires Linked(c) && i < j < |c|
    ensures forall k | i < k < j :: c[k] !in c[..i + 1] + c[j..]
    ensures forall e | e in c[..i + 1] + c[j..] :: e in c
    ensures (c[..i + 1] + c[j..])[0] == c[0] && (c[..i + 1] + c[j..])[|c| - (j - i)] == c[|c| - 1]
  {
  }

  lemma SpliceData(c: seq<Entry>, k: nat, lent: Entry)
    requires 0 <= k < |c|
    ensures DataOf(c[..k + 1] + [lent] + c[k + 1..]) == DataOf(c)[..k + 1] + [lent.data] + DataOf(c)[k + 1..]
  {
  }

  lemma BridgeData(c: seq<Entry>, i: nat, j: nat)
    requires i < j < |c|
    ensures DataOf(c[..i + 1] + c[j..]) == DataOf(c)[..i + 1] + DataOf(c)[j..]
  {
  }

  lemma BridgeInside(s: seq<Pointer>, i: nat, j: nat)
    requires i < j < |s|
    ensures (s[..i + 1] + s[j..])[1..|s| - (j - i)] == s[1..|s| - 1][..i] + s[1..|s| - 1][j - 1..]
  {
  }

  /** The sentinels stay outside what is inserted. */
  lemma SpliceInside(s: seq<Pointer>, x: Pointer, pos: nat)
    requires pos + 2 <= |s|
    ensures (s[..pos + 1] + [x] + s[pos + 1..])[1..|s|] == s[1..|s| - 1][..pos] + [x] + s[1..|s| - 1][pos..]
  {
  }

  class List {
    var head: Entry
    var tail: Entry
    var mid: Entry?
    var numels: nat
    var spareels: seq<Entry>
    var iterActive: bool
    ghost var chain: seq<Entry>

    /** The invariant that ks_list_repOk checks. */
    ghost predicate Valid()
      reads this, chain
    {
      ValidFor(numels)
    }

    /** The invariant for a given number of elements. */
    ghost predicate ValidFor(n: nat)
      reads this, chain
    {
      && Shape(n)
      && mid == (if n == 0 then null else chain[MidIndex(n)])
    }

    /** The invariant without the middle. */
    ghost predicate Shape(n: nat)
      reads this`chain, this`head, this`tail, this`spareels, chain
    {
      && Linked(chain) && |chain| == n + 2
      && head == chain[0] && tail == chain[n + 1] && tail.data == 0
      && |spareels| <= MAX_SPARE && Distinct(spareels) && (forall e | e in spareels :: e !in chain)
    }

    ghost function Nodes(): set<Entry>
      reads this
    {
      (set e: Entry | e in chain) + (set e: Entry | e in spareels)
    }

    ghost function Contents(): (s: seq<Pointer>)
      reads this`chain, chain
      requires |chain| >= 2
    {
      DataOf(chain)[1..|chain| - 1]
    }

    constructor ()
      ensures Valid() && Contents() == [] && !iterActive && fresh(Nodes())
    {
      head := new Entry();
      tail := new Entry();
      mid, numels, spareels, iterActive := null, 0, [], false;
      chain := [];
      new;
      LinkSentinels();
    }

    method LinkSentinels()
      requires head != tail && head.prev == null && tail.next == null && tail.data == 0
      requires mid == null && numels == 0 && spareels == []
      modifies this`chain, head`next, tail`prev
      ensures Valid() && chain == [head, tail]
    {
      head.next := tail;
      tail.prev := head;
      chain := [head, tail];
    }

    /** ks_list_findpos: from whichever of head, middle and tail is nearest. The quarter test is an exact comparison of
        (posstart + 1) / numels; for an empty list it falls through to the tail. */
    method FindPos(posstart: int) returns (ptr: Entry?)
      requires Valid()
      ensures if posstart < -1 || posstart > numels then ptr == null else ptr == chain[posstart + 1]
    {
      if posstart < -1 || posstart > numels { return null; }
      var i: int;
      if numels > 0 && 4 * (posstart + 1) <= numels {
        ptr := WalkRight(head, -1, posstart);
      } else if 2 * (posstart + 1) < numels {
        ptr := WalkLeft(mid, (numels - 1) / 2, posstart);
      } else if 4 * (posstart + 1) <= 3 * numels && numels > 0 {
        ptr := WalkRight(mid, (numels - 1) / 2, posstart);
      } else {
        ptr := WalkLeft(tail, numels, posstart);
      }
    }

    method WalkRight(start: Entry, from: int, posstart: int) returns (ptr: Entry)
      requires Valid() && -1 <= from <= posstart <= numels && start == chain[from + 1]
      ensures ptr == chain[posstart + 1]
    {
      ptr := start;
      var i := from;
      while i < posstart
        invariant from <= i <= posstart && ptr == chain[i + 1]
      {
        ptr := ptr.next;
        i := i + 1;
      }
    }

    method WalkLeft(start: Entry, from: int, posstart: int) returns (ptr: Entry)
      requires Valid() && -1 <= posstart <= from <= numels && start == chain[from + 1]
      ensures ptr == chain[posstart + 1]
    {
      ptr := start;
      var i := from;
      while i > posstart
        invariant posstart <= i <= from && ptr == chain[i + 1]
      {
        ptr := ptr.prev;
        i := i - 1;
      }
    }

    method GetAt(pos: nat) returns (data: Pointer)
      requires Valid()
      ensures data == if pos < numels then Contents()[pos] else 0
    {
      var tmp := FindPos(pos);
      data := if tmp != null then tmp.data else 0;
    }

    /** ks_list_insert_at */
    method InsertAt(data: Pointer, pos: nat) returns (r: int)
      requires Valid()
      modifies this, Nodes()
      ensures Valid() && iterActive == old(iterActive) && fresh(Nodes() - old(Nodes()))
      ensures head == old(head) && tail == old(tail)
      ensures if old(iterActive) || pos > old(numels) then r == -1 && Contents() == old(Contents())
              else r == 1 && Contents() == old(Contents()[..pos] + [data] + Contents()[pos..])
    {
      hide Linked, Distinct, DataOf;
      if iterActive || pos > numels { return -1; }
      var lent := TakeNode();
      lent.data := data;
      assert Contents() == old(Contents());
      Attach(lent, pos);
      r := 1;
    }

    /** A spare node if there is one. */
    method TakeNode() returns (lent: Entry)
      requires Valid()
      modifies this`spareels
      ensures Valid() && lent !in chain && lent !in spareels
      ensures lent in old(spareels) || fresh(lent)
      ensures forall e | e in spareels :: e in old(spareels)
    {
      if |spareels| > 0 {
        lent := spareels[|spareels| - 1];
        spareels := spareels[..|spareels| - 1];
      } else {
        lent := new Entry();
      }
    }

    /** Links a node in at position pos and moves the middle. */
    method Attach(lent: Entry, pos: nat)
      requires Valid() && pos <= numels && lent !in chain && lent !in spareels
      modifies this`chain, this`numels, this`mid, chain`next, chain`prev, lent`next, lent`prev
      ensures Valid() && chain == old(chain[..pos + 1] + [lent] + chain[pos + 1..])
      ensures Contents() == old(Contents()[..pos] + [lent.data] + Contents()[pos..])
    {
      hide Linked, Distinct, DataOf, Contents;
      var prec := FindPos(pos - 1);
      ghost var was := chain;
      Thread(prec, lent, pos);
      numels := numels + 1;
      MoveMid(lent, pos, was);
    }

    method Thread(prec: Entry, lent: Entry, ghost pos: nat)
      requires Linked(chain) && pos < |chain| - 1 && prec == chain[pos] && lent !in chain
      modifies this`chain, chain`next, chain`prev, lent`next, lent`prev
      ensures chain == old(chain[..pos + 1] + [lent] + chain[pos + 1..]) && Linked(chain)
      ensures forall e | e in chain :: e in old(chain) || e == lent
      ensures chain[0] == old(chain[0]) && chain[|chain| - 1] == old(chain[|chain| - 1])
      ensures Contents() == old(Contents()[..pos] + [lent.data] + Contents()[pos..])
    {
      hide Linked, Distinct, DataOf;
      SpliceInside(DataOf(chain), lent.data, pos);
      Neighbours(chain, pos);
      Splice(prec, lent, chain, pos);
      SpliceData(chain, pos, lent);
      assert DataOf(chain) == old(DataOf(chain));
      chain := chain[..pos + 1] + [lent] + chain[pos + 1..];
    }

    method MoveMid(lent: Entry, pos: nat, ghost was: seq<Entry>)
      requires 0 < numels == |was| - 1 && pos < numels && Linked(chain)
      requires chain == was[..pos + 1] + [lent] + was[pos + 1..]
      requires mid == (if numels == 1 then null else was[MidIndex(numels - 1)])
      modifies this`mid
      ensures mid == chain[MidIndex(numels)]
    {
      hide Linked, Distinct;
      if numels == 1 {
        mid := lent;
      } else {
        ghost var m := MidIndex(numels - 1);
        assert mid == if pos < m then chain[m + 1] else chain[m];
        Neighbours(chain, m);
        Neighbours(chain, m + 1);
        if numels % 2 == 1 {
          if pos >= (numels - 1) / 2 { mid := mid.next; }
        } else {
          if pos <= (numels - 1) / 2 { mid := mid.prev; }
        }
      }
    }

    /** ks_list_drop_elem: the caller counts the element down afterwards. */
    method DropElem(tmp: Entry, pos: nat)
      requires Valid() && pos < numels && tmp == chain[pos + 1]
      modifies this`chain, this`mid, this`spareels, chain`next, chain`prev
      ensures ValidFor(numels - 1) && chain == old(chain[..pos + 1] + chain[pos + 2..])
      ensures Contents() == old(Contents()[..pos] + Contents()[pos + 1..])
      ensures spareels == old(spareels) + (if |old(spareels)| < MAX_SPARE then [tmp] else [])
      ensures Nodes() <= old(Nodes())
    {
      hide Linked, Distinct, DataOf, Contents;
      MidForDrop(pos);
      Neighbours(chain, pos + 1);
      Cut(tmp.prev, tmp.next, pos, pos + 2);
      Keep(tmp);
    }

    method Cut(left: Entry, right: Entry, ghost i: nat, ghost j: nat)
      requires Linked(chain) && i < j < |chain| && left == chain[i] && right == chain[j]
      modifies this`chain, left`next, right`prev
      ensures chain == old(chain[..i + 1] + chain[j..]) && Linked(chain)
      ensures forall e | e in chain :: e in old(chain)
      ensures forall k | i < k < j :: old(chain[k]) !in chain
      ensures chain[0] == old(chain[0]) && chain[|chain| - 1] == old(chain[|chain| - 1])
      ensures Contents() == old(Contents()[..i] + Contents()[j - 1..])
    {
      hide Linked, Distinct, DataOf;
      BridgeInside(DataOf(chain), i, j);
      Gone(chain, i, j);
      Bridge(left, right, chain, i, j);
      BridgeData(chain, i, j);
      assert DataOf(chain) == old(DataOf(chain));
      chain := chain[..i + 1] + chain[j..];
    }

    /** The middle is moved with the count and the links still as before. */
    method MidForDrop(pos: nat)
      requires Valid() && pos < numels
      modifies this`mid
      ensures mid == if numels == 1 then null else (chain[..pos + 1] + chain[pos + 2..])[MidIndex(numels - 1)]
    {
      hide Linked, Distinct;
      ghost var m := MidIndex(numels);
      Neighbours(chain, m);
      if numels % 2 == 1 {
        if numels == 1 {
          mid := null;
        } else if pos >= numels / 2 {
          mid := mid.prev;
        }
      } else {
        if pos < numels / 2 { mid := mid.next; }
      }
    }

    method Keep(tmp: Entry)
      requires |spareels| <= MAX_SPARE && Distinct(spareels) && tmp !in spareels
      modifies this`spareels
      ensures |spareels| <= MAX_SPARE && Distinct(spareels)
      ensures spareels == old(spareels) + (if |old(spareels)| < MAX_SPARE then [tmp] else [])
    {
      if |spareels| < MAX_SPARE { spareels := spareels + [tmp]; }
    }

    method TakeData(tmp: Entry, pos: nat) returns (data: Pointer)
      requires Valid() && pos < numels && tmp == chain[pos + 1]
      modifies tmp`data
      ensures data == old(Contents()[pos]) && Valid()
      ensures Contents()[..pos] == old(Contents()[..pos]) && Contents()[pos + 1..] == old(Contents()[pos + 1..])
    {
      hide Linked, Distinct, DataOf;
      ghost var s := DataOf(chain);
      OnlyOnce(chain, pos + 1);
      data := tmp.data;
      tmp.data := 0;
      assert DataOf(chain) == s[pos + 1 := 0];
      OneChanged(s, pos);
    }

    method ExtractAt(pos: nat) returns (data: Pointer)
      requires Valid()
      modifies this, Nodes()
      ensures Valid() && iterActive == old(iterActive) && Nodes() <= old(Nodes())
      ensures if old(iterActive) || pos >= old(numels) then data == 0 && Contents() == old(Contents())
              else data == old(Contents()[pos]) && Contents() == old(Contents()[..pos] + Contents()[pos + 1..])
    {
      hide Linked, Distinct, DataOf, Contents;
      if iterActive || pos >= numels { return 0; }
      var tmp := FindPos(pos);
      Neighbours(chain, pos + 1);
      data := TakeData(tmp, pos);
      DropElem(tmp, pos);
      numels := numels - 1;
    }

    method DeleteAt(pos: nat) returns (r: int)
      requires Valid()
      modifies this, Nodes()
      ensures Valid() && iterActive == old(iterActive) && Nodes() <= old(Nodes())
      ensures if old(iterActive) || pos >= old(numels) then r == -1 && Contents() == old(Contents())
              else r == 0 && Contents() == old(Contents()[..pos] + Contents()[pos + 1..])
    {
      hide Linked, Distinct, DataOf, Contents;
      if iterActive || pos >= numels { return -1; }
      var delendo := FindPos(pos);
      Neighbours(chain, pos + 1);
      DropElem(delendo, pos);
      numels := numels - 1;
      r := 0;
    }

    /** ks_list_delete_range; a range that is the whole list is handed to Clear. */
    method DeleteRange(posstart: nat, posend: nat) returns (r: int)
      requires Valid()
      modifies this, Nodes()
      ensures Valid() && iterActive == old(iterActive) && Nodes() <= old(Nodes())
      ensures if old(iterActive) || posend < posstart || posend >= old(numels) then r == -1 && Contents() == old(Contents())
              else r == posend - posstart + 1 && Contents() == old(Contents()[..posstart] + Contents()[posend + 1..])
    {
      hide Linked, Distinct, DataOf;
      if iterActive || posend < posstart || posend >= numels { return -1; }
      var numdel := posend - posstart + 1;
      if numdel == numels {
        r := Clear();
      } else {
        hide Contents;
        RemoveRange(posstart, posend, numdel);
        numels := numels - (posend - posstart + 1);
        r := numdel;
      }
    }

    method RemoveRange(posstart: nat, posend: nat, numdel: nat)
      requires Valid() && posstart <= posend < numels && numdel == posend - posstart + 1 < numels
      modifies this`mid, this`spareels, this`chain, chain`next, chain`prev
      ensures ValidFor(numels - numdel) && Nodes() <= old(Nodes())
      ensures Contents() == old(Contents()[..posstart] + Contents()[posend + 1..])
    {
      hide Linked, Distinct, DataOf, Contents;
      var lastvalid, tmp := SetAside(posstart, posend, numdel);
      Cut(lastvalid, tmp, posstart, posend + 2);
    }

    /** Moves the middle and keeps the nodes of the range as spares, before the links change. */
    method SetAside(posstart: nat, posend: nat, numdel: nat) returns (lastvalid: Entry, tmp: Entry)
      requires Valid() && posstart <= posend < numels && numdel == posend - posstart + 1 < numels
      modifies this`mid, this`spareels
      ensures FewSpares() && lastvalid == chain[posstart] && tmp == chain[posend + 2]
      ensures mid == (chain[..posstart + 1] + chain[posend + 2..])[MidIndex(numels - numdel)]
      ensures forall e | e in spareels :: e !in chain[..posstart + 1] + chain[posend + 2..] && (e in old(spareels) || e in chain)
    {
      hide Linked, Distinct;
      tmp := FindPos(posstart);
      Neighbours(chain, posstart + 1);
      lastvalid := tmp.prev;
      MidForRange(posstart, posend, numdel);
      tmp := SpareRange(tmp, posstart, posend);
      SparesAreOut(chain, posstart, posend + 2, old(spareels), spareels);
    }

    ghost predicate FewSpares()
      reads this`spareels
    {
      |spareels| <= MAX_SPARE && Distinct(spareels)
    }

    method MidForRange(posstart: nat, posend: nat, numdel: nat)
      requires Valid() && posstart <= posend < numels && numdel == posend - posstart + 1 < numels
      modifies this`mid
      ensures mid == (chain[..posstart + 1] + chain[posend + 2..])[MidIndex(numels - numdel)]
    {
      hide Linked;
      var midposafter := (numels - 1 - numdel) / 2;
      midposafter := if midposafter < posstart then midposafter else midposafter + numdel;
      var movedx := midposafter - (numels - 1) / 2;
      if movedx > 0 {
        for i := 0 to movedx
          invariant mid == chain[(numels - 1) / 2 + 1 + i]
        {
          Neighbours(chain, (numels - 1) / 2 + 1 + i);
          mid := mid.next;
        }
      } else {
        movedx := -movedx;
        for i := 0 to movedx
          invariant mid == chain[(numels - 1) / 2 + 1 - i]
        {
          Neighbours(chain, (numels - 1) / 2 + 1 - i);
          mid := mid.prev;
        }
      }
      assert mid == chain[midposafter + 1];
    }

    method SpareRange(first: Entry, posstart: nat, posend: nat) returns (tmp: Entry)
      requires Shape(numels) && posstart <= posend < numels && first == chain[posstart + 1]
      modifies this`spareels
      ensures tmp == chain[posend + 2] && |spareels| <= MAX_SPARE && Distinct(spareels)
      ensures forall e | e in spareels :: e in old(spareels) || e in chain[posstart + 1..posend + 2]
    {
      tmp := first;
      var i := posstart;
      while i <= posend
        invariant posstart <= i <= posend + 1 && tmp == chain[i + 1] && |spareels| <= MAX_SPARE && Distinct(spareels)
        invariant forall e | e in spareels :: e in old(spareels) || e in chain[posstart + 1..i + 1]
      {
        var tmp2 := tmp;
        tmp := tmp.next;
        Keep(tmp2);
        i := i + 1;
      }
    }

    method Clear() returns (r: int)
      requires Valid()
      modifies this, Nodes()
      ensures Valid() && iterActive == old(iterActive) && Nodes() <= old(Nodes())
      ensures if iterActive then r == -1 && Contents() == old(Contents()) else r == old(numels) && Contents() == []
    {
      r := numels;
      if iterActive { return -1; }
      Gone(chain, 0, numels + 1);
      var s := SpareAll();
      ghost var i: nat :| i < |chain| && s == chain[i];
      while s != tail
        invariant i < |chain| && s == chain[i]
        decreases |chain| - i
      {
        s := s.next;
        i := i + 1;
      }
      Reset();
    }

    method Reset()
      requires Linked(chain) && |chain| == numels + 2 && head == chain[0] && tail == chain[numels + 1] && tail.data == 0
      requires FewSpares() && forall e | e in spareels :: e != head && e != tail
      modifies this`chain, this`numels, this`mid, head`next, tail`prev
      ensures Valid() && Contents() == [] && chain == [head, tail]
    {
      head.next := tail;
      tail.prev := head;
      chain := [head, tail];
      numels := 0;
      mid := null;
    }

    /** Moves elements to the spares while there is room. */
    method SpareAll() returns (s: Entry)
      requires Valid()
      modifies this`spareels
      ensures s in chain && |spareels| <= MAX_SPARE && Distinct(spareels)
      ensures forall e | e in spareels :: e in old(spareels) || e in chain[1..numels + 1]
    {
      s := head.next;
      ghost var i := 1;
      while |spareels| < MAX_SPARE && s != tail
        invariant 1 <= i <= numels + 1 && s == chain[i] && |spareels| <= MAX_SPARE && Distinct(spareels)
        invariant forall e | e in spareels :: e in old(spareels) || e in chain[1..i]
        decreases numels + 1 - i
      {
        Keep(s);
        s := s.next;
        i := i + 1;
      }
    }

    /** ks_list_locate with a comparator, or without one on the references. */
    method Locate(data: Pointer, comparator: Option<(Pointer, Pointer) -> int>) returns (pos: int)
      requires Valid()
      ensures -1 <= pos < numels
      ensures match comparator
        case Some(f) =>
          && (pos >= 0 ==> f(data, Contents()[pos]) == 0)
          && (forall i | 0 <= i < (if pos < 0 then numels else pos) :: f(data, Contents()[i]) != 0)
        case None =>
          && (pos >= 0 ==> Contents()[pos] == data)
          && (forall i | 0 <= i < (if pos < 0 then numels else pos) :: Contents()[i] != data)
    {
      pos := 0;
      var el := head.next;
      while el != tail
        invariant 0 <= pos <= numels && el == chain[pos + 1]
        invariant forall i | 0 <= i < pos :: !Same(comparator, data, Contents()[i])
        decreases numels - pos
      {
        assert pos < numels && Contents()[pos] == DataOf(chain)[pos + 1] == el.data;
        if Same(comparator, data, el.data) { break; }
        el := el.next;
        pos := pos + 1;
      }
      if el == tail { pos := -1; }
    }
  }

  predicate Same(comparator: Option<(Pointer, Pointer) -> int>, a: Pointer, b: Pointer) {
    match comparator
    case Some(f) => f(a, b) == 0
    case None => a == b
  }
}
