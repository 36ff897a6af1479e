/** ks_q.c: the nodes of the queue. Popped nodes are kept and used again. */
module KsQNodes {
  import opened Octets
  import opened KsQ

  class Node {
    var ptr: Pointer
    var next: Node?
    var prev: Node?

    constructor ()
      ensures ptr == 0 && next == null && prev == null
    {
      ptr, next, prev := 0, null, null;
    }
  }

  ghost predicate Distinct(c: seq<Node>) {
    forall i, j | 0 <= i < j < |c| :: c[i] != c[j]
  }

  /** first leads through all of c and ends. */
  ghost predicate Forward(first: Node?, c: seq<Node>)
    reads c`next
  {
    && Distinct(c)
    && first == (if c == [] then null else c[0])
    && (forall i {:trigger c[i].next} | 0 <= i < |c| - 1 :: c[i].next == c[i + 1])
    && (c != [] ==> c[|c| - 1].next == null)
  }

  /** last leads back through all of c and ends. */
  ghost predicate Backward(last: Node?, c: seq<Node>)
    reads c`prev
  {
    && last == (if c == [] then null else c[|c| - 1])
    && (forall i {:trigger c[i].prev} | 0 < i < |c| :: c[i].prev == c[i - 1])
    && (c != [] ==> c[0].prev == null)
  }

  ghost function PointersOf(c: seq<Node>): (s: seq<Pointer>)
    reads c`ptr
    ensures |s| == |c| && forall i | 0 <= i < |c| :: s[i] == c[i].ptr
  {
    if c == [] then [] else PointersOf(c[..|c| - 1]) + [c[|c| - 1].ptr]
  }

  lemma PointersAppended(c: seq<Node>, node: Node)
    requires c != [] && c[|c| - 1] == node
    ensures PointersOf(c) == PointersOf(c[..|c| - 1]) + [node.ptr]
  {
  }

  class Queue {
    var len: nat
    var maxlen: nat
    var pushers: nat
    var poppers: nat
    var head: Node?
    var tail: Node?
    var empty: Node?
    var active: bool
    ghost var live: seq<Node>
    ghost var spare: seq<Node>
    ghost var made: nat
    ghost var peak: nat

    /** Two chains without a common node; nodes are made only for a length not seen before. */
    ghost predicate Valid()
      reads this, live, spare
    {
      && Forward(head, live) && Backward(tail, live) && Forward(empty, spare)
      && (forall n | n in live :: n !in spare)
      && len == |live|
      && made == |live| + |spare| == peak
    }

    ghost function ViewOf(): View
      reads this, live
    {
      View(PointersOf(live), maxlen, pushers, poppers, active)
    }

    constructor (bound: nat)
      ensures Valid() && ViewOf() == View([], bound, 0, 0, true) && peak == 0
    {
      len, maxlen, pushers, poppers, active := 0, bound, 0, 0, true;
      head, tail, empty := null, null, null;
      live, spare, made, peak := [], [], 0, 0;
    }

    /** new_node */
    method NewNode() returns (np: Node)
      requires Valid()
      modifies this`empty, this`spare, this`made, spare
      ensures Forward(head, live) && Backward(tail, live) && Forward(empty, spare)
      ensures PointersOf(live) == old(PointersOf(live))
      ensures forall n | n in live :: n !in spare
      ensures np.next == null && np.prev == null && np !in live && np !in spare && (np in old(spare) || fresh(np))
      ensures forall n | n in spare :: n in old(spare)
      ensures if old(spare) == [] then spare == [] && made == old(made) + 1
              else |spare| == |old(spare)| - 1 && made == old(made)
    {
      if empty != null {
        np := empty;
        assert np in spare && np !in live && np !in spare[1..];
        empty := empty.next;
        spare := spare[1..];
      } else {
        np := new Node();
        made := made + 1;
      }
      np.next, np.prev := null, null;
      np.ptr := 0;
    }

    /** do_push */
    method DoPush(x: Pointer) returns (r: Status)
      requires Valid()
      modifies this`empty, this`spare, this`made, this`live, this`head, this`tail, this`len, this`peak, live, spare
      ensures Valid() && ViewOf() == KsQ.DoPush(old(ViewOf()), x) && (r == if active then Success else Inactive)
      ensures peak == if |live| > old(peak) then |live| else old(peak)
    {
      if !active { return Inactive; }
      PushNode(x);
      r := Success;
    }

    method PushNode(x: Pointer)
      requires Valid()
      modifies this`empty, this`spare, this`made, this`live, this`head, this`tail, this`len, this`peak, live, spare
      ensures Valid() && PointersOf(live) == old(PointersOf(live)) + [x]
      ensures peak == if |live| > old(peak) then |live| else old(peak)
    {
      hide Forward, Backward, Distinct, PointersOf;
      var node := NewNode();
      node.ptr := x;
      Attach(node);
      len := len + 1;
      peak := if |live| > peak then |live| else peak;
    }

    method Attach(node: Node)
      requires Forward(head, live) && Backward(tail, live) && Forward(empty, spare) && (forall n | n in live :: n !in spare)
      requires node !in live && node !in spare && node.next == null && node.prev == null
      modifies this`live, this`head, this`tail, live`next, node`prev
      ensures Forward(head, live) && Backward(tail, live) && live == old(live) + [node]
      ensures Forward(empty, spare) && forall n | n in live :: n !in spare
      ensures PointersOf(live) == old(PointersOf(live)) + [node.ptr]
    {
      hide Forward, Backward, Distinct, PointersOf;
      ghost var was := PointersOf(live);
      ghost var kept := spare;
      LinkLast(node);
      assert forall n | n in kept :: n.next == old(n.next);
      PointersAppended(live, node);
    }

    method LinkLast(node: Node)
      requires Forward(head, live) && Backward(tail, live) && node !in live && node.next == null && node.prev == null
      modifies this`live, this`head, this`tail, live`next, node`prev
      ensures Forward(head, live) && Backward(tail, live) && live == old(live) + [node]
    {
      if head == null {
        head := node;
        tail := node;
      } else {
        tail.next := node;
        node.prev := tail;
        tail := node;
      }
      live := live + [node];
    }

    /** do_pop */
    method DoPop() returns (r: Status, ptr: Option<Pointer>)
      requires Valid() && len > 0
      modifies this`empty, this`spare, this`live, this`head, this`tail, this`len, live
      ensures Valid() && ViewOf() == KsQ.DoPop(old(ViewOf()))
      ensures if active then r == Success && ptr == Some(old(ViewOf()).items[0]) else r == Inactive && ptr == None
    {
      if !active { return Inactive, None; }
      var x := PopNode();
      ptr := Some(x);
      r := Success;
    }

    method PopNode() returns (x: Pointer)
      requires Valid() && len > 0
      modifies this`empty, this`spare, this`live, this`head, this`tail, this`len, live
      ensures Valid() && x == old(PointersOf(live))[0] && PointersOf(live) == old(PointersOf(live))[1..]
    {
      hide Forward, Backward, Distinct, PointersOf;
      var np := Detach();
      x := np.ptr;
      Recycle(np);
      len := len - 1;
    }

    method Detach() returns (np: Node)
      requires Forward(head, live) && Backward(tail, live) && live != []
      modifies this`live, this`head, this`tail, live`prev
      ensures np == old(live[0]) && live == old(live[1..]) && np !in live
      ensures Forward(head, live) && Backward(tail, live) && PointersOf(live) == old(PointersOf(live)[1..])
    {
      ghost var was := PointersOf(live);
      np := head;
      head := head.next;
      if head != null { head.prev := null; } else { tail := null; }
      live := live[1..];
      assert PointersOf(live) == was[1..];
    }

    /** A popped node is put first among the spare ones. */
    method Recycle(np: Node)
      requires Forward(empty, spare) && np !in spare
      modifies this`empty, this`spare, np
      ensures Forward(empty, spare) && spare == [np] + old(spare)
    {
      np.next := empty;
      np.prev := null;
      np.ptr := 0;
      empty := np;
      spare := [np] + spare;
    }

    method PushTail(x: Pointer) returns (o: Outcome)
      requires Valid()
      modifies this, live, spare
      ensures Valid() && (ViewOf(), o) == KsQ.PushEnd(old(ViewOf()), x)
      ensures peak == if |live| > old(peak) then |live| else old(peak)
    {
      hide Forward, Backward, Distinct, PointersOf;
      var r := DoPush(x);
      o := Return(r, None, poppers > 0);
    }

    method PopTail() returns (o: Outcome)
      requires Valid() && len > 0
      modifies this, live, spare
      ensures Valid() && (ViewOf(), o) == KsQ.PopEnd(old(ViewOf()))
      ensures peak == old(peak)
    {
      hide Forward, Backward, Distinct, PointersOf;
      var r, ptr := DoPop();
      o := Return(r, ptr, pushers > 0);
    }

    /** ks_q_push up to its wait */
    method PushEnter(x: Pointer) returns (o: Outcome)
      requires Valid()
      modifies this, live, spare
      ensures Valid() && (ViewOf(), o) == KsQ.PushEnter(old(ViewOf()), x)
      ensures peak == if |live| > old(peak) then |live| else old(peak)
    {
      hide Forward, Backward, Distinct, PointersOf;
      if !active { return Return(Inactive, None, false); }
      if maxlen != 0 && len == maxlen {
        pushers := pushers + 1;
        return Wait;
      }
      o := PushTail(x);
    }

    /** ks_q_push from its wait on */
    method PushResume(x: Pointer) returns (o: Outcome)
      requires Valid() && pushers > 0
      modifies this, live, spare
      ensures Valid() && (ViewOf(), o) == KsQ.PushResume(old(ViewOf()), x)
      ensures peak == if |live| > old(peak) then |live| else old(peak)
    {
      hide Forward, Backward, Distinct, PointersOf;
      pushers := pushers - 1;
      if maxlen != 0 && len == maxlen { return Return(if active then Break else Inactive, None, false); }
      o := PushTail(x);
    }

    method TryPush(x: Pointer) returns (o: Outcome)
      requires Valid()
      modifies this, live, spare
      ensures Valid() && (ViewOf(), o) == KsQ.TryPush(old(ViewOf()), x)
      ensures peak == if |live| > old(peak) then |live| else old(peak)
    {
      hide Forward, Backward, Distinct, PointersOf;
      if !active { return Return(Inactive, None, false); }
      if maxlen != 0 && len == maxlen { return Return(Break, None, false); }
      o := PushTail(x);
    }

    /** ks_q_pop_timeout up to its wait */
    method PopEnter() returns (o: Outcome)
      requires Valid()
      modifies this, live, spare
      ensures Valid() && (ViewOf(), o) == KsQ.PopEnter(old(ViewOf()))
      ensures peak == old(peak)
    {
      hide Forward, Backward, Distinct, PointersOf;
      if !active { return Return(Inactive, None, false); }
      if len == 0 {
        poppers := poppers + 1;
        return Wait;
      }
      o := PopTail();
    }

    /** ks_q_pop_timeout from its wait on */
    method PopResume(timedOut: bool) returns (o: Outcome)
      requires Valid() && poppers > 0
      modifies this, live, spare
      ensures Valid() && (ViewOf(), o) == KsQ.PopResume(old(ViewOf()), timedOut)
      ensures peak == old(peak)
    {
      hide Forward, Backward, Distinct, PointersOf;
      poppers := poppers - 1;
      if timedOut { return Return(Timeout, None, false); }
      if len == 0 { return Return(if active then Break else Inactive, None, false); }
      o := PopTail();
    }

    method TryPop() returns (o: Outcome)
      requires Valid()
      modifies this, live, spare
      ensures Valid() && (ViewOf(), o) == KsQ.TryPop(old(ViewOf()))
      ensures peak == old(peak)
    {
      hide Forward, Backward, Distinct, PointersOf;
      if !active { return Return(Inactive, None, false); }
      if len == 0 { return Return(Break, None, false); }
      o := PopTail();
    }

    /** The first section of ks_q_term; true if the caller must still broadcast. */
    method Term() returns (wake: bool)
      requires Valid()
      modifies this`active
      ensures Valid() && ViewOf() == KsQ.Term(old(ViewOf())) && wake == old(active)
    {
      wake := active;
      active := false;
    }
  }
}
