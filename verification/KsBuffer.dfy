/** ks_buffer.c: a byte buffer that is written behind and read in front. */
module KsBuffer {
  import opened Octets

  /** Where things stand in the allocation. */
  datatype Layout = Layout(head: nat, used: nat, actual: nat, datalen: nat)

  predicate Sound(l: Layout) {
    l.head == l.actual - l.used && l.actual <= l.datalen
  }

  /** A write moves the bytes to the front if they and the new ones are not beyond the limit and do not fit behind. */
  predicate Compacts(l: Layout, maxLen: nat, n: nat) {
    l.datalen - l.actual < n && (maxLen == 0 || l.used + n <= maxLen)
  }

  function Compacted(l: Layout, maxLen: nat, n: nat): Layout {
    if Compacts(l, maxLen, n) then l.(head := 0, actual := l.used) else l
  }

  function NewSize(datalen: nat, blocksize: nat, n: nat): nat {
    if datalen + blocksize > datalen + n then datalen + blocksize else datalen + n
  }

  function Grown(l: Layout, blocksize: nat, n: nat): Layout {
    if l.datalen - l.used < n then l.(head := 0, datalen := NewSize(l.datalen, blocksize, n)) else l
  }

  /** The layout in which the new bytes are copied behind the used ones. */
  function ForCopy(l: Layout, maxLen: nat, blocksize: nat, n: nat): Layout {
    Grown(Compacted(l, maxLen, n), blocksize, n)
  }

  /** What the caller of a write can check. */
  predicate MayWrite(l: Layout, maxLen: nat, n: nat) {
    maxLen == 0 || l.used + n <= maxLen || l.datalen - l.actual >= n || l.head == 0
  }

  /** The copy stays inside the allocation and the bytes are still where head says, exactly under MayWrite: the limit is
      kept, or there is room behind, or nothing has been taken from the front. */
  lemma WriteIsRightIff(l: Layout, maxLen: nat, blocksize: nat, n: nat)
    requires Sound(l) && n > 0
    ensures var m := ForCopy(l, maxLen, blocksize, n);
      m.head + m.used + n <= m.datalen && m.head == Compacted(l, maxLen, n).head && m.head == m.actual - m.used
      <==> MayWrite(l, maxLen, n)
  {
  }

  datatype Op = Write(bytes: seq<Byte>) | Read(n: nat) | Toss(n: nat) | Zero

  function Least(a: nat, b: nat): nat {
    if a < b then a else b
  }

  /** A byte queue: what an operation leaves, and what it takes from the front. */
  function Left(c: seq<Byte>, op: Op): seq<Byte> {
    match op
    case Write(b) => c + b
    case Read(n) => c[Least(n, |c|)..]
    case Toss(n) => c[Least(n, |c|)..]
    case Zero => []
  }

  function Taken(c: seq<Byte>, op: Op): seq<Byte> {
    match op
    case Write(_) => []
    case Read(n) => c[..Least(n, |c|)]
    case Toss(n) => c[..Least(n, |c|)]
    case Zero => c
  }

  function LeftAfter(c: seq<Byte>, ops: seq<Op>): seq<Byte>
    decreases ops
  {
    if ops == [] then c else LeftAfter(Left(c, ops[0]), ops[1..])
  }

  function TakenBy(c: seq<Byte>, ops: seq<Op>): seq<Byte>
    decreases ops
  {
    if ops == [] then [] else Taken(c, ops[0]) + TakenBy(Left(c, ops[0]), ops[1..])
  }

  /** What the reads of a run return, one after the other. */
  function Returned(c: seq<Byte>, ops: seq<Op>): seq<Byte>
    decreases ops
  {
    if ops == [] then [] else (if ops[0].Read? then Taken(c, ops[0]) else []) + Returned(Left(c, ops[0]), ops[1..])
  }

  /** Every write of the run keeps the limit; 0 is no limit. */
  predicate Within(maxLen: nat, c: seq<Byte>, ops: seq<Op>)
    decreases ops
  {
    ops == [] || ((ops[0].Write? ==> maxLen == 0 || |c| + |ops[0].bytes| <= maxLen) && Within(maxLen, Left(c, ops[0]), ops[1..]))
  }

  function Written(ops: seq<Op>): seq<Byte> {
    if ops == [] then [] else (if ops[0].Write? then ops[0].bytes else []) + Written(ops[1..])
  }

  /** Over a whole run, what was there and what was written comes out in order, and the rest is still there. */
  lemma {:induction false} FirstInFirstOut(c: seq<Byte>, ops: seq<Op>)
    ensures c + Written(ops) == TakenBy(c, ops) + LeftAfter(c, ops)
    decreases ops
  {
    if ops != [] {
      var d := Left(c, ops[0]);
      FirstInFirstOut(d, ops[1..]);
      var w := if ops[0].Write? then ops[0].bytes else [];
      OneInOut(c, ops[0]);
      Regroup(c, w, Taken(c, ops[0]), d, Written(ops[1..]), TakenBy(d, ops[1..]), LeftAfter(d, ops[1..]));
    }
  }

  /** When nothing is tossed or zeroed, the reads return what went in, in order and without a gap. */
  lemma ReadsReturnWrites(c: seq<Byte>, ops: seq<Op>)
    requires forall i | 0 <= i < |ops| :: ops[i].Write? || ops[i].Read?
    ensures c + Written(ops) == Returned(c, ops) + LeftAfter(c, ops)
  {
    FirstInFirstOut(c, ops);
    OnlyReadsTake(c, ops);
  }

  lemma {:induction false} OnlyReadsTake(c: seq<Byte>, ops: seq<Op>)
    requires forall i | 0 <= i < |ops| :: ops[i].Write? || ops[i].Read?
    ensures TakenBy(c, ops) == Returned(c, ops)
    decreases ops
  {
    if ops != [] {
      assert ops[0].Write? || ops[0].Read?;
      OnlyReadsTake(Left(c, ops[0]), ops[1..]);
    }
  }

  lemma OneInOut(c: seq<Byte>, op: Op)
    ensures c + (if op.Write? then op.bytes else []) == Taken(c, op) + Left(c, op)
  {
  }

  lemma Regroup(c: seq<Byte>, w: seq<Byte>, t: seq<Byte>, d: seq<Byte>, ws: seq<Byte>, ts: seq<Byte>, rest: seq<Byte>)
    requires c + w == t + d && d + ws == ts + rest
    ensures c + (w + ws) == (t + ts) + rest
  {
    assert c + (w + ws) == (t + d) + ws;
    assert (t + d) + ws == t + (ts + rest);
  }

  lemma RunStep(c: seq<Byte>, ops: seq<Op>, i: nat, maxLen: nat)
    requires i < |ops|
    ensures LeftAfter(c, ops[i..]) == LeftAfter(Left(c, ops[i]), ops[i + 1..])
    ensures Returned(c, ops[i..]) == (if ops[i].Read? then Taken(c, ops[i]) else []) + Returned(Left(c, ops[i]), ops[i + 1..])
    ensures Within(maxLen, c, ops[i..]) <==>
      (ops[i].Write? ==> maxLen == 0 || |c| + |ops[i].bytes| <= maxLen) && Within(maxLen, Left(c, ops[i]), ops[i + 1..])
  {
    assert ops[i..][0] == ops[i] && ops[i..][1..] == ops[i + 1..];
  }

  lemma RunEnd(c: seq<Byte>, ops: seq<Op>)
    ensures LeftAfter(c, ops[|ops|..]) == c && Returned(c, ops[|ops|..]) == []
  {
  }

  class Buffer {
    var data: array<Byte>
    var head: nat
    var used: nat
    var actuallyUsed: nat
    var datalen: nat
    const maxLen: nat
    const blocksize: nat

    ghost predicate Valid()
      reads this
    {
      Sound(LayoutOf()) && datalen == data.Length > 0
    }

    function LayoutOf(): Layout
      reads this
    {
      Layout(head, used, actuallyUsed, datalen)
    }

    ghost function Contents(): seq<Byte>
      reads this, data
      requires head + used <= data.Length
    {
      data[head..head + used]
    }

    /** ks_buffer_create with a first allocation */
    constructor (block: nat, startLen: nat, max: nat)
      requires startLen > 0
      ensures Valid() && Contents() == [] && maxLen == max && blocksize == block && fresh(data)
    {
      data := new Byte[startLen](_ => 0);
      head, used, actuallyUsed, datalen, maxLen, blocksize := 0, 0, 0, startLen, max, block;
    }

    method ReadInto(into: array<Byte>, n: nat) returns (reading: nat)
      requires Valid() && n <= into.Length && into != data
      modifies this`used, this`head, into
      ensures Valid() && reading == if n <= |old(Contents())| then n else |old(Contents())|
      ensures into[..reading] == old(Contents())[..reading] && into[reading..] == old(into[reading..])
      ensures Contents() == old(Contents())[reading..]
    {
      if used < 1 {
        used := 0;
        return 0;
      }
      reading := if used >= n then n else used;
      CopyOut(into, reading);
      used := used - reading;
      head := head + reading;
    }

    method CopyOut(into: array<Byte>, reading: nat)
      requires Valid() && reading <= used && reading <= into.Length && into != data
      modifies into
      ensures into[..reading] == data[head..head + reading] && into[reading..] == old(into[reading..])
    {
      for i := 0 to reading
        invariant into[..i] == data[head..head + i] && into[reading..] == old(into[reading..])
      {
        into[i] := data[head + i];
      }
    }

    method TossBytes(n: nat) returns (r: nat)
      requires Valid()
      modifies this`used, this`head
      ensures Valid() && r == |Contents()|
      ensures Contents() == if n <= |old(Contents())| then old(Contents())[n..] else []
    {
      if used < 1 {
        used := 0;
        return 0;
      }
      var reading := if used >= n then n else used;
      used := used - reading;
      head := head + reading;
      r := used;
    }

    method ZeroAll()
      requires Valid()
      modifies this`used, this`head, this`actuallyUsed
      ensures Valid() && Contents() == []
    {
      used, actuallyUsed, head := 0, 0, 0;
    }

    /** ks_buffer_write; memory does not run out. */
    method WriteBytes(bytes: seq<Byte>) returns (r: nat)
      requires Valid() && (bytes != [] ==> MayWrite(LayoutOf(), maxLen, |bytes|))
      modifies this, data
      ensures Valid() && (data == old(data) || fresh(data))
      ensures Contents() == old(Contents()) + bytes && r == |Contents()|
    {
      var n := |bytes|;
      if n == 0 { return used; }
      MakeRoom(n);
      var freespace := datalen - used;
      if freespace < n { assert false; }
      CopyBehind(bytes);
      r := used;
    }

    /** Compaction and growth. */
    method MakeRoom(n: nat)
      requires Valid() && n > 0 && MayWrite(LayoutOf(), maxLen, n)
      modifies this`head, this`actuallyUsed, this`data, this`datalen, data
      ensures Valid() && (data == old(data) || fresh(data)) && Contents() == old(Contents())
      ensures LayoutOf() == ForCopy(old(LayoutOf()), maxLen, blocksize, n) && head + used + n <= data.Length
    {
      WriteIsRightIff(LayoutOf(), maxLen, blocksize, n);
      var actualFreespace := datalen - actuallyUsed;
      if actualFreespace < n && (maxLen == 0 || used + n <= maxLen) { MoveToFront(); }
      ghost var c := Contents();
      var freespace := datalen - used;
      if freespace < n {
        ghost var d := data[..];
        Enlarge(n);
        assert data[..used] == d[..used] == c;
      }
    }

    method MoveToFront()
      requires Valid()
      modifies this`head, this`actuallyUsed, data
      ensures Valid() && head == 0 && actuallyUsed == used && Contents() == old(Contents())
    {
      for i := 0 to used
        invariant head == old(head) && used == old(used) && data[..i] == old(data[head..head + i])
        invariant data[i..] == old(data[i..])
      {
        data[i] := data[head + i];
      }
      head := 0;
      actuallyUsed := used;
    }

    method Enlarge(n: nat)
      requires Valid()
      modifies this`head, this`data, this`datalen
      ensures head == 0 && datalen == data.Length == NewSize(old(datalen), blocksize, n) && fresh(data)
      ensures data[..old(datalen)] == old(data[..])
    {
      var newSize := datalen + n;
      var newBlockSize := datalen + blocksize;
      if newBlockSize > newSize { newSize := newBlockSize; }
      head := 0;
      var data1 := new Byte[newSize](i requires 0 <= i < newSize reads this, data => if i < data.Length then data[i] else 0);
      data := data1;
      head := 0;
      datalen := newSize;
    }

    method CopyBehind(bytes: seq<Byte>)
      requires Valid() && head + used + |bytes| <= data.Length
      modifies this`used, this`actuallyUsed, data
      ensures Valid() && Contents() == old(Contents()) + bytes
    {
      for i := 0 to |bytes|
        invariant head == old(head) && used == old(used) && actuallyUsed == old(actuallyUsed)
        invariant data[..head + used + i] == old(data[..head + used]) + bytes[..i]
      {
        data[head + used + i] := bytes[i];
      }
      assert data[..head + used + |bytes|][head..] == old(data[..head + used])[head..] + bytes;
      used := used + |bytes|;
      actuallyUsed := actuallyUsed + |bytes|;
    }

    /** Any one operation, within the limit. */
    method Perform(op: Op) returns (out: seq<Byte>)
      requires Valid() && (op.Write? ==> maxLen == 0 || used + |op.bytes| <= maxLen)
      modifies this, data
      ensures Valid() && (data == old(data) || fresh(data)) && Contents() == Left(old(Contents()), op)
      ensures out == if op.Read? then Taken(old(Contents()), op) else []
    {
      out := [];
      match op
      case Write(b) => var _ := WriteBytes(b);
      case Read(n) =>
        var into := new Byte[n];
        var reading := ReadInto(into, n);
        out := into[..reading];
      case Toss(n) => var _ := TossBytes(n);
      case Zero => ZeroAll();
    }

    /** A run of operations that keeps the limit. */
    method PerformAll(ops: seq<Op>) returns (out: seq<Byte>)
      requires Valid() && Within(maxLen, Contents(), ops)
      modifies this, data
      ensures Valid() && (data == old(data) || fresh(data)) && Contents() == LeftAfter(old(Contents()), ops)
      ensures out == Returned(old(Contents()), ops)
    {
      hide Left, Taken, LeftAfter, Returned, Within;
      out := [];
      var i := 0;
      assert ops[0..] == ops;
      ghost var c := Contents();
      while i < |ops|
        invariant 0 <= i <= |ops| && Valid() && (data == old(data) || fresh(data)) && Within(maxLen, Contents(), ops[i..])
        invariant LeftAfter(Contents(), ops[i..]) == LeftAfter(c, ops)
        invariant out + Returned(Contents(), ops[i..]) == Returned(c, ops)
      {
        RunStep(Contents(), ops, i, maxLen);
        var o := Perform(ops[i]);
        out := out + o;
        i := i + 1;
      }
      RunEnd(Contents(), ops);
    }
  }
}
