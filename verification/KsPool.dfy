/** ks_pool.c: the block list of a memory pool, its reference counts and its statistics. */
module KsPool {
  const SIZE_MODULUS: nat := 0x1_0000_0000_0000_0000

  datatype Status = Success | RefsExist | NotAllowed

  /** ks_pool_prefix_t with the memory behind it. */
  class Block {
    var size: nat
    var refs: nat
    var prev: Block?
    var next: Block?

    constructor (n: nat)
      ensures size == n && refs == 1 && prev == null && next == null
    {
      size, refs, prev, next := n, 1, null, null;
    }

    /** What realloc leaves in a new place. */
    constructor Copy(b: Block)
      ensures size == b.size && refs == b.refs && prev == b.prev && next == b.next
    {
      size, refs, prev, next := b.size, b.refs, b.prev, b.next;
    }
  }

  /** The list leads through all of c in both directions. */
  ghost predicate Chained(first: Block?, last: Block?, c: seq<Block>)
    reads c`prev, c`next
  {
    && first == (if c == [] then null else c[0])
    && last == (if c == [] then null else c[|c| - 1])
    && (forall i {:trigger c[i].next} | 0 <= i < |c| :: c[i].next == if i == |c| - 1 then null else c[i + 1])
    && (forall i {:trigger c[i].prev} | 0 <= i < |c| :: c[i].prev == if i == 0 then null else c[i - 1])
    && (forall i, j | 0 <= i < j < |c| :: c[i] != c[j])
  }

  /** A block as its users see it. */
  datatype Use = Use(size: nat, refs: nat)

  ghost function UsesOf(c: seq<Block>): (u: seq<Use>)
    reads c`size, c`refs
    ensures |u| == |c| && forall i | 0 <= i < |c| :: u[i] == Use(c[i].size, c[i].refs)
  {
    if c == [] then [] else UsesOf(c[..|c| - 1]) + [Use(c[|c| - 1].size, c[|c| - 1].refs)]
  }

  function Total(u: seq<Use>): nat {
    if u == [] then 0 else u[0].size + Total(u[1..])
  }

  lemma {:induction false} TotalJoin(u: seq<Use>, v: seq<Use>)
    ensures Total(u + v) == Total(u) + Total(v)
  {
    if u == [] {
      assert u + v == v;
    } else {
      TotalJoin(u[1..], v);
      assert (u + v)[1..] == u[1..] + v;
    }
  }

  /** One block more or less, or of another size. */
  lemma TotalAt(u: seq<Use>, i: nat, x: Use)
    requires i < |u|
    ensures Total(u[i := x]) == Total(u) - u[i].size + x.size
    ensures Total(u[..i] + u[i + 1..]) == Total(u) - u[i].size
  {
    TotalJoin(u[..i], u[i + 1..]);
    TotalJoin(u[..i], [u[i]] + u[i + 1..]);
    TotalJoin(u[..i], [x] + u[i + 1..]);
    assert u == u[..i] + ([u[i]] + u[i + 1..]);
    assert u[i := x] == u[..i] + ([x] + u[i + 1..]);
    assert ([x] + u[i + 1..])[1..] == u[i + 1..];
  }

  /** size_t arithmetic */
  function Wrap(x: int): nat {
    x % SIZE_MODULUS
  }

  lemma WrapAdd(x: int, y: int)
    ensures Wrap(Wrap(x) + y) == Wrap(x + y) && Wrap(Wrap(x) - y) == Wrap(x - y)
  {
    var q := x / SIZE_MODULUS;
    WrapShift(x + y, q);
    WrapShift(x - y, q);
  }

  lemma WrapShift(x: int, q: int)
    ensures Wrap(x - q * SIZE_MODULUS) == Wrap(x)
  {
    var a, b := x / SIZE_MODULUS, x % SIZE_MODULUS;
    assert x - q * SIZE_MODULUS == (a - q) * SIZE_MODULUS + b;
    Unique((a - q), b);
  }

  lemma Unique(a: int, b: nat)
    requires b < SIZE_MODULUS
    ensures Wrap(a * SIZE_MODULUS + b) == b
  {
  }

  lemma Around(first: Block?, last: Block?, c: seq<Block>, i: nat)
    requires Chained(first, last, c) && i < |c|
    ensures c[i].prev == if i == 0 then null else c[i - 1]
    ensures c[i].next == if i == |c| - 1 then null else c[i + 1]
    ensures c[i] !in c[..i] + c[i + 1..]
  {
  }

  class Pool {
    var first: Block?
    var last: Block?
    var allocC: nat
    var userAlloc: nat
    var maxAlloc: nat
    ghost var blocks: seq<Block>
    /** The net growth of blocks by all resizes so far. */
    ghost var growth: int

    ghost predicate Valid()
      reads this, blocks
    {
      && Chained(first, last, blocks)
      && allocC == |blocks|
      && userAlloc == Wrap(Total(UsesOf(blocks)) - growth)
      && (forall i | 0 <= i < |blocks| :: UsesOf(blocks)[i].refs > 0)
    }

    ghost function Uses(): seq<Use>
      reads this, blocks
    {
      UsesOf(blocks)
    }

    constructor ()
      ensures Valid() && blocks == [] && growth == 0
    {
      first, last, allocC, userAlloc, maxAlloc := null, null, 0, 0, 0;
      blocks, growth := [], 0;
    }

    method PushFirst(prefix: Block)
      requires Chained(first, last, blocks) && prefix !in blocks && prefix.prev == null && prefix.next == null
      modifies this`first, this`last, this`blocks, prefix`next, blocks`prev
      ensures blocks == [prefix] + old(blocks) && Chained(first, last, blocks)
    {
      prefix.next := first;
      if first != null { first.prev := prefix; }
      first := prefix;
      if last == null { last := prefix; }
      blocks := [prefix] + blocks;
    }

    method Unlink(prefix: Block, ghost i: nat)
      requires Chained(first, last, blocks) && i < |blocks| && prefix == blocks[i]
      modifies this`first, this`last, this`blocks, blocks`next, blocks`prev
      ensures blocks == old(blocks[..i] + blocks[i + 1..]) && Chained(first, last, blocks)
    {
      ghost var d := blocks[..i] + blocks[i + 1..];
      assert forall k | 0 <= k < i :: d[k] == blocks[k];
      assert forall k | i <= k < |d| :: d[k] == blocks[k + 1];
      if prefix.prev == null && prefix.next == null {
        first, last := null, null;
      } else if prefix.prev == null {
        first := prefix.next;
        first.prev := null;
      } else if prefix.next == null {
        last := prefix.prev;
        last.next := null;
      } else {
        prefix.prev.next := prefix.next;
        prefix.next.prev := prefix.prev;
      }
      blocks := d;
    }

    /** The neighbours learn where a block has gone. */
    method Relink(prefix: Block, ghost i: nat)
      requires Chained(first, last, blocks) && i < |blocks| && prefix !in blocks
      requires prefix.prev == blocks[i].prev && prefix.next == blocks[i].next
      modifies this`first, this`last, this`blocks, blocks`next, blocks`prev
      ensures blocks == old(blocks[i := prefix]) && Chained(first, last, blocks)
    {
      if prefix.prev != null { prefix.prev.next := prefix; } else { first := prefix; }
      if prefix.next != null { prefix.next.prev := prefix; } else { last := prefix; }
      blocks := blocks[i := prefix];
    }

    /** alloc_mem */
    method Alloc(size: nat) returns (b: Block)
      requires Valid() && size > 0
      modifies this, blocks`prev
      ensures Valid() && fresh(b) && blocks == [b] + old(blocks) && growth == old(growth)
      ensures Uses() == [Use(size, 1)] + old(Uses())
      ensures userAlloc == (old(userAlloc) + size) % 0x1_0000_0000_0000_0000
      ensures maxAlloc == if userAlloc > old(maxAlloc) then userAlloc else old(maxAlloc)
    {
      hide Chained, UsesOf;
      ghost var u := Uses();
      b := AddBlock(size);
      allocC := allocC + 1;
      userAlloc := Wrap(userAlloc + size);
      if userAlloc > maxAlloc { maxAlloc := userAlloc; }
      WrapAdd(Total(u) - growth, size);
    }

    method AddBlock(size: nat) returns (b: Block)
      requires Chained(first, last, blocks)
      modifies this`first, this`last, this`blocks, blocks`prev
      ensures fresh(b) && blocks == [b] + old(blocks) && Chained(first, last, blocks)
      ensures Uses() == [Use(size, 1)] + old(Uses()) && Total(Uses()) == size + Total(old(Uses()))
    {
      hide Chained, UsesOf;
      ghost var u := Uses();
      b := new Block(size);
      PushFirst(b);
      UsesFront(blocks);
      assert UsesOf(blocks[1..]) == u;
    }

    /** free_mem: the block leaves with its last reference. */
    method Free(b: Block, ghost i: nat) returns (r: Status)
      requires Valid() && i < |blocks| && b == blocks[i]
      modifies this, blocks
      ensures Valid() && growth == old(growth)
      ensures if old(b.refs) > 1 then r == RefsExist && blocks == old(blocks) && Uses() == old(Uses()[i := Use(b.size, b.refs - 1)])
              else r == Success && blocks == old(blocks[..i] + blocks[i + 1..]) && Uses() == old(Uses()[..i] + Uses()[i + 1..])
      ensures userAlloc == if old(b.refs) > 1 then old(userAlloc) else (old(userAlloc) - old(b.size)) % 0x1_0000_0000_0000_0000
      ensures maxAlloc == old(maxAlloc)
    {
      hide Chained, UsesOf;
      ghost var u := Uses();
      TotalAt(u, i, Use(b.size, b.refs - 1));
      SetRefs(b, i, b.refs - 1);
      if b.refs > 0 { return RefsExist; }
      WithoutUpdated(u, i, Use(b.size, 0));
      Release(b, i);
      r := Success;
    }

    method Release(b: Block, ghost i: nat)
      requires Chained(first, last, blocks) && i < |blocks| && b == blocks[i]
      requires allocC == |blocks| && userAlloc == Wrap(Total(UsesOf(blocks)) - growth)
      requires forall k | 0 <= k < |blocks| && k != i :: UsesOf(blocks)[k].refs > 0
      modifies this`first, this`last, this`blocks, this`allocC, this`userAlloc, blocks`next, blocks`prev
      ensures Valid() && blocks == old(blocks[..i] + blocks[i + 1..])
      ensures Uses() == old(Uses()[..i] + Uses()[i + 1..]) && userAlloc == Wrap(old(userAlloc) - old(b.size))
    {
      hide Chained, UsesOf, Wrap;
      ghost var u := Uses();
      TotalAt(u, i, u[i]);
      WrapAdd(Total(u) - growth, b.size);
      StillShared(u, i);
      hide Total;
      DropBlock(b, i);
      allocC := allocC - 1;
      userAlloc := Wrap(userAlloc - b.size);
    }

    method DropBlock(b: Block, ghost i: nat)
      requires Chained(first, last, blocks) && i < |blocks| && b == blocks[i]
      modifies this`first, this`last, this`blocks, blocks`next, blocks`prev
      ensures blocks == old(blocks[..i] + blocks[i + 1..]) && Chained(first, last, blocks)
      ensures Uses() == old(Uses()[..i] + Uses()[i + 1..])
    {
      hide Chained, UsesOf;
      UsesWithout(blocks, i);
      Unlink(b, i);
    }

    method SetRefs(b: Block, ghost i: nat, refs: nat)
      requires Chained(first, last, blocks) && i < |blocks| && b == blocks[i]
      modifies b`refs
      ensures Chained(first, last, blocks) && b.refs == refs && Uses() == old(Uses()[i := Use(b.size, refs)])
    {
      b.refs := refs;
      assert Uses() == old(Uses()[i := Use(b.size, refs)]);
    }

    /** ks_pool_ref_ex */
    method Ref(b: Block, ghost i: nat)
      requires Valid() && i < |blocks| && b == blocks[i]
      modifies b`refs
      ensures Valid() && Uses() == old(Uses()[i := Use(b.size, b.refs + 1)])
    {
      hide Chained, UsesOf, Wrap;
      TotalAt(Uses(), i, Use(b.size, b.refs + 1));
      SetRefs(b, i, b.refs + 1);
    }

    /** __ks_pool_resize_ex: realloc may leave the block where it is or move it. A shared block is refused, which the code
        then treats as a failed assertion. user_alloc is not told. */
    method Resize(b: Block, newSize: nat, ghost i: nat) returns (r: Status, nb: Block)
      requires Valid() && i < |blocks| && b == blocks[i] && newSize > 0
      modifies this`first, this`last, this`blocks, this`growth, blocks
      ensures Valid() && (nb == b || fresh(nb)) && blocks == old(blocks[i := nb])
      ensures if old(b.refs) > 1 then r == NotAllowed && nb == b && Uses() == old(Uses()) && growth == old(growth)
              else r == Success && Uses() == old(Uses()[i := Use(newSize, 1)]) && growth == old(growth + newSize - b.size)
    {
      hide Chained, UsesOf, Wrap;
      assert blocks[i := b] == blocks;
      if b.refs > 1 { return NotAllowed, b; }
      if newSize == b.size {
        assert Uses()[i := Use(newSize, 1)] == Uses();
        return Success, b;
      }
      ghost var u := Uses();
      TotalAt(u, i, Use(newSize, 1));
      growth := growth + newSize - b.size;
      nb := Realloc(b, newSize, i);
      r := Success;
    }

    method Realloc(b: Block, newSize: nat, ghost i: nat) returns (nb: Block)
      requires Chained(first, last, blocks) && i < |blocks| && b == blocks[i]
      modifies this`first, this`last, this`blocks, blocks
      ensures (nb == b || fresh(nb)) && blocks == old(blocks[i := nb]) && Chained(first, last, blocks)
      ensures Uses() == old(Uses()[i := Use(newSize, b.refs)])
    {
      hide Chained;
      var moves := *;
      Around(first, last, blocks, i);
      if moves {
        nb := new Block.Copy(b);
        nb.size := newSize;
        Relink(nb, i);
      } else {
        nb := b;
        nb.size := newSize;
        assert blocks[i := nb] == blocks;
      }
      assert Uses() == old(Uses()[i := Use(newSize, b.refs)]);
    }
  }

  lemma StillShared(u: seq<Use>, i: nat)
    requires i < |u| && forall k | 0 <= k < |u| && k != i :: u[k].refs > 0
    ensures var v := u[..i] + u[i + 1..]; forall k | 0 <= k < |v| :: v[k].refs > 0
  {
  }

  lemma WithoutUpdated(u: seq<Use>, i: nat, x: Use)
    requires i < |u|
    ensures u[i := x][..i] + u[i := x][i + 1..] == u[..i] + u[i + 1..]
  {
  }

  lemma UsesFront(c: seq<Block>)
    requires c != []
    ensures UsesOf(c) == [Use(c[0].size, c[0].refs)] + UsesOf(c[1..])
  {
  }

  lemma UsesWithout(c: seq<Block>, i: nat)
    requires i < |c|
    ensures UsesOf(c[..i] + c[i + 1..]) == UsesOf(c)[..i] + UsesOf(c)[i + 1..]
  {
    hide UsesOf;
    var d := c[..i] + c[i + 1..];
    forall k | 0 <= k < |d| ensures UsesOf(d)[k] == (UsesOf(c)[..i] + UsesOf(c)[i + 1..])[k] {
      assert d[k] == if k < i then c[k] else c[k + 1];
    }
  }

  /** It is exact just as long as the resizes have cancelled out; an empty pool can be left with a count that is not 0. */
  lemma ExactIffNoNetGrowth(p: Pool)
    requires p.Valid() && Total(p.Uses()) < SIZE_MODULUS
    ensures p.userAlloc == Total(p.Uses()) <==> p.growth % 0x1_0000_0000_0000_0000 == 0
  {
  }
}
