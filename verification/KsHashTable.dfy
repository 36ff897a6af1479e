/** ks_hash.c: the hash table with its linked chains, and its iterator. */
module KsHashTable {
  import opened Octets
  import opened KsHash

  class Entry {
    const k: Key
    const v: Value
    const h: nat
    var next: Entry?

    constructor (key: Key, value: Value, hash: nat)
      ensures k == key && v == value && h == hash && next == null
    {
      k, v, h, next := key, value, hash, null;
    }
  }

  /** first leads through all of c and ends. */
  ghost predicate Linked(first: Entry?, c: seq<Entry>)
    reads c`next
  {
    && first == (if c == [] then null else c[0])
    && (forall i {:trigger c[i].next} | 0 <= i < |c| :: c[i].next == if i == |c| - 1 then null else c[i + 1])
    && (forall i, j | 0 <= i < j < |c| :: c[i] != c[j])
  }

  function PairOf(e: Entry): Pair {
    Pair(e.k, e.v, e.h)
  }

  function PairsOf(c: seq<Entry>): (s: Chain)
    ensures |s| == |c| && forall i | 0 <= i < |c| :: s[i] == PairOf(c[i])
  {
    seq(|c|, i requires 0 <= i < |c| => PairOf(c[i]))
  }

  function ViewOf(chains: seq<seq<Entry>>): (b: seq<Chain>)
    ensures |b| == |chains| && forall i | 0 <= i < |chains| :: b[i] == PairsOf(chains[i])
  {
    seq(|chains|, i requires 0 <= i < |chains| => PairsOf(chains[i]))
  }

  ghost function Nodes(chains: seq<seq<Entry>>): set<Entry> {
    set i, j | 0 <= i < |chains| && 0 <= j < |chains[i]| :: chains[i][j]
  }

  /** Every entry stands in the chain of its hash, so no two chains share one. */
  ghost predicate Homed(chains: seq<seq<Entry>>) {
    |chains| > 0 && forall i, e | 0 <= i < |chains| && e in chains[i] :: Index(e.h, |chains|) == i
  }

  ghost predicate LinkedAll(cells: seq<Entry?>, chains: seq<seq<Entry>>)
    reads Nodes(chains)`next
  {
    |cells| == |chains| && forall i | 0 <= i < |chains| :: (Sub(chains, i); Linked(cells[i], chains[i]))
  }

  lemma Sub(chains: seq<seq<Entry>>, i: nat)
    requires i < |chains|
    ensures forall e | e in chains[i] :: e in Nodes(chains)
  {
  }

  lemma Other(chains: seq<seq<Entry>>, i: nat, k: nat)
    requires Homed(chains) && i < |chains| && k < |chains| && i != k
    ensures forall e | e in chains[i] :: e !in chains[k]
  {
    forall e | e in chains[i] ensures e !in chains[k] {
      assert Index(e.h, |chains|) == i;
    }
  }

  /** Takes the j-th entry out of chain i. */
  method Unlink(t: array<Entry?>, i: nat, prev: Entry?, e: Entry, ghost chains: seq<seq<Entry>>, ghost j: nat)
    requires Homed(chains) && LinkedAll(t[..], chains) && i < |chains| && j < |chains[i]| && e == chains[i][j]
    requires prev == if j == 0 then null else chains[i][j - 1]
    modifies t, Nodes(chains)
    ensures LinkedAll(t[..], chains[i := chains[i][..j] + chains[i][j + 1..]])
  {
    ghost var c := chains[i];
    ghost var d := c[..j] + c[j + 1..];
    assert Linked(t[..][i], c);
    if prev == null { t[i] := e.next; } else { prev.next := e.next; }
    assert Linked(t[i], d);
    forall k | 0 <= k < |chains| && k != i ensures Linked(t[..][k], chains[k]) {
      Other(chains, i, k);
      assert prev != null ==> prev in c && prev !in chains[k];
      assert old(Linked(t[..][k], chains[k]));
    }
  }

  method PushFront(t: array<Entry?>, i: nat, e: Entry, ghost chains: seq<seq<Entry>>)
    requires LinkedAll(t[..], chains) && i < |chains| && e !in Nodes(chains)
    modifies t, e`next
    ensures LinkedAll(t[..], chains[i := [e] + chains[i]])
  {
    assert Linked(t[..][i], chains[i]);
    e.next := t[i];
    t[i] := e;
    Sub(chains, i);
    assert Linked(t[i], [e] + chains[i]);
    forall k | 0 <= k < |chains| && k != i ensures Linked(t[..][k], chains[k]) {
      Sub(chains, k);
      assert old(Linked(t[..][k], chains[k]));
    }
  }

  method PopFront(t: array<Entry?>, i: nat, ghost chains: seq<seq<Entry>>) returns (e: Entry)
    requires LinkedAll(t[..], chains) && i < |chains| && chains[i] != []
    modifies t
    ensures e == chains[i][0] && LinkedAll(t[..], chains[i := chains[i][1..]])
  {
    assert Linked(t[..][i], chains[i]);
    e := t[i];
    t[i] := e.next;
    assert Linked(t[i], chains[i][1..]);
    forall k | 0 <= k < |chains| && k != i ensures Linked(t[..][k], chains[k]) {
      assert old(Linked(t[..][k], chains[k]));
    }
  }

  lemma {:induction false} UnchainAt(f: Keys, c: seq<Entry>, k: Key, j: nat)
    requires j < |c| && f.hash(k) == c[j].h && f.eq(k, c[j].k)
    requires forall i | 0 <= i < j :: !(f.hash(k) == c[i].h && f.eq(k, c[i].k))
    ensures Unchain(f, PairsOf(c), k) == (PairsOf(c[..j] + c[j + 1..]), Some(c[j].v))
    ensures Find(f, PairsOf(c), k) == Some(c[j].v)
  {
    assert PairsOf(c)[1..] == PairsOf(c[1..]);
    if j == 0 {
      assert c[..j] + c[j + 1..] == c[1..];
    } else {
      UnchainAt(f, c[1..], k, j - 1);
      assert c[..j] + c[j + 1..] == [c[0]] + (c[1..][..j - 1] + c[1..][j..]);
      assert PairsOf(c[..j] + c[j + 1..]) == [PairOf(c[0])] + PairsOf(c[1..][..j - 1] + c[1..][j..]);
    }
  }

  lemma {:induction false} UnchainNone(f: Keys, c: seq<Entry>, k: Key)
    requires forall i | 0 <= i < |c| :: !(f.hash(k) == c[i].h && f.eq(k, c[i].k))
    ensures Unchain(f, PairsOf(c), k) == (PairsOf(c), None) && Find(f, PairsOf(c), k) == None
  {
    if c != [] {
      assert PairsOf(c) == [PairOf(c[0])] + PairsOf(c[1..]);
      UnchainNone(f, c[1..], k);
    }
  }

  lemma ViewUpdate(chains: seq<seq<Entry>>, i: nat, c: seq<Entry>)
    requires i < |chains|
    ensures ViewOf(chains[i := c]) == ViewOf(chains)[i := PairsOf(c)]
  {
  }

  class HashTable {
    const keys: Keys
    var tablelength: nat
    var table: array<Entry?>
    var entrycount: nat
    var loadlimit: nat
    var primeindex: nat
    ghost var chains: seq<seq<Entry>>

    ghost predicate Valid()
      reads this, table, Nodes(chains)
    {
      && Homed(chains) && LinkedAll(table[..], chains)
      && tablelength == table.Length && primeindex < 26 && loadlimit == Loads()[primeindex]
    }

    ghost function TableOf(): Table
      reads this
    {
      Table(ViewOf(chains), entrycount, primeindex)
    }

    /** The invariant between two calls. */
    ghost predicate Whole()
      reads this, table, Nodes(chains)
    {
      Valid() && Placed(keys, ViewOf(chains)) && Sized(TableOf())
    }

    /** ks_hash_create_ex for a size that it does not refuse. */
    constructor (f: Keys, minsize: nat)
      requires minsize <= MAX_MINSIZE
      ensures Whole() && keys == f && Some(TableOf()) == Create(minsize) && fresh(table) && Nodes(chains) == {}
    {
      var m := if minsize == 0 then 16 else minsize;
      var pindex := 0;
      while Primes()[pindex] <= m
        invariant pindex < 26 && forall i | 0 <= i < pindex :: Primes()[i] <= m
        decreases 26 - pindex
      {
        pindex := pindex + 1;
      }
      PrimeAboveIs(m, 0, pindex);
      var size := Primes()[pindex];
      keys := f;
      table := new Entry?[size](_ => null);
      tablelength, primeindex, entrycount := size, pindex, 0;
      loadlimit := Loads()[pindex];
      chains := seq(size, i => []);
      CreateIsRight(f, minsize);
      new;
      assert ViewOf(chains) == seq(size, i => []);
    }

    /** _ks_hash_remove; 0 is NULL. */
    method RemoveAt(k: Key, hashvalue: nat, index: nat) returns (v: Value)
      requires Valid() && hashvalue == keys.hash(k) && index == Index(hashvalue, tablelength)
      requires entrycount == |Flat(ViewOf(chains))|
      modifies this`entrycount, this`chains, table, Nodes(chains)
      ensures old(chains[index] != [] && hashvalue == chains[index][0].h && keys.eq(k, chains[index][0].k)) ==>
        chains == old(chains[index := chains[index][1..]])
      ensures Valid() && Nodes(chains) <= old(Nodes(chains))
      ensures TableOf() == Remove(keys, old(TableOf()), k).0
      ensures v == match Remove(keys, old(TableOf()), k).1 case Some(w) => w case None => 0
    {
      hide Primes, Loads;
      ghost var c := chains[index];
      ghost var j := 0;
      assert Linked(table[..][index], c);
      var prev: Entry? := null;
      var e := table[index];
      while e != null
        invariant 0 <= j <= |c| && e == (if j == |c| then null else c[j]) && prev == if j == 0 then null else c[j - 1]
        invariant forall i | 0 <= i < j :: !(hashvalue == c[i].h && keys.eq(k, c[i].k))
        decreases |c| - j
      {
        if hashvalue == e.h && keys.eq(k, e.k) {
          UnchainAt(keys, c, k, j);
          assert keys.hash(k) == c[0].h && keys.eq(k, c[0].k) ==> j == 0;
          TakeOut(index, prev, e, j);
          return e.v;
        }
        prev := e;
        e := e.next;
        j := j + 1;
      }
      UnchainNone(keys, c, k);
      return 0;
    }

    method TakeOut(index: nat, prev: Entry?, e: Entry, ghost j: nat)
      requires Valid() && index < |chains| && j < |chains[index]| && e == chains[index][j]
      requires prev == if j == 0 then null else chains[index][j - 1]
      requires entrycount == |Flat(ViewOf(chains))|
      modifies this`entrycount, this`chains, table, Nodes(chains)
      ensures Valid() && Nodes(chains) <= old(Nodes(chains)) && entrycount == old(entrycount) - 1
      ensures j == 0 ==> chains == old(chains[index := chains[index][1..]])
      ensures chains == old(chains[index := chains[index][..j] + chains[index][j + 1..]])
      ensures ViewOf(chains) == old(ViewOf(chains))[index := PairsOf(old(chains[index][..j] + chains[index][j + 1..]))]
    {
      hide LinkedAll, Primes, Loads;
      ghost var c := chains[index];
      ghost var d := c[..j] + c[j + 1..];
      assert j == 0 ==> d == c[1..];
      ViewUpdate(chains, index, d);
      FlatAt(ViewOf(chains), index, PairsOf(c));
      Unlink(table, index, prev, e, chains, j);
      entrycount := entrycount - 1;
      chains := chains[index := d];
    }

    method RemoveKey(k: Key) returns (v: Value)
      requires Whole()
      modifies this`entrycount, this`chains, table, Nodes(chains)
      ensures Whole() && Nodes(chains) <= old(Nodes(chains))
      ensures HeadMatches(old(chains), k) ==> chains == old(WithoutHead(chains, k))
      ensures TableOf() == Remove(keys, old(TableOf()), k).0
      ensures v == match Remove(keys, old(TableOf()), k).1 case Some(w) => w case None => 0
    {
      hide Primes, Loads;
      RemoveKeepsShape(keys, TableOf(), k);
      v := RemoveAt(k, keys.hash(k), Index(keys.hash(k), tablelength));
    }

    /** The first entry of k's chain is its match. */
    ghost predicate HeadMatches(cs: seq<seq<Entry>>, k: Key) {
      |cs| > 0 && var c := cs[Index(keys.hash(k), |cs|)]; c != [] && keys.hash(k) == c[0].h && keys.eq(k, c[0].k)
    }

    ghost function WithoutHead(cs: seq<seq<Entry>>, k: Key): seq<seq<Entry>>
      requires HeadMatches(cs, k)
    {
      var i := Index(keys.hash(k), |cs|);
      cs[i := cs[i][1..]]
    }

    /** ks_hash_insert_ex */
    method InsertKey(k: Key, v: Value, dupCheck: bool)
      requires Whole()
      modifies this, table, Nodes(chains)
      ensures Whole() && TableOf() == Insert(keys, old(TableOf()), k, v, dupCheck)
      ensures (table == old(table) || fresh(table)) && forall e | e in Nodes(chains) :: e in old(Nodes(chains)) || fresh(e)
    {
      hide Primes, Loads, Placed, Sized, LinkedAll, Flat, Homed, Remove, Expand;
      InsertKeepsShape(keys, TableOf(), k, v, dupCheck);
      var hashvalue := keys.hash(k);
      if dupCheck { var _ := RemoveKey(k); }
      entrycount := entrycount + 1;
      if entrycount > loadlimit { var _ := Grow(); }
      Link(k, v, hashvalue);
    }

    method Link(k: Key, v: Value, hashvalue: nat)
      requires Valid()
      modifies this`chains, table
      ensures Valid() && forall e | e in Nodes(chains) :: e in old(Nodes(chains)) || fresh(e)
      ensures ViewOf(chains) == Push(old(ViewOf(chains)), Pair(k, v, hashvalue))
    {
      hide Primes, Loads;
      var index := Index(hashvalue, tablelength);
      var e := new Entry(k, v, hashvalue);
      PushFront(table, index, e, chains);
      ViewUpdate(chains, index, [e] + chains[index]);
      assert PairsOf([e] + chains[index]) == [PairOf(e)] + PairsOf(chains[index]);
      NodesMore(chains, index, e);
      HomedMore(chains, index, e);
      chains := chains[index := [e] + chains[index]];
    }

    /** ks_hash_search */
    method SearchKey(k: Key) returns (v: Value)
      requires Valid()
      ensures v == match Search(keys, TableOf(), k) case Some(w) => w case None => 0
    {
      var hashvalue := keys.hash(k);
      var index := Index(hashvalue, tablelength);
      hide Primes, Loads;
      ghost var c := chains[index];
      ghost var j := 0;
      assert Linked(table[..][index], c);
      var e := table[index];
      while e != null
        invariant 0 <= j <= |c| && e == (if j == |c| then null else c[j])
        invariant forall i | 0 <= i < j :: !(hashvalue == c[i].h && keys.eq(k, c[i].k))
        decreases |c| - j
      {
        if hashvalue == e.h && keys.eq(k, e.k) {
          UnchainAt(keys, c, k, j);
          return e.v;
        }
        e := e.next;
        j := j + 1;
      }
      UnchainNone(keys, c, k);
      v := 0;
    }

    /** ks_hash_expand; memory does not run out. */
    method Grow() returns (r: int)
      requires Valid()
      modifies this, table, Nodes(chains)
      ensures Valid() && (table == old(table) || fresh(table)) && Nodes(chains) == old(Nodes(chains))
      ensures TableOf() == Expand(old(TableOf()))
      ensures r == if old(primeindex) == 25 then 0 else -1
    {
      hide Primes, Loads;
      if primeindex == 25 { return 0; }
      assert |chains| == table.Length;
      hide LinkedAll, Rehash, Flat;
      primeindex := primeindex + 1;
      LoadsGrow(primeindex);
      var newsize := Primes()[primeindex];
      var newtable;
      newtable, chains := MoveAll(table, chains, newsize);
      table := newtable;
      tablelength := newsize;
      loadlimit := Loads()[primeindex];
      r := -1;
    }
  }

  /** The loop of ks_hash_expand over a table that it empties into a new one. */
  method MoveAll(table: array<Entry?>, ghost chains: seq<seq<Entry>>, newsize: nat) returns (newtable: array<Entry?>, ghost news: seq<seq<Entry>>)
    requires newsize > 0 && Homed(chains) && LinkedAll(table[..], chains)
    modifies table, Nodes(chains)
    ensures fresh(newtable) && newtable.Length == newsize && Homed(news) && LinkedAll(newtable[..], news)
    ensures Nodes(news) == Nodes(chains) && ViewOf(news) == Rehash(Flat(ViewOf(chains)), seq(newsize, i => []))
  {
    assert |chains| == table.Length;
    hide Moving, LinkedAll, Flat, Rehash, Homed;
    newtable := new Entry?[newsize](_ => null);
    news := seq(newsize, i => []);
    assert ViewOf(news) == seq(newsize, i => []);
    ghost var goal := Rehash(Flat(ViewOf(chains)), ViewOf(news));
    ghost var left := chains;
    FirstMoving(table, left, newtable, news, Nodes(chains), goal);
    for i := 0 to table.Length
      invariant |left| == table.Length && Moving(table, left, newtable, news, Nodes(chains), goal, i)
    {
      left, news := MoveChain(table, left, newtable, news, Nodes(chains), goal, i);
    }
    LastMoving(table, left, newtable, news, Nodes(chains), goal);
  }

  /** Expansion under way: the chains before i have been emptied, every entry is in one of the tables, and what is left to
      be moved will give the goal. */
  ghost predicate Moving(table: array<Entry?>, left: seq<seq<Entry>>, newtable: array<Entry?>, news: seq<seq<Entry>>, all: set<Entry>, goal: seq<Chain>, i: nat)
    reads table, newtable, Nodes(left)`next, Nodes(news)`next
  {
    && table != newtable && i <= |left| && (forall k | 0 <= k < i :: left[k] == [])
    && Homed(left) && Homed(news) && LinkedAll(table[..], left) && LinkedAll(newtable[..], news)
    && Nodes(left) !! Nodes(news) && Nodes(left) + Nodes(news) == all
    && Rehash(Flat(ViewOf(left)), ViewOf(news)) == goal
  }

  /** What moving the first entry of the first chain does. */
  lemma MoveStep(left: seq<seq<Entry>>, news: seq<seq<Entry>>, i: nat)
    requires i < |left| && left[i] != [] && |news| > 0 && forall k | 0 <= k < i :: left[k] == []
    ensures var e := left[i][0]; var x := Index(e.h, |news|);
      Rehash(Flat(ViewOf(left)), ViewOf(news))
      == Rehash(Flat(ViewOf(left[i := left[i][1..]])), ViewOf(news[x := [e] + news[x]]))
  {
    hide Flat;
    var e := left[i][0];
    var x := Index(e.h, |news|);
    var c := left[i][1..];
    ViewUpdate(left, i, c);
    FlatAt(ViewOf(left), i, PairsOf(c));
    EmptyFlat(ViewOf(left)[..i]);
    assert PairsOf(left[i]) == [PairOf(e)] + PairsOf(c);
    assert Flat(ViewOf(left)) == [PairOf(e)] + Flat(ViewOf(left[i := c]));
    ViewUpdate(news, x, [e] + news[x]);
    assert PairsOf([e] + news[x]) == [PairOf(e)] + PairsOf(news[x]);
  }

  lemma MoveNodes(left: seq<seq<Entry>>, news: seq<seq<Entry>>, i: nat)
    requires i < |left| && left[i] != [] && Homed(left) && Homed(news) && Nodes(left) !! Nodes(news)
    requires forall a, b | 0 <= a < b < |left[i]| :: left[i][a] != left[i][b]
    ensures var e := left[i][0]; var x := Index(e.h, |news|); var l := left[i := left[i][1..]]; var n := news[x := [e] + news[x]];
      && Homed(l) && Homed(n) && Nodes(l) == Nodes(left) - {e} && Nodes(n) == Nodes(news) + {e} && e in Nodes(left)
  {
    var e := left[i][0];
    var x := Index(e.h, |news|);
    var l := left[i := left[i][1..]];
    var n := news[x := [e] + news[x]];
    forall k: nat, d: Entry | k < |l| && d in l[k] ensures Index(d.h, |l|) == k { assert d in left[k]; }
    forall k: nat, d: Entry | k < |n| && d in n[k] ensures Index(d.h, |n|) == k { assert d in news[k] || d == e; }
    NodesLess(left, i);
    NodesMore(news, x, e);
  }

  lemma NodesLess(left: seq<seq<Entry>>, i: nat)
    requires i < |left| && left[i] != [] && Homed(left)
    requires forall a, b | 0 <= a < b < |left[i]| :: left[i][a] != left[i][b]
    ensures Nodes(left[i := left[i][1..]]) == Nodes(left) - {left[i][0]} && left[i][0] in Nodes(left)
  {
    var e := left[i][0];
    var l := left[i := left[i][1..]];
    forall k, j | 0 <= k < |l| && 0 <= j < |l[k]| ensures l[k][j] in Nodes(left) && l[k][j] != e {
      if k == i { assert l[k][j] == left[k][j + 1]; } else { Other(left, i, k); assert e in left[i] && l[k][j] == left[k][j] && l[k][j] in left[k]; }
    }
    forall k, j | 0 <= k < |left| && 0 <= j < |left[k]| && left[k][j] != e ensures left[k][j] in Nodes(l) {
      if k == i { assert left[k][j] == l[k][j - 1]; } else { assert left[k][j] == l[k][j]; }
    }
  }

  lemma NodesMore(news: seq<seq<Entry>>, x: nat, e: Entry)
    requires x < |news|
    ensures Nodes(news[x := [e] + news[x]]) == Nodes(news) + {e}
  {
    var n := news[x := [e] + news[x]];
    forall k, j | 0 <= k < |news| && 0 <= j < |news[k]| ensures news[k][j] in Nodes(n) {
      if k == x { assert news[k][j] == n[k][j + 1]; } else { assert news[k][j] == n[k][j]; }
    }
    assert n[x][0] == e;
    forall k, j | 0 <= k < |n| && 0 <= j < |n[k]| ensures n[k][j] in Nodes(news) + {e} {
      if k == x { assert j > 0 ==> n[k][j] == news[k][j - 1]; } else { assert n[k][j] == news[k][j]; }
    }
  }

  lemma HomedMore(news: seq<seq<Entry>>, x: nat, e: Entry)
    requires Homed(news) && x == Index(e.h, |news|)
    ensures Homed(news[x := [e] + news[x]])
  {
    var n := news[x := [e] + news[x]];
    forall k: nat, d: Entry | k < |n| && d in n[k] ensures Index(d.h, |n|) == k { assert d in news[k] || d == e; }
  }

  lemma PrimeAboveIs(m: nat, i: nat, r: nat)
    requires m <= MAX_MINSIZE && i <= r < 26 && Primes()[r] > m && forall j | i <= j < r :: Primes()[j] <= m
    ensures PrimeAbove(m, i) == r
    decreases r - i
  {
    if i < r { PrimeAboveIs(m, i + 1, r); }
  }

  lemma FirstMoving(table: array<Entry?>, left: seq<seq<Entry>>, newtable: array<Entry?>, news: seq<seq<Entry>>, all: set<Entry>, goal: seq<Chain>)
    requires table != newtable && Homed(left) && LinkedAll(table[..], left) && all == Nodes(left)
    requires |news| == newtable.Length > 0 && (forall k | 0 <= k < |news| :: news[k] == [] && newtable[k] == null)
    requires goal == Rehash(Flat(ViewOf(left)), ViewOf(news))
    ensures Moving(table, left, newtable, news, all, goal, 0)
  {
  }

  lemma LastMoving(table: array<Entry?>, left: seq<seq<Entry>>, newtable: array<Entry?>, news: seq<seq<Entry>>, all: set<Entry>, goal: seq<Chain>)
    requires Moving(table, left, newtable, news, all, goal, |left|)
    ensures Homed(news) && LinkedAll(newtable[..], news) && Nodes(news) == all && ViewOf(news) == goal
  {
    EmptyFlat(ViewOf(left));
  }

  /** Empties one chain of the old table, first entry first. */
  method MoveChain(table: array<Entry?>, ghost left0: seq<seq<Entry>>, newtable: array<Entry?>, ghost news0: seq<seq<Entry>>, ghost all: set<Entry>, ghost goal: seq<Chain>, i: nat)
    returns (ghost left: seq<seq<Entry>>, ghost news: seq<seq<Entry>>)
    requires i < |left0| == table.Length && newtable.Length > 0 && Moving(table, left0, newtable, news0, all, goal, i)
    modifies table, newtable, all
    ensures |left| == |left0| && |news| == |news0| && Moving(table, left, newtable, news, all, goal, i + 1)
  {
    hide Moving, LinkedAll;
    left, news := left0, news0;
    Cells(table, left, newtable, news, all, goal, i);
    while table[i] != null
      invariant |left| == |left0| && |news| == |news0| == newtable.Length && Moving(table, left, newtable, news, all, goal, i)
      invariant table[i] == null <==> left[i] == []
      decreases |left[i]|
    {
      left, news := MoveOne(table, left, newtable, news, all, goal, i);
      Cells(table, left, newtable, news, all, goal, i);
    }
    NextMoving(table, left, newtable, news, all, goal, i);
  }

  lemma Cells(table: array<Entry?>, left: seq<seq<Entry>>, newtable: array<Entry?>, news: seq<seq<Entry>>, all: set<Entry>, goal: seq<Chain>, i: nat)
    requires Moving(table, left, newtable, news, all, goal, i) && i < |left|
    ensures |left| == table.Length && |news| == newtable.Length && (table[i] == null <==> left[i] == [])
  {
    assert Linked(table[..][i], left[i]);
  }

  lemma NextMoving(table: array<Entry?>, left: seq<seq<Entry>>, newtable: array<Entry?>, news: seq<seq<Entry>>, all: set<Entry>, goal: seq<Chain>, i: nat)
    requires Moving(table, left, newtable, news, all, goal, i) && i < |left| && left[i] == []
    ensures Moving(table, left, newtable, news, all, goal, i + 1)
  {
  }

  method MoveOne(table: array<Entry?>, ghost left0: seq<seq<Entry>>, newtable: array<Entry?>, ghost news0: seq<seq<Entry>>, ghost all: set<Entry>, ghost goal: seq<Chain>, i: nat)
    returns (ghost left: seq<seq<Entry>>, ghost news: seq<seq<Entry>>)
    requires i < |left0| == table.Length && |news0| == newtable.Length > 0 && left0[i] != []
    requires Moving(table, left0, newtable, news0, all, goal, i)
    modifies table, newtable, all
    ensures |left| == |left0| && |news| == |news0| && Moving(table, left, newtable, news, all, goal, i)
    ensures left == left0[i := left0[i][1..]]
  {
    hide LinkedAll, Flat, Rehash, Homed;
    DistinctChain(table, left0, i);
    MoveStep(left0, news0, i);
    MoveNodes(left0, news0, i);
    var e := PopFront(table, i, left0);
    left := left0[i := left0[i][1..]];
    var index := Index(e.h, newtable.Length);
    news := news0[index := [e] + news0[index]];
    PushFront(newtable, index, e, news0);
  }

  lemma DistinctChain(table: array<Entry?>, left: seq<seq<Entry>>, i: nat)
    requires LinkedAll(table[..], left) && i < |left|
    ensures forall a, b | 0 <= a < b < |left[i]| :: left[i][a] != left[i][b]
  {
    assert Linked(table[..][i], left[i]);
  }
}
