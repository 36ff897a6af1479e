/** ks_hash.c: the hash table on values. Chains are sequences of pairs, first pair first. */
module KsHash {
  import opened Octets

  type Key = nat
  type Value = nat

  function Primes(): (s: seq<nat>)
    ensures |s| == 26
  {
    [53, 97, 193, 389, 769, 1543, 3079, 6151, 12289, 24593, 49157, 98317, 196613, 393241, 786433,
    1572869, 3145739, 6291469, 12582917, 25165843, 50331653, 100663319, 201326611, 402653189, 805306457, 1610612741]
  }

  /** (unsigned int) ceil(size * 0.65f) for these sizes, in single precision. */
  function Loads(): (s: seq<nat>)
    ensures |s| == 26
  {
    [35, 64, 126, 253, 500, 1003, 2002, 3999, 7988, 15986, 31953, 63907, 127799, 255607, 511182,
    1022365, 2044731, 4089455, 8178896, 16357798, 32715572, 65431156, 130862288, 261724560, 523449152, 1046898240]
  }

  const MAX_MINSIZE: nat := 0x4000_0000

  /** Each size is about twice the one before, and odd, and none is a multiple of a small prime; a load is 65 in 100 of the
      size, rounded up, with an error below 50 for the largest. */
  lemma TablesAreRight(i: nat)
    requires i < 26
    ensures i < 25 ==> 2 * Primes()[i] as int - 200 <= Primes()[i + 1] <= 2 * Primes()[i] + 200
    ensures forall d | d in {2, 3, 5, 7, 11, 13, 17, 19, 23} :: Primes()[i] % d != 0
    ensures 65 * Primes()[i] - (if i < 18 then 0 else 5000) <= 100 * Loads()[i] < 65 * Primes()[i] + 100
  {
  }

  lemma LoadsGrow(i: nat)
    requires i < 26
    ensures |Primes()| == |Loads()| == 26 && 0 < Loads()[i] < Primes()[i]
    ensures i < 25 ==> Loads()[i] < Loads()[i + 1]
  {
  }

  /** What the caller's functions owe: equality is an equivalence, and equal keys have the same hash. */
  datatype Keys = Keys(hash: Key -> nat, eq: (Key, Key) -> bool)

  ghost predicate Consistent(f: Keys) {
    && (forall a :: f.eq(a, a))
    && (forall a, b :: f.eq(a, b) ==> f.eq(b, a) && f.hash(a) == f.hash(b))
    && (forall a, b, c :: f.eq(a, b) && f.eq(b, c) ==> f.eq(a, c))
  }

  datatype Pair = Pair(k: Key, v: Value, h: nat)

  type Chain = seq<Pair>

  datatype Table = Table(buckets: seq<Chain>, entrycount: nat, primeindex: nat)

  function Create(minsize: nat): Option<Table> {
    var m := if minsize == 0 then 16 else minsize;
    if m > MAX_MINSIZE then None else Some(Table(seq(Primes()[PrimeAbove(m, 0)], i => []), 0, PrimeAbove(m, 0)))
  }

  /** The first prime from the i-th on that is above m. */
  function PrimeAbove(m: nat, i: nat): (r: nat)
    requires m <= MAX_MINSIZE && i < 26
    ensures i <= r < 26 && Primes()[r] > m
    ensures forall j | i <= j < r :: Primes()[j] <= m
    decreases 26 - i
  {
    if Primes()[i] > m then i else PrimeAbove(m, i + 1)
  }

  function Index(h: nat, length: nat): nat
    requires length > 0
  {
    h % length
  }

  /** A chain without its first match; the match. */
  function Unchain(f: Keys, c: Chain, k: Key): (Chain, Option<Value>) {
    if c == [] then (c, None)
    else if f.hash(k) == c[0].h && f.eq(k, c[0].k) then (c[1..], Some(c[0].v))
    else ([c[0]] + Unchain(f, c[1..], k).0, Unchain(f, c[1..], k).1)
  }

  function Find(f: Keys, c: Chain, k: Key): Option<Value> {
    if c == [] then None
    else if f.hash(k) == c[0].h && f.eq(k, c[0].k) then Some(c[0].v)
    else Find(f, c[1..], k)
  }

  /** Each pair, first to last, to the front of its new chain. */
  function Rehash(ps: seq<Pair>, buckets: seq<Chain>): (r: seq<Chain>)
    requires |buckets| > 0
    ensures |r| == |buckets|
  {
    if ps == [] then buckets
    else
      var i := Index(ps[0].h, |buckets|);
      Rehash(ps[1..], buckets[i := [ps[0]] + buckets[i]])
  }

  function Flat(buckets: seq<Chain>): seq<Pair> {
    if buckets == [] then [] else buckets[0] + Flat(buckets[1..])
  }

  function Expand(t: Table): Table
    requires t.primeindex < 26
  {
    if t.primeindex == 25 then t
    else
      var size := Primes()[t.primeindex + 1];
      t.(buckets := Rehash(Flat(t.buckets), seq(size, i => [])), primeindex := t.primeindex + 1)
  }

  function Remove(f: Keys, t: Table, k: Key): (Table, Option<Value>)
    requires |t.buckets| > 0
  {
    var i := Index(f.hash(k), |t.buckets|);
    var (c, v) := Unchain(f, t.buckets[i], k);
    (if v == None then t else t.(buckets := t.buckets[i := c], entrycount := if t.entrycount > 0 then t.entrycount - 1 else 0), v)
  }

  function Search(f: Keys, t: Table, k: Key): Option<Value>
    requires |t.buckets| > 0
  {
    Find(f, t.buckets[Index(f.hash(k), |t.buckets|)], k)
  }

  /** Putting a pair in front of its chain. */
  function Push(buckets: seq<Chain>, p: Pair): (r: seq<Chain>)
    requires |buckets| > 0
    ensures |r| == |buckets|
  {
    buckets[Index(p.h, |buckets|) := [p] + buckets[Index(p.h, |buckets|)]]
  }

  /** The part of an insertion behind the duplicate check. */
  function Added(f: Keys, t: Table, k: Key, v: Value): Table
    requires |t.buckets| > 0 && t.primeindex < 26
  {
    var t2 := t.(entrycount := t.entrycount + 1);
    var t3 := if t2.entrycount > Loads()[t2.primeindex] then Expand(t2) else t2;
    t3.(buckets := Push(t3.buckets, Pair(k, v, f.hash(k))))
  }

  function Insert(f: Keys, t: Table, k: Key, v: Value, dupCheck: bool): Table
    requires |t.buckets| > 0 && t.primeindex < 26
  {
    Added(f, if dupCheck then Remove(f, t, k).0 else t, k, v)
  }

  /** Every pair stands in the chain of its hash. */
  ghost predicate Placed(f: Keys, buckets: seq<Chain>) {
    |buckets| > 0 && forall i, j | 0 <= i < |buckets| && 0 <= j < |buckets[i]| ::
      buckets[i][j].h == f.hash(buckets[i][j].k) && Index(buckets[i][j].h, |buckets|) == i
  }

  /** In chain h mod tablelength. */
  lemma PlacedMeans(f: Keys, buckets: seq<Chain>)
    ensures Placed(f, buckets) <==>
      |buckets| > 0 && forall i, j | 0 <= i < |buckets| && 0 <= j < |buckets[i]| ::
        buckets[i][j].h == f.hash(buckets[i][j].k) && buckets[i][j].h % |buckets| == i
  {
  }

  ghost predicate Sized(t: Table) {
    && t.primeindex < 26 && |t.buckets| == Primes()[t.primeindex] && t.entrycount == |Flat(t.buckets)|
    && (t.primeindex < 25 ==> t.entrycount <= Loads()[t.primeindex])
  }

  /** The values that stand under keys equal to k. As a multiset it does not depend on the order of the pairs. */
  function Under(f: Keys, ps: seq<Pair>, k: Key): multiset<Value> {
    if ps == [] then multiset{}
    else (if f.eq(k, ps[0].k) then multiset{ps[0].v} else multiset{}) + Under(f, ps[1..], k)
  }

  /** No two pairs have equal keys. */
  ghost predicate Unique(f: Keys, ps: seq<Pair>) {
    forall k :: |Under(f, ps, k)| <= 1
  }

  ghost predicate Valid(f: Keys, t: Table) {
    Placed(f, t.buckets) && Sized(t) && Unique(f, Flat(t.buckets))
  }

  /** What the table stands for: the value under a key. */
  ghost predicate Has(f: Keys, t: Table, k: Key, v: Option<Value>) {
    Under(f, Flat(t.buckets), k) == if v == None then multiset{} else multiset{v.value}
  }

  lemma UnderFirst(f: Keys, a: seq<Pair>, k: Key)
    requires a != []
    ensures Under(f, a, k) == (if f.eq(k, a[0].k) then multiset{a[0].v} else multiset{}) + Under(f, a[1..], k)
  {
  }

  lemma {:induction false} UnderJoin(f: Keys, a: seq<Pair>, b: seq<Pair>, k: Key)
    ensures Under(f, a + b, k) == Under(f, a, k) + Under(f, b, k)
  {
    if a == [] {
      assert a + b == b;
    } else {
      UnderJoin(f, a[1..], b, k);
      assert (a + b)[1..] == a[1..] + b && (a + b)[0] == a[0];
      UnderFirst(f, a + b, k);
      UnderFirst(f, a, k);
      hide Under;
    }
  }

  lemma {:induction false} FlatJoin(a: seq<Chain>, b: seq<Chain>)
    ensures Flat(a + b) == Flat(a) + Flat(b)
  {
    if a == [] {
      assert a + b == b;
    } else {
      FlatJoin(a[1..], b);
      assert (a + b)[1..] == a[1..] + b;
    }
  }

  /** One chain in its place. */
  lemma FlatAt(buckets: seq<Chain>, i: nat, c: Chain)
    requires i < |buckets|
    ensures Flat(buckets[i := c]) == Flat(buckets[..i]) + c + Flat(buckets[i + 1..])
    ensures Flat(buckets) == Flat(buckets[..i]) + buckets[i] + Flat(buckets[i + 1..])
  {
    FlatSingle(buckets[i]);
    FlatSingle(c);
    assert buckets == buckets[..i] + [buckets[i]] + buckets[i + 1..];
    FlatJoin(buckets[..i] + [buckets[i]], buckets[i + 1..]);
    FlatJoin(buckets[..i], [buckets[i]]);
    assert buckets[i := c] == buckets[..i] + [c] + buckets[i + 1..];
    FlatJoin(buckets[..i] + [c], buckets[i + 1..]);
    FlatJoin(buckets[..i], [c]);
  }

  lemma FlatSingle(c: Chain)
    ensures Flat([c]) == c
  {
    assert [c][1..] == [];
  }

  lemma UnderAt(f: Keys, buckets: seq<Chain>, i: nat, c: Chain, k: Key)
    requires i < |buckets|
    ensures Under(f, Flat(buckets[i := c]), k) + Under(f, buckets[i], k) == Under(f, Flat(buckets), k) + Under(f, c, k)
    ensures Under(f, Flat(buckets), k) == Under(f, Flat(buckets[..i]), k) + Under(f, buckets[i], k) + Under(f, Flat(buckets[i + 1..]), k)
    ensures |Flat(buckets[i := c])| + |buckets[i]| == |Flat(buckets)| + |c|
  {
    hide Under, Flat;
    FlatAt(buckets, i, c);
    UnderJoin(f, Flat(buckets[..i]) + c, Flat(buckets[i + 1..]), k);
    UnderJoin(f, Flat(buckets[..i]), c, k);
    UnderJoin(f, Flat(buckets[..i]) + buckets[i], Flat(buckets[i + 1..]), k);
    UnderJoin(f, Flat(buckets[..i]), buckets[i], k);
  }

  /** All hashes in a chain are right. */
  predicate Hashed(f: Keys, ps: seq<Pair>) {
    forall j | 0 <= j < |ps| :: ps[j].h == f.hash(ps[j].k)
  }

  lemma {:induction false} UnchainEffect(f: Keys, c: Chain, k: Key, q: Key)
    requires Consistent(f) && Hashed(f, c)
    ensures Find(f, c, k).Some? ==>
      Under(f, c, q) == (if f.eq(q, k) then multiset{Find(f, c, k).value} else multiset{}) + Under(f, Unchain(f, c, k).0, q)
  {
    hide Consistent, Under;
    if c != [] {
      SameMatch(f, k, q, c[0].k);
      UnderFirst(f, c, q);
      if !f.eq(k, c[0].k) {
        assert Hashed(f, c[1..]);
        UnchainEffect(f, c[1..], k, q);
        var rest := Unchain(f, c[1..], k).0;
        UnderFirst(f, [c[0]] + rest, q);
        assert ([c[0]] + rest)[1..] == rest;
      }
    }
  }

  lemma {:induction false} UnchainFinds(f: Keys, c: Chain, k: Key)
    ensures Unchain(f, c, k).1 == Find(f, c, k)
    ensures Find(f, c, k) == None ==> Unchain(f, c, k).0 == c
    ensures Find(f, c, k).Some? ==> |Unchain(f, c, k).0| == |c| - 1
    ensures forall p | p in Unchain(f, c, k).0 :: p in c
  {
    if c != [] { UnchainFinds(f, c[1..], k); }
  }

  lemma {:induction false} FindNone(f: Keys, c: Chain, k: Key)
    requires Consistent(f) && Hashed(f, c)
    ensures if Find(f, c, k) == None then Under(f, c, k) == multiset{} else Find(f, c, k).value in Under(f, c, k)
  {
    if c != [] {
      assert Hashed(f, c[1..]);
      FindNone(f, c[1..], k);
    }
  }

  lemma SameMatch(f: Keys, k: Key, q: Key, e: Key)
    requires Consistent(f)
    ensures f.eq(k, e) ==> f.hash(k) == f.hash(e) && (f.eq(q, e) <==> f.eq(q, k))
  {
    if f.eq(k, e) {
      assert f.eq(e, k);
      assert f.eq(q, e) && f.eq(e, k) ==> f.eq(q, k);
      assert f.eq(q, k) && f.eq(k, e) ==> f.eq(q, e);
    }
  }

  lemma {:induction false} NoneUnder(f: Keys, ps: seq<Pair>, k: Key)
    requires forall j | 0 <= j < |ps| :: !f.eq(k, ps[j].k)
    ensures Under(f, ps, k) == multiset{}
  {
    if ps != [] { NoneUnder(f, ps[1..], k); }
  }

  lemma {:induction false} InFlat(buckets: seq<Chain>, p: Pair) returns (i: nat, j: nat)
    requires p in Flat(buckets)
    ensures i < |buckets| && j < |buckets[i]| && buckets[i][j] == p
  {
    if p in buckets[0] {
      i := 0;
      j :| 0 <= j < |buckets[0]| && buckets[0][j] == p;
    } else {
      i, j := InFlat(buckets[1..], p);
      i := i + 1;
    }
  }

  /** Chains other than that of its hash hold nothing under a key. */
  lemma {:induction false} OthersEmpty(f: Keys, buckets: seq<Chain>, k: Key)
    requires Consistent(f)
    requires forall i, j | 0 <= i < |buckets| && 0 <= j < |buckets[i]| :: buckets[i][j].h == f.hash(buckets[i][j].k) && buckets[i][j].h != f.hash(k)
    ensures Under(f, Flat(buckets), k) == multiset{}
  {
    if buckets != [] {
      forall j | 0 <= j < |buckets[0]| ensures !f.eq(k, buckets[0][j].k) {
        assert buckets[0][j].h != f.hash(k);
      }
      NoneUnder(f, buckets[0], k);
      OthersEmpty(f, buckets[1..], k);
      UnderJoin(f, buckets[0], Flat(buckets[1..]), k);
    }
  }

  /** Only one chain matters for a key. */
  lemma OneChain(f: Keys, buckets: seq<Chain>, k: Key)
    requires Consistent(f) && Placed(f, buckets)
    ensures Under(f, Flat(buckets), k) == Under(f, buckets[Index(f.hash(k), |buckets|)], k)
    ensures Hashed(f, buckets[Index(f.hash(k), |buckets|)])
  {
    var i := Index(f.hash(k), |buckets|);
    UnderAt(f, buckets, i, [], k);
    forall a, j | 0 <= a < |buckets[..i]| && 0 <= j < |buckets[..i][a]| ensures buckets[..i][a][j].h != f.hash(k) {
      assert Index(buckets[a][j].h, |buckets|) == a;
    }
    OthersEmpty(f, buckets[..i], k);
    var later: seq<Chain> := buckets[i + 1..];
    forall a: nat, j: nat | 0 <= a < |later| && 0 <= j < |later[a]| ensures later[a][j].h != f.hash(k) {
      assert later[a] == buckets[i + 1 + a];
      assert Index(buckets[i + 1 + a][j].h, |buckets|) == i + 1 + a;
    }
    OthersEmpty(f, later, k);
  }

  /** ks_hash_search finds what the table stands for. */
  lemma SearchIsRight(f: Keys, t: Table, k: Key)
    requires Consistent(f) && Valid(f, t)
    ensures Has(f, t, k, Search(f, t, k))
  {
    OneChain(f, t.buckets, k);
    var c := t.buckets[Index(f.hash(k), |t.buckets|)];
    FindNone(f, c, k);
    assert |Under(f, Flat(t.buckets), k)| <= 1;
    if Find(f, c, k).Some? {
      AtMostOne(Under(f, c, k), Find(f, c, k).value);
    }
  }

  lemma AtMostOne(m: multiset<Value>, v: Value)
    requires |m| <= 1 && v in m
    ensures m == multiset{v}
  {
    assert |m - multiset{v}| == 0;
    assert m == (m - multiset{v}) + multiset{v};
  }

  lemma RemoveUnder(f: Keys, t: Table, k: Key, q: Key)
    requires Consistent(f) && Valid(f, t)
    ensures Under(f, Flat(Remove(f, t, k).0.buckets), q) == if f.eq(q, k) then multiset{} else Under(f, Flat(t.buckets), q)
  {
    hide Under, Flat, Unchain, Find, Consistent;
    var i := Index(f.hash(k), |t.buckets|);
    var c := t.buckets[i];
    OneChain(f, t.buckets, k);
    UnchainFinds(f, c, k);
    UnchainEffect(f, c, k, q);
    FindNone(f, c, k);
    var d := Unchain(f, c, k).0;
    UnderAt(f, t.buckets, i, d, q);
    if Find(f, c, k) == None { assert t.buckets[i := d] == t.buckets; }
    assert Remove(f, t, k).0.buckets == t.buckets[i := d];
    var now := Under(f, Flat(t.buckets[i := d]), q);
    if Find(f, c, k).Some? {
      var x := if f.eq(q, k) then multiset{Find(f, c, k).value} else multiset{};
      assert now + (x + Under(f, d, q)) == (now + x) + Under(f, d, q);
      Cancel(now + x, Under(f, d, q), Under(f, Flat(t.buckets), q));
      AtMostOne(Under(f, Flat(t.buckets), k), Find(f, c, k).value);
      if f.eq(q, k) {
        SameUnder(f, Flat(t.buckets), q, k);
        Cancel(now, x, multiset{});
      } else {
        assert now + x == now;
      }
    } else if f.eq(q, k) {
      SameUnder(f, Flat(t.buckets), q, k);
    }
  }

  lemma {:induction false} SameUnder(f: Keys, ps: seq<Pair>, q: Key, k: Key)
    requires Consistent(f) && f.eq(q, k)
    ensures Under(f, ps, q) == Under(f, ps, k)
  {
    if ps != [] {
      SameUnder(f, ps[1..], q, k);
      var e := ps[0].k;
      assert f.eq(q, k) ==> f.eq(k, q);
      assert f.eq(k, q) && f.eq(q, e) ==> f.eq(k, e);
      assert f.eq(q, k) && f.eq(k, e) ==> f.eq(q, e);
    }
  }

  lemma RemoveKeepsShape(f: Keys, t: Table, k: Key)
    requires Placed(f, t.buckets) && Sized(t)
    ensures Placed(f, Remove(f, t, k).0.buckets) && Sized(Remove(f, t, k).0)
  {
    hide Flat, Unchain, Find;
    var i := Index(f.hash(k), |t.buckets|);
    var c := t.buckets[i];
    var d := Unchain(f, c, k).0;
    UnchainFinds(f, c, k);
    FlatAt(t.buckets, i, d);
    forall j | 0 <= j < |d| ensures d[j].h == f.hash(d[j].k) && Index(d[j].h, |t.buckets|) == i {
      assert d[j] in c;
    }
  }

  /** _ks_hash_remove: nothing under keys equal to k any more, everything else as before, and what was there is returned. */
  lemma RemoveIsRight(f: Keys, t: Table, k: Key)
    requires Consistent(f) && Valid(f, t)
    ensures Valid(f, Remove(f, t, k).0) && Remove(f, t, k).1 == Search(f, t, k)
    ensures Has(f, Remove(f, t, k).0, k, None)
    ensures forall q, v | !f.eq(q, k) && Has(f, t, q, v) :: Has(f, Remove(f, t, k).0, q, v)
    ensures Remove(f, t, k).0.entrycount == t.entrycount - if Search(f, t, k).Some? then 1 else 0
  {
    hide Under, Flat, Unchain, Find;
    RemoveKeepsShape(f, t, k);
    UnchainFinds(f, t.buckets[Index(f.hash(k), |t.buckets|)], k);
    forall q ensures Under(f, Flat(Remove(f, t, k).0.buckets), q) == if f.eq(q, k) then multiset{} else Under(f, Flat(t.buckets), q) {
      RemoveUnder(f, t, k, q);
    }
    if Search(f, t, k).Some? {
      SearchIsRight(f, t, k);
      if |Flat(t.buckets)| == 0 { EmptyUnder(f, Flat(t.buckets), k); }
    }
  }

  lemma EmptyUnder(f: Keys, ps: seq<Pair>, k: Key)
    requires |ps| == 0
    ensures Under(f, ps, k) == multiset{}
  {
  }

  lemma PushEffect(f: Keys, buckets: seq<Chain>, p: Pair, q: Key)
    requires |buckets| > 0
    ensures Under(f, Flat(Push(buckets, p)), q) == (if f.eq(q, p.k) then multiset{p.v} else multiset{}) + Under(f, Flat(buckets), q)
  {
    var i := Index(p.h, |buckets|);
    OneUnder(f, p, q);
    hide Under, Flat;
    UnderAt(f, buckets, i, [p] + buckets[i], q);
    UnderJoin(f, [p], buckets[i], q);
    var one := Under(f, [p], q);
    var here := Under(f, buckets[i], q);
    Cancel(Under(f, Flat(Push(buckets, p)), q), here, one + Under(f, Flat(buckets), q));
  }

  lemma Cancel(a: multiset<Value>, b: multiset<Value>, c: multiset<Value>)
    requires a + b == c + b
    ensures a == c
  {
    forall x ensures a[x] == c[x] { assert (a + b)[x] == (c + b)[x]; }
  }

  lemma OneUnder(f: Keys, p: Pair, q: Key)
    ensures Under(f, [p], q) == if f.eq(q, p.k) then multiset{p.v} else multiset{}
  {
  }

  lemma PushPairs(buckets: seq<Chain>, p: Pair)
    requires |buckets| > 0
    ensures multiset(Flat(Push(buckets, p))) == multiset{p} + multiset(Flat(buckets))
    ensures |Flat(Push(buckets, p))| == |Flat(buckets)| + 1
  {
    hide Flat;
    var i := Index(p.h, |buckets|);
    FlatAt(buckets, i, [p] + buckets[i]);
  }

  lemma PushPlaced(f: Keys, buckets: seq<Chain>, p: Pair)
    requires Placed(f, buckets) && p.h == f.hash(p.k)
    ensures Placed(f, Push(buckets, p))
  {
  }

  lemma {:induction false} RehashEffect(f: Keys, ps: seq<Pair>, buckets: seq<Chain>, q: Key)
    requires |buckets| > 0
    ensures Under(f, Flat(Rehash(ps, buckets)), q) == Under(f, ps, q) + Under(f, Flat(buckets), q)
    ensures multiset(Flat(Rehash(ps, buckets))) == multiset(ps) + multiset(Flat(buckets))
    ensures |Flat(Rehash(ps, buckets))| == |ps| + |Flat(buckets)|
  {
    hide Flat;
    if ps != [] {
      PushEffect(f, buckets, ps[0], q);
      PushPairs(buckets, ps[0]);
      RehashEffect(f, ps[1..], Push(buckets, ps[0]), q);
      assert ps == [ps[0]] + ps[1..];
    }
  }

  lemma {:induction false} RehashPlaced(f: Keys, ps: seq<Pair>, buckets: seq<Chain>)
    requires Placed(f, buckets) && Hashed(f, ps)
    ensures Placed(f, Rehash(ps, buckets))
  {
    hide Placed;
    if ps != [] {
      PushPlaced(f, buckets, ps[0]);
      RehashPlaced(f, ps[1..], Push(buckets, ps[0]));
    }
  }

  lemma {:induction false} EmptyFlat(buckets: seq<Chain>)
    requires forall i | 0 <= i < |buckets| :: buckets[i] == []
    ensures Flat(buckets) == []
  {
    if buckets != [] { EmptyFlat(buckets[1..]); }
  }

  lemma FlatHashed(f: Keys, buckets: seq<Chain>)
    requires Placed(f, buckets)
    ensures Hashed(f, Flat(buckets))
  {
    forall j | 0 <= j < |Flat(buckets)| ensures Flat(buckets)[j].h == f.hash(Flat(buckets)[j].k) {
      var a, b := InFlat(buckets, Flat(buckets)[j]);
    }
  }

  /** ks_hash_expand moves every pair and loses and doubles none; what the table stands for stays. */
  lemma ExpandIsRight(f: Keys, t: Table)
    requires Placed(f, t.buckets) && t.primeindex < 26
    ensures var u := Expand(t);
      && Placed(f, u.buckets) && u.entrycount == t.entrycount && (t.primeindex < 25 ==> |u.buckets| == Primes()[u.primeindex])
      && multiset(Flat(u.buckets)) == multiset(Flat(t.buckets)) && |Flat(u.buckets)| == |Flat(t.buckets)|
      && forall q :: Under(f, Flat(u.buckets), q) == Under(f, Flat(t.buckets), q)
  {
    hide Flat, Under, Rehash;
    if t.primeindex < 25 {
      var size := Primes()[t.primeindex + 1];
      var empty: seq<Chain> := seq(size, i => []);
      EmptyFlat(empty);
      FlatHashed(f, t.buckets);
      RehashPlaced(f, Flat(t.buckets), empty);
      forall q ensures Under(f, Flat(Rehash(Flat(t.buckets), empty)), q) == Under(f, Flat(t.buckets), q)
        ensures multiset(Flat(Rehash(Flat(t.buckets), empty))) == multiset(Flat(t.buckets))
        ensures |Flat(Rehash(Flat(t.buckets), empty))| == |Flat(t.buckets)|
      {
        RehashEffect(f, Flat(t.buckets), empty, q);
        EmptyUnder(f, [], q);
      }
      var any: Key := 0;
      RehashEffect(f, Flat(t.buckets), empty, any);
    }
  }

  lemma AddedIsRight(f: Keys, t: Table, k: Key, v: Value)
    requires Placed(f, t.buckets) && Sized(t)
    ensures Placed(f, Added(f, t, k, v).buckets) && Sized(Added(f, t, k, v))
    ensures forall q :: Under(f, Flat(Added(f, t, k, v).buckets), q)
                        == (if f.eq(q, k) then multiset{v} else multiset{}) + Under(f, Flat(t.buckets), q)
  {
    hide Flat, Under, Expand, Placed, Push;
    var t2 := t.(entrycount := t.entrycount + 1);
    var t3 := if t2.entrycount > Loads()[t2.primeindex] then Expand(t2) else t2;
    ExpandIsRight(f, t2);
    AddedUnder(f, t3, k, v);
    AddedSize(f, t, t3, k, v);
  }

  lemma AddedUnder(f: Keys, t: Table, k: Key, v: Value)
    requires Placed(f, t.buckets)
    ensures |t.buckets| > 0
    ensures var u := Push(t.buckets, Pair(k, v, f.hash(k)));
      Placed(f, u) && forall q :: Under(f, Flat(u), q) == (if f.eq(q, k) then multiset{v} else multiset{}) + Under(f, Flat(t.buckets), q)
  {
    hide Flat, Under, Push;
    var p := Pair(k, v, f.hash(k));
    PushPlaced(f, t.buckets, p);
    forall q ensures Under(f, Flat(Push(t.buckets, p)), q)
                     == (if f.eq(q, k) then multiset{v} else multiset{}) + Under(f, Flat(t.buckets), q) {
      PushEffect(f, t.buckets, p, q);
    }
  }

  lemma AddedSize(f: Keys, t: Table, t3: Table, k: Key, v: Value)
    requires Placed(f, t.buckets) && Sized(t)
    requires var t2 := t.(entrycount := t.entrycount + 1); t3 == if t2.entrycount > Loads()[t2.primeindex] then Expand(t2) else t2
    requires |t3.buckets| > 0
    ensures Sized(t3.(buckets := Push(t3.buckets, Pair(k, v, f.hash(k)))))
  {
    hide Flat, Expand, Placed, Push;
    var t2 := t.(entrycount := t.entrycount + 1);
    LoadsGrow(t.primeindex);
    ExpandIsRight(f, t2);
    ExpandSteps(t2);
    PushPairs(t3.buckets, Pair(k, v, f.hash(k)));
  }

  lemma ExpandSteps(t: Table)
    requires t.primeindex < 26
    ensures Expand(t).primeindex == if t.primeindex == 25 then 25 else t.primeindex + 1
    ensures t.primeindex == 25 ==> Expand(t) == t
  {
  }

  /** ks_hash_insert_ex with the duplicate check: the new value under the key, everything else as before, also when the
      table grows. */
  lemma InsertIsRight(f: Keys, t: Table, k: Key, v: Value)
    requires Consistent(f) && Valid(f, t)
    ensures Valid(f, Insert(f, t, k, v, true))
    ensures Has(f, Insert(f, t, k, v, true), k, Some(v))
    ensures forall q, w | !f.eq(q, k) && Has(f, t, q, w) :: Has(f, Insert(f, t, k, v, true), q, w)
  {
    assert |t.buckets| > 0 && t.primeindex < 26;
    hide Flat, Under, Placed, Sized, Added, Consistent, Remove;
    RemoveKeepsShape(f, t, k);
    var t1 := Remove(f, t, k).0;
    AddedIsRight(f, t1, k, v);
    forall q ensures Under(f, Flat(t1.buckets), q) == if f.eq(q, k) then multiset{} else Under(f, Flat(t.buckets), q) {
      RemoveUnder(f, t, k, q);
    }
    SameMatch(f, k, k, k);
    Reflexive(f, k);
  }

  lemma Reflexive(f: Keys, k: Key)
    requires Consistent(f)
    ensures f.eq(k, k)
  {
  }

  /** Without the check the table still counts, places and grows right, but keeps the older values. */
  lemma InsertWithoutCheck(f: Keys, t: Table, k: Key, v: Value)
    requires Placed(f, t.buckets) && Sized(t)
    ensures var u := Insert(f, t, k, v, false);
      Placed(f, u.buckets) && Sized(u) && Under(f, Flat(u.buckets), k) >= Under(f, Flat(t.buckets), k)
  {
    AddedIsRight(f, t, k, v);
  }

  /** A created table is empty. */
  lemma CreateIsRight(f: Keys, minsize: nat)
    ensures Create(minsize) == None <==> minsize > 0x4000_0000
    ensures Create(minsize).Some? ==> Valid(f, Create(minsize).value) && Create(minsize).value.entrycount == 0
    ensures Create(minsize).Some? ==> |Create(minsize).value.buckets| > if minsize == 0 then 16 else minsize
    ensures Create(minsize).Some? ==> forall k :: Has(f, Create(minsize).value, k, None)
  {
    if minsize <= MAX_MINSIZE {
      var t := Create(minsize).value;
      EmptyFlat(t.buckets);
      LoadsGrow(t.primeindex);
      forall k ensures Under(f, Flat(t.buckets), k) == multiset{} { EmptyUnder(f, [], k); }
    }
  }

  lemma InsertKeepsShape(f: Keys, t: Table, k: Key, v: Value, dupCheck: bool)
    requires Placed(f, t.buckets) && Sized(t)
    ensures Placed(f, Insert(f, t, k, v, dupCheck).buckets) && Sized(Insert(f, t, k, v, dupCheck))
  {
    assert |t.buckets| > 0 && t.primeindex < 26;
    hide Placed, Sized, Remove, Added;
    RemoveKeepsShape(f, t, k);
    AddedIsRight(f, if dupCheck then Remove(f, t, k).0 else t, k, v);
  }
}
