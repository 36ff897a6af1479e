/** ks_hash.c: walking a table, and emptying it while walking as ks_thread_pool.c does. */
module KsHashDrain {
  import opened KsHash
  import opened KsHashTable

  class Iterator {
    var pos: nat
    var e: Entry?

    constructor ()
      ensures pos == 0 && e == null
    {
      pos, e := 0, null;
    }
  }

  /** The iterator is at the j-th entry of chain pos. */
  ghost predicate At(chains: seq<seq<Entry>>, pos: nat, e: Entry?, j: nat) {
    pos < |chains| && j < |chains[pos]| && e == chains[pos][j]
  }

  /** The next place behind entry j of chain p: (q, i). */
  ghost predicate Follows(chains: seq<seq<Entry>>, p: nat, j: nat, q: nat, i: nat) {
    p < |chains| && if j + 1 < |chains[p]| then q == p && i == j + 1 else FirstFrom(chains, p + 1, q) && i == 0
  }

  /** q is the first chain from p on that has entries. */
  ghost predicate FirstFrom(chains: seq<seq<Entry>>, p: nat, q: nat) {
    p <= q < |chains| && chains[q] != [] && forall k | p <= k < q :: chains[k] == []
  }

  ghost predicate NoneFrom(chains: seq<seq<Entry>>, p: nat) {
    forall k | p <= k < |chains| :: chains[k] == []
  }

  /** ks_hash_next from the position j, or from the start if there is no entry yet. j' is the new position. */
  method Next(h: HashTable, it: Iterator, ghost j: nat) returns (more: bool, ghost j': nat)
    requires h.Whole() && (if it.e == null then it.pos == 0 else At(h.chains, it.pos, it.e, j))
    modifies it
    ensures more ==> At(h.chains, it.pos, it.e, j')
    ensures more ==> if old(it.e) == null then FirstFrom(h.chains, 0, it.pos) && j' == 0
                     else Follows(h.chains, old(it.pos), j, it.pos, j')
    ensures !more ==> if old(it.e) == null then NoneFrom(h.chains, 0)
                      else j + 1 == |h.chains[old(it.pos)]| && NoneFrom(h.chains, old(it.pos) + 1)
  {
    hide Primes, Loads;
    j' := 0;
    if it.e != null {
      assert Linked(h.table[..][it.pos], h.chains[it.pos]);
      it.e := it.e.next;
      if it.e != null { return true, j + 1; }
      it.pos := it.pos + 1;
    }
    ghost var p := it.pos;
    while it.pos < h.tablelength && h.table[it.pos] == null
      invariant p <= it.pos <= h.tablelength && forall k | p <= k < it.pos :: h.chains[k] == []
    {
      assert Linked(h.table[..][it.pos], h.chains[it.pos]);
      it.pos := it.pos + 1;
    }
    if it.pos >= h.tablelength { return false, 0; }
    assert Linked(h.table[..][it.pos], h.chains[it.pos]);
    it.e := h.table[it.pos];
    more := true;
  }

  function FlatEntries(chains: seq<seq<Entry>>): seq<Entry> {
    if chains == [] then [] else chains[0] + FlatEntries(chains[1..])
  }

  lemma {:induction false} FlatEntriesOf(chains: seq<seq<Entry>>, pos: nat)
    requires pos < |chains| && chains[pos] != [] && forall k | 0 <= k < pos :: chains[k] == []
    ensures FlatEntries(chains) == [chains[pos][0]] + FlatEntries(chains[pos := chains[pos][1..]])
  {
    var d := chains[pos := chains[pos][1..]];
    if pos == 0 {
      assert d[1..] == chains[1..];
    } else {
      FlatEntriesOf(chains[1..], pos - 1);
      assert d[1..] == chains[1..][pos - 1 := chains[1..][pos - 1][1..]];
      assert d[0] == [] && chains[0] == [];
    }
  }

  lemma {:induction false} FlatEntriesNone(chains: seq<seq<Entry>>)
    requires NoneFrom(chains, 0)
    ensures FlatEntries(chains) == [] && Flat(ViewOf(chains)) == []
  {
    EmptyFlat(ViewOf(chains));
    if chains != [] { FlatEntriesNone(chains[1..]); }
  }

  /** Take the key, go on, then remove: the loop of cleanup_threads. Every entry is visited exactly once, in the order of
      the table, the iterator only ever stands on entries that are still in the table, and nothing remains. */
  method Drain(h: HashTable) returns (ghost visited: seq<Entry>)
    requires h.Whole() && Consistent(h.keys)
    modifies h`entrycount, h`chains, h.table, Nodes(h.chains)
    ensures h.Whole() && h.entrycount == 0 && Nodes(h.chains) == {}
    ensures visited == FlatEntries(old(h.chains))
  {
    hide Primes, Loads, Consistent, FlatEntries, Flat, Placed, Sized, LinkedAll, Homed;
    visited := [];
    var it := new Iterator();
    var more;
    ghost var j;
    more, j := Next(h, it, 0);
    while more
      invariant h.Whole() && h.table == old(h.table) && fresh(it) && Nodes(h.chains) <= old(Nodes(h.chains))
      invariant visited + FlatEntries(h.chains) == FlatEntries(old(h.chains))
      invariant if more then At(h.chains, it.pos, it.e, 0) && NoneBefore(h.chains, it.pos) else NoneFrom(h.chains, 0)
      decreases |FlatEntries(h.chains)|
    {
      visited := visited + [it.e];
      more := DrainOne(h, it);
    }
    Emptied(h);
  }

  method DrainOne(h: HashTable, it: Iterator) returns (more: bool)
    requires h.Whole() && Consistent(h.keys) && At(h.chains, it.pos, it.e, 0) && NoneBefore(h.chains, it.pos)
    modifies it, h`entrycount, h`chains, h.table, Nodes(h.chains)
    ensures h.Whole() && Nodes(h.chains) <= old(Nodes(h.chains))
    ensures FlatEntries(old(h.chains)) == [old(it.e)] + FlatEntries(h.chains)
    ensures if more then At(h.chains, it.pos, it.e, 0) && NoneBefore(h.chains, it.pos) else NoneFrom(h.chains, 0)
  {
    hide Primes, Loads, Consistent, FlatEntries, Flat, Placed, Sized, LinkedAll, Homed;
    ghost var p, was := it.pos, h.chains;
    var key := it.e.k;
    HeadIsMatch(h, p);
    FlatEntriesOf(h.chains, p);
    ghost var j;
    more, j := Next(h, it, 0);
    var _ := h.RemoveKey(key);
    StillAt(was, p, it.pos, it.e, j, more);
  }

  ghost predicate NoneBefore(chains: seq<seq<Entry>>, p: nat) {
    forall k | 0 <= k < p && k < |chains| :: chains[k] == []
  }

  lemma HeadIsMatch(h: HashTable, p: nat)
    requires h.Whole() && Consistent(h.keys) && p < |h.chains| && h.chains[p] != []
    ensures h.HeadMatches(h.chains, h.chains[p][0].k) && h.WithoutHead(h.chains, h.chains[p][0].k) == h.chains[p := h.chains[p][1..]]
  {
    hide Primes, Loads, Sized, LinkedAll;
    assert ViewOf(h.chains)[p][0] == PairOf(h.chains[p][0]);
    Reflexive(h.keys, h.chains[p][0].k);
  }

  /** The place behind the removed entry is the first one that is left. */
  lemma StillAt(was: seq<seq<Entry>>, p: nat, q: nat, e: Entry?, j: nat, more: bool)
    requires p < |was| && was[p] != [] && NoneBefore(was, p)
    requires more ==> At(was, q, e, j) && Follows(was, p, 0, q, j)
    requires !more ==> 1 == |was[p]| && NoneFrom(was, p + 1)
    ensures var now := was[p := was[p][1..]];
      if more then At(now, q, e, 0) && NoneBefore(now, q) else NoneFrom(now, 0)
  {
  }

  lemma Emptied(h: HashTable)
    requires h.Whole() && NoneFrom(h.chains, 0)
    ensures h.entrycount == 0 && Nodes(h.chains) == {} && FlatEntries(h.chains) == []
  {
    FlatEntriesNone(h.chains);
  }

  /** No entry is in a table twice, so none is visited twice. */
  lemma {:induction false} EntriesDiffer(chains: seq<seq<Entry>>, n: nat)
    requires n > 0 && forall i, e | 0 <= i < |chains| && e in chains[i] :: Index(e.h, n) == i + n - |chains|
    requires forall i, a, b | 0 <= i < |chains| && 0 <= a < b < |chains[i]| :: chains[i][a] != chains[i][b]
    ensures forall a, b | 0 <= a < b < |FlatEntries(chains)| :: FlatEntries(chains)[a] != FlatEntries(chains)[b]
    ensures forall e | e in FlatEntries(chains) :: Index(e.h, n) >= n - |chains|
  {
    if chains != [] {
      var rest: seq<seq<Entry>> := chains[1..];
      forall i: nat, e: Entry | i < |rest| && e in rest[i] ensures Index(e.h, n) == i + n - |rest| {
        assert rest[i] == chains[i + 1];
      }
      forall i, a, b | 0 <= i < |rest| && 0 <= a < b < |rest[i]| ensures rest[i][a] != rest[i][b] {
        assert rest[i] == chains[i + 1] && chains[i + 1][a] != chains[i + 1][b];
      }
      EntriesDiffer(rest, n);
      forall e | e in chains[0] ensures e !in FlatEntries(rest) { assert Index(e.h, n) == n - |chains|; }
      var c := chains[0];
      var d := FlatEntries(rest);
      assert FlatEntries(chains) == c + d;
      forall a, b | 0 <= a < b < |c + d| ensures (c + d)[a] != (c + d)[b] {
        if a < |c| <= b { assert (c + d)[a] in c && (c + d)[b] in d; }
      }
    }
  }

  lemma VisitedOnce(h: HashTable)
    requires h.Whole()
    ensures forall a, b | 0 <= a < b < |FlatEntries(h.chains)| :: FlatEntries(h.chains)[a] != FlatEntries(h.chains)[b]
  {
    forall i, a, b | 0 <= i < |h.chains| && 0 <= a < b < |h.chains[i]| ensures h.chains[i][a] != h.chains[i][b] {
      assert Linked(h.table[..][i], h.chains[i]);
    }
    EntriesDiffer(h.chains, |h.chains|);
  }
}
