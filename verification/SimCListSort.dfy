/** simclist.c: sorting. Quicksort around a random pivot, selection sort on short stretches; only data moves. */
module SimCListSort {
  import opened SimCList
  import opened Octets

  type Comparator = (Pointer, Pointer) -> int

  const MIN_QUICKSORT: nat := 24

  /** What a comparison function owes: a total preorder. */
  ghost predicate Preorder(f: Comparator) {
    && (forall a, b :: f(a, b) < 0 <==> f(b, a) > 0)
    && (forall a, b, d :: f(a, b) <= 0 && f(b, d) <= 0 ==> f(a, d) <= 0)
  }

  function Rank(f: Comparator, versus: int, a: Pointer, b: Pointer): int {
    f(a, b) * -versus
  }

  /** a may stand before b. */
  predicate Before(f: Comparator, versus: int, a: Pointer, b: Pointer) {
    Rank(f, versus, a, b) <= 0
  }

  lemma RankIsTotal(f: Comparator, versus: int, a: Pointer, b: Pointer)
    requires Preorder(f)
    ensures Rank(f, versus, a, b) <= 0 <==> Before(f, versus, a, b)
    ensures Rank(f, versus, a, b) >= 0 <==> Before(f, versus, b, a)
    ensures Before(f, versus, a, a)
  {
    assert f(a, b) < 0 <==> f(b, a) > 0;
    assert f(b, a) < 0 <==> f(a, b) > 0;
    assert f(a, a) < 0 <==> f(a, a) > 0;
    Signs(f(a, b), versus);
    Signs(f(b, a), versus);
    Signs(f(a, a), versus);
  }

  lemma Signs(x: int, versus: int)
    ensures x * -versus > 0 <==> (x > 0 && versus < 0) || (x < 0 && versus > 0)
    ensures x * -versus < 0 <==> (x > 0 && versus > 0) || (x < 0 && versus < 0)
  {
  }

  lemma BeforeTransitive(f: Comparator, versus: int, a: Pointer, b: Pointer, d: Pointer)
    requires Preorder(f) && Before(f, versus, a, b) && Before(f, versus, b, d)
    ensures Before(f, versus, a, d)
  {
    Signs(f(a, b), versus);
    Signs(f(b, d), versus);
    Signs(f(a, d), versus);
    assert f(a, b) < 0 <==> f(b, a) > 0;
    assert f(b, d) < 0 <==> f(d, b) > 0;
    assert f(d, a) < 0 <==> f(a, d) > 0;
    assert f(a, d) < 0 <==> f(d, a) > 0;
    assert f(b, a) < 0 <==> f(a, b) > 0;
    assert f(d, b) < 0 <==> f(b, d) > 0;
    assert f(a, b) <= 0 && f(b, d) <= 0 ==> f(a, d) <= 0;
    assert f(d, b) <= 0 && f(b, a) <= 0 ==> f(d, a) <= 0;
  }

  ghost predicate Sorted(f: Comparator, versus: int, s: seq<Pointer>, lo: nat, hi: nat)
    requires hi <= |s|
  {
    forall i, j | lo <= i < j < hi :: Before(f, versus, s[i], s[j])
  }

  /** All of s[lo..hi] may stand before p. */
  ghost predicate Below(f: Comparator, versus: int, s: seq<Pointer>, lo: nat, hi: nat, p: Pointer)
    requires hi <= |s|
  {
    forall i | lo <= i < hi :: Before(f, versus, s[i], p)
  }

  /** All of s[lo..hi] may stand behind p. */
  ghost predicate Above(f: Comparator, versus: int, s: seq<Pointer>, lo: nat, hi: nat, p: Pointer)
    requires hi <= |s|
  {
    forall i | lo <= i < hi :: Before(f, versus, p, s[i])
  }

  /** t is s with its stretch from lo to hi rearranged. */
  ghost predicate Shuffled(s: seq<Pointer>, t: seq<Pointer>, lo: nat, hi: nat) {
    && lo <= hi <= |s| == |t|
    && s[..lo] == t[..lo] && s[hi..] == t[hi..]
    && multiset(s[lo..hi]) == multiset(t[lo..hi])
  }

  function Swapped(s: seq<Pointer>, i: nat, j: nat): seq<Pointer>
    requires i < |s| && j < |s|
  {
    s[i := s[j]][j := s[i]]
  }

  lemma ShuffledWider(s: seq<Pointer>, t: seq<Pointer>, lo: nat, hi: nat, lo': nat, hi': nat)
    requires Shuffled(s, t, lo, hi) && lo' <= lo && hi <= hi' <= |s|
    ensures Shuffled(s, t, lo', hi')
  {
    assert s[lo'..hi'] == s[lo'..lo] + s[lo..hi] + s[hi..hi'];
    assert t[lo'..hi'] == t[lo'..lo] + t[lo..hi] + t[hi..hi'];
    assert s[lo'..lo] == s[..lo][lo'..];
    assert t[lo'..lo] == t[..lo][lo'..];
    assert s[hi..hi'] == s[hi..][..hi' - hi];
    assert t[hi..hi'] == t[hi..][..hi' - hi];
    assert s[..lo'] == s[..lo][..lo'];
    assert t[..lo'] == t[..lo][..lo'];
    assert s[hi'..] == s[hi..][hi' - hi..];
    assert t[hi'..] == t[hi..][hi' - hi..];
  }

  lemma SwapShuffles(s: seq<Pointer>, i: nat, j: nat, lo: nat, hi: nat)
    requires lo <= i < j < hi <= |s|
    ensures Shuffled(s, Swapped(s, i, j), lo, hi)
  {
    var t := Swapped(s, i, j);
    assert s[i..j + 1] == [s[i]] + s[i + 1..j] + [s[j]];
    assert t[i..j + 1] == [s[j]] + s[i + 1..j] + [s[i]];
    assert Shuffled(s, t, i, j + 1);
    ShuffledWider(s, t, i, j + 1, lo, hi);
  }

  /** Whatever a rearranged stretch holds, it held before. */
  lemma ShuffledFrom(s: seq<Pointer>, t: seq<Pointer>, lo: nat, hi: nat, i: nat) returns (j: nat)
    requires Shuffled(s, t, lo, hi) && lo <= i < hi
    ensures lo <= j < hi && t[i] == s[j]
  {
    assert t[i] == t[lo..hi][i - lo];
    assert t[i] in multiset(t[lo..hi]);
    assert t[i] in s[lo..hi];
    var k :| 0 <= k < hi - lo && s[lo..hi][k] == t[i];
    j := lo + k;
  }

  lemma ShuffledBounds(f: Comparator, versus: int, s: seq<Pointer>, t: seq<Pointer>, lo: nat, hi: nat, p: Pointer)
    requires Shuffled(s, t, lo, hi)
    ensures Below(f, versus, s, lo, hi, p) ==> Below(f, versus, t, lo, hi, p)
    ensures Above(f, versus, s, lo, hi, p) ==> Above(f, versus, t, lo, hi, p)
  {
    forall i | lo <= i < hi
      ensures Below(f, versus, s, lo, hi, p) ==> Before(f, versus, t[i], p)
      ensures Above(f, versus, s, lo, hi, p) ==> Before(f, versus, p, t[i])
    {
      var j := ShuffledFrom(s, t, lo, hi, i);
    }
  }

  /** Rearranging one stretch leaves the others alone. */
  lemma ShuffledElsewhere(s: seq<Pointer>, t: seq<Pointer>, lo: nat, hi: nat, i: nat)
    requires Shuffled(s, t, lo, hi) && i < |s| && (i < lo || hi <= i)
    ensures t[i] == s[i]
  {
    assert i < lo ==> s[i] == s[..lo][i] && t[i] == t[..lo][i];
    assert hi <= i ==> s[i] == s[hi..][i - hi] && t[i] == t[hi..][i - hi];
  }

  /** |--- A ---| pivot |--- B ---| */
  ghost predicate Parted(f: Comparator, versus: int, s: seq<Pointer>, lo: nat, p: nat, hi: nat) {
    lo <= p < hi <= |s| && Below(f, versus, s, lo, p, s[p]) && Above(f, versus, s, p + 1, hi, s[p])
  }

  lemma PartedLeft(f: Comparator, versus: int, s: seq<Pointer>, t: seq<Pointer>, lo: nat, p: nat, hi: nat)
    requires Parted(f, versus, s, lo, p, hi) && Shuffled(s, t, lo, p)
    ensures Parted(f, versus, t, lo, p, hi) && Shuffled(s, t, lo, hi)
  {
    hide Before;
    ShuffledBounds(f, versus, s, t, lo, p, s[p]);
    ShuffledWider(s, t, lo, p, lo, hi);
    forall i | p <= i < hi ensures t[i] == s[i] { ShuffledElsewhere(s, t, lo, p, i); }
  }

  lemma PartedRight(f: Comparator, versus: int, s: seq<Pointer>, t: seq<Pointer>, lo: nat, p: nat, hi: nat)
    requires Parted(f, versus, s, lo, p, hi) && Shuffled(s, t, p + 1, hi)
    ensures Parted(f, versus, t, lo, p, hi) && Shuffled(s, t, lo, hi)
    ensures Sorted(f, versus, s, lo, p) ==> Sorted(f, versus, t, lo, p)
  {
    hide Before;
    ShuffledBounds(f, versus, s, t, p + 1, hi, s[p]);
    ShuffledWider(s, t, p + 1, hi, lo, hi);
    forall i | lo <= i <= p ensures t[i] == s[i] { ShuffledElsewhere(s, t, p + 1, hi, i); }
  }

  lemma PartedSorted(f: Comparator, versus: int, s: seq<Pointer>, lo: nat, p: nat, hi: nat)
    requires Preorder(f) && Parted(f, versus, s, lo, p, hi)
    requires Sorted(f, versus, s, lo, p) && Sorted(f, versus, s, p + 1, hi)
    ensures Sorted(f, versus, s, lo, hi)
  {
    hide Before, Preorder;
    forall i, j | lo <= i < j < hi ensures Before(f, versus, s[i], s[j]) {
      if i < p < j { BeforeTransitive(f, versus, s[i], s[p], s[j]); }
    }
  }

  method SwapData(a: Entry, b: Entry, ghost c: seq<Entry>, ghost i: nat, ghost j: nat)
    requires Distinct(c) && i < j < |c| && a == c[i] && b == c[j]
    modifies c`data
    ensures DataOf(c) == old(Swapped(DataOf(c), i, j))
  {
    var tmpdata := a.data;
    a.data := b.data;
    b.data := tmpdata;
  }

  /** The first-ranking element from c[k] to c[hi - 1]. */
  method Select(f: Comparator, versus: int, firstunsorted: Entry, end: Entry?, ghost c: seq<Entry>, ghost k: nat, ghost hi: nat)
    returns (toswap: Entry, ghost m: nat)
    requires Preorder(f) && Linked(c) && k < hi < |c| && firstunsorted == c[k] && end == c[hi]
    ensures k <= m < hi && toswap == c[m] && Above(f, versus, DataOf(c), k, hi, DataOf(c)[m])
  {
    hide Preorder, Before, Linked, Rank;
    toswap := firstunsorted;
    m := k;
    Neighbours(c, k);
    var cursor := firstunsorted.next;
    ghost var q := k + 1;
    RankIsTotal(f, versus, toswap.data, toswap.data);
    while cursor != end
      invariant k <= m < q <= hi && cursor == c[q] && toswap == c[m]
      invariant Above(f, versus, DataOf(c), k, q, DataOf(c)[m])
      decreases hi - q
    {
      RankIsTotal(f, versus, toswap.data, cursor.data);
      RankIsTotal(f, versus, cursor.data, cursor.data);
      if Rank(f, versus, toswap.data, cursor.data) > 0 {
        forall i | k <= i < q ensures Before(f, versus, cursor.data, DataOf(c)[i]) {
          BeforeTransitive(f, versus, cursor.data, toswap.data, DataOf(c)[i]);
        }
        toswap := cursor;
        m := q;
      }
      Neighbours(c, q);
      cursor := cursor.next;
      q := q + 1;
    }
    Apart(c, q, hi);
  }

  /** ks_list_sort_selectionsort on c[lo..hi + 1] */
  method SelectionSort(f: Comparator, versus: int, first: nat, fel: Entry, last: nat, lel: Entry, ghost c: seq<Entry>, ghost lo: nat, ghost hi: nat)
    requires Preorder(f) && Linked(c) && 0 < lo <= hi < |c| - 1 && fel == c[lo] && lel == c[hi]
    requires last - first == hi - lo
    modifies c`data
    ensures Shuffled(old(DataOf(c)), DataOf(c), lo, hi + 1) && Sorted(f, versus, DataOf(c), lo, hi + 1)
  {
    if last <= first { return; }
    hide Preorder, Before, Linked, Rank, Shuffled, Chosen, Sorted, DataOf, Distinct;
    ghost var was := DataOf(c);
    var firstunsorted := fel;
    ghost var k := lo;
    ShuffledAtFirst(f, versus, DataOf(c), lo, hi + 1);
    while firstunsorted != lel
      invariant lo <= k <= hi && firstunsorted == c[k] && Linked(c)
      invariant Shuffled(was, DataOf(c), lo, hi + 1)
      invariant Chosen(f, versus, DataOf(c), lo, k, hi + 1)
      decreases hi - k
    {
      PutNext(f, versus, firstunsorted, lel, c, lo, k, hi, was);
      Neighbours(c, k);
      firstunsorted := firstunsorted.next;
      k := k + 1;
    }
    Apart(c, k, hi);
    AllChosen(f, versus, DataOf(c), lo, hi);
  }

  method PutNext(f: Comparator, versus: int, firstunsorted: Entry, lel: Entry, ghost c: seq<Entry>, ghost lo: nat, ghost k: nat, ghost hi: nat, ghost was: seq<Pointer>)
    requires Preorder(f) && Linked(c) && 0 < lo <= k < hi < |c| - 1 && firstunsorted == c[k] && lel == c[hi]
    requires Chosen(f, versus, DataOf(c), lo, k, hi + 1) && Shuffled(was, DataOf(c), lo, hi + 1)
    modifies c`data
    ensures Linked(c) && Shuffled(was, DataOf(c), lo, hi + 1)
    ensures Chosen(f, versus, DataOf(c), lo, k + 1, hi + 1)
  {
    hide Preorder, Before, Shuffled, Chosen, Above, Swapped, DataOf;
    Neighbours(c, hi);
    var toswap, m := Select(f, versus, firstunsorted, lel.next, c, k, hi + 1);
    SwapFirst(f, versus, firstunsorted, toswap, c, lo, k, m, hi, was);
  }

  method SwapFirst(f: Comparator, versus: int, firstunsorted: Entry, toswap: Entry, ghost c: seq<Entry>, ghost lo: nat, ghost k: nat, ghost m: nat, ghost hi: nat, ghost was: seq<Pointer>)
    requires Linked(c) && 0 < lo <= k <= m <= hi < |c| - 1 && firstunsorted == c[k] && toswap == c[m]
    requires Chosen(f, versus, DataOf(c), lo, k, hi + 1) && Shuffled(was, DataOf(c), lo, hi + 1)
    requires Above(f, versus, DataOf(c), k, hi + 1, DataOf(c)[m])
    modifies c`data
    ensures Linked(c) && Shuffled(was, DataOf(c), lo, hi + 1)
    ensures Chosen(f, versus, DataOf(c), lo, k + 1, hi + 1)
  {
    hide Before, Shuffled, Chosen, Above, Swapped, DataOf;
    ghost var s := DataOf(c);
    NextChosen(f, versus, s, lo, k, m, hi + 1);
    if toswap != firstunsorted {
      SwapShuffles(s, k, m, lo, hi + 1);
      ShuffledThen(was, s, Swapped(s, k, m), lo, hi + 1);
      SwapData(firstunsorted, toswap, c, k, m);
    } else {
      Apart(c, k, m);
    }
  }

  /** The stretch up to k is sorted and ranks before all the rest. */
  ghost predicate Chosen(f: Comparator, versus: int, s: seq<Pointer>, lo: nat, k: nat, hi: nat)
    requires hi <= |s|
  {
    forall i, j | lo <= i < k && i < j < hi :: Before(f, versus, s[i], s[j])
  }

  lemma NextChosen(f: Comparator, versus: int, s: seq<Pointer>, lo: nat, k: nat, m: nat, hi: nat)
    requires lo <= k <= m < hi <= |s| && Chosen(f, versus, s, lo, k, hi) && Above(f, versus, s, k, hi, s[m])
    ensures Chosen(f, versus, if m == k then s else Swapped(s, k, m), lo, k + 1, hi)
  {
  }

  lemma AllChosen(f: Comparator, versus: int, s: seq<Pointer>, lo: nat, hi: nat)
    requires hi < |s| && Chosen(f, versus, s, lo, hi, hi + 1)
    ensures Sorted(f, versus, s, lo, hi + 1)
  {
  }

  lemma ShuffledAtFirst(f: Comparator, versus: int, s: seq<Pointer>, lo: nat, hi: nat)
    requires lo <= hi <= |s|
    ensures Shuffled(s, s, lo, hi) && Chosen(f, versus, s, lo, lo, hi)
  {
  }

  lemma ShuffledThen(s: seq<Pointer>, t: seq<Pointer>, u: seq<Pointer>, lo: nat, hi: nat)
    requires Shuffled(s, t, lo, hi) && Shuffled(t, u, lo, hi)
    ensures Shuffled(s, u, lo, hi)
  {
  }

  /** Partitioning under way: was has been rearranged into s, the pivot stands at p, everything left of l may stand before
      it and everything right of r behind it. */
  ghost predicate Phase(f: Comparator, versus: int, was: seq<Pointer>, s: seq<Pointer>, lo: nat, l: nat, p: nat, r: nat, hi: nat, pv: Pointer) {
    && lo <= l <= p <= r <= hi < |s| && s[p] == pv && Shuffled(was, s, lo, hi + 1)
    && Below(f, versus, s, lo, l, pv) && Above(f, versus, s, r + 1, hi + 1, pv)
  }

  lemma PhaseStep(f: Comparator, versus: int, was: seq<Pointer>, s: seq<Pointer>, lo: nat, l: nat, p: nat, r: nat, hi: nat, pv: Pointer)
    requires Preorder(f) && Phase(f, versus, was, s, lo, l, p, r, hi, pv)
    ensures l < p && Rank(f, versus, s[l], pv) <= 0 ==> Phase(f, versus, was, s, lo, l + 1, p, r, hi, pv)
    ensures p < r && Rank(f, versus, s[r], pv) >= 0 ==> Phase(f, versus, was, s, lo, l, p, r - 1, hi, pv)
    ensures l == r ==> Parted(f, versus, s, lo, p, hi + 1)
  {
    hide Preorder, Before, Rank, Shuffled;
    RankIsTotal(f, versus, s[l], pv);
    RankIsTotal(f, versus, s[r], pv);
  }

  lemma SwappedAt(s: seq<Pointer>, i: nat, j: nat)
    requires i < |s| && j < |s|
    ensures |Swapped(s, i, j)| == |s| && Swapped(s, i, j)[i] == s[j] && Swapped(s, i, j)[j] == s[i]
    ensures forall k | 0 <= k < |s| && k != i && k != j :: Swapped(s, i, j)[k] == s[k]
  {
  }

  lemma PhaseSwap(f: Comparator, versus: int, was: seq<Pointer>, s: seq<Pointer>, lo: nat, l: nat, p: nat, r: nat, hi: nat, pv: Pointer)
    requires Preorder(f) && Phase(f, versus, was, s, lo, l, p, r, hi, pv)
    requires l < p < r && Rank(f, versus, s[l], pv) >= 0 && Rank(f, versus, s[r], pv) <= 0
    ensures Phase(f, versus, was, Swapped(s, l, r), lo, l + 1, p, r - 1, hi, pv) && Swapped(s, l, r)[p] == pv
  {
    hide Preorder, Before, Rank, Shuffled, Swapped;
    RankIsTotal(f, versus, s[l], pv);
    RankIsTotal(f, versus, s[r], pv);
    SwappedAt(s, l, r);
    SwapShuffles(s, l, r, lo, hi + 1);
    ShuffledThen(was, s, Swapped(s, l, r), lo, hi + 1);
  }

  /** The element at i goes to the pivot's place p, the pivot one towards it to q, and what stood there to i. */
  function Carried(s: seq<Pointer>, i: nat, p: nat, q: nat): seq<Pointer>
    requires i < |s| && p < |s| && q < |s|
  {
    s[i := s[q]][q := s[p]][p := s[i]]
  }

  lemma CarriedShuffles(s: seq<Pointer>, i: nat, p: nat, q: nat, lo: nat, hi: nat)
    requires lo <= i < hi <= |s| && lo <= p < hi && i != p && q == if i < p then p - 1 else p + 1
    ensures Shuffled(s, Carried(s, i, p, q), lo, hi)
  {
    hide Shuffled;
    var t := if q < p then Swapped(s, q, p) else Swapped(s, p, q);
    SwapShuffles(s, if q < p then q else p, if q < p then p else q, lo, hi);
    if i == q {
      assert Carried(s, i, p, q) == t;
    } else {
      var u := if i < p then Swapped(t, i, p) else Swapped(t, p, i);
      SwapShuffles(t, if i < p then i else p, if i < p then p else i, lo, hi);
      ShuffledThen(s, t, u, lo, hi);
      assert Carried(s, i, p, q) == u;
    }
  }

  lemma CarriedAt(s: seq<Pointer>, i: nat, p: nat, q: nat)
    requires i < |s| && p < |s| && q < |s| && i != p && q != p
    ensures |Carried(s, i, p, q)| == |s| && Carried(s, i, p, q)[q] == s[p] && Carried(s, i, p, q)[p] == s[i]
    ensures forall k | 0 <= k < |s| && k != i && k != p && k != q :: Carried(s, i, p, q)[k] == s[k]
  {
  }

  lemma PhaseCarryLeft(f: Comparator, versus: int, was: seq<Pointer>, s: seq<Pointer>, lo: nat, l: nat, p: nat, hi: nat, pv: Pointer)
    requires Preorder(f) && Phase(f, versus, was, s, lo, l, p, p, hi, pv) && l < p && Rank(f, versus, s[l], pv) >= 0
    ensures Phase(f, versus, was, Carried(s, l, p, p - 1), lo, l, p - 1, p - 1, hi, pv)
  {
    hide Preorder, Before, Rank, Shuffled, Carried;
    RankIsTotal(f, versus, s[l], pv);
    CarriedAt(s, l, p, p - 1);
    CarriedShuffles(s, l, p, p - 1, lo, hi + 1);
    ShuffledThen(was, s, Carried(s, l, p, p - 1), lo, hi + 1);
  }

  lemma PhaseCarryRight(f: Comparator, versus: int, was: seq<Pointer>, s: seq<Pointer>, lo: nat, p: nat, r: nat, hi: nat, pv: Pointer)
    requires Preorder(f) && Phase(f, versus, was, s, lo, p, p, r, hi, pv) && p < r && Rank(f, versus, s[r], pv) <= 0
    ensures Phase(f, versus, was, Carried(s, r, p, p + 1), lo, p + 1, p + 1, r, hi, pv)
  {
    hide Preorder, Before, Rank, Shuffled, Carried;
    RankIsTotal(f, versus, s[r], pv);
    CarriedAt(s, r, p, p + 1);
    CarriedShuffles(s, r, p, p + 1, lo, hi + 1);
    ShuffledThen(was, s, Carried(s, r, p, p + 1), lo, hi + 1);
  }

  method CarryData(el: Entry, pivot: Entry, beside: Entry, ghost c: seq<Entry>, ghost i: nat, ghost p: nat, ghost q: nat)
    requires Distinct(c) && i < |c| && p < |c| && q < |c| && i != p && q != p && el == c[i] && pivot == c[p] && beside == c[q]
    modifies c`data
    ensures DataOf(c) == old(Carried(DataOf(c), i, p, q))
  {
    var tmpdata := el.data;
    el.data := beside.data;
    beside.data := pivot.data;
    pivot.data := tmpdata;
  }

  /** left and right run towards the pivot and swap what stands on the wrong sides, until one of them has arrived. */
  method Meet(f: Comparator, versus: int, fel: Entry, lel: Entry, pivot: Entry, ghost c: seq<Entry>, ghost lo: nat, ghost p: nat, ghost hi: nat)
    returns (left: Entry, right: Entry, ghost l: nat, ghost r: nat)
    requires Preorder(f) && Linked(c) && 0 < lo <= p <= hi < |c| - 1 && fel == c[lo] && lel == c[hi] && pivot == c[p]
    modifies c`data
    ensures Linked(c) && Phase(f, versus, old(DataOf(c)), DataOf(c), lo, l, p, r, hi, old(pivot.data))
    ensures left == c[l] && right == c[r] && (l == p || r == p)
  {
    hide Preorder, Rank, Linked, Distinct, Phase, DataOf;
    ghost var was := DataOf(c);
    ghost var pv := pivot.data;
    left, right, l, r := fel, lel, lo, hi;
    PhaseAtFirst(f, versus, was, lo, p, hi);
    while left != pivot && right != pivot
      invariant lo <= l <= p <= r <= hi && left == c[l] && right == c[r] && Linked(c)
      invariant Phase(f, versus, was, DataOf(c), lo, l, p, r, hi, pv) && pivot.data == pv
      decreases r - l
    {
      left, right, l, r := Approach(f, versus, left, right, pivot, c, lo, l, p, r, hi, was);
      if left != pivot && right != pivot {
        SwapPair(f, versus, left, right, c, lo, l, p, r, hi, was, pv);
        Neighbours(c, l);
        Neighbours(c, r);
        left := left.next;
        right := right.prev;
        l := l + 1;
        r := r - 1;
      }
    }
    Apart(c, if left == pivot then l else r, p);
  }

  lemma PhaseAtFirst(f: Comparator, versus: int, was: seq<Pointer>, lo: nat, p: nat, hi: nat)
    requires lo <= p <= hi < |was|
    ensures Phase(f, versus, was, was, lo, lo, p, hi, hi, was[p])
  {
  }

  /** The two scans: over smaller elements from the left, over bigger ones from the right. */
  method Approach(f: Comparator, versus: int, left0: Entry, right0: Entry, pivot: Entry, ghost c: seq<Entry>, ghost lo: nat, ghost l0: nat, ghost p: nat, ghost r0: nat, ghost hi: nat, ghost was: seq<Pointer>)
    returns (left: Entry, right: Entry, ghost l: nat, ghost r: nat)
    requires Preorder(f) && Linked(c) && 0 < lo <= l0 < p < r0 <= hi < |c| - 1 && left0 == c[l0] && right0 == c[r0] && pivot == c[p]
    requires Phase(f, versus, was, DataOf(c), lo, l0, p, r0, hi, pivot.data)
    ensures l0 <= l <= p <= r <= r0 && left == c[l] && right == c[r]
    ensures Phase(f, versus, was, DataOf(c), lo, l, p, r, hi, pivot.data)
    ensures l < p ==> Rank(f, versus, left.data, pivot.data) > 0
    ensures p < r ==> Rank(f, versus, right.data, pivot.data) < 0
  {
    hide Preorder, Rank, Linked, Distinct, Phase, DataOf;
    left, right, l, r := left0, right0, l0, r0;
    while left != pivot && Rank(f, versus, left.data, pivot.data) <= 0
      invariant l0 <= l <= p && left == c[l] && Phase(f, versus, was, DataOf(c), lo, l, p, r0, hi, pivot.data)
      decreases p - l
    {
      PhaseStep(f, versus, was, DataOf(c), lo, l, p, r0, hi, pivot.data);
      Neighbours(c, l);
      left := left.next;
      l := l + 1;
    }
    if left == pivot { Apart(c, l, p); }
    while right != pivot && Rank(f, versus, right.data, pivot.data) >= 0
      invariant p <= r <= r0 && right == c[r] && Phase(f, versus, was, DataOf(c), lo, l, p, r, hi, pivot.data)
      decreases r - p
    {
      PhaseStep(f, versus, was, DataOf(c), lo, l, p, r, hi, pivot.data);
      Neighbours(c, r);
      right := right.prev;
      r := r - 1;
    }
    if right == pivot { Apart(c, r, p); }
  }

  method SwapPair(f: Comparator, versus: int, left: Entry, right: Entry, ghost c: seq<Entry>, ghost lo: nat, ghost l: nat, ghost p: nat, ghost r: nat, ghost hi: nat, ghost was: seq<Pointer>, ghost pv: Pointer)
    requires Preorder(f) && Linked(c) && 0 < lo <= l < p < r <= hi < |c| - 1 && left == c[l] && right == c[r]
    requires Phase(f, versus, was, DataOf(c), lo, l, p, r, hi, pv)
    requires Rank(f, versus, left.data, pv) > 0 && Rank(f, versus, right.data, pv) < 0
    modifies c`data
    ensures Linked(c) && Phase(f, versus, was, DataOf(c), lo, l + 1, p, r - 1, hi, pv) && c[p].data == pv
  {
    hide Preorder, Rank, Phase;
    PhaseSwap(f, versus, was, DataOf(c), lo, l, p, r, hi, pv);
    SwapData(left, right, c, l, r);
  }

  /** The left part is longer: each bigger element in it changes places with the pivot, which moves to the left. */
  method GatherLeft(f: Comparator, versus: int, left0: Entry, pivot0: Entry, id0: nat, ghost c: seq<Entry>, ghost lo: nat, ghost l0: nat, ghost p0: nat, ghost hi: nat, ghost was: seq<Pointer>, ghost pv: Pointer)
    returns (pivot: Entry, pivotid: nat, ghost p: nat)
    requires Preorder(f) && Linked(c) && 0 < lo <= l0 <= p0 <= hi < |c| - 1 && left0 == c[l0] && pivot0 == c[p0] && id0 == p0 - lo
    requires Phase(f, versus, was, DataOf(c), lo, l0, p0, p0, hi, pv) && pivot0.data == pv
    modifies c`data
    ensures Linked(c) && lo <= p <= hi && pivot == c[p] && pivotid == p - lo
    ensures Phase(f, versus, was, DataOf(c), lo, p, p, p, hi, pv)
  {
    hide Preorder, Rank, Linked, Distinct, Phase, DataOf;
    var left := left0;
    pivot, pivotid, p := pivot0, id0, p0;
    ghost var l := l0;
    while left != pivot
      invariant lo <= l <= p <= hi && left == c[l] && pivot == c[p] && pivotid == p - lo && pivot.data == pv && Linked(c)
      invariant Phase(f, versus, was, DataOf(c), lo, l, p, p, hi, pv)
      decreases p - l
    {
      Neighbours(c, p);
      Neighbours(c, l);
      if Rank(f, versus, left.data, pivot.data) > 0 {
        CarryLeft(f, versus, left, pivot, c, lo, l, p, hi, was, pv);
        pivot := pivot.prev;
        pivotid := pivotid - 1;
        p := p - 1;
        if pivot == left { break; }
      } else {
        PhaseStep(f, versus, was, DataOf(c), lo, l, p, p, hi, pv);
        left := left.next;
        l := l + 1;
      }
    }
    Apart(c, l, p);
  }

  method CarryLeft(f: Comparator, versus: int, left: Entry, pivot: Entry, ghost c: seq<Entry>, ghost lo: nat, ghost l: nat, ghost p: nat, ghost hi: nat, ghost was: seq<Pointer>, ghost pv: Pointer)
    requires Preorder(f) && Linked(c) && 0 < lo <= l < p <= hi < |c| - 1 && left == c[l] && pivot == c[p] && pivot.data == pv
    requires Phase(f, versus, was, DataOf(c), lo, l, p, p, hi, pv) && Rank(f, versus, left.data, pv) > 0
    modifies c`data
    ensures Linked(c) && Phase(f, versus, was, DataOf(c), lo, l, p - 1, p - 1, hi, pv) && c[p - 1].data == pv
  {
    hide Preorder, Rank, Phase, Carried;
    Neighbours(c, p);
    CarriedAt(DataOf(c), l, p, p - 1);
    PhaseCarryLeft(f, versus, was, DataOf(c), lo, l, p, hi, pv);
    CarryData(left, pivot, pivot.prev, c, l, p, p - 1);
  }

  /** The right part is longer: the same the other way round. */
  method GatherRight(f: Comparator, versus: int, right0: Entry, pivot0: Entry, id0: nat, ghost c: seq<Entry>, ghost lo: nat, ghost p0: nat, ghost r0: nat, ghost hi: nat, ghost was: seq<Pointer>, ghost pv: Pointer)
    returns (pivot: Entry, pivotid: nat, ghost p: nat)
    requires Preorder(f) && Linked(c) && 0 < lo <= p0 <= r0 <= hi < |c| - 1 && right0 == c[r0] && pivot0 == c[p0] && id0 == p0 - lo
    requires Phase(f, versus, was, DataOf(c), lo, p0, p0, r0, hi, pv) && pivot0.data == pv
    modifies c`data
    ensures Linked(c) && lo <= p <= hi && pivot == c[p] && pivotid == p - lo
    ensures Phase(f, versus, was, DataOf(c), lo, p, p, p, hi, pv)
  {
    hide Preorder, Rank, Linked, Distinct, Phase, DataOf;
    var right := right0;
    pivot, pivotid, p := pivot0, id0, p0;
    ghost var r := r0;
    while right != pivot
      invariant lo <= p <= r <= hi && right == c[r] && pivot == c[p] && pivotid == p - lo && pivot.data == pv && Linked(c)
      invariant Phase(f, versus, was, DataOf(c), lo, p, p, r, hi, pv)
      decreases r - p
    {
      Neighbours(c, p);
      Neighbours(c, r);
      if Rank(f, versus, right.data, pivot.data) < 0 {
        CarryRight(f, versus, right, pivot, c, lo, p, r, hi, was, pv);
        pivot := pivot.next;
        pivotid := pivotid + 1;
        p := p + 1;
        if pivot == right { break; }
      } else {
        PhaseStep(f, versus, was, DataOf(c), lo, p, p, r, hi, pv);
        right := right.prev;
        r := r - 1;
      }
    }
    Apart(c, r, p);
  }

  method CarryRight(f: Comparator, versus: int, right: Entry, pivot: Entry, ghost c: seq<Entry>, ghost lo: nat, ghost p: nat, ghost r: nat, ghost hi: nat, ghost was: seq<Pointer>, ghost pv: Pointer)
    requires Preorder(f) && Linked(c) && 0 < lo <= p < r <= hi < |c| - 1 && right == c[r] && pivot == c[p] && pivot.data == pv
    requires Phase(f, versus, was, DataOf(c), lo, p, p, r, hi, pv) && Rank(f, versus, right.data, pv) < 0
    modifies c`data
    ensures Linked(c) && Phase(f, versus, was, DataOf(c), lo, p + 1, p + 1, r, hi, pv) && c[p + 1].data == pv
  {
    hide Preorder, Rank, Phase, Carried;
    Neighbours(c, p);
    CarriedAt(DataOf(c), r, p, p + 1);
    PhaseCarryRight(f, versus, was, DataOf(c), lo, p, r, hi, pv);
    CarryData(right, pivot, pivot.next, c, r, p, p + 1);
  }

  /** From whichever end is nearer. */
  method FindPivot(fel: Entry, lel: Entry, pivotid: nat, first: nat, last: nat, ghost c: seq<Entry>, ghost lo: nat, ghost hi: nat) returns (pivot: Entry)
    requires Linked(c) && 0 < lo <= hi < |c| - 1 && fel == c[lo] && lel == c[hi] && last - first == hi - lo && pivotid <= last - first
    ensures pivot == c[lo + pivotid]
  {
    var i: nat;
    if pivotid < (last - first + 1) / 2 {
      i, pivot := 0, fel;
      while i < pivotid
        invariant i <= pivotid && pivot == c[lo + i]
      {
        pivot := pivot.next;
        i := i + 1;
      }
    } else {
      i, pivot := last - first, lel;
      while i > pivotid
        invariant pivotid <= i <= last - first && pivot == c[lo + i]
      {
        pivot := pivot.prev;
        i := i - 1;
      }
    }
  }

  /** The iteration of ks_list_sort_quicksort before it recurses. */
  method Partition(f: Comparator, versus: int, first: nat, fel: Entry, last: nat, lel: Entry, id: nat, ghost c: seq<Entry>, ghost lo: nat, ghost hi: nat)
    returns (pivot: Entry, pivotid: nat, ghost p: nat)
    requires Preorder(f) && Linked(c) && 0 < lo < hi < |c| - 1 && fel == c[lo] && lel == c[hi] && last - first == hi - lo && id <= last - first
    modifies c`data
    ensures Linked(c) && lo <= p <= hi && pivot == c[p] && pivotid == p - lo
    ensures Shuffled(old(DataOf(c)), DataOf(c), lo, hi + 1) && Parted(f, versus, DataOf(c), lo, p, hi + 1)
  {
    hide Preorder, Rank, Linked, Distinct, DataOf, Shuffled, Parted, Below, Above;
    ghost var was := DataOf(c);
    pivot := FindPivot(fel, lel, id, first, last, c, lo, hi);
    pivotid, p := id, lo + id;
    ghost var pv := pivot.data;
    var left, right, l, r := Meet(f, versus, fel, lel, pivot, c, lo, p, hi);
    if right == pivot {
      Apart(c, r, p);
      pivot, pivotid, p := GatherLeft(f, versus, left, pivot, pivotid, c, lo, l, p, hi, was, pv);
    } else {
      pivot, pivotid, p := GatherRight(f, versus, right, pivot, pivotid, c, lo, p, r, hi, was, pv);
    }
    PhaseStep(f, versus, was, DataOf(c), lo, p, p, p, hi, pv);
  }

  /** ks_list_sort_quicksort on c[lo..hi + 1], without the threads. get_random gives any number at all. */
  method Quicksort(f: Comparator, versus: int, first: nat, fel: Entry, last: nat, lel: Entry, ghost c: seq<Entry>, ghost lo: nat, ghost hi: nat)
    requires Preorder(f) && Linked(c) && 0 < lo <= hi < |c| - 1 && fel == c[lo] && lel == c[hi] && last - first == hi - lo
    modifies c`data
    ensures Linked(c) && Shuffled(old(DataOf(c)), DataOf(c), lo, hi + 1) && Sorted(f, versus, DataOf(c), lo, hi + 1)
    decreases last - first, 1
  {
    if last <= first { return; }
    if last - first + 1 <= MIN_QUICKSORT {
      SelectionSort(f, versus, first, fel, last, lel, c, lo, hi);
      return;
    }
    hide Preorder, Linked, Distinct, DataOf, Shuffled, Sorted, Parted;
    ghost var was := DataOf(c);
    var random: nat := *;
    var pivotid := random % (last - first + 1);
    var pivot, id, p := Partition(f, versus, first, fel, last, lel, pivotid, c, lo, hi);
    Neighbours(c, p);
    SortLeft(f, versus, first, fel, last, pivot, id, c, lo, p, hi, was);
    SortRight(f, versus, first, last, lel, pivot, id, c, lo, p, hi, was);
    PartedSorted(f, versus, DataOf(c), lo, p, hi + 1);
  }

  method SortLeft(f: Comparator, versus: int, first: nat, fel: Entry, last: nat, pivot: Entry, pivotid: nat, ghost c: seq<Entry>, ghost lo: nat, ghost p: nat, ghost hi: nat, ghost was: seq<Pointer>)
    requires Preorder(f) && Linked(c) && 0 < lo <= p <= hi < |c| - 1 && fel == c[lo] && pivot == c[p] && pivotid == p - lo
    requires last - first == hi - lo && Shuffled(was, DataOf(c), lo, hi + 1) && Parted(f, versus, DataOf(c), lo, p, hi + 1)
    modifies c`data
    ensures Linked(c) && Shuffled(was, DataOf(c), lo, hi + 1) && Parted(f, versus, DataOf(c), lo, p, hi + 1)
    ensures Sorted(f, versus, DataOf(c), lo, p)
    decreases last - first, 0
  {
    hide Preorder, Linked, Distinct, DataOf, Shuffled, Parted, Before;
    if pivotid > 0 {
      ghost var s := DataOf(c);
      Neighbours(c, p);
      Quicksort(f, versus, first, fel, first + pivotid - 1, pivot.prev, c, lo, p - 1);
      PartedLeft(f, versus, s, DataOf(c), lo, p, hi + 1);
      ShuffledThen(was, s, DataOf(c), lo, hi + 1);
    }
  }

  method SortRight(f: Comparator, versus: int, first: nat, last: nat, lel: Entry, pivot: Entry, pivotid: nat, ghost c: seq<Entry>, ghost lo: nat, ghost p: nat, ghost hi: nat, ghost was: seq<Pointer>)
    requires Preorder(f) && Linked(c) && 0 < lo <= p <= hi < |c| - 1 && lel == c[hi] && pivot == c[p] && pivotid == p - lo
    requires last - first == hi - lo && Shuffled(was, DataOf(c), lo, hi + 1) && Parted(f, versus, DataOf(c), lo, p, hi + 1)
    requires Sorted(f, versus, DataOf(c), lo, p)
    modifies c`data
    ensures Linked(c) && Shuffled(was, DataOf(c), lo, hi + 1) && Parted(f, versus, DataOf(c), lo, p, hi + 1)
    ensures Sorted(f, versus, DataOf(c), lo, p) && Sorted(f, versus, DataOf(c), p + 1, hi + 1)
    decreases last - first, 0
  {
    hide Preorder, Linked, Distinct, DataOf, Shuffled, Parted, Before;
    if first + pivotid < last {
      ghost var s := DataOf(c);
      Neighbours(c, p);
      Quicksort(f, versus, first + pivotid + 1, pivot.next, last, lel, c, p + 1, hi);
      PartedRight(f, versus, s, DataOf(c), lo, p, hi + 1);
      ShuffledThen(was, s, DataOf(c), lo, hi + 1);
    }
  }

  /** ks_list_sort. Links, length and middle stay; the data ends up ordered, whatever the comparison, the direction and
      the pivots. */
  method Sort(l: List, comparator: Option<Comparator>, versus: int) returns (r: int)
    requires l.Valid() && (comparator.Some? ==> Preorder(comparator.value))
    modifies l.chain`data
    ensures l.Valid() && (r == if l.iterActive || comparator.None? then -1 else 0)
    ensures r == -1 ==> l.Contents() == old(l.Contents())
    ensures r == 0 ==> multiset(l.Contents()) == multiset(old(l.Contents()))
    ensures r == 0 ==> forall i, j | 0 <= i < j < |l.Contents()| ::
      comparator.value(l.Contents()[i], l.Contents()[j]) * -versus <= 0
  {
    if l.iterActive || comparator.None? { return -1; }
    if l.numels > 1 {
      SortChain(l, comparator.value, versus);
      InOrder(comparator.value, versus, l.Contents());
    }
    r := 0;
  }

  lemma InOrder(f: Comparator, versus: int, s: seq<Pointer>)
    requires Sorted(f, versus, s, 0, |s|)
    ensures forall i, j | 0 <= i < j < |s| :: f(s[i], s[j]) * -versus <= 0
  {
    forall i, j | 0 <= i < j < |s| ensures f(s[i], s[j]) * -versus <= 0 { BeforeMeans(f, versus, s[i], s[j]); }
  }

  lemma BeforeMeans(f: Comparator, versus: int, a: Pointer, b: Pointer)
    ensures Before(f, versus, a, b) <==> f(a, b) * -versus <= 0
  {
  }

  /** ks_list_comparator_int32_t and its likes, on the numbers that the elements point to: the smaller first argument gives 1. */
  function ByNumber(a: Pointer, b: Pointer): int {
    (if a < b then 1 else 0) - (if a > b then 1 else 0)
  }

  /** With it, versus 1 means ascending numbers and -1 descending ones. */
  lemma ByNumberAscends(a: Pointer, b: Pointer)
    ensures Preorder(ByNumber)
    ensures Before(ByNumber, 1, a, b) <==> a <= b
    ensures Before(ByNumber, -1, a, b) <==> a >= b
  {
  }

  method SortChain(l: List, f: Comparator, versus: int)
    requires l.Valid() && Preorder(f) && l.numels > 1
    modifies l.chain`data
    ensures l.Valid() && multiset(l.Contents()) == multiset(old(l.Contents())) && Sorted(f, versus, l.Contents(), 0, l.numels)
  {
    hide Preorder, Linked, Distinct, DataOf, Shuffled, Before, Sorted;
    ghost var c := l.chain;
    ghost var s := DataOf(c);
    Neighbours(c, 0);
    Neighbours(c, l.numels + 1);
    Quicksort(f, versus, 0, l.head.next, l.numels - 1, l.tail.prev, c, 1, l.numels);
    ShuffledContents(f, versus, s, DataOf(c));
  }

  lemma ShuffledContents(f: Comparator, versus: int, s: seq<Pointer>, t: seq<Pointer>)
    requires |s| >= 2 && Shuffled(s, t, 1, |s| - 1) && Sorted(f, versus, t, 1, |s| - 1)
    ensures multiset(s[1..|s| - 1]) == multiset(t[1..|t| - 1]) && s[|s| - 1] == t[|t| - 1]
    ensures Sorted(f, versus, t[1..|t| - 1], 0, |t| - 2)
  {
    ShuffledElsewhere(s, t, 1, |s| - 1, |s| - 1);
  }
}
