/** Main results about RFC 6902 patches: sorting keeps an object's meaning, and applying generated patches to a
    duplicate of the source yields the target up to member order. */
module KJsonDiff {
  import opened Octets
  import opened KJson
  import opened KJsonText
  import opened KJsonStrings
  import opened KJsonSort
  import opened KJsonPatch
  import opened KJsonMeaning
  import opened KJsonEffects

  // ----- sorting any list of members

  ghost function Entries(ms: Members): multiset<(Text, Json)> {
    match ms
    case NoMember => multiset{}
    case Member(k, v, next) => multiset{(k, v)} + Entries(next)
  }

  ghost predicate Ordered(ms: Members) {
    ms.Member? && ms.next.Member? ==> CompareStrings(ms.key, ms.next.key, false) <= 0 && Ordered(ms.next)
  }

  lemma {:induction false} TakeDropEntries(ms: Members, n: nat)
    requires n <= Count(ms)
    ensures Entries(Take(ms, n)) + Entries(Drop(ms, n)) == Entries(ms)
  {
    if n > 0 { TakeDropEntries(ms.next, n - 1); }
  }

  lemma {:induction false} MergeOrders(a: Members, b: Members)
    ensures Entries(Merge(a, b)) == Entries(a) + Entries(b)
    ensures Ordered(a) && Ordered(b) ==> Ordered(Merge(a, b))
    ensures Merge(a, b).Member? ==>
      var k := Merge(a, b).key; (a.Member? && k == a.key) || (b.Member? && k == b.key)
    decreases Count(a) + Count(b)
  {
    if a.Member? && b.Member? {
      Asymmetric(a.key, b.key, false);
      if CompareStrings(a.key, b.key, false) < 0 { MergeOrders(a.next, b); } else { MergeOrders(a, b.next); }
    }
  }

  lemma {:induction false} StrictlySortedIsOrdered(ms: Members)
    requires IsSorted(ms, false)
    ensures Ordered(ms)
  {
    if ms.Member? && ms.next.Member? { StrictlySortedIsOrdered(ms.next); }
  }

  /** sort_list keeps every entry, whatever the names; without regard to case it also sorts them. */
  lemma {:induction false} SortSorts(ms: Members, caseSensitive: bool)
    ensures Entries(SortMembers(ms, caseSensitive)) == Entries(ms)
    ensures !caseSensitive ==> Ordered(SortMembers(ms, caseSensitive))
    decreases Count(ms)
  {
    if Count(ms) <= 1 || IsSorted(ms, caseSensitive) {
      if ms.Member? && ms.next.Member? {
        assert Count(ms) == 1 + (1 + Count(ms.next.next));
        if !caseSensitive { StrictlySortedIsOrdered(ms); }
      }
    } else {
      var half := (Count(ms) + 1) / 2;
      SortSorts(Take(ms, half), caseSensitive);
      SortSorts(Drop(ms, half), caseSensitive);
      TakeDropEntries(ms, half);
      MergeOrders(SortMembers(Take(ms, half), caseSensitive), SortMembers(Drop(ms, half), caseSensitive));
    }
  }

  /** The case-sensitive sort does not sort by strcmp: merging ignores case. */
  lemma CaseSensitiveSortIsNotByCase()
    ensures var ms := Member("b", Null, Member("a", Null, Member("B", Null, NoMember)));
      !IsSorted(SortMembers(ms, true), true)
  {
    var last := Member("B", Null, NoMember);
    var ms := Member("b", Null, Member("a", Null, last));
    assert CompareStrings("b", "a", true) > 0 && CompareStrings("b", "a", false) > 0;
    assert CompareStrings("a", "b", true) < 0 && CompareStrings("a", "b", false) < 0;
    assert CompareStrings("a", "B", false) < 0;
    assert CompareStrings("b", "B", false) == 0 by { assert "b"[1..] == "B"[1..] == []; }
    assert CompareStrings("B", "b", true) < 0;
    var first := Take(ms, 2);
    assert first == Member("b", Null, Member("a", Null, NoMember)) by {
      assert Take(Member("a", Null, last), 1) == Member("a", Null, NoMember);
    }
    assert Drop(ms, 2) == last by { assert Drop(Member("a", Null, last), 1) == last; }
    assert SortMembers(first, true) == Member("a", Null, Member("b", Null, NoMember)) by {
      assert Take(first, 1) == Member("b", Null, NoMember);
      assert Drop(first, 1) == Member("a", Null, NoMember);
    }
    assert SortMembers(last, true) == last;
    assert Count(ms) == 3;
    assert SortMembers(ms, true) == Merge(Member("a", Null, Member("b", Null, NoMember)), last);
    assert Merge(Member("b", Null, NoMember), last) == Member("B", Null, Member("b", Null, NoMember));
    assert SortMembers(ms, true) == Member("a", Null, Member("B", Null, Member("b", Null, NoMember)));
    assert CompareStrings("a", "B", true) > 0;
  }

  /** On these two names the two comparisons put the same one first. */
  ghost predicate Agree(a: Text, b: Text) {
    CompareStrings(a, b, true) < 0 <==> CompareStrings(a, b, false) < 0
  }

  /** The names differ pairwise, and both comparisons order them alike. */
  ghost predicate AllAgree(ms: Members) {
    match ms
    case NoMember => true
    case Member(k, _, next) => AgreesWith(k, Keys(next)) && AllAgree(next)
  }

  ghost predicate AgreeApart(a: Text, b: Text) {
    CompareStrings(a, b, true) != 0 && Agree(a, b) && Agree(b, a)
  }

  /** k stands apart from all of these, in agreement. */
  ghost predicate AgreesWith(k: Text, keys: set<Text>) {
    forall l | l in keys :: AgreeApart(k, l)
  }

  lemma {:induction false} AllAgreeHalves(ms: Members, n: nat)
    requires AllAgree(ms) && n <= Count(ms)
    ensures AllAgree(Take(ms, n)) && AllAgree(Drop(ms, n))
    ensures forall k | k in Keys(Take(ms, n)) :: AgreesWith(k, Keys(Drop(ms, n)))
  {
    hide AgreeApart;
    if n > 0 {
      AllAgreeHalves(ms.next, n - 1);
      TakeDropKeys(ms.next, n - 1);
    }
  }

  lemma {:induction false} MergeKeys(a: Members, b: Members)
    ensures Keys(Merge(a, b)) == Keys(a) + Keys(b)
    decreases Count(a) + Count(b)
  {
    hide CompareStrings;
    if a.Member? && b.Member? {
      if CompareStrings(a.key, b.key, false) < 0 { MergeKeys(a.next, b); } else { MergeKeys(a, b.next); }
    }
  }

  lemma {:induction false} SortKeys(ms: Members, caseSensitive: bool)
    ensures Keys(SortMembers(ms, caseSensitive)) == Keys(ms)
    decreases Count(ms)
  {
    hide Merge, IsSorted, Take, Drop;
    if Count(ms) > 1 && !IsSorted(ms, caseSensitive) {
      var half := (Count(ms) + 1) / 2;
      SortKeys(Take(ms, half), caseSensitive);
      SortKeys(Drop(ms, half), caseSensitive);
      MergeKeys(SortMembers(Take(ms, half), caseSensitive), SortMembers(Drop(ms, half), caseSensitive));
      TakeDropKeys(ms, half);
    }
  }

  lemma {:induction false} TakeDropKeys(ms: Members, n: nat)
    requires n <= Count(ms)
    ensures Keys(Take(ms, n)) + Keys(Drop(ms, n)) == Keys(ms)
  {
    if n > 0 { TakeDropKeys(ms.next, n - 1); }
  }

  lemma {:induction false} MergeByCase(a: Members, b: Members)
    requires IsSorted(a, true) && IsSorted(b, true) && forall k | k in Keys(a) :: AgreesWith(k, Keys(b))
    ensures IsSorted(Merge(a, b), true)
    ensures Merge(a, b).Member? ==>
      var k := Merge(a, b).key; (a.Member? && k == a.key) || (b.Member? && k == b.key)
    decreases Count(a) + Count(b)
  {
    hide CompareStrings;
    if a.Member? && b.Member? {
      assert AgreesWith(a.key, Keys(b));
      assert AgreeApart(a.key, b.key);
      Asymmetric(a.key, b.key, true);
      if CompareStrings(a.key, b.key, false) < 0 { MergeByCase(a.next, b); } else { MergeByCase(a, b.next); }
    }
  }

  /** The case-sensitive sort sorts by strcmp all lists of names on which both comparisons agree, in any order. */
  lemma {:induction false} AgreeingNamesAreSorted(ms: Members)
    requires AllAgree(ms)
    ensures IsSorted(SortMembers(ms, true), true)
    decreases Count(ms)
  {
    hide AgreeApart, Merge, Take, Drop, CompareStrings;
    if Count(ms) > 1 && !IsSorted(ms, true) {
      var half := (Count(ms) + 1) / 2;
      var a, b := Take(ms, half), Drop(ms, half);
      AllAgreeHalves(ms, half);
      AgreeingNamesAreSorted(a);
      AgreeingNamesAreSorted(b);
      SortKeys(a, true);
      SortKeys(b, true);
      MergeByCase(SortMembers(a, true), SortMembers(b, true));
    } else if ms.Member? && ms.next.Member? {
      assert Count(ms) == 1 + (1 + Count(ms.next.next));
    }
  }

  /** What the sort makes of two members. */
  lemma TwoSorted(a: Text, v: Json, b: Text, w: Json, caseSensitive: bool)
    ensures SortMembers(Member(a, v, Member(b, w, NoMember)), caseSensitive)
         == if CompareStrings(a, b, caseSensitive) < 0 || CompareStrings(a, b, false) < 0
            then Member(a, v, Member(b, w, NoMember)) else Member(b, w, Member(a, v, NoMember))
  {
    hide CompareStrings;
    var x, y := Member(a, v, NoMember), Member(b, w, NoMember);
    var ms := Member(a, v, y);
    assert Count(NoMember) == 0 && Count(x) == 1 && Count(y) == 1 && Count(ms) == 1 + Count(y);
    assert Take(y, 0) == NoMember && Drop(y, 0) == y;
    assert Take(ms, 1) == x && Drop(ms, 1) == y;
    assert SortMembers(x, caseSensitive) == x && SortMembers(y, caseSensitive) == y;
    assert Merge(x, NoMember) == x && Merge(NoMember, y) == y;
    assert IsSorted(ms, caseSensitive) <==> CompareStrings(a, b, caseSensitive) < 0;
    assert SortMembers(ms, caseSensitive) == if IsSorted(ms, caseSensitive) then ms else Merge(x, y);
  }

  /** Two different names, exactly: they come out sorted unless strcmp puts the second first and ignoring case does not. */
  lemma TwoNamesSorted(a: Text, v: Json, b: Text, w: Json)
    requires CompareStrings(a, b, true) != 0
    ensures IsSorted(SortMembers(Member(a, v, Member(b, w, NoMember)), true), true)
            <==> CompareStrings(a, b, true) < 0 || CompareStrings(a, b, false) >= 0
  {
    hide CompareStrings, SortMembers;
    Asymmetric(a, b, true);
    TwoSorted(a, v, b, w, true);
  }

  /** Two different names come out sorted whichever stands first, exactly if the comparisons do not contradict each other. */
  lemma TwoNamesSortedEitherWay(a: Text, v: Json, b: Text, w: Json)
    requires CompareStrings(a, b, true) != 0
    ensures IsSorted(SortMembers(Member(a, v, Member(b, w, NoMember)), true), true)
            && IsSorted(SortMembers(Member(b, w, Member(a, v, NoMember)), true), true)
            <==> if CompareStrings(a, b, true) < 0 then CompareStrings(a, b, false) <= 0 else CompareStrings(a, b, false) >= 0
  {
    hide CompareStrings, SortMembers;
    Asymmetric(a, b, true);
    Asymmetric(a, b, false);
    TwoNamesSorted(a, v, b, w);
    TwoNamesSorted(b, w, a, v);
  }

  // ----- sorting clean members

  ghost predicate Ascending(ms: Members, caseSensitive: bool) {
    IsSorted(ms, caseSensitive)
  }

  /** No two of these names are the same but for case. */
  ghost predicate Settled(names: set<Text>) {
    forall k | k in names :: Fits(k, names)
  }

  lemma CleanIsSettled(ms: Members)
    requires CleanMembers(ms)
    ensures Settled(Keys(ms))
  {
    hide Fits, Plain;
    forall k | k in Keys(ms) ensures Fits(k, Keys(ms)) { KeysFit(ms, k); }
  }

  /** Two different names of a settled set are different in either comparison. */
  lemma SettledComparison(names: set<Text>, k: Text, l: Text, caseSensitive: bool)
    requires Settled(names) && k in names && l in names && Plain(k) && Plain(l)
    ensures CompareStrings(k, l, caseSensitive) == 0 <==> k == l
  {
    FitsComparison(k, names, l, caseSensitive);
  }

  lemma {:induction false} TakeDropMeaning(ms: Members, n: nat)
    requires CleanMembers(ms) && n <= Count(ms)
    ensures var a, b := Take(ms, n), Drop(ms, n);
      && CleanMembers(a) && CleanMembers(b) && Keys(a) !! Keys(b)
      && Keys(ms) == Keys(a) + Keys(b)
      && MembersMeaning(ms) == MembersMeaning(a) + MembersMeaning(b)
  {
    hide Clean, Meaning, Plain, CompareStrings;
    var a, b := Take(ms, n), Drop(ms, n);
    if n == 0 {
      assert map[] + MembersMeaning(b) == MembersMeaning(ms);
    } else {
      TakeDropMeaning(ms.next, n - 1);
      MeaningKeys(b);
      PutLeft(MembersMeaning(a.next), MembersMeaning(b), ms.key, Meaning(ms.value));
    }
  }

  lemma PutLeft(a: map<Text, Tree>, b: map<Text, Tree>, k: Text, v: Tree)
    requires k !in b
    ensures a[k := v] + b == (a + b)[k := v]
  {
  }

  lemma {:induction false} MergeClean(a: Members, b: Members)
    requires CleanMembers(a) && CleanMembers(b) && Keys(a) !! Keys(b) && Settled(Keys(a) + Keys(b))
    ensures CleanMembers(Merge(a, b)) && Keys(Merge(a, b)) == Keys(a) + Keys(b)
    decreases Count(a) + Count(b)
  {
    hide Clean, Plain, CompareStrings, Fits;
    if a.Member? && b.Member? {
      if CompareStrings(a.key, b.key, false) < 0 {
        SettledPart(Keys(a) + Keys(b), Keys(a.next) + Keys(b));
        MergeClean(a.next, b);
        FitsPart(a.key, Keys(a) + Keys(b), Keys(a.next) + Keys(b));
      } else {
        SettledPart(Keys(a) + Keys(b), Keys(a) + Keys(b.next));
        MergeClean(a, b.next);
        FitsPart(b.key, Keys(a) + Keys(b), Keys(a) + Keys(b.next));
      }
    }
  }

  lemma {:induction false} MergeMeaning(a: Members, b: Members)
    requires CleanMembers(a) && CleanMembers(b) && Keys(a) !! Keys(b)
    ensures MembersMeaning(Merge(a, b)) == MembersMeaning(a) + MembersMeaning(b)
    decreases Count(a) + Count(b)
  {
    hide Clean, Meaning, Plain, CompareStrings, Fits;
    MeaningKeys(a);
    MeaningKeys(b);
    if a.Member? && b.Member? {
      if CompareStrings(a.key, b.key, false) < 0 { MergeMeaning(a.next, b); } else { MergeMeaning(a, b.next); }
    }
  }

  lemma FitsPart(k: Text, names: set<Text>, part: set<Text>)
    requires Fits(k, names) && part <= names
    ensures Fits(k, part)
  {
  }

  lemma SettledPart(names: set<Text>, part: set<Text>)
    requires Settled(names) && part <= names
    ensures Settled(part)
  {
  }

  /** Without regard to case the merge ascends. */
  lemma {:induction false} MergeAscends(a: Members, b: Members)
    requires CleanMembers(a) && CleanMembers(b) && Keys(a) !! Keys(b) && Settled(Keys(a) + Keys(b))
    requires Ascending(a, false) && Ascending(b, false)
    ensures Ascending(Merge(a, b), false)
    ensures Merge(a, b).Member? ==>
      var k := Merge(a, b).key; (a.Member? && k == a.key) || (b.Member? && k == b.key)
    decreases Count(a) + Count(b)
  {
    hide Clean, Plain, CompareStrings, Fits, Settled;
    if a.Member? && b.Member? {
      SettledComparison(Keys(a) + Keys(b), a.key, b.key, false);
      Asymmetric(a.key, b.key, false);
      SettledPart(Keys(a) + Keys(b), Keys(a.next) + Keys(b));
      SettledPart(Keys(a) + Keys(b), Keys(a) + Keys(b.next));
      if CompareStrings(a.key, b.key, false) < 0 { MergeAscends(a.next, b); } else { MergeAscends(a, b.next); }
    }
  }

  /** Sorting clean members: the same members, and without regard to case they ascend. */
  lemma {:induction false} SortMeaning(ms: Members, caseSensitive: bool)
    requires CleanMembers(ms)
    ensures var r := SortMembers(ms, caseSensitive);
      && CleanMembers(r) && Keys(r) == Keys(ms) && MembersMeaning(r) == MembersMeaning(ms)
      && (!caseSensitive ==> Ascending(r, false))
    decreases Count(ms)
  {
    hide CleanMembers, MembersMeaning, Keys, Plain, CompareStrings, Merge, Take, Drop, Settled;
    if Count(ms) <= 1 || IsSorted(ms, caseSensitive) {
      if ms.Member? && ms.next.Member? { assert Count(ms) == 1 + (1 + Count(ms.next.next)); }
    } else {
      var half := (Count(ms) + 1) / 2;
      TakeDropMeaning(ms, half);
      CleanIsSettled(ms);
      SortMeaning(Take(ms, half), caseSensitive);
      SortMeaning(Drop(ms, half), caseSensitive);
      var a, b := SortMembers(Take(ms, half), caseSensitive), SortMembers(Drop(ms, half), caseSensitive);
      MergeClean(a, b);
      MergeMeaning(a, b);
      if !caseSensitive { MergeAscends(a, b); }
    }
  }

  /** A name below the first of an ascending list is not in the list. */
  lemma {:induction false} BelowAscending(k: Text, ms: Members, caseSensitive: bool)
    requires CleanMembers(ms) && Ascending(ms, caseSensitive) && Plain(k) && ms.Member? && Less(k, ms.key, caseSensitive)
    ensures k !in Keys(ms)
  {
    hide Clean, Plain, CompareStrings, Fits;
    SameString(k, caseSensitive);
    if ms.next.Member? {
      PlainIsNulFree(k);
      PlainIsNulFree(ms.key);
      PlainIsNulFree(ms.next.key);
      LessTransitive(k, ms.key, ms.next.key, caseSensitive);
      BelowAscending(k, ms.next, caseSensitive);
    }
  }

  // ----- trees that sort

  /** Every object in the tree comes out of the sort in order. Without regard to case that is so for every clean tree;
      with regard to case it is so where the two orders of names agree. */
  ghost predicate Sortable(j: Json, caseSensitive: bool) {
    match j
    case Array(items) => SortableItems(items, caseSensitive)
    case Object(members) =>
      IsSorted(SortMembers(members, caseSensitive), caseSensitive) && SortableMembers(members, caseSensitive)
    case _ => true
  }

  ghost predicate SortableItems(items: Items, caseSensitive: bool) {
    match items
    case NoItem => true
    case Item(v, next) => Sortable(v, caseSensitive) && SortableItems(next, caseSensitive)
  }

  ghost predicate SortableMembers(ms: Members, caseSensitive: bool) {
    match ms
    case NoMember => true
    case Member(_, v, next) => Sortable(v, caseSensitive) && SortableMembers(next, caseSensitive)
  }

  lemma {:induction false} CleanIsSortable(j: Json)
    requires Clean(j)
    ensures Sortable(j, false)
    decreases j
  {
    hide SortMembers, IsSorted;
    match j
    case Array(items) => CleanItemsSortable(items);
    case Object(members) =>
      SortMeaning(members, false);
      CleanMembersSortable(members);
    case _ =>
  }

  lemma {:induction false} CleanItemsSortable(items: Items)
    requires CleanItems(items)
    ensures SortableItems(items, false)
    decreases items
  {
    if items.Item? {
      CleanIsSortable(items.value);
      CleanItemsSortable(items.next);
    }
  }

  lemma {:induction false} CleanMembersSortable(ms: Members)
    requires CleanMembers(ms)
    ensures SortableMembers(ms, false)
    decreases ms
  {
    if ms.Member? {
      CleanIsSortable(ms.value);
      CleanMembersSortable(ms.next);
    }
  }

  lemma {:induction false} SortableEntries(ms: Members, caseSensitive: bool)
    ensures SortableMembers(ms, caseSensitive) <==> forall e | e in Entries(ms) :: Sortable(e.1, caseSensitive)
  {
    if ms.Member? {
      SortableEntries(ms.next, caseSensitive);
      if forall e | e in Entries(ms) :: Sortable(e.1, caseSensitive) {
        assert (ms.key, ms.value) in Entries(ms);
        forall e | e in Entries(ms.next) ensures Sortable(e.1, caseSensitive) { assert e in Entries(ms); }
      }
    }
  }

  /** Every object in the tree has names on which the two orders agree. */
  ghost predicate Agreeing(j: Json) {
    match j
    case Array(items) => AgreeingItems(items)
    case Object(members) => AllAgree(members) && AgreeingMembers(members)
    case _ => true
  }

  ghost predicate AgreeingItems(items: Items) {
    items.Item? ==> Agreeing(items.value) && AgreeingItems(items.next)
  }

  ghost predicate AgreeingMembers(ms: Members) {
    ms.Member? ==> Agreeing(ms.value) && AgreeingMembers(ms.next)
  }

  lemma {:induction false} AgreeingIsSortable(j: Json)
    requires Agreeing(j)
    ensures Sortable(j, true)
    decreases j
  {
    hide SortMembers, IsSorted, AllAgree;
    match j
    case Array(items) => AgreeingItemsSortable(items);
    case Object(members) =>
      AgreeingNamesAreSorted(members);
      AgreeingMembersSortable(members);
    case _ =>
  }

  lemma {:induction false} AgreeingItemsSortable(items: Items)
    requires AgreeingItems(items)
    ensures SortableItems(items, true)
    decreases items
  {
    if items.Item? {
      AgreeingIsSortable(items.value);
      AgreeingItemsSortable(items.next);
    }
  }

  lemma {:induction false} AgreeingMembersSortable(ms: Members)
    requires AgreeingMembers(ms)
    ensures SortableMembers(ms, true)
    decreases ms
  {
    if ms.Member? {
      AgreeingIsSortable(ms.value);
      AgreeingMembersSortable(ms.next);
    }
  }

  lemma SortableSorted(ms: Members, caseSensitive: bool)
    requires SortableMembers(ms, caseSensitive)
    ensures SortableMembers(SortMembers(ms, caseSensitive), caseSensitive)
  {
    SortSorts(ms, caseSensitive);
    SortableEntries(ms, caseSensitive);
    SortableEntries(SortMembers(ms, caseSensitive), caseSensitive);
  }

  /** Two trees whose objects in the same place have no names that are the same but for case. */
  ghost predicate Comparable(a: Tree, b: Tree)
    decreases a
  {
    match (a, b)
    case (Obj(f), Obj(t)) => Settled(f.Keys + t.Keys) && forall k | k in f && k in t :: Comparable(f[k], t[k])
    case (Arr(x), Arr(y)) => forall i | 0 <= i < |x| && i < |y| :: Comparable(x[i], y[i])
    case _ => true
  }

  // ----- applying what was generated

  lemma {:induction false} ApplyAppended(doc: Json, a: Items, b: Items, caseSensitive: bool)
    requires ApplyAll(doc, a, caseSensitive).0 == 0
    ensures ApplyAll(doc, AppendItems(a, b), caseSensitive) == ApplyAll(ApplyAll(doc, a, caseSensitive).1, b, caseSensitive)
    decreases a
  {
    hide ApplyPatch;
    if a.Item? { ApplyAppended(ApplyPatch(doc, a.value, caseSensitive).1, a.next, b, caseSensitive); }
  }

  lemma {:induction false} PlainIsNotEncoded(s: Text, at: nat, m: Leftover)
    requires Plain(s)
    ensures Encode(s, at, m) == s
    decreases |s|
  {
    if s != [] { PlainIsNotEncoded(s[1..], at + 1, m); }
  }

  lemma DecimalIsNotEncoded(n: nat, at: nat, m: Leftover)
    ensures Encode(Decimal(n), at, m) == Decimal(n)
  {
    DecimalIsPlain(n);
    PlainIsNotEncoded(Decimal(n), at, m);
  }

  lemma {:induction false} DecimalIsPlain(n: nat)
    ensures Plain(Decimal(n))
  {
    if n >= 10 { DecimalIsPlain(n / 10); }
  }

  /** Patches that turn the value at the tokens into one with meaning m. */
  ghost predicate Reaches(doc: Json, patches: Items, ts: seq<Token>, m: Tree, caseSensitive: bool)
    requires Locate(Meaning(doc), ts).Some?
  {
    var (status, r) := ApplyAll(doc, patches, caseSensitive);
    status == 0 && Clean(r) && Meaning(r) == Put(Meaning(doc), ts, m)
  }

  /** Running on from an intermediate document. */
  lemma ReachesThen(doc: Json, first: Items, middle: Json, rest: Items, ts: seq<Token>, x: Tree, m: Tree, caseSensitive: bool)
    requires Locate(Meaning(doc), ts).Some? && ApplyAll(doc, first, caseSensitive) == (0, middle)
    requires Meaning(middle) == Put(Meaning(doc), ts, x)
    requires Locate(Meaning(middle), ts).Some? && Reaches(middle, rest, ts, m, caseSensitive)
    ensures Reaches(doc, AppendItems(first, rest), ts, m, caseSensitive)
  {
    hide Meaning, Locate, Put, ApplyAll, Clean;
    ApplyAppended(doc, first, rest, caseSensitive);
    PutTwice(Meaning(doc), ts, x, m);
  }

  lemma OnePatch(doc: Json, patch: Json, rest: Items, caseSensitive: bool)
    requires ApplyPatch(doc, patch, caseSensitive).0 == 0
    ensures ApplyAll(doc, Item(patch, NoItem), caseSensitive) == ApplyPatch(doc, patch, caseSensitive)
    ensures AppendItems(Item(patch, NoItem), rest) == Item(patch, rest)
  {
    hide ApplyPatch;
  }

  lemma {:induction false} DiffReaches(doc: Json, ts: seq<Token>, from: Json, to: Json, generate: bool, apply: bool, memory: Memory)
    requires Clean(doc) && ValidPath(ts) && Clean(from) && Clean(to)
    requires Comparable(Meaning(from), Meaning(to)) && Sortable(from, generate)
    requires Locate(Meaning(doc), ts) == Some(Meaning(from))
    ensures Reaches(doc, Diff(PathText(ts), from, to, generate, memory), ts, Meaning(to), apply)
    decreases Size(from) + Size(to), 1
  {
    hide PathText, Locate, Put, ApplyPatch, CleanItems, CleanMembers, SortMembers, DiffItems, DiffMembers, ItemsMeaning,
      MembersMeaning, ItemsSize, MembersSize, ValidPath, Compose, Ready, SortableMembers, SortableItems;
    if Kind(from) == Kind(to) && from.Array? {
      var elements := ItemsMeaning(from.items);
      assert elements[0..] == elements && elements[..0] + ItemsMeaning(to.items) == ItemsMeaning(to.items);
      AlikeByIndex(from.items, to.items);
      DiffItemsReaches(doc, ts, 0, from.items, to.items, elements, generate, apply, memory);
    } else if Kind(from) == Kind(to) && from.Object? {
      var f, t := SortMembers(from.members, generate), SortMembers(to.members, generate);
      SortedReady(from.members, to.members, generate);
      DiffMembersReaches(doc, ts, f, t, MembersMeaning(f), generate, apply, memory);
    } else {
      var patches := Diff(PathText(ts), from, to, generate, memory);
      if patches == NoItem {
        PutSame(Meaning(doc), ts);
      } else {
        ReplaceAnywhere(doc, ts, to, apply);
        OnePatch(doc, Compose("replace", PathText(ts), Some(to)), NoItem, apply);
      }
    }
  }

  // ----- objects

  /** The members still to be compared are the ones the object has under those names. */
  ghost predicate Agrees(fields: map<Text, Tree>, f: Members) {
    forall k | k in Keys(f) :: k in fields && k in MembersMeaning(f) && fields[k] == MembersMeaning(f)[k]
  }

  /** The object once the walk over f and t is done. */
  ghost function Merged(fields: map<Text, Tree>, f: Members, t: Members): map<Text, Tree> {
    fields - Keys(f) + MembersMeaning(t)
  }

  /** The values of common names are comparable. */
  ghost predicate Alike(f: map<Text, Tree>, t: map<Text, Tree>) {
    forall k | k in f && k in t :: Comparable(f[k], t[k])
  }

  /** What the walk over f and t relies on, in an object with these fields. */
  ghost predicate Ready(fields: map<Text, Tree>, f: Members, t: Members, generate: bool) {
    && CleanMembers(f) && CleanMembers(t) && Ascending(f, generate) && Agrees(fields, f)
    && Settled(fields.Keys + Keys(t)) && SortableMembers(f, generate)
    && Alike(MembersMeaning(f), MembersMeaning(t))
  }

  lemma SortedReady(from: Members, to: Members, generate: bool)
    requires CleanMembers(from) && CleanMembers(to)
    requires Comparable(Obj(MembersMeaning(from)), Obj(MembersMeaning(to))) && Sortable(Object(from), generate)
    ensures var f, t := SortMembers(from, generate), SortMembers(to, generate);
      && Ready(MembersMeaning(f), f, t, generate)
      && MembersMeaning(f) == MembersMeaning(from) && Merged(MembersMeaning(f), f, t) == MembersMeaning(to)
  {
    hide CleanMembers, SortMembers, Settled, SortableMembers, IsSorted;
    SortMeaning(from, generate);
    SortMeaning(to, generate);
    SortableSorted(from, generate);
    MeaningKeys(from);
    MeaningKeys(to);
    var f, t := MembersMeaning(from), MembersMeaning(to);
    assert f - f.Keys + t == t;
  }

  lemma AgreesNext(fields: map<Text, Tree>, f: Members, changed: map<Text, Tree>)
    requires f.Member? && CleanMembers(f) && Agrees(fields, f)
    requires forall k | k in fields && k != f.key :: k in changed && changed[k] == fields[k]
    ensures f.key in fields && fields[f.key] == Meaning(f.value) && Agrees(changed, f.next)
  {
    MeaningKeys(f);
    MeaningKeys(f.next);
  }

  /** The rest of both lists is alike, too. */
  lemma AlikeNext(f: Members, t: Members)
    requires CleanMembers(f) && CleanMembers(t) && Alike(MembersMeaning(f), MembersMeaning(t))
    ensures f.Member? ==> Alike(MembersMeaning(f.next), MembersMeaning(t))
    ensures t.Member? ==> Alike(MembersMeaning(f), MembersMeaning(t.next))
    ensures f.Member? && t.Member? ==> Alike(MembersMeaning(f.next), MembersMeaning(t.next))
    ensures f.Member? && t.Member? && f.key == t.key ==> Comparable(Meaning(f.value), Meaning(t.value))
  {
    hide Clean, Plain, Meaning, Comparable, Fits;
    if f.Member? { MeaningKeys(f.next); }
    if t.Member? { MeaningKeys(t.next); }
    if f.Member? && t.Member? && f.key == t.key {
      assert MembersMeaning(f)[f.key] == Meaning(f.value) && MembersMeaning(t)[f.key] == Meaning(t.value);
    }
  }

  lemma ReadyMatched(fields: map<Text, Tree>, f: Members, t: Members, generate: bool)
    requires Ready(fields, f, t, generate) && f.Member? && t.Member? && f.key == t.key
    ensures Ready(fields[f.key := Meaning(t.value)], f.next, t.next, generate) && f.key in fields && Plain(f.key)
    ensures Clean(f.value) && Clean(t.value) && Comparable(Meaning(f.value), Meaning(t.value)) && Sortable(f.value, generate)
    ensures fields[f.key] == Meaning(f.value)
  {
    hide Clean, Plain, Meaning, MembersMeaning, Alike, Fits, Agrees, Settled, CompareStrings;
    var changed := fields[f.key := Meaning(t.value)];
    AlikeNext(f, t);
    AgreesNext(fields, f, changed);
    SettledPart(fields.Keys + Keys(t), changed.Keys + Keys(t.next));
  }

  lemma ReadyRemoved(fields: map<Text, Tree>, f: Members, t: Members, generate: bool)
    requires Ready(fields, f, t, generate) && f.Member?
    ensures Ready(fields - {f.key}, f.next, t, generate) && f.key in fields && Plain(f.key)
  {
    hide Clean, Plain, Meaning, MembersMeaning, Alike, Fits, Agrees, Settled, CompareStrings;
    var changed := fields - {f.key};
    AlikeNext(f, t);
    AgreesNext(fields, f, changed);
    SettledPart(fields.Keys + Keys(t), changed.Keys + Keys(t));
  }

  lemma ReadyAdded(fields: map<Text, Tree>, f: Members, t: Members, generate: bool)
    requires Ready(fields, f, t, generate) && t.Member? && (f.NoMember? || Less(t.key, f.key, generate))
    ensures Ready(fields[t.key := Meaning(t.value)], f, t.next, generate) && Plain(t.key) && Clean(t.value)
    ensures Fits(t.key, fields.Keys) && t.key !in Keys(f)
  {
    hide Clean, Plain, Meaning, MembersMeaning, Alike, Fits, CompareStrings;
    var changed := fields[t.key := Meaning(t.value)];
    AlikeNext(f, t);
    if f.Member? { BelowAscending(t.key, f, generate); }
    assert changed.Keys + Keys(t.next) == fields.Keys + Keys(t);
    FitsPart(t.key, fields.Keys + Keys(t), fields.Keys);
  }

  /** Where a step of the walk goes: names are the same or different in either comparison. */
  lemma ReadyComparison(fields: map<Text, Tree>, f: Members, t: Members, generate: bool)
    requires Ready(fields, f, t, generate) && f.Member? && t.Member?
    ensures CompareStrings(f.key, t.key, generate) == 0 <==> f.key == t.key
    ensures Less(t.key, f.key, generate) <==> CompareStrings(f.key, t.key, generate) > 0
  {
    hide Clean, Plain, Meaning, MembersMeaning, Alike, Fits, CompareStrings, Settled;
    AgreesNext(fields, f, fields);
    SettledComparison(fields.Keys + Keys(t), f.key, t.key, generate);
    Asymmetric(f.key, t.key, generate);
  }

  lemma {:induction false} DiffMembersReaches(doc: Json, ts: seq<Token>, f: Members, t: Members, fields: map<Text, Tree>,
      generate: bool, apply: bool, memory: Memory)
    requires ObjectAt(doc, ts, fields) && Ready(fields, f, t, generate)
    ensures Locate(Meaning(doc), ts).Some?
    ensures Reaches(doc, DiffMembers(PathText(ts), f, t, generate, memory), ts, Obj(Merged(fields, f, t)), apply)
    decreases MembersSize(f) + MembersSize(t), 4
  {
    hide PathText, Locate, Put, ApplyPatch, Compose, Reaches, ObjectAt, Ready, Merged, Meaning, DiffMembers, CompareStrings;
    ObjectIsThere(doc, ts, fields);
    if f.NoMember? && t.NoMember? {
      NothingToDo(doc, ts, fields, generate, apply, memory);
    } else if f.Member? && t.Member? && f.key == t.key {
      MatchedMember(doc, ts, f, t, fields, generate, apply, memory);
    } else if f.Member? && (t.NoMember? || Less(f.key, t.key, generate)) {
      RemovedMember(doc, ts, f, t, fields, generate, apply, memory);
    } else {
      if f.Member? { ReadyComparison(fields, f, t, generate); }
      AddedMember(doc, ts, f, t, fields, generate, apply, memory);
    }
  }

  lemma ObjectIsThere(doc: Json, ts: seq<Token>, fields: map<Text, Tree>)
    requires ObjectAt(doc, ts, fields)
    ensures Locate(Meaning(doc), ts) == Some(Obj(fields)) && Clean(doc) && ValidPath(ts)
  {
  }

  lemma NothingToDo(doc: Json, ts: seq<Token>, fields: map<Text, Tree>, generate: bool, apply: bool, memory: Memory)
    requires ObjectAt(doc, ts, fields)
    ensures Locate(Meaning(doc), ts).Some?
    ensures Reaches(doc, DiffMembers(PathText(ts), NoMember, NoMember, generate, memory), ts,
                    Obj(Merged(fields, NoMember, NoMember)), apply)
  {
    hide PathText;
    PutSame(Meaning(doc), ts);
    assert Merged(fields, NoMember, NoMember) == fields;
  }

  /** After a step that leaves the object with other fields. */
  lemma ObjectAfter(doc: Json, middle: Json, ts: seq<Token>, fields: map<Text, Tree>, changed: map<Text, Tree>)
    requires ObjectAt(doc, ts, fields) && Clean(middle) && Meaning(middle) == Put(Meaning(doc), ts, Obj(changed))
    ensures ObjectAt(middle, ts, changed)
  {
    hide Clean, Meaning, Put, Locate;
    LocatePut(Meaning(doc), ts, Obj(changed));
  }

  lemma MatchedPath(ts: seq<Token>, key: Text, memory: Memory)
    requires Plain(key)
    ensures Suffixed(PathText(ts), key, memory) == PathText(ts + [Key(key)])
    ensures Suffixed(PathText(ts), key, memory) == PathText(ts) + ['/'] + key
  {
    PathTextSnoc(ts, Key(key));
    PlainIsNotEncoded(key, 0, Behind(memory, PathText(ts), key));
  }

  lemma {:induction false} MatchedMember(doc: Json, ts: seq<Token>, f: Members, t: Members, fields: map<Text, Tree>,
      generate: bool, apply: bool, memory: Memory)
    requires ObjectAt(doc, ts, fields) && Ready(fields, f, t, generate)
    requires f.Member? && t.Member? && f.key == t.key
    ensures Locate(Meaning(doc), ts).Some?
    ensures Reaches(doc, DiffMembers(PathText(ts), f, t, generate, memory), ts, Obj(Merged(fields, f, t)), apply)
    decreases MembersSize(f) + MembersSize(t), 3
  {
    hide PathText, Locate, Put, ApplyPatch, Clean, Compose, Reaches, ObjectAt, Ready, Merged, Meaning, Diff, DiffMembers,
      Encode, Suffixed, Plain;
    var key := f.key;
    var changed := fields[key := Meaning(t.value)];
    ReadyMatched(fields, f, t, generate);
    ObjectIsThere(doc, ts, fields);
    MatchedPath(ts, key, memory);
    var middle := ChildReaches(doc, ts, f, t, fields, generate, apply, memory);
    ObjectAfter(doc, middle, ts, fields, changed);
    ObjectIsThere(middle, ts, changed);
    DiffMembersReaches(middle, ts, f.next, t.next, changed, generate, apply, memory);
    MatchedMerge(fields, f, t, generate);
    var first := Diff(Suffixed(PathText(ts), key, memory), f.value, t.value, generate, memory);
    var rest := DiffMembers(PathText(ts), f.next, t.next, generate, memory);
    ReachesThen(doc, first, middle, rest, ts, Obj(changed), Obj(Merged(fields, f, t)), apply);
    MatchedDiff(PathText(ts), f, t, generate, memory);
  }

  lemma MatchedDiff(path: Text, f: Members, t: Members, generate: bool, memory: Memory)
    requires f.Member? && t.Member? && f.key == t.key
    ensures DiffMembers(path, f, t, generate, memory)
         == AppendItems(Diff(Suffixed(path, f.key, memory), f.value, t.value, generate, memory),
                        DiffMembers(path, f.next, t.next, generate, memory))
  {
    hide Diff;
    SameString(f.key, generate);
  }

  lemma MatchedMerge(fields: map<Text, Tree>, f: Members, t: Members, generate: bool)
    requires Ready(fields, f, t, generate) && f.Member? && t.Member? && f.key == t.key && f.key in fields
    ensures Merged(fields[f.key := Meaning(t.value)], f.next, t.next) == Merged(fields, f, t)
  {
    hide Clean, Plain, Meaning, Alike, Agrees, Settled, Fits;
    MeaningKeys(t.next);
  }

  /** The patches for one common member change just that member. */
  lemma {:induction false} ChildReaches(doc: Json, ts: seq<Token>, f: Members, t: Members, fields: map<Text, Tree>,
      generate: bool, apply: bool, memory: Memory) returns (middle: Json)
    requires ObjectAt(doc, ts, fields) && Ready(fields, f, t, generate)
    requires f.Member? && t.Member? && f.key == t.key
    ensures ApplyAll(doc, Diff(Suffixed(PathText(ts), f.key, memory), f.value, t.value, generate, memory), apply) == (0, middle)
    ensures Clean(middle) && Locate(Meaning(doc), ts).Some?
    ensures Meaning(middle) == Put(Meaning(doc), ts, Obj(fields[f.key := Meaning(t.value)]))
    decreases MembersSize(f) + MembersSize(t), 2
  {
    hide PathText, Locate, Put, ApplyAll, Clean, ObjectAt, Ready, Meaning, Diff, Suffixed, Plain;
    var token := Key(f.key);
    ReadyMatched(fields, f, t, generate);
    ObjectIsThere(doc, ts, fields);
    MatchedPath(ts, f.key, memory);
    LocateSnoc(Meaning(doc), ts, token);
    PutSnoc(Meaning(doc), ts, token, Meaning(t.value));
    DiffReaches(doc, ts + [token], f.value, t.value, generate, apply, memory);
    middle := ApplyAll(doc, Diff(PathText(ts + [token]), f.value, t.value, generate, memory), apply).1;
  }

  lemma {:induction false} RemovedMember(doc: Json, ts: seq<Token>, f: Members, t: Members, fields: map<Text, Tree>,
      generate: bool, apply: bool, memory: Memory)
    requires ObjectAt(doc, ts, fields) && Ready(fields, f, t, generate)
    requires f.Member? && (t.NoMember? || Less(f.key, t.key, generate))
    ensures Locate(Meaning(doc), ts).Some?
    ensures Reaches(doc, DiffMembers(PathText(ts), f, t, generate, memory), ts, Obj(Merged(fields, f, t)), apply)
    decreases MembersSize(f) + MembersSize(t), 3
  {
    hide PathText, Locate, Put, ApplyPatch, Clean, Compose, Reaches, ObjectAt, Ready, Meaning, DiffMembers, Encode, Suffixed,
      Plain, MembersMeaning;
    var key := f.key;
    var changed := fields - {key};
    ReadyRemoved(fields, f, t, generate);
    ObjectIsThere(doc, ts, fields);
    MatchedPath(ts, key, memory);
    RemoveKey(doc, ts, fields, key, apply);
    var patch := Compose("remove", PathText(ts) + ['/'] + key, None);
    var middle := ApplyPatch(doc, patch, apply).1;
    var rest := DiffMembers(PathText(ts), f.next, t, generate, memory);
    OnePatch(doc, patch, rest, apply);
    ObjectAfter(doc, middle, ts, fields, changed);
    ObjectIsThere(middle, ts, changed);
    DiffMembersReaches(middle, ts, f.next, t, changed, generate, apply, memory);
    assert fields - {key} - Keys(f.next) == fields - Keys(f);
    ReachesThen(doc, Item(patch, NoItem), middle, rest, ts, Obj(changed), Obj(Merged(fields, f, t)), apply);
    RemovedDiff(PathText(ts), f, t, generate, memory);
  }

  lemma RemovedDiff(path: Text, f: Members, t: Members, generate: bool, memory: Memory)
    requires f.Member? && (t.NoMember? || Less(f.key, t.key, generate))
    ensures DiffMembers(path, f, t, generate, memory)
         == Item(Compose("remove", Suffixed(path, f.key, memory), None), DiffMembers(path, f.next, t, generate, memory))
  {
    hide Compose, Suffixed;
  }

  lemma {:induction false} AddedMember(doc: Json, ts: seq<Token>, f: Members, t: Members, fields: map<Text, Tree>,
      generate: bool, apply: bool, memory: Memory)
    requires ObjectAt(doc, ts, fields) && Ready(fields, f, t, generate)
    requires t.Member? && (f.NoMember? || Less(t.key, f.key, generate))
    ensures Locate(Meaning(doc), ts).Some?
    ensures Reaches(doc, DiffMembers(PathText(ts), f, t, generate, memory), ts, Obj(Merged(fields, f, t)), apply)
    decreases MembersSize(f) + MembersSize(t), 3
  {
    hide PathText, Locate, Put, ApplyPatch, Clean, Compose, Reaches, ObjectAt, Ready, Meaning, DiffMembers, Encode, Suffixed,
      Plain, Fits, Merged;
    var key := t.key;
    var changed := fields[key := Meaning(t.value)];
    ReadyAdded(fields, f, t, generate);
    AddedMerge(fields, f, t, generate);
    ObjectIsThere(doc, ts, fields);
    MatchedPath(ts, key, memory);
    InsertKey(doc, ts, fields, key, t.value, apply);
    var patch := Compose("add", PathText(ts) + ['/'] + key, Some(t.value));
    var middle := ApplyPatch(doc, patch, apply).1;
    var rest := DiffMembers(PathText(ts), f, t.next, generate, memory);
    OnePatch(doc, patch, rest, apply);
    ObjectAfter(doc, middle, ts, fields, changed);
    ObjectIsThere(middle, ts, changed);
    DiffMembersReaches(middle, ts, f, t.next, changed, generate, apply, memory);
    ReachesThen(doc, Item(patch, NoItem), middle, rest, ts, Obj(changed), Obj(Merged(fields, f, t)), apply);
    AddedDiff(PathText(ts), f, t, generate, memory);
  }

  lemma AddedMerge(fields: map<Text, Tree>, f: Members, t: Members, generate: bool)
    requires Ready(fields, f, t, generate) && t.Member? && t.key !in Keys(f)
    ensures Merged(fields[t.key := Meaning(t.value)], f, t.next) == Merged(fields, f, t)
  {
    hide Clean, Plain, Meaning, Alike, Agrees, Settled, Fits;
    MeaningKeys(t.next);
  }

  lemma AddedDiff(path: Text, f: Members, t: Members, generate: bool, memory: Memory)
    requires t.Member? && (f.NoMember? || Less(t.key, f.key, generate))
    ensures DiffMembers(path, f, t, generate, memory)
         == Item(Compose("add", Suffixed(path, t.key, memory), Some(t.value)), DiffMembers(path, f, t.next, generate, memory))
  {
    hide Compose, Suffixed;
    if f.Member? { Asymmetric(f.key, t.key, generate); }
  }

  // ----- arrays

  /** The elements at the same index are comparable. */
  ghost predicate ItemsAlike(f: Items, t: Items) {
    f.Item? && t.Item? ==> Comparable(Meaning(f.value), Meaning(t.value)) && ItemsAlike(f.next, t.next)
  }

  lemma {:induction false} AlikeByIndex(f: Items, t: Items)
    requires Comparable(Arr(ItemsMeaning(f)), Arr(ItemsMeaning(t)))
    ensures ItemsAlike(f, t)
  {
    hide Meaning;
    if f.Item? && t.Item? {
      var x, y := ItemsMeaning(f), ItemsMeaning(t);
      assert x[0] == Meaning(f.value) && y[0] == Meaning(t.value);
      forall i | 0 <= i < |x| - 1 && i < |y| - 1 ensures Comparable(x[1..][i], y[1..][i]) {
        assert x[1..][i] == x[i + 1] && y[1..][i] == y[i + 1];
      }
      assert x[1..] == ItemsMeaning(f.next) && y[1..] == ItemsMeaning(t.next);
      AlikeByIndex(f.next, t.next);
    }
  }

  lemma {:induction false} DiffItemsReaches(doc: Json, ts: seq<Token>, i: nat, f: Items, t: Items, elements: seq<Tree>,
      generate: bool, apply: bool, memory: Memory)
    requires ArrayAt(doc, ts, elements) && CleanItems(f) && CleanItems(t) && ItemsAlike(f, t) && SortableItems(f, generate)
    requires i <= |elements| && elements[i..] == ItemsMeaning(f) && i + ItemsCount(t) < SIZE_MAX_1
    ensures Locate(Meaning(doc), ts).Some?
    ensures Reaches(doc, DiffItems(PathText(ts), i, f, t, generate, memory), ts, Arr(elements[..i] + ItemsMeaning(t)), apply)
    decreases ItemsSize(f) + ItemsSize(t), 3
  {
    hide PathText, Locate, Put, ApplyPatch, Compose, Reaches, ArrayAt, Meaning, Clean, DiffItems;
    ArrayIsThere(doc, ts, elements);
    match (f, t)
    case (NoItem, NoItem) => NoElements(doc, ts, i, elements, generate, apply, memory);
    case (Item(_, _), Item(_, _)) => MatchedElement(doc, ts, i, f, t, elements, generate, apply, memory);
    case (Item(_, _), NoItem) => RemovedElement(doc, ts, i, f, elements, generate, apply, memory);
    case (NoItem, Item(_, _)) => AddedElement(doc, ts, i, t, elements, generate, apply, memory);
  }

  lemma ArrayIsThere(doc: Json, ts: seq<Token>, elements: seq<Tree>)
    requires ArrayAt(doc, ts, elements)
    ensures Locate(Meaning(doc), ts) == Some(Arr(elements)) && Clean(doc) && ValidPath(ts) && |elements| < SIZE_MAX_1
  {
  }

  lemma ArrayAfter(doc: Json, middle: Json, ts: seq<Token>, elements: seq<Tree>, changed: seq<Tree>)
    requires ArrayAt(doc, ts, elements) && Clean(middle) && Meaning(middle) == Put(Meaning(doc), ts, Arr(changed))
    requires |changed| < SIZE_MAX_1
    ensures ArrayAt(middle, ts, changed)
  {
    hide Clean, Meaning, Put, Locate;
    LocatePut(Meaning(doc), ts, Arr(changed));
  }

  lemma NoElements(doc: Json, ts: seq<Token>, i: nat, elements: seq<Tree>, generate: bool, apply: bool, memory: Memory)
    requires ArrayAt(doc, ts, elements) && i == |elements|
    ensures Locate(Meaning(doc), ts).Some?
    ensures Reaches(doc, DiffItems(PathText(ts), i, NoItem, NoItem, generate, memory), ts,
                    Arr(elements[..i] + ItemsMeaning(NoItem)), apply)
  {
    hide PathText;
    PutSame(Meaning(doc), ts);
    assert elements[..i] + [] == elements;
  }

  lemma ElementPath(ts: seq<Token>, i: nat, memory: Memory)
    ensures PathText(ts) + ['/'] + Decimal(i) == PathText(ts + [Index(i)])
    ensures Suffixed(PathText(ts), Decimal(i), memory) == PathText(ts) + ['/'] + Decimal(i)
  {
    PathTextSnoc(ts, Index(i));
    DecimalIsNotEncoded(i, 0, Behind(memory, PathText(ts), Decimal(i)));
  }

  lemma {:induction false} MatchedElement(doc: Json, ts: seq<Token>, i: nat, f: Items, t: Items, elements: seq<Tree>,
      generate: bool, apply: bool, memory: Memory)
    requires ArrayAt(doc, ts, elements) && CleanItems(f) && CleanItems(t) && f.Item? && t.Item?
    requires ItemsAlike(f, t) && SortableItems(f, generate)
    requires i <= |elements| && elements[i..] == ItemsMeaning(f) && i + ItemsCount(t) < SIZE_MAX_1
    ensures Locate(Meaning(doc), ts).Some?
    ensures Reaches(doc, DiffItems(PathText(ts), i, f, t, generate, memory), ts, Arr(elements[..i] + ItemsMeaning(t)), apply)
    decreases ItemsSize(f) + ItemsSize(t), 2
  {
    hide PathText, Locate, Put, ApplyAll, Compose, ArrayAt, Meaning, Clean, Diff, ValidPath, Decimal, Reaches;
    var token := Index(i);
    ArrayIsThere(doc, ts, elements);
    assert elements[i] == elements[i..][0];
    LocateSnoc(Meaning(doc), ts, token);
    PutSnoc(Meaning(doc), ts, token, Meaning(t.value));
    ValidSnoc(ts, token);
    ElementPath(ts, i, memory);
    DiffReaches(doc, ts + [token], f.value, t.value, generate, apply, memory);
    var first := Diff(PathText(ts) + ['/'] + Decimal(i), f.value, t.value, generate, memory);
    var middle := ReachesMiddle(doc, first, ts + [token], Meaning(t.value), apply);
    var changed := elements[i := Meaning(t.value)];
    ArrayAfter(doc, middle, ts, elements, changed);
    ArrayIsThere(middle, ts, changed);
    assert changed[i + 1..] == elements[i..][1..];
    DiffItemsReaches(middle, ts, i + 1, f.next, t.next, changed, generate, apply, memory);
    assert changed[..i + 1] + ItemsMeaning(t.next) == elements[..i] + ItemsMeaning(t);
    var rest := DiffItems(PathText(ts), i + 1, f.next, t.next, generate, memory);
    ReachesThen(doc, first, middle, rest, ts, Arr(changed), Arr(elements[..i] + ItemsMeaning(t)), apply);
  }

  lemma ValidSnoc(ts: seq<Token>, token: Token)
    requires ValidPath(ts) && ValidToken(token)
    ensures ValidPath(ts + [token])
  {
  }

  lemma ReachesMiddle(doc: Json, patches: Items, ts: seq<Token>, m: Tree, apply: bool) returns (middle: Json)
    requires Locate(Meaning(doc), ts).Some? && Reaches(doc, patches, ts, m, apply)
    ensures ApplyAll(doc, patches, apply) == (0, middle) && Clean(middle) && Meaning(middle) == Put(Meaning(doc), ts, m)
  {
    middle := ApplyAll(doc, patches, apply).1;
  }

  lemma {:induction false} RemovedElement(doc: Json, ts: seq<Token>, i: nat, f: Items, elements: seq<Tree>,
      generate: bool, apply: bool, memory: Memory)
    requires ArrayAt(doc, ts, elements) && CleanItems(f) && f.Item? && SortableItems(f, generate)
    requires i <= |elements| && elements[i..] == ItemsMeaning(f)
    ensures Locate(Meaning(doc), ts).Some?
    ensures Reaches(doc, DiffItems(PathText(ts), i, f, NoItem, generate, memory), ts,
                    Arr(elements[..i] + ItemsMeaning(NoItem)), apply)
    decreases ItemsSize(f), 2
  {
    hide PathText, Locate, Put, ApplyPatch, Compose, ArrayAt, Meaning, Clean, ValidPath, Decimal, Reaches, Suffixed;
    ArrayIsThere(doc, ts, elements);
    ElementPath(ts, i, memory);
    RemoveIndex(doc, ts, elements, i, apply);
    var patch := Compose("remove", PathText(ts) + ['/'] + Decimal(i), None);
    var middle := ApplyPatch(doc, patch, apply).1;
    var rest := DiffItems(PathText(ts), i, f.next, NoItem, generate, memory);
    OnePatch(doc, patch, rest, apply);
    var changed := elements[..i] + elements[i + 1..];
    ArrayAfter(doc, middle, ts, elements, changed);
    ArrayIsThere(middle, ts, changed);
    assert changed[i..] == elements[i..][1..];
    DiffItemsReaches(middle, ts, i, f.next, NoItem, changed, generate, apply, memory);
    assert changed[..i] == elements[..i];
    ReachesThen(doc, Item(patch, NoItem), middle, rest, ts, Arr(changed), Arr(elements[..i] + ItemsMeaning(NoItem)), apply);
  }

  lemma {:induction false} AddedElement(doc: Json, ts: seq<Token>, i: nat, t: Items, elements: seq<Tree>,
      generate: bool, apply: bool, memory: Memory)
    requires ArrayAt(doc, ts, elements) && CleanItems(t) && t.Item?
    requires i == |elements| && i + ItemsCount(t) < SIZE_MAX_1
    ensures Locate(Meaning(doc), ts).Some?
    ensures Reaches(doc, DiffItems(PathText(ts), i, NoItem, t, generate, memory), ts,
                    Arr(elements[..i] + ItemsMeaning(t)), apply)
    decreases ItemsSize(t), 2
  {
    hide PathText, Locate, Put, ApplyPatch, Compose, ArrayAt, Meaning, Clean, ValidPath, Reaches, Suffixed;
    ArrayIsThere(doc, ts, elements);
    DashPath(ts, memory);
    AppendElement(doc, ts, elements, t.value, apply);
    var patch := Compose("add", PathText(ts) + ['/'] + "-", Some(t.value));
    var middle := ApplyPatch(doc, patch, apply).1;
    var rest := DiffItems(PathText(ts), i + 1, NoItem, t.next, generate, memory);
    OnePatch(doc, patch, rest, apply);
    var changed := elements + [Meaning(t.value)];
    ArrayAfter(doc, middle, ts, elements, changed);
    ArrayIsThere(middle, ts, changed);
    DiffItemsReaches(middle, ts, i + 1, NoItem, t.next, changed, generate, apply, memory);
    assert changed[..i + 1] + ItemsMeaning(t.next) == elements[..i] + ItemsMeaning(t);
    ReachesThen(doc, Item(patch, NoItem), middle, rest, ts, Arr(changed), Arr(elements[..i] + ItemsMeaning(t)), apply);
  }

  lemma DashPath(ts: seq<Token>, memory: Memory)
    ensures Suffixed(PathText(ts), "-", memory) == PathText(ts) + ['/'] + "-"
  {
    assert Plain("-");
    PlainIsNotEncoded("-", 0, Behind(memory, PathText(ts), "-"));
  }

  /** Main result: generate from two clean trees and apply to any tree that means the same as the source, such as a
      duplicate of it made before or after generation sorted its members. Status 0, and the result is the target up
      to member order. Applying may respect case or not; generating may respect case where the source sorts by case. */
  lemma DiffThenPatch(from: Json, to: Json, doc: Json, generate: bool, apply: bool, memory: Memory)
    requires Clean(from) && Clean(to) && Clean(doc) && Meaning(doc) == Meaning(from)
    requires Comparable(Meaning(from), Meaning(to)) && (generate ==> Sortable(from, true))
    ensures var (status, r) := ApplyPatches(doc, GeneratePatches(from, to, generate, memory), apply);
      status == 0 && Clean(r) && Meaning(r) == Meaning(to)
  {
    hide Meaning, Clean, Diff, ApplyAll, Comparable, Sortable;
    if !generate { CleanIsSortable(from); }
    DiffReaches(doc, [], from, to, generate, apply, memory);
    var r := ReachesMiddle(doc, Diff([], from, to, generate, memory), [], Meaning(to), apply);
  }

  // ----- testing

  /** compare_json changes the order of members at most. */
  lemma {:induction false} ComparedMeaning(a: Json, b: Json, caseSensitive: bool)
    requires Clean(a)
    ensures var r := Compared(a, b, caseSensitive); Clean(r) && Meaning(r) == Meaning(a)
    decreases Size(a), 1
  {
    hide SortMembers, CleanMembers, CleanItems, MembersMeaning, ItemsMeaning;
    if Kind(a) == Kind(b) {
      match a
      case Array(items) => ComparedItemsMeaning(items, b.items, caseSensitive);
      case Object(members) =>
        SortMeaning(members, caseSensitive);
        ComparedMembersMeaning(SortMembers(members, caseSensitive), SortMembers(b.members, caseSensitive), caseSensitive);
      case _ =>
    }
  }

  lemma {:induction false} ComparedItemsMeaning(a: Items, b: Items, caseSensitive: bool)
    requires CleanItems(a)
    ensures var r := ComparedItems(a, b, caseSensitive);
      CleanItems(r) && ItemsMeaning(r) == ItemsMeaning(a) && ItemsCount(r) == ItemsCount(a)
    decreases ItemsSize(a), 2
  {
    hide Clean, Meaning, Compared, CompareJson;
    if a.Item? && b.Item? {
      ComparedMeaning(a.value, b.value, caseSensitive);
      ComparedItemsMeaning(a.next, b.next, caseSensitive);
    }
  }

  lemma {:induction false} ComparedMembersMeaning(a: Members, b: Members, caseSensitive: bool)
    requires CleanMembers(a)
    ensures var r := ComparedMembers(a, b, caseSensitive);
      CleanMembers(r) && Keys(r) == Keys(a) && MembersMeaning(r) == MembersMeaning(a)
    decreases MembersSize(a), 2
  {
    hide Clean, Meaning, Compared, CompareJson, CompareStrings, Plain, Fits;
    if a.Member? && b.Member? {
      ComparedMeaning(a.value, b.value, caseSensitive);
      ComparedMembersMeaning(a.next, b.next, caseSensitive);
    }
  }

  /** Generating changes the order of members at most. */
  lemma {:induction false} VisitedMeaning(a: Json, b: Json, caseSensitive: bool)
    requires Clean(a)
    ensures var r := Visited(a, b, caseSensitive); Clean(r) && Meaning(r) == Meaning(a)
    decreases Size(a), 1
  {
    hide SortMembers, CleanMembers, CleanItems, MembersMeaning, ItemsMeaning;
    if Kind(a) == Kind(b) {
      match a
      case Array(items) => VisitedItemsMeaning(items, b.items, caseSensitive);
      case Object(members) =>
        SortMeaning(members, caseSensitive);
        VisitedMembersMeaning(SortMembers(members, caseSensitive), SortMembers(b.members, caseSensitive), caseSensitive);
      case _ =>
    }
  }

  lemma {:induction false} VisitedItemsMeaning(a: Items, b: Items, caseSensitive: bool)
    requires CleanItems(a)
    ensures var r := VisitedItems(a, b, caseSensitive);
      CleanItems(r) && ItemsMeaning(r) == ItemsMeaning(a) && ItemsCount(r) == ItemsCount(a)
    decreases ItemsSize(a), 2
  {
    hide Clean, Meaning, Visited;
    if a.Item? && b.Item? {
      VisitedMeaning(a.value, b.value, caseSensitive);
      VisitedItemsMeaning(a.next, b.next, caseSensitive);
    }
  }

  lemma {:induction false} VisitedMembersMeaning(a: Members, b: Members, caseSensitive: bool)
    requires CleanMembers(a)
    ensures var r := VisitedMembers(a, b, caseSensitive);
      CleanMembers(r) && Keys(r) == Keys(a) && MembersMeaning(r) == MembersMeaning(a)
    decreases MembersSize(a), 2, b
  {
    hide Clean, Meaning, Visited, CompareStrings, Plain, Fits;
    if a.Member? && b.Member? {
      var diff := CompareStrings(a.key, b.key, caseSensitive);
      if diff < 0 {
        VisitedMembersMeaning(a.next, b, caseSensitive);
      } else if diff > 0 {
        VisitedMembersMeaning(a, b.next, caseSensitive);
      } else {
        VisitedMeaning(a.value, b.value, caseSensitive);
        VisitedMembersMeaning(a.next, b.next, caseSensitive);
      }
    }
  }

  /** A "test" of any item leaves the whole document with the meaning that it had. */
  lemma TestKeepsMeaning(doc: Json, ts: seq<Token>, wanted: Json, caseSensitive: bool)
    requires Clean(doc) && ValidPath(ts) && Locate(Meaning(doc), ts).Some?
    ensures var path, patch := PathText(ts), Compose("test", PathText(ts), Some(wanted));
      var (status, r) := ApplyPatch(doc, patch, caseSensitive);
      && Get(doc, path, caseSensitive).Some?
      && (status == 0 <==> CompareJson(Get(doc, path, caseSensitive).value, wanted, caseSensitive))
      && Clean(r) && Meaning(r) == Meaning(doc)
  {
    hide Compose, PathText, Clean, Meaning, Locate, Put, Compared, CompareJson, Field;
    ComposedFields("test", PathText(ts), Some(wanted), caseSensitive);
    GetFollows(doc, ts, caseSensitive);
    var found := Get(doc, PathText(ts), caseSensitive).value;
    ComparedMeaning(found, wanted, caseSensitive);
    SetFollows(doc, ts, Compared(found, wanted, caseSensitive), caseSensitive);
    PutSame(Meaning(doc), ts);
  }

  // ----- sources that do not sort by case

  /** A greater name comes before k in the list. */
  ghost predicate Overtaken(k: Text, ms: Members) {
    && ms.Member? && ms.key != k && k in Keys(ms.next)
    && (Less(k, ms.key, true) || Overtaken(k, ms.next))
  }

  lemma {:induction false} FindOvertaken(ms: Members) returns (k: Text)
    requires CleanMembers(ms) && !IsSorted(ms, true)
    ensures Overtaken(k, ms) && k in Keys(ms)
  {
    hide Clean, Plain, Fits, CompareStrings;
    PlainIsNulFree(ms.key);
    PlainIsNulFree(ms.next.key);
    ExactComparison(ms.key, ms.next.key);
    Asymmetric(ms.key, ms.next.key, true);
    if CompareStrings(ms.key, ms.next.key, true) < 0 {
      k := FindOvertaken(ms.next);
    } else {
      k := ms.next.key;
    }
  }

  /** A generated "add" or "remove" of a member of the root. */
  lemma AtRoot(doc: Json, fields: map<Text, Tree>, key: Text, value: Option<Json>, rest: Items, apply: bool, memory: Memory)
      returns (r: Json)
    requires Clean(doc) && Meaning(doc) == Obj(fields) && Plain(key) && Fits(key, fields.Keys)
    requires if value.None? then key in fields else Clean(value.value)
    ensures Clean(r) && Meaning(r) == Obj(if value.None? then fields - {key} else fields[key := Meaning(value.value)])
    ensures var patch := Compose(if value.None? then "remove" else "add", Suffixed([], key, memory), value);
      ApplyAll(doc, Item(patch, rest), apply) == ApplyAll(r, rest, apply)
  {
    hide Compose, ApplyPatch, Clean, Meaning, PathText, Plain, Fits, Suffixed;
    var patch := Compose(if value.None? then "remove" else "add", Suffixed([], key, memory), value);
    MatchedPath([], key, memory);
    EmptyPath();
    r := ApplyPatch(doc, patch, apply).1;
    assert ObjectAt(doc, [], fields);
    if value.None? {
      RemoveKey(doc, [], fields, key, apply);
    } else {
      InsertKey(doc, [], fields, key, value.value, apply);
    }
  }

  lemma EmptyPath()
    ensures PathText([]) == []
  {
  }

  /** The fields are those of f, and more. */
  ghost predicate Holds(fields: map<Text, Tree>, f: Members) {
    CleanMembers(f) && Keys(f) <= fields.Keys && Settled(fields.Keys)
  }

  lemma HoldsNext(fields: map<Text, Tree>, f: Members)
    requires Holds(fields, f) && f.Member?
    ensures Plain(f.key) && f.key in fields && Fits(f.key, fields.Keys) && Holds(fields - {f.key}, f.next)
    ensures fields - {f.key} - Keys(f.next) == fields - Keys(f)
  {
    hide Clean, Plain, Fits;
    SettledPart(fields.Keys, fields.Keys - {f.key});
  }

  lemma HoldsKey(fields: map<Text, Tree>, f: Members, k: Text)
    requires Holds(fields, f) && k in Keys(f)
    ensures Plain(k) && k in fields && Fits(k, fields.Keys)
  {
    KeysFit(f, k);
  }

  /** Members without a counterpart are all removed. */
  lemma {:induction false} RemovesAll(doc: Json, f: Members, fields: map<Text, Tree>, apply: bool, memory: Memory)
    requires Clean(doc) && Meaning(doc) == Obj(fields) && Holds(fields, f)
    ensures var (status, r) := ApplyAll(doc, DiffMembers([], f, NoMember, true, memory), apply);
      status == 0 && Meaning(r) == Obj(fields - Keys(f))
    decreases f
  {
    hide Clean, Meaning, Holds, Suffixed, Compose, ApplyPatch, Plain, Fits;
    if f.Member? {
      HoldsNext(fields, f);
      var r := AtRoot(doc, fields, f.key, None, DiffMembers([], f.next, NoMember, true, memory), apply, memory);
      RemovesAll(r, f.next, fields - {f.key}, apply, memory);
    } else {
      assert fields - {} == fields;
    }
  }

  /** A member that is overtaken is added before it is removed, and so is lost. */
  lemma {:induction false} OvertakenIsLost(doc: Json, f: Members, fields: map<Text, Tree>, k: Text, apply: bool, memory: Memory)
    requires Clean(doc) && Meaning(doc) == Obj(fields) && Holds(fields, f) && Overtaken(k, f)
    ensures var (status, r) := ApplyAll(doc, DiffMembers([], f, Member(k, Null, NoMember), true, memory), apply);
      status == 0 && Meaning(r) == Obj(fields - Keys(f))
    decreases f
  {
    hide Clean, Meaning, Holds, Suffixed, Compose, ApplyPatch, Plain, Fits, CompareStrings;
    HoldsNext(fields, f);
    HoldsKey(fields, f, k);
    ComparedKeys(fields, f, k);
    NullIsClean();
    if Less(f.key, k, true) {
      var r := AtRoot(doc, fields, f.key, None, DiffMembers([], f.next, Member(k, Null, NoMember), true, memory), apply, memory);
      OvertakenIsLost(r, f.next, fields - {f.key}, k, apply, memory);
    } else {
      var r := AtRoot(doc, fields, k, Some(Null), DiffMembers([], f, NoMember, true, memory), apply, memory);
      HoldsChanged(fields, f, k, Meaning(Null));
      RemovesAll(r, f, fields[k := Meaning(Null)], apply, memory);
      assert fields[k := Meaning(Null)] - Keys(f) == fields - Keys(f);
    }
  }

  lemma NullIsClean()
    ensures Clean(Null)
  {
  }

  lemma ComparedKeys(fields: map<Text, Tree>, f: Members, k: Text)
    requires Holds(fields, f) && f.Member? && k in fields && Plain(k) && f.key != k
    ensures CompareStrings(f.key, k, true) == -CompareStrings(k, f.key, true) != 0
  {
    PlainIsNulFree(f.key);
    PlainIsNulFree(k);
    ExactComparison(f.key, k);
    Asymmetric(f.key, k, true);
  }

  lemma HoldsChanged(fields: map<Text, Tree>, f: Members, k: Text, x: Tree)
    requires Holds(fields, f) && k in fields
    ensures Holds(fields[k := x], f)
  {
    assert fields[k := x].Keys == fields.Keys;
  }

  /** Generated with regard to case from an object that does not sort by case: there is a target, one member of the object
      set to null, that the patches miss although they are applied with status 0. */
  lemma UnsortedSourceFails(ms: Members, apply: bool, memory: Memory) returns (k: Text)
    requires CleanMembers(ms) && !IsSorted(SortMembers(ms, true), true)
    ensures var from, to := Object(ms), Object(Member(k, Null, NoMember));
      var (status, r) := ApplyPatches(from, GeneratePatches(from, to, true, memory), apply);
      && k in Keys(ms) && Overtaken(k, SortMembers(ms, true))
      && Clean(to) && Comparable(Meaning(from), Meaning(to))
      && status == 0 && Meaning(r) == Obj(map[]) && Meaning(r) != Meaning(to)
  {
    hide SortMembers, DiffMembers, ApplyAll, Plain, Fits, Overtaken;
    var f, fields := SortMembers(ms, true), MembersMeaning(ms);
    SortMeaning(ms, true);
    CleanIsSettled(ms);
    MeaningKeys(ms);
    k := FindOvertaken(f);
    KeysFit(ms, k);
    var t := Member(k, Null, NoMember);
    AloneIsClean(k, Null);
    OvertakenIsLost(Object(ms), f, fields, k, apply, memory);
    assert SortMembers(t, true) == t by { SortedAlone(k, Null, true); }
    assert fields - Keys(f) == map[];
    assert fields.Keys + MembersMeaning(t).Keys == fields.Keys;
    assert k in MembersMeaning(t);
  }

  lemma AloneIsClean(k: Text, v: Json)
    requires Plain(k) && Clean(v)
    ensures CleanMembers(Member(k, v, NoMember)) && MembersMeaning(Member(k, v, NoMember)) == map[k := Meaning(v)]
  {
  }

  lemma SortedAlone(k: Text, v: Json, caseSensitive: bool)
    ensures SortMembers(Member(k, v, NoMember), caseSensitive) == Member(k, v, NoMember)
  {
    assert Count(Member(k, v, NoMember)) == 1 + Count(NoMember);
  }

  /** Such an object: {"a": null, "B": null}. */
  lemma UnsortedSource()
    ensures var ms := Member("a", Null, Member("B", Null, NoMember)); CleanMembers(ms) && !IsSorted(SortMembers(ms, true), true)
  {
    hide SortMembers;
    assert CompareStrings("a", "B", true) == 31 && CompareStrings("a", "B", false) == -1;
    TwoSorted("a", Null, "B", Null, true);
    AloneIsClean("B", Null);
    assert Fits("a", {"B"}) && Keys(Member("B", Null, NoMember)) == {"B"};
  }

  /** Exactly, for an object whose values are sortable: patches generated with regard to case reach every comparable target
      if and only if the object itself sorts by case. */
  lemma CaseSensitiveWorksIff(ms: Members, apply: bool, memory: Memory)
    requires CleanMembers(ms) && SortableMembers(ms, true)
    ensures Sortable(Object(ms), true) <==>
      forall to: Json | Clean(to) && Comparable(Meaning(Object(ms)), Meaning(to)) ::
        Follows(Object(ms), to, apply, memory)
  {
    hide SortMembers, Meaning, Comparable, Follows, Clean;
    if IsSorted(SortMembers(ms, true), true) {
      forall to: Json | Clean(to) && Comparable(Meaning(Object(ms)), Meaning(to)) ensures Follows(Object(ms), to, apply, memory) {
        FollowsSortable(Object(ms), to, apply, memory);
      }
    } else {
      var k := UnsortedSourceFails(ms, apply, memory);
      MissesIt(Object(ms), Object(Member(k, Null, NoMember)), apply, memory);
    }
  }

  /** Generating with regard to case and applying gives the target, up to the order of members. */
  ghost predicate Follows(from: Json, to: Json, apply: bool, memory: Memory) {
    var (status, r) := ApplyPatches(from, GeneratePatches(from, to, true, memory), apply);
    status == 0 && Meaning(r) == Meaning(to)
  }

  lemma FollowsSortable(from: Json, to: Json, apply: bool, memory: Memory)
    requires Clean(from) && Clean(to) && Comparable(Meaning(from), Meaning(to)) && Sortable(from, true)
    ensures Follows(from, to, apply, memory)
  {
    DiffThenPatch(from, to, from, true, apply, memory);
  }

  lemma MissesIt(from: Json, to: Json, apply: bool, memory: Memory)
    requires Meaning(ApplyPatches(from, GeneratePatches(from, to, true, memory), apply).1) != Meaning(to)
    ensures !Follows(from, to, apply, memory)
  {
  }

  // ----- when nothing is generated

  /** For all trees and names: no patch is generated exactly when compare_json finds the trees equal. */
  lemma {:induction false} NoPatchIffEqual(path: Text, from: Json, to: Json, caseSensitive: bool, memory: Memory)
    ensures Diff(path, from, to, caseSensitive, memory) == NoItem <==> CompareJson(from, to, caseSensitive)
    decreases Size(from) + Size(to), 1
  {
    hide Compose, SortMembers, DiffItems, DiffMembers, CompareItems, CompareMembers;
    if Kind(from) == Kind(to) {
      match from
      case Array(items) => NoPatchForItems(path, 0, items, to.items, caseSensitive, memory);
      case Object(members) =>
        NoPatchForMembers(path, SortMembers(members, caseSensitive), SortMembers(to.members, caseSensitive), caseSensitive, memory);
      case _ =>
    }
  }

  lemma {:induction false} NoPatchForItems(path: Text, i: nat, from: Items, to: Items, caseSensitive: bool, memory: Memory)
    ensures DiffItems(path, i, from, to, caseSensitive, memory) == NoItem <==> CompareItems(from, to, caseSensitive)
    decreases ItemsSize(from) + ItemsSize(to), 2
  {
    hide Diff, Compose, CompareJson, Suffixed, Decimal;
    if from.Item? && to.Item? {
      NoPatchIffEqual(path + ['/'] + Decimal(i), from.value, to.value, caseSensitive, memory);
      NoPatchForItems(path, i + 1, from.next, to.next, caseSensitive, memory);
    }
  }

  lemma {:induction false} NoPatchForMembers(path: Text, from: Members, to: Members, caseSensitive: bool, memory: Memory)
    ensures DiffMembers(path, from, to, caseSensitive, memory) == NoItem <==> CompareMembers(from, to, caseSensitive)
    decreases MembersSize(from) + MembersSize(to), 2
  {
    hide Diff, Compose, CompareJson, CompareStrings, Suffixed;
    if from.Member? && to.Member? && CompareStrings(from.key, to.key, caseSensitive) == 0 {
      NoPatchIffEqual(Suffixed(path, from.key, memory), from.value, to.value, caseSensitive, memory);
      NoPatchForMembers(path, from.next, to.next, caseSensitive, memory);
    }
  }

  lemma {:induction false} CompareSelf(v: Json, caseSensitive: bool)
    ensures CompareJson(v, v, caseSensitive)
    decreases Size(v), 1
  {
    hide SortMembers;
    match v
    case Array(items) => CompareItemsSelf(items, caseSensitive);
    case Object(members) => CompareMembersSelf(SortMembers(members, caseSensitive), caseSensitive);
    case _ =>
  }

  lemma {:induction false} CompareItemsSelf(items: Items, caseSensitive: bool)
    ensures CompareItems(items, items, caseSensitive)
    decreases ItemsSize(items), 2
  {
    if items.Item? {
      CompareSelf(items.value, caseSensitive);
      CompareItemsSelf(items.next, caseSensitive);
    }
  }

  lemma {:induction false} CompareMembersSelf(ms: Members, caseSensitive: bool)
    ensures CompareMembers(ms, ms, caseSensitive)
    decreases MembersSize(ms), 2
  {
    if ms.Member? {
      SameString(ms.key, caseSensitive);
      CompareSelf(ms.value, caseSensitive);
      CompareMembersSelf(ms.next, caseSensitive);
    }
  }

  /** Generation without regard to case sees no difference between one member and another whose name differs in case
      only, although the objects differ. */
  lemma CaseOnlyChangeIsLost(a: Text, b: Text, v: Json, memory: Memory)
    requires a != b && CompareStrings(a, b, false) == 0
    ensures var from, to := Object(Member(a, v, NoMember)), Object(Member(b, v, NoMember));
      GeneratePatches(from, to, false, memory) == Array(NoItem) && Meaning(from) != Meaning(to)
  {
    hide Diff;
    var f, t := Member(a, v, NoMember), Member(b, v, NoMember);
    CompareSelf(v, false);
    NoPatchIffEqual([], Object(f), Object(t), false, memory);
    assert SortMembers(f, false) == f && SortMembers(t, false) == t;
    assert CompareMembers(NoMember, NoMember, false);
    assert a in MembersMeaning(f) && a !in MembersMeaning(t);
  }

  // ----- generated patches hold no test

  ghost predicate NoTests(patches: Items, caseSensitive: bool) {
    patches.Item? ==> DecodeOperation(patches.value, caseSensitive) != TEST && NoTests(patches.next, caseSensitive)
  }

  lemma {:induction false} NoTestsAppended(a: Items, b: Items, caseSensitive: bool)
    requires NoTests(a, caseSensitive) && NoTests(b, caseSensitive)
    ensures NoTests(AppendItems(a, b), caseSensitive)
  {
    if a.Item? { NoTestsAppended(a.next, b, caseSensitive); }
  }

  lemma ComposedIsNoTest(operation: Text, path: Text, value: Option<Json>, caseSensitive: bool)
    requires operation == "add" || operation == "remove" || operation == "replace"
    ensures DecodeOperation(Compose(operation, path, value), caseSensitive) != TEST
  {
    hide Compose, Field;
    ComposedFields(operation, path, value, caseSensitive);
  }

  lemma {:induction false} GeneratesNoTest(path: Text, from: Json, to: Json, generate: bool, apply: bool, memory: Memory)
    ensures NoTests(Diff(path, from, to, generate, memory), apply)
    decreases Size(from) + Size(to), 1
  {
    hide Compose, DecodeOperation, SortMembers;
    ComposedIsNoTest("replace", path, Some(to), apply);
    if Kind(from) == Kind(to) {
      match from
      case Array(items) => ItemsGenerateNoTest(path, 0, items, to.items, generate, apply, memory);
      case Object(members) =>
        MembersGenerateNoTest(path, SortMembers(members, generate), SortMembers(to.members, generate), generate, apply, memory);
      case _ =>
    }
  }

  lemma {:induction false} ItemsGenerateNoTest(path: Text, index: nat, from: Items, to: Items, generate: bool, apply: bool, memory: Memory)
    ensures NoTests(DiffItems(path, index, from, to, generate, memory), apply)
    decreases ItemsSize(from) + ItemsSize(to), 2
  {
    hide Compose, DecodeOperation, Diff, Suffixed;
    match (from, to)
    case (Item(f, fs), Item(t, ts)) =>
      GeneratesNoTest(path + ['/'] + Decimal(index), f, t, generate, apply, memory);
      ItemsGenerateNoTest(path, index + 1, fs, ts, generate, apply, memory);
      NoTestsAppended(Diff(path + ['/'] + Decimal(index), f, t, generate, memory), DiffItems(path, index + 1, fs, ts, generate, memory), apply);
    case (Item(_, fs), NoItem) =>
      ComposedIsNoTest("remove", Suffixed(path, Decimal(index), memory), None, apply);
      ItemsGenerateNoTest(path, index, fs, NoItem, generate, apply, memory);
    case (NoItem, Item(t, ts)) =>
      ComposedIsNoTest("add", Suffixed(path, "-", memory), Some(t), apply);
      ItemsGenerateNoTest(path, index + 1, NoItem, ts, generate, apply, memory);
    case (NoItem, NoItem) =>
  }

  lemma {:induction false} MembersGenerateNoTest(path: Text, from: Members, to: Members, generate: bool, apply: bool, memory: Memory)
    ensures NoTests(DiffMembers(path, from, to, generate, memory), apply)
    decreases MembersSize(from) + MembersSize(to), 2
  {
    hide Compose, DecodeOperation, Diff, Suffixed, CompareStrings;
    if from.NoMember? && to.NoMember? { return; }
    var diff := if from.NoMember? then 1 else if to.NoMember? then -1 else CompareStrings(from.key, to.key, generate);
    if diff == 0 {
      var here := Suffixed(path, from.key, memory);
      GeneratesNoTest(here, from.value, to.value, generate, apply, memory);
      MembersGenerateNoTest(path, from.next, to.next, generate, apply, memory);
      NoTestsAppended(Diff(here, from.value, to.value, generate, memory), DiffMembers(path, from.next, to.next, generate, memory), apply);
    } else if diff < 0 {
      ComposedIsNoTest("remove", Suffixed(path, from.key, memory), None, apply);
      MembersGenerateNoTest(path, from.next, to, generate, apply, memory);
    } else {
      ComposedIsNoTest("add", Suffixed(path, to.key, memory), Some(to.value), apply);
      MembersGenerateNoTest(path, from, to.next, generate, apply, memory);
    }
  }
}
