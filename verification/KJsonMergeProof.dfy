/** Main results about merge patches: merging computes the function of RFC 7396, and merging a generated patch yields
    the target exactly when the target keeps no null that a patch would have to carry. */
module KJsonMergeProof {
  import opened Octets
  import opened KJson
  import opened KJsonStrings
  import opened KJsonSort
  import opened KJsonPatch
  import opened KJsonMeaning
  import opened KJsonDiff
  import opened KJsonMerge

  // ----- section 2 of RFC 7396, on trees without member order

  function RfcMerge(target: Option<Tree>, patch: Tree): Tree
    decreases patch
  {
    match patch
    case Obj(fields) => Obj(RfcFields(FieldsOf(target), fields, patch))
    case _ => patch
  }

  function FieldsOf(target: Option<Tree>): map<Text, Tree> {
    if target.Some? && target.value.Obj? then target.value.fields else map[]
  }

  function Fetch(fields: map<Text, Tree>, k: Text): Option<Tree> {
    if k in fields then Some(fields[k]) else None
  }

  function RfcFields(base: map<Text, Tree>, patch: map<Text, Tree>, whole: Tree): map<Text, Tree>
    requires whole == Obj(patch)
    decreases whole, 0
  {
    map k | k in base.Keys + patch.Keys && !(k in patch && patch[k] == Leaf(Null)) ::
      if k in patch then RfcMerge(Fetch(base, k), patch[k]) else base[k]
  }

  // ----- trees whose names the comparison tells apart

  /** No object in the tree repeats a name. */
  ghost predicate Distinct(j: Json) {
    match j
    case Object(members) => DistinctMembers(members)
    case _ => true
  }

  ghost predicate DistinctMembers(ms: Members) {
    match ms
    case NoMember => true
    case Member(k, v, next) => Distinct(v) && k !in Keys(next) && DistinctMembers(next)
  }

  /** The comparison takes none of these names for another. */
  ghost predicate ToldApart(names: set<Text>, caseSensitive: bool) {
    forall k, l | k in names && l in names :: CompareStrings(k, l, caseSensitive) == 0 ==> k == l
  }

  /** So it is with the names of target and patch in every place where the patch has an object. */
  ghost predicate Mixes(target: Option<Tree>, patch: Tree, caseSensitive: bool)
    decreases patch
  {
    patch.Obj? ==>
      && ToldApart(FieldsOf(target).Keys + patch.fields.Keys, caseSensitive)
      && forall k | k in patch.fields :: Mixes(Fetch(FieldsOf(target), k), patch.fields[k], caseSensitive)
  }

  lemma ToldApartPart(names: set<Text>, part: set<Text>, caseSensitive: bool)
    requires ToldApart(names, caseSensitive) && part <= names
    ensures ToldApart(part, caseSensitive)
  {
  }

  lemma {:induction false} LookupDistinct(ms: Members, k: Text, caseSensitive: bool)
    requires DistinctMembers(ms) && ToldApart(Keys(ms) + {k}, caseSensitive)
    ensures Lookup(ms, k, caseSensitive).Some? <==> k in MembersMeaning(ms)
    ensures k in MembersMeaning(ms) ==>
      var v := Lookup(ms, k, caseSensitive).value;
      Distinct(v) && Meaning(v) == MembersMeaning(ms)[k]
    decreases ms
  {
    hide CompareStrings, Distinct, Meaning;
    if ms.Member? {
      SameString(k, caseSensitive);
      ToldApartPart(Keys(ms) + {k}, Keys(ms.next) + {k}, caseSensitive);
      LookupDistinct(ms.next, k, caseSensitive);
    }
  }

  lemma {:induction false} RemoveDistinct(ms: Members, k: Text, caseSensitive: bool)
    requires DistinctMembers(ms) && ToldApart(Keys(ms) + {k}, caseSensitive)
    ensures var r := RemoveMember(ms, k, caseSensitive);
      && DistinctMembers(r) && Keys(r) == Keys(ms) - {k}
      && MembersMeaning(r) == MembersMeaning(ms) - {k}
    decreases ms
  {
    hide CompareStrings, Distinct, Meaning;
    if ms.Member? {
      SameString(k, caseSensitive);
      ToldApartPart(Keys(ms) + {k}, Keys(ms.next) + {k}, caseSensitive);
      RemoveDistinct(ms.next, k, caseSensitive);
      MeaningKeys(ms.next);
      MeaningKeys(ms);
    }
  }

  lemma {:induction false} AddDistinct(ms: Members, k: Text, v: Json)
    requires DistinctMembers(ms) && Distinct(v) && k !in Keys(ms)
    ensures var r := AddMember(ms, k, v);
      && DistinctMembers(r) && Keys(r) == Keys(ms) + {k}
      && MembersMeaning(r) == MembersMeaning(ms)[k := Meaning(v)]
    decreases ms
  {
    hide Distinct, Meaning;
    if ms.Member? { AddDistinct(ms.next, k, v); }
  }

  // ----- merging computes the RFC function

  /** What one member of the patch makes of the object. */
  ghost function RfcMember(base: map<Text, Tree>, k: Text, v: Tree): map<Text, Tree> {
    if v == Leaf(Null) then base - {k} else base[k := RfcMerge(Fetch(base, k), v)]
  }

  lemma NullMeaning(v: Json)
    ensures Meaning(v) == Leaf(Null) <==> v.Null?
  {
  }

  lemma PutAgain(m: map<Text, Tree>, k: Text, x: Tree)
    ensures (m - {k})[k := x] == m[k := x]
  {
  }

  lemma {:induction false} MergeMemberMeaning(target: Members, k: Text, v: Json, caseSensitive: bool)
    requires DistinctMembers(target) && Distinct(v) && ToldApart(Keys(target) + {k}, caseSensitive)
    requires Mixes(Fetch(MembersMeaning(target), k), Meaning(v), caseSensitive)
    ensures var r := MergeMember(target, k, v, caseSensitive);
      DistinctMembers(r) && MembersMeaning(r) == RfcMember(MembersMeaning(target), k, Meaning(v))
    decreases v, 1
  {
    hide Distinct, DistinctMembers, MembersMeaning, RemoveMember, AddMember, Lookup, MergePatch, RfcMerge, Meaning, ToldApart, Mixes,
      Keys;
    MeaningKeys(target);
    NullMeaning(v);
    RemoveDistinct(target, k, caseSensitive);
    if !v.Null? {
      LookupDistinct(target, k, caseSensitive);
      var former := Lookup(target, k, caseSensitive);
      MergeMeaning(former, v, caseSensitive);
      AddDistinct(RemoveMember(target, k, caseSensitive), k, MergePatch(former, v, caseSensitive));
      PutAgain(MembersMeaning(target), k, Meaning(MergePatch(former, v, caseSensitive)));
    }
  }

  /** Handling the members one by one gives what the RFC says of all of them. */
  lemma RfcMemberFirst(base: map<Text, Tree>, k: Text, v: Tree, patch: map<Text, Tree>)
    requires k !in patch
    ensures var whole := patch[k := v];
      RfcFields(RfcMember(base, k, v), patch, Obj(patch)) == RfcFields(base, whole, Obj(whole))
  {
    var whole := patch[k := v];
    var changed := RfcMember(base, k, v);
    var l, r := RfcFields(changed, patch, Obj(patch)), RfcFields(base, whole, Obj(whole));
    hide RfcMerge;
    assert l.Keys == r.Keys;
    forall x | x in l ensures l[x] == r[x] {
      if x != k { assert Fetch(changed, x) == Fetch(base, x); }
    }
  }

  lemma MixesFirst(base: map<Text, Tree>, k: Text, v: Tree, patch: map<Text, Tree>, caseSensitive: bool)
    requires k !in patch && Mixes(Some(Obj(base)), Obj(patch[k := v]), caseSensitive)
    ensures ToldApart(base.Keys + {k}, caseSensitive) && Mixes(Fetch(base, k), v, caseSensitive)
    ensures Mixes(Some(Obj(RfcMember(base, k, v))), Obj(patch), caseSensitive)
  {
    hide RfcMerge, ToldApart;
    var whole, changed := patch[k := v], RfcMember(base, k, v);
    assert whole[k] == v && Obj(whole).fields == whole && Obj(patch).fields == patch;
    ToldApartPart(base.Keys + whole.Keys, base.Keys + {k}, caseSensitive);
    ToldApartPart(base.Keys + whole.Keys, changed.Keys + patch.Keys, caseSensitive);
    forall x | x in patch ensures Mixes(Fetch(changed, x), patch[x], caseSensitive) {
      assert whole[x] == patch[x] && Fetch(changed, x) == Fetch(base, x);
    }
  }

  lemma {:induction false} MergeMembersMeaning(target: Members, patch: Members, caseSensitive: bool)
    requires DistinctMembers(target) && DistinctMembers(patch)
    requires Mixes(Some(Obj(MembersMeaning(target))), Obj(MembersMeaning(patch)), caseSensitive)
    ensures var r := MergeMembers(target, patch, caseSensitive);
      && DistinctMembers(r)
      && MembersMeaning(r) == RfcFields(MembersMeaning(target), MembersMeaning(patch), Obj(MembersMeaning(patch)))
    decreases patch
  {
    hide Distinct, RfcMerge, Meaning, MergeMember, RfcMember, Mixes, ToldApart;
    MeaningKeys(target);
    if patch.Member? {
      var Member(k, v, next) := patch;
      MeaningKeys(next);
      MixesFirst(MembersMeaning(target), k, Meaning(v), MembersMeaning(next), caseSensitive);
      MergeMemberMeaning(target, k, v, caseSensitive);
      MergeMembersMeaning(MergeMember(target, k, v, caseSensitive), next, caseSensitive);
      RfcMemberFirst(MembersMeaning(target), k, Meaning(v), MembersMeaning(next));
    } else {
      var m := MembersMeaning(target);
      assert RfcFields(m, map[], Obj(map[])) == m;
    }
  }

  /** Main result: merge_patch computes the function of section 2 of RFC 7396. */
  lemma {:induction false} MergeMeaning(target: Option<Json>, patch: Json, caseSensitive: bool)
    requires target.Some? ==> Distinct(target.value)
    requires Distinct(patch) && Mixes(TreeOf(target), Meaning(patch), caseSensitive)
    ensures var r := MergePatch(target, patch, caseSensitive);
      Distinct(r) && Meaning(r) == RfcMerge(TreeOf(target), Meaning(patch))
    decreases patch, 0
  {
    if patch.Object? {
      var base := if target.Some? && target.value.Object? then target.value.members else NoMember;
      assert MembersMeaning(base) == FieldsOf(TreeOf(target));
      MergeMembersMeaning(base, patch.members, caseSensitive);
    }
  }

  ghost function TreeOf(target: Option<Json>): Option<Tree> {
    if target.Some? then Some(Meaning(target.value)) else None
  }

  // ----- comparing clean trees

  /** compare_json decides equality up to member order. With regard to case both trees must sort by case. */
  lemma {:induction false} CompareMeaning(a: Json, b: Json, caseSensitive: bool)
    requires Clean(a) && Clean(b) && Comparable(Meaning(a), Meaning(b))
    requires caseSensitive ==> Sortable(a, true) && Sortable(b, true)
    ensures CompareJson(a, b, caseSensitive) <==> Meaning(a) == Meaning(b)
  {
    hide Clean, Comparable, Sortable, CompareJson;
    if !caseSensitive {
      CleanIsSortable(a);
      CleanIsSortable(b);
    }
    CompareSortable(a, b, caseSensitive);
  }

  lemma {:induction false} CompareSortable(a: Json, b: Json, caseSensitive: bool)
    requires Clean(a) && Clean(b) && Comparable(Meaning(a), Meaning(b))
    requires Sortable(a, caseSensitive) && Sortable(b, caseSensitive)
    ensures CompareJson(a, b, caseSensitive) <==> Meaning(a) == Meaning(b)
    decreases Size(a), 1
  {
    hide CleanItems, CleanMembers, CompareItems, CompareMembers, SortMembers, ItemsMeaning, MembersMeaning, Ready, IsSorted,
      SortableMembers, SortableItems;
    if Kind(a) == Kind(b) {
      if a.Array? {
        AlikeByIndex(a.items, b.items);
        CompareItemsMeaning(a.items, b.items, caseSensitive);
      } else if a.Object? {
        var f, t := SortMembers(a.members, caseSensitive), SortMembers(b.members, caseSensitive);
        SortedReady(a.members, b.members, caseSensitive);
        SortMeaning(b.members, caseSensitive);
        SortableSorted(b.members, caseSensitive);
        CompareMembersMeaning(f, t, MembersMeaning(f), caseSensitive);
      }
    }
  }

  lemma {:induction false} CompareItemsMeaning(a: Items, b: Items, caseSensitive: bool)
    requires CleanItems(a) && CleanItems(b) && ItemsAlike(a, b)
    requires SortableItems(a, caseSensitive) && SortableItems(b, caseSensitive)
    ensures CompareItems(a, b, caseSensitive) <==> ItemsMeaning(a) == ItemsMeaning(b)
    decreases ItemsSize(a), 2
  {
    hide Clean, CompareJson, Meaning, Comparable, Sortable;
    if a.Item? && b.Item? {
      CompareSortable(a.value, b.value, caseSensitive);
      CompareItemsMeaning(a.next, b.next, caseSensitive);
      var s, t := ItemsMeaning(a), ItemsMeaning(b);
      assert s[0] == Meaning(a.value) && s[1..] == ItemsMeaning(a.next);
      assert t[0] == Meaning(b.value) && t[1..] == ItemsMeaning(b.next);
    }
  }

  lemma {:induction false} CompareMembersMeaning(a: Members, b: Members, fields: map<Text, Tree>, caseSensitive: bool)
    requires Ready(fields, a, b, caseSensitive) && Ascending(b, caseSensitive) && SortableMembers(b, caseSensitive)
    ensures CompareMembers(a, b, caseSensitive) <==> MembersMeaning(a) == MembersMeaning(b)
    decreases MembersSize(a), 2
  {
    hide Clean, CompareJson, Meaning, CompareStrings, Plain, Fits, Settled, Alike, Agrees, Ready, Sortable, CleanMembers;
    MeaningKeys(a);
    MeaningKeys(b);
    if a.Member? && b.Member? {
      ReadyComparison(fields, a, b, caseSensitive);
      if a.key == b.key {
        ReadyMatched(fields, a, b, caseSensitive);
        NextKeys(fields, a, b, caseSensitive);
        CompareSortable(a.value, b.value, caseSensitive);
        CompareMembersMeaning(a.next, b.next, fields[a.key := Meaning(b.value)], caseSensitive);
        SameAfterFirst(MembersMeaning(a.next), MembersMeaning(b.next), a.key, Meaning(a.value), Meaning(b.value));
      } else {
        NotBoth(fields, a, b, caseSensitive);
      }
    }
  }

  lemma NextKeys(fields: map<Text, Tree>, a: Members, b: Members, caseSensitive: bool)
    requires Ready(fields, a, b, caseSensitive) && a.Member? && b.Member?
    ensures a.key !in MembersMeaning(a.next) && b.key !in MembersMeaning(b.next)
  {
    MeaningKeys(a.next);
    MeaningKeys(b.next);
  }

  /** Two ascending lists with different first names: the smaller is not in the other. */
  lemma NotBoth(fields: map<Text, Tree>, a: Members, b: Members, caseSensitive: bool)
    requires Ready(fields, a, b, caseSensitive) && Ascending(b, caseSensitive) && a.Member? && b.Member? && a.key != b.key
    ensures a.key !in Keys(b) || b.key !in Keys(a)
  {
    hide Clean, Plain, CompareStrings, Fits, Settled, Alike, Agrees, Meaning;
    ReadyComparison(fields, a, b, caseSensitive);
    if Less(a.key, b.key, caseSensitive) {
      BelowAscending(a.key, b, caseSensitive);
    } else {
      BelowAscending(b.key, a, caseSensitive);
    }
  }

  lemma SameAfterFirst(m: map<Text, Tree>, n: map<Text, Tree>, k: Text, x: Tree, y: Tree)
    requires k !in m && k !in n
    ensures m[k := x] == n[k := y] <==> m == n && x == y
  {
    if m[k := x] == n[k := y] {
      assert m[k := x][k] == x && n[k := y][k] == y;
      assert m == m[k := x] - {k} && n == n[k := y] - {k};
    }
  }

  // ----- generating, on trees without member order

  /** The members that differ: null for the ones to remove. */
  function GenTree(f: Tree, t: Tree): Tree
    decreases t
  {
    match (f, t)
    case (Obj(fs), Obj(ts)) => Obj(GenFields(fs, ts, t))
    case _ => t
  }

  function GenFields(fs: map<Text, Tree>, ts: map<Text, Tree>, whole: Tree): map<Text, Tree>
    requires whole == Obj(ts)
    decreases whole, 0
  {
    map k | k in fs.Keys + ts.Keys && !(k in fs && k in ts && fs[k] == ts[k]) ::
      if k !in ts then Leaf(Null) else if k !in fs then ts[k] else GenTree(fs[k], ts[k])
  }

  /** A value a merge patch can carry: no null in it, seen through objects (not through arrays). */
  ghost predicate Carried(t: Tree)
    decreases t
  {
    t != Leaf(Null) && (t.Obj? ==> forall k | k in t.fields :: Carried(t.fields[k]))
  }

  /** Every null member of t is also in f; what t adds or changes carries none. */
  ghost predicate Mergeable(f: Tree, t: Tree)
    decreases t
  {
    t.Obj? ==>
      forall k | k in t.fields ::
        if f.Obj? && k in f.fields then
          f.fields[k] == t.fields[k] || (t.fields[k] != Leaf(Null) && Mergeable(f.fields[k], t.fields[k]))
        else Carried(t.fields[k])
  }

  /** Merging a value where there was no object rebuilds it exactly when no null is lost. */
  lemma {:induction false} MergeIntoNothing(base: Option<Tree>, v: Tree)
    requires base.Some? ==> !base.value.Obj?
    ensures RfcMerge(base, v) == v <==> (v.Obj? ==> forall k | k in v.fields :: Carried(v.fields[k]))
    decreases v
  {
    if v.Obj? {
      var r := RfcFields(map[], v.fields, v);
      assert RfcMerge(base, v) == Obj(r);
      forall k | k in v.fields
        ensures (k in r && r[k] == v.fields[k]) <==> Carried(v.fields[k])
      {
        MergeIntoNothing(None, v.fields[k]);
        assert Fetch(map[], k) == None;
      }
    }
  }

  /** The round trip on trees without member order, and exactly when it holds. */
  lemma {:induction false} MergeUndoesGen(f: Tree, t: Tree)
    ensures RfcMerge(Some(f), GenTree(f, t)) == t <==> Mergeable(f, t)
    decreases t
  {
    if f.Obj? && t.Obj? {
      var fs, ts := f.fields, t.fields;
      var patch := GenFields(fs, ts, t);
      var r := RfcFields(fs, patch, Obj(patch));
      assert RfcMerge(Some(f), GenTree(f, t)) == Obj(r);
      forall k | k in fs.Keys + ts.Keys
        ensures Fetch(r, k) == Fetch(ts, k) <==>
          (k in ts ==> if k in fs then fs[k] == ts[k] || (ts[k] != Leaf(Null) && Mergeable(fs[k], ts[k])) else Carried(ts[k]))
      {
        MergedField(fs, ts, k);
      }
      SameFields(r, ts, fs.Keys + ts.Keys);
    } else if t.Obj? {
      MergeIntoNothing(Some(f), t);
    }
  }

  lemma SameFields(r: map<Text, Tree>, ts: map<Text, Tree>, keys: set<Text>)
    requires r.Keys <= keys && ts.Keys <= keys
    ensures r == ts <==> forall k | k in keys :: Fetch(r, k) == Fetch(ts, k)
  {
    if forall k | k in keys :: Fetch(r, k) == Fetch(ts, k) {
      forall k ensures k in r <==> k in ts { if k in keys { assert Fetch(r, k) == Fetch(ts, k); } }
      forall k | k in r ensures r[k] == ts[k] { assert Fetch(r, k) == Fetch(ts, k); }
      assert r == ts;
    }
  }

  lemma {:induction false} MergedField(fs: map<Text, Tree>, ts: map<Text, Tree>, k: Text)
    requires k in fs.Keys + ts.Keys
    ensures var patch := GenFields(fs, ts, Obj(ts)); var r := RfcFields(fs, patch, Obj(patch));
      Fetch(r, k) == Fetch(ts, k) <==>
        (k in ts ==> if k in fs then fs[k] == ts[k] || (ts[k] != Leaf(Null) && Mergeable(fs[k], ts[k])) else Carried(ts[k]))
    decreases Obj(ts), 0
  {
    var patch := GenFields(fs, ts, Obj(ts));
    if k in fs && k in ts && fs[k] != ts[k] {
      assert Obj(ts).fields[k] == ts[k];
      MergeUndoesGen(fs[k], ts[k]);
      GenNull(fs[k], ts[k]);
    } else if k in ts && k !in fs {
      MergeIntoNothing(None, ts[k]);
    }
  }

  lemma GenNull(f: Tree, t: Tree)
    ensures GenTree(f, t) == Leaf(Null) <==> t == Leaf(Null)
  {
  }

  // ----- trees that the walk can work on

  /** The walk compares by strcmp, so every object must come out of the sort in that order; nested objects are sorted
      without regard to case. What is compared with regard to case must sort by case. */
  ghost predicate Walkable(j: Json, caseSensitive: bool) {
    match j
    case Object(members) =>
      && Ascending(SortMembers(members, caseSensitive), true)
      && (caseSensitive ==> SortableMembers(members, true)) && WalkableMembers(members)
    case _ => true
  }

  ghost predicate WalkableMembers(ms: Members) {
    match ms
    case NoMember => true
    case Member(_, v, next) => Walkable(v, false) && WalkableMembers(next)
  }

  lemma {:induction false} WalkableEntries(ms: Members)
    ensures WalkableMembers(ms) <==> forall e | e in Entries(ms) :: Walkable(e.1, false)
  {
    hide Walkable;
    if ms.Member? {
      WalkableEntries(ms.next);
      if forall e | e in Entries(ms) :: Walkable(e.1, false) {
        assert (ms.key, ms.value) in Entries(ms);
        forall e | e in Entries(ms.next) ensures Walkable(e.1, false) { assert e in Entries(ms); }
      }
    }
  }

  /** Names on which the two orders agree qualify: names without upper case, say, or with a capital each. */
  lemma {:induction false} AgreeingIsWalkable(j: Json, caseSensitive: bool)
    requires Clean(j) && Agreeing(j)
    ensures Walkable(j, caseSensitive)
    decreases j, 1
  {
    hide SortMembers, IsSorted, AllAgree, CleanMembers;
    if j.Object? {
      if caseSensitive {
        AgreeingNamesAreSorted(j.members);
        AgreeingIsSortable(j);
      } else {
        SortMeaning(j.members, false);
        AscendsEitherWay(SortMembers(j.members, false), j.members);
      }
      AgreeingMembersWalkable(j.members);
    }
  }

  lemma {:induction false} AgreeingMembersWalkable(ms: Members)
    requires CleanMembers(ms) && AgreeingMembers(ms)
    ensures WalkableMembers(ms)
    decreases ms, 0
  {
    if ms.Member? {
      AgreeingIsWalkable(ms.value, false);
      AgreeingMembersWalkable(ms.next);
    }
  }

  lemma {:induction false} AscendsEitherWay(ms: Members, all: Members)
    requires CleanMembers(ms) && Ascending(ms, false) && AllAgree(all) && Keys(ms) <= Keys(all)
    ensures Ascending(ms, true)
  {
    hide CompareStrings, AllAgree, Clean, Plain, Fits;
    if ms.Member? && ms.next.Member? {
      PairAgrees(all, ms.key, ms.next.key);
      AscendsEitherWay(ms.next, all);
    }
  }

  lemma {:induction false} PairAgrees(ms: Members, k: Text, l: Text)
    requires AllAgree(ms) && k in Keys(ms) && l in Keys(ms) && k != l
    ensures Agree(k, l)
  {
    hide CompareStrings;
    if k == ms.key {
      assert AgreeApart(k, l);
    } else if l == ms.key {
      assert AgreeApart(l, k);
    } else {
      PairAgrees(ms.next, k, l);
    }
  }

  /** Names without NUL that differ by more than case, in every object of the tree. */
  ghost predicate Sound(t: Tree)
    decreases t
  {
    t.Obj? ==> SoundNames(t.fields.Keys) && forall k | k in t.fields :: Sound(t.fields[k])
  }

  ghost predicate SoundNames(names: set<Text>) {
    Settled(names) && forall k | k in names :: NulFree(k)
  }

  lemma SoundIsToldApart(names: set<Text>, caseSensitive: bool)
    requires SoundNames(names)
    ensures ToldApart(names, caseSensitive)
  {
    hide CompareStrings;
    forall k, l | k in names && l in names ensures CompareStrings(k, l, caseSensitive) == 0 ==> k == l {
      ExactComparison(k, l);
      assert Fits(k, names);
    }
  }

  lemma {:induction false} CleanIsSound(j: Json)
    requires Clean(j)
    ensures Sound(Meaning(j)) && Distinct(j)
    decreases j, 1
  {
    hide Settled, CleanMembers, MembersMeaning;
    if j.Object? {
      CleanIsSettled(j.members);
      MeaningKeys(j.members);
      CleanMembersSound(j.members);
    }
  }

  lemma {:induction false} CleanMembersSound(ms: Members)
    requires CleanMembers(ms)
    ensures forall k | k in MembersMeaning(ms) :: NulFree(k) && Sound(MembersMeaning(ms)[k])
    ensures DistinctMembers(ms)
    decreases ms, 0
  {
    hide Clean, Fits, Meaning, Sound;
    if ms.Member? {
      PlainIsNulFree(ms.key);
      CleanIsSound(ms.value);
      CleanMembersSound(ms.next);
    }
  }

  /** The difference can be merged into its source. */
  lemma {:induction false} DifferenceMixes(f: Tree, t: Tree, caseSensitive: bool)
    requires Sound(f) && Sound(t) && Comparable(f, t)
    ensures Mixes(Some(f), GenTree(f, t), caseSensitive)
    decreases t
  {
    hide ToldApart, Settled;
    if f.Obj? && t.Obj? {
      var fs, ts, g := f.fields, t.fields, GenFields(f.fields, t.fields, t);
      assert GenTree(f, t) == Obj(g) && g.Keys <= fs.Keys + ts.Keys;
      SoundIsToldApart(fs.Keys + ts.Keys, caseSensitive);
      ToldApartPart(fs.Keys + ts.Keys, fs.Keys + g.Keys, caseSensitive);
      forall k | k in g ensures Mixes(Fetch(fs, k), g[k], caseSensitive) {
        assert g[k] == if k !in ts then Leaf(Null) else if k !in fs then ts[k] else GenTree(fs[k], ts[k]);
        if k in fs && k in ts {
          DifferenceMixes(fs[k], ts[k], caseSensitive);
        } else if k in ts {
          SoundMixes(None, ts[k], caseSensitive);
        }
      }
    } else {
      SoundMixes(Some(f), t, caseSensitive);
    }
  }

  lemma {:induction false} SoundMixes(base: Option<Tree>, t: Tree, caseSensitive: bool)
    requires Sound(t) && (base.Some? && base.value.Obj? ==> !t.Obj?)
    ensures Mixes(base, t, caseSensitive)
    decreases t
  {
    hide ToldApart, Settled;
    if t.Obj? {
      SoundIsToldApart(t.fields.Keys, caseSensitive);
      assert FieldsOf(base).Keys + t.fields.Keys == t.fields.Keys;
      forall k | k in t.fields ensures Mixes(Fetch(FieldsOf(base), k), t.fields[k], caseSensitive) {
        SoundMixes(None, t.fields[k], caseSensitive);
      }
    }
  }

  // ----- generating computes the difference of the trees

  lemma GenOnlySource(fs: map<Text, Tree>, ts: map<Text, Tree>, k: Text, x: Tree)
    requires k !in fs && k !in ts
    ensures GenFields(fs[k := x], ts, Obj(ts)) == GenFields(fs, ts, Obj(ts))[k := Leaf(Null)]
  {
    hide GenTree;
  }

  lemma GenOnlyTarget(fs: map<Text, Tree>, ts: map<Text, Tree>, k: Text, y: Tree)
    requires k !in fs && k !in ts
    ensures GenFields(fs, ts[k := y], Obj(ts[k := y])) == GenFields(fs, ts, Obj(ts))[k := y]
  {
    hide GenTree;
  }

  lemma GenBoth(fs: map<Text, Tree>, ts: map<Text, Tree>, k: Text, x: Tree, y: Tree)
    requires k !in fs && k !in ts
    ensures var l, r := GenFields(fs[k := x], ts[k := y], Obj(ts[k := y])), GenFields(fs, ts, Obj(ts));
      l == if x == y then r else r[k := GenTree(x, y)]
  {
    hide GenTree;
  }

  /** What a walk yields: distinct names, and the meaning of the difference. */
  ghost predicate Walked(r: Members, f: Members, t: Members) {
    && DistinctMembers(r) && Keys(r) <= Keys(f) + Keys(t)
    && MembersMeaning(r) == GenFields(MembersMeaning(f), MembersMeaning(t), Obj(MembersMeaning(t)))
  }

  lemma WalkedCons(k: Text, v: Json, rest: Members, f: Members, t: Members, f': Members, t': Members, x: Tree)
    requires Walked(rest, f', t')
    requires Distinct(v) && Meaning(v) == x
    requires k !in Keys(f') + Keys(t') && Keys(f) + Keys(t) == Keys(f') + Keys(t') + {k}
    requires GenFields(MembersMeaning(f), MembersMeaning(t), Obj(MembersMeaning(t)))
          == GenFields(MembersMeaning(f'), MembersMeaning(t'), Obj(MembersMeaning(t')))[k := x]
    ensures Walked(Member(k, v, rest), f, t)
  {
    hide GenFields, Distinct, Keys, MembersMeaning, Meaning, DistinctMembers;
    ConsFacts(k, v, rest);
  }

  lemma ConsFacts(k: Text, v: Json, rest: Members)
    ensures Keys(Member(k, v, rest)) == {k} + Keys(rest)
    ensures MembersMeaning(Member(k, v, rest)) == MembersMeaning(rest)[k := Meaning(v)]
    ensures DistinctMembers(Member(k, v, rest)) <==> Distinct(v) && k !in Keys(rest) && DistinctMembers(rest)
  {
    hide Distinct, Meaning;
  }

  /** Two lists in strcmp order whose values can be compared and walked. */
  ghost predicate Walks(f: Members, t: Members, generate: bool) {
    && CleanMembers(f) && CleanMembers(t) && Ascending(f, true) && Ascending(t, true)
    && WalkableMembers(f) && WalkableMembers(t)
    && (generate ==> SortableMembers(f, true) && SortableMembers(t, true))
    && forall k | k in MembersMeaning(f) && k in MembersMeaning(t) :: Comparable(MembersMeaning(f)[k], MembersMeaning(t)[k])
  }

  lemma SourceNext(f: Members, t: Members, generate: bool)
    requires Walks(f, t, generate) && f.Member?
    ensures f.key !in Keys(f.next) && (f.key !in Keys(t) ==> Walks(f.next, t, generate))
  {
    hide Clean, Comparable, Meaning, Walkable, Sortable, CompareStrings, Plain, Fits;
    MeaningKeys(f.next);
    MeaningKeys(t);
  }

  lemma TargetNext(f: Members, t: Members, generate: bool)
    requires Walks(f, t, generate) && t.Member?
    ensures Clean(t.value) && t.key !in Keys(t.next) && (t.key !in Keys(f) ==> Walks(f, t.next, generate))
  {
    hide Clean, Comparable, Meaning, Walkable, Sortable, CompareStrings, Plain, Fits;
    MeaningKeys(f);
    MeaningKeys(t.next);
  }

  lemma BothNext(f: Members, t: Members, generate: bool)
    requires Walks(f, t, generate) && f.Member? && t.Member? && f.key == t.key
    ensures Clean(f.value) && Clean(t.value) && Walkable(f.value, false) && Walkable(t.value, false)
    ensures Comparable(Meaning(f.value), Meaning(t.value))
    ensures generate ==> Sortable(f.value, true) && Sortable(t.value, true)
    ensures f.key !in Keys(f.next) && t.key !in Keys(t.next) && Walks(f.next, t.next, generate)
  {
    hide Clean, Comparable, Meaning, Walkable, Sortable, CompareStrings, Plain, Fits;
    MeaningKeys(f.next);
    MeaningKeys(t.next);
    var m, n := MembersMeaning(f), MembersMeaning(t);
    assert m[f.key] == Meaning(f.value) && n[t.key] == Meaning(t.value);
    forall k | k in MembersMeaning(f.next) && k in MembersMeaning(t.next)
      ensures Comparable(MembersMeaning(f.next)[k], MembersMeaning(t.next)[k])
    {
      assert k in m && k in n;
    }
  }

  /** The first name of an ascending list is below all others, and so not in a list that starts further up. */
  lemma FirstAlone(f: Members, t: Members)
    requires CleanMembers(f) && CleanMembers(t) && Ascending(t, true)
    requires f.Member? && (t.NoMember? || CompareStrings(f.key, t.key, true) < 0)
    ensures f.key !in Keys(t)
  {
    if t.Member? { BelowAscending(f.key, t, true); }
  }

  lemma FirstNames(f: Members, t: Members)
    requires CleanMembers(f) && CleanMembers(t) && f.Member? && t.Member?
    ensures CompareStrings(f.key, t.key, true) == 0 <==> f.key == t.key
    ensures CompareStrings(t.key, f.key, true) == -CompareStrings(f.key, t.key, true)
  {
    PlainIsNulFree(f.key);
    PlainIsNulFree(t.key);
    ExactComparison(f.key, t.key);
    Asymmetric(f.key, t.key, true);
  }

  lemma {:induction false} WalkMeaning(f: Members, t: Members, generate: bool)
    requires Walks(f, t, generate)
    ensures Walked(MergeWalk(f, t, generate), f, t)
    decreases MembersSize(f) + MembersSize(t), 3
  {
    hide CleanMembers, CompareStrings, MergeWalk, Ascending, Walked, Comparable, WalkableMembers, SortableMembers, MembersMeaning;
    if f.Member? && t.Member? { FirstNames(f, t); }
    if f.NoMember? && t.NoMember? {
      EmptyWalk(generate);
    } else if f.Member? && t.Member? && f.key == t.key {
      WalkBoth(f, t, generate);
    } else if f.Member? && (t.NoMember? || CompareStrings(f.key, t.key, true) < 0) {
      WalkSource(f, t, generate);
    } else {
      WalkTarget(f, t, generate);
    }
  }

  lemma EmptyWalk(generate: bool)
    ensures Walked(MergeWalk(NoMember, NoMember, generate), NoMember, NoMember)
  {
  }

  lemma {:induction false} WalkSource(f: Members, t: Members, generate: bool)
    requires Walks(f, t, generate) && f.Member? && (t.NoMember? || CompareStrings(f.key, t.key, true) < 0)
    ensures Walked(MergeWalk(f, t, generate), f, t)
    decreases MembersSize(f) + MembersSize(t), 2
  {
    hide CleanMembers, Ascending, Walked, GenFields, Comparable, WalkableMembers, SortableMembers, CompareStrings, Meaning;
    FirstAlone(f, t);
    SourceNext(f, t, generate);
    WalkMeaning(f.next, t, generate);
    MeaningKeys(f.next);
    MeaningKeys(t);
    GenOnlySource(MembersMeaning(f.next), MembersMeaning(t), f.key, Meaning(f.value));
    NullMeaning(Null);
    WalkedCons(f.key, Null, MergeWalk(f.next, t, generate), f, t, f.next, t, Leaf(Null));
  }

  lemma {:induction false} WalkTarget(f: Members, t: Members, generate: bool)
    requires Walks(f, t, generate) && t.Member? && (f.NoMember? || CompareStrings(f.key, t.key, true) > 0)
    ensures Walked(MergeWalk(f, t, generate), f, t)
    decreases MembersSize(f) + MembersSize(t), 2
  {
    hide CleanMembers, Ascending, Walked, GenFields, Comparable, WalkableMembers, SortableMembers, CompareStrings, Meaning, Distinct, Clean;
    if f.Member? { FirstNames(f, t); }
    FirstAlone(t, f);
    TargetNext(f, t, generate);
    WalkMeaning(f, t.next, generate);
    MeaningKeys(f);
    MeaningKeys(t.next);
    CleanIsSound(t.value);
    GenOnlyTarget(MembersMeaning(f), MembersMeaning(t.next), t.key, Meaning(t.value));
    WalkedCons(t.key, t.value, MergeWalk(f, t.next, generate), f, t, f, t.next, Meaning(t.value));
  }

  lemma {:induction false} WalkBoth(f: Members, t: Members, generate: bool)
    requires Walks(f, t, generate) && f.Member? && t.Member? && f.key == t.key
    ensures Walked(MergeWalk(f, t, generate), f, t)
    decreases MembersSize(f) + MembersSize(t), 2
  {
    hide Clean, Walks, Distinct, GenFields, MergeWalk, GenTree, Walked, Meaning, Comparable, Sortable, Walkable;
    BothNext(f, t, generate);
    WalkMeaning(f.next, t.next, generate);
    MeaningKeys(f.next);
    MeaningKeys(t.next);
    CompareMeaning(f.value, t.value, generate);
    var x, y := Meaning(f.value), Meaning(t.value);
    var rest := MergeWalk(f.next, t.next, generate);
    GenBoth(MembersMeaning(f.next), MembersMeaning(t.next), f.key, x, y);
    BothStep(f, t, generate);
    if x != y {
      GenerateMeaning(f.value, t.value, false);
      WalkedCons(t.key, GenerateMerge(f.value, t.value, false).value, rest, f, t, f.next, t.next, GenTree(x, y));
    } else {
      WalkedSkip(rest, f, t);
    }
  }

  lemma WalkedSkip(rest: Members, f: Members, t: Members)
    requires f.Member? && t.Member? && Walked(rest, f.next, t.next)
    requires GenFields(MembersMeaning(f), MembersMeaning(t), Obj(MembersMeaning(t)))
          == GenFields(MembersMeaning(f.next), MembersMeaning(t.next), Obj(MembersMeaning(t.next)))
    ensures Walked(rest, f, t)
  {
    hide GenFields, Distinct;
  }

  /** One round of the walk on a name both objects have. */
  lemma BothStep(f: Members, t: Members, generate: bool)
    requires f.Member? && t.Member? && f.key == t.key
    ensures var rest := MergeWalk(f.next, t.next, generate); var nested := GenerateMerge(f.value, t.value, false);
      MergeWalk(f, t, generate)
      == if CompareJson(f.value, t.value, generate) || nested.None? then rest else Member(t.key, nested.value, rest)
  {
    hide CompareJson, GenerateMerge;
    SameString(f.key, true);
  }

  lemma SortedWalks(from: Members, to: Members, generate: bool)
    requires CleanMembers(from) && CleanMembers(to) && Comparable(Obj(MembersMeaning(from)), Obj(MembersMeaning(to)))
    requires Walkable(Object(from), generate) && Walkable(Object(to), generate)
    ensures Walks(SortMembers(from, generate), SortMembers(to, generate), generate)
    ensures MembersMeaning(SortMembers(from, generate)) == MembersMeaning(from)
    ensures MembersMeaning(SortMembers(to, generate)) == MembersMeaning(to)
  {
    hide CleanMembers, SortMembers, Settled, Ascending, MembersMeaning, SortableMembers, WalkableMembers;
    SortedWalk(from, generate);
    SortedWalk(to, generate);
  }

  lemma SortedWalk(ms: Members, generate: bool)
    requires CleanMembers(ms) && Walkable(Object(ms), generate)
    ensures var r := SortMembers(ms, generate);
      && CleanMembers(r) && MembersMeaning(r) == MembersMeaning(ms) && WalkableMembers(r)
      && (generate ==> SortableMembers(r, true))
  {
    hide CleanMembers, SortMembers, Sortable, SortableMembers, Entries;
    SortMeaning(ms, generate);
    SortSorts(ms, generate);
    WalkableEntries(ms);
    WalkableEntries(SortMembers(ms, generate));
    if generate { SortableSorted(ms, true); }
  }

  /** generate_merge_patch computes the difference; NULL means two objects that are already equal. */
  lemma {:induction false} GenerateMeaning(from: Json, to: Json, generate: bool)
    requires Clean(from) && Clean(to) && Comparable(Meaning(from), Meaning(to))
    requires Walkable(from, generate) && Walkable(to, generate)
    ensures var patch := GenerateMerge(from, to, generate);
      && (patch.None? <==> from.Object? && to.Object? && Meaning(from) == Meaning(to))
      && (patch.Some? ==> Distinct(patch.value) && Meaning(patch.value) == GenTree(Meaning(from), Meaning(to)))
    decreases Size(from) + Size(to), 1
  {
    hide CleanMembers, MergeWalk, SortMembers, MembersMeaning, GenFields, DistinctMembers, Comparable, Walkable, Walks, Walked;
    CleanIsSound(to);
    if from.Object? && to.Object? {
      var f, t := SortMembers(from.members, generate), SortMembers(to.members, generate);
      SortedWalks(from.members, to.members, generate);
      WalkMeaning(f, t, generate);
      WalkedFacts(MergeWalk(f, t, generate), f, t);
    }
  }

  lemma WalkedFacts(r: Members, f: Members, t: Members)
    requires Walked(r, f, t)
    ensures r.NoMember? <==> MembersMeaning(f) == MembersMeaning(t)
    ensures Distinct(Object(r)) && Meaning(Object(r)) == GenTree(Obj(MembersMeaning(f)), Obj(MembersMeaning(t)))
  {
    hide GenFields, MembersMeaning, DistinctMembers;
    EmptyDifference(MembersMeaning(f), MembersMeaning(t));
    NoMembers(r);
  }

  lemma NoMembers(ms: Members)
    ensures MembersMeaning(ms) == map[] <==> ms.NoMember?
  {
    MeaningKeys(ms);
    if ms.Member? { assert ms.key in MembersMeaning(ms); }
  }

  lemma EmptyDifference(fs: map<Text, Tree>, ts: map<Text, Tree>)
    ensures GenFields(fs, ts, Obj(ts)) == map[] <==> fs == ts
  {
    hide GenTree;
    var g := GenFields(fs, ts, Obj(ts));
    if g == map[] {
      forall k | k in fs.Keys + ts.Keys ensures k in fs && k in ts && fs[k] == ts[k] { assert k !in g; }
      assert fs == ts;
    }
    if fs == ts { assert g.Keys == {}; }
  }

  /** Main result: merging the generated patch into a duplicate of the source. Without a patch there was nothing to
      do; with one, the target comes out exactly when it is mergeable: every null member of the target that the
      source does not have in the same place would be taken for a removal. */
  lemma GenerateThenMerge(from: Json, to: Json, doc: Json, generate: bool, apply: bool)
    requires Clean(from) && Clean(to) && Comparable(Meaning(from), Meaning(to))
    requires Walkable(from, generate) && Walkable(to, generate)
    requires Distinct(doc) && Meaning(doc) == Meaning(from)
    ensures match GenerateMerge(from, to, generate)
      case None => Meaning(from) == Meaning(to)
      case Some(patch) =>
        Meaning(MergePatch(Some(doc), patch, apply)) == Meaning(to) <==> Mergeable(Meaning(from), Meaning(to))
  {
    hide Clean, Distinct, Meaning, GenTree, RfcMerge, Mergeable, Comparable, Walkable, Mixes;
    GenerateMeaning(from, to, generate);
    var patch := GenerateMerge(from, to, generate);
    if patch.Some? {
      CleanIsSound(from);
      CleanIsSound(to);
      DifferenceMixes(Meaning(from), Meaning(to), apply);
      MergeMeaning(Some(doc), patch.value, apply);
      MergeUndoesGen(Meaning(from), Meaning(to));
    }
  }

  /** A target without null members is mergeable whatever the source. */
  lemma {:induction false} NullFreeIsMergeable(f: Tree, t: Tree)
    requires t.Obj? ==> forall k | k in t.fields :: Carried(t.fields[k])
    ensures Mergeable(f, t)
    decreases t
  {
    if f.Obj? && t.Obj? {
      forall k | k in t.fields && k in f.fields
        ensures f.fields[k] == t.fields[k] || (t.fields[k] != Leaf(Null) && Mergeable(f.fields[k], t.fields[k]))
      {
        NullFreeIsMergeable(f.fields[k], t.fields[k]);
      }
    }
  }

  // ----- sources that do not come out of the sort in strcmp order

  /** Generating a merge patch and merging it gives the target, up to the order of members. */
  ghost predicate Merges(from: Json, to: Json, generate: bool, apply: bool) {
    var patch := GenerateMerge(from, to, generate);
    Meaning(if patch.None? then from else MergePatch(Some(from), patch.value, apply)) == Meaning(to)
  }

  /** The targets that a merge patch can express and that the generator can walk. */
  ghost predicate Expressible(from: Json, to: Json, generate: bool) {
    && Clean(to) && Comparable(Meaning(from), Meaning(to)) && Walkable(to, generate)
    && Mergeable(Meaning(from), Meaning(to))
  }

  lemma MergeStep(target: Members, k: Text, v: Json, names: set<Text>, apply: bool)
    requires DistinctMembers(target) && Keys(target) <= names && k in names && SoundNames(names) && (v.Null? || v.True?)
    ensures var r := MergeMember(target, k, v, apply);
      && DistinctMembers(r) && Keys(r) <= names
      && MembersMeaning(r) == if v.Null? then MembersMeaning(target) - {k} else MembersMeaning(target)[k := Leaf(True)]
  {
    hide SoundNames, DistinctMembers, MembersMeaning, Keys, MergeMember, ToldApart;
    SoundIsToldApart(names, apply);
    ToldApartPart(names, Keys(target) + {k}, apply);
    MeaningKeys(target);
    MergeMemberMeaning(target, k, v, apply);
    MeaningKeys(MergeMember(target, k, v, apply));
  }

  /** Members without a counterpart are all removed. */
  lemma {:induction false} DropsAll(target: Members, f: Members, names: set<Text>, generate: bool, apply: bool)
    requires DistinctMembers(target) && Keys(target) + Keys(f) <= names && SoundNames(names)
    ensures MembersMeaning(MergeMembers(target, MergeWalk(f, NoMember, generate), apply)) == MembersMeaning(target) - Keys(f)
    decreases f
  {
    hide SoundNames, DistinctMembers, MergeMember, Meaning;
    if f.Member? {
      MergeStep(target, f.key, Null, names, apply);
      var r := MergeMember(target, f.key, Null, apply);
      DropsAll(r, f.next, names, generate, apply);
      assert MembersMeaning(target) - {f.key} - Keys(f.next) == MembersMeaning(target) - Keys(f);
    } else {
      assert MembersMeaning(target) - {} == MembersMeaning(target);
    }
  }

  /** A member that is overtaken is put in before it is removed, and so is lost. */
  lemma {:induction false} OvertakenIsDropped(target: Members, f: Members, names: set<Text>, k: Text, generate: bool, apply: bool)
    requires DistinctMembers(target) && Keys(target) + Keys(f) <= names && SoundNames(names) && Overtaken(k, f)
    ensures MembersMeaning(MergeMembers(target, MergeWalk(f, Member(k, True, NoMember), generate), apply))
         == MembersMeaning(target) - Keys(f)
    decreases f
  {
    hide SoundNames, DistinctMembers, MergeMember, Meaning, CompareStrings;
    assert NulFree(k) && NulFree(f.key) by { NamesNulFree(names, k); NamesNulFree(names, f.key); }
    ExactComparison(f.key, k);
    Asymmetric(f.key, k, true);
    if Less(f.key, k, true) {
      MergeStep(target, f.key, Null, names, apply);
      OvertakenIsDropped(MergeMember(target, f.key, Null, apply), f.next, names, k, generate, apply);
      assert MembersMeaning(target) - {f.key} - Keys(f.next) == MembersMeaning(target) - Keys(f);
    } else {
      MergeStep(target, k, True, names, apply);
      DropsAll(MergeMember(target, k, True, apply), f, names, generate, apply);
      assert MembersMeaning(target)[k := Leaf(True)] - Keys(f) == MembersMeaning(target) - Keys(f);
    }
  }

  lemma NamesNulFree(names: set<Text>, k: Text)
    requires SoundNames(names) && k in names
    ensures NulFree(k)
  {
  }

  /** From an object that does not come out of the sort in strcmp order: there is a target, one member of the object set to
      true, in whose place the merge leaves an empty object. */
  lemma UnsortedMergeFails(ms: Members, generate: bool, apply: bool) returns (k: Text)
    requires CleanMembers(ms) && !Ascending(SortMembers(ms, generate), true)
    ensures var from, to := Object(ms), Object(Member(k, True, NoMember));
      && k in Keys(ms) && Overtaken(k, SortMembers(ms, generate)) && Expressible(from, to, generate)
      && GenerateMerge(from, to, generate).Some?
      && Meaning(MergePatch(Some(from), GenerateMerge(from, to, generate).value, apply)) == Obj(map[]) != Meaning(to)
  {
    hide SortMembers, MergeWalk, MergeMembers, CleanMembers, Plain, Fits, Overtaken, Settled, SoundNames, CompareStrings;
    var f, names := SortMembers(ms, generate), Keys(ms);
    SortMeaning(ms, generate);
    MeaningKeys(ms);
    CleanIsSound(Object(ms));
    k := FindOvertaken(f);
    KeysFit(ms, k);
    var t := Member(k, True, NoMember);
    OvertakenIsDropped(ms, f, names, k, generate, apply);
    SortedAlone(k, True, generate);
    WalkIsNotEmpty(f, t, generate);
    TrueIsExpressible(ms, k, generate);
    assert MembersMeaning(ms) - Keys(f) == map[];
    assert k in MembersMeaning(t);
  }

  lemma WalkIsNotEmpty(f: Members, t: Members, generate: bool)
    requires CleanMembers(f) && t.Member? && Plain(t.key) && Overtaken(t.key, f)
    ensures MergeWalk(f, t, generate).Member?
  {
    hide CompareJson, GenerateMerge, CompareStrings;
    PlainIsNulFree(f.key);
    PlainIsNulFree(t.key);
    ExactComparison(f.key, t.key);
  }

  lemma TrueIsExpressible(ms: Members, k: Text, generate: bool)
    requires CleanMembers(ms) && k in Keys(ms) && Plain(k)
    ensures Expressible(Object(ms), Object(Member(k, True, NoMember)), generate)
  {
    hide SortMembers, CleanMembers, CompareStrings, Plain, Settled;
    var t := Member(k, True, NoMember);
    SortedAlone(k, True, generate);
    MeaningKeys(ms);
    CleanIsSettled(ms);
    AloneIsClean(k, True);
    assert Keys(ms) + map[k := Leaf(True)].Keys == Keys(ms);
    assert Comparable(Meaning(Object(ms)), Meaning(Object(t)));
    TrueAloneWalks(k, generate);
    TrueIsMergeable(MembersMeaning(ms), k);
  }

  lemma TrueIsMergeable(fields: map<Text, Tree>, k: Text)
    requires k in fields
    ensures Mergeable(Obj(fields), Obj(map[k := Leaf(True)]))
  {
    assert Mergeable(fields[k], Leaf(True));
  }

  lemma TrueAloneWalks(k: Text, generate: bool)
    ensures Walkable(Object(Member(k, True, NoMember)), generate)
  {
    hide SortMembers, CompareStrings;
    SortedAlone(k, True, generate);
    assert WalkableMembers(NoMember) && SortableMembers(NoMember, true) && Walkable(True, false) && Sortable(True, true);
  }

  /** Such an object, whether the sort is to respect case or not: {"a": null, "B": null}. */
  lemma UnsortedForMerging(generate: bool)
    ensures var ms := Member("a", Null, Member("B", Null, NoMember));
      CleanMembers(ms) && !Ascending(SortMembers(ms, generate), true)
  {
    hide SortMembers;
    assert CompareStrings("a", "B", true) == 31 && CompareStrings("a", "B", false) == -1;
    TwoSorted("a", Null, "B", Null, generate);
    UnsortedSource();
  }

  /** Exactly, for an object whose values qualify: generated merge patches reach every expressible target if and only if
      the object itself comes out of the sort in strcmp order. */
  lemma GeneratedMergeWorksIff(ms: Members, generate: bool, apply: bool)
    requires CleanMembers(ms) && WalkableMembers(ms) && (generate ==> SortableMembers(ms, true))
    ensures Ascending(SortMembers(ms, generate), true) <==>
      forall to: Json | Expressible(Object(ms), to, generate) :: Merges(Object(ms), to, generate, apply)
  {
    hide SortMembers, Meaning, Merges, Expressible, Clean, Ascending;
    if Ascending(SortMembers(ms, generate), true) {
      forall to: Json | Expressible(Object(ms), to, generate) ensures Merges(Object(ms), to, generate, apply) {
        MergesWalkable(Object(ms), to, generate, apply);
      }
    } else {
      var k := UnsortedMergeFails(ms, generate, apply);
      MergesNot(Object(ms), Object(Member(k, True, NoMember)), generate, apply);
    }
  }

  lemma MergesWalkable(from: Json, to: Json, generate: bool, apply: bool)
    requires Clean(from) && Walkable(from, generate) && Expressible(from, to, generate)
    ensures Merges(from, to, generate, apply)
  {
    CleanIsSound(from);
    GenerateThenMerge(from, to, from, generate, apply);
  }

  lemma MergesNot(from: Json, to: Json, generate: bool, apply: bool)
    requires GenerateMerge(from, to, generate).Some?
    requires Meaning(MergePatch(Some(from), GenerateMerge(from, to, generate).value, apply)) != Meaning(to)
    ensures !Merges(from, to, generate, apply)
  {
  }
}
