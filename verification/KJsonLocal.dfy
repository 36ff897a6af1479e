/** Generated patches are about what differs, and about nothing else. */
module KJsonLocal {
  import opened Octets
  import opened KJson
  import opened KJsonText
  import opened KJsonStrings
  import opened KJsonSort
  import opened KJsonPatch
  import opened KJsonMeaning
  import opened KJsonDiff

  ghost predicate InItems(p: Json, items: Items) {
    items.Item? && (items.value == p || InItems(p, items.next))
  }

  lemma {:induction false} InAppended(p: Json, a: Items, b: Items)
    ensures InItems(p, AppendItems(a, b)) <==> InItems(p, a) || InItems(p, b)
  {
    if a.Item? { InAppended(p, a.next, b); }
  }

  /** A patch with a value, and one without. */
  ghost predicate PutsAt(p: Json, operation: Text, path: Text, t: Tree) {
    p.Object? && p.members.Member? && p.members.next.Member? && p.members.next.next.Member?
    && var v := p.members.next.next.value;
    && p == Object(Member("op", String(operation), Member("path", String(path), Member("value", v, NoMember))))
    && Clean(v) && Meaning(v) == t
  }

  ghost predicate TakesAt(p: Json, path: Text) {
    p == Object(Member("op", String("remove"), Member("path", String(path), NoMember)))
  }

  /** The patches for what differs between f and t at the path itself: members and elements that only one of two objects or
      arrays has, and the whole value if it is something else. */
  ghost predicate Concerns(p: Json, path: Text, f: Tree, t: Tree) {
    match (f, t)
    case (Obj(fs), Obj(ts)) =>
      || (exists k :: k in fs.Keys - ts.Keys && TakesAt(p, path + ['/'] + k))
      || (exists k :: k in ts.Keys - fs.Keys && PutsAt(p, "add", path + ['/'] + k, ts[k]))
    case (Arr(fs), Arr(ts)) =>
      || (|fs| > |ts| && TakesAt(p, path + ['/'] + Decimal(|ts|)))
      || (exists j | |fs| <= j < |ts| :: PutsAt(p, "add", path + ['/'] + "-", ts[j]))
    case _ => f != t && PutsAt(p, "replace", path, t)
  }

  /** Such a patch at a place that both trees have, below the tokens. */
  ghost predicate Local(p: Json, ts: seq<Token>, down: seq<Token>, f: Tree, t: Tree) {
    && Locate(f, down).Some? && Locate(t, down).Some?
    && Concerns(p, PathText(ts + down), Locate(f, down).value, Locate(t, down).value)
  }

  lemma LocalBelow(p: Json, ts: seq<Token>, token: Token, down: seq<Token>, f: Tree, t: Tree)
    requires Step(f, token).Some? && Step(t, token).Some?
    requires Local(p, ts + [token], down, Step(f, token).value, Step(t, token).value)
    ensures Local(p, ts, [token] + down, f, t)
  {
    assert ts + [token] + down == ts + ([token] + down);
    assert ([token] + down)[1..] == down;
  }

  lemma LocalHere(p: Json, ts: seq<Token>, f: Tree, t: Tree)
    requires Concerns(p, PathText(ts), f, t)
    ensures Local(p, ts, [], f, t)
  {
    assert ts + [] == ts;
  }

  // ----- the walk over two sorted objects

  ghost predicate Part(fields: map<Text, Tree>, ms: Members) {
    forall k | k in Keys(ms) :: k in fields && k in MembersMeaning(ms) && fields[k] == MembersMeaning(ms)[k]
  }

  /** The members that are left of both; what only one has met is not to come in the other. */
  ghost predicate Walking(fs: map<Text, Tree>, ts: map<Text, Tree>, f: Members, t: Members, caseSensitive: bool) {
    && CleanMembers(f) && CleanMembers(t) && Ascending(f, caseSensitive) && Ascending(t, caseSensitive)
    && SortableMembers(f, caseSensitive) && SortableMembers(t, caseSensitive)
    && Settled(fs.Keys + ts.Keys) && Part(fs, f) && Part(ts, t) && Alike(fs, ts)
    && (fs.Keys - Keys(f)) !! Keys(t) && (ts.Keys - Keys(t)) !! Keys(f)
  }

  lemma PartNext(fields: map<Text, Tree>, ms: Members)
    requires CleanMembers(ms) && ms.Member? && Part(fields, ms)
    ensures Part(fields, ms.next) && ms.key in fields && fields[ms.key] == Meaning(ms.value)
    ensures ms.key !in Keys(ms.next) && Plain(ms.key) && Clean(ms.value) && CleanMembers(ms.next)
  {
    hide Clean, Plain, Fits, Meaning;
    MeaningKeys(ms);
    MeaningKeys(ms.next);
    forall k | k in Keys(ms.next) ensures k in MembersMeaning(ms.next) && fields[k] == MembersMeaning(ms.next)[k] {
      assert MembersMeaning(ms)[k] == MembersMeaning(ms.next)[k];
    }
  }

  lemma WalkingCompares(fs: map<Text, Tree>, ts: map<Text, Tree>, f: Members, t: Members, caseSensitive: bool)
    requires Walking(fs, ts, f, t, caseSensitive) && f.Member? && t.Member?
    ensures CompareStrings(f.key, t.key, caseSensitive) == 0 <==> f.key == t.key
    ensures CompareStrings(t.key, f.key, caseSensitive) == -CompareStrings(f.key, t.key, caseSensitive)
  {
    hide Clean, Plain, Fits, Meaning, CompareStrings, Settled, Alike;
    PartNext(fs, f);
    PartNext(ts, t);
    SettledComparison(fs.Keys + ts.Keys, f.key, t.key, caseSensitive);
    Asymmetric(f.key, t.key, caseSensitive);
  }

  /** A name that comes before all that is left of the other object is not in that object at all. */
  lemma OnlySource(fs: map<Text, Tree>, ts: map<Text, Tree>, f: Members, t: Members, caseSensitive: bool)
    requires Walking(fs, ts, f, t, caseSensitive) && f.Member?
    requires t.Member? ==> CompareStrings(f.key, t.key, caseSensitive) < 0
    ensures f.key in fs.Keys - ts.Keys && Walking(fs, ts, f.next, t, caseSensitive)
  {
    hide Clean, Plain, Fits, Meaning, CompareStrings, Settled, Alike, Part, Sortable;
    PartNext(fs, f);
    if t.Member? { BelowAscending(f.key, t, caseSensitive); }
  }

  lemma OnlyTarget(fs: map<Text, Tree>, ts: map<Text, Tree>, f: Members, t: Members, caseSensitive: bool)
    requires Walking(fs, ts, f, t, caseSensitive) && t.Member?
    requires f.Member? ==> CompareStrings(t.key, f.key, caseSensitive) < 0
    ensures t.key in ts.Keys - fs.Keys && Walking(fs, ts, f, t.next, caseSensitive)
    ensures Plain(t.key) && Clean(t.value) && ts[t.key] == Meaning(t.value)
  {
    hide Clean, Plain, Fits, Meaning, CompareStrings, Settled, Alike, Part, Sortable;
    PartNext(ts, t);
    if f.Member? { BelowAscending(t.key, f, caseSensitive); }
  }

  lemma InBoth(fs: map<Text, Tree>, ts: map<Text, Tree>, f: Members, t: Members, caseSensitive: bool)
    requires Walking(fs, ts, f, t, caseSensitive) && f.Member? && t.Member? && f.key == t.key
    ensures f.key in fs && f.key in ts && fs[f.key] == Meaning(f.value) && ts[f.key] == Meaning(t.value)
    ensures Plain(f.key) && Clean(f.value) && Clean(t.value) && Comparable(fs[f.key], ts[f.key])
    ensures Sortable(f.value, caseSensitive) && Sortable(t.value, caseSensitive)
    ensures Walking(fs, ts, f.next, t.next, caseSensitive)
  {
    hide Clean, Plain, Fits, Meaning, CompareStrings, Settled, Part, Sortable, Comparable;
    PartNext(fs, f);
    PartNext(ts, t);
  }

  lemma SortedWalking(from: Members, to: Members, caseSensitive: bool)
    requires CleanMembers(from) && CleanMembers(to) && Comparable(Obj(MembersMeaning(from)), Obj(MembersMeaning(to)))
    requires Sortable(Object(from), caseSensitive) && Sortable(Object(to), caseSensitive)
    ensures Walking(MembersMeaning(from), MembersMeaning(to), SortMembers(from, caseSensitive), SortMembers(to, caseSensitive), caseSensitive)
  {
    hide CleanMembers, SortMembers, Settled, SortableMembers, IsSorted, MembersMeaning;
    SortMeaning(from, caseSensitive);
    SortMeaning(to, caseSensitive);
    SortableSorted(from, caseSensitive);
    SortableSorted(to, caseSensitive);
    MeaningKeys(from);
    MeaningKeys(to);
  }

  // ----- main result

  /** Every patch that is generated between two trees takes away or adds a member or an element that only one of them has in that
      place, or replaces a value by a different one that is not of the same composite kind. */
  lemma {:induction false} DiffIsLocal(p: Json, ts: seq<Token>, from: Json, to: Json, caseSensitive: bool, memory: Memory)
    requires Clean(from) && Clean(to) && Comparable(Meaning(from), Meaning(to))
    requires Sortable(from, caseSensitive) && Sortable(to, caseSensitive) && InItems(p, Diff(PathText(ts), from, to, caseSensitive, memory))
    ensures exists down :: Local(p, ts, down, Meaning(from), Meaning(to))
    decreases Size(from) + Size(to), 1
  {
    hide CleanMembers, CleanItems, PathText, Compose, DiffItems, DiffMembers, SortMembers, MembersMeaning, ItemsMeaning, Comparable, Local,
      SortableMembers, SortableItems;
    if from.Array? && to.Array? {
      ItemsAreAlike(from.items, to.items);
      ItemsLocal(p, ts, 0, from.items, to.items, from.items, to.items, caseSensitive, memory);
    } else if from.Object? && to.Object? {
      var f, t := SortMembers(from.members, caseSensitive), SortMembers(to.members, caseSensitive);
      SortedWalking(from.members, to.members, caseSensitive);
      MembersLocal(p, ts, MembersMeaning(from.members), MembersMeaning(to.members), f, t, caseSensitive, memory);
    } else {
      assert p == Compose("replace", PathText(ts), Some(to)) && Meaning(from) != Meaning(to);
      ReplaceIsAt(p, PathText(ts), Meaning(from), to);
      LocalHere(p, ts, Meaning(from), Meaning(to));
    }
  }

  lemma ReplaceIsAt(p: Json, path: Text, f: Tree, to: Json)
    requires p == Compose("replace", path, Some(to)) && Clean(to) && f != Meaning(to)
    requires !(f.Obj? && to.Object?) && !(f.Arr? && to.Array?)
    ensures Concerns(p, path, f, Meaning(to))
  {
    hide Clean;
  }

  lemma ItemsAreAlike(f: Items, t: Items)
    requires Comparable(Arr(ItemsMeaning(f)), Arr(ItemsMeaning(t)))
    ensures ItemsAlike(f, t) && ItemsMeaning(f)[0..] == ItemsMeaning(f) && ItemsMeaning(t)[0..] == ItemsMeaning(t)
  {
    AlikeByIndex(f, t);
  }

  lemma {:induction false} MembersLocal(p: Json, ts: seq<Token>, fs: map<Text, Tree>, tt: map<Text, Tree>, f: Members, t: Members,
                                        caseSensitive: bool, memory: Memory)
    requires Walking(fs, tt, f, t, caseSensitive) && InItems(p, DiffMembers(PathText(ts), f, t, caseSensitive, memory))
    ensures exists down :: Local(p, ts, down, Obj(fs), Obj(tt))
    decreases MembersSize(f) + MembersSize(t), 2
  {
    hide Walking, PathText, Compose, Diff, Suffixed, Local, Meaning, Clean, Plain, CompareStrings, Comparable, Sortable;
    if f.Member? && t.Member? { WalkingCompares(fs, tt, f, t, caseSensitive); }
    if f.Member? && t.Member? && f.key == t.key {
      InBoth(fs, tt, f, t, caseSensitive);
      var here := Suffixed(PathText(ts), f.key, memory);
      InAppended(p, Diff(here, f.value, t.value, caseSensitive, memory), DiffMembers(PathText(ts), f.next, t.next, caseSensitive, memory));
      if InItems(p, Diff(here, f.value, t.value, caseSensitive, memory)) {
        MatchedPath(ts, f.key, memory);
        DiffIsLocal(p, ts + [Key(f.key)], f.value, t.value, caseSensitive, memory);
        var down :| Local(p, ts + [Key(f.key)], down, Meaning(f.value), Meaning(t.value));
        LocalBelow(p, ts, Key(f.key), down, Obj(fs), Obj(tt));
      } else {
        MembersLocal(p, ts, fs, tt, f.next, t.next, caseSensitive, memory);
      }
    } else if f.Member? && (t.NoMember? || CompareStrings(f.key, t.key, caseSensitive) < 0) {
      OnlySource(fs, tt, f, t, caseSensitive);
      SourceLocal(p, ts, fs, tt, f, t, caseSensitive, memory);
    } else if t.Member? {
      OnlyTarget(fs, tt, f, t, caseSensitive);
      TargetLocal(p, ts, fs, tt, f, t, caseSensitive, memory);
    }
  }

  lemma {:induction false} SourceLocal(p: Json, ts: seq<Token>, fs: map<Text, Tree>, tt: map<Text, Tree>, f: Members, t: Members,
                                       caseSensitive: bool, memory: Memory)
    requires Walking(fs, tt, f, t, caseSensitive) && InItems(p, DiffMembers(PathText(ts), f, t, caseSensitive, memory))
    requires f.Member? && (t.NoMember? || CompareStrings(f.key, t.key, caseSensitive) < 0)
    requires f.key in fs.Keys - tt.Keys && Walking(fs, tt, f.next, t, caseSensitive)
    ensures exists down :: Local(p, ts, down, Obj(fs), Obj(tt))
    decreases MembersSize(f) + MembersSize(t), 1
  {
    hide PathText, Compose, Diff, Suffixed, Local, Meaning, Clean, Plain, CompareStrings, Comparable, Sortable, Settled, Alike;
    if p == Compose("remove", Suffixed(PathText(ts), f.key, memory), None) {
      PartNext(fs, f);
      MatchedPath(ts, f.key, memory);
      RemoveIsAt(p, PathText(ts), f.key, fs, tt);
      LocalHere(p, ts, Obj(fs), Obj(tt));
    } else {
      hide Walking;
      MembersLocal(p, ts, fs, tt, f.next, t, caseSensitive, memory);
    }
  }

  lemma RemoveIsAt(p: Json, path: Text, k: Text, fs: map<Text, Tree>, tt: map<Text, Tree>)
    requires p == Compose("remove", path + ['/'] + k, None) && k in fs.Keys - tt.Keys
    ensures Concerns(p, path, Obj(fs), Obj(tt))
  {
    assert TakesAt(p, path + ['/'] + k);
  }

  lemma {:induction false} TargetLocal(p: Json, ts: seq<Token>, fs: map<Text, Tree>, tt: map<Text, Tree>, f: Members, t: Members,
                                       caseSensitive: bool, memory: Memory)
    requires Walking(fs, tt, f, t, caseSensitive) && InItems(p, DiffMembers(PathText(ts), f, t, caseSensitive, memory))
    requires t.Member? && (f.NoMember? || CompareStrings(f.key, t.key, caseSensitive) > 0)
    requires t.key in tt.Keys - fs.Keys && Walking(fs, tt, f, t.next, caseSensitive)
    requires Plain(t.key) && Clean(t.value) && tt[t.key] == Meaning(t.value)
    ensures exists down :: Local(p, ts, down, Obj(fs), Obj(tt))
    decreases MembersSize(f) + MembersSize(t), 1
  {
    hide Walking, PathText, Compose, Diff, Suffixed, Local, Meaning, Clean, Plain, CompareStrings;
    if p == Compose("add", Suffixed(PathText(ts), t.key, memory), Some(t.value)) {
      MatchedPath(ts, t.key, memory);
      AddIsAt(p, PathText(ts), t.key, t.value, fs, tt);
      LocalHere(p, ts, Obj(fs), Obj(tt));
    } else {
      MembersLocal(p, ts, fs, tt, f, t.next, caseSensitive, memory);
    }
  }

  lemma AddIsAt(p: Json, path: Text, k: Text, v: Json, fs: map<Text, Tree>, tt: map<Text, Tree>)
    requires p == Compose("add", path + ['/'] + k, Some(v)) && k in tt.Keys - fs.Keys && Clean(v) && tt[k] == Meaning(v)
    ensures Concerns(p, path, Obj(fs), Obj(tt))
  {
    hide Clean, Meaning;
    assert PutsAt(p, "add", path + ['/'] + k, tt[k]);
  }

  // ----- the walk over two arrays

  /** f and t are what is left of both from the i-th element on. */
  lemma {:induction false} ItemsLocal(p: Json, ts: seq<Token>, i: nat, from: Items, to: Items, f: Items, t: Items, caseSensitive: bool,
                                      memory: Memory)
    requires i <= ItemsCount(from) && i <= ItemsCount(to) && ItemsMeaning(f) == ItemsMeaning(from)[i..]
    requires ItemsMeaning(t) == ItemsMeaning(to)[i..]
    requires CleanItems(f) && CleanItems(t) && ItemsAlike(f, t) && SortableItems(f, caseSensitive) && SortableItems(t, caseSensitive)
    requires InItems(p, DiffItems(PathText(ts), i, f, t, caseSensitive, memory))
    ensures exists down :: Local(p, ts, down, Arr(ItemsMeaning(from)), Arr(ItemsMeaning(to)))
    decreases ItemsSize(f) + ItemsSize(t), 2
  {
    hide PathText, Compose, Diff, Suffixed, Local, Meaning, Clean, Comparable, Sortable, Decimal;
    var fs, tt := ItemsMeaning(from), ItemsMeaning(to);
    if f.Item? && t.Item? {
      FirstElement(fs, i, f);
      FirstElement(tt, i, t);
      var here := PathText(ts) + ['/'] + Decimal(i);
      InAppended(p, Diff(here, f.value, t.value, caseSensitive, memory), DiffItems(PathText(ts), i + 1, f.next, t.next, caseSensitive, memory));
      if InItems(p, Diff(here, f.value, t.value, caseSensitive, memory)) {
        PathTextSnoc(ts, Index(i));
        DiffIsLocal(p, ts + [Index(i)], f.value, t.value, caseSensitive, memory);
        var down :| Local(p, ts + [Index(i)], down, Meaning(f.value), Meaning(t.value));
        LocalBelow(p, ts, Index(i), down, Arr(fs), Arr(tt));
      } else {
        ItemsLocal(p, ts, i + 1, from, to, f.next, t.next, caseSensitive, memory);
      }
    } else if f.Item? {
      assert |tt| == i && |fs| > i;
      RestTaken(p, PathText(ts), i, f, fs, tt, caseSensitive, memory);
      LocalHere(p, ts, Arr(fs), Arr(tt));
    } else {
      assert |fs| == i && |tt| >= i;
      RestPut(p, PathText(ts), i, i, t, fs, tt, caseSensitive, memory);
      LocalHere(p, ts, Arr(fs), Arr(tt));
    }
  }

  lemma FirstElement(s: seq<Tree>, i: nat, items: Items)
    requires i <= |s| && ItemsMeaning(items) == s[i..] && items.Item?
    ensures i < |s| && s[i] == Meaning(items.value) && ItemsMeaning(items.next) == s[i + 1..]
  {
    hide Meaning;
    assert s[i..][0] == s[i] && s[i..][1..] == s[i + 1..];
  }

  lemma {:induction false} RestTaken(p: Json, path: Text, i: nat, f: Items, fs: seq<Tree>, tt: seq<Tree>, caseSensitive: bool, memory: Memory)
    requires |tt| == i < |fs| && InItems(p, DiffItems(path, i, f, NoItem, caseSensitive, memory))
    ensures Concerns(p, path, Arr(fs), Arr(tt))
    decreases f
  {
    hide Compose, Decimal, Suffixed;
    if f.Item? {
      if p == Compose("remove", Suffixed(path, Decimal(i), memory), None) {
        DecimalIsNotEncoded(i, 0, Behind(memory, path, Decimal(i)));
        TakenAt(p, path, i, memory);
      } else {
        RestTaken(p, path, i, f.next, fs, tt, caseSensitive, memory);
      }
    }
  }

  lemma TakenAt(p: Json, path: Text, i: nat, memory: Memory)
    requires p == Compose("remove", Suffixed(path, Decimal(i), memory), None)
    requires Encode(Decimal(i), 0, Behind(memory, path, Decimal(i))) == Decimal(i)
    ensures TakesAt(p, path + ['/'] + Decimal(i))
  {
  }

  lemma {:induction false} RestPut(p: Json, path: Text, i: nat, j: nat, t: Items, fs: seq<Tree>, tt: seq<Tree>, caseSensitive: bool,
                                   memory: Memory)
    requires |fs| <= j <= |tt| && ItemsMeaning(t) == tt[j..] && CleanItems(t)
    requires InItems(p, DiffItems(path, i, NoItem, t, caseSensitive, memory))
    ensures Concerns(p, path, Arr(fs), Arr(tt))
    decreases t
  {
    hide Compose, Suffixed, Meaning, Clean, PutsAt;
    if t.Item? {
      FirstElement(tt, j, t);
      if p == Compose("add", Suffixed(path, "-", memory), Some(t.value)) {
        PutAt(p, path, t.value, memory);
        assert PutsAt(p, "add", path + ['/'] + "-", tt[j]);
      } else {
        RestPut(p, path, i + 1, j + 1, t.next, fs, tt, caseSensitive, memory);
      }
    }
  }

  lemma PutAt(p: Json, path: Text, v: Json, memory: Memory)
    requires p == Compose("add", Suffixed(path, "-", memory), Some(v)) && Clean(v)
    ensures PutsAt(p, "add", path + ['/'] + "-", Meaning(v))
  {
    hide Clean, Meaning;
    PlainIsNotEncoded("-", 0, Behind(memory, path, "-"));
  }

  /** kJSONUtils_GeneratePatches: so no patch is about what both trees have alike. */
  lemma GeneratedAreLocal(p: Json, from: Json, to: Json, caseSensitive: bool, memory: Memory)
    requires Clean(from) && Clean(to) && Comparable(Meaning(from), Meaning(to))
    requires Sortable(from, caseSensitive) && Sortable(to, caseSensitive)
    requires InItems(p, GeneratePatches(from, to, caseSensitive, memory).items)
    ensures exists down :: Local(p, [], down, Meaning(from), Meaning(to))
  {
    hide Diff, Local, Meaning, Clean, Comparable, Sortable;
    assert PathText([]) == [];
    DiffIsLocal(p, [], from, to, caseSensitive, memory);
  }
}
