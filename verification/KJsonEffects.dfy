/** What each kind of generated patch does to the meaning of a clean tree. */
module KJsonEffects {
  import opened Octets
  import opened KJson
  import opened KJsonText
  import opened KJsonStrings
  import opened KJsonPatch
  import opened KJsonMeaning

  // ----- the parts of a path

  lemma {:induction false} LastSlashFound(p: Text, k: nat, n: nat)
    requires k < n <= |p| && p[k] == '/'
    requires forall i | k < i < |p| :: p[i] != '/'
    ensures LastSlash(p, n) == Some(k)
    decreases n
  {
    if n - 1 > k { LastSlashFound(p, k, n - 1); }
  }

  lemma {:induction false} NothingToDecode(t: Text, k: nat)
    requires k <= |t| && forall i | 0 <= i < |t| :: t[i] != '~'
    ensures DecodeInPlace(t, k, k) == t
    decreases |t| - k
  {
    if k < |t| { NothingToDecode(t, k + 1); } else { assert t[..k] == t; }
  }

  /** Splitting a path at its last slash gives back parent and child. */
  lemma PathSplits(parent: Text, child: Text)
    requires forall i | 0 <= i < |child| :: child[i] != '/' && child[i] != '~'
    ensures var p := parent + ['/'] + child;
      && p != [] && LastSlash(p, |p|) == Some(|parent|)
      && p[..|parent|] == parent && DecodeInPlace(p[|parent| + 1..], 0, 0) == child
  {
    var p := parent + ['/'] + child;
    forall i | |parent| < i < |p| ensures p[i] != '/' { assert p[i] == child[i - |parent| - 1]; }
    LastSlashFound(p, |parent|, |p|);
    assert p[|parent| + 1..] == child;
    NothingToDecode(child, 0);
  }

  // ----- members and elements

  lemma {:induction false} LookupMeaning(ms: Members, key: Text, caseSensitive: bool)
    requires CleanMembers(ms) && Plain(key) && Fits(key, Keys(ms))
    ensures Lookup(ms, key, caseSensitive).Some? <==> key in MembersMeaning(ms)
    ensures key in MembersMeaning(ms) ==>
      var v := Lookup(ms, key, caseSensitive).value;
      Clean(v) && Meaning(v) == MembersMeaning(ms)[key]
    decreases ms
  {
    hide Plain, CompareStrings, Clean, Meaning;
    if ms.Member? {
      FitsComparison(key, Keys(ms), ms.key, caseSensitive);
      LookupMeaning(ms.next, key, caseSensitive);
    }
  }

  lemma {:induction false} RemoveMemberMeaning(ms: Members, key: Text, caseSensitive: bool)
    requires CleanMembers(ms) && Plain(key) && Fits(key, Keys(ms))
    ensures var r := RemoveMember(ms, key, caseSensitive);
      CleanMembers(r) && Keys(r) == Keys(ms) - {key} && MembersMeaning(r) == MembersMeaning(ms) - {key}
    decreases ms
  {
    hide Plain, Clean, Meaning, CompareStrings;
    if ms.Member? {
      FitsComparison(key, Keys(ms), ms.key, caseSensitive);
      RemoveMemberMeaning(ms.next, key, caseSensitive);
      MeaningKeys(ms.next);
      MeaningKeys(ms);
    }
  }

  lemma {:induction false} AddMemberMeaning(ms: Members, key: Text, v: Json)
    requires CleanMembers(ms) && Plain(key) && Fits(key, Keys(ms)) && Clean(v) && key !in Keys(ms)
    ensures var r := AddMember(ms, key, v);
      CleanMembers(r) && Keys(r) == Keys(ms) + {key} && MembersMeaning(r) == MembersMeaning(ms)[key := Meaning(v)]
    decreases ms
  {
    hide Plain, Clean, Meaning, CompareStrings;
    if ms.Member? {
      Asymmetric(key, ms.key, false);
      AddMemberMeaning(ms.next, key, v);
    }
  }

  lemma {:induction false} RemoveNthMeaning(items: Items, i: nat)
    requires CleanItems(items) && Nth(items, i).Some? && i < ItemsCount(items)
    ensures var r := RemoveNth(items, i);
      && CleanItems(r) && ItemsCount(r) == ItemsCount(items) - 1
      && ItemsMeaning(r) == ItemsMeaning(items)[..i] + ItemsMeaning(items)[i + 1..]
    decreases items
  {
    if i > 0 {
      RemoveNthMeaning(items.next, i - 1);
    }
  }

  lemma {:induction false} InsertNthMeaning(items: Items, i: nat, v: Json)
    requires CleanItems(items) && Clean(v) && i <= ItemsCount(items)
    ensures var r := InsertNth(items, i, v);
      && r.Some? && CleanItems(r.value) && ItemsCount(r.value) == ItemsCount(items) + 1
      && ItemsMeaning(r.value) == ItemsMeaning(items)[..i] + [Meaning(v)] + ItemsMeaning(items)[i..]
    decreases items
  {
    hide Clean, Meaning;
    var s := ItemsMeaning(items);
    if i == 0 {
      assert s[..0] + [Meaning(v)] + s[0..] == [Meaning(v)] + s;
    } else {
      assert InsertNth(items, i, v).Some? ==>
        InsertNth(items, i, v).value == Item(items.value, InsertNth(items.next, i - 1, v).value);
      InsertNthMeaning(items.next, i - 1, v);
      InsertShifts(Meaning(items.value), ItemsMeaning(items.next), i, Meaning(v));
    }
  }

  lemma InsertShifts(head: Tree, tail: seq<Tree>, i: nat, x: Tree)
    requires 0 < i <= |tail| + 1
    ensures var s := [head] + tail;
      [head] + (tail[..i - 1] + [x] + tail[i - 1..]) == s[..i] + [x] + s[i..]
  {
    var s := [head] + tail;
    assert s[..i] == [head] + tail[..i - 1] && s[i..] == tail[i - 1..];
  }

  lemma {:induction false} AppendItemsMeaning(items: Items, v: Json)
    requires CleanItems(items) && Clean(v)
    ensures var r := AppendItems(items, Item(v, NoItem));
      CleanItems(r) && ItemsCount(r) == ItemsCount(items) + 1 && ItemsMeaning(r) == ItemsMeaning(items) + [Meaning(v)]
  {
    if items.Item? { AppendItemsMeaning(items.next, v); }
  }

  // ----- the fields of a composed patch

  lemma DifferentNames(a: Text, b: Text, caseSensitive: bool)
    requires a != [] && b != []
    requires FoldCase(a[0], caseSensitive) != FoldCase(b[0], caseSensitive)
    ensures CompareStrings(a, b, caseSensitive) != 0
  {
  }

  lemma ComposedFields(operation: Text, path: Text, value: Option<Json>, caseSensitive: bool)
    ensures var patch := Compose(operation, path, value);
      && Field(patch, "path", caseSensitive) == Some(String(path))
      && Field(patch, "op", caseSensitive) == Some(String(operation))
      && Field(patch, "value", caseSensitive) == value
  {
    SameString("op", caseSensitive);
    SameString("path", caseSensitive);
    SameString("value", caseSensitive);
    DifferentNames("path", "op", caseSensitive);
    DifferentNames("value", "op", caseSensitive);
    DifferentNames("value", "path", caseSensitive);
    var ms := Compose(operation, path, value).members;
    assert Lookup(ms, "path", caseSensitive) == Lookup(ms.next, "path", caseSensitive);
    assert Lookup(ms, "value", caseSensitive) == Lookup(ms.next, "value", caseSensitive)
        == Lookup(ms.next.next, "value", caseSensitive);
  }

  // ----- effects on objects

  /** A clean tree and a path to an object in it. */
  ghost predicate ObjectAt(doc: Json, ts: seq<Token>, fields: map<Text, Tree>) {
    Clean(doc) && ValidPath(ts) && Locate(Meaning(doc), ts) == Some(Obj(fields))
  }

  lemma FindsObject(doc: Json, ts: seq<Token>, fields: map<Text, Tree>, caseSensitive: bool)
    requires ObjectAt(doc, ts, fields)
    ensures var x := Get(doc, PathText(ts), caseSensitive);
      && x.Some? && x.value.Object? && CleanMembers(x.value.members) && MembersMeaning(x.value.members) == fields
      && Keys(x.value.members) == fields.Keys
  {
    GetFollows(doc, ts, caseSensitive);
    MeaningKeys(Get(doc, PathText(ts), caseSensitive).value.members);
  }

  /** Changing the object found by the path. */
  lemma EditObject(doc: Json, ts: seq<Token>, fields: map<Text, Tree>, members: Members, caseSensitive: bool)
    requires ObjectAt(doc, ts, fields) && CleanMembers(members)
    ensures Get(doc, PathText(ts), caseSensitive).Some?
    ensures var r := SetAt(doc, PathText(ts), Object(members), caseSensitive);
      Clean(r) && Meaning(r) == Put(Meaning(doc), ts, Obj(MembersMeaning(members)))
  {
    SetFollows(doc, ts, Object(members), caseSensitive);
  }

  lemma DetachKey(doc: Json, ts: seq<Token>, fields: map<Text, Tree>, key: Text, caseSensitive: bool)
    requires ObjectAt(doc, ts, fields) && key in fields && Plain(key)
    ensures var r := DetachPath(doc, PathText(ts) + ['/'] + key, caseSensitive);
      && r.Some? && Clean(r.value.1)
      && Meaning(r.value.1) == Put(Meaning(doc), ts, Obj(fields - {key}))
  {
    hide PathText, SetAt, LastSlash, DecodeInPlace, Lookup, RemoveMember, Get, Clean, Meaning, Put, Locate, CleanMembers,
      CompareStrings, Fits, Keys, MembersMeaning, DecodeIndex, Nth, RemoveNth, ObjectAt;
    TokenHasNoSlash(Key(key));
    PathSplits(PathText(ts), key);
    FindsObject(doc, ts, fields, caseSensitive);
    var members := Get(doc, PathText(ts), caseSensitive).value.members;
    KeysFit(members, key);
    LookupMeaning(members, key, false);
    RemoveMemberMeaning(members, key, false);
    EditObject(doc, ts, fields, RemoveMember(members, key, false), caseSensitive);
  }

  lemma AddKey(doc: Json, ts: seq<Token>, fields: map<Text, Tree>, key: Text, v: Json, caseSensitive: bool)
    requires ObjectAt(doc, ts, fields) && Plain(key) && Fits(key, fields.Keys) && Clean(v)
    ensures var (status, r) := AddAt(doc, PathText(ts) + ['/'] + key, v, caseSensitive);
      status == 0 && Clean(r) && Meaning(r) == Put(Meaning(doc), ts, Obj(fields[key := Meaning(v)]))
  {
    hide PathText, SetAt, LastSlash, DecodeInPlace, RemoveMember, AddMember, Get, Clean, Meaning, Put, Locate, CleanMembers,
      CompareStrings, Keys, MembersMeaning, DecodeIndex, InsertNth, ObjectAt;
    TokenHasNoSlash(Key(key));
    PathSplits(PathText(ts), key);
    FindsObject(doc, ts, fields, caseSensitive);
    var members := Get(doc, PathText(ts), caseSensitive).value.members;
    RemoveMemberMeaning(members, key, caseSensitive);
    var kept := RemoveMember(members, key, caseSensitive);
    AddMemberMeaning(kept, key, v);
    assert (fields - {key})[key := Meaning(v)] == fields[key := Meaning(v)];
    EditObject(doc, ts, fields, AddMember(kept, key, v), caseSensitive);
  }

  lemma OwnKeyFits(doc: Json, ts: seq<Token>, fields: map<Text, Tree>, key: Text, caseSensitive: bool)
    requires ObjectAt(doc, ts, fields) && key in fields
    ensures Plain(key) && Fits(key, fields.Keys)
  {
    hide PathText, Get, ObjectAt, CleanMembers;
    FindsObject(doc, ts, fields, caseSensitive);
    KeysFit(Get(doc, PathText(ts), caseSensitive).value.members, key);
  }

  /** "remove" at a member. */
  lemma RemoveKey(doc: Json, ts: seq<Token>, fields: map<Text, Tree>, key: Text, caseSensitive: bool)
    requires ObjectAt(doc, ts, fields) && key in fields && Plain(key)
    ensures var (status, r) := ApplyPatch(doc, Compose("remove", PathText(ts) + ['/'] + key, None), caseSensitive);
      status == 0 && Clean(r) && Meaning(r) == Put(Meaning(doc), ts, Obj(fields - {key}))
  {
    hide PathText, DetachPath, AddAt, Field, Compose, Clean, Meaning, Put, ObjectAt;
    ComposedFields("remove", PathText(ts) + ['/'] + key, None, caseSensitive);
    DetachKey(doc, ts, fields, key, caseSensitive);
  }

  /** "add" at a member, there already or not. */
  lemma InsertKey(doc: Json, ts: seq<Token>, fields: map<Text, Tree>, key: Text, v: Json, caseSensitive: bool)
    requires ObjectAt(doc, ts, fields) && Plain(key) && Fits(key, fields.Keys) && Clean(v)
    ensures var (status, r) := ApplyPatch(doc, Compose("add", PathText(ts) + ['/'] + key, Some(v)), caseSensitive);
      status == 0 && Clean(r) && Meaning(r) == Put(Meaning(doc), ts, Obj(fields[key := Meaning(v)]))
  {
    hide PathText, DetachPath, AddAt, Field, Compose, Clean, Meaning, Put, ObjectAt;
    ComposedFields("add", PathText(ts) + ['/'] + key, Some(v), caseSensitive);
    AddKey(doc, ts, fields, key, v, caseSensitive);
  }

  /** "replace" at a member: detached first, then added at the end. */
  lemma ReplaceKey(doc: Json, ts: seq<Token>, fields: map<Text, Tree>, key: Text, v: Json, caseSensitive: bool)
    requires ObjectAt(doc, ts, fields) && key in fields && Plain(key) && Clean(v)
    ensures var (status, r) := ApplyPatch(doc, Compose("replace", PathText(ts) + ['/'] + key, Some(v)), caseSensitive);
      status == 0 && Clean(r) && Meaning(r) == Put(Meaning(doc), ts, Obj(fields[key := Meaning(v)]))
  {
    hide PathText, DetachPath, AddAt, Field, Compose, Clean, Meaning, Put, Locate;
    var path := PathText(ts) + ['/'] + key;
    ComposedFields("replace", path, Some(v), caseSensitive);
    DetachKey(doc, ts, fields, key, caseSensitive);
    OwnKeyFits(doc, ts, fields, key, caseSensitive);
    var rest := DetachPath(doc, path, caseSensitive).value.1;
    LocatePut(Meaning(doc), ts, Obj(fields - {key}));
    AddKey(rest, ts, fields - {key}, key, v, caseSensitive);
    PutTwice(Meaning(doc), ts, Obj(fields - {key}), Obj(fields[key := Meaning(v)]));
    assert (fields - {key})[key := Meaning(v)] == fields[key := Meaning(v)];
  }

  // ----- effects on arrays

  /** A clean tree and a path to an array in it. */
  ghost predicate ArrayAt(doc: Json, ts: seq<Token>, elements: seq<Tree>) {
    Clean(doc) && ValidPath(ts) && Locate(Meaning(doc), ts) == Some(Arr(elements)) && |elements| < SIZE_MAX_1
  }

  lemma FindsArray(doc: Json, ts: seq<Token>, elements: seq<Tree>, caseSensitive: bool)
    requires ArrayAt(doc, ts, elements)
    ensures var x := Get(doc, PathText(ts), caseSensitive);
      && x.Some? && x.value.Array? && CleanItems(x.value.items)
      && ItemsMeaning(x.value.items) == elements && ItemsCount(x.value.items) == |elements|
  {
    GetFollows(doc, ts, caseSensitive);
  }

  lemma EditArray(doc: Json, ts: seq<Token>, elements: seq<Tree>, items: Items, caseSensitive: bool)
    requires ArrayAt(doc, ts, elements) && CleanItems(items) && ItemsCount(items) < SIZE_MAX_1
    ensures Get(doc, PathText(ts), caseSensitive).Some?
    ensures var r := SetAt(doc, PathText(ts), Array(items), caseSensitive);
      Clean(r) && Meaning(r) == Put(Meaning(doc), ts, Arr(ItemsMeaning(items)))
  {
    SetFollows(doc, ts, Array(items), caseSensitive);
  }

  lemma DecodesAlone(i: nat)
    requires i < SIZE_MAX_1
    ensures DecodeIndex(Decimal(i)) == Some(i) && Decimal(i) != "-"
  {
    DecodesIndex(i, []);
    assert Decimal(i) + [] == Decimal(i);
  }

  lemma DetachIndex(doc: Json, ts: seq<Token>, elements: seq<Tree>, i: nat, caseSensitive: bool)
    requires ArrayAt(doc, ts, elements) && i < |elements|
    ensures var r := DetachPath(doc, PathText(ts) + ['/'] + Decimal(i), caseSensitive);
      && r.Some? && Clean(r.value.1)
      && Meaning(r.value.1) == Put(Meaning(doc), ts, Arr(elements[..i] + elements[i + 1..]))
  {
    hide PathText, SetAt, LastSlash, DecodeInPlace, DecodeIndex, Decimal, Nth, RemoveNth, Get, Clean, Meaning, Put, Locate, CleanItems;
    TokenHasNoSlash(Index(i));
    DecodesAlone(i);
    assert TokenText(Index(i)) == Decimal(i);
    PathSplits(PathText(ts), Decimal(i));
    FindsArray(doc, ts, elements, caseSensitive);
    var items := Get(doc, PathText(ts), caseSensitive).value.items;
    NthMeaning(items, i);
    RemoveNthMeaning(items, i);
    EditArray(doc, ts, elements, RemoveNth(items, i), caseSensitive);
  }

  lemma AddIndex(doc: Json, ts: seq<Token>, elements: seq<Tree>, i: nat, v: Json, caseSensitive: bool)
    requires ArrayAt(doc, ts, elements) && i <= |elements| < SIZE_MAX_1 - 1 && Clean(v)
    ensures var (status, r) := AddAt(doc, PathText(ts) + ['/'] + Decimal(i), v, caseSensitive);
      && status == 0 && Clean(r)
      && Meaning(r) == Put(Meaning(doc), ts, Arr(elements[..i] + [Meaning(v)] + elements[i..]))
  {
    hide PathText, SetAt, LastSlash, DecodeInPlace, DecodeIndex, InsertNth, Get, Clean, Meaning, Put, Locate, CleanItems,
      Decimal, AppendItems, ItemsMeaning, ItemsCount, ArrayAt;
    TokenHasNoSlash(Index(i));
    DecodesAlone(i);
    assert TokenText(Index(i)) == Decimal(i);
    PathSplits(PathText(ts), Decimal(i));
    FindsArray(doc, ts, elements, caseSensitive);
    var items := Get(doc, PathText(ts), caseSensitive).value.items;
    InsertNthMeaning(items, i, v);
    EditArray(doc, ts, elements, InsertNth(items, i, v).value, caseSensitive);
  }

  /** "remove" at an element. */
  lemma RemoveIndex(doc: Json, ts: seq<Token>, elements: seq<Tree>, i: nat, caseSensitive: bool)
    requires ArrayAt(doc, ts, elements) && i < |elements|
    ensures var (status, r) := ApplyPatch(doc, Compose("remove", PathText(ts) + ['/'] + Decimal(i), None), caseSensitive);
      && status == 0 && Clean(r)
      && Meaning(r) == Put(Meaning(doc), ts, Arr(elements[..i] + elements[i + 1..]))
  {
    hide PathText, DetachPath, AddAt, Field, Compose, Clean, Meaning, Put, ArrayAt, Decimal;
    ComposedFields("remove", PathText(ts) + ['/'] + Decimal(i), None, caseSensitive);
    DetachIndex(doc, ts, elements, i, caseSensitive);
  }

  /** "add" at "-": behind the last element. */
  lemma AppendElement(doc: Json, ts: seq<Token>, elements: seq<Tree>, v: Json, caseSensitive: bool)
    requires ArrayAt(doc, ts, elements) && |elements| < SIZE_MAX_1 - 1 && Clean(v)
    ensures var (status, r) := ApplyPatch(doc, Compose("add", PathText(ts) + ['/'] + "-", Some(v)), caseSensitive);
      status == 0 && Clean(r) && Meaning(r) == Put(Meaning(doc), ts, Arr(elements + [Meaning(v)]))
  {
    hide PathText, AddAt, Compose, Clean, Meaning, Put, ArrayAt, ApplyPatch;
    AddPatched(doc, PathText(ts) + ['/'] + "-", v, caseSensitive);
    AddAtEnd(doc, ts, elements, v, caseSensitive);
  }

  /** An "add" below the root comes to the closing part of apply_patch. */
  lemma AddPatched(doc: Json, path: Text, v: Json, caseSensitive: bool)
    requires path != []
    ensures ApplyPatch(doc, Compose("add", path, Some(v)), caseSensitive) == AddAt(doc, path, v, caseSensitive)
  {
    hide AddAt, Field, Compose;
    ComposedFields("add", path, Some(v), caseSensitive);
  }

  lemma AddAtEnd(doc: Json, ts: seq<Token>, elements: seq<Tree>, v: Json, caseSensitive: bool)
    requires ArrayAt(doc, ts, elements) && |elements| < SIZE_MAX_1 - 1 && Clean(v)
    ensures var (status, r) := AddAt(doc, PathText(ts) + ['/'] + "-", v, caseSensitive);
      status == 0 && Clean(r) && Meaning(r) == Put(Meaning(doc), ts, Arr(elements + [Meaning(v)]))
  {
    hide PathText, SetAt, LastSlash, DecodeInPlace, Get, Clean, Meaning, Put, Locate, CleanItems, CompareStrings,
      ItemsMeaning, ItemsCount, ArrayAt, DecodeIndex, InsertNth, AppendItems, Lookup, RemoveMember, AddMember;
    PathSplits(PathText(ts), "-");
    FindsArray(doc, ts, elements, caseSensitive);
    var items := Get(doc, PathText(ts), caseSensitive).value.items;
    AppendItemsMeaning(items, v);
    EditArray(doc, ts, elements, AppendItems(items, Item(v, NoItem)), caseSensitive);
  }

  /** "replace" at an element: detached, then inserted at the same index. */
  lemma ReplaceIndex(doc: Json, ts: seq<Token>, elements: seq<Tree>, i: nat, v: Json, caseSensitive: bool)
    requires ArrayAt(doc, ts, elements) && i < |elements| && Clean(v)
    ensures var (status, r) := ApplyPatch(doc, Compose("replace", PathText(ts) + ['/'] + Decimal(i), Some(v)), caseSensitive);
      status == 0 && Clean(r) && Meaning(r) == Put(Meaning(doc), ts, Arr(elements[i := Meaning(v)]))
  {
    hide PathText, DetachPath, AddAt, Field, Compose, Clean, Meaning, Put, Locate, Decimal;
    var path := PathText(ts) + ['/'] + Decimal(i);
    ComposedFields("replace", path, Some(v), caseSensitive);
    DetachIndex(doc, ts, elements, i, caseSensitive);
    var rest := DetachPath(doc, path, caseSensitive).value.1;
    var fewer := elements[..i] + elements[i + 1..];
    LocatePut(Meaning(doc), ts, Arr(fewer));
    AddIndex(rest, ts, fewer, i, v, caseSensitive);
    assert fewer[..i] + [Meaning(v)] + fewer[i..] == elements[i := Meaning(v)];
    PutTwice(Meaning(doc), ts, Arr(fewer), Arr(elements[i := Meaning(v)]));
  }

  /** "replace" of the root. */
  lemma ReplaceRoot(doc: Json, v: Json, caseSensitive: bool)
    ensures ApplyPatch(doc, Compose("replace", [], Some(v)), caseSensitive) == (0, v)
  {
    ComposedFields("replace", [], Some(v), caseSensitive);
  }

  /** A generated "replace", wherever it points, puts the new meaning at its tokens. */
  lemma ReplaceAnywhere(doc: Json, ts: seq<Token>, v: Json, caseSensitive: bool)
    requires Clean(doc) && ValidPath(ts) && Locate(Meaning(doc), ts).Some? && Clean(v)
    ensures var (status, r) := ApplyPatch(doc, Compose("replace", PathText(ts), Some(v)), caseSensitive);
      status == 0 && Clean(r) && Meaning(r) == Put(Meaning(doc), ts, Meaning(v))
  {
    hide PathText, ApplyPatch, Clean, Meaning, Compose;
    if ts == [] {
      ReplaceRoot(doc, v, caseSensitive);
    } else {
      var parent, token := ts[..|ts| - 1], ts[|ts| - 1];
      assert ts == parent + [token];
      PathTextSnoc(parent, token);
      assert ValidToken(token) && ValidPath(parent);
      LocatePrefix(Meaning(doc), parent, token);
      PutSnoc(Meaning(doc), parent, token, Meaning(v));
      match Locate(Meaning(doc), parent).value
      case Obj(fields) => ReplaceKey(doc, parent, fields, token.name, v, caseSensitive);
      case Arr(elements) =>
        ArraysFit(doc, parent, caseSensitive);
        ReplaceIndex(doc, parent, elements, token.i, v, caseSensitive);
    }
  }

  lemma {:induction false} LocatePrefix(t: Tree, ts: seq<Token>, token: Token)
    requires Locate(t, ts + [token]).Some?
    ensures Locate(t, ts).Some? && Step(Locate(t, ts).value, token).Some?
    decreases |ts|
  {
    if ts == [] {
      assert (ts + [token])[1..] == [] && (ts + [token])[0] == token;
    } else {
      assert (ts + [token])[1..] == ts[1..] + [token] && (ts + [token])[0] == ts[0];
      LocatePrefix(Step(t, ts[0]).value, ts[1..], token);
    }
  }

  lemma ArraysFit(doc: Json, ts: seq<Token>, caseSensitive: bool)
    requires Clean(doc) && ValidPath(ts) && Locate(Meaning(doc), ts).Some? && Locate(Meaning(doc), ts).value.Arr?
    ensures |Locate(Meaning(doc), ts).value.elements| < SIZE_MAX_1
  {
    GetFollows(doc, ts, caseSensitive);
  }
}
