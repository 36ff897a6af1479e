/** The operations of RFC 6902 on the meaning of clean trees: what each does where its path leads somewhere, and its status
    where it does not. */
module KJsonOperations {
  import opened Octets
  import opened KJson
  import opened KJsonText
  import opened KJsonStrings
  import opened KJsonPatch
  import opened KJsonMeaning
  import opened KJsonEffects
  import opened KJsonPointers
  import opened KJsonDiff

  // ----- RFC 6902 on trees without member order

  function AddIn(parent: Tree, token: Token, x: Tree): Option<Tree> {
    match (parent, token)
    case (Obj(fields), Key(name)) => Some(Obj(fields[name := x]))
    case (Arr(elements), Key(name)) => if name == "-" then Some(Arr(elements + [x])) else None
    case (Arr(elements), Index(i)) => if i <= |elements| then Some(Arr(elements[..i] + [x] + elements[i..])) else None
    case _ => None
  }

  function RemoveIn(parent: Tree, token: Token): Option<Tree> {
    match (parent, token)
    case (Obj(fields), Key(name)) => if name in fields then Some(Obj(fields - {name})) else None
    case (Arr(elements), Index(i)) => if i < |elements| then Some(Arr(elements[..i] + elements[i + 1..])) else None
    case _ => None
  }

  /** The tree with x at the place, whether it replaces a member or is inserted between elements. */
  function Added(t: Tree, ts: seq<Token>, x: Tree): Option<Tree> {
    if ts == [] then Some(x)
    else
      match Locate(t, ts[..|ts| - 1])
      case None => None
      case Some(parent) =>
        match AddIn(parent, ts[|ts| - 1], x)
        case None => None
        case Some(p) => Some(Put(t, ts[..|ts| - 1], p))
  }

  function Removed(t: Tree, ts: seq<Token>): Option<Tree> {
    if ts == [] then None
    else
      match Locate(t, ts[..|ts| - 1])
      case None => None
      case Some(parent) =>
        match RemoveIn(parent, ts[|ts| - 1])
        case None => None
        case Some(p) => Some(Put(t, ts[..|ts| - 1], p))
  }

  // ----- removing

  lemma PathEnds(ts: seq<Token>)
    requires ts != [] && ValidPath(ts)
    ensures var front, last := ts[..|ts| - 1], ts[|ts| - 1];
      ts == front + [last] && ValidPath(front) && ValidToken(last) && PathText(ts) == PathText(front) + ['/'] + TokenText(last)
  {
    PathTextSnoc(ts[..|ts| - 1], ts[|ts| - 1]);
    assert ts == ts[..|ts| - 1] + [ts[|ts| - 1]];
  }

  /** The value that a pointer leads to. */
  ghost predicate IsValue(v: Json, t: Tree) {
    Clean(v) && Meaning(v) == t
  }

  lemma DetachesKey(doc: Json, ts: seq<Token>, fields: map<Text, Tree>, key: Text, caseSensitive: bool)
    requires ObjectAt(doc, ts, fields) && key in fields && Plain(key)
    ensures var r := DetachPath(doc, PathText(ts) + ['/'] + key, caseSensitive); r.Some? && IsValue(r.value.0, fields[key])
  {
    hide PathText, SetAt, LastSlash, DecodeInPlace, Lookup, RemoveMember, Get, Clean, Meaning, Put, Locate, CleanMembers,
      CompareStrings, Fits, Keys, MembersMeaning, DecodeIndex, Nth, RemoveNth, ObjectAt;
    TokenHasNoSlash(Key(key));
    PathSplits(PathText(ts), key);
    FindsObject(doc, ts, fields, caseSensitive);
    var members := Get(doc, PathText(ts), caseSensitive).value.members;
    KeysFit(members, key);
    LookupMeaning(members, key, false);
  }

  lemma DetachesIndex(doc: Json, ts: seq<Token>, elements: seq<Tree>, i: nat, caseSensitive: bool)
    requires ArrayAt(doc, ts, elements) && i < |elements|
    ensures var r := DetachPath(doc, PathText(ts) + ['/'] + Decimal(i), caseSensitive); r.Some? && IsValue(r.value.0, elements[i])
  {
    hide PathText, SetAt, LastSlash, DecodeInPlace, DecodeIndex, Decimal, Nth, RemoveNth, Get, Clean, Meaning, Put, Locate, CleanItems,
      Lookup, RemoveMember, CompareStrings;
    TokenHasNoSlash(Index(i));
    DecodesAlone(i);
    assert TokenText(Index(i)) == Decimal(i);
    PathSplits(PathText(ts), Decimal(i));
    FindsArray(doc, ts, elements, caseSensitive);
    NthMeaning(Get(doc, PathText(ts), caseSensitive).value.items, i);
  }

  /** detach_path takes out what the pointer leads to. */
  lemma Detaches(doc: Json, ts: seq<Token>, caseSensitive: bool)
    requires Clean(doc) && ValidPath(ts) && ts != [] && Locate(Meaning(doc), ts).Some?
    ensures var r := DetachPath(doc, PathText(ts), caseSensitive);
      && r.Some? && IsValue(r.value.0, Locate(Meaning(doc), ts).value) && Clean(r.value.1)
      && Removed(Meaning(doc), ts) == Some(Meaning(r.value.1))
  {
    hide PathText, DetachPath, Clean, Meaning, Put, Locate, Decimal, Plain, IsValue;
    PathEnds(ts);
    var front, last := ts[..|ts| - 1], ts[|ts| - 1];
    LocatePrefix(Meaning(doc), front, last);
    LocateSnoc(Meaning(doc), front, last);
    match Locate(Meaning(doc), front).value
    case Obj(fields) =>
      DetachKey(doc, front, fields, last.name, caseSensitive);
      DetachesKey(doc, front, fields, last.name, caseSensitive);
    case Arr(elements) =>
      ArraysFit(doc, front, caseSensitive);
      DetachIndex(doc, front, elements, last.i, caseSensitive);
      DetachesIndex(doc, front, elements, last.i, caseSensitive);
  }

  // ----- adding

  /** Nothing in the place where x goes stands in its way: no name that is the same but for case, no array that is full. */
  ghost predicate Admits(t: Tree, ts: seq<Token>) {
    ts != [] && ValidPath(ts) && Locate(t, ts[..|ts| - 1]).Some?
    && match (Locate(t, ts[..|ts| - 1]).value, ts[|ts| - 1])
       case (Obj(fields), Key(name)) => Fits(name, fields.Keys)
       case (Arr(elements), _) => |elements| < SIZE_MAX_1 - 1
       case _ => true
  }

  /** The closing part of apply_patch puts the value where the path leads. */
  lemma Adds(doc: Json, ts: seq<Token>, v: Json, caseSensitive: bool)
    requires Clean(doc) && Clean(v) && Admits(Meaning(doc), ts) && Added(Meaning(doc), ts, Meaning(v)).Some?
    ensures var (status, r) := AddAt(doc, PathText(ts), v, caseSensitive);
      status == 0 && IsValue(r, Added(Meaning(doc), ts, Meaning(v)).value)
  {
    hide PathText, AddAt, Clean, Meaning, Put, Locate, Decimal, Fits, Plain;
    PathEnds(ts);
    var front, last := ts[..|ts| - 1], ts[|ts| - 1];
    match Locate(Meaning(doc), front).value
    case Obj(fields) => AddKey(doc, front, fields, last.name, v, caseSensitive);
    case Arr(elements) =>
      if last.Index? {
        AddIndex(doc, front, elements, last.i, v, caseSensitive);
      } else {
        AddAtEnd(doc, front, elements, v, caseSensitive);
      }
    case _ =>
  }

  // ----- the patches

  /** A patch with this operation and this path, in whatever order its members stand. */
  ghost predicate Asks(patch: Json, operation: Text, path: Text, caseSensitive: bool) {
    Field(patch, "op", caseSensitive) == Some(String(operation)) && Field(patch, "path", caseSensitive) == Some(String(path))
  }

  ghost predicate From(patch: Json, from: Text, caseSensitive: bool) {
    Field(patch, "from", caseSensitive) == Some(String(from))
  }

  /** The operation that a word names. */
  function Named(operation: Text): Operation {
    if operation == "add" then ADD
    else if operation == "remove" then REMOVE
    else if operation == "replace" then REPLACE
    else if operation == "move" then MOVE
    else if operation == "copy" then COPY
    else if operation == "test" then TEST
    else INVALID
  }

  lemma Names()
    ensures Named("add") == ADD && Named("remove") == REMOVE && Named("replace") == REPLACE
    ensures Named("move") == MOVE && Named("copy") == COPY && Named("test") == TEST
  {
  }

  lemma Dispatches(doc: Json, patch: Json, operation: Text, path: Text, caseSensitive: bool)
    requires Asks(patch, operation, path, caseSensitive)
    ensures ApplyPatch(doc, patch, caseSensitive) == ApplyAt(doc, patch, path, caseSensitive)
    ensures DecodeOperation(patch, caseSensitive) == Named(operation)
    ensures Named("add") == ADD && Named("remove") == REMOVE && Named("replace") == REPLACE
    ensures Named("move") == MOVE && Named("copy") == COPY && Named("test") == TEST
  {
    hide Field, ApplyAt;
    Names();
  }

  /** "copy": the value that `from` leads to is added at the path, and stays where it is. */
  lemma CopyCopies(doc: Json, patch: Json, from: seq<Token>, to: seq<Token>, caseSensitive: bool)
    requires Clean(doc) && ValidPath(from) && Locate(Meaning(doc), from).Some? && Admits(Meaning(doc), to)
    requires Asks(patch, "copy", PathText(to), caseSensitive) && From(patch, PathText(from), caseSensitive)
    requires Added(Meaning(doc), to, Locate(Meaning(doc), from).value).Some?
    ensures var (status, r) := ApplyPatch(doc, patch, caseSensitive);
      status == 0 && IsValue(r, Added(Meaning(doc), to, Locate(Meaning(doc), from).value).value)
  {
    hide DecodeOperation, ApplyPatch, Named, PathText, AddAt, DetachPath, Field, Get, Clean, Meaning, Locate, Added, Admits;
    Dispatches(doc, patch, "copy", PathText(to), caseSensitive);
    GetFollows(doc, from, caseSensitive);
    Adds(doc, to, Get(doc, PathText(from), caseSensitive).value, caseSensitive);
  }

  /** "move": the value is taken out where `from` leads to, and then added at the path. */
  lemma MoveMoves(doc: Json, patch: Json, from: seq<Token>, to: seq<Token>, caseSensitive: bool)
    requires Clean(doc) && ValidPath(from) && from != [] && Locate(Meaning(doc), from).Some?
    requires Asks(patch, "move", PathText(to), caseSensitive) && From(patch, PathText(from), caseSensitive)
    requires var rest := Removed(Meaning(doc), from);
      rest.Some? && Admits(rest.value, to) && Added(rest.value, to, Locate(Meaning(doc), from).value).Some?
    ensures var (status, r) := ApplyPatch(doc, patch, caseSensitive);
      status == 0 && IsValue(r, Added(Removed(Meaning(doc), from).value, to, Locate(Meaning(doc), from).value).value)
  {
    hide DecodeOperation, ApplyPatch, Named, PathText, AddAt, DetachPath, Field, Clean, Meaning, Locate, Added, Admits, Removed;
    Dispatches(doc, patch, "move", PathText(to), caseSensitive);
    Detaches(doc, from, caseSensitive);
    var (v, rest) := DetachPath(doc, PathText(from), caseSensitive).value;
    Adds(rest, to, v, caseSensitive);
  }

  /** "remove" and "add" of any place. */
  lemma RemoveRemoves(doc: Json, patch: Json, ts: seq<Token>, caseSensitive: bool)
    requires Clean(doc) && ValidPath(ts) && ts != [] && Locate(Meaning(doc), ts).Some?
    requires Asks(patch, "remove", PathText(ts), caseSensitive)
    ensures var (status, r) := ApplyPatch(doc, patch, caseSensitive);
      status == 0 && Removed(Meaning(doc), ts).Some? && IsValue(r, Removed(Meaning(doc), ts).value)
  {
    hide DecodeOperation, ApplyPatch, Named, PathText, DetachPath, Field, Clean, Meaning, Locate, Removed;
    Dispatches(doc, patch, "remove", PathText(ts), caseSensitive);
    NotRoot(ts);
    Detaches(doc, ts, caseSensitive);
  }

  lemma NotRoot(ts: seq<Token>)
    requires ts != []
    ensures PathText(ts) != []
  {
  }

  lemma AddAdds(doc: Json, patch: Json, ts: seq<Token>, v: Json, caseSensitive: bool)
    requires Clean(doc) && Clean(v) && Admits(Meaning(doc), ts) && Added(Meaning(doc), ts, Meaning(v)).Some?
    requires Asks(patch, "add", PathText(ts), caseSensitive) && Field(patch, "value", caseSensitive) == Some(v)
    ensures var (status, r) := ApplyPatch(doc, patch, caseSensitive);
      status == 0 && IsValue(r, Added(Meaning(doc), ts, Meaning(v)).value)
  {
    hide DecodeOperation, ApplyPatch, Named, PathText, AddAt, DetachPath, Field, Clean, Meaning, Locate, Added;
    Dispatches(doc, patch, "add", PathText(ts), caseSensitive);
    NotRoot(ts);
    Adds(doc, ts, v, caseSensitive);
  }

  /** "add" and "replace" of the root. */
  lemma RootIsReplaced(doc: Json, patch: Json, v: Json, caseSensitive: bool)
    requires Asks(patch, "add", [], caseSensitive) || Asks(patch, "replace", [], caseSensitive)
    requires Field(patch, "value", caseSensitive) == Some(v)
    ensures ApplyPatch(doc, patch, caseSensitive) == (0, v)
  {
    hide Field;
  }

  /** "replace" of any place but the root. */
  lemma ReplaceReplaces(doc: Json, patch: Json, ts: seq<Token>, v: Json, caseSensitive: bool)
    requires Clean(doc) && Clean(v) && ValidPath(ts) && ts != [] && Locate(Meaning(doc), ts).Some?
    requires Asks(patch, "replace", PathText(ts), caseSensitive) && Field(patch, "value", caseSensitive) == Some(v)
    ensures var (status, r) := ApplyPatch(doc, patch, caseSensitive); status == 0 && IsValue(r, Put(Meaning(doc), ts, Meaning(v)))
  {
    hide PathText, ApplyPatch, Field, Clean, Meaning, Locate, Put, Compose;
    ReplaceAnywhere(doc, ts, v, caseSensitive);
    ComposedFields("replace", PathText(ts), Some(v), caseSensitive);
    NotRoot(ts);
    SameReplace(doc, patch, Compose("replace", PathText(ts), Some(v)), PathText(ts), v, caseSensitive);
  }

  lemma SameReplace(doc: Json, patch: Json, other: Json, path: Text, v: Json, caseSensitive: bool)
    requires Asks(patch, "replace", path, caseSensitive) && Field(patch, "value", caseSensitive) == Some(v)
    requires Asks(other, "replace", path, caseSensitive) && Field(other, "value", caseSensitive) == Some(v)
    ensures ApplyPatch(doc, patch, caseSensitive) == ApplyPatch(doc, other, caseSensitive)
  {
    hide DecodeOperation, ApplyPatch, Named, Field, DetachPath, AddAt;
    Dispatches(doc, patch, "replace", path, caseSensitive);
    Dispatches(doc, other, "replace", path, caseSensitive);
  }

  // ----- paths that lead nowhere

  /** The first token that goes nowhere: a name that is not there, not even but for case; an index behind the end; a token that
      is no index, in an array; and any token below a scalar. */
  ghost predicate Misses(t: Tree, ts: seq<Token>)
    decreases |ts|
  {
    ts != [] && match (t, ts[0])
      case (Obj(fields), Key(name)) => if name in fields then Misses(fields[name], ts[1..]) else Fits(name, fields.Keys)
      case (Obj(fields), Index(i)) => Decimal(i) !in fields && Fits(Decimal(i), fields.Keys)
      case (Arr(elements), Index(i)) => i >= |elements| || Misses(elements[i], ts[1..])
      case (Arr(_), Key(name)) => name != [] && !('0' <= name[0] <= '9')
      case (Leaf(_), _) => true
  }

  lemma FitsAbsent(ms: Members, name: Text, rest: Text, caseSensitive: bool)
    requires CleanMembers(ms) && Plain(name) && Fits(name, Keys(ms)) && name !in Keys(ms) && Rest(rest)
    ensures FindToken(ms, name + rest, caseSensitive) == None && Lookup(ms, name, caseSensitive) == None
  {
    MeaningKeys(ms);
    FindTokenMeaning(ms, name, rest, caseSensitive);
    LookupMeaning(ms, name, caseSensitive);
  }

  lemma NoIndex(name: Text, rest: Text)
    requires Plain(name) && name != [] && !('0' <= name[0] <= '9') && Rest(rest)
    ensures DecodeIndex(name + rest) == None
  {
    IndexRead(name, rest);
  }

  lemma TokenPlain(token: Token)
    requires ValidToken(token)
    ensures Plain(TokenText(token))
  {
    if token.Index? { DecimalIsPlain(token.i); }
  }

  /** The child that a missing first token asks for is not there. */
  lemma ChildMissing(j: Json, token: Token, rest: Text, caseSensitive: bool)
    requires Clean(j) && ValidToken(token) && Rest(rest) && Step(Meaning(j), token).None? && Misses(Meaning(j), [token])
    ensures Child(j, TokenText(token) + rest, caseSensitive) == None
  {
    TokenPlain(token);
    match j
    case Object(members) =>
      MeaningKeys(members);
      FitsAbsent(members, TokenText(token), rest, caseSensitive);
    case Array(items) =>
      match token {
        case Key(name) => NoIndex(name, rest);
        case Index(i) =>
          DecodesIndex(i, rest);
          NthMeaning(items, i);
      }
    case _ =>
  }

  lemma MissesFirst(t: Tree, ts: seq<Token>)
    requires Misses(t, ts)
    ensures Step(t, ts[0]).None? ==> Misses(t, [ts[0]])
    ensures Step(t, ts[0]).Some? ==> Misses(Step(t, ts[0]).value, ts[1..])
  {
    hide Fits;
  }

  /** get_item_from_pointer finds nothing there. */
  lemma {:induction false} GetMisses(j: Json, ts: seq<Token>, caseSensitive: bool)
    requires Clean(j) && ValidPath(ts) && Misses(Meaning(j), ts)
    ensures Get(j, PathText(ts), caseSensitive) == None
    decreases |ts|
  {
    hide Clean, Meaning, Child, PathText, Misses;
    MissingIsSome(Meaning(j), ts);
    PathUnfolds(ts);
    MissesFirst(Meaning(j), ts);
    var rest := PathText(ts[1..]);
    if Step(Meaning(j), ts[0]).None? {
      ChildMissing(j, ts[0], rest, caseSensitive);
    } else {
      ChildFollows(j, ts[0], rest, caseSensitive);
      GetMisses(Child(j, PathText(ts)[1..], caseSensitive).value, ts[1..], caseSensitive);
    }
  }

  lemma MissingIsSome(t: Tree, ts: seq<Token>)
    requires Misses(t, ts)
    ensures ts != []
  {
  }

  /** A path misses before its last token, or at it. */
  lemma {:induction false} MissesAt(t: Tree, ts: seq<Token>)
    requires Misses(t, ts)
    ensures var front, last := ts[..|ts| - 1], ts[|ts| - 1];
      Misses(t, front) || (Locate(t, front).Some? && Step(Locate(t, front).value, last).None? && Misses(Locate(t, front).value, [last]))
    decreases |ts|
  {
    hide Fits;
    MissesFirst(t, ts);
    var front, last := ts[..|ts| - 1], ts[|ts| - 1];
    if |ts| == 1 {
      assert front == [] && ts == [last] && ts[1..] == [];
    } else {
      assert front[0] == ts[0] && front[1..] == ts[1..][..|ts| - 2] && ts[1..][|ts| - 2] == last;
      if Step(t, ts[0]).Some? { MissesAt(Step(t, ts[0]).value, ts[1..]); }
    }
  }

  /** Nor does detach_path. */
  lemma DetachMisses(doc: Json, ts: seq<Token>, caseSensitive: bool)
    requires Clean(doc) && ValidPath(ts) && Misses(Meaning(doc), ts)
    ensures DetachPath(doc, PathText(ts), caseSensitive) == None
  {
    hide PathText, DetachPath, Clean, Meaning, Locate, Misses, Get, TokenText;
    MissingIsSome(Meaning(doc), ts);
    PathEnds(ts);
    MissesAt(Meaning(doc), ts);
    var front, last := ts[..|ts| - 1], ts[|ts| - 1];
    if Misses(Meaning(doc), front) {
      GetMisses(doc, front, caseSensitive);
      NoParent(doc, PathText(front), last, caseSensitive);
    } else {
      GetFollows(doc, front, caseSensitive);
      NoKid(doc, PathText(front), last, caseSensitive);
    }
  }

  lemma NoParent(doc: Json, parent: Text, last: Token, caseSensitive: bool)
    requires ValidToken(last) && Get(doc, parent, caseSensitive).None?
    ensures DetachPath(doc, parent + ['/'] + TokenText(last), caseSensitive) == None
    ensures forall v :: AddAt(doc, parent + ['/'] + TokenText(last), v, caseSensitive) == (9, doc)
  {
    hide Get, LastSlash, DecodeInPlace, SetAt, TokenText, DecodeIndex, Lookup;
    TokenHasNoSlash(last);
    PathSplits(parent, TokenText(last));
  }

  lemma NoKid(doc: Json, parent: Text, last: Token, caseSensitive: bool)
    requires ValidToken(last) && Get(doc, parent, caseSensitive).Some?
    requires var x := Get(doc, parent, caseSensitive).value; Clean(x) && Step(Meaning(x), last).None? && Misses(Meaning(x), [last])
    ensures DetachPath(doc, parent + ['/'] + TokenText(last), caseSensitive) == None
  {
    hide Get, LastSlash, DecodeInPlace, SetAt, DecodeIndex, Lookup, Misses, Clean, Meaning;
    TokenHasNoSlash(last);
    PathSplits(parent, TokenText(last));
    var x := Get(doc, parent, caseSensitive).value;
    KidMissing(x, last);
  }

  lemma KidMissing(x: Json, token: Token)
    requires Clean(x) && ValidToken(token) && Step(Meaning(x), token).None? && Misses(Meaning(x), [token])
    ensures x.Object? ==> Lookup(x.members, TokenText(token), false) == None
    ensures x.Array? ==> DecodeIndex(TokenText(token)) == None || Nth(x.items, DecodeIndex(TokenText(token)).value) == None
  {
    TokenPlain(token);
    var t := TokenText(token);
    assert t + [] == t;
    match x
    case Object(members) =>
      MeaningKeys(members);
      FitsAbsent(members, t, [], false);
    case Array(items) =>
      match token {
        case Key(name) => NoIndex(name, []);
        case Index(i) =>
          DecodesIndex(i, []);
          NthMeaning(items, i);
      }
    case _ =>
  }

  /** 13 for "remove" and "replace", and nothing changes. */
  lemma NothingToRemove(doc: Json, patch: Json, ts: seq<Token>, caseSensitive: bool)
    requires Clean(doc) && ValidPath(ts) && Misses(Meaning(doc), ts)
    requires Asks(patch, "remove", PathText(ts), caseSensitive) || Asks(patch, "replace", PathText(ts), caseSensitive)
    ensures ApplyPatch(doc, patch, caseSensitive) == (13, doc)
  {
    hide DecodeOperation, ApplyPatch, Named, PathText, DetachPath, AddAt, Get, Field, Clean, Meaning, Misses;
    Dispatches(doc, patch, if Asks(patch, "remove", PathText(ts), caseSensitive) then "remove" else "replace", PathText(ts), caseSensitive);
    MissingIsSome(Meaning(doc), ts);
    NotRoot(ts);
    DetachMisses(doc, ts, caseSensitive);
  }

  /** 1 for "test". */
  lemma NothingToTest(doc: Json, patch: Json, ts: seq<Token>, caseSensitive: bool)
    requires Clean(doc) && ValidPath(ts) && Misses(Meaning(doc), ts) && Asks(patch, "test", PathText(ts), caseSensitive)
    ensures ApplyPatch(doc, patch, caseSensitive) == (1, doc)
  {
    hide DecodeOperation, ApplyPatch, Named, PathText, DetachPath, AddAt, Get, Field, Clean, Meaning, Misses;
    Dispatches(doc, patch, "test", PathText(ts), caseSensitive);
    GetMisses(doc, ts, caseSensitive);
  }

  /** 5 for "copy" and "move". */
  lemma NothingToTake(doc: Json, patch: Json, from: seq<Token>, path: Text, caseSensitive: bool)
    requires Clean(doc) && ValidPath(from) && Misses(Meaning(doc), from) && From(patch, PathText(from), caseSensitive)
    requires Asks(patch, "copy", path, caseSensitive) || Asks(patch, "move", path, caseSensitive)
    ensures ApplyPatch(doc, patch, caseSensitive) == (5, doc)
  {
    hide DecodeOperation, ApplyPatch, Named, PathText, DetachPath, AddAt, Get, Field, Clean, Meaning, Misses;
    Dispatches(doc, patch, if Asks(patch, "copy", path, caseSensitive) then "copy" else "move", path, caseSensitive);
    DetachMisses(doc, from, caseSensitive);
    GetMisses(doc, from, caseSensitive);
  }

  /** Where nothing can be added: 9 without a parent that has kids, 10 behind the end of an array, 11 for what is no index. */
  ghost predicate Refuses(t: Tree, ts: seq<Token>, status: int) {
    && ts != [] && ValidPath(ts)
    && var front, last := ts[..|ts| - 1], ts[|ts| - 1];
    if status == 9 then Misses(t, front) || (Locate(t, front).Some? && Locate(t, front).value.Leaf?)
    else
      && Locate(t, front).Some? && Locate(t, front).value.Arr?
      && if status == 10 then last.Index? && last.i > |Locate(t, front).value.elements|
         else status == 11 && last.Key? && last.name != [] && last.name != "-" && !('0' <= last.name[0] <= '9')
  }

  lemma AddRefused(doc: Json, ts: seq<Token>, v: Json, status: int, caseSensitive: bool)
    requires Clean(doc) && Refuses(Meaning(doc), ts, status)
    ensures AddAt(doc, PathText(ts), v, caseSensitive) == (status, doc)
  {
    hide PathText, AddAt, Clean, Meaning, Locate, Misses, Get, TokenText, Plain;
    PathEnds(ts);
    var front, last := ts[..|ts| - 1], ts[|ts| - 1];
    if status == 9 && Misses(Meaning(doc), front) {
      GetMisses(doc, front, caseSensitive);
      NoParent(doc, PathText(front), last, caseSensitive);
    } else {
      GetFollows(doc, front, caseSensitive);
      NoPlace(doc, PathText(front), last, v, status, caseSensitive);
    }
  }

  lemma NoPlace(doc: Json, parent: Text, last: Token, v: Json, status: int, caseSensitive: bool)
    requires ValidToken(last) && Get(doc, parent, caseSensitive).Some? && Clean(Get(doc, parent, caseSensitive).value)
    requires var t := Meaning(Get(doc, parent, caseSensitive).value);
      if status == 9 then t.Leaf?
      else t.Arr? && if status == 10 then last.Index? && last.i > |t.elements|
                     else status == 11 && last.Key? && last.name != [] && last.name != "-" && !('0' <= last.name[0] <= '9')
    ensures AddAt(doc, parent + ['/'] + TokenText(last), v, caseSensitive) == (status, doc)
  {
    hide Get, LastSlash, DecodeInPlace, SetAt, DecodeIndex, InsertNth, RemoveMember, AddMember, Plain;
    TokenHasNoSlash(last);
    PathSplits(parent, TokenText(last));
    var x := Get(doc, parent, caseSensitive).value;
    if status == 10 {
      DecodesAlone(last.i);
      BehindEnd(x.items, last.i, v);
    } else if status == 11 {
      NoIndex(last.name, []);
      assert last.name + [] == last.name;
    }
  }

  lemma {:induction false} BehindEnd(items: Items, i: nat, v: Json)
    requires i > ItemsCount(items)
    ensures InsertNth(items, i, v) == None
  {
    if items.Item? { BehindEnd(items.next, i - 1, v); }
  }

  /** The status of "add" to such a place. */
  lemma AddFails(doc: Json, patch: Json, ts: seq<Token>, status: int, caseSensitive: bool)
    requires Clean(doc) && Refuses(Meaning(doc), ts, status)
    requires Asks(patch, "add", PathText(ts), caseSensitive) && Field(patch, "value", caseSensitive).Some?
    ensures ApplyPatch(doc, patch, caseSensitive) == (status, doc)
  {
    hide DecodeOperation, ApplyPatch, Named, PathText, AddAt, DetachPath, Field, Clean, Meaning, Refuses;
    Dispatches(doc, patch, "add", PathText(ts), caseSensitive);
    NotRefusedAtRoot(Meaning(doc), ts, status);
    NotRoot(ts);
    AddRefused(doc, ts, Field(patch, "value", caseSensitive).value, status, caseSensitive);
  }

  /** The status of "copy" to such a place. */
  lemma CopyFails(doc: Json, patch: Json, from: seq<Token>, to: seq<Token>, status: int, caseSensitive: bool)
    requires Clean(doc) && ValidPath(from) && Locate(Meaning(doc), from).Some? && Refuses(Meaning(doc), to, status)
    requires Asks(patch, "copy", PathText(to), caseSensitive) && From(patch, PathText(from), caseSensitive)
    ensures ApplyPatch(doc, patch, caseSensitive) == (status, doc)
  {
    hide DecodeOperation, ApplyPatch, Named, PathText, AddAt, DetachPath, Field, Get, Clean, Meaning, Locate, Refuses;
    Dispatches(doc, patch, "copy", PathText(to), caseSensitive);
    GetFollows(doc, from, caseSensitive);
    AddRefused(doc, to, Get(doc, PathText(from), caseSensitive).value, status, caseSensitive);
  }

  lemma NotRefusedAtRoot(t: Tree, ts: seq<Token>, status: int)
    requires Refuses(t, ts, status)
    ensures ts != []
  {
  }

  /** The status of "move" to such a place; the value has been taken out by then, and is gone. */
  lemma MoveFails(doc: Json, patch: Json, from: seq<Token>, to: seq<Token>, status: int, caseSensitive: bool)
    requires Clean(doc) && ValidPath(from) && from != [] && Locate(Meaning(doc), from).Some?
    requires Asks(patch, "move", PathText(to), caseSensitive) && From(patch, PathText(from), caseSensitive)
    requires Removed(Meaning(doc), from).Some? && Refuses(Removed(Meaning(doc), from).value, to, status)
    ensures var (s, r) := ApplyPatch(doc, patch, caseSensitive); s == status && IsValue(r, Removed(Meaning(doc), from).value)
  {
    hide DecodeOperation, ApplyPatch, Named, PathText, AddAt, DetachPath, Field, Clean, Meaning, Locate, Refuses, Removed;
    Dispatches(doc, patch, "move", PathText(to), caseSensitive);
    Detaches(doc, from, caseSensitive);
    var (v, rest) := DetachPath(doc, PathText(from), caseSensitive).value;
    AddRefused(rest, to, v, status, caseSensitive);
  }

  /** Patches that are none: 2 without a path, 3 for an operation that is none of the six, and 7 without a value for "add". */
  lemma NotAPatch(doc: Json, patch: Json, operation: Text, path: Text, caseSensitive: bool)
    ensures (Field(patch, "path", caseSensitive).Some? ==> !Field(patch, "path", caseSensitive).value.String?) ==>
              ApplyPatch(doc, patch, caseSensitive) == (2, doc)
    ensures Asks(patch, operation, path, caseSensitive) ==>
      && (operation !in ["add", "remove", "replace", "move", "copy", "test"] ==> ApplyPatch(doc, patch, caseSensitive) == (3, doc))
      && (operation == "add" && Field(patch, "value", caseSensitive).None? ==> ApplyPatch(doc, patch, caseSensitive) == (7, doc))
  {
    hide Field, DecodeOperation, Named, AddAt, DetachPath;
    if Asks(patch, operation, path, caseSensitive) {
      Dispatches(doc, patch, operation, path, caseSensitive);
      NamesNone(operation);
    }
  }

  lemma NamesNone(operation: Text)
    ensures Named(operation) == INVALID <==> operation !in ["add", "remove", "replace", "move", "copy", "test"]
  {
  }

  /** 4 without `from` for "copy" and "move"; and the root, which they cannot go to, nor "move" come from. */
  lemma NotAMove(doc: Json, patch: Json, operation: Text, path: Text, caseSensitive: bool)
    requires Asks(patch, operation, path, caseSensitive) && (operation == "copy" || operation == "move")
    ensures Field(patch, "from", caseSensitive).None? ==> ApplyPatch(doc, patch, caseSensitive) == (4, doc)
    ensures operation == "move" && From(patch, [], caseSensitive) ==> ApplyPatch(doc, patch, caseSensitive) == (5, doc)
    ensures operation == "copy" && path == [] && From(patch, [], caseSensitive) ==> ApplyPatch(doc, patch, caseSensitive) == (9, doc)
  {
    hide Field, DecodeOperation, ApplyPatch, Named;
    Dispatches(doc, patch, operation, path, caseSensitive);
    assert LastSlash([], 0) == None;
  }

  // ----- names that are the same but for case

  /** detach_path does not regard case even when the patch is applied with regard to it: what leaves is the first member whose
      name is the same but for case. */
  lemma DetachIgnoresCase(patch: Json, a: Members, k: Text, v: Json, b: Members, key: Text, caseSensitive: bool)
    requires Plain(key) && CompareStrings(key, k, false) == 0 && forall l | l in Keys(a) :: CompareStrings(key, l, false) != 0
    requires Asks(patch, "remove", ['/'] + key, caseSensitive)
    ensures ApplyPatch(Object(AppendMembers(a, Member(k, v, b))), patch, caseSensitive) == (0, Object(AppendMembers(a, b)))
  {
    hide Field, CompareStrings, DecodeOperation, ApplyPatch, Named, LastSlash, DecodeInPlace;
    var ms := AppendMembers(a, Member(k, v, b));
    Dispatches(Object(ms), patch, "remove", ['/'] + key, caseSensitive);
    assert forall i | 0 <= i < |key| :: key[i] != '/' && key[i] != '~';
    PathSplits([], key);
    assert [] + ['/'] + key == ['/'] + key;
    FirstLeaves(a, k, v, b, key);
  }

  lemma {:induction false} FirstLeaves(a: Members, k: Text, v: Json, b: Members, key: Text)
    requires CompareStrings(key, k, false) == 0 && forall l | l in Keys(a) :: CompareStrings(key, l, false) != 0
    ensures var ms := AppendMembers(a, Member(k, v, b)); Lookup(ms, key, false) == Some(v) && RemoveMember(ms, key, false) == AppendMembers(a, b)
    decreases a
  {
    hide CompareStrings;
    if a.Member? { FirstLeaves(a.next, k, v, b, key); }
  }

  // ----- several patches

  function Listed(items: Items): seq<Json> {
    match items
    case NoItem => []
    case Item(v, next) => [v] + Listed(next)
  }

  /** Each patch of an array is applied to the document that the one before it left, up to the first that fails: its status is
      returned, and what it left stays. What is no array is refused with status 1. */
  lemma {:induction false} PatchesInOrder(doc: Json, patches: Json, caseSensitive: bool) returns (docs: seq<Json>)
    ensures !patches.Array? ==> ApplyPatches(doc, patches, caseSensitive) == (1, doc)
    ensures patches.Array? ==>
      var list := Listed(patches.items); var n := |docs| - 1;
      && 0 <= n <= |list| && docs[0] == doc
      && (forall i | 0 <= i < n :: ApplyPatch(docs[i], list[i], caseSensitive) == (0, docs[i + 1]))
      && (n < |list| ==> ApplyPatch(docs[n], list[n], caseSensitive).0 != 0)
      && ApplyPatches(doc, patches, caseSensitive) ==
         if n < |list| then ApplyPatch(docs[n], list[n], caseSensitive) else (0, docs[n])
    decreases if patches.Array? then patches.items else NoItem
  {
    hide ApplyPatch;
    docs := [doc];
    if patches.Array? && patches.items.Item? {
      var (status, changed) := ApplyPatch(doc, patches.items.value, caseSensitive);
      if status == 0 {
        var rest := PatchesInOrder(changed, Array(patches.items.next), caseSensitive);
        docs := [doc] + rest;
        var list := Listed(patches.items);
        forall i | 0 <= i < |rest| ensures ApplyPatch(docs[i], list[i], caseSensitive) == (0, docs[i + 1]) {
          if i > 0 { assert list[i] == Listed(patches.items.next)[i - 1] && docs[i] == rest[i - 1]; }
        }
      }
    }
  }

  // ----- the order of members

  function Pairs(ms: Members): seq<(Text, Json)> {
    match ms
    case NoMember => []
    case Member(k, v, next) => [(k, v)] + Pairs(next)
  }

  /** The place of the first member of that name, the number of members if there is none. */
  ghost predicate FirstOf(pairs: seq<(Text, Json)>, name: Text, caseSensitive: bool, i: nat) {
    && i <= |pairs| && (forall j | 0 <= j < i :: CompareStrings(name, pairs[j].0, caseSensitive) != 0)
    && (i < |pairs| ==> CompareStrings(name, pairs[i].0, caseSensitive) == 0)
  }

  /** Without the pair at the place, if there is one. */
  function Without(pairs: seq<(Text, Json)>, i: nat): seq<(Text, Json)> {
    if i < |pairs| then pairs[..i] + pairs[i + 1..] else pairs
  }

  lemma {:induction false} RemovedPair(ms: Members, name: Text, caseSensitive: bool) returns (i: nat)
    ensures FirstOf(Pairs(ms), name, caseSensitive, i)
    ensures Pairs(RemoveMember(ms, name, caseSensitive)) == Without(Pairs(ms), i)
    decreases ms
  {
    hide CompareStrings;
    i := 0;
    if ms.Member? && CompareStrings(name, ms.key, caseSensitive) != 0 {
      var k := RemovedPair(ms.next, name, caseSensitive);
      i := k + 1;
      var p := Pairs(ms.next);
      assert Pairs(ms) == [(ms.key, ms.value)] + p;
      if k < |p| { assert ([(ms.key, ms.value)] + p)[..i] == [(ms.key, ms.value)] + p[..k]; }
    }
  }

  lemma {:induction false} AddedPair(ms: Members, name: Text, v: Json)
    ensures Pairs(AddMember(ms, name, v)) == Pairs(ms) + [(name, v)]
    decreases ms
  {
    if ms.Member? { AddedPair(ms.next, name, v); }
  }

  /** "add" in an object puts the member behind all others, which stay in their order; of several with the name only the first
      makes room. */
  lemma AddedComesLast(ms: Members, name: Text, v: Json, patch: Json, caseSensitive: bool) returns (i: nat)
    requires Plain(name) && Asks(patch, "add", ['/'] + name, caseSensitive) && Field(patch, "value", caseSensitive) == Some(v)
    ensures FirstOf(Pairs(ms), name, caseSensitive, i)
    ensures var (status, r) := ApplyPatch(Object(ms), patch, caseSensitive);
      status == 0 && r.Object? && Pairs(r.members) == Without(Pairs(ms), i) + [(name, v)]
  {
    hide CompareStrings, Field, LastSlash, DecodeInPlace, RemoveMember, AddMember, Lookup;
    OneToken(name);
    i := RemovedPair(ms, name, caseSensitive);
    AddedPair(RemoveMember(ms, name, caseSensitive), name, v);
  }

  /** "remove" takes the first member of that name in any case, and the others stay in their order. */
  lemma RemovedLeavesOrder(ms: Members, name: Text, patch: Json, caseSensitive: bool) returns (i: nat)
    requires Plain(name) && Asks(patch, "remove", ['/'] + name, caseSensitive)
    ensures FirstOf(Pairs(ms), name, false, i)
    ensures var (status, r) := ApplyPatch(Object(ms), patch, caseSensitive);
      if i < |Pairs(ms)| then status == 0 && r.Object? && Pairs(r.members) == Without(Pairs(ms), i) else status == 13 && r == Object(ms)
  {
    hide CompareStrings, Field, LastSlash, DecodeInPlace, RemoveMember, AddMember, Lookup;
    OneToken(name);
    i := RemovedPair(ms, name, false);
    FoundPair(ms, name, i);
  }

  lemma {:induction false} FoundPair(ms: Members, name: Text, i: nat)
    requires FirstOf(Pairs(ms), name, false, i)
    ensures Lookup(ms, name, false).Some? <==> i < |Pairs(ms)|
    decreases ms
  {
    hide CompareStrings;
    if ms.Member? {
      assert Pairs(ms)[0] == (ms.key, ms.value) && Pairs(ms)[1..] == Pairs(ms.next);
      if i > 0 {
        forall j | 0 <= j < i - 1 ensures CompareStrings(name, Pairs(ms.next)[j].0, false) != 0 { assert Pairs(ms)[j + 1] == Pairs(ms.next)[j]; }
        FoundPair(ms.next, name, i - 1);
      }
    }
  }

  lemma OneToken(name: Text)
    requires Plain(name)
    ensures var path := ['/'] + name;
      path != [] && LastSlash(path, |path|) == Some(0) && path[..0] == [] && DecodeInPlace(path[1..], 0, 0) == name
  {
    assert ['/'] + name == [] + ['/'] + name;
    PathSplits([], name);
  }

  // ----- patches spelled out

  /** Such a patch, member by member. */
  lemma MovingFields(operation: Text, from: Text, path: Text, caseSensitive: bool)
    ensures var patch := Object(Member("op", String(operation), Member("from", String(from), Member("path", String(path), NoMember))));
      Asks(patch, operation, path, caseSensitive) && From(patch, from, caseSensitive)
  {
    var third := Member("path", String(path), NoMember);
    var second := Member("from", String(from), third);
    var ms := Member("op", String(operation), second);
    SameString("op", caseSensitive);
    SameString("from", caseSensitive);
    SameString("path", caseSensitive);
    DifferentNames("from", "op", caseSensitive);
    DifferentNames("path", "op", caseSensitive);
    DifferentNames("path", "from", caseSensitive);
    assert Lookup(ms, "from", caseSensitive) == Lookup(second, "from", caseSensitive);
    assert Lookup(ms, "path", caseSensitive) == Lookup(second, "path", caseSensitive) == Lookup(third, "path", caseSensitive);
  }

  /** {"a": {"x": 1}} with "/a" copied to "/b" holds {"x": 1} twice. */
  lemma CopiedObject(caseSensitive: bool)
    ensures var one := Object(Member("x", Number(1, 1.0), NoMember)); var doc := Object(Member("a", one, NoMember));
      var patch := Object(Member("op", String("copy"), Member("from", String("/a"), Member("path", String("/b"), NoMember))));
      var (status, r) := ApplyPatch(doc, patch, caseSensitive);
      status == 0 && Meaning(r) == Obj(map["a" := Obj(map["x" := Leaf(Number(1, 1.0))]), "b" := Obj(map["x" := Leaf(Number(1, 1.0))])])
  {
    hide ApplyPatch, CompareStrings, Field;
    var one := Object(Member("x", Number(1, 1.0), NoMember));
    var doc := Object(Member("a", one, NoMember));
    var inner := map["x" := Leaf(Number(1, 1.0))];
    AloneIsClean("x", Number(1, 1.0));
    AloneIsClean("a", one);
    assert Meaning(one) == Obj(inner) && Meaning(doc) == Obj(map["a" := Obj(inner)]);
    OnePath("a");
    OnePath("b");
    assert Fits("b", {"a"}) by { DifferentNames("b", "a", false); }
    assert [Key("b")][..0] == [] && [Key("a")][1..] == [];
    MovingFields("copy", "/a", "/b", caseSensitive);
    assert PathText([Key("a")]) == "/a" && PathText([Key("b")]) == "/b";
    var patch := Object(Member("op", String("copy"), Member("from", String("/a"), Member("path", String("/b"), NoMember))));
    assert Locate(Meaning(doc), []) == Some(Meaning(doc));
    assert Locate(Meaning(doc), [Key("a")]) == Some(Obj(inner));
    CopyCopies(doc, patch, [Key("a")], [Key("b")], caseSensitive);
  }

  lemma OnePath(name: Text)
    requires Plain(name)
    ensures PathText([Key(name)]) == ['/'] + name && ValidPath([Key(name)])
  {
    assert [Key(name)][1..] == [];
    assert PathText([]) == [];
    assert name + [] == name;
  }
}
