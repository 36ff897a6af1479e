/** RFC 6902 as cJSON_Utils.c does it: JSON pointers, applying patches, generating patches. Trees are values; the
    name of a branch taken is the branch the C code takes, and statuses are the C return codes. */
module KJsonPatch {
  import opened Octets
  import opened KJson
  import opened KJsonText
  import opened KJsonStrings
  import opened KJsonSort

  // ----- JSON pointers

  /** compare_pointers: does the first token of the pointer spell this name? */
  predicate MatchesToken(name: Text, p: Text, caseSensitive: bool)
    decreases |p|
  {
    if name != [] && p != [] && p[0] != '/' then
      if p[0] == '~' then
        && |p| > 1
        && ((p[1] == '0' && name[0] == '~') || (p[1] == '1' && name[0] == '/'))
        && MatchesToken(name[1..], p[2..], caseSensitive)
      else
        && FoldCase(name[0], caseSensitive) == FoldCase(p[0], caseSensitive)
        && MatchesToken(name[1..], p[1..], caseSensitive)
    else (p != [] && p[0] != '/') == (name != [])
  }

  /** What is left of the pointer behind its first token. */
  function SkipToken(p: Text): (r: Text)
    ensures |r| <= |p|
    ensures r != [] ==> r[0] == '/'
  {
    if p == [] || p[0] == '/' then p else SkipToken(p[1..])
  }

  const SIZE_MAX_1: nat := 0x1_0000_0000_0000_0000

  /** decode_array_index_from_pointer. The loop tests the first byte, not the current one, against '9'. */
  function DecodeIndex(p: Text): Option<nat> {
    if Head(p) == '0' && |p| > 1 && p[1] != '/' then None
    else IndexLoop(p, 0, 0)
  }

  function IndexLoop(p: Text, position: nat, parsed: nat): Option<nat>
    requires position <= |p|
    decreases |p| - position
  {
    if position < |p| && p[position] >= '0' && p[0] <= '9' then
      IndexLoop(p, position + 1, (10 * parsed + (p[position] as int - '0' as int)) % SIZE_MAX_1)
    else if position < |p| && p[position] != '/' then None
    else Some(parsed)
  }

  function Nth(items: Items, i: nat): (r: Option<Json>)
    ensures r.Some? ==> r.value < items
  {
    match items
    case NoItem => None
    case Item(v, next) => if i == 0 then Some(v) else Nth(next, i - 1)
  }

  function FindToken(ms: Members, p: Text, caseSensitive: bool): (r: Option<Json>)
    ensures r.Some? ==> r.value < ms
  {
    match ms
    case NoMember => None
    case Member(k, v, next) => if MatchesToken(k, p, caseSensitive) then Some(v) else FindToken(next, p, caseSensitive)
  }

  /** One round of get_item_from_pointer's loop; p starts behind the slash. */
  function Child(j: Json, p: Text, caseSensitive: bool): Option<Json> {
    match j
    case Array(items) =>
      (match DecodeIndex(p)
       case None => None
       case Some(i) => Nth(items, i))
    case Object(members) => FindToken(members, p, caseSensitive)
    case _ => None
  }

  /** get_item_from_pointer. */
  function Get(j: Json, p: Text, caseSensitive: bool): Option<Json>
    decreases |p|
  {
    if p == [] || p[0] != '/' then Some(j)
    else
      match Child(j, p[1..], caseSensitive)
      case None => None
      case Some(c) => Get(c, SkipToken(p[1..]), caseSensitive)
  }

  /** The tree after the item that Get finds has been changed in place to x. */
  function SetAt(j: Json, p: Text, x: Json, caseSensitive: bool): Json
    requires Get(j, p, caseSensitive).Some?
    decreases |p|
  {
    if p == [] || p[0] != '/' then x
    else
      var c := SetAt(Child(j, p[1..], caseSensitive).value, SkipToken(p[1..]), x, caseSensitive);
      match j
      case Array(items) => Array(SetNth(items, DecodeIndex(p[1..]).value, c))
      case Object(members) => Object(SetToken(members, p[1..], c, caseSensitive))
  }

  function SetNth(items: Items, i: nat, x: Json): Items
    requires Nth(items, i).Some?
  {
    if i == 0 then Item(x, items.next) else Item(items.value, SetNth(items.next, i - 1, x))
  }

  function SetToken(ms: Members, p: Text, x: Json, caseSensitive: bool): Members
    requires FindToken(ms, p, caseSensitive).Some?
  {
    if MatchesToken(ms.key, p, caseSensitive) then Member(ms.key, x, ms.next)
    else Member(ms.key, ms.value, SetToken(ms.next, p, x, caseSensitive))
  }

  /** strrchr(p, '/') among the first n bytes. */
  function LastSlash(p: Text, n: nat): (r: Option<nat>)
    requires n <= |p|
    ensures r.Some? ==> r.value < n && p[r.value] == '/'
  {
    if n == 0 then None else if p[n - 1] == '/' then Some(n - 1) else LastSlash(p, n - 1)
  }

  /** What allocated memory holds before it is written, byte by byte. */
  type Leftover = nat -> Octet

  /** The leftovers behind a path, for the encoding of each name that is appended to it. */
  type Memory = (Text, Text) -> Leftover

  /** encode_string_as_pointer from the destination's byte `at` on, as the C string that comes out. For a slash it never
      writes the first byte of the pair, which stays what the memory held, and if that is a terminator the string ends
      there; a tilde is written as "~1". */
  function Encode(s: Text, at: nat, m: Leftover): Text {
    if s == [] then []
    else if s[0] == '/' then
      if m(at) == '\0' then [] else [m(at), '1'] + Encode(s[1..], at + 2, m)
    else if s[0] == '~' then ['~', '1'] + Encode(s[1..], at + 2, m)
    else [s[0]] + Encode(s[1..], at + 1, m)
  }

  /** decode_pointer_inplace: bytes that are not escapes are not moved down, and "~1" writes behind the cursor. */
  function DecodeInPlace(buf: Text, to: nat, from: nat): Text
    requires to <= from <= |buf|
    decreases |buf| - from
  {
    if from == |buf| then buf[..to]
    else if buf[from] != '~' then DecodeInPlace(buf, to + 1, from + 1)
    else if from + 1 < |buf| && buf[from + 1] == '0' then DecodeInPlace(buf[to := '~'], to + 1, from + 2)
    else if from + 1 < |buf| && buf[from + 1] == '1' then DecodeInPlace(buf[to + 1 := '/'], to + 1, from + 2)
    else buf
  }

  // ----- members and elements

  /** kJSON_GetObjectItem and its case-sensitive variant. */
  function Lookup(ms: Members, name: Text, caseSensitive: bool): (r: Option<Json>)
    ensures r.Some? ==> r.value < ms
  {
    match ms
    case NoMember => None
    case Member(k, v, next) =>
      if CompareStrings(name, k, caseSensitive) == 0 then Some(v) else Lookup(next, name, caseSensitive)
  }

  function Field(j: Json, name: Text, caseSensitive: bool): Option<Json> {
    if j.Object? then Lookup(j.members, name, caseSensitive) else None
  }

  /** kJSON_DetachItemFromObject, as far as the object is concerned. */
  function RemoveMember(ms: Members, name: Text, caseSensitive: bool): Members {
    match ms
    case NoMember => NoMember
    case Member(k, v, next) =>
      if CompareStrings(name, k, caseSensitive) == 0 then next
      else Member(k, v, RemoveMember(next, name, caseSensitive))
  }

  /** kJSON_AddItemToObject. */
  function AddMember(ms: Members, name: Text, v: Json): Members {
    AppendMembers(ms, Member(name, v, NoMember))
  }

  function RemoveNth(items: Items, i: nat): Items
    requires Nth(items, i).Some?
  {
    if i == 0 then items.next else Item(items.value, RemoveNth(items.next, i - 1))
  }

  /** insert_item_in_array: right behind the last element is allowed, further is not. */
  function InsertNth(items: Items, i: nat, v: Json): Option<Items> {
    if i == 0 then Some(Item(v, items))
    else
      match items
      case NoItem => None
      case Item(w, next) =>
        match InsertNth(next, i - 1, v)
        case None => None
        case Some(rest) => Some(Item(w, rest))
  }

  // ----- comparing

  /** The type tag of a node. */
  function Kind(j: Json): nat {
    match j
    case Invalid => 0
    case False => 1
    case True => 2
    case Null => 4
    case Number(_, _) => 8
    case String(_) => 16
    case Array(_) => 32
    case Object(_) => 64
  }

  /** compare_json. */
  predicate CompareJson(a: Json, b: Json, caseSensitive: bool)
    decreases Size(a), 1
  {
    && Kind(a) == Kind(b)
    && match a
       case Number(i, d) => i == b.valueint && d == b.valuedouble
       case String(s) => s == b.valuestring
       case Array(items) => CompareItems(items, b.items, caseSensitive)
       case Object(members) =>
         CompareMembers(SortMembers(members, caseSensitive), SortMembers(b.members, caseSensitive), caseSensitive)
       case _ => true
  }

  predicate CompareItems(a: Items, b: Items, caseSensitive: bool)
    decreases ItemsSize(a), 2
  {
    match (a, b)
    case (Item(v, next), Item(w, more)) => CompareJson(v, w, caseSensitive) && CompareItems(next, more, caseSensitive)
    case _ => a.NoItem? && b.NoItem?
  }

  predicate CompareMembers(a: Members, b: Members, caseSensitive: bool)
    decreases MembersSize(a), 2
  {
    match (a, b)
    case (Member(k, v, next), Member(l, w, more)) =>
      && CompareStrings(k, l, caseSensitive) == 0
      && CompareJson(v, w, caseSensitive)
      && CompareMembers(next, more, caseSensitive)
    case _ => a.NoMember? && b.NoMember?
  }

  /** What compare_json leaves of its first argument: it sorts the objects that it comes to, and stops at the first
      difference. */
  function Compared(a: Json, b: Json, caseSensitive: bool): (r: Json)
    ensures Kind(r) == Kind(a)
    decreases Size(a), 1
  {
    if Kind(a) != Kind(b) then a
    else
      match a
      case Array(items) => Array(ComparedItems(items, b.items, caseSensitive))
      case Object(members) =>
        Object(ComparedMembers(SortMembers(members, caseSensitive), SortMembers(b.members, caseSensitive), caseSensitive))
      case _ => a
  }

  function ComparedItems(a: Items, b: Items, caseSensitive: bool): Items
    decreases ItemsSize(a), 2
  {
    match (a, b)
    case (Item(v, next), Item(w, more)) =>
      Item(Compared(v, w, caseSensitive), if CompareJson(v, w, caseSensitive) then ComparedItems(next, more, caseSensitive) else next)
    case _ => a
  }

  function ComparedMembers(a: Members, b: Members, caseSensitive: bool): Members
    decreases MembersSize(a), 2
  {
    match (a, b)
    case (Member(k, v, next), Member(l, w, more)) =>
      if CompareStrings(k, l, caseSensitive) != 0 then a
      else
        Member(k, Compared(v, w, caseSensitive),
          if CompareJson(v, w, caseSensitive) then ComparedMembers(next, more, caseSensitive) else next)
    case _ => a
  }

  /** What generating patches leaves of a, and with the arguments exchanged of b: it sorts both sides of all objects that it
      comes to. */
  function Visited(a: Json, b: Json, caseSensitive: bool): (r: Json)
    ensures Kind(r) == Kind(a)
    decreases Size(a), 1
  {
    if Kind(a) != Kind(b) then a
    else
      match a
      case Array(items) => Array(VisitedItems(items, b.items, caseSensitive))
      case Object(members) =>
        Object(VisitedMembers(SortMembers(members, caseSensitive), SortMembers(b.members, caseSensitive), caseSensitive))
      case _ => a
  }

  function VisitedItems(a: Items, b: Items, caseSensitive: bool): Items
    decreases ItemsSize(a), 2
  {
    match (a, b)
    case (Item(v, next), Item(w, more)) => Item(Visited(v, w, caseSensitive), VisitedItems(next, more, caseSensitive))
    case _ => a
  }

  function VisitedMembers(a: Members, b: Members, caseSensitive: bool): Members
    decreases MembersSize(a), 2, b
  {
    match (a, b)
    case (Member(k, v, next), Member(l, w, more)) =>
      var diff := CompareStrings(k, l, caseSensitive);
      if diff < 0 then Member(k, v, VisitedMembers(next, b, caseSensitive))
      else if diff > 0 then VisitedMembers(a, more, caseSensitive)
      else Member(k, Visited(v, w, caseSensitive), VisitedMembers(next, more, caseSensitive))
    case _ => a
  }

  // ----- applying patches

  datatype Operation = INVALID | ADD | REMOVE | REPLACE | MOVE | COPY | TEST

  function DecodeOperation(patch: Json, caseSensitive: bool): Operation {
    match Field(patch, "op", caseSensitive)
    case Some(String(s)) =>
      if s == "add" then ADD
      else if s == "remove" then REMOVE
      else if s == "replace" then REPLACE
      else if s == "move" then MOVE
      else if s == "copy" then COPY
      else if s == "test" then TEST
      else INVALID
    case _ => INVALID
  }

  /** detach_path: the detached item and the tree without it. Members are always matched without regard to case. */
  function DetachPath(doc: Json, path: Text, caseSensitive: bool): Option<(Json, Json)> {
    match LastSlash(path, |path|)
    case None => None
    case Some(k) =>
      var child := DecodeInPlace(path[k + 1..], 0, 0);
      match Get(doc, path[..k], caseSensitive)
      case Some(Array(items)) =>
        (match DecodeIndex(child)
         case None => None
         case Some(i) =>
           if Nth(items, i).None? then None
           else Some((Nth(items, i).value, SetAt(doc, path[..k], Array(RemoveNth(items, i)), caseSensitive))))
      case Some(Object(members)) =>
        if Lookup(members, child, false).None? then None
        else Some((Lookup(members, child, false).value,
                   SetAt(doc, path[..k], Object(RemoveMember(members, child, false)), caseSensitive)))
      case _ => None
  }

  /** The last part of apply_patch: put v at path. */
  function AddAt(doc: Json, path: Text, v: Json, caseSensitive: bool): (int, Json) {
    match LastSlash(path, |path|)
    case None => (9, doc)
    case Some(k) =>
      var child := DecodeInPlace(path[k + 1..], 0, 0);
      match Get(doc, path[..k], caseSensitive)
      case Some(Array(items)) =>
        if child == "-" then
          (0, SetAt(doc, path[..k], Array(AppendItems(items, Item(v, NoItem))), caseSensitive))
        else
          (match DecodeIndex(child)
           case None => (11, doc)
           case Some(i) =>
             match InsertNth(items, i, v)
             case None => (10, doc)
             case Some(more) => (0, SetAt(doc, path[..k], Array(more), caseSensitive)))
      case Some(Object(members)) =>
        (0, SetAt(doc, path[..k], Object(AddMember(RemoveMember(members, child, caseSensitive), child, v)), caseSensitive))
      case _ => (9, doc)
  }

  function AddValue(doc: Json, patch: Json, path: Text, caseSensitive: bool): (int, Json) {
    match Field(patch, "value", caseSensitive)
    case None => (7, doc)
    case Some(v) => if path == [] then (0, v) else AddAt(doc, path, v, caseSensitive)
  }

  function ApplyAt(doc: Json, patch: Json, path: Text, caseSensitive: bool): (int, Json) {
    match DecodeOperation(patch, caseSensitive)
    case INVALID => (3, doc)
    case TEST =>
      var found, wanted := Get(doc, path, caseSensitive), Field(patch, "value", caseSensitive);
      if found.None? || wanted.None? then (1, doc)
      else
        (if CompareJson(found.value, wanted.value, caseSensitive) then 0 else 1,
         SetAt(doc, path, Compared(found.value, wanted.value, caseSensitive), caseSensitive))
    case REMOVE =>
      if path == [] then (0, Invalid)
      else
        (match DetachPath(doc, path, caseSensitive)
         case None => (13, doc)
         case Some((_, rest)) => (0, rest))
    case REPLACE =>
      if path == [] then AddValue(doc, patch, path, caseSensitive)
      else
        (match DetachPath(doc, path, caseSensitive)
         case None => (13, doc)
         case Some((_, rest)) => AddValue(rest, patch, path, caseSensitive))
    case ADD => AddValue(doc, patch, path, caseSensitive)
    case MOVE =>
      (match Field(patch, "from", caseSensitive)
       case None => (4, doc)
       case Some(String(from)) =>
         (match DetachPath(doc, from, caseSensitive)
          case None => (5, doc)
          case Some((v, rest)) => AddAt(rest, path, v, caseSensitive))
       case Some(_) => (5, doc))
    case COPY =>
      (match Field(patch, "from", caseSensitive)
       case None => (4, doc)
       case Some(String(from)) =>
         (match Get(doc, from, caseSensitive)
          case None => (5, doc)
          case Some(v) => AddAt(doc, path, v, caseSensitive))
       case Some(_) => (5, doc))
  }

  /** apply_patch: the status and the tree left behind. */
  function ApplyPatch(doc: Json, patch: Json, caseSensitive: bool): (int, Json) {
    match Field(patch, "path", caseSensitive)
    case Some(String(path)) => ApplyAt(doc, patch, path, caseSensitive)
    case _ => (2, doc)
  }

  function ApplyAll(doc: Json, patches: Items, caseSensitive: bool): (int, Json)
    decreases patches
  {
    match patches
    case NoItem => (0, doc)
    case Item(patch, next) =>
      var (status, changed) := ApplyPatch(doc, patch, caseSensitive);
      if status != 0 then (status, changed) else ApplyAll(changed, next, caseSensitive)
  }

  /** kJSONUtils_ApplyPatches and its case-sensitive variant. */
  function ApplyPatches(doc: Json, patches: Json, caseSensitive: bool): (int, Json) {
    if patches.Array? then ApplyAll(doc, patches.items, caseSensitive) else (1, doc)
  }

  // ----- generating patches

  /** compose_patch. */
  function Compose(operation: Text, path: Text, value: Option<Json>): Json {
    Object(Member("op", String(operation), Member("path", String(path),
      match value
      case None => NoMember
      case Some(v) => Member("value", v, NoMember))))
  }

  /** sprintf has put a terminator behind the slash before the name is encoded there. */
  function Behind(memory: Memory, path: Text, suffix: Text): Leftover {
    (i: nat) => if i == 0 then '\0' else memory(path, suffix)(i)
  }

  function Suffixed(path: Text, suffix: Text, memory: Memory): Text {
    path + ['/'] + Encode(suffix, 0, Behind(memory, path, suffix))
  }

  /** create_patches; memory is what encoding leaves unwritten. */
  function Diff(path: Text, from: Json, to: Json, caseSensitive: bool, memory: Memory): Items
    decreases Size(from) + Size(to), 1
  {
    if Kind(from) != Kind(to) then Item(Compose("replace", path, Some(to)), NoItem)
    else
      match from
      case Number(i, d) =>
        if i != to.valueint || d != to.valuedouble then Item(Compose("replace", path, Some(to)), NoItem) else NoItem
      case String(s) =>
        if s != to.valuestring then Item(Compose("replace", path, Some(to)), NoItem) else NoItem
      case Array(items) => DiffItems(path, 0, items, to.items, caseSensitive, memory)
      case Object(members) =>
        DiffMembers(path, SortMembers(members, caseSensitive), SortMembers(to.members, caseSensitive), caseSensitive, memory)
      case _ => NoItem
  }

  function DiffItems(path: Text, index: nat, from: Items, to: Items, caseSensitive: bool, memory: Memory): Items
    decreases ItemsSize(from) + ItemsSize(to), 2
  {
    match (from, to)
    case (Item(f, fs), Item(t, ts)) =>
      AppendItems(Diff(path + ['/'] + Decimal(index), f, t, caseSensitive, memory),
                  DiffItems(path, index + 1, fs, ts, caseSensitive, memory))
    case (Item(_, fs), NoItem) =>
      Item(Compose("remove", Suffixed(path, Decimal(index), memory), None),
           DiffItems(path, index, fs, NoItem, caseSensitive, memory))
    case (NoItem, Item(t, ts)) =>
      Item(Compose("add", Suffixed(path, "-", memory), Some(t)),
           DiffItems(path, index + 1, NoItem, ts, caseSensitive, memory))
    case (NoItem, NoItem) => NoItem
  }

  function DiffMembers(path: Text, from: Members, to: Members, caseSensitive: bool, memory: Memory): Items
    decreases MembersSize(from) + MembersSize(to), 2
  {
    if from.NoMember? && to.NoMember? then NoItem
    else
      var diff := if from.NoMember? then 1 else if to.NoMember? then -1
                  else CompareStrings(from.key, to.key, caseSensitive);
      if diff == 0 then
        AppendItems(Diff(Suffixed(path, from.key, memory), from.value, to.value, caseSensitive, memory),
                    DiffMembers(path, from.next, to.next, caseSensitive, memory))
      else if diff < 0 then
        Item(Compose("remove", Suffixed(path, from.key, memory), None),
             DiffMembers(path, from.next, to, caseSensitive, memory))
      else
        Item(Compose("add", Suffixed(path, to.key, memory), Some(to.value)),
             DiffMembers(path, from, to.next, caseSensitive, memory))
  }

  /** kJSONUtils_GeneratePatches and its case-sensitive variant. */
  function GeneratePatches(from: Json, to: Json, caseSensitive: bool, memory: Memory): Json {
    Array(Diff([], from, to, caseSensitive, memory))
  }
}
