/** The parser as it runs: one offset and one nesting counter walk over the content. Every method computes what the
    grammar functions say of the same content and offset. */
module KJsonParser {
  import opened Octets
  import opened KJson
  import opened KJsonGrammar

  class ParseBuffer {
    const content: Text
    var offset: nat
    var depth: nat

    constructor (content: Text)
      requires Terminated(content)
      ensures this.content == content && offset == 0 && depth == 0
    {
      this.content, offset, depth := content, 0, 0;
    }

    predicate Open()
      reads this
    {
      offset < |content|
    }

    /** buffer_skip_whitespace */
    method Skip()
      requires Open()
      modifies this`offset
      ensures offset == SkipWhitespace(content, old(offset))
    {
      while offset < |content| && content[offset] <= ' '
        invariant old(offset) <= offset <= |content|
        invariant if offset < |content| then SkipWhitespace(content, old(offset)) == SkipWhitespace(content, offset)
                  else SkipWhitespace(content, old(offset)) == |content| - 1
        decreases |content| - offset
      {
        offset := offset + 1;
      }
      if offset == |content| { offset := offset - 1; }
    }

    method ParseNumber() returns (item: Option<Json>)
      requires Terminated(content) && Open()
      modifies this`offset
      ensures Computes(NumberAt(content, old(offset)), item)
    {
      hide Strtod, Saturate;
      var i := 0;
      while i < 63 && offset + i < |content| && IsNumberChar(content[offset + i])
        invariant i <= 63 && offset + i <= |content|
        invariant NumberRun(content, offset, 0) == NumberRun(content, offset, i)
      {
        i := i + 1;
      }
      var (number, used) := Strtod(content[offset..offset + i]);
      if used == 0 { return None; }
      item := Some(Number(Saturate(number), number));
      offset := offset + used;
    }

    /** A parse result against what a method returned and where it left the offset. */
    ghost predicate Computes<T(!new)>(r: Parsed<T>, item: Option<T>)
      reads this
    {
      match r
      case Fail => item == None
      case Ok(v, end) => item == Some(v) && offset == end
    }

    /** parse_string: first find the closing quote, then unescape. */
    method ParseString() returns (text: Option<Text>)
      requires Terminated(content) && Open()
      modifies this`offset
      ensures Computes(StringAt(content, old(offset)), text)
    {
      if content[offset] != '"' { return None; }
      var end := offset + 1;
      while end < |content| && content[end] != '"'
        invariant offset < end <= |content|
        invariant ClosingQuote(content, offset + 1) == ClosingQuote(content, end)
        decreases |content| - end
      {
        if content[end] == '\\' {
          if end + 1 >= |content| { return None; }
          end := end + 1;
        }
        end := end + 1;
      }
      if end >= |content| { return None; }
      var output := Unescape(offset + 1, end);
      if output.None? { return None; }
      text := Some(UpToNul(output.value));
      offset := end + 1;
    }

    method Unescape(start: nat, end: nat) returns (output: Option<Text>)
      requires end < |content|
      ensures output == Unescaped(content, start, end)
    {
      var written: Text, i := [], start;
      PrefixNothing(Unescaped(content, start, end));
      while i < end
        invariant Prefix(written, Unescaped(content, i, end)) == Unescaped(content, start, end)
        decreases end - i
      {
        var piece, n;
        if content[i] != '\\' {
          piece, n := [content[i]], 1;
        } else if content[i + 1] == 'u' {
          match Utf16Literal(content, i, end) {
            case Fail => return None;
            case Ok(t, length) => piece, n := t, length;
          }
        } else {
          match SimpleEscape(content[i + 1]) {
            case None => return None;
            case Some(b) => piece, n := [b], 2;
          }
        }
        PrefixTwice(written, piece, Unescaped(content, i + n, end));
        written, i := written + piece, i + n;
      }
      assert written + [] == written;
      output := Some(written);
    }

    method ParseValue() returns (item: Option<Json>)
      requires Terminated(content) && Open()
      modifies this
      ensures Computes(ValueAt(content, old(offset), old(depth)), item)
      ensures item.Some? ==> depth == old(depth)
      decreases |content| - offset, 1
    {
      if Literal(content, offset, "null") {
        offset := offset + 4;
        return Some(Null);
      }
      if Literal(content, offset, "false") {
        offset := offset + 5;
        return Some(False);
      }
      if Literal(content, offset, "true") {
        offset := offset + 4;
        return Some(True);
      }
      if content[offset] == '"' {
        var text := ParseString();
        return if text.Some? then Some(String(text.value)) else None;
      }
      if content[offset] == '-' || IsDigit(content[offset]) {
        item := ParseNumber();
        return;
      }
      if content[offset] == '[' {
        item := ParseArray();
        return;
      }
      if content[offset] == '{' {
        item := ParseObject();
        return;
      }
      item := None;
    }

    method ParseArray() returns (item: Option<Json>)
      requires Terminated(content) && Open() && content[offset] == '['
      modifies this
      ensures Computes(ValueAt(content, old(offset), old(depth)), item)
      ensures item.Some? ==> depth == old(depth)
      decreases |content| - offset, 0
    {
      NoLiteral(content, offset);
      hide Literal, Terminated;
      if depth >= NESTING_LIMIT { return None; }
      depth := depth + 1;
      offset := offset + 1;
      Skip();
      if content[offset] == ']' {
        depth, offset := depth - 1, offset + 1;
        return Some(Array(NoItem));
      }
      var items := ParseItems();
      if items.None? { return None; }
      depth := depth - 1;
      item := Some(Array(items.value));
    }

    /** The element loop of parse_array; head is the chain linked so far. */
    method ParseItems() returns (items: Option<Items>)
      requires Terminated(content) && Open()
      modifies this
      ensures Computes(ItemsAt(content, old(offset), old(depth)), items)
      ensures items.Some? ==> depth == old(depth)
      decreases |content| - offset, 2
    {
      hide ValueAt, SkipWhitespace, Terminated, ItemsAt, JoinItems, AppendItems;
      var head := NoItem;
      JoinNoItem(ItemsAt(content, offset, depth));
      while true
        invariant old(offset) <= offset && Open() && depth == old(depth)
        invariant JoinItems(head, ItemsAt(content, offset, depth)) == ItemsAt(content, old(offset), depth)
        decreases |content| - offset
      {
        ItemsStep(content, offset, depth);
        JoinFail(head);
        var item := ParseValue();
        if item.None? { return None; }
        Skip();
        var linked := AppendItems(head, Item(item.value, NoItem));
        if content[offset] != ',' {
          JoinLastItem(head, item.value, offset + 1);
          if content[offset] != ']' { return None; }
          offset := offset + 1;
          return Some(linked);
        }
        offset := offset + 1;
        Skip();
        JoinItem(head, item.value, ItemsAt(content, offset, depth));
        head := linked;
      }
    }

    method ParseObject() returns (item: Option<Json>)
      requires Terminated(content) && Open() && content[offset] == '{'
      modifies this
      ensures Computes(ValueAt(content, old(offset), old(depth)), item)
      ensures item.Some? ==> depth == old(depth)
      decreases |content| - offset, 0
    {
      NoLiteral(content, offset);
      hide Literal, Terminated, SkipWhitespace;
      if depth >= NESTING_LIMIT { return None; }
      depth := depth + 1;
      offset := offset + 1;
      Skip();
      if content[offset] == '}' {
        depth, offset := depth - 1, offset + 1;
        return Some(Object(NoMember));
      }
      var members := ParseMembers();
      if members.None? { return None; }
      depth := depth - 1;
      item := Some(Object(members.value));
    }

    /** The name of a member, up to its colon. */
    method ParseName() returns (key: Option<Text>)
      requires Terminated(content) && Open()
      modifies this`offset
      ensures Computes(NameAt(content, old(offset)), key)
    {
      key := ParseString();
      if key.None? { return; }
      Skip();
      if content[offset] != ':' { return None; }
    }

    /** The member loop of parse_object; head is the chain linked so far. */
    method ParseMembers() returns (members: Option<Members>)
      requires Terminated(content) && Open()
      modifies this
      ensures Computes(MembersAt(content, old(offset), old(depth)), members)
      ensures members.Some? ==> depth == old(depth)
      decreases |content| - offset, 2
    {
      hide ValueAt, SkipWhitespace, Terminated, MembersAt, NameAt, JoinMembers, AppendMembers;
      var head := NoMember;
      JoinNoMember(MembersAt(content, offset, depth));
      while true
        invariant old(offset) <= offset && Open() && depth == old(depth)
        invariant JoinMembers(head, MembersAt(content, offset, depth)) == MembersAt(content, old(offset), depth)
        decreases |content| - offset
      {
        MembersStep(content, offset, depth);
        JoinMembersFail(head);
        var key := ParseName();
        if key.None? { return None; }
        offset := offset + 1;
        Skip();
        var item := ParseValue();
        if item.None? { return None; }
        Skip();
        var linked := AppendMembers(head, Member(key.value, item.value, NoMember));
        if content[offset] != ',' {
          JoinLastMember(head, key.value, item.value, offset + 1);
          if content[offset] != '}' { return None; }
          offset := offset + 1;
          return Some(linked);
        }
        offset := offset + 1;
        Skip();
        JoinMember(head, key.value, item.value, MembersAt(content, offset, depth));
        head := linked;
      }
    }
  }

  /** kJSON_ParseWithOpts on a C string. */
  method ParseText(text: Text, requireNul: bool) returns (item: Option<Json>, end: nat)
    requires NulFree(text)
    ensures match Parse(text, requireNul)
      case Fail => item == None
      case Ok(v, o) => item == Some(v) && end == o
  {
    hide ValueAt, SkipWhitespace;
    var content := text + ['\0'];
    var p := new ParseBuffer(content);
    p.offset := SkipBom(content);
    p.Skip();
    item := p.ParseValue();
    if item.Some? && requireNul {
      p.Skip();
      if content[p.offset] != '\0' { item := None; }
    }
    end := p.offset;
  }

  // ----- linking chains

  function JoinItems(a: Items, r: Parsed<Items>): Parsed<Items> {
    match r
    case Fail => Fail
    case Ok(b, end) => Ok(AppendItems(a, b), end)
  }

  lemma JoinNoItem(r: Parsed<Items>)
    ensures JoinItems(NoItem, r) == r
  {
  }

  lemma JoinFail(a: Items)
    ensures JoinItems(a, Fail) == Fail
  {
  }

  lemma JoinLastItem(a: Items, v: Json, end: nat)
    ensures JoinItems(a, Ok(Item(v, NoItem), end)) == Ok(AppendItems(a, Item(v, NoItem)), end)
  {
  }

  lemma {:induction false} AppendItemsTwice(a: Items, v: Json, b: Items)
    ensures AppendItems(a, Item(v, b)) == AppendItems(AppendItems(a, Item(v, NoItem)), b)
  {
    if a.Item? { AppendItemsTwice(a.next, v, b); }
  }

  lemma JoinItem(a: Items, v: Json, r: Parsed<Items>)
    ensures JoinItems(a, if r.Ok? then Ok(Item(v, r.value), r.offset) else Fail)
         == JoinItems(AppendItems(a, Item(v, NoItem)), r)
  {
    if r.Ok? { AppendItemsTwice(a, v, r.value); }
  }

  function JoinMembers(a: Members, r: Parsed<Members>): Parsed<Members> {
    match r
    case Fail => Fail
    case Ok(b, end) => Ok(AppendMembers(a, b), end)
  }

  lemma JoinNoMember(r: Parsed<Members>)
    ensures JoinMembers(NoMember, r) == r
  {
  }

  lemma JoinMembersFail(a: Members)
    ensures JoinMembers(a, Fail) == Fail
  {
  }

  lemma JoinLastMember(a: Members, k: Text, v: Json, end: nat)
    ensures JoinMembers(a, Ok(Member(k, v, NoMember), end)) == Ok(AppendMembers(a, Member(k, v, NoMember)), end)
  {
  }

  lemma {:induction false} AppendMembersTwice(a: Members, k: Text, v: Json, b: Members)
    ensures AppendMembers(a, Member(k, v, b)) == AppendMembers(AppendMembers(a, Member(k, v, NoMember)), b)
  {
    if a.Member? { AppendMembersTwice(a.next, k, v, b); }
  }

  lemma JoinMember(a: Members, k: Text, v: Json, r: Parsed<Members>)
    ensures JoinMembers(a, if r.Ok? then Ok(Member(k, v, r.value), r.offset) else Fail)
         == JoinMembers(AppendMembers(a, Member(k, v, NoMember)), r)
  {
    if r.Ok? { AppendMembersTwice(a, k, v, r.value); }
  }

  lemma PrefixNothing(rest: Option<Text>)
    ensures Prefix([], rest) == rest
  {
    if rest.Some? { assert [] + rest.value == rest.value; }
  }

  lemma PrefixTwice(a: Text, b: Text, rest: Option<Text>)
    ensures Prefix(a, Prefix(b, rest)) == Prefix(a + b, rest)
  {
    if rest.Some? { assert a + (b + rest.value) == a + b + rest.value; }
  }
}
