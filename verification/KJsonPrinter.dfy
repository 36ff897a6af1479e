/** The printer with its growing buffer, proved against the pure text. */
module KJsonPrinter {
  import opened Octets
  import opened KJson
  import opened KJsonText
  import opened KJsonRoundTrip

  /** Strings and names are C strings, and integers fit a long. */
  ghost predicate InRange(t: Json) {
    match t
    case Number(_, d) => Integral(d) ==> -0x8000_0000_0000_0000 <= d.Floor < 0x8000_0000_0000_0000
    case String(s) => NulFree(s)
    case Array(items) => InRangeItems(items)
    case Object(members) => InRangeMembers(members)
    case _ => true
  }

  ghost predicate InRangeItems(items: Items) {
    items.Item? ==> InRange(items.value) && InRangeItems(items.next)
  }

  ghost predicate InRangeMembers(members: Members) {
    members.Member? ==> NulFree(members.key) && InRange(members.value) && InRangeMembers(members.next)
  }

  class PrintBuffer {
    var buffer: array<Octet>
    var length: nat
    var offset: nat
    var depth: nat
    const noalloc: bool
    const format: bool

    /** The buffer and its recorded length agree; sizes are C ints. */
    ghost predicate Valid()
      reads this, buffer
    {
      && length == buffer.Length <= INT_MAX
      && (length > 0 ==> offset < length) && (length == 0 ==> offset == 0)
    }

    /** Everything before `offset` is final: it spells t. */
    ghost predicate Settled(t: Text)
      reads this, buffer
    {
      Valid() && offset == |t| && Spells(t)
    }

    /** The last node is printed but `offset` may lag behind: its text is found by running to the terminator. */
    ghost predicate Pending(t: Text)
      reads this, buffer
    {
      Valid() && offset <= |t| < length && Spells(t) && buffer[|t|] == '\0'
    }

    ghost predicate Spells(t: Text)
      reads this, buffer
    {
      |t| <= buffer.Length && forall i | 0 <= i < |t| :: buffer[i] == t[i]
    }

    /** The most the buffer can ever hold. */
    function Capacity(): nat
      reads this
    {
      if noalloc then length else INT_MAX
    }

    constructor (buffer: array<Octet>, noalloc: bool, format: bool)
      requires buffer.Length <= INT_MAX
      ensures Settled([]) && this.buffer == buffer && this.noalloc == noalloc && this.format == format
      ensures depth == 0 && Capacity() == if noalloc then buffer.Length else INT_MAX
    {
      this.buffer, length, offset, depth := buffer, buffer.Length, 0, 0;
      this.noalloc, this.format := noalloc, format;
    }

    /** Makes room for `needed` bytes and one more behind them. Without realloc only the bytes up to `offset` and one more
        are carried over, so nothing else may be pending. */
    method Ensure(needed: nat, ghost t: Text) returns (ok: bool)
      requires Valid() && offset <= |t| <= offset + 1 && Spells(t)
      modifies this`buffer, this`length
      ensures Valid() && Spells(t) && Capacity() == old(Capacity())
      ensures buffer == old(buffer) || (!noalloc && fresh(buffer))
      ensures ok <==> offset + needed + 1 <= Capacity()
      ensures ok ==> offset + needed + 1 <= length
    {
      if length > 0 && offset >= length { return false; }
      if needed > INT_MAX { return false; }
      var total := needed + offset + 1;
      if total <= length { return true; }
      if noalloc { return false; }
      var newsize;
      if total > INT_MAX / 2 {
        if total > INT_MAX { return false; }
        newsize := INT_MAX;
      } else {
        newsize := total * 2;
      }
      var newbuffer := new Octet[newsize];
      var reallocate := *;
      var kept := if reallocate || buffer.Length <= offset + 1 then buffer.Length else offset + 1;
      forall i | 0 <= i < kept {
        newbuffer[i] := buffer[i];
      }
      buffer, length := newbuffer, newsize;
      ok := true;
    }

    /** *output_pointer++ = b */
    method Put(pos: nat, b: Octet, ghost t: Text)
      requires Valid() && Spells(t) && pos == |t| < length
      modifies buffer
      ensures Valid() && Spells(t + [b])
    {
      buffer[pos] := b;
    }

    method PutText(pos: nat, s: Text, ghost t: Text)
      requires Valid() && Spells(t) && pos == |t| && pos + |s| <= length
      modifies buffer
      ensures Valid() && Spells(t + s)
    {
      forall i | 0 <= i < |s| {
        buffer[pos + i] := s[i];
      }
    }

    /** Ends the output with a terminator. */
    method Terminate(pos: nat, ghost t: Text)
      requires Valid() && Spells(t) && offset <= |t| && pos == |t| < length
      modifies buffer
      ensures Pending(t)
    {
      buffer[pos] := '\0';
    }

    /** update_offset: the pending text becomes final. */
    method UpdateOffset(ghost t: Text)
      requires Pending(t) && forall i | offset <= i < |t| :: t[i] != '\0'
      modifies this`offset
      ensures Settled(t)
    {
      var n := offset;
      while buffer[n] != '\0'
        invariant offset <= n <= |t|
        decreases |t| - n
      {
        n := n + 1;
      }
      offset := n;
    }

    /** strcpy of a word behind the final text. */
    method PrintWord(word: Text, ghost done: Text) returns (ok: bool)
      requires Settled(done)
      modifies this`buffer, this`length, buffer
      ensures Capacity() == old(Capacity()) && (buffer == old(buffer) || (!noalloc && fresh(buffer)))
      ensures ok <==> |done| + |word| + 2 <= Capacity()
      ensures ok ==> offset >= |done| && Pending(done + word)
    {
      ok := Ensure(|word| + 1, done);
      if !ok { return; }
      PutText(offset, word, done);
      Terminate(offset + |word|, done + word);
    }

    method PrintNumber(item: Json, ghost done: Text) returns (ok: bool)
      requires Settled(done) && item.Number? && InRange(item)
      modifies this`buffer, this`length, this`offset, buffer
      ensures Capacity() == old(Capacity()) && (buffer == old(buffer) || (!noalloc && fresh(buffer)))
      ensures ok <==> Printable(item) && |done| + |TextOf(item, format, depth)| + 2 <= Capacity()
      ensures ok ==> offset >= |done| && Pending(done + TextOf(item, format, depth))
    {
      hide NumberText;
      var number := NumberText(item.valuedouble);
      if |number| > NUMBER_ROOM { return false; }
      ok := Ensure(|number| + 1, done);
      if !ok { return; }
      PutText(offset, number, done);
      Terminate(offset + |number|, done + number);
      offset := offset + |number|;
    }

    /** print_string_ptr's first pass: how many bytes escaping adds. */
    static method CountEscapes(input: Text) returns (extra: nat)
      ensures |input| + extra == |Escaped(input)|
      ensures extra == 0 ==> Escaped(input) == input
    {
      extra := 0;
      var n := 0;
      assert input[0..] == input;
      while n < |input|
        invariant n <= |input|
        invariant n + extra + |Escaped(input[n..])| == |Escaped(input)|
        invariant extra == 0 ==> input[..n] + Escaped(input[n..]) == Escaped(input)
      {
        var b := input[n];
        assert input[n..][1..] == input[n + 1..];
        if b == '"' || b == '\\' || b == BACKSPACE || b == FORM_FEED || b == '\n' || b == '\r' || b == '\t' {
          extra := extra + 1;
        } else if b < ' ' {
          extra := extra + 5;
        } else {
          assert input[..n] + ([b] + Escaped(input[n + 1..])) == input[..n + 1] + Escaped(input[n + 1..]);
        }
        n := n + 1;
      }
      assert input[..n] + [] == input;
    }

    /** print_string_ptr: first counts the bytes escaping adds, then writes. */
    method PrintString(input: Text, ghost done: Text) returns (ok: bool)
      requires Settled(done)
      modifies this`buffer, this`length, buffer
      ensures Capacity() == old(Capacity()) && (buffer == old(buffer) || (!noalloc && fresh(buffer)))
      ensures ok <==> |done| + |Quoted(input)| + 2 <= Capacity()
      ensures ok ==> offset >= |done| && Pending(done + Quoted(input))
    {
      var escapeCharacters := CountEscapes(input);
      var outputLength := |input| + escapeCharacters;
      ok := Ensure(outputLength + 3, done);
      if !ok { return; }
      Put(offset, '"', done);
      ghost var behindQuote := done + ['"'];
      if escapeCharacters == 0 {
        PutText(offset + 1, input, behindQuote);
      } else {
        PutEscaped(offset + 1, input, behindQuote);
      }
      ghost var body := behindQuote + Escaped(input);
      Put(offset + outputLength + 1, '"', body);
      assert body + ['"'] == done + Quoted(input);
      Terminate(offset + outputLength + 2, done + Quoted(input));
    }

    /** The writing loop of print_string_ptr. */
    method PutEscaped(start: nat, input: Text, ghost t: Text)
      requires Valid() && Spells(t) && start == |t| && start + |Escaped(input)| <= length
      modifies buffer
      ensures Valid() && Spells(t + Escaped(input))
    {
      var n, pos := 0, start;
      ghost var written := t;
      assert input[0..] == input;
      while n < |input|
        invariant n <= |input| && Valid() && Spells(written) && pos == |written|
        invariant written + Escaped(input[n..]) == t + Escaped(input)
      {
        var b := input[n];
        assert input[n..][1..] == input[n + 1..];
        assert |written| + |Escaped(input[n..])| == |t| + |Escaped(input)|;
        assert written + (Escape(b) + Escaped(input[n + 1..])) == written + Escape(b) + Escaped(input[n + 1..]);
        PutText(pos, Escape(b), written);
        written := written + Escape(b);
        n, pos := n + 1, pos + |Escape(b)|;
      }
      assert written + [] == written;
    }

    method PrintValue(item: Json, ghost done: Text) returns (ok: bool)
      requires Settled(done) && InRange(item)
      modifies this, buffer
      ensures depth == old(depth) || !ok
      ensures Capacity() == old(Capacity()) && (buffer == old(buffer) || (!noalloc && fresh(buffer)))
      ensures ok <==> Printable(item) && |done| + |TextOf(item, format, old(depth))| + 2 <= Capacity()
      ensures ok ==> offset >= |done| && Pending(done + TextOf(item, format, old(depth)))
      decreases item, 1
    {
      match item
      case Invalid => ok := false;
      case Null => ok := PrintWord("null", done);
      case False => ok := PrintWord("false", done);
      case True => ok := PrintWord("true", done);
      case Number(_, _) => ok := PrintNumber(item, done);
      case String(s) => ok := PrintString(s, done);
      case Array(items) => ok := PrintArray(items, done);
      case Object(members) => ok := PrintObject(members, done);
    }

    method PrintArray(items: Items, ghost done: Text) returns (ok: bool)
      requires Settled(done) && InRangeItems(items)
      modifies this, buffer
      ensures depth == old(depth) || !ok
      ensures Capacity() == old(Capacity()) && (buffer == old(buffer) || (!noalloc && fresh(buffer)))
      ensures ok <==> PrintableItems(items) && |done| + |TextOf(Array(items), format, old(depth))| + 2 <= Capacity()
      ensures ok ==> offset >= |done| && Pending(done + TextOf(Array(items), format, old(depth)))
      decreases items, 1
    {
      hide TextOf, ItemsText, ItemText, ItemSeparator, Printable, InRange;
      ghost var whole := ItemsText(items, format, depth + 1);
      ArrayText(items, format, depth, done);
      ok := OpenBracket(done);
      if !ok { return; }
      ghost var written: Text := done + ['['];
      var current := items;
      while current.Item?
        invariant Settled(written) && depth == old(depth) + 1 && InRangeItems(current)
        invariant PrintableItems(items) <==> PrintableItems(current)
        invariant (items nonincreases to current)
        invariant Capacity() == old(Capacity()) && (buffer == old(buffer) || (!noalloc && fresh(buffer)))
        invariant written + ItemsText(current, format, depth) == done + ['['] + whole
        decreases current
      {
        ItemsTextSplit(written, current, format, depth);
        ok := PrintItem(current, written);
        if !ok { return; }
        written := written + ItemText(current, format, depth);
        current := current.next;
      }
      ItemsTextEnd(written, format, depth);
      ok := CloseBracket(written);
      if ok { depth := depth - 1; }
    }

    method OpenBracket(ghost done: Text) returns (ok: bool)
      requires Settled(done)
      modifies this, buffer
      ensures Capacity() == old(Capacity()) && (buffer == old(buffer) || (!noalloc && fresh(buffer)))
      ensures ok <==> |done| + 2 <= Capacity()
      ensures ok ==> Settled(done + ['[']) && depth == old(depth) + 1
    {
      ok := Ensure(1, done);
      if !ok { return; }
      Put(offset, '[', done);
      offset := offset + 1;
      depth := depth + 1;
    }

    method CloseBracket(ghost written: Text) returns (ok: bool)
      requires Settled(written)
      modifies this`buffer, this`length, buffer
      ensures Capacity() == old(Capacity()) && (buffer == old(buffer) || (!noalloc && fresh(buffer)))
      ensures ok <==> |written| + 3 <= Capacity()
      ensures ok ==> Pending(written + [']'])
    {
      ok := Ensure(2, written);
      if !ok { return; }
      Put(offset, ']', written);
      Terminate(offset + 1, written + [']']);
    }

    /** One round of print_array's loop. */
    method PrintItem(current: Items, ghost written: Text) returns (ok: bool)
      requires Settled(written) && current.Item? && InRangeItems(current)
      modifies this, buffer
      ensures depth == old(depth) || !ok
      ensures Capacity() == old(Capacity()) && (buffer == old(buffer) || (!noalloc && fresh(buffer)))
      ensures ok <==> Printable(current.value) && |written| + |ItemText(current, format, old(depth))| + 2 <= Capacity()
      ensures ok ==> Settled(written + ItemText(current, format, old(depth)))
      decreases current, 0
    {
      hide TextOf, Printable, InRange;
      ghost var text := TextOf(current.value, format, depth);
      ItemTextSplit(written, current, format, depth);
      ok := PrintValue(current.value, written);
      if !ok { return; }
      TextNulFree(current.value, format, depth);
      TailNulFree(written, text);
      UpdateOffset(written + text);
      if current.next.Item? {
        var separator := ItemSeparator(true, format);
        ok := Ensure(|separator| + 1, written + text);
        if !ok { return; }
        PutText(offset, separator, written + text);
        Terminate(offset + |separator|, written + text + separator);
        offset := offset + |separator|;
      }
    }

    method PrintObject(members: Members, ghost done: Text) returns (ok: bool)
      requires Settled(done) && InRangeMembers(members)
      modifies this, buffer
      ensures depth == old(depth) || !ok
      ensures Capacity() == old(Capacity()) && (buffer == old(buffer) || (!noalloc && fresh(buffer)))
      ensures ok <==> PrintableMembers(members) && |done| + |TextOf(Object(members), format, old(depth))| + 2 <= Capacity()
      ensures ok ==> offset >= |done| && Pending(done + TextOf(Object(members), format, old(depth)))
      decreases members, 1
    {
      hide TextOf, Opening, Closing, MemberText, MembersText, Printable, InRange;
      ghost var whole := MembersText(members, format, depth + 1);
      ObjectText(members, format, depth, done);
      ok := PrintOpening(done);
      if !ok { return; }
      ghost var opening := Opening(format);
      ghost var written: Text := done + opening;
      var current := members;
      while current.Member?
        invariant Settled(written) && depth == old(depth) + 1 && InRangeMembers(current)
        invariant PrintableMembers(members) <==> PrintableMembers(current)
        invariant (members nonincreases to current)
        invariant Capacity() == old(Capacity()) && (buffer == old(buffer) || (!noalloc && fresh(buffer)))
        invariant written + MembersText(current, format, depth) == done + opening + whole
        decreases current
      {
        MembersTextSplit(written, current, format, depth);
        ok := PrintMember(current, written);
        if !ok { return; }
        written := written + MemberText(current, format, depth);
        current := current.next;
      }
      MembersTextEnd(written, format, depth);
      ok := PrintClosing(written);
      if ok { depth := depth - 1; }
    }

    method PrintOpening(ghost done: Text) returns (ok: bool)
      requires Settled(done)
      modifies this, buffer
      ensures Capacity() == old(Capacity()) && (buffer == old(buffer) || (!noalloc && fresh(buffer)))
      ensures ok <==> |done| + |Opening(format)| + 2 <= Capacity()
      ensures ok ==> Settled(done + Opening(format)) && depth == old(depth) + 1
    {
      var opening := Opening(format);
      ok := Ensure(|opening| + 1, done);
      if !ok { return; }
      PutText(offset, opening, done);
      depth := depth + 1;
      offset := offset + |opening|;
    }

    /** One round of print_object's loop. */
    method PrintMember(current: Members, ghost written: Text) returns (ok: bool)
      requires Settled(written) && current.Member? && InRangeMembers(current)
      modifies this, buffer
      ensures depth == old(depth) || !ok
      ensures Capacity() == old(Capacity()) && (buffer == old(buffer) || (!noalloc && fresh(buffer)))
      ensures ok <==> Printable(current.value) && |written| + |MemberText(current, format, old(depth))| + 2 <= Capacity()
      ensures ok ==> Settled(written + MemberText(current, format, old(depth)))
      decreases current, 0
    {
      hide TextOf, MemberHead, MemberSeparator, Printable, InRange;
      ghost var head, text := MemberHead(current.key, format, depth), TextOf(current.value, format, depth);
      var separator := MemberSeparator(current.next.Member?, format);
      MemberTextSplit(written, current, format, depth);
      ok := PrintMemberHead(current.key, written);
      if !ok { return; }
      ok := PrintValue(current.value, written + head);
      if !ok { return; }
      TextNulFree(current.value, format, depth);
      TailNulFree(written + head, text);
      ghost var valued := written + head + text;
      UpdateOffset(valued);
      ok := Ensure(|separator| + 1, valued);
      if !ok { return; }
      PutText(offset, separator, valued);
      Terminate(offset + |separator|, valued + separator);
      offset := offset + |separator|;
    }

    /** Indentation, name and colon of one member. */
    method PrintMemberHead(key: Text, ghost written: Text) returns (ok: bool)
      requires Settled(written) && NulFree(key)
      modifies this`buffer, this`length, this`offset, buffer
      ensures Capacity() == old(Capacity()) && (buffer == old(buffer) || (!noalloc && fresh(buffer)))
      ensures ok <==> |written| + |MemberHead(key, format, depth)| + 1 <= Capacity()
      ensures ok ==> Settled(written + MemberHead(key, format, depth))
    {
      hide Quoted;
      var indent := Layout(format, Tabs(depth));
      var colon := [':'] + Layout(format, ['\t']);
      HeadText(written, key, format, depth);
      if format {
        ok := Ensure(depth, written);
        if !ok { return; }
        PutText(offset, indent, written);
        offset := offset + depth;
      }
      NoIndent(written, format, depth);
      ghost var indented := written + indent;
      ok := PrintString(key, indented);
      if !ok { return; }
      EscapedNulFree(key);
      TailNulFree(indented, Quoted(key));
      UpdateOffset(indented + Quoted(key));
      ok := Ensure(|colon|, indented + Quoted(key));
      if !ok { return; }
      PutText(offset, colon, indented + Quoted(key));
      offset := offset + |colon|;
    }

    /** The closing brace, indented one level less than the members. */
    method PrintClosing(ghost written: Text) returns (ok: bool)
      requires Settled(written) && depth > 0
      modifies this`buffer, this`length, buffer
      ensures Capacity() == old(Capacity()) && (buffer == old(buffer) || (!noalloc && fresh(buffer)))
      ensures ok <==> |written| + |Closing(format, depth - 1)| + 2 <= Capacity()
      ensures ok ==> Pending(written + Closing(format, depth - 1))
    {
      ok := Ensure(if format then depth + 1 else 2, written);
      if !ok { return; }
      var closing := Closing(format, depth - 1);
      PutText(offset, closing, written);
      Terminate(offset + |closing|, written + closing);
    }
  }

  /** kJSON_Print and kJSON_PrintUnformatted: the C string printed, terminator included. */
  method Print(item: Json, format: bool) returns (printed: Option<Text>)
    requires InRange(item)
    ensures printed == if Printable(item) && |TextOf(item, format, 0)| + 2 <= INT_MAX then Some(TextOf(item, format, 0) + ['\0']) else None
  {
    hide TextOf, Printable, InRange;
    var storage := new Octet[256];
    var p := new PrintBuffer(storage, false, format);
    var ok := p.PrintValue(item, []);
    if !ok { return None; }
    ghost var text: Text := TextOf(item, format, 0);
    assert [] + text == text;
    TextNulFree(item, format, 0);
    p.UpdateOffset(text);
    assert p.buffer[..p.offset + 1] == text + ['\0'];
    printed := Some(p.buffer[..p.offset + 1]);
  }

  /** kJSON_PrintBuffered: any start size that is not negative will do. */
  method PrintBuffered(item: Json, prebuffer: int, format: bool) returns (printed: Option<Text>)
    requires InRange(item) && prebuffer <= INT_MAX
    ensures prebuffer < 0 ==> printed == None
    ensures prebuffer >= 0 ==> (printed.Some? <==> Printable(item) && |TextOf(item, format, 0)| + 2 <= INT_MAX)
    ensures printed.Some? ==> TextOf(item, format, 0) + ['\0'] <= printed.value
  {
    hide TextOf, Printable, InRange, PrintBuffer.Pending;
    if prebuffer < 0 { return None; }
    var storage := new Octet[prebuffer];
    var p := new PrintBuffer(storage, false, format);
    var ok := p.PrintValue(item, []);
    if !ok { return None; }
    ghost var text: Text := TextOf(item, format, 0);
    assert [] + text == text;
    PendingPrefix(p, text);
    printed := Some(p.buffer[..]);
  }

  /** kJSON_PrintPreallocated never leaves the caller's buffer: it succeeds exactly when one byte more than the
      terminated text fits. */
  method PrintPreallocated(item: Json, buf: array<Octet>, format: bool) returns (ok: bool)
    requires InRange(item) && buf.Length <= INT_MAX
    modifies buf
    ensures ok <==> Printable(item) && |TextOf(item, format, 0)| + 2 <= buf.Length
    ensures ok ==> TextOf(item, format, 0) + ['\0'] <= buf[..]
  {
    hide TextOf, Printable, InRange;
    var p := new PrintBuffer(buf, true, format);
    ok := p.PrintValue(item, []);
    ghost var text: Text := TextOf(item, format, 0);
    assert [] + text == text;
    if ok { PendingPrefix(p, text); }
  }

  lemma PendingPrefix(p: PrintBuffer, t: Text)
    requires p.Pending(t)
    ensures t + ['\0'] <= p.buffer[..]
  {
  }

  /** The tail that strlen runs over holds no terminator. */
  lemma TailNulFree(a: Text, b: Text)
    requires NulFree(b)
    ensures forall i | |a| <= i < |a + b| :: (a + b)[i] != '\0'
  {
    forall i | |a| <= i < |a + b| ensures (a + b)[i] != '\0' { assert (a + b)[i] == b[i - |a|]; }
  }

  lemma ArrayText(items: Items, fmt: bool, depth: nat, done: Text)
    ensures TextOf(Array(items), fmt, depth) == ['['] + (ItemsText(items, fmt, depth + 1) + [']'])
    ensures done + TextOf(Array(items), fmt, depth) == done + ['['] + ItemsText(items, fmt, depth + 1) + [']']
  {
  }

  /** The text of one element with what separates it from the next. */
  ghost function ItemText(items: Items, fmt: bool, depth: nat): Text
    requires items.Item?
  {
    TextOf(items.value, fmt, depth) + ItemSeparator(items.next.Item?, fmt)
  }

  lemma ItemTextSplit(t: Text, items: Items, fmt: bool, depth: nat)
    requires items.Item?
    ensures t + ItemText(items, fmt, depth) == t + TextOf(items.value, fmt, depth) + ItemSeparator(items.next.Item?, fmt)
    ensures !items.next.Item? ==> t + ItemText(items, fmt, depth) == t + TextOf(items.value, fmt, depth)
  {
    hide TextOf;
  }

  lemma ItemsTextSplit(t: Text, items: Items, fmt: bool, depth: nat)
    requires items.Item?
    ensures t + ItemsText(items, fmt, depth) == t + ItemText(items, fmt, depth) + ItemsText(items.next, fmt, depth)
  {
    hide TextOf, ItemSeparator;
    var v, gap, rest := TextOf(items.value, fmt, depth), ItemSeparator(items.next.Item?, fmt), ItemsText(items.next, fmt, depth);
    assert v + (gap + rest) == v + gap + rest;
  }

  lemma ItemsTextEnd(t: Text, fmt: bool, depth: nat)
    ensures t + ItemsText(NoItem, fmt, depth) == t
  {
  }

  lemma MembersTextEnd(t: Text, fmt: bool, depth: nat)
    ensures t + MembersText(NoMember, fmt, depth) == t
  {
  }

  lemma ObjectText(members: Members, fmt: bool, depth: nat, done: Text)
    ensures TextOf(Object(members), fmt, depth)
         == Opening(fmt) + (MembersText(members, fmt, depth + 1) + Closing(fmt, depth))
    ensures done + TextOf(Object(members), fmt, depth)
         == done + Opening(fmt) + MembersText(members, fmt, depth + 1) + Closing(fmt, depth)
    ensures |Closing(fmt, depth)| >= 1
  {
  }

  /** The text of one member with what separates it from the next. */
  ghost function MemberText(members: Members, fmt: bool, depth: nat): Text
    requires members.Member?
  {
    MemberHead(members.key, fmt, depth)
    + (TextOf(members.value, fmt, depth) + MemberSeparator(members.next.Member?, fmt))
  }

  lemma MemberTextSplit(t: Text, members: Members, fmt: bool, depth: nat)
    requires members.Member?
    ensures t + MemberText(members, fmt, depth)
         == t + MemberHead(members.key, fmt, depth) + TextOf(members.value, fmt, depth)
            + MemberSeparator(members.next.Member?, fmt)
    ensures |TextOf(members.value, fmt, depth)| >= 1 || !Printable(members.value)
  {
    hide TextOf, MemberHead, MemberSeparator;
    if Printable(members.value) { FirstByte(members.value, fmt, depth); }
  }

  lemma MembersTextSplit(t: Text, members: Members, fmt: bool, depth: nat)
    requires members.Member?
    ensures t + MembersText(members, fmt, depth)
         == t + MemberText(members, fmt, depth) + MembersText(members.next, fmt, depth)
  {
    hide TextOf, MemberHead, MemberSeparator;
    var head, v, gap := MemberHead(members.key, fmt, depth), TextOf(members.value, fmt, depth), MemberSeparator(members.next.Member?, fmt);
    var rest := MembersText(members.next, fmt, depth);
    assert head + (v + (gap + rest)) == head + (v + gap) + rest;
  }

  lemma HeadText(t: Text, key: Text, fmt: bool, depth: nat)
    ensures t + MemberHead(key, fmt, depth)
         == t + Layout(fmt, Tabs(depth)) + Quoted(key) + ([':'] + Layout(fmt, ['\t']))
  {
  }

  lemma NoIndent(t: Text, fmt: bool, depth: nat)
    ensures !fmt ==> t + Layout(fmt, Tabs(depth)) == t
  {
  }
}
