/** kJSON_Minify: white space and comments leave the text, in place. */
module KJsonMinify {
  import opened Octets
  import opened KJson
  import opened KJsonText
  import opened KJsonRoundTrip

  predicate IsBlank(b: Octet) {
    b == ' ' || b == '\t' || b == '\r' || b == '\n'
  }

  /** The byte at i of a C string, its terminator included. */
  function ByteAt(s: Text, i: nat): Octet
    requires i <= |s|
  {
    if i < |s| then s[i] else '\0'
  }

  /** Where a double-slash comment ends: at the newline or the terminator. */
  function EndOfLine(s: Text, i: nat): (r: nat)
    requires i <= |s|
    ensures i <= r <= |s|
    decreases |s| - i
  {
    if i < |s| && s[i] != '\n' then EndOfLine(s, i + 1) else i
  }

  /** Where the closing mark of a block comment starts; |s| when there is none. */
  function CommentEnd(s: Text, i: nat): (r: nat)
    requires i <= |s|
    ensures i <= r <= |s|
    ensures r < |s| ==> r + 1 < |s|
    decreases |s| - i
  {
    if i < |s| && !(s[i] == '*' && ByteAt(s, i + 1) == '/') then CommentEnd(s, i + 1) else i
  }

  /** Behind the closing quote of the literal whose body starts at i; None when the literal is not closed. */
  function LiteralEnd(s: Text, i: nat): (r: Option<nat>)
    requires i <= |s|
    ensures r.Some? ==> i < r.value <= |s|
    decreases |s| - i
  {
    if i == |s| then None
    else if s[i] == '"' then Some(i + 1)
    else if s[i] != '\\' then LiteralEnd(s, i + 1)
    else if i + 1 == |s| then None
    else LiteralEnd(s, i + 2)
  }

  /** The bytes kept from i on. None: the scan would run past the terminator, because a string literal or a block
      comment is left open. */
  function Minified(s: Text, i: nat): (r: Option<Text>)
    requires i <= |s|
    ensures r.Some? ==> |r.value| <= |s| - i
    decreases |s| - i
  {
    if i == |s| then Some([])
    else if IsBlank(s[i]) then Minified(s, i + 1)
    else if s[i] == '/' && ByteAt(s, i + 1) == '/' then Minified(s, EndOfLine(s, i + 1))
    else if s[i] == '/' && ByteAt(s, i + 1) == '*' then
      var j := CommentEnd(s, i + 1);
      if j == |s| then None else Minified(s, j + 2)
    else if s[i] == '"' then
      match LiteralEnd(s, i + 1)
      case None => None
      case Some(j) => Keep(s[i..j], Minified(s, j))
    else Keep([s[i]], Minified(s, i + 1))
  }

  function Keep(t: Text, rest: Option<Text>): (r: Option<Text>)
    ensures rest.Some? <==> r.Some?
    ensures rest.Some? ==> |r.value| == |t| + |rest.value|
  {
    match rest
    case None => None
    case Some(s) => Some(t + s)
  }

  lemma KeepTwice(a: Text, b: Text, rest: Option<Text>)
    ensures Keep(a, Keep(b, rest)) == Keep(a + b, rest)
  {
    if rest.Some? { assert a + (b + rest.value) == a + b + rest.value; }
  }

  /** a is a buffer that still holds the C string s from position read on. */
  ghost predicate Unread(a: array<Octet>, s: Text, read: nat)
    reads a
  {
    && read <= |s| < a.Length
    && a[|s|] == '\0' && NulFree(s)
    && forall k | read <= k < |s| :: a[k] == s[k]
  }

  lemma UnreadByte(a: array<Octet>, s: Text, read: nat)
    requires Unread(a, s, read)
    ensures a[read] == ByteAt(s, read)
    ensures a[read] != '\0' ==> read < |s| && a[read + 1] == ByteAt(s, read + 1)
  {
  }

  method SkipLine(a: array<Octet>, ghost s: Text, start: nat) returns (read: nat)
    requires Unread(a, s, start)
    ensures read == EndOfLine(s, start)
  {
    read := start;
    while a[read] != '\0' && a[read] != '\n'
      invariant start <= read <= |s|
      invariant EndOfLine(s, start) == EndOfLine(s, read)
      decreases |s| - read
    {
      read := read + 1;
    }
  }

  method SkipComment(a: array<Octet>, ghost s: Text, start: nat) returns (read: nat)
    requires Unread(a, s, start)
    ensures read == CommentEnd(s, start)
  {
    read := start;
    while a[read] != '\0' && !(a[read] == '*' && a[read + 1] == '/')
      invariant start <= read <= |s|
      invariant CommentEnd(s, start) == CommentEnd(s, read)
      decreases |s| - read
    {
      read := read + 1;
    }
  }

  /** Part of a literal has moved from `start` down to `dest`; nothing else of a has changed since `before`. */
  ghost predicate Copying(a: array<Octet>, before: Text, s: Text, start: nat, dest: nat, read: nat, into: nat)
    reads a
  {
    && Unread(a, s, read)
    && |before| == a.Length && dest <= start <= read && into == dest + (read - start)
    && (forall k | dest <= k < into :: a[k] == s[k + (start - dest)])
    && (forall k | 0 <= k < dest || |s| < k < a.Length :: a[k] == before[k])
  }

  /** The read cursor still sees the C string. */
  lemma CopyingReads(a: array<Octet>, before: Text, s: Text, start: nat, dest: nat, read: nat, into: nat)
    requires Copying(a, before, s, start, dest, read, into)
    ensures read <= |s| < a.Length && a[read] == ByteAt(s, read)
    ensures a[read] != '\0' ==> read < |s| && a[read + 1] == ByteAt(s, read + 1) && s[read] != '\0'
    ensures read + 1 < |s| ==> s[read + 1] != '\0'
  {
  }

  method CopyByte(a: array<Octet>, ghost before: Text, ghost s: Text, ghost start: nat, ghost dest: nat, read: nat, into: nat)
    requires Copying(a, before, s, start, dest, read, into) && read < |s|
    modifies a
    ensures Copying(a, before, s, start, dest, read + 1, into + 1)
  {
    a[into] := a[read];
  }

  /** Copies the literal that opens at `start` down to `dest`. closed is false where the C code would copy the
      terminator and go on behind it. */
  method CopyLiteral(a: array<Octet>, ghost s: Text, start: nat, dest: nat) returns (closed: bool, read: nat, into: nat)
    requires Unread(a, s, start) && dest <= start < |s| && s[start] == '"'
    modifies a
    ensures closed <==> LiteralEnd(s, start + 1).Some?
    ensures closed ==> read == LiteralEnd(s, start + 1).value
    ensures Copying(a, old(a[..]), s, start, dest, read, into)
  {
    ghost var before := a[..];
    hide Copying, Unread, LiteralEnd;
    CopyingStarts(a, s, start, dest);
    CopyByte(a, before, s, start, dest, start, dest);
    read, into := start + 1, dest + 1;
    CopyingReads(a, before, s, start, dest, read, into);
    closed := true;
    while closed && a[read] != '\0' && a[read] != '"'
      invariant start < read <= |s| < a.Length && Copying(a, before, s, start, dest, read, into)
      invariant closed ==> a[read] == ByteAt(s, read) && LiteralEnd(s, start + 1) == LiteralEnd(s, read)
      invariant !closed ==> LiteralEnd(s, start + 1) == None
      decreases |s| - read, closed
    {
      closed, read, into := CopyInside(a, before, s, start, dest, read, into);
      CopyingReads(a, before, s, start, dest, read, into);
    }
    if closed {
      CopyingReads(a, before, s, start, dest, read, into);
      LiteralEndStep(s, read);
      closed := a[read] != '\0';
    }
    if closed {
      CopyByte(a, before, s, start, dest, read, into);
      read, into := read + 1, into + 1;
    }
  }

  /** One round of the loop over a literal: a byte, or a backslash with the byte behind it. */
  method CopyInside(a: array<Octet>, ghost before: Text, ghost s: Text, ghost start: nat, ghost dest: nat, r: nat, i: nat)
      returns (closed: bool, read: nat, into: nat)
    requires Copying(a, before, s, start, dest, r, i) && r < |s| && s[r] != '"'
    modifies a
    ensures read <= |s| && Copying(a, before, s, start, dest, read, into)
    ensures closed ==> r < read && LiteralEnd(s, r) == LiteralEnd(s, read)
    ensures !closed ==> r == read && LiteralEnd(s, r) == None
  {
    hide Copying, Unread, LiteralEnd;
    CopyingReads(a, before, s, start, dest, r, i);
    LiteralEndStep(s, r);
    read, into := r, i;
    if a[read] == '\\' {
      if a[read + 1] == '\0' { return false, read, into; }
      CopyByte(a, before, s, start, dest, read, into);
      read, into := read + 1, into + 1;
    }
    CopyByte(a, before, s, start, dest, read, into);
    closed, read, into := true, read + 1, into + 1;
  }

  /** One round of the scan for the closing quote. */
  lemma LiteralEndStep(s: Text, i: nat)
    requires i <= |s|
    ensures i == |s| ==> LiteralEnd(s, i) == None
    ensures i < |s| && s[i] == '"' ==> LiteralEnd(s, i) == Some(i + 1)
    ensures i < |s| && s[i] == '\\' && i + 1 == |s| ==> LiteralEnd(s, i) == None
    ensures i < |s| && s[i] == '\\' && i + 1 < |s| ==> LiteralEnd(s, i) == LiteralEnd(s, i + 2)
    ensures i < |s| && s[i] != '"' && s[i] != '\\' ==> LiteralEnd(s, i) == LiteralEnd(s, i + 1)
  {
  }

  lemma CopyingStarts(a: array<Octet>, s: Text, start: nat, dest: nat)
    requires Unread(a, s, start) && dest <= start < |s|
    ensures Copying(a, a[..], s, start, dest, start, dest)
  {
  }

  /** What is written spells kept, what is unread is intact, and together they still make the whole result. */
  ghost predicate Minifying(a: array<Octet>, before: Text, s: Text, read: nat, into: nat, kept: Text)
    reads a
  {
    && Unread(a, s, read) && into == |kept| <= read && |before| == a.Length
    && (forall k | 0 <= k < into :: a[k] == kept[k])
    && Keep(kept, Minified(s, read)) == Minified(s, 0)
    && (forall k | |s| < k < a.Length :: a[k] == before[k])
  }

  /** json is a buffer holding the C string s. The write cursor never passes the read cursor, so what is still to be
      read is intact. closed is false exactly where the C code would run past the terminator. */
  method Minify(json: array<Octet>, ghost s: Text) returns (closed: bool)
    requires Unread(json, s, 0)
    modifies json
    ensures closed <==> Minified(s, 0).Some?
    ensures closed ==>
      var m := Minified(s, 0).value;
      |m| <= |s| && json[..|m|] == m && json[|m|] == '\0'
    ensures forall k | |s| < k < json.Length :: json[k] == old(json[k])
  {
    hide Minified, Keep;
    ghost var before := json[..];
    var read: nat, into: nat := 0, 0;
    ghost var kept: Text := [];
    KeepNothing(Minified(s, 0));
    while json[read] != '\0'
      invariant Minifying(json, before, s, read, into, kept)
      decreases |s| - read
    {
      closed, read, into, kept := MinifyRound(json, before, s, read, into, kept);
      if !closed { return; }
    }
    json[into] := '\0';
    closed := true;
    KeepEnd(kept, s);
    assert json[..into] == kept;
  }

  /** One round of the scanning loop. */
  method MinifyRound(json: array<Octet>, ghost before: Text, ghost s: Text, r: nat, i: nat, ghost done: Text)
      returns (closed: bool, read: nat, into: nat, ghost kept: Text)
    requires Minifying(json, before, s, r, i, done) && json[r] != '\0'
    modifies json
    ensures forall k | |s| < k < json.Length :: json[k] == before[k]
    ensures closed ==> r < read && Minifying(json, before, s, read, into, kept)
    ensures !closed ==> Minified(s, 0) == None
  {
    hide Minified, Keep;
    closed, read, into, kept := true, r, i, done;
    UnreadByte(json, s, read);
    if IsBlank(json[read]) {
      BlankStep(s, read);
      read := read + 1;
    } else if json[read] == '/' && json[read + 1] == '/' {
      LineCommentStep(s, read);
      read := SkipLine(json, s, read + 1);
    } else if json[read] == '/' && json[read + 1] == '*' {
      BlockCommentStep(s, read);
      read := SkipComment(json, s, read + 1);
      KeepNone(kept);
      closed := json[read] != '\0';
      if closed { read := read + 2; }
    } else if json[read] == '"' {
      LiteralStep(s, read);
      closed, read, into := CopyLiteral(json, s, read, into);
      KeepNone(kept);
      if closed {
        KeepTwice(kept, s[r..read], Minified(s, read));
        kept := kept + s[r..read];
      }
    } else {
      OtherStep(s, read);
      KeepTwice(kept, [s[read]], Minified(s, read + 1));
      kept := kept + [s[read]];
      json[into] := json[read];
      into, read := into + 1, read + 1;
    }
  }

  // One round of the scanning loop, branch by branch.

  lemma BlankStep(s: Text, i: nat)
    requires i < |s| && IsBlank(s[i])
    ensures Minified(s, i) == Minified(s, i + 1)
  {
  }

  lemma LineCommentStep(s: Text, i: nat)
    requires i < |s| && s[i] == '/' && ByteAt(s, i + 1) == '/'
    ensures Minified(s, i) == Minified(s, EndOfLine(s, i + 1))
  {
  }

  lemma BlockCommentStep(s: Text, i: nat)
    requires i < |s| && s[i] == '/' && ByteAt(s, i + 1) == '*'
    ensures CommentEnd(s, i + 1) == |s| ==> Minified(s, i) == None
    ensures CommentEnd(s, i + 1) < |s| ==> Minified(s, i) == Minified(s, CommentEnd(s, i + 1) + 2)
  {
  }

  lemma LiteralStep(s: Text, i: nat)
    requires i < |s| && s[i] == '"'
    ensures LiteralEnd(s, i + 1) == None ==> Minified(s, i) == None
    ensures LiteralEnd(s, i + 1).Some? ==>
      var j := LiteralEnd(s, i + 1).value;
      Minified(s, i) == Keep(s[i..j], Minified(s, j))
  {
  }

  lemma OtherStep(s: Text, i: nat)
    requires i < |s| && !IsBlank(s[i]) && s[i] != '"'
    requires s[i] == '/' ==> ByteAt(s, i + 1) != '/' && ByteAt(s, i + 1) != '*'
    ensures Minified(s, i) == Keep([s[i]], Minified(s, i + 1))
  {
  }

  lemma KeepNone(t: Text)
    ensures Keep(t, None) == None
  {
  }

  lemma KeepEnd(t: Text, s: Text)
    ensures Keep(t, Minified(s, |s|)) == Some(t)
  {
    assert t + [] == t;
  }

  lemma KeepNothing(rest: Option<Text>)
    ensures Keep([], rest) == rest
  {
    if rest.Some? { assert [] + rest.value == rest.value; }
  }

  // ----- minifying printed text

  /** A byte that is kept wherever it stands outside a literal. */
  predicate IsKept(b: Octet) {
    !IsBlank(b) && b != '/' && b != '"'
  }

  lemma {:induction false} KeptText(s: Text, i: nat, t: Text)
    requires At(s, i, t) && forall k | 0 <= k < |t| :: IsKept(t[k])
    ensures i + |t| <= |s| && Minified(s, i) == Keep(t, Minified(s, i + |t|))
    decreases |t|
  {
    hide At;
    if t == [] {
      AtEnd(s, i, t);
      KeepNothing(Minified(s, i));
    } else {
      AtFirst(s, i, t);
      KeptText(s, i + 1, t[1..]);
      KeepTwice([t[0]], t[1..], Minified(s, i + |t|));
      assert [t[0]] + t[1..] == t;
    }
  }

  lemma {:induction false} BlankText(s: Text, i: nat, t: Text)
    requires At(s, i, t) && forall k | 0 <= k < |t| :: IsBlank(t[k])
    ensures i + |t| <= |s| && Minified(s, i) == Minified(s, i + |t|)
    decreases |t|
  {
    hide At;
    AtEnd(s, i, t);
    if t != [] {
      AtFirst(s, i, t);
      BlankText(s, i + 1, t[1..]);
    }
  }

  lemma {:induction false} LiteralOfEscaped(s: Text, i: nat, v: Text)
    requires NulFree(v) && At(s, i, Escaped(v) + ['"'])
    ensures i + |Escaped(v)| + 1 <= |s| && LiteralEnd(s, i) == Some(i + |Escaped(v)| + 1)
    decreases |v|
  {
    hide At, Escape;
    AtEnd(s, i, Escaped(v) + ['"']);
    if v == [] {
      assert Escaped(v) + ['"'] == ['"'];
      AtFirst(s, i, ['"']);
    } else {
      var head, rest := Escape(v[0]), Escaped(v[1..]) + ['"'];
      assert Escaped(v) + ['"'] == head + rest;
      AtSplit(s, i, head, rest);
      LiteralOfEscaped(s, i + |head|, v[1..]);
      LiteralOverEscape(s, i, v[0]);
    }
  }

  lemma LiteralOverEscape(s: Text, i: nat, b: Octet)
    requires b != '\0' && At(s, i, Escape(b)) && i + |Escape(b)| <= |s|
    ensures LiteralEnd(s, i) == LiteralEnd(s, i + |Escape(b)|)
  {
    var e := Escape(b);
    assert s[i] == e[0];
    if |e| > 1 { assert s[i + 1] == e[1]; }
    if |e| == 6 {
      assert s[i + 2] == e[2] && s[i + 3] == e[3] && s[i + 4] == e[4] && s[i + 5] == e[5];
      assert LiteralEnd(s, i + 4) == LiteralEnd(s, i + 5) == LiteralEnd(s, i + 6);
      assert LiteralEnd(s, i + 2) == LiteralEnd(s, i + 3) == LiteralEnd(s, i + 4);
    }
  }

  lemma QuotedText(s: Text, i: nat, v: Text)
    requires NulFree(v) && At(s, i, Quoted(v))
    ensures i + |Quoted(v)| <= |s| && Minified(s, i) == Keep(Quoted(v), Minified(s, i + |Quoted(v)|))
  {
    AtEnd(s, i, Quoted(v));
    assert s[i..i + |Quoted(v)|] == Quoted(v);
    hide At;
    AtSplit(s, i, ['"'], Escaped(v) + ['"']);
    AtFirst(s, i, ['"']);
    LiteralOfEscaped(s, i + 1, v);
  }

  /** Wherever a printed value stands, in either layout, its unformatted text is what remains of it. */
  lemma {:induction false} ValueMinified(t: Json, fmt: bool, depth: nat, s: Text, i: nat)
    requires Printable(t) && At(s, i, TextOf(t, fmt, depth))
    ensures i + |TextOf(t, fmt, depth)| <= |s|
    ensures Minified(s, i) == Keep(TextOf(t, false, depth), Minified(s, i + |TextOf(t, fmt, depth)|))
    decreases t, 1
  {
    hide At, Printable, Minified, Keep;
    match t
    case Array(items) => ArrayMinified(t, fmt, depth, s, i);
    case Object(members) => ObjectMinified(t, fmt, depth, s, i);
    case _ => ScalarMinified(t, fmt, depth, s, i);
  }

  lemma {:induction false} ArrayMinified(t: Json, fmt: bool, depth: nat, s: Text, i: nat)
    requires t.Array? && Printable(t) && At(s, i, TextOf(t, fmt, depth))
    ensures i + |TextOf(t, fmt, depth)| <= |s|
    ensures Minified(s, i) == Keep(TextOf(t, false, depth), Minified(s, i + |TextOf(t, fmt, depth)|))
    decreases t, 0
  {
    hide At, Printable, Minified, Keep, ItemsText;
    AtEnd(s, i, TextOf(t, fmt, depth));
    var body, plain := ItemsText(t.items, fmt, depth + 1), ItemsText(t.items, false, depth + 1);
    AtSplit(s, i, ['['], body + [']']);
    AtSplit(s, i + 1, body, [']']);
    var p := i + 1 + |body|;
    KeptText(s, i, ['[']);
    PrintableChildren(t);
    ItemsMinified(t.items, fmt, depth + 1, s, i + 1);
    KeptText(s, p, [']']);
    KeepTwice(plain, [']'], Minified(s, p + 1));
    KeepTwice(['['], plain + [']'], Minified(s, p + 1));
  }

  lemma {:induction false} ObjectMinified(t: Json, fmt: bool, depth: nat, s: Text, i: nat)
    requires t.Object? && Printable(t) && At(s, i, TextOf(t, fmt, depth))
    ensures i + |TextOf(t, fmt, depth)| <= |s|
    ensures Minified(s, i) == Keep(TextOf(t, false, depth), Minified(s, i + |TextOf(t, fmt, depth)|))
    decreases t, 0
  {
    hide At, Printable, Minified, Keep, Opening, Closing, MembersText;
    AtEnd(s, i, TextOf(t, fmt, depth));
    var open, close := Opening(fmt), Closing(fmt, depth);
    var body, plain := MembersText(t.members, fmt, depth + 1), MembersText(t.members, false, depth + 1);
    AtSplit(s, i, open, body + close);
    AtSplit(s, i + |open|, body, close);
    var p := i + |open| + |body|;
    BracesMinified(s, i, fmt, depth);
    PrintableChildren(t);
    MembersMinified(t.members, fmt, depth + 1, s, i + |open|);
    BracesMinified(s, p, fmt, depth);
    KeepTwice(plain, ['}'], Minified(s, p + |close|));
    KeepTwice(['{'], plain + ['}'], Minified(s, p + |close|));
    PlainBraces(depth);
  }

  lemma PrintableChildren(t: Json)
    requires Printable(t)
    ensures t.Array? ==> PrintableItems(t.items)
    ensures t.Object? ==> PrintableMembers(t.members)
  {
  }

  lemma PlainBraces(depth: nat)
    ensures Opening(false) == ['{'] && Closing(false, depth) == ['}']
  {
  }

  lemma BracesMinified(s: Text, i: nat, fmt: bool, depth: nat)
    ensures At(s, i, Opening(fmt)) ==>
      i + |Opening(fmt)| <= |s| && Minified(s, i) == Keep(['{'], Minified(s, i + |Opening(fmt)|))
    ensures At(s, i, Closing(fmt, depth)) ==>
      i + |Closing(fmt, depth)| <= |s| && Minified(s, i) == Keep(['}'], Minified(s, i + |Closing(fmt, depth)|))
  {
    hide At, Minified, Keep;
    if At(s, i, Opening(fmt)) {
      AtSplit(s, i, ['{'], Layout(fmt, ['\n']));
      KeptText(s, i, ['{']);
      BlankText(s, i + 1, Layout(fmt, ['\n']));
    }
    if At(s, i, Closing(fmt, depth)) {
      var indent := Layout(fmt, Tabs(depth));
      AtSplit(s, i, indent, ['}']);
      BlankText(s, i, indent);
      KeptText(s, i + |indent|, ['}']);
    }
  }

  lemma ScalarMinified(t: Json, fmt: bool, depth: nat, s: Text, i: nat)
    requires Printable(t) && !t.Array? && !t.Object? && At(s, i, TextOf(t, fmt, depth))
    ensures i + |TextOf(t, fmt, depth)| <= |s|
    ensures Minified(s, i) == Keep(TextOf(t, false, depth), Minified(s, i + |TextOf(t, fmt, depth)|))
  {
    hide At, Minified, Keep, Quoted;
    match t
    case Number(_, d) =>
      NumberTextShape(d);
      KeptText(s, i, TextOf(t, fmt, depth));
    case String(v) => QuotedText(s, i, v);
    case _ => KeptText(s, i, TextOf(t, fmt, depth));
  }

  lemma {:induction false} ItemsMinified(items: Items, fmt: bool, depth: nat, s: Text, i: nat)
    requires PrintableItems(items) && At(s, i, ItemsText(items, fmt, depth))
    ensures i + |ItemsText(items, fmt, depth)| <= |s|
    ensures Minified(s, i) == Keep(ItemsText(items, false, depth), Minified(s, i + |ItemsText(items, fmt, depth)|))
    decreases items, 0
  {
    hide At, TextOf, Printable, Minified, Keep, ItemSeparator;
    AtEnd(s, i, ItemsText(items, fmt, depth));
    match items
    case NoItem => KeepNothing(Minified(s, i));
    case Item(v, next) =>
      var head, gap, tail := TextOf(v, fmt, depth), ItemSeparator(next.Item?, fmt), ItemsText(next, fmt, depth);
      var plainGap, plainTail := ItemSeparator(next.Item?, false), ItemsText(next, false, depth);
      AtSplit(s, i, head, gap + tail);
      AtSplit(s, i + |head|, gap, tail);
      var p := i + |head|;
      var q := p + |gap|;
      ValueMinified(v, fmt, depth, s, i);
      SeparatorMinified(next.Item?, fmt, s, p);
      ItemsMinified(next, fmt, depth, s, q);
      KeepTwice(plainGap, plainTail, Minified(s, q + |tail|));
      KeepTwice(TextOf(v, false, depth), plainGap + plainTail, Minified(s, q + |tail|));
  }

  lemma SeparatorMinified(more: bool, fmt: bool, s: Text, p: nat)
    requires At(s, p, ItemSeparator(more, fmt))
    ensures p + |ItemSeparator(more, fmt)| <= |s|
    ensures Minified(s, p) == Keep(ItemSeparator(more, false), Minified(s, p + |ItemSeparator(more, fmt)|))
  {
    hide At, Minified, Keep;
    AtEnd(s, p, ItemSeparator(more, fmt));
    if more {
      AtSplit(s, p, [','], Layout(fmt, [' ']));
      KeptText(s, p, [',']);
      BlankText(s, p + 1, Layout(fmt, [' ']));
      assert ItemSeparator(true, false) == [','];
    } else {
      KeepNothing(Minified(s, p));
    }
  }

  lemma {:induction false} MembersMinified(members: Members, fmt: bool, depth: nat, s: Text, i: nat)
    requires PrintableMembers(members) && At(s, i, MembersText(members, fmt, depth))
    ensures i + |MembersText(members, fmt, depth)| <= |s|
    ensures Minified(s, i) == Keep(MembersText(members, false, depth), Minified(s, i + |MembersText(members, fmt, depth)|))
    decreases members, 0
  {
    hide At, TextOf, Printable, Minified, Keep, MemberHead, MemberSeparator;
    AtEnd(s, i, MembersText(members, fmt, depth));
    match members
    case NoMember => KeepNothing(Minified(s, i));
    case Member(key, v, next) =>
      var head, text := MemberHead(key, fmt, depth), TextOf(v, fmt, depth);
      var gap, tail := MemberSeparator(next.Member?, fmt), MembersText(next, fmt, depth);
      var plainText, plainGap := TextOf(v, false, depth), MemberSeparator(next.Member?, false);
      var plainTail := MembersText(next, false, depth);
      AtSplit(s, i, head, text + (gap + tail));
      var p := i + |head|;
      AtSplit(s, p, text, gap + tail);
      var q := p + |text|;
      AtSplit(s, q, gap, tail);
      var r := q + |gap| + |tail|;
      HeadMinified(key, fmt, depth, s, i);
      ValueMinified(v, fmt, depth, s, p);
      MemberGapMinified(next.Member?, fmt, s, q);
      MembersMinified(next, fmt, depth, s, q + |gap|);
      KeepTwice(plainGap, plainTail, Minified(s, r));
      KeepTwice(plainText, plainGap + plainTail, Minified(s, r));
      KeepTwice(MemberHead(key, false, depth), plainText + (plainGap + plainTail), Minified(s, r));
  }

  lemma HeadMinified(key: Text, fmt: bool, depth: nat, s: Text, i: nat)
    requires NulFree(key) && At(s, i, MemberHead(key, fmt, depth))
    ensures i + |MemberHead(key, fmt, depth)| <= |s|
    ensures Minified(s, i) == Keep(MemberHead(key, false, depth), Minified(s, i + |MemberHead(key, fmt, depth)|))
  {
    hide At, Minified, Keep, Quoted;
    var indent, name, gap := Layout(fmt, Tabs(depth)), Quoted(key), Layout(fmt, ['\t']);
    AtSplit(s, i, indent, name + ([':'] + gap));
    var p := i + |indent|;
    AtSplit(s, p, name, [':'] + gap);
    var q := p + |name|;
    AtSplit(s, q, [':'], gap);
    BlankText(s, i, indent);
    QuotedText(s, p, key);
    KeptText(s, q, [':']);
    BlankText(s, q + 1, gap);
    KeepTwice(name, [':'], Minified(s, q + 1 + |gap|));
    assert MemberHead(key, false, depth) == name + [':'];
  }

  lemma MemberGapMinified(more: bool, fmt: bool, s: Text, p: nat)
    requires At(s, p, MemberSeparator(more, fmt))
    ensures p + |MemberSeparator(more, fmt)| <= |s|
    ensures Minified(s, p) == Keep(MemberSeparator(more, false), Minified(s, p + |MemberSeparator(more, fmt)|))
  {
    hide At, Minified, Keep;
    var comma := if more then [','] else [];
    AtSplit(s, p, comma, Layout(fmt, ['\n']));
    KeptText(s, p, comma);
    BlankText(s, p + |comma|, Layout(fmt, ['\n']));
    assert MemberSeparator(more, false) == comma;
  }

  /** Main result: minifying printed text, formatted or not, yields the unformatted text byte for byte. */
  lemma MinifyUndoesLayout(t: Json, fmt: bool)
    requires Printable(t)
    ensures Minified(TextOf(t, fmt, 0), 0) == Some(TextOf(t, false, 0))
  {
    var s := TextOf(t, fmt, 0);
    ValueMinified(t, fmt, 0, s, 0);
    assert TextOf(t, false, 0) + [] == TextOf(t, false, 0);
  }
}
