/** What a tree means when the order of object members does not count, and how JSON pointers act on that meaning. */
module KJsonMeaning {
  import opened Octets
  import opened KJson
  import opened KJsonText
  import opened KJsonStrings
  import opened KJsonPatch
  import Numbers = KJsonNumbers

  datatype Tree = Leaf(scalar: Json) | Arr(elements: seq<Tree>) | Obj(fields: map<Text, Tree>)

  function Meaning(j: Json): Tree {
    match j
    case Array(items) => Arr(ItemsMeaning(items))
    case Object(members) => Obj(MembersMeaning(members))
    case _ => Leaf(j)
  }

  function ItemsMeaning(items: Items): (r: seq<Tree>)
    ensures |r| == ItemsCount(items)
  {
    match items
    case NoItem => []
    case Item(v, next) => [Meaning(v)] + ItemsMeaning(next)
  }

  function MembersMeaning(ms: Members): map<Text, Tree> {
    match ms
    case NoMember => map[]
    case Member(k, v, next) => MembersMeaning(next)[k := Meaning(v)]
  }

  function ItemsCount(items: Items): nat {
    match items
    case NoItem => 0
    case Item(_, next) => 1 + ItemsCount(next)
  }

  function Keys(ms: Members): set<Text> {
    match ms
    case NoMember => {}
    case Member(k, _, next) => {k} + Keys(next)
  }

  /** Trees whose objects have names without '~' and '/' that differ by more than case; arrays fit an address space. */
  ghost predicate Clean(j: Json) {
    match j
    case Array(items) => CleanItems(items) && ItemsCount(items) < SIZE_MAX_1
    case Object(members) => CleanMembers(members)
    case _ => true
  }

  ghost predicate CleanItems(items: Items) {
    match items
    case NoItem => true
    case Item(v, next) => Clean(v) && CleanItems(next)
  }

  ghost predicate CleanMembers(ms: Members) {
    match ms
    case NoMember => true
    case Member(k, v, next) => Plain(k) && Clean(v) && k !in Keys(next) && Fits(k, Keys(next)) && CleanMembers(next)
  }

  lemma {:induction false} MeaningKeys(ms: Members)
    ensures MembersMeaning(ms).Keys == Keys(ms)
  {
    if ms.Member? { MeaningKeys(ms.next); }
  }

  /** Every name of a clean object fits among them. */
  lemma {:induction false} KeysFit(ms: Members, k: Text)
    requires CleanMembers(ms) && k in Keys(ms)
    ensures Plain(k) && Fits(k, Keys(ms))
  {
    hide Plain, Clean, CompareStrings;
    if k == ms.key {
      SameString(k, false);
    } else {
      KeysFit(ms.next, k);
      Asymmetric(k, ms.key, false);
    }
  }

  // ----- tokens

  datatype Token = Key(name: Text) | Index(i: nat)

  ghost predicate ValidToken(t: Token) {
    match t
    case Key(name) => Plain(name)
    case Index(i) => i < SIZE_MAX_1
  }

  function TokenText(t: Token): Text {
    match t
    case Key(name) => name
    case Index(i) => Decimal(i)
  }

  ghost predicate ValidPath(ts: seq<Token>) {
    forall i | 0 <= i < |ts| :: ValidToken(ts[i])
  }

  function PathText(ts: seq<Token>): (p: Text)
    ensures p != [] ==> p[0] == '/'
    ensures p == [] <==> ts == []
  {
    if ts == [] then [] else ['/'] + (TokenText(ts[0]) + PathText(ts[1..]))
  }

  /** The subtree one token down. */
  function Step(t: Tree, token: Token): (r: Option<Tree>)
  {
    match (t, token)
    case (Obj(fields), Key(name)) => if name in fields then Some(fields[name]) else None
    case (Arr(elements), Index(i)) => if i < |elements| then Some(elements[i]) else None
    case _ => None
  }

  function Locate(t: Tree, ts: seq<Token>): Option<Tree> {
    if ts == [] then Some(t)
    else
      match Step(t, ts[0])
      case None => None
      case Some(c) => Locate(c, ts[1..])
  }

  function Replace(t: Tree, token: Token, x: Tree): Tree
    requires Step(t, token).Some?
  {
    match t
    case Obj(fields) => Obj(fields[token.name := x])
    case Arr(elements) => Arr(elements[token.i := x])
  }

  function Put(t: Tree, ts: seq<Token>, x: Tree): Tree
    requires Locate(t, ts).Some?
  {
    if ts == [] then x else Replace(t, ts[0], Put(Step(t, ts[0]).value, ts[1..], x))
  }

  lemma {:induction false} LocatePut(t: Tree, ts: seq<Token>, x: Tree)
    requires Locate(t, ts).Some?
    ensures Locate(Put(t, ts, x), ts) == Some(x)
    decreases |ts|
  {
    if ts != [] { LocatePut(Step(t, ts[0]).value, ts[1..], x); }
  }

  lemma ReplaceTwice(t: Tree, token: Token, x: Tree, y: Tree)
    requires Step(t, token).Some?
    ensures Step(Replace(t, token, x), token) == Some(x)
    ensures Replace(Replace(t, token, x), token, y) == Replace(t, token, y)
  {
    match t
    case Obj(fields) => assert fields[token.name := x][token.name := y] == fields[token.name := y];
    case Arr(elements) => assert elements[token.i := x][token.i := y] == elements[token.i := y];
  }

  lemma {:induction false} PutTwice(t: Tree, ts: seq<Token>, x: Tree, y: Tree)
    requires Locate(t, ts).Some?
    ensures Locate(Put(t, ts, x), ts).Some? && Put(Put(t, ts, x), ts, y) == Put(t, ts, y)
    decreases |ts|
  {
    LocatePut(t, ts, x);
    if ts != [] {
      var c := Step(t, ts[0]).value;
      PutTwice(c, ts[1..], x, y);
      ReplaceTwice(t, ts[0], Put(c, ts[1..], x), Put(c, ts[1..], y));
    }
  }

  lemma {:induction false} PutSame(t: Tree, ts: seq<Token>)
    requires Locate(t, ts).Some?
    ensures Put(t, ts, Locate(t, ts).value) == t
    decreases |ts|
  {
    if ts != [] {
      PutSame(Step(t, ts[0]).value, ts[1..]);
      match t
      case Obj(fields) => assert fields[ts[0].name := fields[ts[0].name]] == fields;
      case Arr(elements) => assert elements[ts[0].i := elements[ts[0].i]] == elements;
    }
  }

  /** Going one token further down. */
  lemma {:induction false} LocateSnoc(t: Tree, ts: seq<Token>, token: Token)
    requires Locate(t, ts).Some? && Step(Locate(t, ts).value, token).Some?
    ensures Locate(t, ts + [token]) == Step(Locate(t, ts).value, token)
    decreases |ts|
  {
    if ts == [] {
      assert (ts + [token])[1..] == [] && (ts + [token])[0] == token;
    } else {
      assert (ts + [token])[1..] == ts[1..] + [token] && (ts + [token])[0] == ts[0];
      LocateSnoc(Step(t, ts[0]).value, ts[1..], token);
    }
  }

  lemma {:induction false} PutSnoc(t: Tree, ts: seq<Token>, token: Token, x: Tree)
    requires Locate(t, ts).Some? && Step(Locate(t, ts).value, token).Some?
    ensures Locate(t, ts + [token]).Some?
    ensures Put(t, ts + [token], x) == Put(t, ts, Replace(Locate(t, ts).value, token, x))
    decreases |ts|
  {
    LocateSnoc(t, ts, token);
    if ts == [] {
      assert (ts + [token])[1..] == [] && (ts + [token])[0] == token;
    } else {
      assert (ts + [token])[1..] == ts[1..] + [token] && (ts + [token])[0] == ts[0];
      PutSnoc(Step(t, ts[0]).value, ts[1..], token, x);
    }
  }

  lemma {:induction false} PathTextSnoc(ts: seq<Token>, token: Token)
    ensures PathText(ts + [token]) == PathText(ts) + ['/'] + TokenText(token)
    decreases |ts|
  {
    if ts == [] {
      assert (ts + [token])[1..] == [];
    } else {
      assert (ts + [token])[1..] == ts[1..] + [token];
      PathTextSnoc(ts[1..], token);
    }
  }

  // ----- pointers follow tokens

  /** Text that starts a token holds no slash before `rest` takes over. */
  ghost predicate Rest(rest: Text) {
    rest == [] || rest[0] == '/'
  }

  lemma {:induction false} TokenMatches(name: Text, key: Text, rest: Text, caseSensitive: bool)
    requires Plain(name) && Plain(key) && Rest(rest)
    ensures MatchesToken(name, key + rest, caseSensitive) <==> CompareStrings(name, key, caseSensitive) == 0
    decreases |key|
  {
    var p := key + rest;
    if key == [] {
      assert p == rest;
    } else {
      assert p[0] == key[0] && p[1..] == key[1..] + rest;
      if name != [] {
        TokenMatches(name[1..], key[1..], rest, caseSensitive);
        assert name == [name[0]] + name[1..] && key == [key[0]] + key[1..];
      }
    }
  }

  lemma {:induction false} TokenIsSkipped(token: Text, rest: Text)
    requires Rest(rest) && forall i | 0 <= i < |token| :: token[i] != '/'
    ensures SkipToken(token + rest) == rest
    decreases |token|
  {
    if token == [] {
      assert token + rest == rest;
    } else {
      assert (token + rest)[1..] == token[1..] + rest && (token + rest)[0] == token[0];
      TokenIsSkipped(token[1..], rest);
    }
  }

  lemma TokenHasNoSlash(t: Token)
    requires ValidToken(t)
    ensures forall i | 0 <= i < |TokenText(t)| :: TokenText(t)[i] != '/' && TokenText(t)[i] != '~'
  {
    if t.Index? { Numbers.DecimalDenotes(t.i); }
  }

  lemma {:induction false} FoldGrows(t: Text, acc: nat)
    requires Numbers.AllDigits(t)
    ensures acc <= Numbers.Fold(t, acc)
    decreases |t|
  {
    if t != [] { FoldGrows(t[1..], 10 * acc + (t[0] as int - '0' as int)); }
  }

  /** The index loop reads decimal digits up to the next token, without wrapping. */
  lemma {:induction false} IndexLoopFolds(p: Text, position: nat, digits: Text, rest: Text, parsed: nat)
    requires Numbers.AllDigits(digits) && Rest(rest) && position <= |p| && p[position..] == digits + rest
    requires position == 0 ==> digits != []
    requires position > 0 ==> p[0] <= '9'
    requires Numbers.Fold(digits, parsed) < SIZE_MAX_1
    ensures IndexLoop(p, position, parsed) == Some(Numbers.Fold(digits, parsed))
    decreases |digits|
  {
    assert |p| - position == |digits| + |rest|;
    if digits == [] {
      if position < |p| { assert p[position] == (digits + rest)[0] == rest[0]; }
    } else {
      assert p[position] == (digits + rest)[0] == digits[0];
      var next := 10 * parsed + (digits[0] as int - '0' as int);
      FoldGrows(digits[1..], next);
      assert p[position + 1..] == p[position..][1..] == digits[1..] + rest;
      IndexLoopFolds(p, position + 1, digits[1..], rest, next);
    }
  }

  lemma DecodesIndex(i: nat, rest: Text)
    requires i < SIZE_MAX_1 && Rest(rest)
    ensures DecodeIndex(Decimal(i) + rest) == Some(i)
  {
    var p := Decimal(i) + rest;
    Numbers.DecimalDenotes(i);
    Numbers.NoLeadingZero(i);
    assert p[0] == Decimal(i)[0];
    if |Decimal(i)| == 1 && |p| > 1 { assert p[1] == rest[0]; }
    if |Decimal(i)| > 1 { assert p[1] == Decimal(i)[1]; }
    assert p[0..] == p;
    IndexLoopFolds(p, 0, Decimal(i), rest, 0);
  }

  lemma {:induction false} NthMeaning(items: Items, i: nat)
    requires CleanItems(items)
    ensures Nth(items, i).Some? <==> i < ItemsCount(items)
    ensures Nth(items, i).Some? ==> Clean(Nth(items, i).value) && Meaning(Nth(items, i).value) == ItemsMeaning(items)[i]
    decreases items
  {
    if items.Item? && i > 0 { NthMeaning(items.next, i - 1); }
  }

  lemma {:induction false} FindTokenMeaning(ms: Members, key: Text, rest: Text, caseSensitive: bool)
    requires CleanMembers(ms) && Plain(key) && Fits(key, Keys(ms)) && Rest(rest)
    ensures FindToken(ms, key + rest, caseSensitive).Some? <==> key in MembersMeaning(ms)
    ensures key in MembersMeaning(ms) ==>
      var v := FindToken(ms, key + rest, caseSensitive).value;
      Clean(v) && Meaning(v) == MembersMeaning(ms)[key]
    decreases ms
  {
    hide Plain, CompareStrings, MatchesToken, Clean, Meaning;
    if ms.Member? {
      TokenMatches(ms.key, key, rest, caseSensitive);
      FitsComparison(key, Keys(ms), ms.key, caseSensitive);
      FindTokenMeaning(ms.next, key, rest, caseSensitive);
    }
  }

  /** One round of get_item_from_pointer follows one token. */
  lemma ChildFollows(j: Json, token: Token, rest: Text, caseSensitive: bool)
    requires Clean(j) && ValidToken(token) && Rest(rest) && Step(Meaning(j), token).Some?
    ensures var c := Child(j, TokenText(token) + rest, caseSensitive);
      c.Some? && Clean(c.value) && Meaning(c.value) == Step(Meaning(j), token).value
    ensures SkipToken(TokenText(token) + rest) == rest
  {
    TokenHasNoSlash(token);
    TokenIsSkipped(TokenText(token), rest);
    match token
    case Key(name) =>
      MeaningKeys(j.members);
      KeysFit(j.members, name);
      FindTokenMeaning(j.members, name, rest, caseSensitive);
    case Index(i) =>
      DecodesIndex(i, rest);
      NthMeaning(j.items, i);
  }

  lemma PathUnfolds(ts: seq<Token>)
    requires ts != []
    ensures var p := PathText(ts);
      p[0] == '/' && p[1..] == TokenText(ts[0]) + PathText(ts[1..]) && Rest(PathText(ts[1..]))
  {
  }

  /** get_item_from_pointer finds what the tokens denote. */
  lemma {:induction false} GetFollows(j: Json, ts: seq<Token>, caseSensitive: bool)
    requires Clean(j) && ValidPath(ts) && Locate(Meaning(j), ts).Some?
    ensures var x := Get(j, PathText(ts), caseSensitive);
      x.Some? && Clean(x.value) && Meaning(x.value) == Locate(Meaning(j), ts).value
    decreases |ts|
  {
    hide Clean, Meaning, Child, PathText;
    if ts != [] {
      PathUnfolds(ts);
      ChildFollows(j, ts[0], PathText(ts[1..]), caseSensitive);
      GetFollows(Child(j, PathText(ts)[1..], caseSensitive).value, ts[1..], caseSensitive);
    }
  }

  lemma {:induction false} SetNthMeaning(items: Items, i: nat, x: Json)
    requires CleanItems(items) && Clean(x) && Nth(items, i).Some? && i < ItemsCount(items)
    ensures CleanItems(SetNth(items, i, x)) && ItemsCount(SetNth(items, i, x)) == ItemsCount(items)
    ensures ItemsMeaning(SetNth(items, i, x)) == ItemsMeaning(items)[i := Meaning(x)]
    decreases items
  {
    if i > 0 { SetNthMeaning(items.next, i - 1, x); }
  }

  lemma {:induction false} SetTokenMeaning(ms: Members, key: Text, rest: Text, x: Json, caseSensitive: bool)
    requires CleanMembers(ms) && Clean(x) && Plain(key) && Fits(key, Keys(ms)) && Rest(rest)
    requires FindToken(ms, key + rest, caseSensitive).Some?
    ensures var r := SetToken(ms, key + rest, x, caseSensitive);
      && CleanMembers(r) && Keys(r) == Keys(ms)
      && MembersMeaning(r) == MembersMeaning(ms)[key := Meaning(x)]
    decreases ms
  {
    hide MatchesToken, Plain, Clean, Meaning, CompareStrings;
    TokenMatches(ms.key, key, rest, caseSensitive);
    FitsComparison(key, Keys(ms), ms.key, caseSensitive);
    if ms.key != key { SetTokenMeaning(ms.next, key, rest, x, caseSensitive); }
  }

  /** Changing the item found changes the meaning at the tokens, and nothing else. */
  lemma {:induction false} SetFollows(j: Json, ts: seq<Token>, x: Json, caseSensitive: bool)
    requires Clean(j) && Clean(x) && ValidPath(ts) && Locate(Meaning(j), ts).Some?
    ensures Get(j, PathText(ts), caseSensitive).Some?
    ensures var r := SetAt(j, PathText(ts), x, caseSensitive);
      Clean(r) && Meaning(r) == Put(Meaning(j), ts, Meaning(x))
    decreases |ts|
  {
    hide PathText;
    GetFollows(j, ts, caseSensitive);
    if ts != [] {
      PathUnfolds(ts);
      var rest := PathText(ts[1..]);
      ChildFollows(j, ts[0], rest, caseSensitive);
      var c := Child(j, PathText(ts)[1..], caseSensitive).value;
      SetFollows(c, ts[1..], x, caseSensitive);
      SetChild(j, ts[0], rest, SetAt(c, rest, x, caseSensitive), caseSensitive);
    }
  }

  /** Replacing one child. */
  lemma SetChild(j: Json, token: Token, rest: Text, x: Json, caseSensitive: bool)
    requires Clean(j) && Clean(x) && ValidToken(token) && Rest(rest) && Step(Meaning(j), token).Some?
    ensures var p := TokenText(token) + rest;
      && (j.Object? ==> FindToken(j.members, p, caseSensitive).Some?)
      && (j.Object? ==>
            var r := Object(SetToken(j.members, p, x, caseSensitive));
            Clean(r) && Meaning(r) == Replace(Meaning(j), token, Meaning(x)))
      && (j.Array? ==> DecodeIndex(p).Some? && Nth(j.items, DecodeIndex(p).value).Some?)
      && (j.Array? ==>
            var r := Array(SetNth(j.items, DecodeIndex(p).value, x));
            Clean(r) && Meaning(r) == Replace(Meaning(j), token, Meaning(x)))
  {
    match token
    case Key(name) =>
      MeaningKeys(j.members);
      KeysFit(j.members, name);
      FindTokenMeaning(j.members, name, rest, caseSensitive);
      SetTokenMeaning(j.members, name, rest, x, caseSensitive);
    case Index(i) =>
      DecodesIndex(i, rest);
      NthMeaning(j.items, i);
      SetNthMeaning(j.items, i, x);
  }
}
