/** Which name or index a reference token of a JSON pointer denotes, by RFC 6901 and to this code. */
module KJsonPointers {
  import opened Octets
  import opened KJson
  import opened KJsonStrings
  import opened KJsonPatch
  import opened KJsonMeaning
  import Numbers = KJsonNumbers

  // ----- names inside a path

  /** Section 3 of RFC 6901: "~0" for a tilde and "~1" for a slash. */
  function Token6901(name: Text): Text {
    if name == [] then [] else Unit(name[0]) + Token6901(name[1..])
  }

  function Unit(b: Octet): Text {
    if b == '~' then "~0" else if b == '/' then "~1" else [b]
  }

  ghost predicate Slashless(t: Text) {
    forall i | 0 <= i < |t| :: t[i] != '/'
  }

  ghost predicate IsToken(t: Text, name: Text) {
    t == Token6901(name)
  }

  /** compare_pointers: the first token of a pointer meets exactly the names that it denotes by RFC 6901; a token with a tilde
      before anything but 0 or 1 denotes none. */
  lemma {:induction false} TokenMeets(key: Text, t: Text, rest: Text, caseSensitive: bool)
    requires Slashless(t) && NulFree(t) && NulFree(key) && Rest(rest)
    ensures MatchesToken(key, t + rest, caseSensitive) <==> exists name :: IsToken(t, name) && CompareStrings(key, name, caseSensitive) == 0
    decreases |t|
  {
    if MatchesToken(key, t + rest, caseSensitive) { var name := MetBy(key, t, rest, caseSensitive); }
    if name :| IsToken(t, name) && CompareStrings(key, name, caseSensitive) == 0 { Meets(key, name, rest, caseSensitive); }
  }

  lemma {:induction false} MetBy(key: Text, t: Text, rest: Text, caseSensitive: bool) returns (name: Text)
    requires Slashless(t) && NulFree(t) && NulFree(key) && Rest(rest) && MatchesToken(key, t + rest, caseSensitive)
    ensures IsToken(t, name) && CompareStrings(key, name, caseSensitive) == 0
    decreases |t|
  {
    var p := t + rest;
    if t == [] {
      assert p == rest;
      name := [];
    } else {
      assert p[0] == t[0] && p[1..] == t[1..] + rest;
      if t[0] == '~' {
        assert |t| > 1;
        assert p[1] == t[1] && p[2..] == t[2..] + rest;
        var more := MetBy(key[1..], t[2..], rest, caseSensitive);
        name := [key[0]] + more;
        assert name[1..] == more;
        assert t == [t[0], t[1]] + t[2..];
      } else {
        var more := MetBy(key[1..], t[1..], rest, caseSensitive);
        name := [t[0]] + more;
        assert name[1..] == more;
        assert t == [t[0]] + t[1..];
      }
    }
  }

  lemma {:induction false} Meets(key: Text, name: Text, rest: Text, caseSensitive: bool)
    requires NulFree(key) && NulFree(Token6901(name)) && Rest(rest) && CompareStrings(key, name, caseSensitive) == 0
    ensures MatchesToken(key, Token6901(name) + rest, caseSensitive)
    decreases |name|
  {
    var t := Token6901(name);
    var p := t + rest;
    if name == [] {
      assert p == rest;
    } else {
      var first := Unit(name[0]);
      assert t == first + Token6901(name[1..]);
      assert p == first + (Token6901(name[1..]) + rest);
      NulFreeParts(first, Token6901(name[1..]));
      assert first[0] != '\0';
      NoEmptyMeets(key, name, caseSensitive);
      assert p[0] == first[0] && p[|first|..] == Token6901(name[1..]) + rest;
      if |first| == 2 { assert p[1] == first[1]; }
      SpecialsFold(key[0], name[0], caseSensitive);
      Meets(key[1..], name[1..], rest, caseSensitive);
    }
  }

  lemma NoEmptyMeets(key: Text, name: Text, caseSensitive: bool)
    requires CompareStrings(key, name, caseSensitive) == 0 && name != [] && name[0] != '\0'
    ensures key != [] && FoldCase(key[0], caseSensitive) == FoldCase(name[0], caseSensitive)
    ensures CompareStrings(key[1..], name[1..], caseSensitive) == 0
  {
  }

  lemma NulFreeParts(a: Text, b: Text)
    requires NulFree(a + b)
    ensures NulFree(a) && NulFree(b)
  {
    forall i | 0 <= i < |a| ensures a[i] != '\0' { assert (a + b)[i] == a[i]; }
    forall i | 0 <= i < |b| ensures b[i] != '\0' { assert (a + b)[|a| + i] == b[i]; }
  }

  lemma SpecialsFold(a: Octet, b: Octet, caseSensitive: bool)
    requires FoldCase(a, caseSensitive) == FoldCase(b, caseSensitive)
    ensures b == '~' || b == '/' || b == '\0' ==> a == b
  {
  }

  lemma {:induction false} TokenSlashless(name: Text)
    ensures Slashless(Token6901(name)) && |Token6901(name)| >= |name|
    decreases |name|
  {
    if name != [] { TokenSlashless(name[1..]); }
  }

  lemma {:induction false} TokenNulFree(name: Text)
    requires NulFree(name)
    ensures NulFree(Token6901(name))
    decreases |name|
  {
    if name != [] { TokenNulFree(name[1..]); }
  }

  /** A name has one token, and a token one name. */
  lemma {:induction false} TokenOnce(name: Text, other: Text)
    requires Token6901(name) == Token6901(other)
    ensures name == other
    decreases |name|
  {
    TokenSlashless(name);
    TokenSlashless(other);
    if name != [] && other != [] {
      var t := Token6901(name);
      var a, b := Unit(name[0]), Unit(other[0]);
      assert t[0] == a[0] == b[0];
      if |a| == 2 { assert t[1] == a[1] == b[1]; }
      assert t[|a|..] == Token6901(name[1..]) == Token6901(other[1..]);
      TokenOnce(name[1..], other[1..]);
      assert name == [name[0]] + name[1..] && other == [other[0]] + other[1..];
    }
  }

  /** get_item_from_pointer goes into an object as its lookup by the denoted name does. */
  lemma {:induction false} TokenFinds(ms: Members, name: Text, rest: Text, caseSensitive: bool)
    requires NulFree(name) && Rest(rest) && forall k | k in Keys(ms) :: NulFree(k)
    ensures FindToken(ms, Token6901(name) + rest, caseSensitive) == Lookup(ms, name, caseSensitive)
    decreases ms
  {
    hide MatchesToken, CompareStrings, Token6901;
    if ms.Member? {
      TokenSlashless(name);
      TokenNulFree(name);
      TokenMeets(ms.key, Token6901(name), rest, caseSensitive);
      Asymmetric(ms.key, name, caseSensitive);
      if n :| IsToken(Token6901(name), n) && CompareStrings(ms.key, n, caseSensitive) == 0 { TokenOnce(name, n); }
      assert IsToken(Token6901(name), name);
      TokenFinds(ms.next, name, rest, caseSensitive);
    }
  }

  /** A token that is none by RFC 6901 finds nothing. */
  lemma {:induction false} NoTokenFinds(ms: Members, t: Text, rest: Text, caseSensitive: bool)
    requires Slashless(t) && NulFree(t) && Rest(rest) && (forall k | k in Keys(ms) :: NulFree(k)) && !exists name :: IsToken(t, name)
    ensures FindToken(ms, t + rest, caseSensitive) == None
    decreases ms
  {
    hide MatchesToken, CompareStrings, IsToken;
    if ms.Member? {
      TokenMeets(ms.key, t, rest, caseSensitive);
      NoTokenFinds(ms.next, t, rest, caseSensitive);
    }
  }

  // ----- the last name of a path

  /** The place in the token where name[j..] begins. */
  function Start(name: Text, j: nat): nat
    requires j <= |name|
  {
    |Token6901(name[..j])|
  }

  lemma {:induction false} TokenJoin(a: Text, b: Text)
    ensures Token6901(a + b) == Token6901(a) + Token6901(b)
    decreases |a|
  {
    if a == [] {
      assert a + b == b;
    } else {
      assert (a + b)[1..] == a[1..] + b;
      TokenJoin(a[1..], b);
    }
  }

  /** The bytes that decode_pointer_inplace leaves for a name: it does not move bytes down, so behind an escape they stay where
      they were in the token; "~0" writes a tilde in its place, and "~1" a slash one place further. */
  function LeftBehind(name: Text): Text
    requires |Token6901(name)| >= |name|
  {
    seq(|name|, j requires 0 <= j < |name| => LeftAt(name, Token6901(name), j))
  }

  function LeftAt(name: Text, t: Text, j: nat): Octet
    requires j < |name| <= |t|
  {
    if name[j] == '~' then '~' else if j > 0 && name[j - 1] == '/' then '/' else t[j]
  }

  /** What the buffer holds when j units of the token are done. */
  ghost predicate Holds(buf: Text, name: Text, t: Text, j: nat) {
    && |buf| == |t| >= |name| && j <= |name|
    && (forall k | 0 <= k < j :: buf[k] == LeftAt(name, t, k))
    && (forall k | j < k < |buf| :: buf[k] == t[k])
    && (j < |buf| ==> buf[j] == if j > 0 && name[j - 1] == '/' then '/' else t[j])
  }

  lemma UnitAt(name: Text, j: nat)
    requires j < |name|
    ensures var t := Token6901(name); var i := Start(name, j); var u := Unit(name[j]);
      i >= j && i + |u| == Start(name, j + 1) <= |t| && t[i] == u[0] && (|u| == 2 ==> t[i + 1] == u[1])
  {
    hide Token6901;
    TokenSlashless(name[..j]);
    UnitParts(name, j);
    var a, u, b := Token6901(name[..j]), Unit(name[j]), Token6901(name[j + 1..]);
    assert (a + u + b)[|a|] == u[0];
    if |u| == 2 { assert (a + u + b)[|a| + 1] == u[1]; }
  }

  lemma UnitParts(name: Text, j: nat)
    requires j < |name|
    ensures Token6901(name) == Token6901(name[..j]) + Unit(name[j]) + Token6901(name[j + 1..])
    ensures Token6901(name[..j + 1]) == Token6901(name[..j]) + Unit(name[j])
  {
    hide Unit;
    OneUnit(name[j]);
    hide Token6901;
    assert name == name[..j + 1] + name[j + 1..];
    assert name[..j + 1] == name[..j] + [name[j]];
    TokenJoin(name[..j + 1], name[j + 1..]);
    TokenJoin(name[..j], [name[j]]);
  }

  lemma OneUnit(b: Octet)
    ensures Token6901([b]) == Unit(b)
  {
    assert [b][1..] == [];
    assert Token6901([]) == [];
  }

  /** The buffer after one more unit. */
  function Next(buf: Text, name: Text, j: nat): Text
    requires j < |name| && (name[j] == '~' ==> j < |buf|) && (name[j] == '/' ==> j + 1 < |buf|)
  {
    if name[j] == '~' then buf[j := '~'] else if name[j] == '/' then buf[j + 1 := '/'] else buf
  }

  lemma DecodeStep(buf: Text, name: Text, j: nat, i: nat)
    requires j < |name| && j <= i && i + |Unit(name[j])| <= |buf|
    requires buf[i] == Unit(name[j])[0] && (|Unit(name[j])| == 2 ==> buf[i + 1] == Unit(name[j])[1])
    ensures DecodeInPlace(buf, j, i) == DecodeInPlace(Next(buf, name, j), j + 1, i + |Unit(name[j])|)
  {
  }

  lemma HoldsNext(buf: Text, name: Text, t: Text, j: nat)
    requires Holds(buf, name, t, j) && j < |name| && (name[j] == '/' ==> j + 1 < |buf|)
    ensures Holds(Next(buf, name, j), name, t, j + 1)
  {
  }

  lemma {:induction false} DecodesOn(buf: Text, name: Text, j: nat)
    requires NulFree(name) && j <= |name| && Holds(buf, name, Token6901(name), j) && j <= Start(name, j) <= |buf|
    ensures |Token6901(name)| >= |name| && DecodeInPlace(buf, j, Start(name, j)) == LeftBehind(name)
    decreases |name| - j
  {
    hide DecodeInPlace, Token6901;
    var t, i := Token6901(name), Start(name, j);
    if j == |name| {
      assert name[..j] == name;
      DecodeEnds(buf, j);
      assert buf[..j] == LeftBehind(name);
    } else {
      UnitAt(name, j);
      if i == j { StartsTogether(name, j); }
      assert buf[i] == t[i];
      DecodeStep(buf, name, j, i);
      HoldsNext(buf, name, t, j);
      DecodesOn(Next(buf, name, j), name, j + 1);
    }
  }

  lemma DecodeEnds(buf: Text, j: nat)
    requires j <= |buf|
    ensures DecodeInPlace(buf, j, |buf|) == buf[..j]
  {
  }

  /** As long as no unit had two bytes, reading and writing are at the same place, and no slash was written. */
  lemma {:induction false} StartsTogether(name: Text, j: nat)
    requires j < |name| && Start(name, j) == j
    ensures j > 0 ==> name[j - 1] != '/'
  {
    if j > 0 {
      UnitAt(name, j - 1);
    }
  }

  /** decode_pointer_inplace on the token of any name. */
  lemma DecodesTo(name: Text)
    requires NulFree(name)
    ensures |Token6901(name)| >= |name| && DecodeInPlace(Token6901(name), 0, 0) == LeftBehind(name)
  {
    TokenSlashless(name);
    assert name[..0] == [];
    DecodesOn(Token6901(name), name, 0);
  }

  /** So the last name of a path is understood exactly if it has no slash, and behind its tildes the token happens to hold in
      the same place what the name holds. */
  lemma LastNameIff(name: Text)
    requires NulFree(name)
    ensures |Token6901(name)| >= |name|
    ensures DecodeInPlace(Token6901(name), 0, 0) == name <==>
      forall j | 0 <= j < |name| :: name[j] != '/' && (name[j] == '~' || Token6901(name)[j] == name[j])
  {
    hide LeftBehind;
    DecodesTo(name);
    var t := Token6901(name);
    TokenSlashless(name);
    assert |LeftBehind(name)| == |name| && forall j | 0 <= j < |name| :: LeftBehind(name)[j] == LeftAt(name, t, j) by { LeftIs(name); }
    if LeftBehind(name) == name {
      forall j | 0 <= j < |name| ensures name[j] != '/' && (name[j] == '~' || t[j] == name[j]) { NoSlashAt(name, t, j); }
    }
  }

  lemma LeftIs(name: Text)
    requires |Token6901(name)| >= |name|
    ensures |LeftBehind(name)| == |name|
    ensures forall j | 0 <= j < |name| :: LeftBehind(name)[j] == LeftAt(name, Token6901(name), j)
  {
  }

  /** The first slash of a name is never left in its place. */
  lemma {:induction false} NoSlashAt(name: Text, t: Text, j: nat)
    requires j < |name| <= |t| && Slashless(t) && forall k | 0 <= k < |name| :: LeftAt(name, t, k) == name[k]
    ensures name[j] != '/' && (name[j] == '~' || t[j] == name[j])
  {
    assert LeftAt(name, t, j) == name[j];
    if j > 0 { NoSlashAt(name, t, j - 1); }
  }

  /** Any other escape ends the decoding, and the rest stays as it is. */
  lemma {:induction false} BadEscapeStops(pre: Text, x: Text, k: nat)
    requires k <= |pre| && (forall i | 0 <= i < |pre| :: pre[i] != '~') && (x != [] ==> x[0] != '0' && x[0] != '1')
    ensures DecodeInPlace(pre + ['~'] + x, k, k) == pre + ['~'] + x
    decreases |pre| - k
  {
    var buf := pre + ['~'] + x;
    if k < |pre| {
      assert buf[k] == pre[k];
      BadEscapeStops(pre, x, k + 1);
    } else if k + 1 < |buf| {
      assert buf[k + 1] == x[0];
    }
  }

  // ----- indices

  /** Digits as decode_array_index_from_pointer takes them: a digit, and behind it any bytes that do not come before '0'. */
  ghost predicate Numeric(t: Text) {
    t != [] && '0' <= t[0] <= '9' && (t[0] == '0' ==> |t| == 1) && forall i | 0 <= i < |t| :: '0' <= t[i]
  }

  function Reading(t: Text): nat
    requires forall i | 0 <= i < |t| :: '0' <= t[i]
  {
    if t == [] then 0 else 10 * Reading(t[..|t| - 1]) + (t[|t| - 1] as int - '0' as int)
  }

  lemma {:induction false} LoopReads(p: Text, t: Text, rest: Text, n: nat)
    requires p == t + rest && Slashless(t) && Rest(rest) && t != [] && '0' <= t[0] <= '9' && 0 < n <= |t|
    requires forall i | 0 <= i < n :: '0' <= t[i]
    ensures IndexLoop(p, n, Reading(t[..n]) % SIZE_MAX_1)
         == if forall i | 0 <= i < |t| :: '0' <= t[i] then Some(Reading(t) % SIZE_MAX_1) else None
    decreases |t| - n
  {
    assert p[0] == t[0];
    if n == |t| {
      assert t[..n] == t;
      if n < |p| { assert p[n] == rest[0]; }
    } else {
      assert p[n] == t[n];
      if t[n] >= '0' {
        assert t[..n + 1][..n] == t[..n];
        OneMoreByte(Reading(t[..n]), t[n] as int - '0' as int);
        LoopReads(p, t, rest, n + 1);
      }
    }
  }

  lemma OneMoreByte(n: nat, d: nat)
    ensures (10 * (n % SIZE_MAX_1) + d) % SIZE_MAX_1 == (10 * n + d) % SIZE_MAX_1
  {
    var q, r := n / SIZE_MAX_1, n % SIZE_MAX_1;
    assert n == q * SIZE_MAX_1 + r;
    assert 10 * n + d == 10 * q * SIZE_MAX_1 + (10 * r + d);
    Multiple(10 * q, 10 * r + d);
  }

  lemma Multiple(k: nat, x: nat)
    ensures (k * SIZE_MAX_1 + x) % SIZE_MAX_1 == x % SIZE_MAX_1
  {
  }

  /** decode_array_index_from_pointer on any token: no token at all is index 0, and the number is taken modulo 2^64. */
  lemma IndexRead(t: Text, rest: Text)
    requires Slashless(t) && Rest(rest)
    ensures DecodeIndex(t + rest) == if t == [] then Some(0) else if Numeric(t) then Some(Reading(t) % 0x1_0000_0000_0000_0000) else None
  {
    var p := t + rest;
    if t == [] {
      assert p == rest;
    } else {
      assert p[0] == t[0];
      if |t| > 1 { assert p[1] == t[1]; } else if |p| > 1 { assert p[1] == rest[0]; }
      if '0' <= t[0] <= '9' {
        assert t[..1] == [t[0]] && [t[0]][..0] == [];
        assert Reading(t[..1]) == t[0] as int - '0' as int;
        assert IndexLoop(p, 0, 0) == IndexLoop(p, 1, Reading(t[..1]) % SIZE_MAX_1);
        LoopReads(p, t, rest, 1);
      }
    }
  }

  /** A token of digits denotes the index that RFC 6901 says. */
  lemma {:induction false} ReadingIsFold(t: Text)
    requires Numbers.AllDigits(t)
    ensures Reading(t) == Numbers.Fold(t, 0)
    decreases |t|
  {
    if t != [] {
      var front := t[..|t| - 1];
      ReadingIsFold(front);
      Numbers.FoldSnoc(front, t[|t| - 1], 0);
      assert t == front + [t[|t| - 1]];
    }
  }

  /** But a letter behind a digit is read as one as well: "1a" is index 59. */
  lemma LetterInIndex(rest: Text)
    requires Rest(rest)
    ensures DecodeIndex("1a" + rest) == Some(59)
  {
    IndexRead("1a", rest);
    assert "1a"[..1] == "1" && "1"[..0] == "";
    assert Reading("1") == 1;
  }
}
