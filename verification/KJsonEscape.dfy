/** JSON pointer escaping: exactly which names survive it. A name inside a path is matched by compare_pointers, the last
    one is decoded by decode_pointer_inplace, and the two agree on no escape but "~1" for a slash, which the encoder writes
    for a tilde. */
module KJsonEscape {
  import opened Octets
  import opened KJson
  import opened KJsonStrings
  import opened KJsonSort
  import opened KJsonPatch
  import opened KJsonMeaning
  import opened KJsonEffects

  predicate Special(b: Octet) {
    b == '~' || b == '/'
  }

  predicate Unspecial(name: Text) {
    forall i | 0 <= i < |name| :: !Special(name[i])
  }

  /** No slash, and a tilde at most at the end. */
  predicate Safe(name: Text) {
    forall i | 0 <= i < |name| :: name[i] != '/' && (name[i] == '~' ==> i == |name| - 1)
  }

  predicate NoSlash(p: Text) {
    forall i | 0 <= i < |p| :: p[i] != '/'
  }

  ghost predicate NoTildes(m: Leftover) {
    forall i :: m(i) != '~'
  }

  /** All that can be behind a path if memory is full of tildes: sprintf's terminator comes first. */
  ghost predicate OnlyTildes(m: Leftover) {
    m(0) == '\0' && forall i | i > 0 :: m(i) == '~'
  }

  lemma {:induction false} EncodeJoin(a: Text, b: Text, at: nat, m: Leftover)
    requires Unspecial(a)
    ensures Encode(a + b, at, m) == a + Encode(b, at + |a|, m)
    decreases |a|
  {
    if a == [] {
      assert a + b == b;
    } else {
      assert (a + b)[0] == a[0] && (a + b)[1..] == a[1..] + b;
      EncodeJoin(a[1..], b, at + 1, m);
    }
  }

  lemma UnspecialIsNotEncoded(a: Text, at: nat, m: Leftover)
    requires Unspecial(a)
    ensures Encode(a, at, m) == a
  {
    EncodeJoin(a, [], at, m);
    assert a + [] == a;
  }

  lemma {:induction false} EncodedNulFree(s: Text, at: nat, m: Leftover)
    requires NulFree(s)
    ensures NulFree(Encode(s, at, m))
    decreases |s|
  {
    if s != [] {
      EncodedNulFree(s[1..], at + 1, m);
      EncodedNulFree(s[1..], at + 2, m);
    }
  }

  // ----- names inside a path

  /** No tilde, and every slash was left a tilde. */
  predicate Lucky(s: Text, at: nat, m: Leftover) {
    if s == [] then true
    else if s[0] == '~' then false
    else if s[0] == '/' then m(at) == '~' && Lucky(s[1..], at + 2, m)
    else Lucky(s[1..], at + 1, m)
  }

  /** An encoded name inside a path leads back to its member exactly when it is lucky. */
  lemma {:induction false} EncodedNameMatches(name: Text, at: nat, m: Leftover, caseSensitive: bool)
    ensures MatchesToken(name, Encode(name, at, m), caseSensitive) <==> Lucky(name, at, m)
    decreases |name|
  {
    if name != [] {
      var p := Encode(name, at, m);
      if name[0] == '/' {
        if m(at) != '\0' {
          EncodedNameMatches(name[1..], at + 2, m, caseSensitive);
          assert p[0] == m(at) && p[1] == '1' && p[2..] == Encode(name[1..], at + 2, m);
        }
      } else if name[0] == '~' {
        assert p[0] == '~' && p[1] == '1';
      } else {
        EncodedNameMatches(name[1..], at + 1, m, caseSensitive);
        assert p[0] == name[0] && p[1..] == Encode(name[1..], at + 1, m);
      }
    }
  }

  lemma {:induction false} LuckyNames(name: Text, at: nat, m: Leftover)
    ensures Unspecial(name) ==> Lucky(name, at, m)
    ensures NoTildes(m) && Lucky(name, at, m) ==> Unspecial(name)
    ensures Lucky(name, at, m) ==> NoSlash(Encode(name, at, m))
    decreases |name|
  {
    if name != [] {
      LuckyNames(name[1..], at + 1, m);
      LuckyNames(name[1..], at + 2, m);
      assert name == [name[0]] + name[1..];
    }
  }

  /** Whatever memory held: exactly the names without '~' and '/' are always found again. */
  lemma AlwaysMatchedIff(name: Text, caseSensitive: bool)
    ensures (forall m: Leftover :: MatchesToken(name, Encode(name, 0, m), caseSensitive)) <==> Unspecial(name)
  {
    forall m: Leftover ensures MatchesToken(name, Encode(name, 0, m), caseSensitive) <==> Lucky(name, 0, m) {
      EncodedNameMatches(name, 0, m, caseSensitive);
    }
    if Unspecial(name) {
      forall m: Leftover ensures MatchesToken(name, Encode(name, 0, m), caseSensitive) { LuckyNames(name, 0, m); }
    } else {
      var m: Leftover := _ => 'x';
      LuckyNames(name, 0, m);
      assert !MatchesToken(name, Encode(name, 0, m), caseSensitive);
    }
  }

  // ----- the last name of a path

  lemma EncodeFirst(s: Text, at: nat, m: Leftover)
    requires s != []
    ensures s[0] == '/' ==> Encode(s, at, m) == if m(at) == '\0' then [] else [m(at), '1'] + Encode(s[1..], at + 2, m)
    ensures s[0] == '~' ==> Encode(s, at, m) == ['~', '1'] + Encode(s[1..], at + 2, m)
  {
  }

  lemma EscapeStep(b: Text, to: nat, from: nat)
    requires to <= from && from + 1 < |b| && b[from] == '~' && b[from + 1] == '1'
    ensures DecodeInPlace(b, to, from) == DecodeInPlace(b[to + 1 := '/'], to + 1, from + 2)
  {
  }

  lemma {:induction false} RunOn(b: Text, to: nat, from: nat, n: nat)
    requires to <= from && from + n <= |b| && forall i | from <= i < from + n :: b[i] != '~'
    ensures DecodeInPlace(b, to, from) == DecodeInPlace(b, to + n, from + n)
    decreases n
  {
    if n > 0 { RunOn(b, to + 1, from + 1, n - 1); }
  }

  /** What lies before the write cursor is final. */
  lemma {:induction false} FrontIsFinal(b: Text, to: nat, from: nat)
    requires to <= from <= |b|
    ensures |DecodeInPlace(b, to, from)| >= to && DecodeInPlace(b, to, from)[..to] == b[..to]
    decreases |b| - from
  {
    if from < |b| {
      if b[from] != '~' {
        FrontIsFinal(b, to + 1, from + 1);
        assert DecodeInPlace(b, to, from)[..to] == DecodeInPlace(b, to, from)[..to + 1][..to];
      } else if from + 1 < |b| && b[from + 1] == '0' {
        FrontIsFinal(b[to := '~'], to + 1, from + 2);
        assert DecodeInPlace(b, to, from)[..to] == DecodeInPlace(b, to, from)[..to + 1][..to];
      } else if from + 1 < |b| && b[from + 1] == '1' {
        FrontIsFinal(b[to + 1 := '/'], to + 1, from + 2);
        assert DecodeInPlace(b, to, from)[..to] == DecodeInPlace(b, to, from)[..to + 1][..to];
      }
    }
  }

  lemma {:induction false} DecodedNulFree(b: Text, to: nat, from: nat)
    requires to <= from <= |b| && NulFree(b)
    ensures NulFree(DecodeInPlace(b, to, from))
    decreases |b| - from
  {
    if from < |b| {
      if b[from] != '~' { DecodedNulFree(b, to + 1, from + 1); }
      else if from + 1 < |b| && b[from + 1] == '0' { DecodedNulFree(b[to := '~'], to + 1, from + 2); }
      else if from + 1 < |b| && b[from + 1] == '1' { DecodedNulFree(b[to + 1 := '/'], to + 1, from + 2); }
    }
  }

  /** Equal C strings are equally long and equal byte for byte, up to case. */
  lemma {:induction false} SameBytes(a: Text, b: Text, caseSensitive: bool)
    requires NulFree(a) && NulFree(b) && CompareStrings(a, b, caseSensitive) == 0
    ensures |a| == |b| && forall i | 0 <= i < |a| :: FoldCase(a[i], caseSensitive) == FoldCase(b[i], caseSensitive)
    decreases |a|
  {
    if a != [] && b != [] { SameBytes(a[1..], b[1..], caseSensitive); }
  }

  function Decoded(name: Text, m: Leftover): Text {
    DecodeInPlace(Encode(name, 0, m), 0, 0)
  }

  /** Whether the decoded name finds the member. */
  ghost predicate Finds(name: Text, m: Leftover, caseSensitive: bool) {
    CompareStrings(Decoded(name, m), name, caseSensitive) == 0
  }

  lemma {:induction false} FirstSpecial(name: Text) returns (q: nat)
    ensures q <= |name| && Unspecial(name[..q]) && (q < |name| ==> Special(name[q]))
    decreases |name|
  {
    q := 0;
    if name != [] && !Special(name[0]) {
      q := FirstSpecial(name[1..]);
      q := q + 1;
      assert name[..q] == [name[0]] + name[1..][..q - 1];
    }
  }

  lemma SafeFrom(name: Text, q: nat)
    requires q < |name| && Unspecial(name[..q]) && Special(name[q])
    ensures Safe(name) <==> name[q] == '~' && q == |name| - 1
  {
    forall i | 0 <= i < q ensures !Special(name[i]) { assert name[i] == name[..q][i]; }
  }

  /** A safe name decodes to itself, whatever memory held. */
  lemma SafeIsDecoded(name: Text, m: Leftover)
    requires Safe(name)
    ensures Decoded(name, m) == name && NoSlash(Encode(name, 0, m))
  {
    var q := FirstSpecial(name);
    var pre := name[..q];
    if q == |name| {
      assert name == pre;
      UnspecialIsNotEncoded(name, 0, m);
      NothingToDecode(name, 0);
    } else {
      SafeFrom(name, q);
      assert name == pre + ['~'];
      EncodeJoin(pre, ['~'], 0, m);
      assert ['~'][1..] == [] && Encode(['~'], q, m) == ['~', '1'];
      var p := Encode(name, 0, m);
      assert p == pre + ['~', '1'];
      RunOn(p, 0, 0, q);
      assert DecodeInPlace(p[q + 1 := '/'], q + 1, q + 2) == p[q + 1 := '/'][..q + 1];
      assert p[q + 1 := '/'][..q + 1] == pre + ['~'];
    }
  }

  /** A byte that differs up to case, or another length. */
  lemma NotFound(name: Text, m: Leftover, k: nat, caseSensitive: bool)
    requires NulFree(name)
    requires var r := Decoded(name, m);
      |r| != |name| || (k < |r| && FoldCase(r[k], caseSensitive) != FoldCase(name[k], caseSensitive))
    ensures !Finds(name, m, caseSensitive)
  {
    EncodedNulFree(name, 0, m);
    DecodedNulFree(Encode(name, 0, m), 0, 0);
    if Finds(name, m, caseSensitive) { SameBytes(Decoded(name, m), name, caseSensitive); }
  }

  lemma SpecialKeepsCase(a: Octet, b: Octet, caseSensitive: bool)
    requires Special(a) && a != b
    ensures FoldCase(a, caseSensitive) != FoldCase(b, caseSensitive)
  {
  }

  /** Without tildes in memory, a name that begins its special bytes with a slash is not found. */
  lemma SlashIsNotFound(name: Text, m: Leftover, q: nat, caseSensitive: bool)
    requires NulFree(name) && NoTildes(m) && NoSlash(Encode(name, 0, m))
    requires q < |name| && Unspecial(name[..q]) && name[q] == '/'
    ensures !Finds(name, m, caseSensitive)
  {
    hide Encode, DecodeInPlace, Finds, CompareStrings, FoldCase;
    var pre := name[..q];
    var p := Encode(name, 0, m);
    var x := name[q..];
    assert name == pre + x;
    EncodeJoin(pre, x, 0, m);
    EncodeFirst(x, q, m);
    if m(q) == '\0' {
      assert p == pre;
      NothingToDecode(p, 0);
      NotFound(name, m, 0, caseSensitive);
    } else {
      assert p[q] == m(q);
      LeftoverStays(p, q);
      SpecialKeepsCase('/', m(q), caseSensitive);
      if |Decoded(name, m)| == |name| { NotFound(name, m, q, caseSensitive); } else { NotFound(name, m, 0, caseSensitive); }
    }
  }

  /** What stands in front of any tilde is decoded to itself. */
  lemma LeftoverStays(p: Text, q: nat)
    requires q < |p| && forall i | 0 <= i < q + 1 :: p[i] != '~'
    ensures var r := DecodeInPlace(p, 0, 0); |r| > q && r[q] == p[q]
  {
    hide DecodeInPlace;
    RunOn(p, 0, 0, q + 1);
    FrontIsFinal(p, q + 1, q + 1);
    var r := DecodeInPlace(p, 0, 0);
    assert r[q] == r[..q + 1][q];
  }

  /** Decoding behind a first tilde: its pair is done, and the write cursor stands on the slash written for it. */
  lemma BehindTilde(name: Text, m: Leftover, q: nat)
    requires q < |name| && Unspecial(name[..q]) && name[q] == '~'
    ensures var p := Encode(name, 0, m);
      && |p| >= q + 2 && p[q + 2..] == Encode(name[q + 1..], q + 2, m)
      && Decoded(name, m) == DecodeInPlace(p[q + 1 := '/'], q + 1, q + 2)
  {
    hide Encode, DecodeInPlace;
    var pre := name[..q];
    var p := Encode(name, 0, m);
    var x := name[q..];
    assert name == pre + x && x[0] == '~' && x[1..] == name[q + 1..];
    EncodeJoin(pre, x, 0, m);
    EncodeFirst(x, q, m);
    assert p == pre + (['~', '1'] + Encode(name[q + 1..], q + 2, m));
    assert p[q] == '~' && p[q + 1] == '1';
    forall i | 0 <= i < q ensures p[i] != '~' { assert p[i] == pre[i]; }
    RunOn(p, 0, 0, q);
    EscapeStep(p, q, q);
  }

  /** Without tildes in memory, a name with anything behind its first tilde is not found. */
  lemma TildeIsNotFound(name: Text, m: Leftover, q: nat, caseSensitive: bool)
    requires NulFree(name) && NoTildes(m) && NoSlash(Encode(name, 0, m))
    requires q + 1 < |name| && Unspecial(name[..q]) && name[q] == '~'
    ensures !Finds(name, m, caseSensitive)
  {
    hide Encode, DecodeInPlace, Finds, CompareStrings, FoldCase;
    if name[q + 1] != '/' {
      OtherBehindTilde(name, m, q, caseSensitive);
    } else if m(q + 2) == '\0' {
      CutBehindTilde(name, m, q, caseSensitive);
    } else {
      SlashBehindTilde(name, m, q, caseSensitive);
    }
  }

  lemma CutBehindTilde(name: Text, m: Leftover, q: nat, caseSensitive: bool)
    requires NulFree(name) && q + 1 < |name| && Unspecial(name[..q]) && name[q] == '~'
    requires name[q + 1] == '/' && m(q + 2) == '\0'
    ensures !Finds(name, m, caseSensitive)
  {
    hide Encode, Finds, CompareStrings, FoldCase;
    var p := Encode(name, 0, m);
    BehindTilde(name, m, q);
    EncodeFirst(name[q + 1..], q + 2, m);
    assert |p| == q + 2;
    assert Decoded(name, m) == p[q + 1 := '/'][..q + 1];
    NotFound(name, m, 0, caseSensitive);
  }

  /** The byte behind the tilde comes out as a slash. */
  lemma OtherBehindTilde(name: Text, m: Leftover, q: nat, caseSensitive: bool)
    requires NulFree(name) && q + 1 < |name| && Unspecial(name[..q]) && name[q] == '~' && name[q + 1] != '/'
    ensures !Finds(name, m, caseSensitive)
  {
    hide Finds, CompareStrings, FoldCase, Decoded;
    var p := Encode(name, 0, m);
    var x := name[q + 1..];
    var e := Encode(x, q + 2, m);
    BehindTilde(name, m, q);
    assert x[0] == name[q + 1] && e != [] && p[q + 2] == p[q + 2..][0] == e[0];
    if x[0] == '~' { assert e[1] == '1' && p[q + 3] == p[q + 2..][1] == e[1]; }
    hide Encode;
    SlashComesOut(p, q, x[0]);
    SpecialKeepsCase('/', x[0], caseSensitive);
    if |Decoded(name, m)| == |name| { NotFound(name, m, q + 1, caseSensitive); } else { NotFound(name, m, 0, caseSensitive); }
  }

  lemma SlashComesOut(p: Text, q: nat, x: Octet)
    requires q + 2 < |p| && (p[q + 2] == '~' ==> q + 3 < |p| && p[q + 3] == '1')
    ensures var r := DecodeInPlace(p[q + 1 := '/'], q + 1, q + 2); |r| > q + 1 && r[q + 1] == '/'
  {
    var b := p[q + 1 := '/'];
    var r := DecodeInPlace(b, q + 1, q + 2);
    if p[q + 2] != '~' {
      FrontIsFinal(b, q + 2, q + 3);
    } else {
      EscapeStep(b, q + 1, q + 2);
      FrontIsFinal(b[q + 2 := '/'], q + 2, q + 4);
    }
    assert r[q + 1] == r[..q + 2][q + 1];
  }

  /** Bytes behind an escape are not moved down. */
  lemma NotMovedDown(b: Text, q: nat, n: nat)
    requires q + 4 + n <= |b| && forall i | q + 2 <= i < q + 4 + n :: b[i] != '~'
    ensures var r := DecodeInPlace(b, q + 1, q + 2); |r| >= q + 3 + n && r[q + 2 + n] == b[q + 2 + n]
  {
    hide DecodeInPlace;
    var r := DecodeInPlace(b, q + 1, q + 2);
    RunOn(b, q + 1, q + 2, n + 2);
    FrontIsFinal(b, q + 3 + n, q + 4 + n);
    assert r[q + 2 + n] == r[..q + 3 + n][q + 2 + n];
  }

  lemma SlashBehindTilde(name: Text, m: Leftover, q: nat, caseSensitive: bool)
    requires NulFree(name) && NoTildes(m) && NoSlash(Encode(name, 0, m))
    requires q + 1 < |name| && Unspecial(name[..q]) && name[q] == '~' && name[q + 1] == '/' && m(q + 2) != '\0'
    ensures !Finds(name, m, caseSensitive)
  {
    hide Encode, DecodeInPlace, Finds, CompareStrings, FoldCase;
    var p := Encode(name, 0, m);
    var x := name[q + 2..];
    BehindTilde(name, m, q);
    var n := FirstSpecial(x);
    assert name[q + 2..q + 2 + n] == x[..n];
    EncodedBehind(name, m, q, n);
    var b := p[q + 1 := '/'];
    NotMovedDown(b, q, n);
    if n == |x| || |Decoded(name, m)| != |name| {
      NotFound(name, m, 0, caseSensitive);
    } else {
      var k := q + 2 + n;
      assert name[k] == x[n] && p[k] != '/' && b[k] == p[k];
      SpecialKeepsCase(name[k], b[k], caseSensitive);
      NotFound(name, m, k, caseSensitive);
    }
  }

  /** The encoding of a slash behind a tilde and of the n plain bytes behind that. */
  lemma EncodedBehind(name: Text, m: Leftover, q: nat, n: nat)
    requires q + 2 + n <= |name| && Unspecial(name[..q]) && name[q] == '~' && name[q + 1] == '/' && m(q + 2) != '\0'
    requires NoTildes(m) && Unspecial(name[q + 2..q + 2 + n])
    ensures var p := Encode(name, 0, m); |p| >= q + 4 + n && forall i | q + 2 <= i < q + 4 + n :: p[i] != '~'
  {
    hide Encode;
    var p := Encode(name, 0, m);
    var x := name[q + 2..];
    var plain := x[..n];
    BehindTilde(name, m, q);
    assert name[q + 1..][0] == '/' && name[q + 1..][1..] == x && plain == name[q + 2..q + 2 + n];
    assert x == plain + x[n..];
    EncodeFirst(name[q + 1..], q + 2, m);
    EncodeJoin(plain, x[n..], q + 4, m);
    var e := [m(q + 2), '1'] + (plain + Encode(x[n..], q + 4 + n, m));
    assert p[q + 2..] == e;
    forall i | q + 2 <= i < q + 4 + n ensures p[i] != '~' {
      assert p[i] == e[i - q - 2];
      if i >= q + 4 { assert p[i] == plain[i - q - 4]; }
    }
  }

  /** With no tilde left in memory a name that is the last of a path, and not cut in two by a slash, is found again exactly
      when it is safe; upper and lower case make no difference to that. */
  lemma DecodedNameFound(name: Text, m: Leftover, caseSensitive: bool)
    requires NulFree(name) && NoTildes(m) && NoSlash(Encode(name, 0, m))
    ensures Finds(name, m, caseSensitive) <==> Safe(name)
    ensures Decoded(name, m) == name <==> Safe(name)
  {
    SameString(name, caseSensitive);
    var q := FirstSpecial(name);
    if q == |name| {
      assert name[..q] == name;
      SafeIsDecoded(name, m);
    } else {
      SafeFrom(name, q);
      if name[q] == '/' {
        SlashIsNotFound(name, m, q, caseSensitive);
      } else if q < |name| - 1 {
        TildeIsNotFound(name, m, q, caseSensitive);
      } else {
        SafeIsDecoded(name, m);
      }
    }
  }

  /** Whatever memory held: exactly the safe names always decode to themselves. */
  lemma AlwaysDecodedIff(name: Text)
    requires NulFree(name)
    ensures (forall m: Leftover :: Decoded(name, m) == name) <==> Safe(name)
  {
    if Safe(name) {
      forall m: Leftover ensures Decoded(name, m) == name { SafeIsDecoded(name, m); }
    } else {
      var m: Leftover := _ => 'x';
      NoSlashLeft(name, 0, m);
      DecodedNameFound(name, m, true);
      assert Decoded(name, m) != name;
    }
  }

  /** The encoder writes no slash; only memory can hold one. */
  lemma {:induction false} NoSlashLeft(s: Text, at: nat, m: Leftover)
    requires forall i | i >= at :: m(i) != '/'
    ensures NoSlash(Encode(s, at, m))
    decreases |s|
  {
    if s != [] {
      NoSlashLeft(s[1..], at + 1, m);
      NoSlashLeft(s[1..], at + 2, m);
    }
  }

  // ----- memory full of tildes

  /** A tilde may have slashes behind it, and nothing else. */
  predicate TildeThenSlashes(name: Text) {
    if name == [] then true
    else if name[0] == '~' then forall i | 1 <= i < |name| :: name[i] == '/'
    else name[0] != '/' && TildeThenSlashes(name[1..])
  }

  predicate Slashes(x: Text) {
    forall i | 0 <= i < |x| :: x[i] == '/'
  }

  /** Behind a first tilde every slash is read as an escape in its turn; any other byte comes out as a slash. */
  lemma {:induction false} SlashChain(b: Text, to: nat, from: nat, x: Text, at: nat, m: Leftover)
    requires to < from <= |b| && b[to] == '/' && b[from..] == Encode(x, at, m) && at > 0 && OnlyTildes(m)
    ensures var r := DecodeInPlace(b, to, from);
      if Slashes(x) then r == b[..to] + x
      else |r| != to + |x| || exists i | 0 <= i < |x| :: r[to + i] == '/' && x[i] != '/'
    decreases |x|
  {
    var e := Encode(x, at, m);
    var r := DecodeInPlace(b, to, from);
    if x == [] {
      assert from == |b|;
    } else {
      EncodeFirst(x, at, m);
      assert e != [] && b[from] == b[from..][0] == e[0];
      if x[0] == '/' {
        var c := b[to + 1 := '/'];
        assert b[from + 1] == b[from..][1] == '1';
        EscapeStep(b, to, from);
        assert c[from + 2..] == b[from..][2..] == e[2..] == Encode(x[1..], at + 2, m);
        SlashChain(c, to + 1, from + 2, x[1..], at + 2, m);
        assert c[..to + 1] == b[..to] + ['/'] && x == ['/'] + x[1..];
        if Slashes(x[1..]) {
          assert Slashes(x);
        } else {
          if |r| == to + |x| {
            var i :| 0 <= i < |x[1..]| && r[to + 1 + i] == '/' && x[1..][i] != '/';
            assert r[to + (i + 1)] == '/' && x[i + 1] != '/';
          }
        }
      } else {
        if x[0] == '~' { assert b[from + 1] == b[from..][1] == '1'; }
        SlashStays(b, to, from);
        assert r[to + 0] == '/' && x[0] != '/';
      }
    }
  }

  lemma SlashStays(b: Text, to: nat, from: nat)
    requires to < from < |b| && b[to] == '/' && (b[from] == '~' ==> from + 1 < |b| && b[from + 1] == '1')
    ensures var r := DecodeInPlace(b, to, from); |r| > to && r[to] == '/'
  {
    var r := DecodeInPlace(b, to, from);
    if b[from] != '~' {
      FrontIsFinal(b, to + 1, from + 1);
    } else {
      EscapeStep(b, to, from);
      FrontIsFinal(b[to + 1 := '/'], to + 1, from + 2);
    }
    assert r[to] == r[..to + 1][to];
  }

  lemma TildesFrom(name: Text, q: nat)
    requires q <= |name| && Unspecial(name[..q]) && (q < |name| ==> Special(name[q]))
    ensures TildeThenSlashes(name) <==> q == |name| || (name[q] == '~' && Slashes(name[q + 1..]))
    decreases q
  {
    if q > 0 {
      assert name[0] == name[..q][0] && name[1..][..q - 1] == name[..q][1..];
      TildesFrom(name[1..], q - 1);
      if q < |name| { assert name[1..][q - 1] == name[q] && name[1..][q..] == name[q + 1..]; }
    } else if name != [] {
      var x := name[1..];
      if Slashes(x) { forall i | 1 <= i < |name| ensures name[i] == '/' { assert name[i] == x[i - 1]; } }
    }
  }

  /** If memory is full of tildes, a slash behind the first tilde is read as one, and in no other place. */
  lemma DecodedAmongTildes(name: Text, m: Leftover, caseSensitive: bool)
    requires NulFree(name) && OnlyTildes(m)
    ensures Finds(name, m, caseSensitive) <==> TildeThenSlashes(name)
    ensures Decoded(name, m) == name <==> TildeThenSlashes(name)
    ensures NoSlash(Encode(name, 0, m))
  {
    hide Encode, DecodeInPlace, CompareStrings, FoldCase;
    SameString(name, caseSensitive);
    NoSlashLeft(name, 0, m);
    var q := FirstSpecial(name);
    TildesFrom(name, q);
    if q == |name| {
      assert name[..q] == name;
      SafeIsDecoded(name, m);
    } else if name[q] == '/' {
      SlashAmongTildes(name, m, q, caseSensitive);
    } else {
      var x := name[q + 1..];
      BehindTilde(name, m, q);
      var p := Encode(name, 0, m);
      var b := p[q + 1 := '/'];
      assert b[q + 2..] == p[q + 2..];
      SlashChain(b, q + 1, q + 2, x, q + 2, m);
      FrontOfTilde(name, m, q);
      if Slashes(x) {
        assert b[..q + 1] + x == name;
      } else if |Decoded(name, m)| == |name| {
        var i :| 0 <= i < |x| && Decoded(name, m)[q + 1 + i] == '/' && x[i] != '/';
        assert name[q + 1 + i] == x[i];
        SpecialKeepsCase('/', x[i], caseSensitive);
        NotFound(name, m, q + 1 + i, caseSensitive);
      } else {
        NotFound(name, m, 0, caseSensitive);
      }
    }
  }

  lemma FrontOfTilde(name: Text, m: Leftover, q: nat)
    requires q < |name| && Unspecial(name[..q]) && name[q] == '~'
    ensures |Encode(name, 0, m)| >= q + 2 && Encode(name, 0, m)[..q + 1] == name[..q + 1]
  {
    var pre, x := name[..q], name[q..];
    assert name == pre + x;
    EncodeJoin(pre, x, 0, m);
    EncodeFirst(x, q, m);
  }

  lemma SlashAmongTildes(name: Text, m: Leftover, q: nat, caseSensitive: bool)
    requires NulFree(name) && OnlyTildes(m) && q < |name| && Unspecial(name[..q]) && name[q] == '/'
    ensures !Finds(name, m, caseSensitive) && Decoded(name, m) != name
  {
    hide Encode, DecodeInPlace, CompareStrings, FoldCase, Finds;
    var pre, x := name[..q], name[q..];
    var p := Encode(name, 0, m);
    assert name == pre + x;
    EncodeJoin(pre, x, 0, m);
    EncodeFirst(x, q, m);
    if q == 0 {
      assert p == [];
      NothingToDecode(p, 0);
      NotFound(name, m, 0, caseSensitive);
    } else {
      var r := Decoded(name, m);
      forall i | 0 <= i < q ensures p[i] != '~' { assert p[i] == pre[i]; }
      RunOn(p, 0, 0, q);
      assert p[q] == '~' && p[q + 1] == '1';
      EscapeStep(p, q, q);
      FrontIsFinal(p[q + 1 := '/'], q + 1, q + 2);
      assert r[q] == r[..q + 1][q] == '~';
      SpecialKeepsCase('~', '/', caseSensitive);
      if |r| == |name| { NotFound(name, m, q, caseSensitive); } else { NotFound(name, m, 0, caseSensitive); }
    }
  }

  // ----- patches at a name

  function One(name: Text, v: Json): Json {
    Object(Member(name, v, NoMember))
  }

  const EMPTY: Json := Object(NoMember)

  /** The encoded name behind the path of the root. */
  function Own(name: Text, memory: Memory): Text {
    Encode(name, 0, Behind(memory, [], name))
  }

  /** The only patch generated between two objects of at most one member, at its name. */
  lemma OwnPatches(name: Text, v: Json, w: Json, caseSensitive: bool, memory: Memory)
    ensures var p := ['/'] + Own(name, memory);
      && Diff([], EMPTY, One(name, v), caseSensitive, memory) == Item(Compose("add", p, Some(v)), NoItem)
      && Diff([], One(name, v), EMPTY, caseSensitive, memory) == Item(Compose("remove", p, None), NoItem)
      && (Kind(v) != Kind(w) ==>
            Diff([], One(name, v), One(name, w), caseSensitive, memory) == Item(Compose("replace", p, Some(w)), NoItem))
  {
    hide Compose, Encode;
    var f, t := Member(name, v, NoMember), Member(name, w, NoMember);
    assert SortMembers(f, caseSensitive) == f && SortMembers(t, caseSensitive) == t;
    assert SortMembers(NoMember, caseSensitive) == NoMember;
    assert Suffixed([], name, memory) == ['/'] + Own(name, memory);
    assert DiffMembers([], NoMember, NoMember, caseSensitive, memory) == NoItem;
    SameString(name, caseSensitive);
    hide SortMembers, CompareStrings;
    assert DiffMembers([], NoMember, f, caseSensitive, memory) == Item(Compose("add", Suffixed([], name, memory), Some(v)), NoItem);
    assert DiffMembers([], f, NoMember, caseSensitive, memory) == Item(Compose("remove", Suffixed([], name, memory), None), NoItem);
    var patches := Diff(Suffixed([], name, memory), v, w, caseSensitive, memory);
    AppendNothing(patches);
    assert DiffMembers([], f, t, caseSensitive, memory) == AppendItems(patches, NoItem);
  }

  lemma LastSlashes(p: Text) returns (k: nat)
    requires !NoSlash(p)
    ensures k < |p| && p[k] == '/' && forall i | k < i < |p| :: p[i] != '/'
  {
    k := |p| - 1;
    while p[k] != '/'
      invariant k < |p| && forall i | k < i < |p| :: p[i] != '/'
      invariant exists i :: 0 <= i <= k && p[i] == '/'
      decreases k
    {
      k := k - 1;
    }
  }

  /** A path that is one slash and a name without one: parent is the root, child the decoded name. */
  lemma WholePath(p: Text)
    requires NoSlash(p)
    ensures var path := ['/'] + p;
      LastSlash(path, |path|) == Some(0) && path[..0] == [] && path[1..] == p
  {
    var path := ['/'] + p;
    forall i | 0 < i < |path| ensures path[i] != '/' { assert path[i] == p[i - 1]; }
    LastSlashFound(path, 0, |path|);
  }

  /** A path that memory has cut: its parent is below the root. */
  lemma CutPath(p: Text) returns (k: nat)
    requires !NoSlash(p)
    ensures k < |p| && p[k] == '/'
    ensures var path := ['/'] + p; LastSlash(path, |path|) == Some(k + 1) && path[..k + 1] == ['/'] + p[..k]
  {
    k := LastSlashes(p);
    var path := ['/'] + p;
    forall i | k + 1 < i < |path| ensures path[i] != '/' { assert path[i] == p[i - 1]; }
    LastSlashFound(path, k + 1, |path|);
  }

  /** compare_pointers does not look behind a slash. */
  lemma {:induction false} CutAtSlash(name: Text, p: Text, k: nat, caseSensitive: bool)
    requires k < |p| && p[k] == '/'
    ensures MatchesToken(name, p[..k], caseSensitive) == MatchesToken(name, p, caseSensitive)
    decreases k
  {
    if k > 0 && name != [] && p[0] != '/' {
      assert p[..k][0] == p[0] && p[..k][1..] == p[1..][..k - 1];
      if p[0] != '~' {
        CutAtSlash(name[1..], p[1..], k - 1, caseSensitive);
      } else if k > 1 {
        assert p[..k][1] == p[1] && p[..k][2..] == p[2..][..k - 2];
        CutAtSlash(name[1..], p[2..], k - 2, caseSensitive);
      }
    }
  }

  /** What applying at the name does to an object without members, and to one with just this member. */
  lemma AtOwnName(name: Text, p: Text, v: Json, caseSensitive: bool)
    requires !NoSlash(p) ==> !MatchesToken(name, p, caseSensitive)
    ensures var path := ['/'] + p; var child := DecodeInPlace(p, 0, 0);
      && AddAt(EMPTY, path, v, caseSensitive) == (if NoSlash(p) then (0, One(child, v)) else (9, EMPTY))
      && DetachPath(One(name, v), path, caseSensitive)
         == if NoSlash(p) && CompareStrings(child, name, false) == 0 then Some((v, EMPTY)) else None
  {
    hide DecodeInPlace, CompareStrings, MatchesToken, LastSlash;
    var path := ['/'] + p;
    if NoSlash(p) {
      WholePath(p);
      var child, ms := DecodeInPlace(p, 0, 0), Member(name, v, NoMember);
      assert Lookup(NoMember, child, false) == None;
      assert Lookup(ms, child, false) == if CompareStrings(child, name, false) == 0 then Some(v) else None;
      assert CompareStrings(child, name, false) == 0 ==> RemoveMember(ms, child, false) == NoMember;
      assert Get(One(name, v), [], caseSensitive) == Some(One(name, v)) && Get(EMPTY, [], caseSensitive) == Some(EMPTY);
    } else {
      var k := CutPath(p);
      CutAtSlash(name, p, k, caseSensitive);
      var parent := path[..k + 1];
      assert parent[1..] == p[..k];
      assert Child(EMPTY, p[..k], caseSensitive) == None;
      assert FindToken(NoMember, p[..k], caseSensitive) == None;
      assert Child(One(name, v), p[..k], caseSensitive) == None;
      assert Get(EMPTY, parent, caseSensitive) == None && Get(One(name, v), parent, caseSensitive) == None;
    }
  }

  lemma OnlyPatch(doc: Json, patch: Json, caseSensitive: bool)
    ensures ApplyAll(doc, Item(patch, NoItem), caseSensitive) == ApplyPatch(doc, patch, caseSensitive)
  {
    hide ApplyPatch;
  }

  function Added(name: Text, v: Json, generate: bool, apply: bool, memory: Memory): (int, Json) {
    ApplyPatches(EMPTY, GeneratePatches(EMPTY, One(name, v), generate, memory), apply)
  }

  function Removed(name: Text, v: Json, generate: bool, apply: bool, memory: Memory): (int, Json) {
    ApplyPatches(One(name, v), GeneratePatches(One(name, v), EMPTY, generate, memory), apply)
  }

  function Replaced(name: Text, v: Json, w: Json, generate: bool, apply: bool, memory: Memory): (int, Json) {
    ApplyPatches(One(name, v), GeneratePatches(One(name, v), One(name, w), generate, memory), apply)
  }

  /** For every name and whatever memory held: what becomes of the patches generated for a member of that name. Adding
      can succeed under another name; removing and replacing are refused when the name is not found. */
  lemma OwnNamePatched(name: Text, v: Json, w: Json, generate: bool, apply: bool, memory: Memory)
    requires Kind(v) != Kind(w)
    ensures var m := Behind(memory, [], name); var whole := NoSlash(Own(name, memory));
      && Added(name, v, generate, apply, memory) == (if whole then (0, One(Decoded(name, m), v)) else (9, EMPTY))
      && Removed(name, v, generate, apply, memory)
         == (if whole && Finds(name, m, false) then (0, EMPTY) else (13, One(name, v)))
      && Replaced(name, v, w, generate, apply, memory)
         == (if whole && Finds(name, m, false) then (0, One(Decoded(name, m), w)) else (13, One(name, v)))
  {
    hide AddAt, DetachPath, Compose, Field, Diff, CompareStrings, DecodeInPlace, Encode, MatchesToken, Lucky, NoSlash;
    var m := Behind(memory, [], name);
    var p := Own(name, memory);
    var path := ['/'] + p;
    OwnPatches(name, v, w, generate, memory);
    EncodedNameMatches(name, 0, m, apply);
    LuckyNames(name, 0, m);
    AtOwnName(name, p, v, apply);
    AtOwnName(name, p, w, apply);
    ComposedFields("add", path, Some(v), apply);
    ComposedFields("remove", path, None, apply);
    ComposedFields("replace", path, Some(w), apply);
    assert Finds(name, m, false) <==> CompareStrings(DecodeInPlace(p, 0, 0), name, false) == 0;
    OnlyPatch(EMPTY, Compose("add", path, Some(v)), apply);
    OnlyPatch(One(name, v), Compose("remove", path, None), apply);
    OnlyPatch(One(name, v), Compose("replace", path, Some(w)), apply);
    assert path != [];
  }

  /** If memory held no tilde: adding, removing and replacing a member by its own name works exactly for safe names. */
  lemma OwnNameWorksIff(name: Text, v: Json, w: Json, generate: bool, apply: bool, memory: Memory)
    requires NulFree(name) && NoTildes(memory([], name)) && Kind(v) != Kind(w)
    ensures Added(name, v, generate, apply, memory) == (0, One(name, v)) <==> Safe(name)
    ensures Removed(name, v, generate, apply, memory) == (0, EMPTY) <==> Safe(name)
    ensures Replaced(name, v, w, generate, apply, memory) == (0, One(name, w)) <==> Safe(name)
  {
    hide Added, Removed, Replaced, Finds, Decoded, Encode;
    var m := Behind(memory, [], name);
    OwnNamePatched(name, v, w, generate, apply, memory);
    if NoSlash(Own(name, memory)) { DecodedNameFound(name, m, false); } else if Safe(name) { SafeIsDecoded(name, m); }
  }

  /** If memory held nothing but tildes, slashes behind a tilde work too. */
  lemma OwnNameAmongTildes(name: Text, v: Json, w: Json, generate: bool, apply: bool, memory: Memory)
    requires NulFree(name) && (forall i | i > 0 :: memory([], name)(i) == '~') && Kind(v) != Kind(w)
    ensures Added(name, v, generate, apply, memory) == (0, One(name, v)) <==> TildeThenSlashes(name)
    ensures Removed(name, v, generate, apply, memory) == (0, EMPTY) <==> TildeThenSlashes(name)
    ensures Replaced(name, v, w, generate, apply, memory) == (0, One(name, w)) <==> TildeThenSlashes(name)
  {
    hide Added, Removed, Replaced, Finds, Decoded, Encode;
    OwnNamePatched(name, v, w, generate, apply, memory);
    DecodedAmongTildes(name, Behind(memory, [], name), false);
  }

  /** Whatever memory held: exactly the safe names can always be added, removed and replaced. */
  lemma OwnNameAlwaysWorksIff(name: Text, v: Json, w: Json, generate: bool, apply: bool)
    requires NulFree(name) && Kind(v) != Kind(w)
    ensures (forall memory: Memory :: Added(name, v, generate, apply, memory) == (0, One(name, v))) <==> Safe(name)
    ensures (forall memory: Memory :: Removed(name, v, generate, apply, memory) == (0, EMPTY)) <==> Safe(name)
    ensures (forall memory: Memory :: Replaced(name, v, w, generate, apply, memory) == (0, One(name, w))) <==> Safe(name)
  {
    hide Added, Removed, Replaced, Encode, Finds, Decoded;
    if Safe(name) {
      forall memory: Memory
        ensures Added(name, v, generate, apply, memory) == (0, One(name, v))
        ensures Removed(name, v, generate, apply, memory) == (0, EMPTY)
        ensures Replaced(name, v, w, generate, apply, memory) == (0, One(name, w))
      {
        var m := Behind(memory, [], name);
        OwnNamePatched(name, v, w, generate, apply, memory);
        SafeIsDecoded(name, m);
        SafeIsFound(name, m);
      }
    } else {
      var memory: Memory := (path, suffix) => (_ => 'x');
      OwnNameWorksIff(name, v, w, generate, apply, memory);
      assert Added(name, v, generate, apply, memory) != (0, One(name, v));
    }
  }

  lemma SafeIsFound(name: Text, m: Leftover)
    requires Safe(name)
    ensures Finds(name, m, false)
  {
    SafeIsDecoded(name, m);
    SameString(name, false);
  }

  lemma TildeInsideDecodes(memory: Memory)
    ensures Own("a~b", memory) == "a~1b" && NoSlash(Own("a~b", memory)) && Decoded("a~b", Behind(memory, [], "a~b")) == "a~/"
  {
    var m := Behind(memory, [], "a~b");
    var p: Text := "a~1b";
    assert Encode("a~b", 0, m) == p by {
      assert "a~b"[1..] == "~b" && "~b"[1..] == "b" && "b"[1..] == "";
      assert Encode("b", 3, m) == "b";
      assert Encode("~b", 1, m) == "~1b";
    }
    assert DecodeInPlace(p, 0, 0) == "a~/" by {
      var c := p[2 := '/'];
      assert DecodeInPlace(p, 0, 0) == DecodeInPlace(p, 1, 1);
      assert DecodeInPlace(p, 1, 1) == DecodeInPlace(c, 2, 3);
      assert DecodeInPlace(c, 2, 3) == DecodeInPlace(c, 3, 4) == c[..3];
    }
  }

  /** A tilde inside a name: the patch for adding "a~b" is applied with status 0, and adds "a~/". */
  lemma TildeInsideIsCorrupted(v: Json, generate: bool, apply: bool, memory: Memory)
    ensures Added("a~b", v, generate, apply, memory) == (0, One("a~/", v))
  {
    hide Added, Removed, Replaced;
    TildeInsideDecodes(memory);
    OwnNamePatched("a~b", v, if v.Null? then True else Null, generate, apply, memory);
  }

  // ----- a member among others

  /** Whatever else the object holds: where the patch for a member goes, as long as memory did not cut its path with a
      slash. Every step acts on the decoded name. */
  lemma OwnNameAmongOthers(ms: Members, name: Text, v: Json, apply: bool, memory: Memory)
    requires NoSlash(Own(name, memory))
    ensures var doc, path, child := Object(ms), Suffixed([], name, memory), Decoded(name, Behind(memory, [], name));
      var there, rest := Lookup(ms, child, false).Some?, RemoveMember(ms, child, false);
      && ApplyPatch(doc, Compose("add", path, Some(v)), apply) == (0, Object(AddMember(RemoveMember(ms, child, apply), child, v)))
      && ApplyPatch(doc, Compose("remove", path, None), apply) == (if there then (0, Object(rest)) else (13, doc))
      && ApplyPatch(doc, Compose("replace", path, Some(v)), apply)
         == if there then (0, Object(AddMember(RemoveMember(rest, child, apply), child, v))) else (13, doc)
  {
    hide Compose, Field, Encode, DecodeInPlace, LastSlash, Lookup, RemoveMember, AddMember, CompareStrings, NoSlash;
    var doc, p := Object(ms), Own(name, memory);
    var path := ['/'] + p;
    assert Suffixed([], name, memory) == path;
    assert path != [];
    WholePath(p);
    var child := DecodeInPlace(p, 0, 0);
    ComposedFields("add", path, Some(v), apply);
    ComposedFields("remove", path, None, apply);
    ComposedFields("replace", path, Some(v), apply);
    AtRootMember(doc, path, child, v, apply);
    if Lookup(ms, child, false).Some? { AtRootMember(Object(RemoveMember(ms, child, false)), path, child, v, apply); }
  }

  lemma AtRootMember(doc: Json, path: Text, child: Text, v: Json, apply: bool)
    requires doc.Object? && LastSlash(path, |path|) == Some(0) && path[..0] == [] && DecodeInPlace(path[1..], 0, 0) == child
    ensures AddAt(doc, path, v, apply) == (0, Object(AddMember(RemoveMember(doc.members, child, apply), child, v)))
    ensures DetachPath(doc, path, apply) ==
      if Lookup(doc.members, child, false).None? then None
      else Some((Lookup(doc.members, child, false).value, Object(RemoveMember(doc.members, child, false))))
  {
    hide DecodeInPlace, LastSlash, Lookup, RemoveMember, AddMember;
    assert Get(doc, [], apply) == Some(doc);
  }

  /** Adding "a~b" to an object that holds "a~/" overwrites that member. */
  lemma NeighbourIsOverwritten(x: Json, v: Json, apply: bool, memory: Memory)
    ensures ApplyPatch(One("a~/", x), Compose("add", Suffixed([], "a~b", memory), Some(v)), apply) == (0, One("a~/", v))
  {
    TildeInsideDecodes(memory);
    OwnNameAmongOthers(Member("a~/", x, NoMember), "a~b", v, apply, memory);
    SameString("a~/", apply);
  }

  // ----- patches below a name

  /** One member, holding one object with one member. */
  function Nest(name: Text, v: Json): Json {
    One(name, One("a", v))
  }

  lemma NestDiff(name: Text, caseSensitive: bool, memory: Memory)
    ensures Diff([], Nest(name, Null), Nest(name, True), caseSensitive, memory)
         == Item(Compose("replace", ['/'] + Own(name, memory) + ['/'] + "a", Some(True)), NoItem)
  {
    SameMember([], name, One("a", Null), One("a", True), caseSensitive, memory);
    var here := Suffixed([], name, memory);
    assert here == ['/'] + Own(name, memory);
    SameMember(here, "a", Null, True, caseSensitive, memory);
    UnspecialIsNotEncoded("a", 0, Behind(memory, here, "a"));
    assert Suffixed(here, "a", memory) == ['/'] + Own(name, memory) + ['/'] + "a";
  }

  /** Two objects with the same single name. */
  lemma SameMember(path: Text, name: Text, v: Json, w: Json, caseSensitive: bool, memory: Memory)
    ensures Diff(path, One(name, v), One(name, w), caseSensitive, memory)
         == Diff(Suffixed(path, name, memory), v, w, caseSensitive, memory)
  {
    var f, t := Member(name, v, NoMember), Member(name, w, NoMember);
    assert SortMembers(f, caseSensitive) == f && SortMembers(t, caseSensitive) == t;
    hide SortMembers, Suffixed;
    SameString(name, caseSensitive);
    var patches := Diff(Suffixed(path, name, memory), v, w, caseSensitive, memory);
    AppendNothing(patches);
    assert DiffMembers(path, NoMember, NoMember, caseSensitive, memory) == NoItem;
    assert DiffMembers(path, f, t, caseSensitive, memory) == AppendItems(patches, NoItem);
  }

  /** For every name and whatever memory held: changing a value below the name by patch succeeds exactly when the name is
      lucky, and is refused with status 13 otherwise. */
  lemma ChangeBelowName(name: Text, generate: bool, apply: bool, memory: Memory)
    ensures var status := ApplyPatches(Nest(name, Null), GeneratePatches(Nest(name, Null), Nest(name, True), generate, memory), apply).0;
      status == if Lucky(name, 0, Behind(memory, [], name)) then 0 else 13
  {
    hide Encode, Diff, Compose, LastSlash, DecodeInPlace, Field;
    var doc := Nest(name, Null);
    var p := Own(name, memory);
    var parent := ['/'] + p;
    var path := parent + ['/'] + "a";
    var lucky := Lucky(name, 0, Behind(memory, [], name));
    NestDiff(name, generate, memory);
    ComposedFields("replace", path, Some(True), apply);
    PathSplits(parent, "a");
    NestParent(name, Member("a", Null, NoMember), memory, apply);
    NestParent(name, NoMember, memory, apply);
    hide Get, SetAt;
    SameString("a", false);
    var patch := Compose("replace", path, Some(True));
    assert path != [];
    assert ApplyPatch(doc, patch, apply) == ApplyAt(doc, patch, path, apply);
    var detached := DetachPath(doc, path, apply);
    assert detached.Some? <==> lucky;
    if lucky {
      assert detached.value.1 == One(name, EMPTY);
      assert AddAt(detached.value.1, path, True, apply).0 == 0;
    }
    assert ApplyPatch(doc, patch, apply).0 == if lucky then 0 else 13;
    assert GeneratePatches(doc, Nest(name, True), generate, memory) == Array(Item(patch, NoItem));
    OnlyPatch(doc, patch, apply);
  }

  /** With no tilde in the memory behind the path it succeeds exactly when the name has no '~' and no '/'. */
  lemma ChangeBelowNameIff(name: Text, generate: bool, apply: bool, memory: Memory)
    requires NoTildes(Behind(memory, [], name))
    ensures var status := ApplyPatches(Nest(name, Null), GeneratePatches(Nest(name, Null), Nest(name, True), generate, memory), apply).0;
      status == 0 <==> Unspecial(name)
  {
    hide GeneratePatches, ApplyPatches;
    ChangeBelowName(name, generate, apply, memory);
    LuckyNames(name, 0, Behind(memory, [], name));
  }

  /** Reaching and changing the inner object. */
  lemma NestParent(name: Text, inner: Members, memory: Memory, caseSensitive: bool)
    ensures var doc, parent := One(name, Object(inner)), ['/'] + Own(name, memory);
      if Lucky(name, 0, Behind(memory, [], name))
      then Get(doc, parent, caseSensitive) == Some(Object(inner)) && SetAt(doc, parent, EMPTY, caseSensitive) == One(name, EMPTY)
      else Get(doc, parent, caseSensitive) == None
  {
    hide Encode, MatchesToken;
    var p := Own(name, memory);
    var doc, parent := One(name, Object(inner)), ['/'] + p;
    var m := Behind(memory, [], name);
    EncodedNameMatches(name, 0, m, caseSensitive);
    LuckyNames(name, 0, m);
    assert parent[1..] == p;
    assert FindToken(NoMember, p, caseSensitive) == None;
    assert Child(doc, p, caseSensitive) == if Lucky(name, 0, m) then Some(Object(inner)) else None;
    if Lucky(name, 0, m) {
      assert p + [] == p;
      TokenIsSkipped(p, []);
    }
  }
}
