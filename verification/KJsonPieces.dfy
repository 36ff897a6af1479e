/** What kJSON_Minify keeps, piece by piece: blanks and both kinds of comments go, string literals and all else stay. */
module KJsonPieces {
  import opened Octets
  import opened KJsonMinify
  import Spelling = KJsonSpelling

  datatype Piece = Blank(b: Octet) | Line(body: Text) | Block(inner: Text) | Literal(body: Text) | Other(b: Octet)

  function TextOf(p: Piece): (t: Text)
    ensures t != []
  {
    match p
    case Blank(b) => [b]
    case Line(body) => "//" + body
    case Block(inner) => "/" + inner + "*/"
    case Literal(body) => "\"" + body + "\""
    case Other(b) => [b]
  }

  function Kept(p: Piece): Text {
    match p
    case Literal(body) => "\"" + body + "\""
    case Other(b) => [b]
    case _ => []
  }

  /** Between the slash that opens a block comment and the mark that ends it: a star and whatever holds no such mark, or
      nothing, as the opening star is also taken for the star of the end. */
  ghost predicate Inner(t: Text) {
    t == [] || (t[0] == '*' && forall i | 0 <= i < |t| - 1 :: !(t[i] == '*' && t[i + 1] == '/'))
  }

  /** p may stand in front of the rest. */
  ghost predicate Proper(p: Piece, rest: Text) {
    match p
    case Blank(b) => b in " \t\r\n"
    case Line(body) => '\n' !in body && (rest != [] ==> rest[0] == '\n')
    case Block(inner) => Inner(inner)
    case Literal(body) => Spelling.QuotesEscaped(body)
    case Other(b) => b !in " \t\r\n\"" && (b == '/' && rest != [] ==> rest[0] != '/' && rest[0] != '*')
  }

  function TextOfAll(ps: seq<Piece>): Text {
    if ps == [] then [] else TextOf(ps[0]) + TextOfAll(ps[1..])
  }

  function KeptOfAll(ps: seq<Piece>): Text {
    if ps == [] then [] else Kept(ps[0]) + KeptOfAll(ps[1..])
  }

  ghost predicate ProperAll(ps: seq<Piece>) {
    ps == [] || (Proper(ps[0], TextOfAll(ps[1..])) && ProperAll(ps[1..]))
  }

  lemma {:induction false} LineEnds(s: Text, i: nat, body: Text, rest: Text)
    requires i <= |s| && s[i..] == body + rest && '\n' !in body && (rest != [] ==> rest[0] == '\n')
    ensures EndOfLine(s, i) == i + |body|
    decreases |body|
  {
    assert |s| - i == |body| + |rest|;
    if body != [] {
      assert s[i] == s[i..][0] == body[0];
      assert s[i + 1..] == s[i..][1..] == body[1..] + rest;
      LineEnds(s, i + 1, body[1..], rest);
    } else if rest != [] {
      assert s[i] == s[i..][0] == rest[0];
    }
  }

  lemma {:induction false} BlockEnds(s: Text, i: nat, body: Text, rest: Text)
    requires i <= |s| && s[i..] == body + "*/" + rest
    requires forall k | 0 <= k < |body| - 1 :: !(body[k] == '*' && body[k + 1] == '/')
    ensures CommentEnd(s, i) == i + |body|
    decreases |body|
  {
    assert |s| - i == |body| + 2 + |rest|;
    var t := body + "*/" + rest;
    assert s[i] == t[0] && s[i + 1] == t[1];
    if body != [] {
      if |body| > 1 { assert !(body[0] == '*' && body[0 + 1] == '/'); }
      assert s[i + 1..] == s[i..][1..] == body[1..] + "*/" + rest;
      forall k | 0 <= k < |body[1..]| - 1 ensures !(body[1..][k] == '*' && body[1..][k + 1] == '/') {
        assert !(body[k + 1] == '*' && body[k + 1 + 1] == '/');
      }
      BlockEnds(s, i + 1, body[1..], rest);
    }
  }

  lemma {:induction false} LiteralEnds(s: Text, i: nat, body: Text, rest: Text)
    requires i <= |s| && s[i..] == body + "\"" + rest && Spelling.QuotesEscaped(body)
    ensures LiteralEnd(s, i) == Some(i + |body| + 1)
    decreases |body|
  {
    assert |s| - i == |body| + 1 + |rest|;
    var t := body + "\"" + rest;
    assert s[i] == t[0];
    if body != [] {
      if body[0] != '\\' {
        assert s[i + 1..] == s[i..][1..] == body[1..] + "\"" + rest;
        LiteralEnds(s, i + 1, body[1..], rest);
      } else {
        assert s[i + 2..] == s[i..][2..] == body[2..] + "\"" + rest;
        LiteralEnds(s, i + 2, body[2..], rest);
      }
    }
  }

  lemma PieceMinified(s: Text, i: nat, p: Piece, rest: Text)
    requires i <= |s| && s[i..] == TextOf(p) + rest && Proper(p, rest)
    ensures i + |TextOf(p)| <= |s| && Minified(s, i) == Keep(Kept(p), Minified(s, i + |TextOf(p)|))
  {
    hide Spelling.QuotesEscaped, Inner, Minified;
    assert |s| - i == |TextOf(p)| + |rest|;
    KeepNothing(Minified(s, i + |TextOf(p)|));
    match p
    case Blank(b) => ByteMinified(s, i, p, rest);
    case Line(body) => LineMinified(s, i, body, rest);
    case Block(inner) => BlockMinified(s, i, inner, rest);
    case Literal(body) => LiteralMinified(s, i, body, rest);
    case Other(b) => ByteMinified(s, i, p, rest);
  }

  lemma ByteMinified(s: Text, i: nat, p: Piece, rest: Text)
    requires i < |s| && s[i..] == TextOf(p) + rest && Proper(p, rest) && (p.Blank? || p.Other?)
    ensures Minified(s, i) == if p.Blank? then Minified(s, i + 1) else Keep([p.b], Minified(s, i + 1))
  {
    hide EndOfLine, CommentEnd, LiteralEnd;
    var t := TextOf(p) + rest;
    assert s[i] == t[0] == p.b;
    if i + 1 < |s| { assert s[i + 1] == t[1] == rest[0]; }
  }

  lemma LineMinified(s: Text, i: nat, body: Text, rest: Text)
    requires i <= |s| && s[i..] == "//" + body + rest && Proper(Line(body), rest)
    ensures i + 2 + |body| <= |s| && Minified(s, i) == Minified(s, i + 2 + |body|)
  {
    hide EndOfLine, CommentEnd, LiteralEnd;
    var t := "//" + body + rest;
    assert s[i] == t[0] && s[i + 1] == t[1];
    assert s[i + 1..] == s[i..][1..] == ("/" + body) + rest;
    LineEnds(s, i + 1, "/" + body, rest);
  }

  lemma BlockMinified(s: Text, i: nat, inner: Text, rest: Text)
    requires i <= |s| && s[i..] == "/" + inner + "*/" + rest && Inner(inner)
    ensures i + 3 + |inner| <= |s| && Minified(s, i) == Minified(s, i + 3 + |inner|)
  {
    hide EndOfLine, CommentEnd, LiteralEnd;
    var t := "/" + inner + "*/" + rest;
    assert s[i] == t[0] && s[i + 1] == t[1] == '*';
    assert s[i + 1..] == s[i..][1..] == inner + "*/" + rest;
    BlockEnds(s, i + 1, inner, rest);
  }

  lemma LiteralMinified(s: Text, i: nat, body: Text, rest: Text)
    requires i <= |s| && s[i..] == "\"" + body + "\"" + rest && Spelling.QuotesEscaped(body)
    ensures i + 2 + |body| <= |s| && Minified(s, i) == Keep("\"" + body + "\"", Minified(s, i + 2 + |body|))
  {
    hide EndOfLine, CommentEnd, LiteralEnd;
    var whole := "\"" + body + "\"";
    assert s[i] == (whole + rest)[0];
    assert s[i + 1..] == s[i..][1..] == body + "\"" + rest;
    LiteralEnds(s, i + 1, body, rest);
    assert s[i..i + |whole|] == s[i..][..|whole|] == whole;
  }

  lemma KeepNothing(r: Option<Text>)
    ensures Keep([], r) == r
  {
    if r.Some? { assert [] + r.value == r.value; }
  }

  lemma {:induction false} PiecesMinified(s: Text, i: nat, ps: seq<Piece>)
    requires i <= |s| && s[i..] == TextOfAll(ps) && ProperAll(ps)
    ensures Minified(s, i) == Some(KeptOfAll(ps))
    decreases |ps|
  {
    hide Minified, Proper, TextOf, Kept;
    if ps == [] {
      NoneLeft(s, i);
    } else {
      var p, rest := ps[0], TextOfAll(ps[1..]);
      PieceMinified(s, i, p, rest);
      assert s[i + |TextOf(p)|..] == s[i..][|TextOf(p)|..] == rest;
      PiecesMinified(s, i + |TextOf(p)|, ps[1..]);
    }
  }

  lemma NoneLeft(s: Text, i: nat)
    requires i <= |s| && s[i..] == []
    ensures Minified(s, i) == Some([])
  {
  }

  lemma {:induction false} LineFound(s: Text, i: nat)
    requires i <= |s|
    ensures var j := EndOfLine(s, i); '\n' !in s[i..j] && (j < |s| ==> s[j] == '\n')
    decreases |s| - i
  {
    if i < |s| && s[i] != '\n' {
      LineFound(s, i + 1);
      assert s[i..EndOfLine(s, i)] == [s[i]] + s[i + 1..EndOfLine(s, i)];
    }
  }

  lemma {:induction false} BlockFound(s: Text, i: nat)
    requires i <= |s|
    ensures var j := CommentEnd(s, i);
      && (j < |s| ==> s[j] == '*' && s[j + 1] == '/')
      && forall k | i <= k < j && k + 1 < |s| :: !(s[k] == '*' && s[k + 1] == '/')
    decreases |s| - i
  {
    if i < |s| && !(s[i] == '*' && ByteAt(s, i + 1) == '/') { BlockFound(s, i + 1); }
  }

  lemma {:induction false} LiteralFound(s: Text, i: nat)
    requires i <= |s| && LiteralEnd(s, i).Some?
    ensures var j := LiteralEnd(s, i).value; Spelling.QuotesEscaped(s[i..j - 1]) && s[j - 1] == '"'
    decreases |s| - i
  {
    var j := LiteralEnd(s, i).value;
    if s[i] == '"' {
      assert s[i..j - 1] == [];
    } else if s[i] != '\\' {
      LiteralFound(s, i + 1);
      assert s[i..j - 1][1..] == s[i + 1..j - 1];
    } else {
      LiteralFound(s, i + 2);
      assert s[i..j - 1][2..] == s[i + 2..j - 1];
    }
  }

  /** The piece at i. */
  lemma NextPiece(s: Text, i: nat) returns (p: Piece)
    requires NulFree(s) && i < |s| && Minified(s, i).Some?
    ensures i + |TextOf(p)| <= |s| && s[i..i + |TextOf(p)|] == TextOf(p) && Proper(p, s[i + |TextOf(p)|..])
    ensures Minified(s, i + |TextOf(p)|).Some?
  {
    hide Spelling.QuotesEscaped, EndOfLine, CommentEnd, LiteralEnd, Proper, TextOf;
    if IsBlank(s[i]) {
      p := ByteAlone(s, i);
    } else if s[i] == '/' && ByteAt(s, i + 1) == '/' {
      p := LineAt(s, i);
    } else if s[i] == '/' && ByteAt(s, i + 1) == '*' {
      p := BlockAt(s, i);
    } else if s[i] == '"' {
      p := LiteralAt(s, i);
    } else {
      p := ByteAlone(s, i);
    }
  }

  lemma ByteAlone(s: Text, i: nat) returns (p: Piece)
    requires NulFree(s) && i < |s| && s[i] != '"'
    requires s[i] == '/' ==> ByteAt(s, i + 1) != '/' && ByteAt(s, i + 1) != '*'
    ensures |TextOf(p)| == 1 && s[i..i + 1] == TextOf(p) && Proper(p, s[i + 1..])
  {
    p := if IsBlank(s[i]) then Blank(s[i]) else Other(s[i]);
  }

  lemma LineAt(s: Text, i: nat) returns (p: Piece)
    requires NulFree(s) && i < |s| && s[i] == ByteAt(s, i + 1) == '/'
    ensures var j := EndOfLine(s, i + 1); |TextOf(p)| == j - i && s[i..j] == TextOf(p) && Proper(p, s[j..])
  {
    LineFound(s, i + 1);
    var j := EndOfLine(s, i + 1);
    p := Line(s[i + 2..j]);
    assert s[i + 1..j] == [s[i + 1]] + s[i + 2..j];
  }

  lemma BlockAt(s: Text, i: nat) returns (p: Piece)
    requires NulFree(s) && i < |s| && s[i] == '/' && ByteAt(s, i + 1) == '*' && CommentEnd(s, i + 1) < |s|
    ensures var j := CommentEnd(s, i + 1); |TextOf(p)| == j + 2 - i && s[i..j + 2] == TextOf(p) && Proper(p, s[j + 2..])
  {
    BlockFound(s, i + 1);
    var j := CommentEnd(s, i + 1);
    p := Block(s[i + 1..j]);
    var t := s[i + 1..j];
    forall k | 0 <= k < |t| - 1 ensures !(t[k] == '*' && t[k + 1] == '/') {
      assert t[k] == s[i + 1 + k] && t[k + 1] == s[i + 1 + k + 1];
    }
  }

  lemma LiteralAt(s: Text, i: nat) returns (p: Piece)
    requires i < |s| && s[i] == '"' && LiteralEnd(s, i + 1).Some?
    ensures var j := LiteralEnd(s, i + 1).value; |TextOf(p)| == j - i && s[i..j] == TextOf(p) && Proper(p, s[j..])
  {
    hide Spelling.QuotesEscaped, LiteralEnd;
    LiteralFound(s, i + 1);
    var j := LiteralEnd(s, i + 1).value;
    var body := s[i + 1..j - 1];
    p := Literal(body);
    assert s[i..j] == [s[i]] + body + [s[j - 1]];
  }

  lemma {:induction false} CutUp(s: Text, i: nat) returns (ps: seq<Piece>)
    requires NulFree(s) && i <= |s| && Minified(s, i).Some?
    ensures ProperAll(ps) && TextOfAll(ps) == s[i..]
    decreases |s| - i
  {
    hide Minified, Proper, TextOf;
    if i == |s| {
      ps := [];
    } else {
      var p := NextPiece(s, i);
      var j := i + |TextOf(p)|;
      var rest := CutUp(s, j);
      ps := [p] + rest;
      assert ps[1..] == rest;
      assert s[i..] == s[i..j] + s[j..];
    }
  }

  ghost predicate Cut(ps: seq<Piece>, s: Text, r: Text) {
    ProperAll(ps) && TextOfAll(ps) == s && KeptOfAll(ps) == r
  }

  /** The minified text is what is kept of the pieces, and there is one just if the text can be cut into pieces at all, which
      fails when a literal or a block comment is left open. */
  lemma MinifiedByPieces(s: Text, r: Text)
    requires NulFree(s)
    ensures Minified(s, 0) == Some(r) <==> exists ps :: Cut(ps, s, r)
  {
    hide Minified, ProperAll, TextOfAll, KeptOfAll;
    assert s[0..] == s;
    if Minified(s, 0) == Some(r) {
      var ps := CutUp(s, 0);
      PiecesMinified(s, 0, ps);
      assert Cut(ps, s, r);
    }
    if ps :| Cut(ps, s, r) { PiecesMinified(s, 0, ps); }
  }
}
