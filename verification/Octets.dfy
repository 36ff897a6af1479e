/** Byte strings as the C code sees them: every character is one unsigned char. */
module Octets {
  datatype Option<+T> = None | Some(value: T)

  /** A byte where numbers are meant. */
  type Byte = x: int | 0 <= x < 256

  type Octet = c: char | c as int < 256

  type Text = seq<Octet>

  /** A C string never holds its own terminator. */
  ghost predicate NulFree(t: Text) {
    forall i | 0 <= i < |t| :: t[i] != '\0'
  }

  /** The bytes of t stand in c at offset o. */
  ghost predicate At(c: Text, o: nat, t: Text) {
    && o + |t| <= |c|
    && forall i | 0 <= i < |t| :: c[o + i] == t[i]
  }

  lemma AtSplit(c: Text, o: nat, a: Text, b: Text)
    requires At(c, o, a + b)
    ensures At(c, o, a) && At(c, o + |a|, b)
    ensures o + |a| + |b| <= |c|
  {
    forall i | 0 <= i < |a| ensures c[o + i] == a[i] { assert (a + b)[i] == a[i]; }
    forall i | 0 <= i < |b| ensures c[o + |a| + i] == b[i] { assert (a + b)[|a| + i] == b[i]; }
  }

  lemma AtEnd(c: Text, o: nat, t: Text)
    requires At(c, o, t)
    ensures o + |t| <= |c|
  {
  }

  lemma AtFirst(c: Text, o: nat, t: Text)
    requires At(c, o, t) && |t| > 0
    ensures o < |c| && c[o] == t[0]
    ensures At(c, o + 1, t[1..])
  {
    forall i | 0 <= i < |t[1..]| ensures c[o + 1 + i] == t[1..][i] { assert c[o + (1 + i)] == t[1 + i]; }
  }

  /** The part of t that strlen and strcmp see. */
  function UpToNul(t: Text): (r: Text)
    ensures NulFree(r)
    ensures |r| <= |t| && r == t[..|r|]
    ensures |r| < |t| ==> t[|r|] == '\0'
  {
    if t == [] || t[0] == '\0' then []
    else
      var r := UpToNul(t[1..]);
      [t[0]] + r
  }

  lemma UpToNulIdentity(t: Text)
    requires NulFree(t)
    ensures UpToNul(t) == t
  {
  }
}
