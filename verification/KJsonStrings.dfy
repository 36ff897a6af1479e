/** Comparing names: strcmp and its case-insensitive sibling. */
module KJsonStrings {
  import opened Octets

  /** tolower in the C locale. */
  function ToLower(b: Octet): Octet {
    if 'A' <= b <= 'Z' then (b as int + 32) as char else b
  }

  /** The byte a C string shows at its start; the terminator when it is empty. */
  function Head(s: Text): Octet {
    if s == [] then '\0' else s[0]
  }

  function FoldCase(b: Octet, caseSensitive: bool): Octet {
    if caseSensitive then b else ToLower(b)
  }

  /** compare_strings and case_insensitive_strcmp on strings that are not NULL. */
  function CompareStrings(a: Text, b: Text, caseSensitive: bool): int {
    var x, y := FoldCase(Head(a), caseSensitive), FoldCase(Head(b), caseSensitive);
    if x != y then x as int - y as int
    else if a == [] || b == [] then 0
    else CompareStrings(a[1..], b[1..], caseSensitive)
  }

  /** Names that JSON pointers carry unchanged. */
  predicate PlainByte(b: Octet) {
    b != '\0' && b != '~' && b != '/'
  }

  ghost predicate Plain(s: Text) {
    forall i | 0 <= i < |s| :: PlainByte(s[i])
  }

  ghost predicate Less(a: Text, b: Text, caseSensitive: bool) {
    CompareStrings(a, b, caseSensitive) < 0
  }

  lemma {:induction false} SameString(s: Text, caseSensitive: bool)
    ensures CompareStrings(s, s, caseSensitive) == 0
    decreases |s|
  {
    if s != [] { SameString(s[1..], caseSensitive); }
  }

  lemma {:induction false} ExactComparison(a: Text, b: Text)
    requires NulFree(a) && NulFree(b)
    ensures CompareStrings(a, b, true) == 0 <==> a == b
    decreases |a|
  {
    if a != [] && b != [] && a[0] == b[0] {
      ExactComparison(a[1..], b[1..]);
      assert a == [a[0]] + a[1..] && b == [b[0]] + b[1..];
    }
  }

  lemma {:induction false} Asymmetric(a: Text, b: Text, caseSensitive: bool)
    ensures CompareStrings(a, b, caseSensitive) == -CompareStrings(b, a, caseSensitive)
    decreases |a|
  {
    if a != [] && b != [] && FoldCase(a[0], caseSensitive) == FoldCase(b[0], caseSensitive) {
      Asymmetric(a[1..], b[1..], caseSensitive);
    }
  }

  /** Both comparisons order the names. */
  lemma {:induction false} LessTransitive(a: Text, b: Text, c: Text, caseSensitive: bool)
    requires NulFree(a) && NulFree(b) && NulFree(c)
    requires Less(a, b, caseSensitive) && Less(b, c, caseSensitive)
    ensures Less(a, c, caseSensitive)
    decreases |a|
  {
    if a != [] && b != [] && c != []
      && FoldCase(a[0], caseSensitive) == FoldCase(b[0], caseSensitive) == FoldCase(c[0], caseSensitive)
    {
      LessTransitive(a[1..], b[1..], c[1..], caseSensitive);
    }
  }

  lemma PlainIsNulFree(s: Text)
    requires Plain(s)
    ensures NulFree(s)
  {
  }

  /** No other name among these is the same but for case. */
  ghost predicate Fits(k: Text, names: set<Text>) {
    forall l | l in names :: CompareStrings(k, l, false) == 0 ==> k == l
  }

  /** The comparison finds the name itself among these, and no other. */
  lemma FitsComparison(k: Text, names: set<Text>, l: Text, caseSensitive: bool)
    requires Plain(k) && Plain(l) && Fits(k, names) && l in names
    ensures CompareStrings(k, l, caseSensitive) == 0 <==> k == l
    ensures CompareStrings(l, k, caseSensitive) == 0 <==> k == l
  {
    PlainIsNulFree(k);
    PlainIsNulFree(l);
    SameString(k, caseSensitive);
    ExactComparison(k, l);
    Asymmetric(k, l, caseSensitive);
  }

  // ----- what the comparisons are

  /** a comes before b: it is a beginning of b, or at the first difference its byte is the smaller one. */
  ghost predicate Precedes(a: Text, b: Text) {
    exists k :: DiffersAt(a, b, k)
  }

  ghost predicate DiffersAt(a: Text, b: Text, k: nat) {
    && k <= |a| && k < |b| && (forall i | 0 <= i < k :: a[i] == b[i])
    && (k < |a| ==> (a[k] as int) < b[k] as int)
  }

  lemma {:induction false} ComparesBytes(a: Text, b: Text)
    requires NulFree(a) && NulFree(b)
    ensures CompareStrings(a, b, true) < 0 <==> Precedes(a, b)
    decreases |a|
  {
    if CompareStrings(a, b, true) < 0 { var k := FirstDifference(a, b); }
    if k :| DiffersAt(a, b, k) { DifferenceDecides(a, b, k); }
  }

  lemma {:induction false} FirstDifference(a: Text, b: Text) returns (k: nat)
    requires NulFree(a) && NulFree(b) && CompareStrings(a, b, true) < 0
    ensures DiffersAt(a, b, k)
    decreases |a|
  {
    if a != [] && b != [] && a[0] == b[0] {
      var j := FirstDifference(a[1..], b[1..]);
      k := j + 1;
      forall i | 0 <= i < k ensures a[i] == b[i] { if i > 0 { assert a[i] == a[1..][i - 1] && b[i] == b[1..][i - 1]; } }
    } else {
      k := 0;
    }
  }

  lemma {:induction false} DifferenceDecides(a: Text, b: Text, k: nat)
    requires NulFree(a) && NulFree(b) && DiffersAt(a, b, k)
    ensures CompareStrings(a, b, true) < 0
    decreases |a|
  {
    if k > 0 {
      assert a[0] == b[0];
      forall i | 0 <= i < k - 1 ensures a[1..][i] == b[1..][i] { assert a[i + 1] == b[i + 1]; }
      DifferenceDecides(a[1..], b[1..], k - 1);
    }
  }

  /** The text with the 26 letters of ASCII made small. */
  function Small(s: Text): (r: Text)
    ensures |r| == |s|
  {
    if s == [] then []
    else [if 'A' <= s[0] <= 'Z' then "abcdefghijklmnopqrstuvwxyz"[s[0] as int - 'A' as int] else s[0]] + Small(s[1..])
  }

  lemma SmallLetter(b: Octet)
    ensures ToLower(b) == if 'A' <= b <= 'Z' then "abcdefghijklmnopqrstuvwxyz"[b as int - 'A' as int] else b
  {
  }

  /** Without regard to case the comparison is that of the small texts. */
  lemma {:induction false} ComparesSmall(a: Text, b: Text)
    ensures CompareStrings(a, b, false) == CompareStrings(Small(a), Small(b), true)
    decreases |a|
  {
    if a != [] { SmallLetter(a[0]); }
    if b != [] { SmallLetter(b[0]); }
    if a != [] && b != [] {
      ComparesSmall(a[1..], b[1..]);
      assert Small(a)[1..] == Small(a[1..]) && Small(b)[1..] == Small(b[1..]);
    }
  }
}
