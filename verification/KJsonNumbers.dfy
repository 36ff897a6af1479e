/** Numerals and what they denote, and that strtod reads them so: sign, digits, fraction and exponent. */
module KJsonNumbers {
  import opened Octets
  import opened KJsonText
  import opened KJsonGrammar

  ghost predicate AllDigits(t: Text) {
    forall i | 0 <= i < |t| :: IsDigit(t[i])
  }

  /** The number that digits denote, behind those that denote acc. */
  function Fold(t: Text, acc: nat): nat
    requires AllDigits(t)
  {
    if t == [] then acc else Fold(t[1..], 10 * acc + (t[0] as int - '0' as int))
  }

  function Ten(k: nat): nat {
    if k == 0 then 1 else 10 * Ten(k - 1)
  }

  lemma TenMore(acc: nat, k: nat)
    ensures acc * Ten(k + 1) == 10 * (acc * Ten(k))
    ensures Ten(k + 1) == 10 * Ten(k)
  {
  }

  lemma {:induction false} FoldSnoc(t: Text, b: Octet, acc: nat)
    requires AllDigits(t) && IsDigit(b)
    ensures AllDigits(t + [b]) && Fold(t + [b], acc) == 10 * Fold(t, acc) + (b as int - '0' as int)
    decreases |t|
  {
    if t == [] {
      assert t + [b] == [b] && [b][1..] == [];
    } else {
      assert (t + [b])[1..] == t[1..] + [b];
      FoldSnoc(t[1..], b, 10 * acc + (t[0] as int - '0' as int));
    }
  }

  lemma {:induction false} FoldJoin(a: Text, b: Text, acc: nat)
    requires AllDigits(a) && AllDigits(b)
    ensures AllDigits(a + b) && Fold(a + b, acc) == Fold(b, Fold(a, acc))
    decreases |a|
  {
    if a == [] {
      assert a + b == b;
    } else {
      assert (a + b)[1..] == a[1..] + b;
      FoldJoin(a[1..], b, 10 * acc + (a[0] as int - '0' as int));
    }
  }

  lemma {:induction false} DecimalDenotes(n: nat)
    ensures AllDigits(Decimal(n)) && Fold(Decimal(n), 0) == n
  {
    if n < 10 {
      assert Decimal(n)[1..] == [];
    } else {
      DecimalDenotes(n / 10);
      FoldSnoc(Decimal(n / 10), '0' + (n % 10) as char, 0);
    }
  }

  lemma {:induction false} NoLeadingZero(n: nat)
    ensures Decimal(n)[0] == '0' ==> n == 0 && |Decimal(n)| == 1
  {
    if n >= 10 { NoLeadingZero(n / 10); }
  }

  /** Digits without a leading zero are the decimal text of what they denote, so a number has just one such text. */
  lemma {:induction false} DecimalIsOnly(t: Text)
    requires t != [] && AllDigits(t) && (t[0] == '0' ==> |t| == 1)
    ensures t == Decimal(Fold(t, 0))
    decreases |t|
  {
    var k := |t| - 1;
    var front, b := t[..k], t[k];
    assert t == front + [b];
    FoldSnoc(front, b, 0);
    if k > 0 {
      DecimalIsOnly(front);
      PositiveFold(front, 0);
    } else {
      assert front == [] && Fold(front, 0) == 0;
    }
  }

  lemma {:induction false} PositiveFold(t: Text, acc: nat)
    requires AllDigits(t) && (acc > 0 || (t != [] && t[0] != '0'))
    ensures Fold(t, acc) > 0
    decreases |t|
  {
    if t != [] { PositiveFold(t[1..], 10 * acc + (t[0] as int - '0' as int)); }
  }

  // ----- numerals

  /** A sign, digits with or without a point among them, and an exponent or none. */
  datatype Numeral = Numeral(sign: Text, whole: Text, point: bool, fraction: Text, mark: Text, esign: Text, exponent: Text)

  ghost predicate IsNumeral(n: Numeral) {
    && n.sign in {"", "-", "+"} && AllDigits(n.whole) && AllDigits(n.fraction) && n.whole + n.fraction != []
    && (!n.point ==> n.fraction == [])
    && n.mark in {"", "e", "E"} && n.esign in {"", "-", "+"} && AllDigits(n.exponent)
    && (if n.mark == "" then n.esign == "" && n.exponent == "" else n.exponent != "")
  }

  function PointText(n: Numeral): Text {
    if n.point then "." + n.fraction else []
  }

  function ExponentText(n: Numeral): Text {
    n.mark + n.esign + n.exponent
  }

  function NumeralText(n: Numeral): Text {
    n.sign + n.whole + PointText(n) + ExponentText(n)
  }

  /** d is the number: the digits, divided by ten for each digit of the fraction, and multiplied or divided by ten as often as
      the exponent says. */
  ghost predicate Denotes(n: Numeral, d: real)
    requires IsNumeral(n)
  {
    Shifted(d, Signed(n), Ten(|n.fraction|), Ten(Fold(n.exponent, 0)), n.esign == "-")
  }

  ghost predicate Shifted(d: real, signed: real, scale: nat, shift: nat, down: bool) {
    if down then d * scale as real * shift as real == signed else d * scale as real == signed * shift as real
  }

  function Signed(n: Numeral): real
    requires IsNumeral(n)
  {
    FoldJoin(n.whole, n.fraction, 0);
    var digits := Fold(n.whole + n.fraction, 0) as real;
    if n.sign == "-" then 0.0 - digits else digits
  }

  // ----- powers of ten

  lemma StepUp(e: int)
    ensures Power10(e) == 10.0 * Power10(e - 1)
  {
  }

  lemma {:induction false} PowerShift(e: int, k: nat)
    ensures Power10(e - k) * Ten(k) as real == Power10(e)
    decreases k
  {
    if k > 0 {
      PowerShift(e, k - 1);
      StepUp(e - k + 1);
      Regroup(Power10(e - k), Ten(k - 1) as real);
      assert Ten(k) as real == 10.0 * Ten(k - 1) as real;
    }
  }

  lemma Regroup(p: real, t: real)
    ensures p * (10.0 * t) == (10.0 * p) * t
  {
  }

  lemma {:induction false} PowerOfTen(x: nat)
    ensures Power10(x) == Ten(x) as real > 0.0
  {
    if x > 0 { PowerOfTen(x - 1); }
  }

  lemma Associate(a: real, b: real, c: real)
    ensures a * b * c == a * (b * c)
  {
  }

  lemma Scales(m: real, p: real, t: real, r: real)
    requires p * t == r
    ensures m * p * t == m * r
  {
    Associate(m, p, t);
  }

  lemma Times(a: real, b: real, c: real)
    requires a == b
    ensures a * c == b * c
  {
  }

  lemma ZeroPower()
    ensures Power10(0) == 1.0
  {
  }

  // ----- strtod

  lemma {:induction false} DigitsRead(s: Text, p: nat, t: Text, acc: nat)
    requires AllDigits(t) && At(s, p, t) && (p + |t| < |s| ==> !IsDigit(s[p + |t|]))
    ensures Digits(s, p, acc) == (Fold(t, acc), p + |t|)
    decreases |t|
  {
    if t != [] {
      AtFirst(s, p, t);
      assert s[p + 1 + |t[1..]|..] == s[p + |t|..];
      DigitsRead(s, p + 1, t[1..], 10 * acc + (t[0] as int - '0' as int));
    }
  }

  lemma ExponentRead(s: Text, p: nat, n: Numeral)
    requires IsNumeral(n) && At(s, p, ExponentText(n)) && p + |ExponentText(n)| == |s|
    ensures Exponent(s, p) == (if n.esign == "-" then -(Fold(n.exponent, 0) as int) else Fold(n.exponent, 0), |s|)
  {
    if n.mark != "" {
      hide Digits, At, Fold;
      AtEnd(s, p, ExponentText(n));
      AtSplit(s, p, n.mark + n.esign, n.exponent);
      AtSplit(s, p, n.mark, n.esign);
      AtFirst(s, p, n.mark);
      var q := p + 1 + |n.esign|;
      AtFirst(s, q, n.exponent);
      if n.esign != "" { AtFirst(s, p + 1, n.esign); }
      DigitsRead(s, q, n.exponent, 0);
      assert q == if s[p + 1] == '-' || s[p + 1] == '+' then p + 2 else p + 1;
      assert n.esign == "-" <==> s[p + 1] == '-';
    } else {
      assert Fold(n.exponent, 0) == 0;
    }
  }

  /** The parts of a numeral as strtod comes upon them at the beginning of s. */
  ghost predicate Parts(s: Text, n: Numeral)
    requires IsNumeral(n)
  {
    && var p0 := |n.sign|; var p1 := p0 + |n.whole|; var p2 := p1 + |PointText(n)|;
    && p2 <= |s|
    && (n.sign != "" <==> |s| > 0 && (s[0] == '-' || s[0] == '+')) && (n.sign == "-" <==> |s| > 0 && s[0] == '-')
    && Digits(s, p0, 0) == (Fold(n.whole, 0), p1)
    && (n.point <==> p1 < |s| && s[p1] == '.')
    && (n.point ==> Digits(s, p1 + 1, Fold(n.whole, 0)) == (Fold(n.fraction, Fold(n.whole, 0)), p2))
    && Exponent(s, p2).0 == if n.esign == "-" then -(Fold(n.exponent, 0) as int) else Fold(n.exponent, 0)
  }

  lemma PartsRead(n: Numeral)
    requires IsNumeral(n)
    ensures Parts(NumeralText(n), n)
    ensures Exponent(NumeralText(n), |n.sign| + |n.whole| + |PointText(n)|).1 == |NumeralText(n)|
  {
    hide Digits, Exponent, At, PointText, ExponentText, Fold, NumeralText;
    var s := NumeralText(n);
    PartsPlaced(n);
    FirstOfParts(n);
    DigitsRead(s, |n.sign|, n.whole, 0);
    if n.point { FractionRead(s, |n.sign| + |n.whole|, n); }
    ExponentRead(s, |n.sign| + |n.whole| + |PointText(n)|, n);
  }

  lemma PartsPlaced(n: Numeral)
    ensures var s := NumeralText(n); var p0 := |n.sign|; var p1 := p0 + |n.whole|; var p2 := p1 + |PointText(n)|;
      At(s, p0, n.whole) && At(s, p1, PointText(n)) && At(s, p2, ExponentText(n)) && p2 + |ExponentText(n)| == |s|
  {
    hide At, PointText, ExponentText;
    var s := NumeralText(n);
    AtWhole(s);
    AtSplit(s, 0, n.sign + n.whole + PointText(n), ExponentText(n));
    AtSplit(s, 0, n.sign + n.whole, PointText(n));
    AtSplit(s, 0, n.sign, n.whole);
  }

  lemma FractionRead(s: Text, p1: nat, n: Numeral)
    requires IsNumeral(n) && n.point && At(s, p1, PointText(n))
    requires p1 + |PointText(n)| < |s| ==> s[p1 + |PointText(n)|] == 'e' || s[p1 + |PointText(n)|] == 'E'
    ensures p1 + 1 <= |s|
    ensures Digits(s, p1 + 1, Fold(n.whole, 0)) == (Fold(n.fraction, Fold(n.whole, 0)), p1 + |PointText(n)|)
  {
    hide Digits, Fold;
    AtSplit(s, p1, ".", n.fraction);
    DigitsRead(s, p1 + 1, n.fraction, Fold(n.whole, 0));
  }

  lemma AtWhole(s: Text)
    ensures At(s, 0, s)
  {
  }

  /** No part begins with a byte that could go on with the part before it. */
  lemma FirstOfParts(n: Numeral)
    requires IsNumeral(n)
    ensures var s := NumeralText(n); var p0 := |n.sign|; var p1 := p0 + |n.whole|; var p2 := p1 + |PointText(n)|;
      && p2 <= |s| && (p2 < |s| ==> s[p2] == 'e' || s[p2] == 'E')
      && (p1 < |s| ==> !IsDigit(s[p1])) && (n.point <==> p1 < |s| && s[p1] == '.')
      && (n.sign != "" <==> |s| > 0 && (s[0] == '-' || s[0] == '+')) && (n.sign == "-" <==> |s| > 0 && s[0] == '-')
  {
    var s := NumeralText(n);
    var p0 := |n.sign|;
    var p1 := p0 + |n.whole|;
    var p2 := p1 + |PointText(n)|;
    if p2 < |s| { assert s[p2] == ExponentText(n)[0] == n.mark[0]; }
    if n.point { assert s[p1] == PointText(n)[0] == '.'; }
    if n.sign != "" { assert s[0] == n.sign[0]; } else if n.whole != [] { assert s[0] == n.whole[0]; }
  }

  /** strtod reads a numeral to its end, as the number that it denotes. */
  lemma StrtodReads(n: Numeral)
    requires IsNumeral(n)
    ensures Strtod(NumeralText(n)).1 == |NumeralText(n)| && Denotes(n, Strtod(NumeralText(n)).0)
  {
    hide Parts, NumeralText, Denotes, PointText;
    PartsRead(n);
    StrtodOfParts(NumeralText(n), n);
  }

  lemma StrtodOfParts(s: Text, n: Numeral)
    requires IsNumeral(n) && Parts(s, n)
    ensures Strtod(s).1 == Exponent(s, |n.sign| + |n.whole| + |PointText(n)|).1 && Denotes(n, Strtod(s).0)
  {
    hide Strtod, Exponent, Power10, Ten, Denotes, Parts;
    FoldJoin(n.whole, n.fraction, 0);
    if !n.point { NoFraction(n); }
    var digits := Fold(n.whole + n.fraction, 0);
    assert digits == if n.point then Fold(n.fraction, Fold(n.whole, 0)) else Fold(n.whole, 0);
    hide Fold;
    assert |n.whole| + |n.fraction| > 0 by { assert n.whole + n.fraction != []; }
    var e: int := if n.esign == "-" then -(Fold(n.exponent, 0) as int) else Fold(n.exponent, 0);
    var p := Power10(e - |n.fraction|);
    ValueOfParts(n, digits as real, e, p, Magnitude(digits, e - |n.fraction|));
    Strtods(s, n, digits, e);
  }

  /** Strtod without its parts. */
  lemma Strtods(s: Text, n: Numeral, digits: nat, e: int)
    requires IsNumeral(n) && Parts(s, n) && |n.whole| + |n.fraction| > 0
    requires digits == if n.point then Fold(n.fraction, Fold(n.whole, 0)) else Fold(n.whole, 0)
    requires e == if n.esign == "-" then -(Fold(n.exponent, 0) as int) else Fold(n.exponent, 0)
    ensures var magnitude := Magnitude(digits, e - |n.fraction|);
      Strtod(s) == (if n.sign == "-" then -magnitude else magnitude, Exponent(s, |n.sign| + |n.whole| + |PointText(n)|).1)
  {
    hide Digits, Exponent, Magnitude, Fold;
  }

  lemma NoFraction(n: Numeral)
    requires IsNumeral(n) && !n.point
    ensures n.fraction == [] && Fold(n.fraction, Fold(n.whole, 0)) == Fold(n.whole, 0)
  {
  }

  lemma ValueOfParts(n: Numeral, digits: real, e: int, p: real, magnitude: real)
    requires IsNumeral(n) && AllDigits(n.whole + n.fraction) && digits == Fold(n.whole + n.fraction, 0) as real
    requires e == if n.esign == "-" then -(Fold(n.exponent, 0) as int) else Fold(n.exponent, 0)
    requires p == Power10(e - |n.fraction|) && magnitude == digits * p
    ensures Denotes(n, if n.sign == "-" then -magnitude else magnitude)
  {
    hide Power10, Ten, Fold, Shifted;
    var d := if n.sign == "-" then -magnitude else magnitude;
    Negate(digits, p);
    if n.esign == "-" {
      ShiftedDown(Signed(n), Fold(n.exponent, 0), |n.fraction|, p, d);
    } else {
      ShiftedUp(Signed(n), Fold(n.exponent, 0), |n.fraction|, p, d);
    }
  }

  /** m times ten to the power of x - f. */
  lemma ShiftedUp(m: real, x: nat, f: nat, p: real, d: real)
    requires p == Power10(x - f) && d == m * p
    ensures Shifted(d, m, Ten(f), Ten(x), false)
  {
    hide Power10, Ten;
    PowerShift(x, f);
    PowerOfTen(x);
    Times(Power10(x - f), p, Ten(f) as real);
    Scales(m, p, Ten(f) as real, Ten(x) as real);
    Times(d, m * p, Ten(f) as real);
    IsShifted(d, m, Ten(f), Ten(x), false);
  }

  /** m times ten to the power of -x - f. */
  lemma ShiftedDown(m: real, x: nat, f: nat, p: real, d: real)
    requires p == Power10(-(x as int) - f) && d == m * p
    ensures Shifted(d, m, Ten(f), Ten(x), true)
  {
    hide Power10, Ten;
    var t, u := Ten(f) as real, Ten(x) as real;
    var q := Power10(0 - x);
    PowerShift(0 - x, f);
    assert 0 - x - f == -(x as int) - f;
    Times(Power10(0 - x - f), p, t);
    Scales(m, p, t, q);
    PowerShift(0, x);
    ZeroPower();
    Times(Power10(0 - x), q, u);
    Scales(m, q, u, 1.0);
    Times(d, m * p, t);
    Times(d * t, m * q, u);
    IsShifted(d, m, Ten(f), Ten(x), true);
  }

  lemma IsShifted(d: real, signed: real, scale: nat, shift: nat, down: bool)
    requires if down then d * scale as real * shift as real == signed else d * scale as real == signed * shift as real
    ensures Shifted(d, signed, scale, shift, down)
  {
  }

  lemma Negate(a: real, b: real)
    ensures (0.0 - a) * b == -(a * b)
  {
  }

  /** A numeral denotes one number. */
  lemma DenotesOnce(n: Numeral, d: real, e: real)
    requires IsNumeral(n) && Denotes(n, d) && Denotes(n, e)
    ensures d == e
  {
    hide Fold, Ten, Signed, Shifted;
    PowerOfTen(|n.fraction|);
    PowerOfTen(Fold(n.exponent, 0));
    ShiftedOnce(d, e, Signed(n), Ten(|n.fraction|), Ten(Fold(n.exponent, 0)), n.esign == "-");
  }

  lemma ShiftedOnce(d: real, e: real, signed: real, scale: nat, shift: nat, down: bool)
    requires scale > 0 && shift > 0 && Shifted(d, signed, scale, shift, down) && Shifted(e, signed, scale, shift, down)
    ensures d == e
  {
    var s, t := scale as real, shift as real;
    if down {
      CancelTwice(d, e, s, t, signed);
    } else {
      CancelAs(d, e, s, signed * t);
    }
  }

  lemma CancelTwice(d: real, e: real, s: real, t: real, x: real)
    requires s > 0.0 && t > 0.0 && d * s * t == x && e * s * t == x
    ensures d == e
  {
    CancelAs(d * s, e * s, t, x);
    CancelAs(d, e, s, e * s);
  }

  lemma CancelAs(a: real, b: real, c: real, x: real)
    requires c > 0.0 && a * c == x && b * c == x
    ensures a == b
  {
    Cancel(a, b, c);
  }

  lemma Larger(a: real, b: real, c: real)
    requires a < b && c > 0.0
    ensures a * c < b * c
  {
    assert (b - a) * c > 0.0;
  }

  lemma Cancel(a: real, b: real, c: real)
    requires c > 0.0
    ensures a * c == b * c ==> a == b
  {
    if a < b { Larger(a, b, c); } else if b < a { Larger(b, a, c); }
  }

  lemma {:induction false} DigitsFound(s: Text, p: nat, acc: nat)
    requires p <= |s|
    ensures var r := Digits(s, p, acc); AllDigits(s[p..r.1]) && r.0 == Fold(s[p..r.1], acc)
    decreases |s| - p
  {
    var r := Digits(s, p, acc);
    if p < |s| && IsDigit(s[p]) {
      DigitsFound(s, p + 1, 10 * acc + (s[p] as int - '0' as int));
      assert s[p..r.1] == [s[p]] + s[p + 1..r.1];
      assert s[p..r.1][1..] == s[p + 1..r.1];
    } else {
      assert s[p..r.1] == [];
    }
  }

  /** What strtod uses is a numeral. */
  lemma StrtodIsNumeral(s: Text) returns (n: Numeral)
    requires Strtod(s).1 > 0
    ensures IsNumeral(n) && NumeralText(n) == s[..Strtod(s).1] && Denotes(n, Strtod(s).0)
  {
    hide Digits, Exponent, Power10, Fold, Ten, Denotes, Parts, PointText, ExponentText, NumeralText;
    var sign, whole, p1 := WholeFound(s);
    var point, fraction, p2 := PointFound(s, p1, Fold(whole, 0));
    var mark, esign, digits := ExponentFound(s, p2);
    UsedSome(s, |sign|, p1, p2);
    n := Numeral(sign, whole, point, fraction, mark, esign, digits);
    assert |whole| + |fraction| > 0;
    PartsFound(s, n, p1, p2);
    StrtodOfParts(s, n);
    TextFound(s, n, p1, p2, Exponent(s, p2).1);
  }

  lemma WholeFound(s: Text) returns (sign: Text, whole: Text, p1: nat)
    ensures sign in {"", "-", "+"} && |sign| <= p1 <= |s| && sign == s[..|sign|] && whole == s[|sign|..p1] && AllDigits(whole)
    ensures (sign != "" <==> |s| > 0 && (s[0] == '-' || s[0] == '+')) && (sign == "-" <==> |s| > 0 && s[0] == '-')
    ensures Digits(s, |sign|, 0) == (Fold(whole, 0), p1)
  {
    hide Digits, Fold;
    sign := if |s| > 0 && (s[0] == '-' || s[0] == '+') then s[..1] else "";
    if sign != "" { assert s[..1] == [s[0]]; }
    DigitsFound(s, |sign|, 0);
    p1 := Digits(s, |sign|, 0).1;
    whole := s[|sign|..p1];
  }

  lemma PointFound(s: Text, p1: nat, acc: nat) returns (point: bool, fraction: Text, p2: nat)
    requires p1 <= |s|
    ensures p1 <= p2 <= |s| && (point <==> p1 < |s| && s[p1] == '.') && AllDigits(fraction)
    ensures if point then s[p1..p2] == "." + fraction && p2 == p1 + 1 + |fraction| else fraction == [] && p2 == p1
    ensures point ==> Digits(s, p1 + 1, acc) == (Fold(fraction, acc), p2)
  {
    hide Digits, Fold;
    point, fraction, p2 := p1 < |s| && s[p1] == '.', [], p1;
    if point {
      DigitsFound(s, p1 + 1, acc);
      p2 := Digits(s, p1 + 1, acc).1;
      fraction := s[p1 + 1..p2];
      assert s[p1..p2] == [s[p1]] + s[p1 + 1..p2];
    }
  }

  /** strtod uses something only if there is a digit. */
  lemma UsedSome(s: Text, p0: nat, p1: nat, p2: nat)
    requires Strtod(s).1 > 0 && p0 == (if |s| > 0 && (s[0] == '-' || s[0] == '+') then 1 else 0)
    requires p0 <= p1 <= |s| && Digits(s, p0, 0).1 == p1
    requires if p1 < |s| && s[p1] == '.' then Digits(s, p1 + 1, Digits(s, p0, 0).0).1 == p2 else p2 == p1
    ensures p1 - p0 > 0 || p2 - p1 > 1
  {
    hide Digits, Exponent, Power10;
  }

  lemma PartsFound(s: Text, n: Numeral, p1: nat, p2: nat)
    requires IsNumeral(n) && p1 == |n.sign| + |n.whole| && p2 == p1 + (if n.point then 1 + |n.fraction| else 0) <= |s|
    requires (n.sign != "" <==> |s| > 0 && (s[0] == '-' || s[0] == '+')) && (n.sign == "-" <==> |s| > 0 && s[0] == '-')
    requires Digits(s, |n.sign|, 0) == (Fold(n.whole, 0), p1) && (n.point <==> p1 < |s| && s[p1] == '.')
    requires n.point ==> Digits(s, p1 + 1, Fold(n.whole, 0)) == (Fold(n.fraction, Fold(n.whole, 0)), p2)
    requires Exponent(s, p2).0 == if n.esign == "-" then -(Fold(n.exponent, 0) as int) else Fold(n.exponent, 0)
    ensures Parts(s, n) && |n.sign| + |n.whole| + |PointText(n)| == p2
  {
    hide Digits, Exponent, Fold;
  }

  lemma TextFound(s: Text, n: Numeral, p1: nat, p2: nat, p3: nat)
    requires p1 <= p2 <= p3 <= |s| && p1 == |n.sign| + |n.whole| && n.sign == s[..|n.sign|] && n.whole == s[|n.sign|..p1]
    requires s[p1..p2] == (if n.point then "." + n.fraction else []) && n.mark + n.esign + n.exponent == s[p2..p3]
    ensures NumeralText(n) == s[..p3]
  {
    Joined(s, |n.sign|, p1);
    Joined(s, p1, p2);
    Joined(s, p2, p3);
    assert PointText(n) == s[p1..p2] && ExponentText(n) == s[p2..p3];
  }

  lemma Joined(s: Text, p: nat, q: nat)
    requires p <= q <= |s|
    ensures s[..p] + s[p..q] == s[..q]
  {
  }

  lemma ExponentFound(s: Text, p: nat) returns (mark: Text, esign: Text, digits: Text)
    requires p <= |s|
    ensures p <= Exponent(s, p).1 && mark + esign + digits == s[p..Exponent(s, p).1]
    ensures mark in {"", "e", "E"} && esign in {"", "-", "+"} && AllDigits(digits)
    ensures if mark == "" then esign == "" && digits == "" else digits != ""
    ensures Exponent(s, p).0 == if esign == "-" then -(Fold(digits, 0) as int) else Fold(digits, 0)
  {
    hide Digits;
    mark, esign, digits := "", "", "";
    var end := Exponent(s, p).1;
    if p < |s| && (s[p] == 'e' || s[p] == 'E') {
      var sign := p + 1 < |s| && (s[p + 1] == '-' || s[p + 1] == '+');
      var q := if sign then p + 2 else p + 1;
      DigitsFound(s, q, 0);
      if Digits(s, q, 0).1 != q {
        mark, esign, digits := [s[p]], s[p + 1..q], s[q..end];
        if sign { assert s[p + 1..q] == [s[p + 1]]; }
        assert s[p..end] == [s[p]] + s[p + 1..q] + s[q..end];
      }
    }
  }
}
