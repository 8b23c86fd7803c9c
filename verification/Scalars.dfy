/**
 Reading numbers and strings: the parser takes every numeral and every literal of the
 grammar, and yields what they stand for.
 */
module Scalars {
  import opened CText
  import opened Utf
  import opened Strings
  import opened TwoPasses
  import opened Json
  import G = Grammar

  // ----- numbers

  /** No character that could go on with a number. */
  predicate NumberEnds(s: CStr, p: nat)
    requires p <= |s|
  {
    !IsDigit(At(s, p)) && At(s, p) !in {46, 101, 69, 43, 45}
  }

  /** The conversion to int drops the fraction: the result is the whole number next to n
      on the side of zero. */
  lemma TruncateIs(n: real)
    ensures n >= 0.0 ==> 0 <= Truncate(n) && Truncate(n) as real <= n < Truncate(n) as real + 1.0
    ensures n <= 0.0 ==> Truncate(n) <= 0 && Truncate(n) as real - 1.0 < n <= Truncate(n) as real
  {
  }

  lemma {:induction false} DigitsAppend(s: CStr, i: nat, j: nat, n: nat)
    requires i <= j < |s| && forall k :: i <= k <= j ==> IsDigit(s[k])
    ensures DigitsValue(s, i, j + 1, n) == DigitsValue(s, i, j, n) * 10 + (s[j] as int - 48)
    decreases j - i
  {
    if i < j {
      DigitsAppend(s, i + 1, j, n * 10 + (s[i] as int - 48));
    }
  }

  lemma {:induction false} DigitsEndAt(s: CStr, i: nat, j: nat)
    requires i <= j <= |s| && (forall k :: i <= k < j ==> IsDigit(s[k])) && !IsDigit(At(s, j))
    ensures DigitsEnd(s, i) == j
    decreases j - i
  {
    if i < j {
      DigitsEndAt(s, i + 1, j);
    }
  }

  /** The accumulator n followed by these digits. */
  function Followed(n: nat, ds: seq<G.Digit>): nat {
    if ds == [] then n else 10 * Followed(n, ds[..|ds| - 1]) + ds[|ds| - 1] as int
  }

  lemma DigitsOccur(s: CStr, p: nat, ds: seq<G.Digit>)
    requires Occurs(s, p, G.DigitsText(ds))
    ensures p + |ds| <= |s| && forall k :: 0 <= k < |ds| ==> s[p + k] == 48 + ds[k] as int
  {
    forall k | 0 <= k < |ds|
      ensures s[p + k] == 48 + ds[k] as int
    {
      OccursAt(s, p, G.DigitsText(ds), k);
    }
  }

  lemma {:induction false} DigitsRead(s: CStr, p: nat, ds: seq<G.Digit>, n: nat)
    requires p + |ds| <= |s| && forall k :: 0 <= k < |ds| ==> s[p + k] == 48 + ds[k] as int
    ensures forall k :: p <= k < p + |ds| ==> IsDigit(s[k])
    ensures DigitsValue(s, p, p + |ds|, n) == Followed(n, ds)
    decreases |ds|
  {
    forall k | p <= k < p + |ds|
      ensures IsDigit(s[k])
    {
      assert s[p + (k - p)] == 48 + ds[k - p] as int;
    }
    if ds != [] {
      var most := ds[..|ds| - 1];
      DigitsRead(s, p, most, n);
      DigitsAppend(s, p, p + |most|, n);
      assert s[p + |most|] == 48 + ds[|ds| - 1] as int;
    }
  }

  /** A run of digits and its value. */
  lemma DigitsParse(s: CStr, p: nat, ds: seq<G.Digit>, n: nat)
    requires Occurs(s, p, G.DigitsText(ds)) && !IsDigit(At(s, p + |ds|))
    ensures DigitsEnd(s, p) == p + |ds| && (ds != [] ==> At(s, p) == 48 + ds[0] as int)
    ensures forall k :: p <= k < p + |ds| ==> IsDigit(s[k])
    ensures DigitsValue(s, p, p + |ds|, n) == Followed(n, ds)
  {
    DigitsOccur(s, p, ds);
    DigitsRead(s, p, ds, n);
    DigitsEndAt(s, p, p + |ds|);
  }

  lemma FractionParses(s: CStr, p: nat, ds: seq<G.Digit>, n: nat)
    requires Occurs(s, p, G.FractionText(ds))
    requires !IsDigit(At(s, p + |G.FractionText(ds)|)) && (ds == [] ==> At(s, p) != 46)
    ensures Fraction(s, p, n) == (Followed(n, ds), |ds|, p + |G.FractionText(ds)|)
  {
    hide *;
    FractionTextIs(ds);
    if ds == [] {
      OccursWithin(s, p, []);
      NoFraction(s, p, n);
    } else {
      OccursSplit(s, p, [46], G.DigitsText(ds));
      OccursAt(s, p, [46], 0);
      DigitsParse(s, p + 1, ds, n);
      FractionIs(s, p, n, |ds|);
    }
  }

  lemma FractionTextIs(ds: seq<G.Digit>)
    ensures G.FractionText(ds) == if ds == [] then [] else [46] + G.DigitsText(ds)
  {
  }

  lemma NoFraction(s: CStr, p: nat, n: nat)
    requires p <= |s| && At(s, p) != 46
    ensures Fraction(s, p, n) == (n, 0, p) && Followed(n, []) == n
  {
  }

  lemma FractionIs(s: CStr, p: nat, n: nat, k: nat)
    requires k > 0 && p + 1 + k <= |s| && At(s, p) == 46 && (forall j :: p + 1 <= j < p + 1 + k ==> IsDigit(s[j]))
    requires DigitsEnd(s, p + 1) == p + 1 + k
    ensures Fraction(s, p, n) == (DigitsValue(s, p + 1, p + 1 + k, n), k, p + 1 + k)
  {
    hide DigitsValue;
    hide DigitsEnd;
  }

  lemma SignParses(s: CStr, p: nat, sign: G.Sign)
    requires Occurs(s, p, G.SignText(sign)) && (sign == G.NoSign ==> At(s, p) != 43 && At(s, p) != 45)
    ensures p + |G.SignText(sign)| == if At(s, p) == PLUS || At(s, p) == MINUS then p + 1 else p
    ensures At(s, p) == MINUS <==> sign == G.MinusSign
  {
    if sign != G.NoSign {
      OccursAt(s, p, G.SignText(sign), 0);
    }
  }

  /** Where the parts of an exponent stand. */
  lemma ExponentOccurs(s: CStr, p: nat, e: G.Exponent)
    requires Occurs(s, p, G.ExponentText(Some(e)))
    ensures p + 1 + |G.SignText(e.sign)| + |e.digits| == p + |G.ExponentText(Some(e))| <= |s|
    ensures At(s, p) == 101 || At(s, p) == 69
    ensures Occurs(s, p + 1, G.SignText(e.sign)) && Occurs(s, p + 1 + |G.SignText(e.sign)|, G.DigitsText(e.digits))
  {
    var mark: CStr := [if e.upper then 69 else 101];
    OccursSplit(s, p, mark, G.SignText(e.sign) + G.DigitsText(e.digits));
    OccursAt(s, p, mark, 0);
    OccursSplit(s, p + 1, G.SignText(e.sign), G.DigitsText(e.digits));
  }

  /** The exponent read at p when its digits stand from q to end. */
  lemma ExponentIs(s: CStr, p: nat, q: nat, end: nat)
    requires p < q <= end <= |s| && (At(s, p) == 101 || At(s, p) == 69) && DigitsEnd(s, q) == end
    requires q == if At(s, p + 1) == PLUS || At(s, p + 1) == MINUS then p + 2 else p + 1
    ensures forall k :: q <= k < end ==> IsDigit(s[k])
    ensures Exponent(s, p) == ((if At(s, p + 1) == MINUS then -1 else 1) * DigitsValue(s, q, end, 0), end)
  {
    hide DigitsValue;
  }

  /** The character behind a sign that is not there. */
  lemma BehindSign(s: CStr, q: nat, ds: seq<G.Digit>)
    requires q + |ds| <= |s| && Occurs(s, q, G.DigitsText(ds)) && NumberEnds(s, q + |ds|)
    ensures At(s, q) != 43 && At(s, q) != 45
  {
    if ds != [] {
      OccursAt(s, q, G.DigitsText(ds), 0);
    }
  }

  lemma ExponentParses(s: CStr, p: nat, e: Option<G.Exponent>)
    requires Occurs(s, p, G.ExponentText(e)) && p + |G.ExponentText(e)| <= |s| && NumberEnds(s, p + |G.ExponentText(e)|)
    ensures Exponent(s, p) == (G.ExponentOf(e), p + |G.ExponentText(e)|)
  {
    if e.Some? {
      SomeExponentParses(s, p, e.value);
    }
  }

  lemma SomeExponentParses(s: CStr, p: nat, e: G.Exponent)
    requires Occurs(s, p, G.ExponentText(Some(e))) && p + |G.ExponentText(Some(e))| <= |s|
    requires NumberEnds(s, p + |G.ExponentText(Some(e))|)
    ensures Exponent(s, p) == (G.ExponentOf(Some(e)), p + |G.ExponentText(Some(e))|)
  {
    hide *;
    ExponentOccurs(s, p, e);
    var q := p + 1 + |G.SignText(e.sign)|;
    var end := q + |e.digits|;
    NumberEndsIs(s, end);
    BehindSign(s, q, e.digits);
    NoSignIs();
    SignParses(s, p + 1, e.sign);
    DigitsParse(s, q, e.digits, 0);
    NaturalIs(e.digits);
    ExponentIs(s, p, q, end);
    ExponentOfIs(e);
  }

  lemma NumberEndsIs(s: CStr, p: nat)
    requires p <= |s| && NumberEnds(s, p)
    ensures !IsDigit(At(s, p))
  {
  }

  lemma NoSignIs()
    ensures G.SignText(G.NoSign) == []
  {
  }

  lemma ExponentOfIs(e: G.Exponent)
    ensures G.ExponentOf(Some(e)) == (if e.sign == G.MinusSign then -1 else 1) * G.Natural(e.digits)
  {
  }

  lemma {:induction false} NaturalIs(ds: seq<G.Digit>)
    ensures Followed(0, ds) == G.Natural(ds)
  {
    if ds != [] {
      NaturalIs(ds[..|ds| - 1]);
    }
  }

  // ----- the value of a number

  lemma {:induction false} TenIs(k: nat)
    ensures TenTo(k) == G.Ten(k)
  {
    if k > 0 {
      TenIs(k - 1);
    }
  }

  lemma ScaleIs(e: int)
    ensures Power10(e) == G.Scale(e)
  {
    TenIs(if e >= 0 then e else -e);
  }

  lemma Shift(a: real, b: real, t: real)
    requires a == b * t && t > 0.0
    ensures a / t == b
  {
  }

  /** One tenth less. */
  lemma ScaleDown(e: int)
    ensures G.Scale(e - 1) * 10.0 == G.Scale(e)
  {
    if e <= 0 {
      var t := G.Ten(-e);
      assert G.Ten(1 - e) == t * 10.0;
      assert 1.0 / (t * 10.0) * 10.0 == 1.0 / t;
      assert e == 0 ==> G.Scale(0) == 1.0 / t;
    }
  }

  lemma {:induction false} ScaleLess(e: int, f: nat)
    ensures G.Scale(e - f) * G.Ten(f) == G.Scale(e)
    decreases f
  {
    hide G.Scale;
    TenNext(f);
    if f > 0 {
      hide G.Ten;
      ScaleLess(e, f - 1);
      ScaleDown(e - f + 1);
      Regroup(G.Scale(e - f), G.Ten(f - 1));
    }
  }

  lemma TenNext(f: nat)
    ensures G.Ten(f) == if f == 0 then 1.0 else G.Ten(f - 1) * 10.0
  {
  }

  lemma Regroup(a: real, b: real)
    ensures a * (b * 10.0) == a * 10.0 * b
  {
  }

  lemma {:induction false} FollowedIs(n: nat, ds: seq<G.Digit>)
    ensures Followed(n, ds) as real == n as real * G.Ten(|ds|) + G.Natural(ds) as real
  {
    if ds != [] {
      var most := ds[..|ds| - 1];
      FollowedIs(n, most);
      Tenfold(n as real, G.Ten(|most|), G.Natural(most) as real);
      assert G.Ten(|ds|) == G.Ten(|most|) * 10.0;
    }
  }

  lemma Tenfold(n: real, t: real, v: real)
    ensures 10.0 * (n * t + v) == n * (t * 10.0) + 10.0 * v
  {
  }

  /** The accumulated digits, with the point put back. */
  lemma PointBack(whole: real, part: real, t: real, less: real, scale: real)
    requires t > 0.0 && less * t == scale
    ensures (whole * t + part) * less == (whole + part / t) * scale
  {
    assert part / t * t == part;
    assert (whole + part / t) * scale == (whole + part / t) * t * less;
    assert (whole + part / t) * t == whole * t + part;
  }

  lemma ValueIs(n: G.Numeral)
    ensures NumberValue(n.negative, Followed(G.Natural(n.digits), n.fraction), G.ExponentOf(n.exponent) - |n.fraction|)
         == G.NumeralValue(n)
  {
    hide *;
    var e, f := G.ExponentOf(n.exponent), |n.fraction|;
    var m := Followed(G.Natural(n.digits), n.fraction);
    ScaleIs(e - f);
    ScaleLess(e, f);
    FollowedIs(G.Natural(n.digits), n.fraction);
    TenPositive(f);
    PointBack(G.Natural(n.digits) as real, G.Natural(n.fraction) as real, G.Ten(f), G.Scale(e - f), G.Scale(e));
    MagnitudeIs(n);
    Signed(m as real, G.Magnitude(n), G.Scale(e - f), G.Scale(e));
    NumberValueIs(n.negative, m, e - f);
  }

  lemma TenPositive(k: nat)
    ensures G.Ten(k) > 0.0
  {
  }

  lemma MagnitudeIs(n: G.Numeral)
    ensures G.Ten(|n.fraction|) > 0.0
    ensures G.Magnitude(n) == G.Natural(n.digits) as real + G.Natural(n.fraction) as real / G.Ten(|n.fraction|)
    ensures G.NumeralValue(n) == (if n.negative then -G.Magnitude(n) else G.Magnitude(n)) * G.Scale(G.ExponentOf(n.exponent))
  {
    hide G.Ten;
    hide G.Natural;
  }

  lemma NumberValueIs(negative: bool, n: nat, e: int)
    ensures NumberValue(negative, n, e) == (if negative then -1.0 else 1.0) * (n as real) * Power10(e)
  {
    hide Power10;
  }

  lemma Signed(m: real, v: real, less: real, scale: real)
    requires m * less == v * scale
    ensures 1.0 * m * less == v * scale && -1.0 * m * less == -v * scale
  {
    assert -1.0 * m * less == -(m * less);
  }

  // ----- a whole number

  lemma NumeralIs(n: G.Numeral)
    ensures G.NumeralText(n)
         == G.MinusText(n.negative)
            + (G.ZeroText(n.zero) + (G.DigitsText(n.digits) + (G.FractionText(n.fraction) + G.ExponentText(n.exponent))))
  {
    hide G.FractionText;
    hide G.ExponentText;
  }

  lemma OccursWithin(s: CStr, i: nat, t: CStr)
    requires Occurs(s, i, t)
    ensures i + |t| <= |s|
  {
  }

  /** The parts of a numeral one behind the other. */
  lemma NumeralOccurs(s: CStr, i: nat, n: G.Numeral)
    requires Occurs(s, i, G.NumeralText(n))
    ensures var p1 := if n.negative then i + 1 else i;
      var p2 := if n.zero then p1 + 1 else p1;
      var p3 := p2 + |n.digits|;
      var p4 := p3 + |G.FractionText(n.fraction)|;
      && i <= p1 <= p2 <= p3 <= p4 && p4 + |G.ExponentText(n.exponent)| == i + |G.NumeralText(n)| <= |s|
      && (n.negative ==> At(s, i) == 45) && (n.zero ==> At(s, p1) == 48)
      && Occurs(s, p2, G.DigitsText(n.digits)) && Occurs(s, p3, G.FractionText(n.fraction)) && Occurs(s, p4, G.ExponentText(n.exponent))
  {
    var minus, zero, digits := G.MinusText(n.negative), G.ZeroText(n.zero), G.DigitsText(n.digits);
    var fraction, exponent := G.FractionText(n.fraction), G.ExponentText(n.exponent);
    hide *;
    OccursWithin(s, i, G.NumeralText(n));
    NumeralIs(n);
    OccursSplit(s, i, minus, zero + (digits + (fraction + exponent)));
    OccursSplit(s, i + |minus|, zero, digits + (fraction + exponent));
    OccursSplit(s, i + |minus| + |zero|, digits, fraction + exponent);
    OccursSplit(s, i + |minus| + |zero| + |digits|, fraction, exponent);
    OccursWithin(s, i + |minus|, zero);
    MinusAt(s, i, n.negative);
    ZeroAt(s, i + |minus|, n.zero);
  }

  lemma MinusAt(s: CStr, p: nat, negative: bool)
    requires Occurs(s, p, G.MinusText(negative))
    ensures negative ==> p < |s| && At(s, p) == 45
  {
    if negative {
      OccursAt(s, p, G.MinusText(negative), 0);
    }
  }

  lemma ZeroAt(s: CStr, p: nat, zero: bool)
    requires Occurs(s, p, G.ZeroText(zero))
    ensures zero ==> p < |s| && At(s, p) == 48
  {
    if zero {
      OccursAt(s, p, G.ZeroText(zero), 0);
    }
  }

  /** What stands behind the digits, or behind the fraction, is no digit. */
  lemma PartsEnd(s: CStr, p: nat, n: G.Numeral)
    requires Occurs(s, p, G.FractionText(n.fraction)) && p + |G.FractionText(n.fraction)| <= |s|
    requires Occurs(s, p + |G.FractionText(n.fraction)|, G.ExponentText(n.exponent))
    requires p + |G.FractionText(n.fraction)| + |G.ExponentText(n.exponent)| <= |s|
    requires NumberEnds(s, p + |G.FractionText(n.fraction)| + |G.ExponentText(n.exponent)|)
    ensures !IsDigit(At(s, p)) && !IsDigit(At(s, p + |G.FractionText(n.fraction)|))
    ensures n.fraction == [] ==> At(s, p) != 46
  {
    var q := p + |G.FractionText(n.fraction)|;
    if n.exponent.Some? {
      OccursAt(s, q, G.ExponentText(n.exponent), 0);
    }
    if n.fraction != [] {
      OccursAt(s, p, G.FractionText(n.fraction), 0);
    }
  }

  /** The leading zero, if any, and then digits that do not start with one. */
  lemma LeadingZero(s: CStr, p: nat, n: G.Numeral)
    requires G.WellNumeral(n, false) && p + (if n.zero then 1 else 0) + |n.digits| <= |s|
    requires n.zero ==> At(s, p) == 48
    requires var p2 := if n.zero then p + 1 else p;
      Occurs(s, p2, G.DigitsText(n.digits)) && !IsDigit(At(s, p2 + |n.digits|))
    ensures var p2 := if n.zero then p + 1 else p;
      && (if At(s, p) == 48 then p + 1 else p) == p2
      && (if 49 <= At(s, p2) <= 57 then DigitsEnd(s, p2) else p2) == p2 + |n.digits|
      && (forall k :: p2 <= k < p2 + |n.digits| ==> IsDigit(s[k]))
      && DigitsValue(s, p2, p2 + |n.digits|, 0) == G.Natural(n.digits)
  {
    hide *;
    var p2 := if n.zero then p + 1 else p;
    DigitsParse(s, p2, n.digits, 0);
    NaturalIs(n.digits);
    NotZero(n, At(s, p2));
  }

  lemma NotZero(n: G.Numeral, c: Byte)
    requires G.WellNumeral(n, false) && (if n.digits == [] then !IsDigit(c) else c == 48 + n.digits[0] as int)
    ensures c != 48 && (49 <= c <= 57 <==> n.digits != [])
  {
  }

  /** parse_number step by step. */
  lemma NumberSteps(s: CStr, i: nat, p2: nat, p3: nat, p4: nat, p5: nat, n: nat, m: nat, scale: nat, e: int)
    requires i < |s| && (s[i] == MINUS || IsDigit(s[i]))
    requires var p1 := if s[i] == MINUS then i + 1 else i; p2 == if At(s, p1) == 48 then p1 + 1 else p1
    requires p2 <= p3 <= |s| && p3 == if 49 <= At(s, p2) <= 57 then DigitsEnd(s, p2) else p2
    requires (forall k :: p2 <= k < p3 ==> IsDigit(s[k])) && DigitsValue(s, p2, p3, 0) == n
    requires Fraction(s, p3, n) == (m, scale, p4) && p4 <= |s| && Exponent(s, p4) == (e, p5)
    ensures ParseNumber(s, i) == Good(NumberItem(NumberValue(s[i] == MINUS, m, e - scale)), p5)
  {
    hide Fraction;
    hide Exponent;
    hide NumberItem;
    hide NumberValue;
  }

  lemma NumeralParses(s: CStr, i: nat, n: G.Numeral)
    requires G.WellNumeral(n, false) && Occurs(s, i, G.NumeralText(n)) && i + |G.NumeralText(n)| <= |s|
    requires NumberEnds(s, i + |G.NumeralText(n)|)
    ensures i < |s| && (s[i] == MINUS || IsDigit(s[i]))
    ensures ParseNumber(s, i) == Good(NumberItem(G.NumeralValue(n)), i + |G.NumeralText(n)|)
  {
    hide *;
    NumeralOccurs(s, i, n);
    var p1 := if n.negative then i + 1 else i;
    var p2 := if n.zero then p1 + 1 else p1;
    var p3 := p2 + |n.digits|;
    var p4 := p3 + |G.FractionText(n.fraction)|;
    var p5 := p4 + |G.ExponentText(n.exponent)|;
    PartsEnd(s, p3, n);
    NumeralStarts(s, i, n);
    LeadingZero(s, p1, n);
    FractionParses(s, p3, n.fraction, G.Natural(n.digits));
    ExponentParses(s, p4, n.exponent);
    ValueIs(n);
    NumberSteps(s, i, p2, p3, p4, p5, G.Natural(n.digits), Followed(G.Natural(n.digits), n.fraction), |n.fraction|,
                G.ExponentOf(n.exponent));
  }

  lemma NumeralStarts(s: CStr, i: nat, n: G.Numeral)
    requires G.WellNumeral(n, false) && Occurs(s, i, G.NumeralText(n))
    ensures i < |s| && (s[i] == MINUS || IsDigit(s[i])) && (s[i] == MINUS <==> n.negative)
  {
    NumeralOccurs(s, i, n);
    hide G.NumeralText;
    if n.digits != [] && !n.negative && !n.zero {
      OccursAt(s, i, G.DigitsText(n.digits), 0);
    }
    if !n.negative && n.zero {
      assert At(s, i) == 48;
    }
  }

  // ----- strings

  lemma NibbleParses(n: G.Nibble)
    ensures IsHex(G.NibbleText(n)) && HexValue(G.NibbleText(n)) == n.value
  {
  }

  lemma HexParses(s: CStr, p: nat, h: G.Hex)
    requires Occurs(s, p, G.HexText(h))
    ensures FourHex(s, p) && Hex4(s, p) == G.UnitOf(h)
  {
    OccursAt(s, p, G.HexText(h), 0);
    OccursAt(s, p, G.HexText(h), 1);
    OccursAt(s, p, G.HexText(h), 2);
    OccursAt(s, p, G.HexText(h), 3);
    NibbleParses(h.first);
    NibbleParses(h.second);
    NibbleParses(h.third);
    NibbleParses(h.fourth);
    hide G.NibbleText;
    hide IsHex;
    hide HexValue;
    hide Occurs;
  }

  lemma CodeParses(s: CStr, p: nat, h: G.Hex)
    requires Occurs(s, p, [92, 117] + G.HexText(h))
    ensures p + 6 <= |s| && s[p] == BACKSLASH && s[p + 1] == LOWER_U
    ensures FourHex(s, p + 2) && Hex4(s, p + 2) == G.UnitOf(h) && ScanHex(s, p + 2) == Some(G.UnitOf(h))
  {
    OccursSplit(s, p, [92, 117], G.HexText(h));
    OccursAt(s, p, [92, 117], 0);
    OccursAt(s, p, [92, 117], 1);
    HexParses(s, p + 2, h);
    ScanFour(s, p + 2);
  }

  lemma OctetsAre(u: nat)
    requires 0 < u < 0x110000
    ensures Octets(u) == G.Utf8(u)
  {
  }

  lemma CombineIs(h: nat, l: nat)
    requires G.HighHalf(h) && G.LowHalf(l)
    ensures IsHigh(h) && IsLow(l) && Combine(h, l) == 0x10000 + (h - 0xD800) * 1024 + (l - 0xDC00)
  {
  }

  /** One \u escape. */
  lemma UnicodeIs(s: CStr, p: nat, h: G.Hex, v: Vars) returns (w: Vars)
    requires p + 4 <= |s| && ScanHex(s, p) == Some(G.UnitOf(h))
    requires G.HighHalf(G.UnitOf(h)) ==> !SecondHalf(s, p + 4)
    ensures Unicode(s, p, v) == Read(G.UnitMeaning(G.Code(h)), p + 4, w)
  {
    hide ScanHex;
    hide Octets;
    hide G.Utf8;
    var u := G.UnitOf(h);
    w := v.(uc := Some(Residual(u)));
    if !Silent(u) {
      OctetsAre(u);
    }
  }

  /** Two of them that are read as a pair. */
  lemma PairIs(s: CStr, p: nat, h: G.Hex, l: G.Hex, v: Vars) returns (w: Vars)
    requires p + 10 <= |s| && ScanHex(s, p) == Some(G.UnitOf(h)) && ScanHex(s, p + 6) == Some(G.UnitOf(l))
    requires G.HighHalf(G.UnitOf(h)) && SecondHalf(s, p + 4)
    ensures Unicode(s, p, v) == Read(G.UnitMeaning(G.Pair(h, l)), p + 10, w)
  {
    hide ScanHex;
    hide Octets;
    hide G.Utf8;
    hide Combine;
    hide Shifted;
    w := Unicode(s, p, v).vars;
    if G.LowHalf(G.UnitOf(l)) {
      CombineIs(G.UnitOf(h), G.UnitOf(l));
      OctetsAre(Combine(G.UnitOf(h), G.UnitOf(l)));
    }
  }

  lemma PlainCopies(s: CStr, p: nat, c: Char, v: Vars)
    requires Occurs(s, p, [c]) && c != 34 && c != 92
    ensures Copy(s, p, v) == Push([c], Copy(s, p + 1, v)) && (Escaped(s, p) <==> Escaped(s, p + 1))
  {
    OccursAt(s, p, [c], 0);
  }

  lemma ShortCopies(s: CStr, p: nat, c: Char, v: Vars)
    requires Occurs(s, p, [92, c]) && c != 117
    ensures Copy(s, p, v) == Push([G.ShortMeaning(c)], Copy(s, p + 2, v)) && (Escaped(s, p) <==> Escaped(s, p + 2))
  {
    OccursAt(s, p, [92, c], 0);
    OccursAt(s, p, [92, c], 1);
  }

  lemma CodeCopies(s: CStr, p: nat, h: G.Hex, v: Vars) returns (w: Vars)
    requires Occurs(s, p, [92, 117] + G.HexText(h)) && p + 6 <= |s|
    requires G.HighHalf(G.UnitOf(h)) ==> !SecondHalf(s, p + 6)
    ensures Copy(s, p, v) == Push(G.UnitMeaning(G.Code(h)), Copy(s, p + 6, w)) && (Escaped(s, p) <==> Escaped(s, p + 6))
  {
    CodeParses(s, p, h);
    w := UnicodeIs(s, p + 2, h, v);
    hide Unicode;
    hide ScanHex;
    hide Hex4;
    hide G.UnitMeaning;
  }

  lemma PairCopies(s: CStr, p: nat, h: G.Hex, l: G.Hex, v: Vars) returns (w: Vars)
    requires Occurs(s, p, [92, 117] + G.HexText(h)) && Occurs(s, p + 6, [92, 117] + G.HexText(l)) && G.HighHalf(G.UnitOf(h))
    ensures p + 12 <= |s|
    ensures Copy(s, p, v) == Push(G.UnitMeaning(G.Pair(h, l)), Copy(s, p + 12, w)) && (Escaped(s, p) <==> Escaped(s, p + 12))
  {
    CodeParses(s, p, h);
    CodeParses(s, p + 6, l);
    w := PairIs(s, p + 2, h, l, v);
    hide Unicode;
    hide ScanHex;
    hide Hex4;
    hide G.UnitMeaning;
    assert Escaped(s, p) <==> Escaped(s, p + 6);
  }

  /** Reading one unit gives its meaning, whatever follows. */
  lemma UnitCopies(s: CStr, p: nat, u: G.Unit, v: Vars) returns (w: Vars)
    requires G.WellUnit(u, false) && Occurs(s, p, G.UnitText(u)) && p + |G.UnitText(u)| <= |s|
    requires u.Code? && G.HighHalf(G.UnitOf(u.unit)) ==> !SecondHalf(s, p + |G.UnitText(u)|)
    ensures Copy(s, p, v) == Push(G.UnitMeaning(u), Copy(s, p + |G.UnitText(u)|, w))
    ensures Escaped(s, p) <==> Escaped(s, p + |G.UnitText(u)|)
  {
    hide Copy;
    hide Escaped;
    hide Occurs;
    hide G.UnitOf;
    hide G.HexText;
    w := v;
    match u {
      case Plain(c) => PlainCopies(s, p, c, v);
      case Short(c) => ShortCopies(s, p, c, v);
      case Code(h) => w := CodeCopies(s, p, h, v);
      case Pair(h, l) =>
        OccursSplit(s, p, [92, 117] + G.HexText(h), [92, 117] + G.HexText(l));
        w := PairCopies(s, p, h, l, v);
    }
  }

  lemma UnitStarts(s: CStr, p: nat, u: G.Unit)
    requires G.WellUnit(u, false) && Occurs(s, p, G.UnitText(u)) && p + |G.UnitText(u)| <= |s|
    ensures |G.UnitText(u)| > 0 && (!u.Code? && !u.Pair? ==> !SecondHalf(s, p))
  {
    OccursAt(s, p, G.UnitText(u), 0);
    if u.Short? {
      OccursAt(s, p, G.UnitText(u), 1);
    }
  }

  lemma WellRest(us: seq<G.Unit>, strict: bool)
    requires us != [] && G.WellUnits(us, strict)
    ensures G.WellUnit(us[0], strict) && G.WellUnits(us[1..], strict)
    ensures |us| > 1 && us[0].Code? && G.HighHalf(G.UnitOf(us[0].unit)) ==> !us[1].Code? && !us[1].Pair?
  {
    hide G.UnitOf;
    var rest := us[1..];
    assert forall k :: 0 <= k < |rest| ==> rest[k] == us[k + 1];
    assert |us| > 1 ==> us[1 - 1] == us[0];
    forall k | 0 < k < |rest| && rest[k - 1].Code? && G.HighHalf(G.UnitOf(rest[k - 1].unit))
      ensures !rest[k].Code? && !rest[k].Pair?
    {
      assert us[k + 1 - 1] == rest[k - 1];
    }
  }

  /** What follows a unit does not take its second half away. */
  lemma NoSecond(s: CStr, p: nat, us: seq<G.Unit>)
    requires us != [] && G.WellUnits(us, false) && Occurs(s, p, G.UnitsText(us[1..])) && p + |G.UnitsText(us[1..])| <= |s|
    requires At(s, p + |G.UnitsText(us[1..])|) == 0 || At(s, p + |G.UnitsText(us[1..])|) == QUOTE
    ensures us[0].Code? && G.HighHalf(G.UnitOf(us[0].unit)) ==> !SecondHalf(s, p)
  {
    WellRest(us, false);
    if |us| > 1 {
      WellRest(us[1..], false);
      OccursSplit(s, p, G.UnitText(us[1]), G.UnitsText(us[1..][1..]));
      OccursWithin(s, p, G.UnitText(us[1]));
      UnitStarts(s, p, us[1]);
    }
  }

  lemma UnitsSplit(s: CStr, p: nat, us: seq<G.Unit>)
    requires us != [] && Occurs(s, p, G.UnitsText(us))
    ensures Occurs(s, p, G.UnitText(us[0])) && p + |G.UnitText(us[0])| <= |s|
    ensures Occurs(s, p + |G.UnitText(us[0])|, G.UnitsText(us[1..]))
    ensures |G.UnitsText(us)| == |G.UnitText(us[0])| + |G.UnitsText(us[1..])|
    ensures G.UnitsMeaning(us) == G.UnitMeaning(us[0]) + G.UnitsMeaning(us[1..])
  {
    hide G.UnitText;
    hide G.UnitMeaning;
    OccursSplit(s, p, G.UnitText(us[0]), G.UnitsText(us[1..]));
  }

  lemma UnitsNone(s: CStr, p: nat, v: Vars)
    requires p <= |s| && (At(s, p) == 0 || At(s, p) == QUOTE)
    ensures Copy(s, p, v) == Done([], p) && Escaped(s, p)
  {
  }

  lemma NoUnits()
    ensures G.UnitsText([]) == [] && G.UnitsMeaning([]) == []
  {
  }

  /** Reading the units of a string up to its quote, or the end of the text. */
  lemma {:induction false} UnitsCopy(s: CStr, p: nat, us: seq<G.Unit>, v: Vars)
    requires G.WellUnits(us, false) && Occurs(s, p, G.UnitsText(us)) && p + |G.UnitsText(us)| <= |s|
    requires At(s, p + |G.UnitsText(us)|) == 0 || At(s, p + |G.UnitsText(us)|) == QUOTE
    ensures Copy(s, p, v) == Done(G.UnitsMeaning(us), p + |G.UnitsText(us)|) && Escaped(s, p)
    decreases |us|
  {
    hide *;
    NoUnits();
    if us == [] {
      UnitsNone(s, p, v);
    } else {
      UnitsSplit(s, p, us);
      WellRest(us, false);
      var next := p + |G.UnitText(us[0])|;
      NoSecond(s, next, us);
      var w := UnitCopies(s, p, us[0], v);
      UnitsCopy(s, next, us[1..], w);
      PushDone(G.UnitMeaning(us[0]), Copy(s, next, w));
    }
  }

  lemma StringIs(s: CStr, p: nat, text: CStr, end: nat)
    requires p < |s| && s[p] == QUOTE && Copy(s, p + 1, NO_VARS) == Done(text, end) && Agree(s, p + 1) && end <= |s|
    ensures StringAt(s, p) == Good(text, if At(s, end) == QUOTE then end + 1 else end)
  {
    hide Copy;
    hide Count;
  }

  lemma StringOccurs(s: CStr, p: nat, us: seq<G.Unit>, closed: bool)
    requires Occurs(s, p, G.LiteralText(us, closed))
    ensures p < |s| && s[p] == QUOTE && Occurs(s, p + 1, G.UnitsText(us)) && p + 1 + |G.UnitsText(us)| <= |s|
    ensures |G.LiteralText(us, closed)| == |G.UnitsText(us)| + if closed then 2 else 1
    ensures closed ==> At(s, p + 1 + |G.UnitsText(us)|) == QUOTE
  {
    hide G.UnitsText;
    var tail: CStr := if closed then [34] else [];
    OccursSplit(s, p, [34], G.UnitsText(us) + tail);
    OccursAt(s, p, [34], 0);
    OccursSplit(s, p + 1, G.UnitsText(us), tail);
    if closed {
      OccursAt(s, p + 1 + |G.UnitsText(us)|, tail, 0);
    }
  }

  lemma AtEnd(s: CStr)
    ensures At(s, |s|) == 0
  {
  }

  /** A string is read as what its units mean. */
  lemma StringParses(s: CStr, p: nat, us: seq<G.Unit>, closed: bool)
    requires G.WellUnits(us, false) && Occurs(s, p, G.LiteralText(us, closed)) && p + |G.LiteralText(us, closed)| <= |s|
    requires !closed ==> p + |G.LiteralText(us, closed)| == |s|
    ensures StringAt(s, p) == Good(G.UnitsMeaning(us), p + |G.LiteralText(us, closed)|)
  {
    hide *;
    StringOccurs(s, p, us, closed);
    var end := p + 1 + |G.UnitsText(us)|;
    AtEnd(s);
    UnitsCopy(s, p + 1, us, NO_VARS);
    EscapedAgree(s, p + 1);
    StringIs(s, p, G.UnitsMeaning(us), end);
  }
}
