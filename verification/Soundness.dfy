/**
 The parser accepts nothing else: what it reads in a text whose escapes are complete
 spells a document of the wider grammar.
 */
module Soundness {
  import opened CText
  import opened Utf
  import opened Strings
  import opened TwoPasses
  import opened Json
  import opened Progress
  import opened Scalars
  import opened Acceptance
  import G = Grammar

  lemma OccursJoin(s: CStr, i: nat, m: nat, a: CStr, b: CStr)
    requires Occurs(s, i, a) && Occurs(s, m, b) && m == i + |a|
    ensures Occurs(s, i, a + b)
  {
    assert s[i..i + |a| + |b|] == s[i..m] + s[m..m + |b|];
  }

  lemma OneOccurs(s: CStr, p: nat, c: Char)
    requires p < |s| && s[p] == c
    ensures Occurs(s, p, [c])
  {
  }

  lemma NoneOccurs(s: CStr, p: nat)
    requires p <= |s|
    ensures Occurs(s, p, [])
  {
  }

  // ----- numbers

  function DigitOf(c: Byte): (d: G.Digit)
    requires IsDigit(c)
    ensures d as int == c as int - 48
  {
    c as int - 48
  }

  function DigitsOf(s: CStr, p: nat, q: nat): (ds: seq<G.Digit>)
    requires p <= q <= |s| && forall k :: p <= k < q ==> IsDigit(s[k])
    ensures |ds| == q - p && forall k :: 0 <= k < |ds| ==> ds[k] as int == s[p + k] as int - 48
    decreases q - p
  {
    if p == q then [] else [DigitOf(s[p])] + DigitsOf(s, p + 1, q)
  }

  lemma DigitsSpelled(s: CStr, p: nat, q: nat)
    requires p <= q <= |s| && forall k :: p <= k < q ==> IsDigit(s[k])
    ensures Occurs(s, p, G.DigitsText(DigitsOf(s, p, q)))
  {
    var t := G.DigitsText(DigitsOf(s, p, q));
    assert s[p..q] == t;
  }

  lemma FractionSpelled(s: CStr, p: nat, n: nat) returns (ds: seq<G.Digit>)
    requires p <= |s|
    ensures Occurs(s, p, G.FractionText(ds)) && p + |G.FractionText(ds)| == Fraction(s, p, n).2
  {
    ds := [];
    NoneOccurs(s, p);
    if At(s, p) == DOT && IsDigit(At(s, p + 1)) {
      var e := DigitsEnd(s, p + 1);
      ds := DigitsOf(s, p + 1, e);
      DigitsSpelled(s, p + 1, e);
      OneOccurs(s, p, 46);
      OccursJoin(s, p, p + 1, [46], G.DigitsText(ds));
    }
  }

  lemma SignSpelled(s: CStr, p: nat) returns (sign: G.Sign)
    requires p <= |s|
    ensures Occurs(s, p, G.SignText(sign))
    ensures p + |G.SignText(sign)| == if At(s, p) == PLUS || At(s, p) == MINUS then p + 1 else p
  {
    NoneOccurs(s, p);
    sign := if At(s, p) == PLUS then G.PlusSign else if At(s, p) == MINUS then G.MinusSign else G.NoSign;
    if sign != G.NoSign {
      OneOccurs(s, p, s[p]);
    }
  }

  lemma ExponentSpelled(s: CStr, p: nat) returns (e: Option<G.Exponent>)
    requires p <= |s|
    ensures Occurs(s, p, G.ExponentText(e)) && p + |G.ExponentText(e)| == Exponent(s, p).1
  {
    e := None;
    NoneOccurs(s, p);
    if At(s, p) == 101 || At(s, p) == 69 {
      var sign := SignSpelled(s, p + 1);
      var q := p + 1 + |G.SignText(sign)|;
      var end := DigitsEnd(s, q);
      var ds := DigitsOf(s, q, end);
      e := Some(G.Exponent(At(s, p) == 69, sign, ds));
      DigitsSpelled(s, q, end);
      OneOccurs(s, p, s[p]);
      hide Occurs;
      OccursJoin(s, p + 1, q, G.SignText(sign), G.DigitsText(ds));
      OccursJoin(s, p, p + 1, [s[p]], G.SignText(sign) + G.DigitsText(ds));
    }
  }

  /** The minus, the leading zero and the other digits of a number. */
  lemma IntegerSpelled(s: CStr, i: nat) returns (negative: bool, zero: bool, ds: seq<G.Digit>, p3: nat)
    requires i < |s| && (s[i] == MINUS || IsDigit(s[i]))
    ensures var p1 := if s[i] == MINUS then i + 1 else i;
      var p2 := if At(s, p1) == 48 then p1 + 1 else p1;
      && p3 == (if 49 <= At(s, p2) <= 57 then DigitsEnd(s, p2) else p2) <= |s|
      && Occurs(s, i, G.MinusText(negative)) && Occurs(s, p1, G.ZeroText(zero)) && Occurs(s, p2, G.DigitsText(ds))
      && p1 == i + |G.MinusText(negative)| && p2 == p1 + |G.ZeroText(zero)| && p3 == p2 + |G.DigitsText(ds)|
    ensures (ds != [] ==> ds[0] != 0) && (negative || zero || ds != [])
  {
    var p1 := if s[i] == MINUS then i + 1 else i;
    var p2 := if At(s, p1) == 48 then p1 + 1 else p1;
    p3 := if 49 <= At(s, p2) <= 57 then DigitsEnd(s, p2) else p2;
    negative, zero, ds := s[i] == MINUS, At(s, p1) == 48, DigitsOf(s, p2, p3);
    NoneOccurs(s, i);
    NoneOccurs(s, p1);
    OneOccurs(s, i, s[i]);
    if zero {
      OneOccurs(s, p1, 48);
    }
    DigitsSpelled(s, p2, p3);
  }

  lemma NumberSpelled(s: CStr, i: nat) returns (n: G.Numeral)
    requires i < |s| && (s[i] == MINUS || IsDigit(s[i]))
    ensures G.WellNumeral(n, false) && Occurs(s, i, G.NumeralText(n)) && i + |G.NumeralText(n)| == ParseNumber(s, i).end
  {
    hide Occurs;
    hide Fraction;
    hide Exponent;
    hide G.MinusText;
    hide G.ZeroText;
    hide G.FractionText;
    hide G.ExponentText;
    hide NumberItem;
    hide NumberValue;
    var negative, zero, ds, p3 := IntegerSpelled(s, i);
    var p1 := i + |G.MinusText(negative)|;
    var p2 := p1 + |G.ZeroText(zero)|;
    var m := DigitsValue(s, p2, p3, 0);
    hide DigitsValue;
    var fraction := FractionSpelled(s, p3, m);
    var p4 := Fraction(s, p3, m).2;
    var exponent := ExponentSpelled(s, p4);
    n := G.Numeral(negative, zero, ds, fraction, exponent);
    PartsJoin(s, i, p1, p2, p3, p4, G.MinusText(negative), G.ZeroText(zero), G.DigitsText(ds), G.FractionText(fraction),
              G.ExponentText(exponent));
  }

  lemma PartsJoin(s: CStr, i: nat, p1: nat, p2: nat, p3: nat, p4: nat, a: CStr, b: CStr, c: CStr, d: CStr, e: CStr)
    requires p1 == i + |a| && p2 == p1 + |b| && p3 == p2 + |c| && p4 == p3 + |d|
    requires Occurs(s, i, a) && Occurs(s, p1, b) && Occurs(s, p2, c) && Occurs(s, p3, d) && Occurs(s, p4, e)
    ensures Occurs(s, i, a + (b + (c + (d + e)))) && |a + (b + (c + (d + e)))| == p4 + |e| - i
  {
    hide Occurs;
    OccursJoin(s, p3, p4, d, e);
    OccursJoin(s, p2, p3, c, d + e);
    OccursJoin(s, p1, p2, b, c + (d + e));
    OccursJoin(s, i, p1, a, b + (c + (d + e)));
  }

  // ----- strings

  function NibbleOf(c: Char): (n: G.Nibble)
    requires IsHex(c)
    ensures G.NibbleText(n) == c
  {
    if c <= 57 then G.Nibble(c as int - 48, false)
    else if c <= 70 then G.Nibble(c as int - 55, true)
    else G.Nibble(c as int - 87, false)
  }

  function HexOf(s: CStr, p: nat): G.Hex
    requires FourHex(s, p)
  {
    G.Hex(NibbleOf(s[p]), NibbleOf(s[p + 1]), NibbleOf(s[p + 2]), NibbleOf(s[p + 3]))
  }

  lemma CodeSpelled(s: CStr, p: nat)
    requires p + 6 <= |s| && s[p] == BACKSLASH && s[p + 1] == LOWER_U && FourHex(s, p + 2)
    ensures Occurs(s, p, [92, 117] + G.HexText(HexOf(s, p + 2)))
  {
    assert s[p..p + 2] == [92, 117];
    assert s[p + 2..p + 6] == G.HexText(HexOf(s, p + 2));
    OccursJoin(s, p, p + 2, [92, 117], G.HexText(HexOf(s, p + 2)));
  }

  /** The unit at p, which is not the end of the literal. */
  lemma UnitSpelled(s: CStr, p: nat) returns (u: G.Unit)
    requires p < |s| && s[p] != QUOTE && Escaped(s, p)
    ensures G.WellUnit(u, false) && Occurs(s, p, G.UnitText(u)) && p < p + |G.UnitText(u)| <= |s|
    ensures Escaped(s, p + |G.UnitText(u)|)
    ensures u.Code? && G.HighHalf(G.UnitOf(u.unit)) ==> !SecondHalf(s, p + |G.UnitText(u)|)
  {
    hide G.HexText;
    hide G.UnitOf;
    if s[p] != BACKSLASH {
      u := G.Plain(s[p]);
      OneOccurs(s, p, s[p]);
    } else if s[p + 1] != LOWER_U {
      u := G.Short(s[p + 1]);
      assert s[p..p + 2] == [92, s[p + 1]];
    } else {
      u := CodeOrPair(s, p);
    }
  }

  lemma CodeOrPair(s: CStr, p: nat) returns (u: G.Unit)
    requires p + 2 <= |s| && s[p] == BACKSLASH && s[p + 1] == LOWER_U && Escaped(s, p)
    ensures G.WellUnit(u, false) && Occurs(s, p, G.UnitText(u)) && p < p + |G.UnitText(u)| <= |s|
    ensures Escaped(s, p + |G.UnitText(u)|)
    ensures u.Code? && G.HighHalf(G.UnitOf(u.unit)) ==> !SecondHalf(s, p + |G.UnitText(u)|)
  {
    var h := HexOf(s, p + 2);
    CodeSpelled(s, p);
    hide G.HexText;
    hide G.UnitOf;
    hide Occurs;
    if G.HighHalf(G.UnitOf(h)) && SecondHalf(s, p + 6) {
      var l := HexOf(s, p + 8);
      u := G.Pair(h, l);
      CodeSpelled(s, p + 6);
      OccursJoin(s, p, p + 6, [92, 117] + G.HexText(h), [92, 117] + G.HexText(l));
    } else {
      u := G.Code(h);
    }
  }

  /** A \u at the start of the rest is what its first unit says. */
  lemma UnitsStart(s: CStr, p: nat, us: seq<G.Unit>)
    requires us != [] && Occurs(s, p, G.UnitsText(us)) && !SecondHalf(s, p)
    ensures !us[0].Code? && !us[0].Pair?
  {
    if us[0].Code? || us[0].Pair? {
      OccursSplit(s, p, G.UnitText(us[0]), G.UnitsText(us[1..]));
      OccursAt(s, p, G.UnitText(us[0]), 0);
      OccursAt(s, p, G.UnitText(us[0]), 1);
    }
  }

  lemma WellCons(u: G.Unit, us: seq<G.Unit>)
    requires G.WellUnit(u, false) && G.WellUnits(us, false)
    requires u.Code? && G.HighHalf(G.UnitOf(u.unit)) && us != [] ==> !us[0].Code? && !us[0].Pair?
    ensures G.WellUnits([u] + us, false)
  {
    hide G.UnitOf;
    var all := [u] + us;
    assert forall k :: 0 < k < |all| ==> all[k] == us[k - 1];
    forall k | 0 < k < |all| && all[k - 1].Code? && G.HighHalf(G.UnitOf(all[k - 1].unit))
      ensures !all[k].Code? && !all[k].Pair?
    {
      if k > 1 {
        assert us[k - 1 - 1] == all[k - 1];
      }
    }
  }

  lemma UnitsCons(s: CStr, p: nat, q: nat, u: G.Unit, us: seq<G.Unit>)
    requires Occurs(s, p, G.UnitText(u)) && q == p + |G.UnitText(u)| && Occurs(s, q, G.UnitsText(us))
    ensures Occurs(s, p, G.UnitsText([u] + us)) && |G.UnitsText([u] + us)| == |G.UnitText(u)| + |G.UnitsText(us)|
  {
    hide G.UnitText;
    assert ([u] + us)[1..] == us;
    OccursJoin(s, p, q, G.UnitText(u), G.UnitsText(us));
  }

  /** The rest of a literal is units up to a quote or the end of the text. */
  lemma {:induction false} UnitsSpelled(s: CStr, p: nat) returns (us: seq<G.Unit>, end: nat)
    requires p <= |s| && Escaped(s, p)
    ensures G.WellUnits(us, false) && Occurs(s, p, G.UnitsText(us)) && end == p + |G.UnitsText(us)| <= |s|
    ensures At(s, end) == 0 || At(s, end) == QUOTE
    decreases |s| - p
  {
    if At(s, p) == 0 || At(s, p) == QUOTE {
      us, end := [], p;
      NoneOccurs(s, p);
    } else {
      var u := UnitSpelled(s, p);
      hide *;
      var q := p + |G.UnitText(u)|;
      var rest;
      rest, end := UnitsSpelled(s, q);
      us := [u] + rest;
      if rest != [] && u.Code? && G.HighHalf(G.UnitOf(u.unit)) {
        UnitsStart(s, q, rest);
      }
      WellCons(u, rest);
      UnitsCons(s, p, q, u, rest);
    }
  }

  lemma StringSpelled(s: CStr, p: nat) returns (us: seq<G.Unit>, closed: bool)
    requires p < |s| && s[p] == QUOTE && WellEscaped(s, p)
    ensures G.WellUnits(us, false) && Occurs(s, p, G.LiteralText(us, closed))
    ensures p + |G.LiteralText(us, closed)| <= |s| && (!closed ==> p + |G.LiteralText(us, closed)| == |s|)
    ensures StringAt(s, p) == Good(G.UnitsMeaning(us), p + |G.LiteralText(us, closed)|)
  {
    WellEscapedLiteral(s, p + 1);
    var end;
    us, end := UnitsSpelled(s, p + 1);
    closed := At(s, end) == QUOTE;
    LiteralSpelled(s, p, us, end);
    hide *;
    StringParses(s, p, us, closed);
  }

  lemma LiteralSpelled(s: CStr, p: nat, us: seq<G.Unit>, end: nat)
    requires p < |s| && s[p] == QUOTE && Occurs(s, p + 1, G.UnitsText(us)) && end == p + 1 + |G.UnitsText(us)| <= |s|
    requires At(s, end) == 0 || At(s, end) == QUOTE
    ensures Occurs(s, p, G.LiteralText(us, At(s, end) == QUOTE))
    ensures p + |G.LiteralText(us, At(s, end) == QUOTE)| == if At(s, end) == QUOTE then end + 1 else |s|
  {
    var tail: CStr := if At(s, end) == QUOTE then [34] else [];
    OneOccurs(s, p, 34);
    NoneOccurs(s, end);
    if At(s, end) == QUOTE {
      OneOccurs(s, end, 34);
    }
    hide Occurs;
    OccursJoin(s, p + 1, end, G.UnitsText(us), tail);
    OccursJoin(s, p, p + 1, [34], G.UnitsText(us) + tail);
  }

  // ----- documents

  /** The document d stands at i and ends at end, where nothing could belong to it. */
  predicate Stands(s: CStr, i: nat, d: G.Doc, end: nat) {
    && G.Well(d, false) && Occurs(s, i, G.Text(d)) && end == i + |G.Text(d)| <= |s| && (G.IsOpen(d) ==> end == |s|)
  }

  lemma WordSpelled(s: CStr, i: nat, kind: nat, text: CStr)
    requires kind == FALSE || kind == TRUE || kind == NULL
    requires Occurs(s, i, text) && text == G.WordText(kind)
    ensures Stands(s, i, G.Word(kind), i + |text|)
  {
  }

  lemma NumberStands(s: CStr, i: nat) returns (d: G.Doc)
    requires i < |s| && (s[i] == MINUS || IsDigit(s[i]))
    ensures Stands(s, i, d, ParseNumber(s, i).end)
  {
    hide G.NumeralText;
    hide ParseNumber;
    hide G.WellNumeral;
    hide Occurs;
    var n := NumberSpelled(s, i);
    d := G.Num(n);
  }

  lemma StringStands(s: CStr, i: nat) returns (d: G.Doc)
    requires i < |s| && s[i] == QUOTE && WellEscaped(s, i) && StringAt(s, i).Good?
    ensures Stands(s, i, d, StringAt(s, i).end)
  {
    hide G.LiteralText;
    hide StringAt;
    hide G.WellUnits;
    hide Occurs;
    hide WellEscaped;
    var us, closed := StringSpelled(s, i);
    d := G.Str(us, closed);
  }

  lemma BlanksSkipped(s: CStr, p: nat)
    requires p <= |s|
    ensures G.Blank(s[p..Skip(s, p)], false) && Occurs(s, p, s[p..Skip(s, p)])
  {
  }

  lemma StandsIs(s: CStr, i: nat, d: G.Doc, end: nat)
    requires Stands(s, i, d, end)
    ensures G.Well(d, false) && Occurs(s, i, G.Text(d)) && end == i + |G.Text(d)| <= |s| && (G.IsOpen(d) ==> end == |s|)
  {
  }

  lemma SkipsIs(s: CStr, p: nat, i: nat)
    requires SkipsTo(s, p, i)
    ensures p <= i <= |s|
  {
  }

  lemma SkipSlices(s: CStr, p: nat, i: nat)
    requires SkipsTo(s, p, i)
    ensures p <= i <= |s| && G.Blank(s[p..i], false) && Occurs(s, p, s[p..i])
  {
    BlanksSkipped(s, p);
  }

  lemma WellParts(b: CStr, d: G.Doc, a: CStr)
    requires G.Blank(b, false) && G.Well(d, false) && !G.IsOpen(d) && G.Blank(a, false)
    ensures G.WellElement(G.Element(b, d, a), false)
  {
  }

  lemma WellMemberParts(b: CStr, us: seq<G.Unit>, g: CStr, sp: CStr, d: G.Doc, a: CStr)
    requires G.Blank(b, false) && G.Blank(g, false) && G.Blank(sp, false) && G.Blank(a, false)
    requires G.WellUnits(us, false) && G.Well(d, false) && !G.IsOpen(d)
    ensures G.WellMember(G.Member(b, us, g, sp, d, a), false)
  {
  }

  predicate ElementStands(s: CStr, p: nat, e: G.Element, q: nat) {
    G.WellElement(e, false) && Occurs(s, p, G.ElementText(e)) && q == p + |G.ElementText(e)|
  }

  /** The elements stand from p up to the closing bracket in front of fin. */
  predicate ElementsStand(s: CStr, p: nat, es: seq<G.Element>, fin: nat) {
    && es != [] && (forall k :: 0 <= k < |es| ==> G.WellElement(es[k], false))
    && Occurs(s, p, G.ElementsText(es)) && p + |G.ElementsText(es)| + 1 == fin <= |s| && s[fin - 1] == CLOSE_BRACKET
  }

  lemma ElementSpelled(s: CStr, p: nat, i: nat, end: nat, q: nat, d: G.Doc) returns (e: G.Element)
    requires SkipsTo(s, p, i) && Stands(s, i, d, end) && SkipsTo(s, end, q) && end < |s|
    ensures ElementStands(s, p, e, q)
  {
    BlanksSkipped(s, p);
    BlanksSkipped(s, end);
    e := G.Element(s[p..i], d, s[end..q]);
    hide G.Text;
    hide G.Well;
    hide G.Blank;
    hide Occurs;
    OccursJoin(s, i, end, G.Text(d), e.after);
    OccursJoin(s, p, i, e.before, G.Text(d) + e.after);
  }

  lemma LastStands(s: CStr, p: nat, e: G.Element, q: nat)
    requires ElementStands(s, p, e, q) && q < |s| && s[q] == CLOSE_BRACKET
    ensures ElementsStand(s, p, [e], q + 1)
  {
    hide G.ElementText;
    assert G.ElementText(e) + [] == G.ElementText(e);
    hide Occurs;
  }

  lemma MoreStand(s: CStr, p: nat, e: G.Element, q: nat, es: seq<G.Element>, fin: nat)
    requires ElementStands(s, p, e, q) && q < |s| && s[q] == COMMA && ElementsStand(s, q + 1, es, fin)
    ensures ElementsStand(s, p, [e] + es, fin)
  {
    hide G.ElementText;
    hide G.WellElement;
    assert ([e] + es)[1..] == es;
    OneOccurs(s, q, 44);
    hide Occurs;
    OccursJoin(s, q, q + 1, [44], G.ElementsText(es));
    OccursJoin(s, p, q, G.ElementText(e), [44] + G.ElementsText(es));
  }

  /** The loop of parse_array reads from p, with these children before, and ends at fin. */
  predicate LoopReads(s: CStr, p: nat, kids: seq<Item>, fin: nat) {
    && p <= |s| && WellEscaped(s, p) && ParseValue(s, Skip(s, p)).Good?
    && var rest := ArrayRest(s, Skip(s, ParseValue(s, Skip(s, p)).end), kids + [ParseValue(s, Skip(s, p)).value]);
       rest.Good? && rest.end == fin
  }

  /** A value stands behind the blanks from p, and is read to its end. */
  predicate ValueStarts(s: CStr, p: nat, i: nat, end: nat, q: nat) {
    && SkipsTo(s, p, i) && WellEscaped(s, i) && ParseValue(s, i).Good? && ParseValue(s, i).end == end
    && end < |s| && SkipsTo(s, end, q) && p < q + 1
  }

  lemma LoopParts(s: CStr, p: nat, kids: seq<Item>, fin: nat) returns (i: nat, end: nat, q: nat, more: seq<Item>)
    requires LoopReads(s, p, kids, fin)
    ensures ValueStarts(s, p, i, end, q) && q < |s|
    ensures (s[q] == CLOSE_BRACKET && fin == q + 1) || (s[q] == COMMA && LoopReads(s, q + 1, more, fin))
  {
    hide ParseValue;
    hide WellEscaped;
    i := Skip(s, p);
    end := ParseValue(s, i).end;
    q := Skip(s, end);
    more := kids + [ParseValue(s, i).value];
    WellEscapedSkip(s, p);
    ParseValueDefined(s, i);
    WellEscapedSkip(s, end);
    if At(s, q) == COMMA {
      PastComma(s, q);
    }
  }

  lemma StartsParts(s: CStr, p: nat, i: nat, end: nat, q: nat)
    requires ValueStarts(s, p, i, end, q)
    ensures p <= i <= |s| && WellEscaped(s, i) && ParseValue(s, i).Good? && ParseValue(s, i).end == end
    ensures end < |s| && SkipsTo(s, p, i) && SkipsTo(s, end, q) && p <= q
  {
    hide ParseValue;
    hide WellEscaped;
  }

  /** The elements of an array from p on. */
  lemma {:induction false} ElementsSpelled(s: CStr, p: nat, kids: seq<Item>, fin: nat) returns (es: seq<G.Element>)
    requires p <= |s| && LoopReads(s, p, kids, fin)
    ensures ElementsStand(s, p, es, fin)
    decreases |s| - p, 2
  {
    hide *;
    var i, end, q, more := LoopParts(s, p, kids, fin);
    StartsParts(s, p, i, end, q);
    var d := ValueSpelled(s, i);
    var e := ElementSpelled(s, p, i, end, q, d);
    if s[q] == CLOSE_BRACKET && fin == q + 1 {
      es := [e];
      LastStands(s, p, e, q);
    } else {
      var rest := ElementsSpelled(s, q + 1, more, fin);
      es := [e] + rest;
      MoreStand(s, p, e, q, rest, fin);
    }
  }

  lemma PastComma(s: CStr, q: nat)
    requires q < |s| && s[q] == COMMA && WellEscaped(s, q)
    ensures WellEscaped(s, q + 1)
  {
  }

  lemma BracketsJoin(s: CStr, i: nat, open: Char, body: CStr, close: Char)
    requires i + 1 + |body| < |s| && s[i] == open && Occurs(s, i + 1, body) && s[i + 1 + |body|] == close
    ensures Occurs(s, i, [open] + (body + [close]))
  {
    OneOccurs(s, i, open);
    OneOccurs(s, i + 1 + |body|, close);
    hide Occurs;
    OccursJoin(s, i + 1, i + 1 + |body|, body, [close]);
    OccursJoin(s, i, i + 1, [open], body + [close]);
  }

  lemma EmptyArrayStands(s: CStr, i: nat, p: nat)
    requires i < |s| && s[i] == OPEN_BRACKET && SkipsTo(s, i + 1, p) && p < |s| && s[p] == CLOSE_BRACKET
    ensures Stands(s, i, G.Arr(s[i + 1..p], []), p + 1)
  {
    BlanksSkipped(s, i + 1);
    BracketsJoin(s, i, 91, s[i + 1..p], 93);
    hide Occurs;
    hide G.Blank;
  }

  lemma FullArrayStands(s: CStr, i: nat, es: seq<G.Element>, fin: nat)
    requires i < |s| && s[i] == OPEN_BRACKET && ElementsStand(s, i + 1, es, fin)
    ensures Stands(s, i, G.Arr([], es), fin)
  {
    BracketsJoin(s, i, 91, G.ElementsText(es), 93);
    hide G.ElementsText;
    hide G.WellElement;
    hide Occurs;
  }

  lemma ArrayParts(s: CStr, i: nat)
    requires i < |s| && s[i] == OPEN_BRACKET && WellEscaped(s, i) && ParseArray(s, i).Good?
    ensures var p := Skip(s, i + 1);
      || (SkipsTo(s, i + 1, p) && p < |s| && s[p] == CLOSE_BRACKET && ParseArray(s, i).end == p + 1)
      || LoopReads(s, i + 1, [], ParseArray(s, i).end)
  {
    hide ParseValue;
    hide ArrayRest;
    Inside(s, i);
    hide WellEscaped;
    if At(s, Skip(s, i + 1)) != CLOSE_BRACKET {
      assert [] + [ParseValue(s, Skip(s, i + 1)).value] == [ParseValue(s, Skip(s, i + 1)).value];
    }
  }

  lemma ArraySpelled(s: CStr, i: nat) returns (d: G.Doc)
    requires i < |s| && s[i] == OPEN_BRACKET && WellEscaped(s, i) && ParseArray(s, i).Good?
    ensures Stands(s, i, d, ParseArray(s, i).end)
    decreases |s| - i, 0
  {
    hide *;
    ArrayParts(s, i);
    var p, fin := Skip(s, i + 1), ParseArray(s, i).end;
    if LoopReads(s, i + 1, [], fin) {
      var es := ElementsSpelled(s, i + 1, [], fin);
      d := G.Arr([], es);
      FullArrayStands(s, i, es, fin);
    } else {
      d := G.Arr(s[i + 1..p], []);
      EmptyArrayStands(s, i, p);
    }
  }

  lemma Inside(s: CStr, i: nat)
    requires i < |s| && WellEscaped(s, i) && s[i] != BACKSLASH
    ensures WellEscaped(s, i + 1)
  {
  }

  // ----- objects

  lemma MemberGoesOn(s: CStr, n: nat)
    requires n <= |s| && ParseMember(s, n).Good?
    ensures n < |s| && s[n] == QUOTE && StringAt(s, n).Good? && StringAt(s, n).end <= |s|
    ensures var c := Skip(s, StringAt(s, n).end);
      && c < |s| && s[c] == COLON && ParseValue(s, Skip(s, c + 1)).Good? && ParseMember(s, n).end == ParseValue(s, Skip(s, c + 1)).end
  {
    hide ParseValue;
    StringNeedsQuote(s, n);
    hide StringAt;
  }

  lemma StringNeedsQuote(s: CStr, n: nat)
    requires n <= |s| && StringAt(s, n).Good?
    ensures n < |s| && s[n] == QUOTE
  {
    hide Copy;
    hide Count;
  }

  predicate MemberStands(s: CStr, p: nat, m: G.Member, q: nat) {
    G.WellMember(m, false) && Occurs(s, p, G.MemberText(m)) && q == p + |G.MemberText(m)|
  }

  /** The members stand from p up to the closing brace in front of fin. */
  predicate MembersStand(s: CStr, p: nat, ms: seq<G.Member>, fin: nat) {
    && ms != [] && (forall k :: 0 <= k < |ms| ==> G.WellMember(ms[k], false))
    && Occurs(s, p, G.MembersText(ms)) && p + |G.MembersText(ms)| + 1 == fin <= |s| && s[fin - 1] == CLOSE_BRACE
  }

  lemma MemberJoin(s: CStr, p: nat, n: nat, g: nat, c: nat, v: nat, end: nat, q: nat, us: seq<G.Unit>, d: G.Doc)
    returns (m: G.Member)
    requires SkipsTo(s, p, n) && Occurs(s, n, G.LiteralText(us, true)) && g == n + |G.LiteralText(us, true)| <= |s|
    requires SkipsTo(s, g, c) && c < |s| && s[c] == COLON && SkipsTo(s, c + 1, v) && Stands(s, v, d, end) && SkipsTo(s, end, q)
    requires G.WellUnits(us, false) && end < |s|
    ensures MemberStands(s, p, m, q)
  {
    hide *;
    SkipSlices(s, p, n);
    SkipSlices(s, g, c);
    SkipSlices(s, c + 1, v);
    SkipSlices(s, end, q);
    StandsIs(s, v, d, end);
    ColonOccurs(s, c);
    m := G.Member(s[p..n], us, s[g..c], s[c + 1..v], d, s[end..q]);
    PartsJoin(s, g, c, c + 1, v, end, m.gap, [58], m.space, G.Text(d), m.after);
    var tail := m.gap + ([58] + (m.space + (G.Text(d) + m.after)));
    OccursJoin(s, n, g, G.LiteralText(us, true), tail);
    OccursJoin(s, p, n, m.before, G.LiteralText(us, true) + tail);
    MemberTextIs(m);
    WellMemberParts(m.before, us, m.gap, m.space, d, m.after);
    MemberStandsIs(s, p, m, q);
  }

  lemma ColonOccurs(s: CStr, c: nat)
    requires c < |s| && s[c] == COLON
    ensures Occurs(s, c, [58])
  {
  }

  lemma MemberStandsIs(s: CStr, p: nat, m: G.Member, q: nat)
    requires G.WellMember(m, false) && Occurs(s, p, G.MemberText(m)) && q == p + |G.MemberText(m)|
    ensures MemberStands(s, p, m, q)
  {
  }

  lemma LastMemberStands(s: CStr, p: nat, m: G.Member, q: nat)
    requires MemberStands(s, p, m, q) && q < |s| && s[q] == CLOSE_BRACE
    ensures MembersStand(s, p, [m], q + 1)
  {
    hide G.MemberText;
    assert G.MemberText(m) + [] == G.MemberText(m);
    hide Occurs;
  }

  lemma MoreMembersStand(s: CStr, p: nat, m: G.Member, q: nat, ms: seq<G.Member>, fin: nat)
    requires MemberStands(s, p, m, q) && q < |s| && s[q] == COMMA && MembersStand(s, q + 1, ms, fin)
    ensures MembersStand(s, p, [m] + ms, fin)
  {
    hide G.MemberText;
    hide G.WellMember;
    assert ([m] + ms)[1..] == ms;
    OneOccurs(s, q, 44);
    hide Occurs;
    OccursJoin(s, q, q + 1, [44], G.MembersText(ms));
    OccursJoin(s, p, q, G.MemberText(m), [44] + G.MembersText(ms));
  }

  /** The loop of parse_object reads from p, with these children before, and ends at fin. */
  predicate MemberLoopReads(s: CStr, p: nat, kids: seq<Item>, fin: nat) {
    && p <= |s| && WellEscaped(s, p) && ParseMember(s, Skip(s, p)).Good?
    && var rest := ObjectRest(s, Skip(s, ParseMember(s, Skip(s, p)).end), kids + [ParseMember(s, Skip(s, p)).value]);
       rest.Good? && rest.end == fin
  }

  /** A member stands behind the blanks from p, and is read to its end. */
  predicate MemberStarts(s: CStr, p: nat, n: nat, end: nat, q: nat) {
    && SkipsTo(s, p, n) && WellEscaped(s, n) && ParseMember(s, n).Good? && ParseMember(s, n).end == end
    && end < |s| && SkipsTo(s, end, q) && p < q + 1
  }

  lemma MemberLoopParts(s: CStr, p: nat, kids: seq<Item>, fin: nat) returns (n: nat, end: nat, q: nat, more: seq<Item>)
    requires MemberLoopReads(s, p, kids, fin)
    ensures MemberStarts(s, p, n, end, q) && q < |s|
    ensures (s[q] == CLOSE_BRACE && fin == q + 1) || (s[q] == COMMA && MemberLoopReads(s, q + 1, more, fin))
  {
    hide ParseMember;
    hide WellEscaped;
    n := Skip(s, p);
    end := ParseMember(s, n).end;
    q := Skip(s, end);
    more := kids + [ParseMember(s, n).value];
    WellEscapedSkip(s, p);
    ParseMemberDefined(s, n);
    WellEscapedSkip(s, end);
    if At(s, q) == COMMA {
      PastComma(s, q);
    }
  }

  lemma MemberStartsParts(s: CStr, p: nat, n: nat, end: nat, q: nat)
    requires MemberStarts(s, p, n, end, q)
    ensures p <= n <= |s| && WellEscaped(s, n) && ParseMember(s, n).Good? && ParseMember(s, n).end == end
    ensures end < |s| && SkipsTo(s, p, n) && SkipsTo(s, end, q) && p <= q
  {
    hide ParseMember;
    hide WellEscaped;
  }

  lemma MemberSpelled(s: CStr, p: nat, n: nat, end: nat, q: nat) returns (m: G.Member)
    requires n <= |s| && SkipsTo(s, p, n) && WellEscaped(s, n) && ParseMember(s, n).Good? && ParseMember(s, n).end == end
    requires SkipsTo(s, end, q) && end < |s|
    ensures MemberStands(s, p, m, q)
    decreases |s| - n, 3
  {
    hide *;
    MemberGoesOn(s, n);
    var g := StringAt(s, n).end;
    var us, closed := StringSpelled(s, n);
    var c := Skip(s, g);
    var v := Skip(s, c + 1);
    NameCloses(s, n, us, closed, c);
    AfterName(s, n, g, c, v);
    var d := ValueSpelled(s, v);
    m := MemberJoin(s, p, n, g, c, v, end, q, us, d);
  }

  lemma NameCloses(s: CStr, n: nat, us: seq<G.Unit>, closed: bool, c: nat)
    requires n <= |s| && n + |G.LiteralText(us, closed)| <= |s| && (!closed ==> n + |G.LiteralText(us, closed)| == |s|)
    requires c < |s| && c == Skip(s, n + |G.LiteralText(us, closed)|)
    ensures closed
  {
  }

  lemma AfterName(s: CStr, n: nat, g: nat, c: nat, v: nat)
    requires n < |s| && WellEscaped(s, n) && StringAt(s, n).Good? && StringAt(s, n).end == g <= |s|
    requires Skip(s, g) == c < |s| && s[c] == COLON && Skip(s, c + 1) == v
    ensures WellEscaped(s, v) && v > n && SkipsTo(s, g, c) && SkipsTo(s, c + 1, v)
  {
    hide StringAt;
    WellEscapedString(s, n);
    WellEscapedSkip(s, g);
    WellEscapedSkip(s, c + 1);
  }

  lemma {:induction false} MembersSpelled(s: CStr, p: nat, kids: seq<Item>, fin: nat) returns (ms: seq<G.Member>)
    requires p <= |s| && MemberLoopReads(s, p, kids, fin)
    ensures MembersStand(s, p, ms, fin)
    decreases |s| - p, 4
  {
    hide *;
    var n, end, q, more := MemberLoopParts(s, p, kids, fin);
    MemberStartsParts(s, p, n, end, q);
    var m := MemberSpelled(s, p, n, end, q);
    if s[q] == CLOSE_BRACE && fin == q + 1 {
      ms := [m];
      LastMemberStands(s, p, m, q);
    } else {
      var rest := MembersSpelled(s, q + 1, more, fin);
      ms := [m] + rest;
      MoreMembersStand(s, p, m, q, rest, fin);
    }
  }

  lemma EmptyObjectStands(s: CStr, i: nat, p: nat)
    requires i < |s| && s[i] == OPEN_BRACE && SkipsTo(s, i + 1, p) && p < |s| && s[p] == CLOSE_BRACE
    ensures Stands(s, i, G.Obj(s[i + 1..p], []), p + 1)
  {
    BlanksSkipped(s, i + 1);
    BracketsJoin(s, i, 123, s[i + 1..p], 125);
    hide Occurs;
    hide G.Blank;
  }

  lemma FullObjectStands(s: CStr, i: nat, ms: seq<G.Member>, fin: nat)
    requires i < |s| && s[i] == OPEN_BRACE && MembersStand(s, i + 1, ms, fin)
    ensures Stands(s, i, G.Obj([], ms), fin)
  {
    BracketsJoin(s, i, 123, G.MembersText(ms), 125);
    hide G.MembersText;
    hide G.WellMember;
    hide Occurs;
  }

  lemma ObjectParts(s: CStr, i: nat)
    requires i < |s| && s[i] == OPEN_BRACE && WellEscaped(s, i) && ParseObject(s, i).Good?
    ensures var p := Skip(s, i + 1);
      || (SkipsTo(s, i + 1, p) && p < |s| && s[p] == CLOSE_BRACE && ParseObject(s, i).end == p + 1)
      || MemberLoopReads(s, i + 1, [], ParseObject(s, i).end)
  {
    hide ParseMember;
    hide ObjectRest;
    Inside(s, i);
    hide WellEscaped;
    if At(s, Skip(s, i + 1)) != CLOSE_BRACE {
      assert [] + [ParseMember(s, Skip(s, i + 1)).value] == [ParseMember(s, Skip(s, i + 1)).value];
    }
  }

  lemma ObjectSpelled(s: CStr, i: nat) returns (d: G.Doc)
    requires i < |s| && s[i] == OPEN_BRACE && WellEscaped(s, i) && ParseObject(s, i).Good?
    ensures Stands(s, i, d, ParseObject(s, i).end)
    decreases |s| - i, 0
  {
    hide *;
    ObjectParts(s, i);
    var p, fin := Skip(s, i + 1), ParseObject(s, i).end;
    if MemberLoopReads(s, i + 1, [], fin) {
      var ms := MembersSpelled(s, i + 1, [], fin);
      d := G.Obj([], ms);
      FullObjectStands(s, i, ms, fin);
    } else {
      d := G.Obj(s[i + 1..p], []);
      EmptyObjectStands(s, i, p);
    }
  }

  /** Whatever the parser reads at i is the text of a document. */
  lemma {:induction false} ValueSpelled(s: CStr, i: nat) returns (d: G.Doc)
    requires i <= |s| && WellEscaped(s, i) && ParseValue(s, i).Good?
    ensures Stands(s, i, d, ParseValue(s, i).end)
    decreases |s| - i, 1
  {
    if Occurs(s, i, NULL_TEXT) {
      d := G.Word(NULL);
      WordSpelled(s, i, NULL, NULL_TEXT);
    } else if Occurs(s, i, FALSE_TEXT) {
      d := G.Word(FALSE);
      WordSpelled(s, i, FALSE, FALSE_TEXT);
    } else if Occurs(s, i, TRUE_TEXT) {
      d := G.Word(TRUE);
      WordSpelled(s, i, TRUE, TRUE_TEXT);
    } else if At(s, i) == QUOTE {
      d := StringStands(s, i);
    } else if At(s, i) == MINUS || IsDigit(At(s, i)) {
      d := NumberStands(s, i);
    } else if At(s, i) == OPEN_BRACKET {
      d := ArraySpelled(s, i);
    } else {
      d := ObjectSpelled(s, i);
    }
  }

  // ----- whole texts

  lemma TextSpelled(s: CStr) returns (front: CStr, d: G.Doc, back: CStr)
    requires WellEscaped(s, 0) && ParseText(s, true).Good?
    ensures G.Spells(s, front, d, back, false)
  {
    hide *;
    var i := Skip(s, 0);
    WellEscapedSkip(s, 0);
    TextParts(s);
    d := ValueSpelled(s, i);
    var end := ParseValue(s, i).end;
    BlanksSkipped(s, 0);
    BlanksSkipped(s, end);
    front, back := s[..i], s[end..];
    PartsSpell(s, i, end, d);
  }

  lemma TextParts(s: CStr)
    requires ParseText(s, true).Good?
    ensures ParseValue(s, Skip(s, 0)).Good? && ParseValue(s, Skip(s, 0)).end <= |s| && Skip(s, ParseValue(s, Skip(s, 0)).end) == |s|
  {
    hide ParseValue;
  }

  lemma PartsSpell(s: CStr, i: nat, end: nat, d: G.Doc)
    requires i <= |s| && Stands(s, i, d, end) && G.Blank(s[0..i], false) && G.Blank(s[end..|s|], false)
    ensures G.Spells(s, s[..i], d, s[end..], false)
  {
    hide G.Text;
    hide G.Well;
    hide G.Blank;
    assert s[0..i] == s[..i] && s[end..|s|] == s[end..];
    assert s == s[..i] + (s[i..end] + s[end..]);
  }

  /** The language of the parser: a text whose escapes are complete parses to a value,
      insisting on the end, if and only if it spells a document that stands for it. */
  lemma ParsesExactly(s: CStr, t: Item)
    requires WellEscaped(s, 0)
    ensures ParseText(s, true) == Good(t, |s|)
       <==> exists front, d, back :: G.Spells(s, front, d, back, false) && G.Meaning(d) == t
  {
    hide G.Spells;
    hide G.Meaning;
    hide ParseText;
    if ParseText(s, true) == Good(t, |s|) {
      var front, d, back := TextSpelled(s);
      AcceptsText(s, front, d, back, true);
    }
    if front, d, back :| G.Spells(s, front, d, back, false) && G.Meaning(d) == t {
      AcceptsText(s, front, d, back, true);
    }
  }
}
