/**
 Where parsing fails, the text is wrong there: the parser looks no more than five bytes
 past the error position, so no accepted text begins with these bytes.
 */
module Failures {
  import opened CText
  import opened Strings
  import opened Json
  import opened Progress
  import opened Scalars
  import opened Acceptance
  import opened Soundness
  import opened Completions
  import G = Grammar

  /** The byte at k, the terminating NUL and what follows it being zero. */
  function ByteAt(s: CStr, k: nat): Byte { if k < |s| then s[k] else 0 }

  /** The two texts have the same first m bytes, counting the terminating NUL. */
  predicate Same(s: CStr, u: CStr, m: nat) { forall k :: 0 <= k < m ==> ByteAt(s, k) == ByteAt(u, k) }

  lemma SameLength(s: CStr, u: CStr, m: nat, p: nat)
    requires Same(s, u, m) && p <= m && p <= |s|
    ensures p <= |u| && forall k :: 0 <= k < p ==> s[k] == u[k]
  {
    if p > 0 {
      var k := if |u| < p then |u| else 0;
      assert ByteAt(s, k) == ByteAt(u, k);
      forall k | 0 <= k < p
        ensures k < |u| && s[k] == u[k]
      {
        assert ByteAt(s, k) == ByteAt(u, k);
      }
    }
  }

  lemma SameAt(s: CStr, u: CStr, m: nat, p: nat)
    requires Same(s, u, m) && p < m && p <= |s|
    ensures p <= |u| && At(s, p) == At(u, p) && (p < |s| <==> p < |u|)
  {
    SameLength(s, u, m, p);
    assert ByteAt(s, p) == ByteAt(u, p);
  }

  lemma SameBack(s: CStr, u: CStr, m: nat)
    requires Same(s, u, m)
    ensures Same(u, s, m)
  {
    forall k | 0 <= k < m
      ensures ByteAt(u, k) == ByteAt(s, k)
    {
      assert ByteAt(s, k) == ByteAt(u, k);
    }
  }

  lemma SameOccurs(s: CStr, u: CStr, m: nat, p: nat, t: CStr)
    requires Same(s, u, m) && p <= |s| && p + |t| <= m
    ensures Occurs(s, p, t) <==> Occurs(u, p, t)
  {
    if Occurs(s, p, t) {
      OccursThere(s, u, m, p, t);
    }
    SameBack(s, u, m);
    if Occurs(u, p, t) {
      OccursThere(u, s, m, p, t);
    }
  }

  lemma OccursThere(s: CStr, u: CStr, m: nat, p: nat, t: CStr)
    requires Same(s, u, m) && Occurs(s, p, t) && p + |t| <= m
    ensures Occurs(u, p, t)
  {
    SameLength(s, u, m, p + |t|);
    assert u[p..p + |t|] == s[p..p + |t|];
  }

  lemma {:induction false} SkipSame(s: CStr, u: CStr, m: nat, i: nat)
    requires Same(s, u, m) && i <= |s| && Skip(s, i) < m
    ensures i <= |u| && Skip(u, i) == Skip(s, i)
    decreases |s| - i
  {
    hide Same;
    SameAt(s, u, m, i);
    if i < |s| && s[i] <= 32 {
      SkipSame(s, u, m, i + 1);
    }
  }

  // ----- numbers

  lemma {:induction false} DigitsEndSame(s: CStr, u: CStr, m: nat, i: nat)
    requires Same(s, u, m) && i <= |s| && DigitsEnd(s, i) < m
    ensures i <= |u| && DigitsEnd(u, i) == DigitsEnd(s, i)
    decreases |s| - i
  {
    hide Same;
    SameAt(s, u, m, i);
    if IsDigit(At(s, i)) {
      DigitsEndSame(s, u, m, i + 1);
    }
  }

  lemma {:induction false} DigitsValueSame(s: CStr, u: CStr, m: nat, i: nat, j: nat, n: nat)
    requires Same(s, u, m) && i <= j <= |s| && j < m && forall k :: i <= k < j ==> IsDigit(s[k])
    ensures j <= |u| && (forall k :: i <= k < j ==> IsDigit(u[k])) && DigitsValue(u, i, j, n) == DigitsValue(s, i, j, n)
    decreases j - i
  {
    hide Same;
    SameAt(s, u, m, j);
    if i < j {
      SameAt(s, u, m, i);
      assert IsDigit(s[i]);
      DigitsValueSame(s, u, m, i + 1, j, n * 10 + (s[i] as int - 48));
    }
  }

  lemma FractionSame(s: CStr, u: CStr, m: nat, p: nat, n: nat)
    requires Same(s, u, m) && p <= |s| && Fraction(s, p, n).2 + 1 < m
    ensures p <= |u| && Fraction(u, p, n) == Fraction(s, p, n)
  {
    hide Same;
    hide DigitsValue;
    SameAt(s, u, m, p);
    if At(s, p) == DOT {
      SameAt(s, u, m, p + 1);
      if IsDigit(At(s, p + 1)) {
        DigitsEndSame(s, u, m, p + 1);
        DigitsValueSame(s, u, m, p + 1, DigitsEnd(s, p + 1), n);
      }
    }
  }

  lemma ExponentSame(s: CStr, u: CStr, m: nat, p: nat)
    requires Same(s, u, m) && p <= |s| && Exponent(s, p).1 + 1 < m
    ensures p <= |u| && Exponent(u, p) == Exponent(s, p)
  {
    hide Same;
    hide DigitsValue;
    SameAt(s, u, m, p);
    if At(s, p) == 101 || At(s, p) == 69 {
      SameAt(s, u, m, p + 1);
      var q := if At(s, p + 1) == PLUS || At(s, p + 1) == MINUS then p + 2 else p + 1;
      DigitsEndSame(s, u, m, q);
      DigitsValueSame(s, u, m, q, DigitsEnd(s, q), 0);
    }
  }

  lemma NumberSame(s: CStr, u: CStr, m: nat, i: nat)
    requires Same(s, u, m) && i < |s| && (s[i] == MINUS || IsDigit(s[i])) && ParseNumber(s, i).end + 2 <= m
    ensures i < |u| && u[i] == s[i] && ParseNumber(u, i) == ParseNumber(s, i)
  {
    hide Same;
    hide DigitsValue;
    hide Fraction;
    hide Exponent;
    hide NumberValue;
    SameAt(s, u, m, i);
    var p1 := if s[i] == MINUS then i + 1 else i;
    SameAt(s, u, m, p1);
    var p2 := if At(s, p1) == 48 then p1 + 1 else p1;
    SameAt(s, u, m, p2);
    var p3 := if 49 <= At(s, p2) <= 57 then DigitsEnd(s, p2) else p2;
    if 49 <= At(s, p2) <= 57 {
      DigitsEndSame(s, u, m, p2);
    }
    var n := DigitsValue(s, p2, p3, 0);
    DigitsValueSame(s, u, m, p2, p3, 0);
    var p4 := Fraction(s, p3, n).2;
    FractionSame(s, u, m, p3, n);
    ExponentSame(s, u, m, p4);
  }

  // ----- strings and words

  lemma StringSame(s: CStr, u: CStr, m: nat, i: nat)
    requires Same(s, u, m) && i <= |s| && WellEscaped(s, i)
    requires StringAt(s, i).Good? && StringAt(s, i).end < m
    ensures i < |s| && s[i] == QUOTE && i < |u| && u[i] == QUOTE && StringAt(u, i) == StringAt(s, i)
  {
    StringNeedsQuote(s, i);
    hide *;
    var us, closed := StringSpelled(s, i);
    var text := G.LiteralText(us, closed);
    SameAt(s, u, m, i);
    SameAt(s, u, m, i + |text|);
    OccursThere(s, u, m, i, text);
    SameChar(s, u, i);
    StringParses(u, i, us, closed);
  }

  lemma SameChar(s: CStr, u: CStr, i: nat)
    requires i < |s| && i < |u| && At(s, i) == At(u, i)
    ensures s[i] == u[i]
  {
  }

  /** Where no string starts none is read. */
  lemma NoStringSame(s: CStr, u: CStr, m: nat, i: nat)
    requires Same(s, u, m) && i <= |s| && StringAt(s, i).Bad? && i < m
    ensures i <= |u| && StringAt(u, i) == StringAt(s, i)
  {
    hide Same;
    hide Copy;
    hide Count;
    SameAt(s, u, m, i);
  }

  predicate IsWord(s: CStr, i: nat) { Occurs(s, i, NULL_TEXT) || Occurs(s, i, FALSE_TEXT) || Occurs(s, i, TRUE_TEXT) }

  lemma WordsSame(s: CStr, u: CStr, m: nat, i: nat)
    requires Same(s, u, m) && i <= |s| && i + 5 <= m
    ensures i <= |u| && (IsWord(s, i) <==> IsWord(u, i)) && (IsWord(s, i) ==> ParseValue(u, i) == ParseValue(s, i))
  {
    SameLength(s, u, m, i);
    SameOccurs(s, u, m, i, NULL_TEXT);
    SameOccurs(s, u, m, i, FALSE_TEXT);
    SameOccurs(s, u, m, i, TRUE_TEXT);
    hide Occurs;
    hide Same;
    hide ParseArray;
    hide ParseObject;
    hide ParseNumber;
    hide StringAt;
  }

  lemma WordEnds(s: CStr, i: nat)
    requires i <= |s| && IsWord(s, i)
    ensures i < |s| && s[i] in {110, 102, 116} && ParseValue(s, i).Good? && i + 4 <= ParseValue(s, i).end
  {
    if Occurs(s, i, NULL_TEXT) {
      OccursAt(s, i, NULL_TEXT, 0);
    } else if Occurs(s, i, FALSE_TEXT) {
      OccursAt(s, i, FALSE_TEXT, 0);
    } else {
      OccursAt(s, i, TRUE_TEXT, 0);
    }
  }

  // ----- values

  /** The parser has not looked past the first m bytes. */
  predicate Within<T>(r: Parsed<T>, m: nat) {
    match r
    case Good(_, end) => end + 2 <= m
    case Bad(ep) => ep + 5 <= m
    case Undefined => false
  }

  lemma NoValue(s: CStr, i: nat)
    requires i <= |s| && !IsWord(s, i) && At(s, i) !in {34, 45, 91, 123} && !IsDigit(At(s, i))
    ensures ParseValue(s, i) == Bad(i)
  {
  }

  lemma NoValueSame(s: CStr, u: CStr, m: nat, i: nat)
    requires Same(s, u, m) && i <= |s| && i + 5 <= m
    requires !IsWord(s, i) && At(s, i) !in {34, 45, 91, 123} && !IsDigit(At(s, i))
    ensures i <= |u| && ParseValue(u, i) == ParseValue(s, i)
  {
    hide *;
    WordsSame(s, u, m, i);
    SameAt(s, u, m, i);
    NoValue(s, i);
    IsDigitAt(At(s, i), At(u, i));
    NoValue(u, i);
  }

  lemma IsDigitAt(c: Byte, d: Byte)
    requires c == d
    ensures IsDigit(c) <==> IsDigit(d)
  {
  }

  lemma WordSame(s: CStr, u: CStr, m: nat, i: nat)
    requires Same(s, u, m) && i <= |s| && IsWord(s, i) && Within(ParseValue(s, i), m)
    ensures i <= |u| && ParseValue(u, i) == ParseValue(s, i)
  {
    WordEnds(s, i);
    hide ParseValue;
    hide IsWord;
    hide Same;
    WordsSame(s, u, m, i);
  }

  lemma QuotedSame(s: CStr, u: CStr, m: nat, i: nat)
    requires Same(s, u, m) && i < |s| && s[i] == QUOTE && WellEscaped(s, i) && Within(ParseValue(s, i), m)
    ensures i <= |u| && ParseValue(u, i) == ParseValue(s, i)
  {
    hide Same;
    hide WellEscaped;
    hide StringAt;
    hide ParseValue;
    WellEscapedString(s, i);
    QuoteReads(s, i);
    Dispatch(s, i);
    StringSame(s, u, m, i);
    Dispatch(u, i);
  }

  lemma QuoteReads(s: CStr, i: nat)
    requires i < |s| && s[i] == QUOTE
    ensures !StringAt(s, i).Bad?
  {
    hide Copy;
    hide Count;
  }

  lemma DigitSame(s: CStr, u: CStr, m: nat, i: nat)
    requires Same(s, u, m) && i < |s| && (s[i] == MINUS || IsDigit(s[i])) && Within(ParseValue(s, i), m)
    ensures i <= |u| && ParseValue(u, i) == ParseValue(s, i)
  {
    hide Same;
    hide ParseValue;
    hide ParseNumber;
    Dispatch(s, i);
    NumberReads(s, i);
    NumberSame(s, u, m, i);
    Dispatch(u, i);
  }

  lemma NumberReads(s: CStr, i: nat)
    requires i < |s| && (s[i] == MINUS || IsDigit(s[i]))
    ensures ParseNumber(s, i).Good?
  {
    hide Fraction;
    hide Exponent;
    hide DigitsValue;
    hide NumberValue;
  }

  lemma {:induction false} ValueSame(s: CStr, u: CStr, m: nat, i: nat)
    requires Same(s, u, m) && i <= |s| && WellEscaped(s, i) && Within(ParseValue(s, i), m)
    ensures i <= |u| && ParseValue(u, i) == ParseValue(s, i)
    decreases |s| - i, 1
  {
    hide Same;
    hide WellEscaped;
    hide ParseValue;
    hide IsWord;
    if IsWord(s, i) {
      WordSame(s, u, m, i);
    } else if At(s, i) == QUOTE {
      QuotedSame(s, u, m, i);
    } else if At(s, i) == MINUS || IsDigit(At(s, i)) {
      DigitSame(s, u, m, i);
    } else if At(s, i) == OPEN_BRACKET {
      DispatchArray(s, i);
      ArraySame(s, u, m, i);
      DispatchArray(u, i);
    } else if At(s, i) == OPEN_BRACE {
      DispatchObject(s, i);
      ObjectSame(s, u, m, i);
      DispatchObject(u, i);
    } else {
      NoValue(s, i);
      NoValueSame(s, u, m, i);
    }
  }

  /** A nested value, and the blanks behind it if it is read. */
  lemma {:induction false} NestedSame(s: CStr, u: CStr, m: nat, p: nat)
    requires Same(s, u, m) && p <= |s| && WellEscaped(s, p)
    requires var v := ParseValue(s, Skip(s, p)); Within(v, m) && (v.Good? ==> Skip(s, v.end) < m)
    ensures var v := ParseValue(s, Skip(s, p));
      && p <= |u| && Skip(u, p) == Skip(s, p) && ParseValue(u, Skip(u, p)) == v
      && (v.Good? ==> v.end <= |u| && Skip(u, v.end) == Skip(s, v.end) && WellEscaped(s, Skip(s, v.end)) && p < v.end)
    decreases |s| - p, 2
  {
    hide Same;
    hide WellEscaped;
    hide ParseValue;
    var i := Skip(s, p);
    var v := ParseValue(s, i);
    WellEscapedSkip(s, p);
    SkipSame(s, u, m, p);
    ValueSame(s, u, m, i);
    if v.Good? {
      ParseValueDefined(s, i);
      WellEscapedSkip(s, v.end);
      SkipSame(s, u, m, v.end);
    }
  }

  lemma {:induction false} ArraySame(s: CStr, u: CStr, m: nat, i: nat)
    requires Same(s, u, m) && i < |s| && s[i] == OPEN_BRACKET && WellEscaped(s, i) && Within(ParseArray(s, i), m)
    ensures i < |u| && u[i] == OPEN_BRACKET && ParseArray(u, i) == ParseArray(s, i)
    decreases |s| - i, 0
  {
    hide Same;
    hide ParseValue;
    hide ArrayRest;
    Inside(s, i);
    hide WellEscaped;
    var p := Skip(s, i + 1);
    var v := ParseValue(s, p);
    SameAt(s, u, m, i);
    SkipSame(s, u, m, i + 1);
    SameAt(s, u, m, p);
    if At(s, p) != CLOSE_BRACKET {
      NestedSame(s, u, m, i + 1);
      if v.Good? {
        RestSame(s, u, m, Skip(s, v.end), [v.value]);
      }
    }
  }

  lemma {:induction false} RestSame(s: CStr, u: CStr, m: nat, i: nat, kids: seq<Item>)
    requires Same(s, u, m) && i <= |s| && WellEscaped(s, i) && Within(ArrayRest(s, i, kids), m)
    ensures i <= |u| && ArrayRest(u, i, kids) == ArrayRest(s, i, kids)
    decreases |s| - i, 0
  {
    hide Same;
    hide ParseValue;
    SameAt(s, u, m, i);
    if At(s, i) == COMMA {
      PastComma(s, i);
      hide WellEscaped;
      var v := ParseValue(s, Skip(s, i + 1));
      NestedSame(s, u, m, i + 1);
      if v.Good? {
        RestSame(s, u, m, Skip(s, v.end), kids + [v.value]);
      }
    }
  }

  lemma {:induction false} MemberSame(s: CStr, u: CStr, m: nat, n: nat)
    requires Same(s, u, m) && n <= |s| && WellEscaped(s, n) && Within(ParseMember(s, n), m)
    ensures n <= |u| && ParseMember(u, n) == ParseMember(s, n)
    decreases |s| - n, 3
  {
    hide Same;
    hide ParseValue;
    hide StringAt;
    WellEscapedString(s, n);
    if StringAt(s, n).Bad? {
      NoStringSame(s, u, m, n);
    } else {
      var g := StringAt(s, n).end;
      var c := Skip(s, g);
      StringSame(s, u, m, n);
      SkipSame(s, u, m, g);
      SameAt(s, u, m, c);
      WellEscapedSkip(s, g);
      if At(s, c) == COLON {
        Inside(s, c);
        WellEscapedSkip(s, c + 1);
        hide WellEscaped;
        SkipSame(s, u, m, c + 1);
        ValueSame(s, u, m, Skip(s, c + 1));
      }
    }
  }

  lemma {:induction false} NestedMemberSame(s: CStr, u: CStr, m: nat, p: nat)
    requires Same(s, u, m) && p <= |s| && WellEscaped(s, p)
    requires var v := ParseMember(s, Skip(s, p)); Within(v, m) && (v.Good? ==> Skip(s, v.end) < m)
    ensures var v := ParseMember(s, Skip(s, p));
      && p <= |u| && Skip(u, p) == Skip(s, p) && ParseMember(u, Skip(u, p)) == v
      && (v.Good? ==> v.end <= |u| && Skip(u, v.end) == Skip(s, v.end) && WellEscaped(s, Skip(s, v.end)) && p < v.end)
    decreases |s| - p, 4
  {
    hide Same;
    hide WellEscaped;
    hide ParseMember;
    var i := Skip(s, p);
    var v := ParseMember(s, i);
    WellEscapedSkip(s, p);
    SkipSame(s, u, m, p);
    MemberSame(s, u, m, i);
    if v.Good? {
      ParseMemberDefined(s, i);
      WellEscapedSkip(s, v.end);
      SkipSame(s, u, m, v.end);
    }
  }

  lemma {:induction false} ObjectSame(s: CStr, u: CStr, m: nat, i: nat)
    requires Same(s, u, m) && i < |s| && s[i] == OPEN_BRACE && WellEscaped(s, i) && Within(ParseObject(s, i), m)
    ensures i < |u| && u[i] == OPEN_BRACE && ParseObject(u, i) == ParseObject(s, i)
    decreases |s| - i, 0
  {
    hide Same;
    hide ParseMember;
    hide ObjectRest;
    Inside(s, i);
    hide WellEscaped;
    var p := Skip(s, i + 1);
    var v := ParseMember(s, p);
    SameAt(s, u, m, i);
    SkipSame(s, u, m, i + 1);
    SameAt(s, u, m, p);
    if At(s, p) != CLOSE_BRACE {
      NestedMemberSame(s, u, m, i + 1);
      if v.Good? {
        MemberRestSame(s, u, m, Skip(s, v.end), [v.value]);
      }
    }
  }

  lemma {:induction false} MemberRestSame(s: CStr, u: CStr, m: nat, i: nat, kids: seq<Item>)
    requires Same(s, u, m) && i <= |s| && WellEscaped(s, i) && Within(ObjectRest(s, i, kids), m)
    ensures i <= |u| && ObjectRest(u, i, kids) == ObjectRest(s, i, kids)
    decreases |s| - i, 0
  {
    hide Same;
    hide ParseMember;
    SameAt(s, u, m, i);
    if At(s, i) == COMMA {
      PastComma(s, i);
      hide WellEscaped;
      var v := ParseMember(s, Skip(s, i + 1));
      NestedMemberSame(s, u, m, i + 1);
      if v.Good? {
        MemberRestSame(s, u, m, Skip(s, v.end), kids + [v.value]);
      }
    }
  }

  // ----- whole texts

  lemma TextSame(s: CStr, u: CStr, e: nat, requireEnd: bool)
    requires WellEscaped(s, 0) && ParseText(s, requireEnd) == Bad(e) && Same(s, u, e + 5)
    ensures ParseText(u, requireEnd) == Bad(e)
  {
    hide Same;
    hide ParseValue;
    var i := Skip(s, 0);
    WellEscapedSkip(s, 0);
    hide WellEscaped;
    SkipSame(s, u, e + 5, 0);
    ValueSame(s, u, e + 5, i);
    var v := ParseValue(s, i);
    if v.Good? {
      SkipSame(s, u, e + 5, v.end);
      SameAt(s, u, e + 5, e);
    }
  }

  /** The error position: a text whose escapes are complete is refused at e only if what
      stands in front of e begins an accepted text, and no accepted text agrees with it
      in the five bytes from e on. */
  lemma ErrorPosition(s: CStr, e: nat, requireEnd: bool)
    requires WellEscaped(s, 0) && ParseText(s, requireEnd) == Bad(e)
    ensures e <= |s| && exists u :: s[..e] <= u && ParseText(u, true).Good?
    ensures forall u :: ParseText(u, requireEnd).Good? ==> !Same(s, u, e + 5)
  {
    hide ParseText;
    hide WellEscaped;
    hide Same;
    EitherWay(s, e, requireEnd);
    var u := FailsInTime(s, e);
    forall w | ParseText(w, requireEnd).Good?
      ensures !Same(s, w, e + 5)
    {
      if Same(s, w, e + 5) {
        TextSame(s, w, e, requireEnd);
      }
    }
  }

  lemma EitherWay(s: CStr, e: nat, requireEnd: bool)
    requires ParseText(s, requireEnd) == Bad(e)
    ensures ParseText(s, true) == Bad(e)
  {
    hide ParseValue;
  }
}
