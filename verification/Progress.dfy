/**
 The parser never runs away on text whose escapes are complete.
 */
module Progress {
  import opened CText
  import opened Strings
  import opened TwoPasses
  import opened Json

  /** Scanning from i, every backslash starts a complete escape. */
  predicate WellEscaped(s: CStr, i: nat)
    requires i <= |s|
    decreases |s| - i
  {
    if i == |s| then true
    else if s[i] != BACKSLASH then WellEscaped(s, i + 1)
    else if At(s, i + 1) == 0 then false
    else if s[i + 1] == LOWER_U then FourHex(s, i + 2) && WellEscaped(s, i + 6)
    else WellEscaped(s, i + 2)
  }

  lemma {:induction false} WellEscapedOver(s: CStr, i: nat, j: nat)
    requires i <= j <= |s|
    requires forall k :: i <= k < j ==> s[k] != BACKSLASH
    ensures WellEscaped(s, i) <==> WellEscaped(s, j)
    decreases j - i
  {
    if i < j {
      WellEscapedOver(s, i + 1, j);
    }
  }

  lemma WellEscapedSkip(s: CStr, i: nat)
    requires i <= |s|
    ensures WellEscaped(s, i) <==> WellEscaped(s, Skip(s, i))
  {
    WellEscapedOver(s, i, Skip(s, i));
  }

  lemma {:induction false} WellEscapedLiteral(s: CStr, i: nat)
    requires i <= |s| && WellEscaped(s, i)
    ensures Escaped(s, i) && Skim(s, i).Some? && WellEscaped(s, Skim(s, i).value)
    decreases |s| - i
  {
    if At(s, i) == 0 || At(s, i) == QUOTE {
    } else if s[i] != BACKSLASH {
      WellEscapedLiteral(s, i + 1);
    } else if s[i + 1] != LOWER_U {
      WellEscapedLiteral(s, i + 2);
    } else {
      WellEscapedLiteral(s, i + 6);
    }
  }

  lemma WellEscapedString(s: CStr, i: nat)
    requires i <= |s| && WellEscaped(s, i)
    ensures !StringAt(s, i).Undefined?
    ensures StringAt(s, i).Good? ==> WellEscaped(s, StringAt(s, i).end)
  {
    if At(s, i) == QUOTE {
      WellEscapedLiteral(s, i + 1);
      EscapedAgree(s, i + 1);
      CopySkims(s, i + 1, NO_VARS);
      hide Copy;
      hide Count;
      hide Skim;
      hide Legible;
      hide Escaped;
    }
  }

  lemma NumberHasNoBackslash(s: CStr, i: nat)
    requires i < |s| && (s[i] == MINUS || IsDigit(s[i]))
    ensures forall k :: i <= k < ParseNumber(s, i).end ==> s[k] != BACKSLASH
  {
  }

  lemma WordHasNoBackslash(s: CStr, i: nat, word: CStr)
    requires Occurs(s, i, word) && BACKSLASH !in word
    ensures forall k :: i <= k < i + |word| ==> s[k] != BACKSLASH
  {
    forall k | i <= k < i + |word|
      ensures s[k] != BACKSLASH
    {
      OccursAt(s, i, word, k - i);
    }
  }

  /** On text whose escapes are complete, parsing any value from any point the
      parser can reach is defined, and ends at such a point again. Together with the
      bounds in the contract of ParseValue this is the progress of the parser. */
  lemma {:induction false} ParseValueDefined(s: CStr, i: nat)
    requires i <= |s| && WellEscaped(s, i)
    ensures !ParseValue(s, i).Undefined?
    ensures ParseValue(s, i).Good? ==> WellEscaped(s, ParseValue(s, i).end)
    decreases |s| - i, 1
  {
    hide ParseArray;
    hide ParseObject;
    hide ParseNumber;
    hide StringAt;
    if Occurs(s, i, NULL_TEXT) {
      WordHasNoBackslash(s, i, NULL_TEXT);
      WellEscapedOver(s, i, i + 4);
    } else if Occurs(s, i, FALSE_TEXT) {
      WordHasNoBackslash(s, i, FALSE_TEXT);
      WellEscapedOver(s, i, i + 5);
    } else if Occurs(s, i, TRUE_TEXT) {
      WordHasNoBackslash(s, i, TRUE_TEXT);
      WellEscapedOver(s, i, i + 4);
    } else if At(s, i) == QUOTE {
      WellEscapedString(s, i);
    } else if At(s, i) == MINUS || IsDigit(At(s, i)) {
      NumberHasNoBackslash(s, i);
      WellEscapedOver(s, i, ParseNumber(s, i).end);
    } else if At(s, i) == OPEN_BRACKET {
      ParseArrayDefined(s, i);
    } else if At(s, i) == OPEN_BRACE {
      ParseObjectDefined(s, i);
    }
  }

  lemma {:induction false} ParseArrayDefined(s: CStr, i: nat)
    requires i < |s| && s[i] == OPEN_BRACKET && WellEscaped(s, i)
    ensures !ParseArray(s, i).Undefined?
    ensures ParseArray(s, i).Good? ==> WellEscaped(s, ParseArray(s, i).end)
    decreases |s| - i, 0
  {
    hide ParseValue;
    hide ArrayRest;
    WellEscapedSkip(s, i + 1);
    var p := Skip(s, i + 1);
    if At(s, p) != CLOSE_BRACKET {
      ParseValueDefined(s, p);
      if ParseValue(s, p).Good? {
        WellEscapedSkip(s, ParseValue(s, p).end);
        ArrayRestDefined(s, Skip(s, ParseValue(s, p).end), [ParseValue(s, p).value]);
      }
    }
  }

  lemma {:induction false} ParseObjectDefined(s: CStr, i: nat)
    requires i < |s| && s[i] == OPEN_BRACE && WellEscaped(s, i)
    ensures !ParseObject(s, i).Undefined?
    ensures ParseObject(s, i).Good? ==> WellEscaped(s, ParseObject(s, i).end)
    decreases |s| - i, 0
  {
    hide ParseMember;
    hide ObjectRest;
    WellEscapedSkip(s, i + 1);
    var p := Skip(s, i + 1);
    if At(s, p) != CLOSE_BRACE {
      ParseMemberDefined(s, p);
      if ParseMember(s, p).Good? {
        WellEscapedSkip(s, ParseMember(s, p).end);
        ObjectRestDefined(s, Skip(s, ParseMember(s, p).end), [ParseMember(s, p).value]);
      }
    }
  }

  lemma {:induction false} ArrayRestDefined(s: CStr, i: nat, kids: seq<Item>)
    requires i <= |s| && WellEscaped(s, i)
    ensures !ArrayRest(s, i, kids).Undefined?
    ensures ArrayRest(s, i, kids).Good? ==> WellEscaped(s, ArrayRest(s, i, kids).end)
    decreases |s| - i, 0
  {
    if At(s, i) == COMMA {
      WellEscapedSkip(s, i + 1);
      var p := Skip(s, i + 1);
      ParseValueDefined(s, p);
      if ParseValue(s, p).Good? {
        WellEscapedSkip(s, ParseValue(s, p).end);
        ArrayRestDefined(s, Skip(s, ParseValue(s, p).end), kids + [ParseValue(s, p).value]);
      }
    }
  }

  lemma {:induction false} ParseMemberDefined(s: CStr, i: nat)
    requires i <= |s| && WellEscaped(s, i)
    ensures !ParseMember(s, i).Undefined?
    ensures ParseMember(s, i).Good? ==> WellEscaped(s, ParseMember(s, i).end)
    decreases |s| - i, 2
  {
    hide StringAt;
    hide ParseValue;
    WellEscapedString(s, i);
    if StringAt(s, i).Good? {
      WellEscapedSkip(s, StringAt(s, i).end);
      var p := Skip(s, StringAt(s, i).end);
      if At(s, p) == COLON {
        WellEscapedSkip(s, p + 1);
        ParseValueDefined(s, Skip(s, p + 1));
      }
    }
  }

  lemma {:induction false} ObjectRestDefined(s: CStr, i: nat, kids: seq<Item>)
    requires i <= |s| && WellEscaped(s, i)
    ensures !ObjectRest(s, i, kids).Undefined?
    ensures ObjectRest(s, i, kids).Good? ==> WellEscaped(s, ObjectRest(s, i, kids).end)
    decreases |s| - i, 0
  {
    if At(s, i) == COMMA {
      WellEscapedSkip(s, i + 1);
      var p := Skip(s, i + 1);
      ParseMemberDefined(s, p);
      if ParseMember(s, p).Good? {
        WellEscapedSkip(s, ParseMember(s, p).end);
        ObjectRestDefined(s, Skip(s, ParseMember(s, p).end), kids + [ParseMember(s, p).value]);
      }
    }
  }
}
