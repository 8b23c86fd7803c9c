/**
 The two passes of parse_string over one literal: when they end at the same quote, and
 why the copying pass then never writes more than the counting pass reserved.
 */
module TwoPasses {
  import opened CText
  import opened Utf
  import opened Strings

  // ----- the pointer of the copying pass

  /** Where the copying pass ends, found by stepping over two characters for an escape
      and six for \u, without reading any value; None if that leaves the text. */
  function Skim(s: CStr, i: nat): (r: Option<nat>)
    requires i <= |s|
    ensures r.Some? ==> i <= r.value <= |s|
    decreases |s| - i
  {
    if At(s, i) == 0 || At(s, i) == QUOTE then Some(i)
    else if s[i] != BACKSLASH then Skim(s, i + 1)
    else if At(s, i + 1) == 0 then None
    else if s[i + 1] != LOWER_U then Skim(s, i + 2)
    else if i + 6 <= |s| then Skim(s, i + 6)
    else None
  }

  /** The first \u met on the way is followed by something that reads as a number. */
  predicate FirstLegible(s: CStr, i: nat)
    requires i <= |s|
    decreases |s| - i
  {
    if At(s, i) == 0 || At(s, i) == QUOTE then true
    else if s[i] != BACKSLASH then FirstLegible(s, i + 1)
    else if At(s, i + 1) == 0 then true
    else if s[i + 1] != LOWER_U then FirstLegible(s, i + 2)
    else ScanHex(s, i + 2).Some?
  }

  /** The first \u met on the way as the second half of a pair is. Later ones, like later
      \u of the first kind, find the value of an earlier one in their variable. */
  predicate HalfLegible(s: CStr, i: nat, uc: Option<Residue>)
    requires i <= |s|
    decreases |s| - i
  {
    if At(s, i) == 0 || At(s, i) == QUOTE then true
    else if s[i] != BACKSLASH then HalfLegible(s, i + 1, uc)
    else if At(s, i + 1) == 0 then true
    else if s[i + 1] != LOWER_U then HalfLegible(s, i + 2, uc)
    else
      match Scanned(s, i + 2, HeldWord(uc))
      case None => true
      case Some(u) =>
        if i + 6 > |s| then true
        else if IsHigh(u) && SecondHalf(s, i + 6) then ScanHex(s, i + 8).Some?
        else HalfLegible(s, i + 6, Some(Residual(u)))
  }

  /** Nothing is used that was not stored. */
  predicate Legible(s: CStr, i: nat, v: Vars)
    requires i <= |s|
  {
    (v.uc.None? ==> FirstLegible(s, i)) && (v.uc2.None? ==> HalfLegible(s, i, v.uc))
  }

  /** A surrogate pair is stepped over like two escapes. */
  lemma SkimUnicode(s: CStr, i: nat, v: Vars)
    requires i + 2 <= |s| && s[i] == BACKSLASH && s[i + 1] == LOWER_U && Unicode(s, i + 2, v).Read?
    ensures Skim(s, i) == Skim(s, Unicode(s, i + 2, v).end)
    ensures Legible(s, i, v) <==> Legible(s, Unicode(s, i + 2, v).end, Unicode(s, i + 2, v).vars)
  {
    hide ScanHex;
    if Unicode(s, i + 2, v).end == i + 12 {
      assert Skim(s, i + 6) == Skim(s, i + 12);
    }
  }

  lemma SkimFails(s: CStr, i: nat, v: Vars)
    requires i + 2 <= |s| && s[i] == BACKSLASH && s[i + 1] == LOWER_U && !Unicode(s, i + 2, v).Read?
    ensures Skim(s, i).None? || !Legible(s, i, v)
  {
    hide ScanHex;
    if i + 6 <= |s| && Scanned(s, i + 2, HeldWord(v.uc)).Some? {
      assert SecondHalf(s, i + 6);
      assert s[i + 6] == BACKSLASH && s[i + 7] == LOWER_U;
    }
  }

  /** The copying pass stays inside the text, with every value determined, exactly if
      skimming does and what is read first is legible; and it ends where skimming ends. */
  lemma {:induction false} CopySkims(s: CStr, i: nat, v: Vars)
    requires i <= |s|
    ensures Copy(s, i, v).Done? <==> Skim(s, i).Some? && Legible(s, i, v)
    ensures Copy(s, i, v).Done? ==> Skim(s, i) == Some(Copy(s, i, v).end)
    decreases |s| - i
  {
    if At(s, i) == 0 || At(s, i) == QUOTE {
    } else if s[i] != BACKSLASH {
      CopySkims(s, i + 1, v);
    } else if At(s, i + 1) == 0 {
    } else if s[i + 1] != LOWER_U {
      CopySkims(s, i + 2, v);
    } else if Unicode(s, i + 2, v).Read? {
      SkimUnicode(s, i, v);
      CopySkims(s, Unicode(s, i + 2, v).end, Unicode(s, i + 2, v).vars);
    } else {
      SkimFails(s, i, v);
    }
  }

  // ----- units between two positions

  /** How the counting pass gets from p to n: in whole units, with a last unit that
      straddles n, or not at all because the literal ends before. */
  datatype Landing = Whole(units: nat) | Straddle(units: nat) | Ended

  function Land(s: CStr, p: nat, n: nat): Landing
    requires p <= |s| && p <= n + 1 && n <= |s|
    decreases n + 1 - p
  {
    if p == n then Whole(0)
    else if p > n then Straddle(0)
    else if At(s, p) == 0 || At(s, p) == QUOTE then Ended
    else if s[p] != BACKSLASH then Further(Land(s, p + 1, n))
    else if At(s, p + 1) == 0 then Ended
    else Further(Land(s, p + 2, n))
  }

  function Further(l: Landing): Landing {
    match l
    case Whole(k) => Whole(k + 1)
    case Straddle(k) => Straddle(k + 1)
    case Ended => Ended
  }

  lemma {:induction false} LandCounts(s: CStr, p: nat, n: nat)
    requires p <= n <= |s|
    ensures var l := Land(s, p, n);
      && (l.Whole? ==> Count(s, p) == Longer(Count(s, n), l.units))
      && (l.Straddle? ==> 0 < n < |s| && Count(s, p) == Longer(Count(s, n + 1), l.units))
      && (l.Ended? ==> Count(s, p).Lost? || Count(s, p).stop < n)
    decreases n - p
  {
    if p == n || At(s, p) == 0 || At(s, p) == QUOTE {
    } else if s[p] != BACKSLASH {
      LandCounts(s, p + 1, n);
    } else if p + 2 <= n && At(s, p + 1) != 0 {
      LandCounts(s, p + 2, n);
    }
  }

  predicate Ordinary(c: Byte) { c != 0 && c != QUOTE && c != BACKSLASH }

  lemma {:induction false} LandOver(s: CStr, p: nat, n: nat, k: nat)
    requires p + k <= n <= |s| && forall j :: p <= j < p + k ==> Ordinary(s[j])
    ensures Land(s, p, n) == (match Land(s, p + k, n)
                              case Whole(u) => Whole(u + k)
                              case Straddle(u) => Straddle(u + k)
                              case Ended => Ended)
    decreases k
  {
    if k > 0 {
      LandOver(s, p + 1, n, k - 1);
    }
  }

  // ----- the room a value needs

  /** The first k of the four characters behind a \u, or fewer if there are only four,
      stand for themselves. */
  predicate OrdinaryRun(s: CStr, i: nat, k: nat) {
    i + k <= |s| && forall j :: i <= j < i + k ==> Ordinary(s[j])
  }

  lemma {:induction false} HexBound(s: CStr, i: nat, n: nat)
    requires i + n <= |s| && forall k :: i <= k < i + n ==> IsHex(s[k])
    ensures n == 0 ==> HexNumber(s, i, n) < 1
    ensures n == 1 ==> HexNumber(s, i, n) < 0x10
    ensures n == 2 ==> HexNumber(s, i, n) < 0x100
    ensures n == 3 ==> HexNumber(s, i, n) < 0x1000
    ensures n == 4 ==> HexNumber(s, i, n) < 0x10000
  {
    if n > 0 {
      HexBound(s, i, n - 1);
    }
  }

  /** Blanks, sign, prefix and digits are ordinary characters. */
  lemma FieldPlain(s: CStr, i: nat)
    requires i <= |s|
    ensures var j := AfterSpaces(s, i); var p := DigitsField(s, j).0;
      && (forall k :: i <= k < p ==> Ordinary(s[k]))
      && (At(s, j) == MINUS ==> p > j)
  {
    hide AfterSpaces;
  }

  /** The value stored for n digits with value v, behind a minus or not. */
  lemma StoredValue(v: nat, n: nat)
    requires n <= 4 && (n == 1 ==> v < 0x10) && (n == 2 ==> v < 0x100) && (n == 3 ==> v < 0x1000) && (n == 4 ==> v < 0x10000)
    requires n > 0
    ensures var u := v % 0x1_0000_0000;
      && (u >= 0x10 ==> n >= 2) && (u >= 0x100 ==> n >= 3) && (u >= 0x1000 ==> n >= 4)
    ensures var u := (0x1_0000_0000 - v) % 0x1_0000_0000; u == 0 || u >= 0x10000
  {
  }

  lemma DigitsRead(s: CStr, i: nat) returns (p: nat, n: nat, v: nat)
    requires i <= |s| && ScanHex(s, i).Some?
    ensures p == DigitsField(s, AfterSpaces(s, i)).0 && 0 < n <= 4 && p + n <= |s|
    ensures forall k :: p <= k < p + n ==> Ordinary(s[k])
    ensures (n == 1 ==> v < 0x10) && (n == 2 ==> v < 0x100) && (n == 3 ==> v < 0x1000) && (n == 4 ==> v < 0x10000)
    ensures ScanHex(s, i).value
         == if At(s, AfterSpaces(s, i)) == MINUS then (0x1_0000_0000 - v) % 0x1_0000_0000 else v % 0x1_0000_0000
  {
    hide AfterSpaces;
    hide DigitsField;
    hide HexRun;
    hide HexNumber;
    var field := DigitsField(s, AfterSpaces(s, i));
    p, n := field.0, HexRun(s, field.0, field.1);
    v := HexNumber(s, p, n);
    HexBound(s, p, n);
  }

  /** The number of ordinary characters read bounds the value. */
  lemma ScanBound(s: CStr, i: nat) returns (k: nat)
    requires i <= |s| && ScanHex(s, i).Some?
    ensures k > 0 && OrdinaryRun(s, i, k)
    ensures var v := ScanHex(s, i).value;
      && (v >= 0x10 ==> k >= 2) && (0x100 <= v < 0x10000 ==> k >= 3) && (0x1000 <= v < 0x10000 ==> k >= 4)
  {
    hide ScanHex;
    hide AfterSpaces;
    hide DigitsField;
    hide Ordinary;
    FieldPlain(s, i);
    var p, n, v := DigitsRead(s, i);
    StoredValue(v, n);
    k := p + n - i;
  }

  /** The more bytes a value needs, the more ordinary characters it was read from. */
  lemma ScanPlain(s: CStr, i: nat)
    requires i <= |s| && ScanHex(s, i).Some?
    ensures var v := ScanHex(s, i).value;
      && OrdinaryRun(s, i, 1)
      && (v >= 0x80 ==> OrdinaryRun(s, i, 2))
      && (0x800 <= v < 0x10000 ==> OrdinaryRun(s, i, 3))
      && (0x1000 <= v < 0x10000 ==> OrdinaryRun(s, i, 4))
  {
    hide ScanHex;
    var k := ScanBound(s, i);
  }

  /** The room for one escape: what is written fits the units from its digits on, and
      one more if reading goes on between units. */
  predicate Roomy(s: CStr, i: nat, end: nat, len: nat)
    requires i <= |s| && i <= end <= |s|
  {
    var l := Land(s, i, end);
    (l.Whole? ==> len <= l.units + 1) && (l.Straddle? ==> len <= l.units)
  }

  /** Four characters are at least two units, and one more if the last one straddles. */
  lemma FourUnits(s: CStr, i: nat)
    requires i + 4 <= |s|
    ensures Land(s, i, i + 4).Whole? ==> Land(s, i, i + 4).units >= 2
    ensures Land(s, i, i + 4).Straddle? ==> Land(s, i, i + 4).units >= 3
  {
    assert Land(s, i + 3, i + 4).Whole? ==> Land(s, i + 3, i + 4).units >= 1;
    assert Land(s, i + 3, i + 4).Straddle? ==> Land(s, i + 3, i + 4).units >= 1;
    assert Land(s, i + 2, i + 4).Whole? ==> Land(s, i + 2, i + 4).units >= 1;
    assert Land(s, i + 2, i + 4).Straddle? ==> Land(s, i + 2, i + 4).units >= 2;
    assert Land(s, i + 1, i + 4).Whole? ==> Land(s, i + 1, i + 4).units >= 2;
    assert Land(s, i + 1, i + 4).Straddle? ==> Land(s, i + 1, i + 4).units >= 2;
  }

  /** A value that was read. */
  lemma ReadRoom(s: CStr, i: nat)
    requires i + 4 <= |s| && ScanHex(s, i).Some?
    ensures Roomy(s, i, i + 4, EncodedLength(ScanHex(s, i).value))
  {
    var u := ScanHex(s, i).value;
    ScanPlain(s, i);
    hide ScanHex;
    FourRoom(s, i);
    if u >= 0x80 {
      LandOver(s, i, i + 4, 2);
    }
    if 0x800 <= u < 0x10000 {
      LandOver(s, i, i + 4, 3);
    }
  }

  /** Two escapes in a row, read or not. */
  lemma PairRoom(s: CStr, i: nat)
    requires i + 10 <= |s| && SecondHalf(s, i + 4)
    ensures Roomy(s, i, i + 10, 4)
  {
    FourUnits(s, i);
    FourUnits(s, i + 6);
    LandFour(s, i, i + 10);
    if Land(s, i, i + 4).Whole? {
      assert Land(s, i + 4, i + 10) == Further(Land(s, i + 6, i + 10));
    } else if Land(s, i, i + 4).Straddle? {
      assert Land(s, i + 5, i + 10) == Further(Land(s, i + 6, i + 10));
    }
  }

  /** Landing behind four characters, by way of the position they end at. */
  lemma LandFour(s: CStr, i: nat, n: nat)
    requires i + 4 < n <= |s|
    ensures Land(s, i, n) == Through(Land(s, i, i + 4), Land(s, i + 4, n), Land(s, i + 5, n))
  {
    LandThrough(s, i, i + 4, n);
  }

  function Through(first: Landing, whole: Landing, straddled: Landing): Landing {
    match first
    case Whole(k) => Plus(whole, k)
    case Straddle(k) => Plus(straddled, k)
    case Ended => Ended
  }

  function Plus(l: Landing, n: nat): Landing {
    match l
    case Whole(k) => Whole(k + n)
    case Straddle(k) => Straddle(k + n)
    case Ended => Ended
  }

  lemma {:induction false} LandThrough(s: CStr, p: nat, m: nat, n: nat)
    requires p <= m + 1 && p <= |s| && m < n <= |s|
    ensures Land(s, p, n) == Through(Land(s, p, m), Land(s, m, n), Land(s, m + 1, n))
    decreases m + 1 - p
  {
    if p >= m {
    } else if At(s, p) == 0 || At(s, p) == QUOTE {
    } else if s[p] != BACKSLASH {
      LandThrough(s, p + 1, m, n);
    } else if At(s, p + 1) != 0 {
      LandThrough(s, p + 2, m, n);
    }
  }

  lemma UnicodeRoom(s: CStr, i: nat, v: Vars)
    requires i <= |s| && Unicode(s, i, v).Read?
    ensures Roomy(s, i, Unicode(s, i, v).end, |Unicode(s, i, v).bytes|)
  {
    hide ScanHex;
    if Unicode(s, i, v).end == i + 10 {
      PairRoom(s, i);
    } else if ScanHex(s, i).Some? {
      ReadRoom(s, i);
    } else {
      FourUnits(s, i);
    }
  }

  lemma FourRoom(s: CStr, i: nat)
    requires i + 4 <= |s| && OrdinaryRun(s, i, 1)
    ensures Land(s, i, i + 4) == Further(Land(s, i + 1, i + 4))
    ensures Land(s, i + 2, i + 4).Whole? ==> Land(s, i + 2, i + 4).units >= 1
    ensures Land(s, i + 2, i + 4).Straddle? ==> Land(s, i + 2, i + 4).units >= 2
    ensures Land(s, i + 3, i + 4).Whole? || Land(s, i + 3, i + 4).Straddle? ==> Land(s, i + 3, i + 4).units >= 1
  {
  }

  // ----- the buffer

  /** Whatever the literal, as long as the copying pass does not run past the quote at
      which the counting pass ended, it writes no more than was counted. */
  lemma {:induction false} CopyFits(s: CStr, i: nat, v: Vars)
    requires i <= |s| && Copy(s, i, v).Done? && Count(s, i).Length? && Copy(s, i, v).end <= Count(s, i).stop
    ensures |Copy(s, i, v).bytes| <= Count(s, i).len
    decreases |s| - i
  {
    hide Unicode;
    hide Land;
    if At(s, i) == 0 || At(s, i) == QUOTE {
    } else if s[i] != BACKSLASH {
      CopyFits(s, i + 1, v);
    } else if s[i + 1] != LOWER_U {
      CopyFits(s, i + 2, v);
    } else {
      var e := Unicode(s, i + 2, v);
      UnicodeRoom(s, i + 2, v);
      LandCounts(s, i + 2, e.end);
      if Land(s, i + 2, e.end).Whole? {
        CopyFits(s, e.end, e.vars);
      } else {
        CopyFitsBetween(s, e.end, e.vars);
      }
    }
  }

  /** The same from the second character of a unit, with one byte to spare. */
  lemma {:induction false} CopyFitsBetween(s: CStr, p: nat, v: Vars)
    requires p < |s| && Copy(s, p, v).Done? && Count(s, p + 1).Length? && Copy(s, p, v).end <= Count(s, p + 1).stop
    ensures |Copy(s, p, v).bytes| <= Count(s, p + 1).len + 1
    decreases |s| - p
  {
    hide Unicode;
    hide Land;
    if s[p] == QUOTE {
    } else if s[p] != BACKSLASH {
      CopyFits(s, p + 1, v);
    } else if s[p + 1] == BACKSLASH {
      CopyFitsBetween(s, p + 2, v);
    } else if s[p + 1] != LOWER_U {
      CopyFits(s, p + 2, v);
    } else {
      var e := Unicode(s, p + 2, v);
      UnicodeRoom(s, p + 2, v);
      LandCounts(s, p + 2, e.end);
      if Land(s, p + 2, e.end).Whole? {
        CopyFits(s, e.end, e.vars);
      } else {
        CopyFitsBetween(s, e.end, e.vars);
      }
    }
  }

  // ----- the two passes

  /** Both passes end at the same quote, inside the text, and the copy fits. */
  predicate Agree(s: CStr, i: nat)
    requires i <= |s|
  {
    && Count(s, i).Length? && Copy(s, i, NO_VARS).Done?
    && Copy(s, i, NO_VARS).end == Count(s, i).stop
    && |Copy(s, i, NO_VARS).bytes| <= Count(s, i).len
  }

  /** The two passes over a literal agree exactly if looking for the closing quote in
      steps of six for each \u leads to the one found in steps of two, and the first \u
      and the first second half of a pair are legible. */
  lemma TwoPassesAgree(s: CStr, i: nat)
    requires i <= |s|
    ensures Agree(s, i) <==>
            FirstLegible(s, i) && HalfLegible(s, i, None) && Count(s, i).Length? && Skim(s, i) == Some(Count(s, i).stop)
  {
    CopySkims(s, i, NO_VARS);
    if Copy(s, i, NO_VARS).Done? && Count(s, i).Length? && Copy(s, i, NO_VARS).end == Count(s, i).stop {
      CopyFits(s, i, NO_VARS);
    }
  }

  /** The four characters behind every \u are whole units of the same literal: the
      position behind them is inside it and on a boundary of the counting pass. */
  predicate OnUnits(s: CStr, i: nat)
    requires i <= |s|
    decreases |s| - i
  {
    if At(s, i) == 0 || At(s, i) == QUOTE then true
    else if s[i] != BACKSLASH then OnUnits(s, i + 1)
    else if At(s, i + 1) == 0 then false
    else if s[i + 1] != LOWER_U then OnUnits(s, i + 2)
    else i + 6 <= |s| && Land(s, i + 2, i + 6).Whole? && OnUnits(s, i + 6)
  }

  lemma {:induction false} OnUnitsMeet(s: CStr, i: nat)
    requires i <= |s| && OnUnits(s, i)
    ensures Count(s, i).Length? && Skim(s, i) == Some(Count(s, i).stop)
    decreases |s| - i
  {
    if At(s, i) == 0 || At(s, i) == QUOTE {
    } else if s[i] != BACKSLASH {
      OnUnitsMeet(s, i + 1);
    } else if s[i + 1] != LOWER_U {
      OnUnitsMeet(s, i + 2);
    } else {
      LandCounts(s, i + 2, i + 6);
      OnUnitsMeet(s, i + 6);
    }
  }

  /** Escapes that end on unit boundaries, what is read first being legible, are enough
      for the passes to agree. */
  lemma OnUnitsAgree(s: CStr, i: nat)
    requires i <= |s| && OnUnits(s, i) && FirstLegible(s, i) && HalfLegible(s, i, None)
    ensures Agree(s, i)
  {
    OnUnitsMeet(s, i);
    TwoPassesAgree(s, i);
  }

  lemma {:induction false} EscapedOnUnits(s: CStr, i: nat, uc: Option<Residue>)
    requires i <= |s| && Escaped(s, i)
    ensures OnUnits(s, i) && FirstLegible(s, i) && HalfLegible(s, i, uc)
    decreases |s| - i
  {
    hide Residual;
    if At(s, i) == 0 || At(s, i) == QUOTE {
    } else if s[i] != BACKSLASH {
      EscapedOnUnits(s, i + 1, uc);
    } else if s[i + 1] != LOWER_U {
      EscapedOnUnits(s, i + 2, uc);
    } else {
      ScanFour(s, i + 2);
      LandOver(s, i + 2, i + 6, 4);
      var u := ScanHex(s, i + 2).value;
      EscapedOnUnits(s, i + 6, Some(Residual(u)));
      if SecondHalf(s, i + 6) {
        ScanFour(s, i + 8);
      }
    }
  }

  /** On every literal of RFC 8259 the two passes agree. */
  lemma EscapedAgree(s: CStr, i: nat)
    requires i <= |s| && Escaped(s, i)
    ensures Agree(s, i)
  {
    EscapedOnUnits(s, i, None);
    OnUnitsAgree(s, i);
  }

  // ----- short escapes

  /** The turns of the counting pass, from the closing quote backwards. */
  lemma CountStop(s: CStr, i: nat)
    requires i < |s| && s[i] == QUOTE
    ensures Count(s, i) == Length(0, i)
  {
  }

  lemma CountPlain(s: CStr, i: nat, len: nat, stop: nat)
    requires i < |s| && Ordinary(s[i]) && Count(s, i + 1) == Length(len, stop)
    ensures Count(s, i) == Length(len + 1, stop)
  {
  }

  lemma CountPair(s: CStr, i: nat, len: nat, stop: nat)
    requires i + 1 < |s| && s[i] == BACKSLASH && s[i + 1] != 0 && Count(s, i + 2) == Length(len, stop)
    ensures Count(s, i) == Length(len + 1, stop)
  {
  }

  /** "\u": the counting pass accepts the literal, the copying pass leaves the text. */
  lemma BareEscape()
    ensures var s: CStr := [QUOTE, BACKSLASH, LOWER_U, QUOTE];
      Count(s, 1) == Length(1, 3) && Copy(s, 1, NO_VARS) == Runaway
  {
    var s: CStr := [QUOTE, BACKSLASH, LOWER_U, QUOTE];
    assert Count(s, 3) == Length(0, 3);
  }

  lemma ShortScans(s: CStr)
    requires s == [QUOTE, BACKSLASH, LOWER_U, 49, 50, 120, 121, 122, QUOTE]
    ensures ScanHex(s, 3) == Some(0x12)
  {
    assert HexRun(s, 5, 2) == 0;
    assert HexRun(s, 3, 4) == 2;
    assert HexNumber(s, 3, 1) == 1;
  }

  lemma ShortCopies(s: CStr)
    requires s == [QUOTE, BACKSLASH, LOWER_U, 49, 50, 120, 121, 122, QUOTE]
    ensures Copy(s, 1, NO_VARS) == Done([0x12, 122], 8)
  {
    ShortScans(s);
    hide ScanHex;
    var v := Vars(Some(0x12), None);
    assert Unicode(s, 3, NO_VARS) == Read([0x12], 7, v);
    assert Copy(s, 8, v) == Done([], 8);
    assert Copy(s, 7, v) == Push([122], Done([], 8)) == Done([122], 8);
  }

  lemma ShortCounts(s: CStr)
    requires s == [QUOTE, BACKSLASH, LOWER_U, 49, 50, 120, 121, 122, QUOTE]
    ensures Count(s, 1) == Length(6, 8)
  {
    hide Count;
    CountStop(s, 8);
    CountPlain(s, 7, 0, 8);
    CountPlain(s, 6, 1, 8);
    CountPlain(s, 5, 2, 8);
    CountPlain(s, 4, 3, 8);
    CountPlain(s, 3, 4, 8);
    CountPair(s, 1, 5, 8);
  }

  /** "\u12xyz": two digits are read, four characters are skipped, and both passes end
      at the closing quote. */
  lemma ShortEscape()
    ensures var s: CStr := [QUOTE, BACKSLASH, LOWER_U, 49, 50, 120, 121, 122, QUOTE];
      !Escaped(s, 1) && Agree(s, 1) && Copy(s, 1, NO_VARS) == Done([0x12, 122], 8)
  {
    var s: CStr := [QUOTE, BACKSLASH, LOWER_U, 49, 50, 120, 121, 122, QUOTE];
    ShortScans(s);
    ShortCopies(s);
    ShortCounts(s);
  }

  function BetweenText(): CStr { [QUOTE, BACKSLASH, LOWER_U, 49, 50, 51, BACKSLASH, BACKSLASH, 110, QUOTE] }

  lemma BetweenAt(s: CStr)
    requires s == BetweenText()
    ensures |s| == 10 && s[1] == BACKSLASH && s[2] == LOWER_U && s[3] == 49 && s[4] == 50 && s[5] == 51
    ensures s[6] == BACKSLASH && s[7] == BACKSLASH && s[8] == 110 && s[9] == QUOTE
  {
  }

  lemma BetweenScans(s: CStr)
    requires s == BetweenText()
    ensures ScanHex(s, 3).Some?
  {
    hide BetweenText;
    BetweenAt(s);
    hide HexNumber;
    assert HexRun(s, 3, 4) >= 1;
    assert AfterSpaces(s, 3) == 3;
  }

  lemma BetweenSkims(s: CStr)
    requires s == BetweenText()
    ensures Skim(s, 1) == Some(9) && FirstLegible(s, 1) && HalfLegible(s, 1, None)
  {
    hide BetweenText;
    BetweenAt(s);
    BetweenScans(s);
    hide ScanHex;
    hide Residual;
    var uc := Some(Residual(ScanHex(s, 3).value));
    assert Skim(s, 9) == Some(9) && HalfLegible(s, 9, uc);
    assert Skim(s, 7) == Some(9) && HalfLegible(s, 7, uc);
  }

  lemma BetweenCounts(s: CStr)
    requires s == BetweenText()
    ensures Count(s, 1) == Length(6, 9)
  {
    hide BetweenText;
    BetweenAt(s);
    hide Count;
    CountStop(s, 9);
    CountPlain(s, 8, 0, 9);
    CountPair(s, 6, 1, 9);
    CountPlain(s, 5, 2, 9);
    CountPlain(s, 4, 3, 9);
    CountPlain(s, 3, 4, 9);
    CountPair(s, 1, 5, 9);
  }

  lemma BetweenLands(s: CStr)
    requires s == BetweenText()
    ensures Land(s, 3, 7) == Straddle(4) && !OnUnits(s, 1)
  {
    hide BetweenText;
    BetweenAt(s);
    assert Land(s, 6, 7) == Straddle(1);
    assert Land(s, 4, 7) == Straddle(3);
  }

  /** "\u123\\n": the copying pass goes on between the two characters of a unit, and still
      both passes end at the closing quote. Unit boundaries are not necessary. */
  lemma BetweenUnits()
    ensures !OnUnits(BetweenText(), 1) && Agree(BetweenText(), 1)
  {
    var s := BetweenText();
    BetweenLands(s);
    BetweenSkims(s);
    BetweenCounts(s);
    TwoPassesAgree(s, 1);
  }

  function KeptText(): CStr { [QUOTE, BACKSLASH, LOWER_U, 48, 48, 52, 49, BACKSLASH, LOWER_U, 122, 122, 122, 122, QUOTE] }

  lemma KeptAt(s: CStr)
    requires s == KeptText()
    ensures |s| == 14 && s[1] == BACKSLASH && s[2] == LOWER_U && s[3] == 48 && s[4] == 48 && s[5] == 52 && s[6] == 49
    ensures s[7] == BACKSLASH && s[8] == LOWER_U && s[9] == 122 && s[10] == 122 && s[11] == 122 && s[12] == 122 && s[13] == QUOTE
  {
  }

  lemma KeptScans(s: CStr)
    requires s == KeptText()
    ensures ScanHex(s, 3) == Some(0x41) && ScanHex(s, 9) == None
  {
    hide KeptText;
    KeptAt(s);
    ScanFour(s, 3);
    assert HexRun(s, 9, 4) == 0 && AfterSpaces(s, 9) == 9;
  }

  lemma KeptCopies(s: CStr)
    requires s == KeptText()
    ensures Copy(s, 1, NO_VARS) == Done([65, 65], 13)
  {
    hide KeptText;
    KeptAt(s);
    KeptScans(s);
    hide ScanHex;
    var v := Vars(Some(0x41), None);
    assert Unicode(s, 3, NO_VARS) == Read([65], 7, v);
    assert Unicode(s, 9, v) == Read([65], 13, v);
    assert Copy(s, 13, v) == Done([], 13);
    assert Copy(s, 7, v) == Push([65], Done([], 13)) == Done([65], 13);
  }

  lemma KeptCounts(s: CStr)
    requires s == KeptText()
    ensures Count(s, 1) == Length(10, 13)
  {
    hide KeptText;
    KeptAt(s);
    hide Count;
    CountStop(s, 13);
    CountPlain(s, 12, 0, 13);
    CountPlain(s, 11, 1, 13);
    CountPlain(s, 10, 2, 13);
    CountPlain(s, 9, 3, 13);
    CountPair(s, 7, 4, 13);
    CountPlain(s, 6, 5, 13);
    CountPlain(s, 5, 6, 13);
    CountPlain(s, 4, 7, 13);
    CountPlain(s, 3, 8, 13);
    CountPair(s, 1, 9, 13);
  }

  /** "\u0041\uzzzz": nothing is read behind the second \u, so the value of the first is
      written again, and the passes agree. */
  lemma KeptValue()
    ensures Agree(KeptText(), 1) && StringAt(KeptText(), 0) == Good([65, 65], 14) && ScanHex(KeptText(), 9) == None
  {
    var s := KeptText();
    KeptScans(s);
    KeptCopies(s);
    KeptCounts(s);
    hide Copy;
    hide Count;
    hide ScanHex;
  }

  function HalfText(): CStr { [QUOTE, BACKSLASH, LOWER_U, 68, 56, 48, 48, BACKSLASH, LOWER_U, 122, 122, 122, 122, QUOTE] }

  lemma HalfAt(s: CStr)
    requires s == HalfText()
    ensures |s| == 14 && s[1] == BACKSLASH && s[2] == LOWER_U && s[3] == 68 && s[4] == 56 && s[5] == 48 && s[6] == 48
    ensures s[7] == BACKSLASH && s[8] == LOWER_U && s[9] == 122 && s[10] == 122 && s[11] == 122 && s[12] == 122 && s[13] == QUOTE
  {
  }

  lemma HalfScans(s: CStr)
    requires s == HalfText()
    ensures ScanHex(s, 3) == Some(0xD800) && ScanHex(s, 9) == None
  {
    hide HalfText;
    HalfAt(s);
    ScanFour(s, 3);
    assert HexRun(s, 9, 4) == 0 && AfterSpaces(s, 9) == 9;
  }

  /** "\ud800\uzzzz": the value of a second half is used although none was ever stored. */
  lemma BareHalf()
    ensures FirstLegible(HalfText(), 1) && Copy(HalfText(), 1, NO_VARS) == Unset
  {
    var s := HalfText();
    HalfAt(s);
    HalfScans(s);
    hide HalfText;
    hide ScanHex;
  }
}
