/**
 Laws of the JSON printer: what it writes is a JSON text of the standard that spells the
 printed value, so parsing it gives that value back.
 */
module RoundTrip {
  import opened CText
  import opened Strings
  import opened Json
  import opened Scalars
  import opened Acceptance
  import G = Grammar

  /** null, booleans, int numbers, strings, arrays, and objects whose keys are present. */
  predicate Printable(t: Item) {
    var kind := t.kind % 256;
    || kind == NULL || kind == FALSE || kind == TRUE
    || (kind == NUMBER && IntNumber(t))
    || (kind == STRING && t.str.Some?)
    || (kind == ARRAY && forall k :: 0 <= k < |t.kids| ==> Printable(t.kids[k]))
    || (kind == OBJECT && forall k :: 0 <= k < |t.kids| ==> Printable(t.kids[k]) && t.kids[k].name.Some?)
  }

  predicate AllPrintable(kids: seq<Item>) {
    forall k :: 0 <= k < |kids| ==> Printable(kids[k])
  }

  /** The value as the parser builds it: no reference bit, no stray fields, no name
      except on the members of an object. */
  function Canon(t: Item): Item
    decreases t, 1
  {
    var kind := t.kind % 256;
    if kind == TRUE then Plain(TRUE).(num := 1)
    else if kind == NUMBER then Plain(NUMBER).(num := t.num, dbl := t.dbl)
    else if kind == STRING then Plain(STRING).(str := t.str)
    else if kind == ARRAY then Branch(ARRAY, CanonAll(t.kids))
    else if kind == OBJECT then Branch(OBJECT, CanonMembers(t.kids))
    else Plain(kind)
  }

  function CanonAll(kids: seq<Item>): (r: seq<Item>)
    ensures |r| == |kids|
    decreases kids, 0
  {
    if kids == [] then [] else [Canon(kids[0])] + CanonAll(kids[1..])
  }

  function CanonMembers(kids: seq<Item>): (r: seq<Item>)
    ensures |r| == |kids|
    decreases kids, 0
  {
    if kids == [] then [] else [Canon(kids[0]).(name := kids[0].name)] + CanonMembers(kids[1..])
  }

  lemma {:induction false} PrintableNumbers(t: Item)
    requires Printable(t)
    ensures IntNumbers(t)
  {
    if t.kind % 256 == ARRAY || t.kind % 256 == OBJECT {
      forall k | 0 <= k < |t.kids|
        ensures IntNumbers(t.kids[k])
      {
        PrintableNumbers(t.kids[k]);
      }
    }
  }

  // ----- what is written for numbers

  function DecimalDigits(n: nat): (ds: seq<G.Digit>)
    ensures n > 0 ==> ds != [] && ds[0] != 0
    ensures n == 0 ==> ds == []
  {
    if n == 0 then [] else DecimalDigits(n / 10) + [n % 10]
  }

  function NumeralFor(n: int): G.Numeral {
    G.Numeral(n < 0, n == 0, DecimalDigits(if n < 0 then -n else n), [], None)
  }

  lemma {:induction false} DecimalIs(n: nat)
    requires n > 0
    ensures Decimal(n) == G.DigitsText(DecimalDigits(n)) && G.Natural(DecimalDigits(n)) == n
  {
    hide *;
    DecimalUnfolds(n);
    if n >= 10 {
      DecimalIs(n / 10);
      DigitsTextLast(DecimalDigits(n / 10), n % 10);
      Tenth(n);
    }
  }

  lemma DecimalUnfolds(n: nat)
    requires n > 0
    ensures DecimalDigits(n) == DecimalDigits(n / 10) + [n % 10]
    ensures G.Natural(DecimalDigits(n)) == 10 * G.Natural(DecimalDigits(n / 10)) + n % 10
    ensures n < 10 ==> Decimal(n) == [48 + n] == G.DigitsText(DecimalDigits(n)) && G.Natural(DecimalDigits(n)) == n
    ensures n >= 10 ==> Decimal(n) == Decimal(n / 10) + [48 + n % 10]
  {
    var ds := DecimalDigits(n);
    assert ds[..|ds| - 1] == DecimalDigits(n / 10);
    if n < 10 {
      OneDigit(n);
    }
    hide G.DigitsText;
  }

  lemma OneDigit(n: nat)
    requires 0 < n < 10
    ensures DecimalDigits(n) == [n] && G.DigitsText([n]) == [48 + n] && G.Natural([n]) == n
  {
    assert DecimalDigits(0) == [];
    assert G.Natural([]) == 0;
  }

  lemma Tenth(n: nat)
    ensures n == 10 * (n / 10) + n % 10
  {
  }

  lemma DigitsTextLast(ds: seq<G.Digit>, d: G.Digit)
    ensures G.DigitsText(ds + [d]) == G.DigitsText(ds) + [48 + d as int]
  {
  }

  lemma DigitsFor(n: nat)
    ensures G.DigitsText(DecimalDigits(n)) == (if n == 0 then [] else Decimal(n)) && G.Natural(DecimalDigits(n)) == n
  {
    if n > 0 {
      DecimalIs(n);
    }
  }

  lemma NumeralTextIs(n: int)
    ensures G.NumeralText(NumeralFor(n)) == NumberText(n)
  {
    hide *;
    DigitsFor(if n < 0 then -n else n);
    NumeralParts(n);
    NumberTextIs(n);
    var numeral := NumeralFor(n);
    WholeText(numeral, G.DigitsText(numeral.digits));
    ZeroTextIs(numeral.zero, G.DigitsText(numeral.digits));
  }

  lemma NumeralParts(n: int)
    ensures var numeral := NumeralFor(n);
      && numeral.negative == (n < 0) && numeral.zero == (n == 0) && numeral.digits == DecimalDigits(if n < 0 then -n else n)
      && numeral.fraction == [] && numeral.exponent == None
  {
  }

  lemma NumberTextIs(n: int)
    ensures NumberText(n) == if n < 0 then [45] + Decimal(-n) else if n == 0 then [48] else Decimal(n)
  {
  }

  lemma ZeroTextIs(zero: bool, text: CStr)
    ensures G.ZeroText(zero) + text == if zero then [48] + text else text
    ensures text == [] ==> [48] + text == [48]
  {
  }

  lemma WholeText(numeral: G.Numeral, text: CStr)
    requires numeral.fraction == [] && numeral.exponent == None && text == G.DigitsText(numeral.digits)
    ensures G.NumeralText(numeral) == if numeral.negative then [45] + (G.ZeroText(numeral.zero) + text) else G.ZeroText(numeral.zero) + text
  {
    hide G.DigitsText;
    assert text + ([] + []) == text;
    var rest := G.ZeroText(numeral.zero) + text;
    hide G.ZeroText;
    assert [] + rest == rest;
  }

  lemma NumeralWell(n: int)
    ensures G.WellNumeral(NumeralFor(n), true)
  {
  }

  lemma NumeralValueIs(n: int)
    ensures G.NumeralValue(NumeralFor(n)) == n as real
  {
    DigitsFor(if n < 0 then -n else n);
    hide DecimalDigits;
    WholeValue(NumeralFor(n), if n < 0 then -n else n);
  }

  lemma WholeValue(numeral: G.Numeral, m: nat)
    requires numeral.fraction == [] && numeral.exponent == None && G.Natural(numeral.digits) == m
    ensures G.NumeralValue(numeral) == if numeral.negative then -(m as real) else m as real
  {
    WholeMagnitude(numeral);
    hide G.Magnitude;
    hide G.Natural;
    assert G.Scale(0) == 1.0;
  }

  lemma WholeMagnitude(numeral: G.Numeral)
    requires numeral.fraction == []
    ensures G.Magnitude(numeral) == G.Natural(numeral.digits) as real
  {
    assert G.Natural([]) == 0 && G.Ten(0) == 1.0;
  }

  /** printf("%d") writes a numeral of the standard with that value. */
  lemma NumberIsNumeral(n: int)
    ensures G.WellNumeral(NumeralFor(n), true) && G.NumeralText(NumeralFor(n)) == NumberText(n)
    ensures G.NumeralValue(NumeralFor(n)) == n as real
  {
    hide *;
    NumeralTextIs(n);
    NumeralWell(n);
    NumeralValueIs(n);
  }

  lemma TruncateWhole(n: int)
    ensures Truncate(n as real) == n
  {
  }

  /** parse_number reads back what printf("%d") wrote. */
  lemma ReadNumber(s: CStr, i: nat, n: int)
    requires Occurs(s, i, NumberText(n)) && i + |NumberText(n)| <= |s| && NumberEnds(s, i + |NumberText(n)|)
    ensures i < |s| && (s[i] == MINUS || IsDigit(s[i]))
    ensures ParseNumber(s, i) == Good(NumberItem(n as real), i + |NumberText(n)|)
  {
    hide *;
    NumberIsNumeral(n);
    WideNumeral(NumeralFor(n));
    NumeralParses(s, i, NumeralFor(n));
  }

  lemma WideNumeral(n: G.Numeral)
    requires G.WellNumeral(n, true)
    ensures G.WellNumeral(n, false)
  {
  }

  // ----- what is written for strings

  function NibbleFor(v: nat): G.Nibble
    requires v < 16
  {
    G.Nibble(v, false)
  }

  function UnitFor(c: Char): G.Unit {
    if c == 34 || c == 92 then G.Short(c)
    else if c == 8 then G.Short(98)
    else if c == 12 then G.Short(102)
    else if c == 10 then G.Short(110)
    else if c == 13 then G.Short(114)
    else if c == 9 then G.Short(116)
    else if c < 32 then G.Code(G.Hex(NibbleFor(0), NibbleFor(0), NibbleFor(c / 16), NibbleFor(c % 16)))
    else G.Plain(c)
  }

  function UnitsFor(str: CStr): seq<G.Unit> { seq(|str|, k requires 0 <= k < |str| => UnitFor(str[k])) }

  lemma UnitIs(c: Char)
    ensures G.WellUnit(UnitFor(c), true) && G.UnitText(UnitFor(c)) == EscapeChar(c) && G.UnitMeaning(UnitFor(c)) == [c]
    ensures UnitFor(c).Code? ==> !G.HighHalf(G.UnitOf(UnitFor(c).unit))
    ensures !UnitFor(c).Pair?
  {
    if UnitFor(c).Code? {
      assert c / 16 * 16 + c % 16 == c;
      assert G.UnitOf(UnitFor(c).unit) == c;
      assert EscapeChar(c) == [BACKSLASH, LOWER_U] + [48, 48, HexDigit(c / 16), HexDigit(c % 16)];
    }
  }

  lemma {:induction false} UnitsAre(str: CStr)
    ensures G.UnitsText(UnitsFor(str)) == EscapeAll(str) && G.UnitsMeaning(UnitsFor(str)) == str
    decreases |str|
  {
    hide EscapeChar;
    hide G.UnitText;
    hide G.UnitMeaning;
    hide UnitFor;
    if str != [] {
      UnitIs(str[0]);
      UnitsAre(str[1..]);
      assert UnitsFor(str)[1..] == UnitsFor(str[1..]);
      assert str == [str[0]] + str[1..];
    }
  }

  lemma UnitsWell(str: CStr)
    ensures G.WellUnits(UnitsFor(str), true) && G.WellUnits(UnitsFor(str), false)
  {
    var us := UnitsFor(str);
    hide UnitFor;
    hide G.UnitOf;
    forall k | 0 <= k < |us|
      ensures G.WellUnit(us[k], true) && G.WellUnit(us[k], false)
      ensures us[k].Code? ==> !G.HighHalf(G.UnitOf(us[k].unit))
    {
      UnitIs(str[k]);
    }
  }

  /** print_string writes a string of the standard with that meaning. */
  lemma StringIsLiteral(str: CStr)
    ensures G.WellUnits(UnitsFor(str), true) && G.LiteralText(UnitsFor(str), true) == Quoted(str)
    ensures G.UnitsMeaning(UnitsFor(str)) == str
  {
    UnitsAre(str);
    UnitsWell(str);
    hide UnitsFor;
    hide EscapeAll;
    Assoc([QUOTE], EscapeAll(str), [QUOTE]);
  }

  // ----- what is written for values

  function Indent(depth: int, fmt: bool): CStr { if fmt then Tabs(depth) else [] }

  function Newline(fmt: bool): CStr { if fmt then [NEWLINE] else [] }

  /** What stands in front of an element. */
  function Lead(first: bool, fmt: bool): CStr { if first || !fmt then [] else [SPACE] }

  /** The document the printer writes. */
  function Written(t: Item, depth: nat, fmt: bool): G.Doc
    requires Printable(t)
    decreases t, 1
  {
    var kind := t.kind % 256;
    if kind == NUMBER then G.Num(NumeralFor(t.num))
    else if kind == STRING then G.Str(UnitsFor(t.str.value), true)
    else if kind == ARRAY then G.Arr([], WrittenElements(t.kids, true, depth + 1, fmt))
    else if kind == OBJECT then
      G.Obj(Newline(fmt) + Indent(depth - 1, fmt), WrittenMembers(t.kids, depth + 1, fmt))
    else G.Word(kind)
  }

  /** A space in front of every element but the first. */
  function WrittenElements(kids: seq<Item>, first: bool, depth: nat, fmt: bool): (es: seq<G.Element>)
    requires AllPrintable(kids)
    ensures |es| == |kids|
    decreases kids, 0
  {
    if kids == [] then []
    else
      [G.Element(Lead(first, fmt), Written(kids[0], depth, fmt), [])]
      + WrittenElements(kids[1..], false, depth, fmt)
  }

  predicate AllNamed(kids: seq<Item>) { forall k :: 0 <= k < |kids| ==> kids[k].name.Some? }

  /** A line for each member, and one for the closing brace. */
  function WrittenMembers(kids: seq<Item>, depth: nat, fmt: bool): (ms: seq<G.Member>)
    requires AllPrintable(kids) && AllNamed(kids)
    ensures |ms| == |kids|
    decreases kids, 0
  {
    if kids == [] then []
    else
      [G.Member(Newline(fmt) + Indent(depth, fmt), UnitsFor(kids[0].name.value), [], if fmt then [TAB] else [],
                Written(kids[0], depth, fmt), if |kids| == 1 then Newline(fmt) + Indent(depth - 1, fmt) else [])]
      + WrittenMembers(kids[1..], depth, fmt)
  }

  lemma IndentBlank(depth: int, fmt: bool)
    ensures G.Blank(Newline(fmt) + Indent(depth, fmt), true) && G.Blank([], true)
    ensures G.Blank(if fmt then [TAB] else [], true) && forall first :: G.Blank(Lead(first, fmt), true)
  {
  }

  // ----- the document is of the standard

  lemma {:induction false} WrittenWell(t: Item, depth: nat, fmt: bool)
    requires Printable(t)
    ensures G.Well(Written(t, depth, fmt), true) && !G.IsOpen(Written(t, depth, fmt))
    decreases t, 1
  {
    var kind := t.kind % 256;
    hide G.WellUnits;
    hide G.WellNumeral;
    hide UnitsFor;
    hide NumeralFor;
    if kind == NUMBER {
      NumberIsNumeral(t.num);
    } else if kind == STRING {
      StringIsLiteral(t.str.value);
    } else if kind == ARRAY {
      IndentBlank(depth, fmt);
      ElementsWell(t.kids, true, depth + 1, fmt);
    } else if kind == OBJECT {
      IndentBlank(depth - 1, fmt);
      MembersWell(t.kids, depth + 1, fmt);
    }
  }

  lemma {:induction false} ElementsWell(kids: seq<Item>, first: bool, depth: nat, fmt: bool)
    requires AllPrintable(kids)
    ensures forall k :: 0 <= k < |kids| ==> G.WellElement(WrittenElements(kids, first, depth, fmt)[k], true)
    decreases kids, 0
  {
    hide G.Well;
    hide G.Blank;
    hide Written;
    if kids != [] {
      WrittenWell(kids[0], depth, fmt);
      ElementsWell(kids[1..], false, depth, fmt);
      IndentBlank(depth, fmt);
    }
  }

  lemma {:induction false} MembersWell(kids: seq<Item>, depth: nat, fmt: bool)
    requires AllPrintable(kids) && AllNamed(kids)
    ensures forall k :: 0 <= k < |kids| ==> G.WellMember(WrittenMembers(kids, depth, fmt)[k], true)
    decreases kids, 0
  {
    hide G.Well;
    hide G.Blank;
    hide G.WellUnits;
    hide Written;
    hide UnitsFor;
    if kids != [] {
      WrittenWell(kids[0], depth, fmt);
      UnitsWell(kids[0].name.value);
      MembersWell(kids[1..], depth, fmt);
      IndentBlank(depth, fmt);
      IndentBlank(depth - 1, fmt);
    }
  }

  // ----- it stands for the value

  lemma {:induction false} WrittenMeans(t: Item, depth: nat, fmt: bool)
    requires Printable(t)
    ensures G.Meaning(Written(t, depth, fmt)) == Canon(t)
    decreases t, 1
  {
    var kind := t.kind % 256;
    hide UnitsFor;
    hide NumeralFor;
    hide G.NumeralValue;
    hide G.UnitsMeaning;
    if kind == NUMBER {
      NumberIsNumeral(t.num);
      TruncateWhole(t.num);
    } else if kind == STRING {
      StringIsLiteral(t.str.value);
    } else if kind == ARRAY {
      ElementsMean(t.kids, true, depth + 1, fmt);
    } else if kind == OBJECT {
      MembersMean(t.kids, depth + 1, fmt);
    }
  }

  lemma {:induction false} ElementsMean(kids: seq<Item>, first: bool, depth: nat, fmt: bool)
    requires AllPrintable(kids)
    ensures G.ElementsMeaning(WrittenElements(kids, first, depth, fmt)) == CanonAll(kids)
    decreases kids, 0
  {
    hide G.Meaning;
    hide Written;
    hide Canon;
    if kids != [] {
      WrittenMeans(kids[0], depth, fmt);
      ElementsMean(kids[1..], false, depth, fmt);
      var es := WrittenElements(kids, first, depth, fmt);
      assert es[1..] == WrittenElements(kids[1..], false, depth, fmt);
    }
  }

  lemma {:induction false} MembersMean(kids: seq<Item>, depth: nat, fmt: bool)
    requires AllPrintable(kids) && AllNamed(kids)
    ensures G.MembersMeaning(WrittenMembers(kids, depth, fmt)) == CanonMembers(kids)
    decreases kids, 0
  {
    hide G.Meaning;
    hide G.UnitsMeaning;
    hide Written;
    hide Canon;
    hide UnitsFor;
    if kids != [] {
      WrittenMeans(kids[0], depth, fmt);
      StringIsLiteral(kids[0].name.value);
      MembersMean(kids[1..], depth, fmt);
      var ms := WrittenMembers(kids, depth, fmt);
      assert ms[1..] == WrittenMembers(kids[1..], depth, fmt);
    }
  }

  // ----- and its text is what is printed

  lemma {:induction false} PrintedIsWritten(t: Item, depth: nat, fmt: bool)
    requires Printable(t)
    ensures IntNumbers(t) && PrintValue(t, depth, fmt) == Some(G.Text(Written(t, depth, fmt)))
    decreases t, 1
  {
    PrintableNumbers(t);
    var kind := t.kind % 256;
    hide UnitsFor;
    hide NumeralFor;
    hide G.NumeralText;
    hide G.LiteralText;
    hide G.ElementsText;
    hide G.MembersText;
    hide NumberText;
    hide Quoted;
    if kind == NUMBER {
      NumberIsNumeral(t.num);
    } else if kind == STRING {
      StringIsLiteral(t.str.value);
    } else if kind == ARRAY {
      ArrayPrinted(t.kids, depth, fmt);
    } else if kind == OBJECT {
      ObjectPrinted(t.kids, depth, fmt);
    }
  }

  lemma ArrayPrinted(kids: seq<Item>, depth: nat, fmt: bool)
    requires AllPrintable(kids)
    ensures forall k :: 0 <= k < |kids| ==> IntNumbers(kids[k])
    ensures PrintArray(kids, depth, fmt) == Some(G.Text(G.Arr([], WrittenElements(kids, true, depth + 1, fmt))))
    decreases kids, 2
  {
    ElementsPrinted(kids, true, depth + 1, fmt);
    hide G.ElementsText;
    hide Elements;
    hide PrintEach;
    hide WrittenElements;
    if kids == [] {
      assert [91] + ([] + [93]) == [91, 93];
    } else {
      var es := WrittenElements(kids, true, depth + 1, fmt);
      var text := Elements(PrintEach(kids, depth + 1, fmt).value, fmt);
      assert [] + text == text;
      assert es != [];
      Assoc([OPEN_BRACKET], text, [CLOSE_BRACKET]);
    }
  }

  /** The texts of the elements, with their separators. */
  lemma {:induction false} ElementsPrinted(kids: seq<Item>, first: bool, depth: nat, fmt: bool)
    requires AllPrintable(kids)
    ensures forall k :: 0 <= k < |kids| ==> IntNumbers(kids[k])
    ensures PrintEach(kids, depth, fmt).Some?
    ensures kids != [] ==>
      Lead(first, fmt) + Elements(PrintEach(kids, depth, fmt).value, fmt)
      == G.ElementsText(WrittenElements(kids, first, depth, fmt))
    decreases kids, 1
  {
    hide PrintValue;
    hide Written;
    hide G.Text;
    if kids != [] {
      PrintedIsWritten(kids[0], depth, fmt);
      ElementsPrinted(kids[1..], false, depth, fmt);
      var es, entries := WrittenElements(kids, first, depth, fmt), PrintEach(kids, depth, fmt).value;
      assert es[1..] == WrittenElements(kids[1..], false, depth, fmt);
      assert entries[1..] == PrintEach(kids[1..], depth, fmt).value;
      ElementJoin(es, entries, first, fmt);
    }
  }

  lemma ElementJoin(es: seq<G.Element>, entries: seq<CStr>, first: bool, fmt: bool)
    requires |es| == |entries| > 0 && es[0].before == Lead(first, fmt) && es[0].after == []
    requires G.Text(es[0].doc) == entries[0]
    requires |es| > 1 ==> Lead(false, fmt) + Elements(entries[1..], fmt) == G.ElementsText(es[1..])
    ensures Lead(first, fmt) + Elements(entries, fmt) == G.ElementsText(es)
  {
    ElementsTextIs(es);
    ElementTextIs(es[0]);
    ElementsUnfold(entries, fmt);
    hide *;
    var b, text := es[0].before, entries[0];
    assert text + [] == text;
    if |es| > 1 {
      var rest := Elements(entries[1..], fmt);
      SeparatorIs(rest, fmt);
      Assoc(b, text, Separator(fmt) + rest);
    }
  }

  lemma ElementTextIs(e: G.Element)
    ensures G.ElementText(e) == e.before + (G.Text(e.doc) + e.after)
  {
    hide G.Text;
  }

  lemma ElementsUnfold(entries: seq<CStr>, fmt: bool)
    requires entries != []
    ensures Elements(entries, fmt)
         == if |entries| == 1 then entries[0] else entries[0] + (Separator(fmt) + Elements(entries[1..], fmt))
  {
    hide Separator;
  }

  lemma SeparatorIs(rest: CStr, fmt: bool)
    ensures Separator(fmt) + rest == [44] + (Lead(false, fmt) + rest)
  {
  }

  lemma ObjectPrinted(kids: seq<Item>, depth: nat, fmt: bool)
    requires AllPrintable(kids) && AllNamed(kids)
    ensures forall k :: 0 <= k < |kids| ==> IntNumbers(kids[k])
    ensures PrintObject(kids, depth, fmt)
         == Some(G.Text(G.Obj(Newline(fmt) + Indent(depth - 1, fmt), WrittenMembers(kids, depth + 1, fmt))))
    decreases kids, 2
  {
    MembersPrinted(kids, depth + 1, fmt);
    hide G.MembersText;
    hide Members;
    hide PrintEach;
    hide WrittenMembers;
    hide Names;
    var open, close: CStr := [OPEN_BRACE], [CLOSE_BRACE];
    if kids == [] {
      Assoc(open, Newline(fmt) + Indent(depth - 1, fmt), close);
    } else {
      var text := Members(Names(kids), PrintEach(kids, depth + 1, fmt).value, depth + 1, fmt);
      Assoc(open + Newline(fmt), text, Indent(depth, fmt));
      Assoc(open, Newline(fmt), text + Indent(depth, fmt));
      Assoc(Newline(fmt), text, Indent(depth, fmt));
      Assoc(open, Newline(fmt) + text + Indent(depth, fmt), close);
    }
  }

  /** The lines of the members, from the line break in front of the first one to the
      indentation of the closing brace. */
  lemma {:induction false} MembersPrinted(kids: seq<Item>, depth: nat, fmt: bool)
    requires AllPrintable(kids) && AllNamed(kids)
    ensures forall k :: 0 <= k < |kids| ==> IntNumbers(kids[k])
    ensures PrintEach(kids, depth, fmt).Some?
    ensures kids != [] ==>
      Newline(fmt) + Members(Names(kids), PrintEach(kids, depth, fmt).value, depth, fmt) + Indent(depth - 1, fmt)
      == G.MembersText(WrittenMembers(kids, depth, fmt))
    decreases kids, 1
  {
    hide PrintValue;
    hide Written;
    hide G.Text;
    hide UnitsFor;
    hide G.LiteralText;
    if kids != [] {
      PrintedIsWritten(kids[0], depth, fmt);
      StringIsLiteral(kids[0].name.value);
      MembersPrinted(kids[1..], depth, fmt);
      var ms, entries, names := WrittenMembers(kids, depth, fmt), PrintEach(kids, depth, fmt).value, Names(kids);
      assert ms[1..] == WrittenMembers(kids[1..], depth, fmt);
      assert entries[1..] == PrintEach(kids[1..], depth, fmt).value;
      assert names[1..] == Names(kids[1..]);
      MemberJoin(ms, names, entries, depth, fmt);
    }
  }

  lemma MemberJoin(ms: seq<G.Member>, names: seq<CStr>, entries: seq<CStr>, depth: nat, fmt: bool)
    requires |ms| == |names| == |entries| > 0
    requires ms[0].before == Newline(fmt) + Indent(depth, fmt) && ms[0].gap == [] && ms[0].space == if fmt then [TAB] else []
    requires ms[0].after == if |ms| == 1 then Newline(fmt) + Indent(depth - 1, fmt) else []
    requires G.LiteralText(ms[0].name, true) == names[0] && G.Text(ms[0].doc) == entries[0]
    requires |ms| > 1 ==>
      Newline(fmt) + Members(names[1..], entries[1..], depth, fmt) + Indent(depth - 1, fmt) == G.MembersText(ms[1..])
    ensures Newline(fmt) + Members(names, entries, depth, fmt) + Indent(depth - 1, fmt) == G.MembersText(ms)
  {
    hide G.Text;
    hide G.LiteralText;
    hide G.MembersText;
    hide Members;
    var line := MemberText(names[0], entries[0], depth, fmt);
    var last := Indent(depth - 1, fmt);
    MembersUnfold(names, entries, depth, fmt);
    MembersTextIs(ms);
    LineIs(ms[0], names[0], entries[0], depth, fmt);
    var nl := Newline(fmt);
    if |ms| == 1 {
      assert [] + nl == nl;
      Assoc(nl, line + nl, last);
      Assoc(line, nl, last);
      Assoc(nl, line, nl + last);
    } else {
      var rest := nl + Members(names[1..], entries[1..], depth, fmt);
      Assoc(nl, line + ([COMMA] + rest), last);
      Assoc(line, [COMMA] + rest, last);
      Assoc([COMMA], rest, last);
      assert nl + line + [] == nl + line;
      Assoc(nl, line, [COMMA] + (rest + last));
    }
  }

  lemma MembersUnfold(names: seq<CStr>, entries: seq<CStr>, depth: nat, fmt: bool)
    requires |names| == |entries| > 0
    ensures |entries| == 1 ==>
      Members(names, entries, depth, fmt) == MemberText(names[0], entries[0], depth, fmt) + ([] + Newline(fmt))
    ensures |entries| > 1 ==>
      Members(names, entries, depth, fmt)
      == MemberText(names[0], entries[0], depth, fmt) + ([COMMA] + (Newline(fmt) + Members(names[1..], entries[1..], depth, fmt)))
  {
    hide MemberText;
    if |entries| == 1 {
      assert Members(names[1..], entries[1..], depth, fmt) == [];
      assert Newline(fmt) + [] == Newline(fmt);
    }
  }

  /** A line break, the indentation, the name, the colon and the value. */
  lemma LineIs(m: G.Member, name: CStr, value: CStr, depth: nat, fmt: bool)
    requires m.before == Newline(fmt) + Indent(depth, fmt) && m.gap == [] && m.space == if fmt then [TAB] else []
    requires G.LiteralText(m.name, true) == name && G.Text(m.doc) == value
    ensures G.MemberText(m) == Newline(fmt) + MemberText(name, value, depth, fmt) + m.after
  {
    var colon: CStr := if fmt then [COLON, TAB] else [COLON];
    MemberTextColon(m, name, value, colon) by {
      hide G.Text;
      hide G.LiteralText;
      assert [58] + m.space == colon;
    }
    assert MemberText(name, value, depth, fmt) == Indent(depth, fmt) + name + colon + value;
    hide *;
    Regroup(Newline(fmt), Indent(depth, fmt), name, colon, value, m.after);
  }

  lemma MemberTextColon(m: G.Member, name: CStr, value: CStr, colon: CStr)
    requires m.gap == [] && [58] + m.space == colon
    requires G.LiteralText(m.name, true) == name && G.Text(m.doc) == value
    ensures G.MemberText(m) == m.before + (name + (colon + (value + m.after)))
  {
    hide G.Text;
    hide G.LiteralText;
    Assoc([58], m.space, value + m.after);
    assert [] + (colon + (value + m.after)) == colon + (value + m.after);
  }

  lemma Regroup(a: CStr, b: CStr, c: CStr, d: CStr, e: CStr, f: CStr)
    ensures (a + b) + (c + (d + (e + f))) == a + (b + c + d + e) + f
  {
    Assoc(b + c + d, e, f);
    Assoc(b + c, d, e + f);
    Assoc(b, c, d + (e + f));
    Assoc(a, b, c + (d + (e + f)));
    Assoc(a, b + c + d + e, f);
  }

  // ----- the laws

  /** Every printable value prints, at any depth, formatted or not, as a JSON text of
      the standard that stands for the canonical value. */
  lemma PrintedConforms(t: Item, depth: nat, fmt: bool)
    requires Printable(t)
    ensures IntNumbers(t) && PrintValue(t, depth, fmt).Some?
    ensures exists d :: G.Well(d, true) && !G.IsOpen(d) && G.Text(d) == PrintValue(t, depth, fmt).value && G.Meaning(d) == Canon(t)
  {
    hide PrintValue;
    hide G.Text;
    hide G.Meaning;
    hide G.Well;
    PrintedIsWritten(t, depth, fmt);
    WrittenWell(t, depth, fmt);
    WrittenMeans(t, depth, fmt);
  }

  /** Wherever the printed text stands, a number not going on behind it, parsing it yields
      the canonical value and stops right behind the text. */
  lemma PrintedReads(t: Item, depth: nat, fmt: bool, s: CStr, i: nat)
    requires Printable(t)
    ensures IntNumbers(t) && PrintValue(t, depth, fmt).Some?
    ensures var text := PrintValue(t, depth, fmt).value;
      Occurs(s, i, text) && i + |text| <= |s| && (t.kind % 256 == NUMBER ==> NumberEnds(s, i + |text|)) ==>
        ParseValue(s, i) == Good(Canon(t), i + |text|)
  {
    hide PrintValue;
    hide ParseValue;
    hide G.Text;
    hide G.Meaning;
    hide G.Well;
    hide Occurs;
    PrintedConforms(t, depth, fmt);
    var text := PrintValue(t, depth, fmt).value;
    var d :| G.Well(d, true) && !G.IsOpen(d) && G.Text(d) == text && G.Meaning(d) == Canon(t);
    if Occurs(s, i, text) && i + |text| <= |s| && (t.kind % 256 == NUMBER ==> NumberEnds(s, i + |text|)) {
      if d.Num? {
        NumberMeans(d, t);
      }
      G.StrictIsWide(d);
      DocParses(s, i, d);
      ParsesIs(s, i, d, i + |text|);
    }
  }

  lemma NumberMeans(d: G.Doc, t: Item)
    requires G.Well(d, true) && G.Meaning(d) == Canon(t) && d.Num?
    ensures t.kind % 256 == NUMBER
  {
    hide G.NumeralValue;
    assert G.Meaning(d).kind == NUMBER;
  }

  /** Printing a whole value and parsing the text, even insisting on its end, returns
      the canonical value and the length of the text. */
  lemma PrintThenParse(t: Item, fmt: bool, requireEnd: bool)
    requires Printable(t)
    ensures IntNumbers(t) && PrintValue(t, 0, fmt).Some?
    ensures ParseText(PrintValue(t, 0, fmt).value, requireEnd) == Good(Canon(t), |PrintValue(t, 0, fmt).value|)
  {
    hide ParseText;
    hide PrintValue;
    hide G.Text;
    hide G.Meaning;
    hide G.Well;
    PrintedConforms(t, 0, fmt);
    var s := PrintValue(t, 0, fmt).value;
    var d :| G.Well(d, true) && !G.IsOpen(d) && G.Text(d) == s && G.Meaning(d) == Canon(t);
    assert [] + (s + []) == s;
    AcceptsStandard(s, [], d, [], requireEnd);
  }

  lemma EachOfOne(b: Item, depth: nat, fmt: bool, y: CStr)
    requires IntNumbers(b) && PrintValue(b, depth, fmt) == Some(y)
    ensures PrintEach([b], depth, fmt) == Some([y])
  {
    hide PrintValue;
    hide IntNumbers;
    var rest := [b][1..];
    assert rest == [];
    assert PrintEach(rest, depth, fmt) == Some([]);
    assert [y] + [] == [y];
  }

  lemma EachOfTwo(a: Item, b: Item, depth: nat, fmt: bool, x: CStr, y: CStr)
    requires IntNumbers(a) && PrintValue(a, depth, fmt) == Some(x) && IntNumbers(b) && PrintValue(b, depth, fmt) == Some(y)
    ensures PrintEach([a, b], depth, fmt) == Some([x, y])
  {
    hide PrintValue;
    hide IntNumbers;
    EachOfOne(b, depth, fmt, y);
    var kids := [a, b];
    assert kids[1..] == [b];
    assert [x] + [y] == [x, y];
  }

  lemma ArrayOfTwo(a: Item, b: Item, depth: nat, fmt: bool, x: CStr, y: CStr)
    requires IntNumbers(a) && PrintValue(a, depth + 1, fmt) == Some(x) && IntNumbers(b) && PrintValue(b, depth + 1, fmt) == Some(y)
    ensures IntNumbers(Branch(ARRAY, [a, b]))
    ensures PrintValue(Branch(ARRAY, [a, b]), depth, fmt) == Some([91] + (x + ((if fmt then [44, 32] else [44]) + y)) + [93])
  {
    EachOfTwo(a, b, depth + 1, fmt, x, y);
    hide PrintEach;
    var entries := [x, y];
    assert entries[1..] == [y];
    assert Elements(entries, fmt) == x + (Separator(fmt) + y);
  }

  /** Two members with their names. */
  lemma ObjectOfTwo(a: Item, b: Item, depth: nat, fmt: bool, x: CStr, y: CStr)
    requires IntNumbers(a) && PrintValue(a, depth + 1, fmt) == Some(x) && IntNumbers(b) && PrintValue(b, depth + 1, fmt) == Some(y)
    ensures IntNumbers(Branch(OBJECT, [a, b]))
    ensures var p, q := MemberText(StringText(a.name), x, depth + 1, fmt), MemberText(StringText(b.name), y, depth + 1, fmt);
      PrintValue(Branch(OBJECT, [a, b]), depth, fmt) ==
        if fmt then Some([123] + [10] + (p + ([44] + ([10] + (q + [10])))) + Tabs(depth) + [125])
        else Some([123] + (p + ([44] + q)) + [125])
  {
    EachOfTwo(a, b, depth + 1, fmt, x, y);
    NamesOfTwo(a, b);
    var m, n := StringText(a.name), StringText(b.name);
    MembersOfTwo(m, n, x, y, depth + 1, fmt);
    ObjectIs([a, b], depth, fmt, [m, n], [x, y]);
    hide *;
    NothingAround(MemberText(m, x, depth + 1, fmt) + ([44] + MemberText(n, y, depth + 1, fmt)));
  }

  lemma ObjectIs(kids: seq<Item>, depth: nat, fmt: bool, names: seq<CStr>, entries: seq<CStr>)
    requires kids != [] && forall k :: 0 <= k < |kids| ==> IntNumbers(kids[k])
    requires PrintEach(kids, depth + 1, fmt) == Some(entries) && Names(kids) == names && |names| == |entries|
    ensures IntNumbers(Branch(OBJECT, kids))
    ensures PrintValue(Branch(OBJECT, kids), depth, fmt)
         == Some([123] + (if fmt then [10] else []) + Members(names, entries, depth + 1, fmt) + (if fmt then Tabs(depth) else []) + [125])
  {
    BranchPrints(kids, depth, fmt);
    hide *;
    PrintObjectIs(kids, depth, fmt, names, entries);
  }

  lemma BranchPrints(kids: seq<Item>, depth: nat, fmt: bool)
    requires forall k :: 0 <= k < |kids| ==> IntNumbers(kids[k])
    ensures IntNumbers(Branch(OBJECT, kids))
    ensures PrintValue(Branch(OBJECT, kids), depth, fmt) == PrintObject(kids, depth, fmt)
  {
    hide PrintObject;
    hide PrintArray;
  }

  lemma PrintObjectIs(kids: seq<Item>, depth: nat, fmt: bool, names: seq<CStr>, entries: seq<CStr>)
    requires kids != [] && forall k :: 0 <= k < |kids| ==> IntNumbers(kids[k])
    requires PrintEach(kids, depth + 1, fmt) == Some(entries) && Names(kids) == names && |names| == |entries|
    ensures PrintObject(kids, depth, fmt)
         == Some([123] + (if fmt then [10] else []) + Members(names, entries, depth + 1, fmt) + (if fmt then Tabs(depth) else []) + [125])
  {
    hide PrintEach;
    hide IntNumbers;
    hide Members;
    hide Names;
    hide Tabs;
  }

  lemma NothingAround(text: CStr)
    ensures [123] + [] + text + [] + [125] == [123] + text + [125]
  {
  }

  lemma NamesOfTwo(a: Item, b: Item)
    ensures Names([a, b]) == [StringText(a.name), StringText(b.name)]
  {
    hide StringText;
    var kids := [a, b];
    assert kids[1..] == [b] && kids[1..][1..] == [];
    assert Names(kids[1..]) == [StringText(b.name)];
  }

  lemma MembersOfTwo(m: CStr, n: CStr, x: CStr, y: CStr, depth: nat, fmt: bool)
    ensures var p, q := MemberText(m, x, depth, fmt), MemberText(n, y, depth, fmt);
      Members([m, n], [x, y], depth, fmt) == if fmt then p + ([44] + ([10] + (q + [10]))) else p + ([44] + q)
  {
    MembersUnfold([m, n], [x, y], depth, fmt);
    MembersUnfold([n], [y], depth, fmt);
    assert [m, n][1..] == [n] && [x, y][1..] == [y];
    hide Members;
    hide MemberText;
    var q := MemberText(n, y, depth, fmt);
    assert [] + Newline(fmt) == Newline(fmt) && [] + q == q && q + [] == q;
  }

  lemma PrintsDigit(n: int, depth: nat, fmt: bool)
    requires 0 <= n < 10
    ensures IntNumbers(NumberItem(n as real)) && PrintValue(NumberItem(n as real), depth, fmt) == Some([48 + n])
  {
  }

  lemma NothingPrints(depth: nat, fmt: bool)
    requires depth <= 1
    ensures IntNumbers(Nothing()) && PrintValue(Nothing(), depth, fmt) == Some(if fmt then [123, 10, 125] else [123, 125])
  {
    var tabs := Tabs(depth - 1);
    assert tabs == [];
    assert PrintValue(Nothing(), depth, fmt) == PrintObject([], depth, fmt);
    assert [123] + ([10] + tabs) + [125] == [123, 10, 125] && [123] + [] + [125] == [123, 125];
  }

  /** The array of 1 and 2, as the member "a". */
  function OneTwo(): Item { Branch(ARRAY, [NumberItem(1.0), NumberItem(2.0)]).(name := Some([97])) }

  lemma OneTwoPrints(depth: nat, fmt: bool)
    ensures IntNumbers(OneTwo())
    ensures PrintValue(OneTwo(), depth, fmt) == Some(if fmt then [91, 49, 44, 32, 50, 93] else [91, 49, 44, 50, 93])
  {
    PrintsDigit(1, depth + 1, fmt);
    PrintsDigit(2, depth + 1, fmt);
    ArrayOfTwo(NumberItem(1.0), NumberItem(2.0), depth, fmt, [49], [50]);
    NameUnprinted(Branch(ARRAY, [NumberItem(1.0), NumberItem(2.0)]), [97], depth, fmt);
    hide PrintValue;
    hide IntNumbers;
    assert [91] + ([49] + ([44, 32] + [50])) + [93] == [91, 49, 44, 32, 50, 93];
    assert [91] + ([49] + ([44] + [50])) + [93] == [91, 49, 44, 50, 93];
  }

  lemma NameUnprinted(t: Item, name: CStr, depth: nat, fmt: bool)
    requires IntNumbers(t)
    ensures var u := t.(name := Some(name)); IntNumbers(u) && PrintValue(u, depth, fmt) == PrintValue(t, depth, fmt)
  {
    hide PrintArray;
    hide PrintObject;
  }

  /** The object without members, as the member "b". */
  function Nothing(): Item { Branch(OBJECT, []).(name := Some([98])) }

  function LayoutItem(): Item { Branch(OBJECT, [OneTwo(), Nothing()]) }

  lemma NamePrints(c: Char)
    requires 97 <= c <= 122
    ensures StringText(Some([c])) == [34, c, 34]
  {
    assert EscapeAll([c]) == [c];
  }

  /** The layout: {"a":[1,2],"b":{}} without formatting; with it, a line for each member,
      one tab deep, a tab behind the colon, a space behind the comma of an array, and the
      closing braces on lines of their own, that of the empty object one tab less deep
      than its member. */
  lemma LayoutExample()
    ensures IntNumbers(LayoutItem())
    ensures PrintValue(LayoutItem(), 0, false)
         == Some([123, 34, 97, 34, 58, 91, 49, 44, 50, 93, 44, 34, 98, 34, 58, 123, 125, 125])
    ensures PrintValue(LayoutItem(), 0, true)
         == Some([123, 10, 9, 34, 97, 34, 58, 9, 91, 49, 44, 32, 50, 93, 44, 10, 9, 34, 98, 34, 58, 9, 123, 10, 125, 10, 125])
  {
    hide *;
    NamePrints(97);
    NamePrints(98);
    OneTab();
    MembersExample();
    LayoutIs();
    OneTwoPrints(1, false);
    OneTwoPrints(1, true);
    NothingPrints(1, false);
    NothingPrints(1, true);
    ObjectOfTwo(OneTwo(), Nothing(), 0, false, [91, 49, 44, 50, 93], [123, 125]);
    ObjectOfTwo(OneTwo(), Nothing(), 0, true, [91, 49, 44, 32, 50, 93], [123, 10, 125]);
    LayoutJoins();
  }

  lemma LayoutIs()
    ensures LayoutItem() == Branch(OBJECT, [OneTwo(), Nothing()])
    ensures OneTwo().name == Some([97]) && Nothing().name == Some([98])
  {
  }

  lemma LayoutJoins()
    ensures [123] + ([34, 97, 34, 58, 91, 49, 44, 50, 93] + ([44] + [34, 98, 34, 58, 123, 125])) + [125]
         == [123, 34, 97, 34, 58, 91, 49, 44, 50, 93, 44, 34, 98, 34, 58, 123, 125, 125]
    ensures [123] + [10]
            + ([9, 34, 97, 34, 58, 9, 91, 49, 44, 32, 50, 93] + ([44] + ([10] + ([9, 34, 98, 34, 58, 9, 123, 10, 125] + [10]))))
            + [] + [125]
         == [123, 10, 9, 34, 97, 34, 58, 9, 91, 49, 44, 32, 50, 93, 44, 10, 9, 34, 98, 34, 58, 9, 123, 10, 125, 10, 125]
  {
    PlainJoins();
    FormattedJoins();
  }

  lemma PlainJoins()
    ensures [123] + ([34, 97, 34, 58, 91, 49, 44, 50, 93] + ([44] + [34, 98, 34, 58, 123, 125])) + [125]
         == [123, 34, 97, 34, 58, 91, 49, 44, 50, 93, 44, 34, 98, 34, 58, 123, 125, 125]
  {
  }

  lemma FormattedJoins()
    ensures [123] + [10]
            + ([9, 34, 97, 34, 58, 9, 91, 49, 44, 32, 50, 93] + ([44] + ([10] + ([9, 34, 98, 34, 58, 9, 123, 10, 125] + [10]))))
            + [] + [125]
         == [123, 10, 9, 34, 97, 34, 58, 9, 91, 49, 44, 32, 50, 93, 44, 10, 9, 34, 98, 34, 58, 9, 123, 10, 125, 10, 125]
  {
  }

  lemma MembersExample()
    ensures MemberText([34, 97, 34], [91, 49, 44, 50, 93], 1, false) == [34, 97, 34, 58, 91, 49, 44, 50, 93]
    ensures MemberText([34, 98, 34], [123, 125], 1, false) == [34, 98, 34, 58, 123, 125]
    ensures MemberText([34, 97, 34], [91, 49, 44, 32, 50, 93], 1, true) == [9, 34, 97, 34, 58, 9, 91, 49, 44, 32, 50, 93]
    ensures MemberText([34, 98, 34], [123, 10, 125], 1, true) == [9, 34, 98, 34, 58, 9, 123, 10, 125]
  {
    OneTab();
    hide Tabs;
    var a: CStr, b: CStr := [34, 97, 34], [34, 98, 34];
    assert [] + a + [58] + [91, 49, 44, 50, 93] == [34, 97, 34, 58, 91, 49, 44, 50, 93];
    assert [] + b + [58] + [123, 125] == [34, 98, 34, 58, 123, 125];
  }

  lemma OneTab()
    ensures Tabs(0) == [] && Tabs(1) == [9]
  {
  }

  /** A value without stray fields, as the parser and the constructors build it. */
  predicate Clean(t: Item) {
    && Printable(t)
    && t.kind < 256
    && (t.kind == STRING || t.str.None?)
    && (t.kind == NUMBER || t.dbl == 0.0)
    && (t.kind == NUMBER || t.num == if t.kind == TRUE then 1 else 0)
    && (t.kind == ARRAY || t.kind == OBJECT || t.kids == [])
    && (t.kind == ARRAY ==> forall k :: 0 <= k < |t.kids| ==> t.kids[k].name.None?)
    && forall k :: 0 <= k < |t.kids| ==> Clean(t.kids[k])
  }

  lemma {:induction false} CleanIsCanonical(t: Item)
    requires Clean(t)
    ensures Canon(t).(name := t.name) == t
    decreases t, 1
  {
    if t.kind == ARRAY || t.kind == OBJECT {
      CleanKids(t.kids);
    }
  }

  lemma {:induction false} CleanKids(kids: seq<Item>)
    requires forall k :: 0 <= k < |kids| ==> Clean(kids[k])
    ensures CanonMembers(kids) == kids
    ensures (forall k :: 0 <= k < |kids| ==> kids[k].name.None?) ==> CanonAll(kids) == kids
    decreases kids, 0
  {
    if kids != [] {
      CleanIsCanonical(kids[0]);
      CleanKids(kids[1..]);
    }
  }

  /** The round trip: a clean value comes back unchanged. */
  lemma RoundTrip(t: Item, fmt: bool)
    requires Clean(t) && t.name.None?
    ensures IntNumbers(t) && PrintValue(t, 0, fmt).Some?
    ensures ParseText(PrintValue(t, 0, fmt).value, true) == Good(t, |PrintValue(t, 0, fmt).value|)
  {
    hide PrintValue;
    hide ParseText;
    PrintThenParse(t, fmt, true);
    CleanIsCanonical(t);
  }

  /** Canonical values are clean, so what the parser returns for printed text survives
      any number of further round trips. */
  lemma {:induction false} CanonicalIsClean(t: Item)
    requires Printable(t)
    ensures Clean(Canon(t)) && Canon(t).name.None?
    decreases t, 1
  {
    if t.kind % 256 == ARRAY {
      CanonicalKids(t.kids);
    } else if t.kind % 256 == OBJECT {
      CanonicalKids(t.kids);
    }
  }

  lemma {:induction false} CanonicalKids(kids: seq<Item>)
    requires AllPrintable(kids)
    ensures forall k :: 0 <= k < |kids| ==> Clean(CanonAll(kids)[k]) && CanonAll(kids)[k].name.None?
    ensures forall k :: 0 <= k < |kids| ==> CanonMembers(kids)[k] == Canon(kids[k]).(name := kids[k].name)
    ensures forall k :: 0 <= k < |kids| ==> Clean(CanonMembers(kids)[k])
    decreases kids, 0
  {
    if kids != [] {
      CanonicalIsClean(kids[0]);
      CleanRenamed(Canon(kids[0]), kids[0].name);
      CanonicalKids(kids[1..]);
    }
  }

  lemma CleanRenamed(t: Item, name: Option<CStr>)
    requires Clean(t)
    ensures Clean(t.(name := name))
  {
  }
}
