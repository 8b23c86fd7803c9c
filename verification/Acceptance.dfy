/**
 The parser accepts every text that spells a document, and yields what the document
 stands for.
 */
module Acceptance {
  import opened CText
  import opened Strings
  import opened Json
  import opened Scalars
  import G = Grammar

  // ----- documents

  lemma BlankSkips(s: CStr, p: nat, b: CStr)
    requires Occurs(s, p, b) && G.Blank(b, false) && p + |b| <= |s|
    ensures Skip(s, p) == Skip(s, p + |b|)
    ensures At(s, p + |b|) == 0 || At(s, p + |b|) > 32 ==> Skip(s, p) == p + |b|
    ensures |b| > 0 ==> At(s, p) <= 32
  {
    forall k | p <= k < p + |b|
      ensures s[k] <= 32
    {
      OccursAt(s, p, b, k - p);
    }
    SkipOver(s, p, p + |b|);
    if At(s, p + |b|) == 0 || At(s, p + |b|) > 32 {
      SkipNothing(s, p + |b|);
    }
    if |b| > 0 {
      OccursAt(s, p, b, 0);
    }
  }

  /** Skipping blanks from p leads to i. */
  predicate SkipsTo(s: CStr, p: nat, i: nat) { p <= i <= |s| && Skip(s, p) == i }

  /** From p it leads where it leads from q. */
  predicate SkipsAlike(s: CStr, p: nat, q: nat) { p <= q <= |s| && Skip(s, p) == Skip(s, q) }

  /** The value at i is read as d and ends at end. */
  predicate ReadsAs(s: CStr, i: nat, d: G.Doc, end: nat) { i <= end <= |s| && ParseValue(s, i) == Good(G.Meaning(d), end) }

  /** The name at n is read and ends at g. */
  predicate NameReads(s: CStr, n: nat, us: seq<G.Unit>, g: nat) {
    n <= g <= |s| && At(s, n) == QUOTE && StringAt(s, n) == Good(G.UnitsMeaning(us), g)
  }

  /** The member at n is read and ends at end. */
  predicate PairReads(s: CStr, n: nat, m: G.Member, end: nat) {
    && n <= end <= |s| && At(s, n) == QUOTE
    && ParseMember(s, n) == Good(G.Meaning(m.doc).(name := Some(G.UnitsMeaning(m.name))), end)
  }

  lemma BlankLeads(s: CStr, p: nat, i: nat, b: CStr)
    requires Occurs(s, p, b) && G.Blank(b, false) && i == p + |b| < |s| && s[i] > 32
    ensures SkipsTo(s, p, i)
  {
    BlankSkips(s, p, b);
  }

  lemma BlankTrails(s: CStr, p: nat, q: nat, b: CStr)
    requires Occurs(s, p, b) && G.Blank(b, false) && q == p + |b| <= |s|
    ensures SkipsAlike(s, p, q)
  {
    BlankSkips(s, p, b);
  }

  /** What can stand behind a nested value. */
  predicate Between(c: Byte) { c <= 32 || c == 44 || c == 93 || c == 125 }

  lemma BetweenEnds(s: CStr, p: nat)
    requires p <= |s| && Between(At(s, p))
    ensures NumberEnds(s, p)
  {
  }

  /** A value starts with something visible that closes nothing. */
  predicate Opens(c: Byte) { c > 32 && c != 93 && c != 125 && c != 44 }

  lemma DocOpens(s: CStr, i: nat, d: G.Doc)
    requires G.Well(d, false) && Occurs(s, i, G.Text(d))
    ensures i < |s| && Opens(s[i])
  {
    match d {
      case Num(n) => NumeralStarts(s, i, n);
      case _ => OccursAt(s, i, G.Text(d), 0);
    }
  }

  /** A value ends where the parser stops reading it. */
  predicate Ends(s: CStr, end: nat, d: G.Doc)
    requires end <= |s|
  {
    (d.Num? ==> NumberEnds(s, end)) && (G.IsOpen(d) ==> end == |s|)
  }

  /** The parser reads the document at i and stops behind it. */
  predicate Parses(s: CStr, i: nat, d: G.Doc) {
    i + |G.Text(d)| <= |s| && ParseValue(s, i) == Good(G.Meaning(d), i + |G.Text(d)|)
  }

  lemma WordParses(s: CStr, i: nat, kind: nat)
    requires kind == FALSE || kind == TRUE || kind == NULL
    requires Occurs(s, i, G.WordText(kind))
    ensures Parses(s, i, G.Word(kind))
  {
    if kind == TRUE {
      TrueParses(s, i);
    } else if kind == FALSE {
      FalseParses(s, i);
    } else {
      NullParses(s, i);
    }
    hide ParseValue;
    hide Occurs;
  }

  lemma StartsWith(s: CStr, i: nat, t: CStr)
    requires t != []
    ensures Occurs(s, i, t) ==> i < |s| && s[i] == t[0]
  {
    if Occurs(s, i, t) {
      OccursAt(s, i, t, 0);
    }
  }

  lemma NullParses(s: CStr, i: nat)
    requires Occurs(s, i, [110, 117, 108, 108])
    ensures i + 4 <= |s| && ParseValue(s, i) == Good(Plain(NULL), i + 4)
  {
    assert NULL_TEXT == [110, 117, 108, 108];
    hide Occurs;
    OccursWithin(s, i, NULL_TEXT);
  }

  lemma FalseParses(s: CStr, i: nat)
    requires Occurs(s, i, [102, 97, 108, 115, 101])
    ensures i + 5 <= |s| && ParseValue(s, i) == Good(Plain(FALSE), i + 5)
  {
    assert FALSE_TEXT == [102, 97, 108, 115, 101];
    StartsWith(s, i, NULL_TEXT);
    StartsWith(s, i, FALSE_TEXT);
    StartsWith(s, i, TRUE_TEXT);
    hide Occurs;
    OccursWithin(s, i, FALSE_TEXT);
  }

  lemma TrueParses(s: CStr, i: nat)
    requires Occurs(s, i, [116, 114, 117, 101])
    ensures i + 4 <= |s| && ParseValue(s, i) == Good(Plain(TRUE).(num := 1), i + 4)
  {
    assert TRUE_TEXT == [116, 114, 117, 101];
    StartsWith(s, i, NULL_TEXT);
    StartsWith(s, i, FALSE_TEXT);
    StartsWith(s, i, TRUE_TEXT);
    hide Occurs;
    OccursWithin(s, i, TRUE_TEXT);
  }

  /** The first character selects the function that parse_value calls. */
  lemma Dispatch(s: CStr, i: nat)
    requires i < |s|
    ensures s[i] == OPEN_BRACKET ==> ParseValue(s, i) == ParseArray(s, i)
    ensures s[i] == OPEN_BRACE ==> ParseValue(s, i) == ParseObject(s, i)
    ensures s[i] == MINUS || IsDigit(s[i]) ==> ParseValue(s, i) == ParseNumber(s, i)
    ensures s[i] == QUOTE && StringAt(s, i).Good? ==>
              ParseValue(s, i) == Good(Plain(STRING).(str := Some(StringAt(s, i).value)), StringAt(s, i).end)
  {
    if Occurs(s, i, NULL_TEXT) {
      OccursAt(s, i, NULL_TEXT, 0);
    }
    if Occurs(s, i, FALSE_TEXT) {
      OccursAt(s, i, FALSE_TEXT, 0);
    }
    if Occurs(s, i, TRUE_TEXT) {
      OccursAt(s, i, TRUE_TEXT, 0);
    }
  }

  lemma DispatchArray(s: CStr, i: nat)
    requires i < |s| && s[i] == OPEN_BRACKET
    ensures ParseValue(s, i) == ParseArray(s, i)
  {
    Dispatch(s, i);
  }

  lemma DispatchObject(s: CStr, i: nat)
    requires i < |s| && s[i] == OPEN_BRACE
    ensures ParseValue(s, i) == ParseObject(s, i)
  {
    Dispatch(s, i);
  }

  lemma ScalarParses(s: CStr, i: nat, d: G.Doc)
    requires G.Well(d, false) && Occurs(s, i, G.Text(d)) && i + |G.Text(d)| <= |s| && Ends(s, i + |G.Text(d)|, d)
    requires d.Num? || d.Str?
    ensures Parses(s, i, d)
  {
    DocOpens(s, i, d);
    hide ParseValue;
    hide G.UnitsText;
    hide G.UnitsMeaning;
    hide G.NumeralText;
    hide G.NumeralValue;
    hide ParseNumber;
    hide StringAt;
    match d {
      case Num(n) =>
        NumeralParses(s, i, n);
        Dispatch(s, i);
      case Str(us, closed) =>
        StringParses(s, i, us, closed);
        StringOccurs(s, i, us, closed);
        Dispatch(s, i);
    }
  }

  // ----- arrays

  /** Where the parts of an element stand. */
  lemma ElementOccurs(s: CStr, p: nat, e: G.Element)
    requires Occurs(s, p, G.ElementText(e)) && p + |G.ElementText(e)| <= |s|
    ensures Occurs(s, p, e.before) && Occurs(s, p + |e.before|, G.Text(e.doc))
    ensures Occurs(s, p + |e.before| + |G.Text(e.doc)|, e.after)
    ensures |G.ElementText(e)| == |e.before| + |G.Text(e.doc)| + |e.after|
  {
    hide G.Text;
    OccursSplit(s, p, e.before, G.Text(e.doc) + e.after);
    OccursSplit(s, p + |e.before|, G.Text(e.doc), e.after);
  }

  /** Behind the value there are blanks or the end of the element. */
  lemma AfterValue(s: CStr, p: nat, b: CStr)
    requires Occurs(s, p, b) && G.Blank(b, false) && p + |b| <= |s| && Between(At(s, p + |b|))
    ensures Between(At(s, p)) && NumberEnds(s, p)
  {
    BlankSkips(s, p, b);
    BetweenEnds(s, p);
  }

  /** The element at p is read as its value, and the parser goes on behind its blanks. */
  predicate ElementReads(s: CStr, p: nat, e: G.Element) {
    && p + |G.ElementText(e)| <= |s|
    && Opens(At(s, Skip(s, p)))
    && ParseValue(s, Skip(s, p)).Good? && ParseValue(s, Skip(s, p)).value == G.Meaning(e.doc)
    && Skip(s, ParseValue(s, Skip(s, p)).end) == Skip(s, p + |G.ElementText(e)|)
  }

  lemma ElementsSplit(s: CStr, p: nat, es: seq<G.Element>)
    requires es != [] && Occurs(s, p, G.ElementsText(es)) && p + |G.ElementsText(es)| <= |s|
    ensures var q := p + |G.ElementText(es[0])|;
      && Occurs(s, p, G.ElementText(es[0])) && q <= |s|
      && (|es| == 1 ==> q == p + |G.ElementsText(es)|)
      && (|es| > 1 ==> q < |s| && s[q] == COMMA && Occurs(s, q + 1, G.ElementsText(es[1..]))
                       && p + |G.ElementsText(es)| == q + 1 + |G.ElementsText(es[1..])|)
    ensures G.ElementsMeaning(es) == [G.Meaning(es[0].doc)] + G.ElementsMeaning(es[1..])
  {
    hide *;
    ElementsTextIs(es);
    if |es| == 1 {
      return;
    }
    var first, rest := G.ElementText(es[0]), G.ElementsText(es[1..]);
    OccursSplit(s, p, first, [44] + rest);
    CommaThen(s, p + |first|, rest);
    OccursWithin(s, p, first);
  }

  lemma CommaThen(s: CStr, q: nat, rest: CStr)
    requires Occurs(s, q, [44] + rest)
    ensures q < |s| && s[q] == COMMA && Occurs(s, q + 1, rest)
  {
    OccursSplit(s, q, [44], rest);
    OccursAt(s, q, [44], 0);
  }

  lemma ElementsTextIs(es: seq<G.Element>)
    requires es != []
    ensures |es| == 1 ==> G.ElementsText(es) == G.ElementText(es[0])
    ensures |es| > 1 ==> G.ElementsText(es) == G.ElementText(es[0]) + ([44] + G.ElementsText(es[1..]))
    ensures G.ElementsMeaning(es) == [G.Meaning(es[0].doc)] + G.ElementsMeaning(es[1..])
  {
    hide G.ElementText;
    hide G.Meaning;
    if |es| == 1 {
      assert G.ElementText(es[0]) + [] == G.ElementText(es[0]);
    }
  }

  lemma WellTail(es: seq<G.Element>)
    requires es != [] && forall k :: 0 <= k < |es| ==> G.WellElement(es[k], false)
    ensures G.WellElement(es[0], false) && forall k :: 0 <= k < |es[1..]| ==> G.WellElement(es[1..][k], false)
  {
  }

  /** The elements from p on have been read by the time the closing bracket is. */
  predicate ElementsRead(s: CStr, p: nat, es: seq<G.Element>, kids: seq<Item>) {
    && p + |G.ElementsText(es)| < |s|
    && Opens(At(s, Skip(s, p)))
    && ParseValue(s, Skip(s, p)).Good?
    && ArrayRest(s, Skip(s, ParseValue(s, Skip(s, p)).end), kids + [ParseValue(s, Skip(s, p)).value])
       == Good(Branch(ARRAY, kids + G.ElementsMeaning(es)), p + |G.ElementsText(es)| + 1)
  }

  lemma LastElement(s: CStr, p: nat, e: G.Element, kids: seq<Item>)
    requires ElementReads(s, p, e) && At(s, p + |G.ElementText(e)|) == CLOSE_BRACKET
    ensures ParseValue(s, Skip(s, p)).Good?
    ensures ArrayRest(s, Skip(s, ParseValue(s, Skip(s, p)).end), kids + [ParseValue(s, Skip(s, p)).value])
         == Good(Branch(ARRAY, kids + [G.Meaning(e.doc)]), p + |G.ElementText(e)| + 1)
  {
    hide ParseValue;
    hide G.Meaning;
    SkipNothing(s, p + |G.ElementText(e)|);
    ArrayStop(s, p + |G.ElementText(e)|, kids + [G.Meaning(e.doc)]);
  }

  lemma NextElement(s: CStr, p: nat, e: G.Element, es: seq<G.Element>, kids: seq<Item>)
    requires ElementReads(s, p, e) && At(s, p + |G.ElementText(e)|) == COMMA
    requires ElementsRead(s, p + |G.ElementText(e)| + 1, es, kids + [G.Meaning(e.doc)])
    ensures ParseValue(s, Skip(s, p)).Good?
    ensures ArrayRest(s, Skip(s, ParseValue(s, Skip(s, p)).end), kids + [ParseValue(s, Skip(s, p)).value])
         == Good(Branch(ARRAY, kids + [G.Meaning(e.doc)] + G.ElementsMeaning(es)),
                 p + |G.ElementText(e)| + 1 + |G.ElementsText(es)| + 1)
  {
    hide ParseValue;
    hide ArrayRest;
    hide G.Meaning;
    hide G.ElementsMeaning;
    hide G.ElementsText;
    var q := p + |G.ElementText(e)|;
    SkipNothing(s, q);
    var r := ParseValue(s, Skip(s, q + 1));
    ArrayTurn(s, q, kids + [G.Meaning(e.doc)], r.value, r.end);
  }

  lemma ElementParses(s: CStr, p: nat, e: G.Element)
    requires G.WellElement(e, false) && Occurs(s, p, G.ElementText(e)) && p + |G.ElementText(e)| <= |s|
    requires Between(At(s, p + |G.ElementText(e)|))
    ensures ElementReads(s, p, e)
    decreases e, 1
  {
    WellElementIs(e);
    hide *;
    ElementOccurs(s, p, e);
    var i := p + |e.before|;
    var end, q := i + |G.Text(e.doc)|, p + |G.ElementText(e)|;
    ValueParses(s, p, i, end, q, e.before, e.doc, e.after);
    ElementRead(s, p, q, e, i, end);
  }

  lemma WellElementIs(e: G.Element)
    requires G.WellElement(e, false)
    ensures G.Blank(e.before, false) && G.Blank(e.after, false) && G.Well(e.doc, false) && !G.IsOpen(e.doc)
  {
  }

  lemma EndsHere(s: CStr, end: nat, d: G.Doc)
    requires end <= |s| && NumberEnds(s, end) && !G.IsOpen(d)
    ensures Ends(s, end, d)
  {
  }

  lemma OpensHere(s: CStr, i: nat)
    requires i < |s| && Opens(s[i])
    ensures s[i] > 32
  {
  }

  lemma ParsesIs(s: CStr, i: nat, d: G.Doc, end: nat)
    requires Parses(s, i, d) && end == i + |G.Text(d)|
    ensures ReadsAs(s, i, d, end)
  {
  }

  lemma ElementRead(s: CStr, p: nat, q: nat, e: G.Element, i: nat, end: nat)
    requires q == p + |G.ElementText(e)| <= |s| && SkipsTo(s, p, i) && i < |s| && Opens(s[i])
    requires ReadsAs(s, i, e.doc, end) && SkipsAlike(s, end, q)
    ensures ElementReads(s, p, e)
  {
    hide ParseValue;
    hide G.ElementText;
  }

  lemma {:induction false} ElementsParse(s: CStr, p: nat, es: seq<G.Element>, kids: seq<Item>)
    requires es != [] && forall k :: 0 <= k < |es| ==> G.WellElement(es[k], false)
    requires Occurs(s, p, G.ElementsText(es)) && p + |G.ElementsText(es)| < |s| && s[p + |G.ElementsText(es)|] == CLOSE_BRACKET
    ensures ElementsRead(s, p, es, kids)
    decreases es, 2
  {
    hide *;
    ElementsSplit(s, p, es);
    WellTail(es);
    var q := p + |G.ElementText(es[0])|;
    var kid := G.Meaning(es[0].doc);
    BetweenIs(s, q);
    ElementParses(s, p, es[0]);
    ElementReadsIs(s, p, es[0]);
    if |es| == 1 {
      LastElement(s, p, es[0], kids);
      NoElements(es);
    } else {
      ElementsParse(s, q + 1, es[1..], kids + [kid]);
      NextElement(s, p, es[0], es[1..], kids);
      Assoc(kids, [kid], G.ElementsMeaning(es[1..]));
    }
    ElementsReadIs(s, p, es, kids);
  }

  lemma NoElements(es: seq<G.Element>)
    requires |es| == 1
    ensures G.ElementsMeaning(es) == [G.Meaning(es[0].doc)]
  {
    assert es[1..] == [];
  }

  lemma BetweenIs(s: CStr, q: nat)
    requires q < |s| && s[q] in {COMMA, CLOSE_BRACKET, CLOSE_BRACE}
    ensures At(s, q) == s[q] && Between(At(s, q))
  {
  }

  lemma ElementReadsIs(s: CStr, p: nat, e: G.Element)
    requires ElementReads(s, p, e)
    ensures p <= |s| && Opens(At(s, Skip(s, p)))
  {
    hide ParseValue;
  }

  lemma ElementsReadIs(s: CStr, p: nat, es: seq<G.Element>, kids: seq<Item>)
    requires p + |G.ElementsText(es)| < |s| && Opens(At(s, Skip(s, p))) && ParseValue(s, Skip(s, p)).Good?
    requires ArrayRest(s, Skip(s, ParseValue(s, Skip(s, p)).end), kids + [ParseValue(s, Skip(s, p)).value])
          == Good(Branch(ARRAY, kids + G.ElementsMeaning(es)), p + |G.ElementsText(es)| + 1)
    ensures ElementsRead(s, p, es, kids)
  {
    hide ParseValue;
    hide ArrayRest;
  }

  /** The body of an array between its brackets. */
  lemma ArrayOccurs(s: CStr, i: nat, pad: CStr, es: seq<G.Element>)
    requires Occurs(s, i, G.Text(G.Arr(pad, es))) && i + |G.Text(G.Arr(pad, es))| <= |s|
    ensures i < |s| && s[i] == OPEN_BRACKET
    ensures var body := if es == [] then pad else G.ElementsText(es);
      && Occurs(s, i + 1, body) && i + 1 + |body| < |s| && s[i + 1 + |body|] == CLOSE_BRACKET
      && i + |G.Text(G.Arr(pad, es))| == i + 1 + |body| + 1
  {
    hide G.ElementsText;
    var body := if es == [] then pad else G.ElementsText(es);
    OccursSplit(s, i, [91], body + [93]);
    OccursAt(s, i, [91], 0);
    OccursSplit(s, i + 1, body, [93]);
    OccursAt(s, i + 1 + |body|, [93], 0);
  }

  lemma EmptyArray(s: CStr, i: nat, pad: CStr)
    requires i < |s| && G.Blank(pad, false) && Occurs(s, i + 1, pad)
    requires i + 1 + |pad| < |s| && s[i + 1 + |pad|] == CLOSE_BRACKET
    ensures ParseArray(s, i) == Good(Branch(ARRAY, []), i + 1 + |pad| + 1)
  {
    hide ParseValue;
    BlankSkips(s, i + 1, pad);
  }

  lemma ArrayParses(s: CStr, i: nat, pad: CStr, es: seq<G.Element>)
    requires G.Well(G.Arr(pad, es), false) && Occurs(s, i, G.Text(G.Arr(pad, es))) && i + |G.Text(G.Arr(pad, es))| <= |s|
    ensures Parses(s, i, G.Arr(pad, es))
    decreases es, 3
  {
    WellArrayIs(pad, es);
    hide *;
    ArrayOccurs(s, i, pad, es);
    if es == [] {
      EmptyArrayParses(s, i, pad);
    } else {
      ElementsParse(s, i + 1, es, []);
      FullArrayParses(s, i, pad, es);
    }
  }

  lemma EmptyArrayParses(s: CStr, i: nat, pad: CStr)
    requires i < |s| && s[i] == OPEN_BRACKET && G.Blank(pad, false) && Occurs(s, i + 1, pad)
    requires i + 1 + |pad| < |s| && s[i + 1 + |pad|] == CLOSE_BRACKET
    ensures Parses(s, i, G.Arr(pad, []))
  {
    EmptyArray(s, i, pad);
    DispatchArray(s, i);
    hide ParseValue;
  }

  lemma ParsesAs(s: CStr, i: nat, d: G.Doc, end: nat)
    requires end == i + |G.Text(d)| <= |s| && ParseValue(s, i) == Good(G.Meaning(d), end)
    ensures Parses(s, i, d)
  {
  }

  lemma ArrayIs(pad: CStr, es: seq<G.Element>)
    requires es != []
    ensures G.Meaning(G.Arr(pad, es)) == Branch(ARRAY, G.ElementsMeaning(es))
    ensures |G.Text(G.Arr(pad, es))| == 1 + |G.ElementsText(es)| + 1
  {
  }

  lemma ObjectIs(pad: CStr, ms: seq<G.Member>)
    requires ms != []
    ensures G.Meaning(G.Obj(pad, ms)) == Branch(OBJECT, G.MembersMeaning(ms))
    ensures |G.Text(G.Obj(pad, ms))| == 1 + |G.MembersText(ms)| + 1
  {
  }

  lemma FullArrayParses(s: CStr, i: nat, pad: CStr, es: seq<G.Element>)
    requires es != [] && i < |s| && s[i] == OPEN_BRACKET && ElementsRead(s, i + 1, es, [])
    ensures Parses(s, i, G.Arr(pad, es))
  {
    hide *;
    var d, end := G.Arr(pad, es), i + 1 + |G.ElementsText(es)| + 1;
    WholeArray(s, i, es);
    DispatchArray(s, i);
    ArrayIs(pad, es);
    ParsesAs(s, i, d, end);
  }

  lemma WellArrayIs(pad: CStr, es: seq<G.Element>)
    requires G.Well(G.Arr(pad, es), false)
    ensures G.Blank(pad, false) && forall k :: 0 <= k < |es| ==> G.WellElement(es[k], false)
  {
  }

  lemma WholeArray(s: CStr, i: nat, es: seq<G.Element>)
    requires i < |s| && s[i] == OPEN_BRACKET && ElementsRead(s, i + 1, es, [])
    ensures ParseArray(s, i) == Good(Branch(ARRAY, G.ElementsMeaning(es)), i + 1 + |G.ElementsText(es)| + 1)
    ensures i + 1 + |G.ElementsText(es)| + 1 <= |s|
  {
    hide ParseValue;
    hide ArrayRest;
    hide G.ElementsText;
    hide G.ElementsMeaning;
    var r := ParseValue(s, Skip(s, i + 1));
    ArrayStart(s, i, r.value, r.end);
    assert [] + [r.value] == [r.value] && [] + G.ElementsMeaning(es) == G.ElementsMeaning(es);
  }

  // ----- objects

  /** Where the parts of a member stand. */
  lemma MemberOccurs(s: CStr, p: nat, m: G.Member)
    requires Occurs(s, p, G.MemberText(m)) && p + |G.MemberText(m)| <= |s|
    ensures var n := p + |m.before|;
      var g := n + |G.LiteralText(m.name, true)|;
      var c := g + |m.gap|;
      var v := c + 1 + |m.space|;
      && Occurs(s, p, m.before) && Occurs(s, n, G.LiteralText(m.name, true)) && Occurs(s, g, m.gap) && c < |s| && s[c] == COLON
      && Occurs(s, c + 1, m.space) && Occurs(s, v, G.Text(m.doc)) && Occurs(s, v + |G.Text(m.doc)|, m.after)
      && p + |G.MemberText(m)| == v + |G.Text(m.doc)| + |m.after|
  {
    hide *;
    var name, value := G.LiteralText(m.name, true), G.Text(m.doc);
    MemberTextIs(m);
    var tail := m.gap + ([58] + (m.space + (value + m.after)));
    OccursSplit(s, p, m.before, name + tail);
    OccursSplit(s, p + |m.before|, name, tail);
    TailOccurs(s, p + |m.before| + |name|, m.gap, m.space, value, m.after);
  }

  /** What stands behind a name. */
  lemma TailOccurs(s: CStr, g: nat, gap: CStr, space: CStr, value: CStr, after: CStr)
    requires Occurs(s, g, gap + ([58] + (space + (value + after))))
    ensures var c := g + |gap|;
      var v := c + 1 + |space|;
      && Occurs(s, g, gap) && c < |s| && s[c] == COLON
      && Occurs(s, c + 1, space) && Occurs(s, v, value) && Occurs(s, v + |value|, after)
  {
    hide *;
    OccursSplit(s, g, gap, [58] + (space + (value + after)));
    var c := g + |gap|;
    OccursSplit(s, c, [58], space + (value + after));
    ColonAt(s, c);
    OccursSplit(s, c + 1, space, value + after);
    OccursSplit(s, c + 1 + |space|, value, after);
  }

  lemma ColonAt(s: CStr, c: nat)
    requires Occurs(s, c, [58])
    ensures c < |s| && s[c] == COLON
  {
    OccursAt(s, c, [58], 0);
  }

  lemma MemberTextIs(m: G.Member)
    ensures G.MemberText(m)
         == m.before + (G.LiteralText(m.name, true) + (m.gap + ([58] + (m.space + (G.Text(m.doc) + m.after)))))
  {
    hide G.Text;
    hide G.UnitsText;
  }

  /** parse_object between the blanks of a member. */
  lemma MemberStep(s: CStr, m: G.Member, n: nat, g: nat, c: nat, v: nat, end: nat)
    requires NameReads(s, n, m.name, g) && SkipsTo(s, g, c) && c < |s| && s[c] == COLON
    requires SkipsTo(s, c + 1, v) && ReadsAs(s, v, m.doc, end)
    ensures PairReads(s, n, m, end)
  {
    hide ParseValue;
    hide StringAt;
    hide G.Meaning;
    hide G.UnitsMeaning;
  }

  predicate MemberReads(s: CStr, p: nat, m: G.Member) {
    && p + |G.MemberText(m)| <= |s|
    && At(s, Skip(s, p)) == QUOTE
    && ParseMember(s, Skip(s, p)).Good?
    && ParseMember(s, Skip(s, p)).value == G.Meaning(m.doc).(name := Some(G.UnitsMeaning(m.name)))
    && Skip(s, ParseMember(s, Skip(s, p)).end) == Skip(s, p + |G.MemberText(m)|)
  }

  lemma MemberParses(s: CStr, p: nat, m: G.Member)
    requires G.WellMember(m, false) && Occurs(s, p, G.MemberText(m)) && p + |G.MemberText(m)| <= |s|
    requires Between(At(s, p + |G.MemberText(m)|))
    ensures MemberReads(s, p, m)
    decreases m, 1
  {
    hide *;
    WellMemberIs(m);
    var q := p + |G.MemberText(m)|;
    var n, g, c, v, end := MemberParts(s, p, q, m);
    NameParses(s, p, q, m, n, g, c, v, end);
    MemberValueParses(s, p, q, m, n, g, c, v, end);
    MemberRead(s, p, q, m, n, end);
  }

  /** The parts of the member from p to q: the name stands at n, the blanks behind it at
      g, the colon at c, the value from v to end. */
  predicate Placed(s: CStr, p: nat, q: nat, m: G.Member, n: nat, g: nat, c: nat, v: nat, end: nat) {
    && n == p + |m.before| && g == n + |G.LiteralText(m.name, true)| && c == g + |m.gap| && v == c + 1 + |m.space|
    && end == v + |G.Text(m.doc)| && q == end + |m.after| <= |s|
    && Occurs(s, p, m.before) && Occurs(s, n, G.LiteralText(m.name, true)) && Occurs(s, g, m.gap) && s[c] == COLON
    && Occurs(s, c + 1, m.space) && Occurs(s, v, G.Text(m.doc)) && Occurs(s, end, m.after)
  }

  lemma MemberParts(s: CStr, p: nat, q: nat, m: G.Member) returns (n: nat, g: nat, c: nat, v: nat, end: nat)
    requires Occurs(s, p, G.MemberText(m)) && q == p + |G.MemberText(m)| <= |s|
    ensures Placed(s, p, q, m, n, g, c, v, end)
  {
    hide *;
    MemberOccurs(s, p, m);
    n := p + |m.before|;
    g := n + |G.LiteralText(m.name, true)|;
    c := g + |m.gap|;
    v := c + 1 + |m.space|;
    end := v + |G.Text(m.doc)|;
    IsPlaced(s, p, q, m, n, g, c, v, end);
  }

  lemma IsPlaced(s: CStr, p: nat, q: nat, m: G.Member, n: nat, g: nat, c: nat, v: nat, end: nat)
    requires n == p + |m.before| && g == n + |G.LiteralText(m.name, true)| && c == g + |m.gap| && v == c + 1 + |m.space|
    requires end == v + |G.Text(m.doc)| && q == end + |m.after| <= |s|
    requires Occurs(s, p, m.before) && Occurs(s, n, G.LiteralText(m.name, true)) && Occurs(s, g, m.gap) && s[c] == COLON
    requires Occurs(s, c + 1, m.space) && Occurs(s, v, G.Text(m.doc)) && Occurs(s, end, m.after)
    ensures Placed(s, p, q, m, n, g, c, v, end)
  {
    hide G.Text;
    hide G.LiteralText;
    hide Occurs;
  }

  lemma NameParses(s: CStr, p: nat, q: nat, m: G.Member, n: nat, g: nat, c: nat, v: nat, end: nat)
    requires Placed(s, p, q, m, n, g, c, v, end)
    requires G.Blank(m.before, false) && G.Blank(m.gap, false) && G.WellUnits(m.name, false)
    ensures SkipsTo(s, p, n) && NameReads(s, n, m.name, g) && SkipsTo(s, g, c) && c < |s| && s[c] == COLON
  {
    hide G.LiteralText;
    hide G.Text;
    hide Occurs;
    StringOccurs(s, n, m.name, true);
    BlankLeads(s, p, n, m.before);
    NameRead(s, n, g, m.name);
    BlankLeads(s, g, c, m.gap);
    hide NameReads;
    hide SkipsTo;
  }

  lemma MemberValueParses(s: CStr, p: nat, q: nat, m: G.Member, n: nat, g: nat, c: nat, v: nat, end: nat)
    requires Placed(s, p, q, m, n, g, c, v, end) && Between(At(s, q))
    requires G.Blank(m.space, false) && G.Blank(m.after, false) && G.Well(m.doc, false) && !G.IsOpen(m.doc)
    requires NameReads(s, n, m.name, g) && SkipsTo(s, g, c)
    ensures PairReads(s, n, m, end) && SkipsAlike(s, end, q)
    decreases m, 0
  {
    hide SkipsTo;
    hide SkipsAlike;
    hide NameReads;
    hide PairReads;
    hide ReadsAs;
    hide Between;
    hide Opens;
    hide Occurs;
    hide G.Text;
    hide G.Well;
    hide G.Blank;
    hide G.LiteralText;
    ValueParses(s, c + 1, v, end, q, m.space, m.doc, m.after);
    MemberStep(s, m, n, g, c, v, end);
  }

  lemma NameRead(s: CStr, n: nat, g: nat, us: seq<G.Unit>)
    requires G.WellUnits(us, false) && Occurs(s, n, G.LiteralText(us, true)) && g == n + |G.LiteralText(us, true)| <= |s|
    ensures NameReads(s, n, us, g)
  {
    StringOccurs(s, n, us, true);
    hide G.LiteralText;
    hide Occurs;
    hide StringAt;
    StringParses(s, n, us, true);
  }

  /** A nested value between blanks: it stands from i to end, and its blanks reach to q. */
  lemma ValueParses(s: CStr, p: nat, i: nat, end: nat, q: nat, before: CStr, d: G.Doc, after: CStr)
    requires G.Blank(before, false) && G.Blank(after, false) && G.Well(d, false) && !G.IsOpen(d)
    requires i == p + |before| && end == i + |G.Text(d)| && q == end + |after| <= |s|
    requires Occurs(s, p, before) && Occurs(s, i, G.Text(d)) && Occurs(s, end, after) && Between(At(s, q))
    ensures SkipsTo(s, p, i) && i < |s| && Opens(s[i]) && ReadsAs(s, i, d, end) && SkipsAlike(s, end, q)
    decreases d, 1
  {
    hide *;
    AfterValue(s, end, after);
    EndsHere(s, end, d);
    DocParses(s, i, d);
    DocOpens(s, i, d);
    OpensHere(s, i);
    BlankLeads(s, p, i, before);
    BlankTrails(s, end, q, after);
    ParsesIs(s, i, d, end);
  }

  lemma WellMemberIs(m: G.Member)
    requires G.WellMember(m, false)
    ensures G.Blank(m.before, false) && G.Blank(m.gap, false) && G.Blank(m.space, false) && G.Blank(m.after, false)
    ensures G.WellUnits(m.name, false) && G.Well(m.doc, false) && !G.IsOpen(m.doc)
  {
  }

  lemma MemberRead(s: CStr, p: nat, q: nat, m: G.Member, n: nat, end: nat)
    requires q == p + |G.MemberText(m)| <= |s| && SkipsTo(s, p, n) && PairReads(s, n, m, end) && SkipsAlike(s, end, q)
    ensures MemberReads(s, p, m)
  {
    hide ParseMember;
    hide G.MemberText;
    hide G.Meaning;
    hide G.UnitsMeaning;
  }

  lemma MembersSplit(s: CStr, p: nat, ms: seq<G.Member>)
    requires ms != [] && Occurs(s, p, G.MembersText(ms)) && p + |G.MembersText(ms)| <= |s|
    ensures var q := p + |G.MemberText(ms[0])|;
      && Occurs(s, p, G.MemberText(ms[0])) && q <= |s|
      && (|ms| == 1 ==> q == p + |G.MembersText(ms)|)
      && (|ms| > 1 ==> q < |s| && s[q] == COMMA && Occurs(s, q + 1, G.MembersText(ms[1..]))
                       && p + |G.MembersText(ms)| == q + 1 + |G.MembersText(ms[1..])|)
    ensures G.MembersMeaning(ms) == [Named(ms[0])] + G.MembersMeaning(ms[1..])
  {
    hide *;
    MembersTextIs(ms);
    if |ms| == 1 {
      return;
    }
    var first, rest := G.MemberText(ms[0]), G.MembersText(ms[1..]);
    OccursSplit(s, p, first, [44] + rest);
    CommaThen(s, p + |first|, rest);
    OccursWithin(s, p, first);
  }

  lemma MembersTextIs(ms: seq<G.Member>)
    requires ms != []
    ensures |ms| == 1 ==> G.MembersText(ms) == G.MemberText(ms[0])
    ensures |ms| > 1 ==> G.MembersText(ms) == G.MemberText(ms[0]) + ([44] + G.MembersText(ms[1..]))
    ensures G.MembersMeaning(ms) == [Named(ms[0])] + G.MembersMeaning(ms[1..])
  {
    hide G.MemberText;
    hide G.Meaning;
    hide G.UnitsMeaning;
    if |ms| == 1 {
      assert G.MemberText(ms[0]) + [] == G.MemberText(ms[0]);
    }
  }

  function Named(m: G.Member): Item { G.Meaning(m.doc).(name := Some(G.UnitsMeaning(m.name))) }

  lemma WellMembersTail(ms: seq<G.Member>)
    requires ms != [] && forall k :: 0 <= k < |ms| ==> G.WellMember(ms[k], false)
    ensures G.WellMember(ms[0], false) && forall k :: 0 <= k < |ms[1..]| ==> G.WellMember(ms[1..][k], false)
  {
  }

  predicate MembersRead(s: CStr, p: nat, ms: seq<G.Member>, kids: seq<Item>) {
    && p + |G.MembersText(ms)| < |s|
    && At(s, Skip(s, p)) == QUOTE
    && ParseMember(s, Skip(s, p)).Good?
    && ObjectRest(s, Skip(s, ParseMember(s, Skip(s, p)).end), kids + [ParseMember(s, Skip(s, p)).value])
       == Good(Branch(OBJECT, kids + G.MembersMeaning(ms)), p + |G.MembersText(ms)| + 1)
  }

  lemma LastMember(s: CStr, p: nat, m: G.Member, kids: seq<Item>)
    requires MemberReads(s, p, m) && At(s, p + |G.MemberText(m)|) == CLOSE_BRACE
    ensures ParseMember(s, Skip(s, p)).Good?
    ensures ObjectRest(s, Skip(s, ParseMember(s, Skip(s, p)).end), kids + [ParseMember(s, Skip(s, p)).value])
         == Good(Branch(OBJECT, kids + [Named(m)]), p + |G.MemberText(m)| + 1)
  {
    hide ParseMember;
    hide G.Meaning;
    SkipNothing(s, p + |G.MemberText(m)|);
    ObjectStop(s, p + |G.MemberText(m)|, kids + [Named(m)]);
  }

  lemma NextMember(s: CStr, p: nat, m: G.Member, ms: seq<G.Member>, kids: seq<Item>)
    requires MemberReads(s, p, m) && At(s, p + |G.MemberText(m)|) == COMMA
    requires MembersRead(s, p + |G.MemberText(m)| + 1, ms, kids + [Named(m)])
    ensures ParseMember(s, Skip(s, p)).Good?
    ensures ObjectRest(s, Skip(s, ParseMember(s, Skip(s, p)).end), kids + [ParseMember(s, Skip(s, p)).value])
         == Good(Branch(OBJECT, kids + [Named(m)] + G.MembersMeaning(ms)),
                 p + |G.MemberText(m)| + 1 + |G.MembersText(ms)| + 1)
  {
    hide ParseMember;
    hide ObjectRest;
    hide G.Meaning;
    hide G.UnitsMeaning;
    hide G.MembersMeaning;
    hide G.MembersText;
    hide G.MemberText;
    var q := p + |G.MemberText(m)|;
    SkipNothing(s, q);
    var r := ParseMember(s, Skip(s, q + 1));
    ObjectTurn(s, q, kids + [Named(m)], r.value, r.end);
  }

  lemma {:induction false} MembersParse(s: CStr, p: nat, ms: seq<G.Member>, kids: seq<Item>)
    requires ms != [] && forall k :: 0 <= k < |ms| ==> G.WellMember(ms[k], false)
    requires Occurs(s, p, G.MembersText(ms)) && p + |G.MembersText(ms)| < |s| && s[p + |G.MembersText(ms)|] == CLOSE_BRACE
    ensures MembersRead(s, p, ms, kids)
    decreases ms, 2
  {
    hide *;
    MembersSplit(s, p, ms);
    WellMembersTail(ms);
    var q := p + |G.MemberText(ms[0])|;
    BetweenIs(s, q);
    MemberParses(s, p, ms[0]);
    MemberReadsIs(s, p, ms[0]);
    if |ms| == 1 {
      LastMember(s, p, ms[0], kids);
      NoMembers(ms);
    } else {
      MembersParse(s, q + 1, ms[1..], kids + [Named(ms[0])]);
      NextMember(s, p, ms[0], ms[1..], kids);
      Assoc(kids, [Named(ms[0])], G.MembersMeaning(ms[1..]));
    }
    MembersReadIs(s, p, ms, kids);
  }

  lemma NoMembers(ms: seq<G.Member>)
    requires |ms| == 1
    ensures G.MembersMeaning(ms) == [Named(ms[0])]
  {
    assert ms[1..] == [];
  }

  lemma MemberReadsIs(s: CStr, p: nat, m: G.Member)
    requires MemberReads(s, p, m)
    ensures p <= |s| && At(s, Skip(s, p)) == QUOTE
  {
    hide ParseMember;
  }

  lemma MembersReadIs(s: CStr, p: nat, ms: seq<G.Member>, kids: seq<Item>)
    requires p + |G.MembersText(ms)| < |s| && At(s, Skip(s, p)) == QUOTE && ParseMember(s, Skip(s, p)).Good?
    requires ObjectRest(s, Skip(s, ParseMember(s, Skip(s, p)).end), kids + [ParseMember(s, Skip(s, p)).value])
          == Good(Branch(OBJECT, kids + G.MembersMeaning(ms)), p + |G.MembersText(ms)| + 1)
    ensures MembersRead(s, p, ms, kids)
  {
    hide ParseMember;
    hide ObjectRest;
  }

  lemma ObjectOccurs(s: CStr, i: nat, pad: CStr, ms: seq<G.Member>)
    requires Occurs(s, i, G.Text(G.Obj(pad, ms))) && i + |G.Text(G.Obj(pad, ms))| <= |s|
    ensures i < |s| && s[i] == OPEN_BRACE
    ensures var body := if ms == [] then pad else G.MembersText(ms);
      && Occurs(s, i + 1, body) && i + 1 + |body| < |s| && s[i + 1 + |body|] == CLOSE_BRACE
      && i + |G.Text(G.Obj(pad, ms))| == i + 1 + |body| + 1
  {
    hide G.MembersText;
    var body := if ms == [] then pad else G.MembersText(ms);
    OccursSplit(s, i, [123], body + [125]);
    OccursAt(s, i, [123], 0);
    OccursSplit(s, i + 1, body, [125]);
    OccursAt(s, i + 1 + |body|, [125], 0);
  }

  lemma EmptyObject(s: CStr, i: nat, pad: CStr)
    requires i < |s| && G.Blank(pad, false) && Occurs(s, i + 1, pad)
    requires i + 1 + |pad| < |s| && s[i + 1 + |pad|] == CLOSE_BRACE
    ensures ParseObject(s, i) == Good(Branch(OBJECT, []), i + 1 + |pad| + 1)
  {
    hide ParseMember;
    BlankSkips(s, i + 1, pad);
  }

  lemma ObjectParses(s: CStr, i: nat, pad: CStr, ms: seq<G.Member>)
    requires G.Well(G.Obj(pad, ms), false) && Occurs(s, i, G.Text(G.Obj(pad, ms))) && i + |G.Text(G.Obj(pad, ms))| <= |s|
    ensures Parses(s, i, G.Obj(pad, ms))
    decreases ms, 3
  {
    WellObjectIs(pad, ms);
    hide *;
    ObjectOccurs(s, i, pad, ms);
    if ms == [] {
      EmptyObjectParses(s, i, pad);
    } else {
      MembersParse(s, i + 1, ms, []);
      FullObjectParses(s, i, pad, ms);
    }
  }

  lemma EmptyObjectParses(s: CStr, i: nat, pad: CStr)
    requires i < |s| && s[i] == OPEN_BRACE && G.Blank(pad, false) && Occurs(s, i + 1, pad)
    requires i + 1 + |pad| < |s| && s[i + 1 + |pad|] == CLOSE_BRACE
    ensures Parses(s, i, G.Obj(pad, []))
  {
    EmptyObject(s, i, pad);
    DispatchObject(s, i);
    hide ParseValue;
  }

  lemma FullObjectParses(s: CStr, i: nat, pad: CStr, ms: seq<G.Member>)
    requires ms != [] && i < |s| && s[i] == OPEN_BRACE && MembersRead(s, i + 1, ms, [])
    ensures Parses(s, i, G.Obj(pad, ms))
  {
    hide *;
    var d, end := G.Obj(pad, ms), i + 1 + |G.MembersText(ms)| + 1;
    WholeObject(s, i, ms);
    DispatchObject(s, i);
    ObjectIs(pad, ms);
    ParsesAs(s, i, d, end);
  }

  lemma WellObjectIs(pad: CStr, ms: seq<G.Member>)
    requires G.Well(G.Obj(pad, ms), false)
    ensures G.Blank(pad, false) && forall k :: 0 <= k < |ms| ==> G.WellMember(ms[k], false)
  {
  }

  lemma WholeObject(s: CStr, i: nat, ms: seq<G.Member>)
    requires i < |s| && s[i] == OPEN_BRACE && MembersRead(s, i + 1, ms, [])
    ensures ParseObject(s, i) == Good(Branch(OBJECT, G.MembersMeaning(ms)), i + 1 + |G.MembersText(ms)| + 1)
    ensures i + 1 + |G.MembersText(ms)| + 1 <= |s|
  {
    hide ParseMember;
    hide ObjectRest;
    hide G.MembersText;
    hide G.MembersMeaning;
    var r := ParseMember(s, Skip(s, i + 1));
    ObjectStart(s, i, r.value, r.end);
    assert [] + [r.value] == [r.value] && [] + G.MembersMeaning(ms) == G.MembersMeaning(ms);
  }

  /** Wherever the text of a document stands, followed by nothing that could belong to
      it, the parser reads it as what it stands for and stops right behind it. */
  lemma {:induction false} DocParses(s: CStr, i: nat, d: G.Doc)
    requires G.Well(d, false) && Occurs(s, i, G.Text(d)) && i + |G.Text(d)| <= |s| && Ends(s, i + |G.Text(d)|, d)
    ensures Parses(s, i, d)
    decreases d, 0
  {
    match d {
      case Word(kind) => WordParses(s, i, kind);
      case Arr(pad, es) => ArrayParses(s, i, pad, es);
      case Obj(pad, ms) => ObjectParses(s, i, pad, ms);
      case _ => ScalarParses(s, i, d);
    }
  }

  // ----- whole texts

  lemma BackEnds(s: CStr, i: nat, d: G.Doc, back: CStr)
    requires i + |G.Text(d)| + |back| == |s| && s[i + |G.Text(d)|..] == back && G.Blank(back, false) && (G.IsOpen(d) ==> back == [])
    ensures Ends(s, i + |G.Text(d)|, d) && Occurs(s, i + |G.Text(d)|, back)
  {
    hide G.Text;
    if back != [] {
      assert s[i + |G.Text(d)|] == back[0];
    }
  }

  lemma SpelledParts(s: CStr, front: CStr, d: G.Doc, back: CStr)
    requires G.Spells(s, front, d, back, false)
    ensures Occurs(s, 0, front) && Occurs(s, |front|, G.Text(d)) && |front| + |G.Text(d)| + |back| == |s|
    ensures s[|front| + |G.Text(d)|..] == back && G.Well(d, false)
  {
    hide G.Text;
    hide G.Well;
    assert Occurs(s, 0, s);
    OccursSplit(s, 0, front, G.Text(d) + back);
    OccursSplit(s, |front|, G.Text(d), back);
  }

  /** The parser accepts every text that spells a document, and yields what the document
      stands for: with blanks in front and behind, and insisting on the end or not. */
  lemma AcceptsText(s: CStr, front: CStr, d: G.Doc, back: CStr, requireEnd: bool)
    requires G.Spells(s, front, d, back, false)
    ensures ParseText(s, requireEnd) == Good(G.Meaning(d), if requireEnd then |s| else |front| + |G.Text(d)|)
  {
    SpelledParts(s, front, d, back);
    var i := |front|;
    var end := i + |G.Text(d)|;
    BackEnds(s, i, d, back);
    DocParses(s, i, d);
    DocOpens(s, i, d);
    OpensHere(s, i);
    ParsesIs(s, i, d, end);
    hide ParseValue;
    hide G.Text;
    hide G.Meaning;
    hide Occurs;
    BlankLeads(s, 0, i, front);
    BlankTrails(s, end, |s|, back);
  }

  lemma FrontParts(s: CStr, front: CStr, d: G.Doc, rest: CStr)
    requires s == front + (G.Text(d) + rest)
    ensures Occurs(s, 0, front) && Occurs(s, |front|, G.Text(d)) && |front| + |G.Text(d)| <= |s|
    ensures At(s, |front| + |G.Text(d)|) == At(rest, 0) && (rest == [] ==> |front| + |G.Text(d)| == |s|)
  {
    hide G.Text;
    assert Occurs(s, 0, s);
    OccursSplit(s, 0, front, G.Text(d) + rest);
    OccursSplit(s, |front|, G.Text(d), rest);
  }

  /** Not insisting on the end, it does not matter what stands behind the document, as
      long as a number does not go on. */
  lemma AcceptsFront(s: CStr, front: CStr, d: G.Doc, rest: CStr)
    requires G.Blank(front, false) && G.Well(d, false) && s == front + (G.Text(d) + rest)
    requires G.IsOpen(d) ==> rest == []
    requires d.Num? ==> !(48 <= At(rest, 0) <= 57) && At(rest, 0) !in {46, 101, 69, 43, 45}
    ensures ParseText(s, false) == Good(G.Meaning(d), |front| + |G.Text(d)|)
  {
    var i := |front|;
    FrontParts(s, front, d, rest);
    DocParses(s, i, d);
    DocOpens(s, i, d);
    OpensHere(s, i);
    ParsesIs(s, i, d, i + |G.Text(d)|);
    hide ParseValue;
    hide G.Text;
    hide G.Meaning;
    hide G.Well;
    hide Occurs;
    BlankLeads(s, 0, i, front);
  }

  /** In particular every JSON text of the standard: any run of spaces, tabs, carriage
      returns and line feeds around the value and around everything in it. */
  lemma AcceptsStandard(s: CStr, front: CStr, d: G.Doc, back: CStr, requireEnd: bool)
    requires G.Spells(s, front, d, back, true)
    ensures ParseText(s, requireEnd) == Good(G.Meaning(d), if requireEnd then |s| else |front| + |G.Text(d)|)
  {
    G.StrictIsWide(d);
    hide ParseText;
    hide G.Text;
    hide G.Meaning;
    AcceptsText(s, front, d, back, requireEnd);
  }

  /** The document {"a" : 1}. */
  function BlankDoc(): G.Doc {
    G.Obj([], [G.Member([], [G.Plain(97)], [32], [32], G.Num(G.Numeral(false, false, [1], [], None)), [])])
  }

  lemma BlankDocWell()
    ensures G.Well(BlankDoc(), true) && !G.IsOpen(BlankDoc())
  {
  }

  lemma BlankDocIs()
    ensures G.Text(BlankDoc()) == [123, 34, 97, 34, 32, 58, 32, 49, 125]
  {
    OneIs();
    NameIs();
    var m := BlankDoc().members[0];
    MemberTextIs(m);
    ObjectIs([], [m]);
    MembersTextIs([m]);
    hide G.NumeralText;
    hide G.LiteralText;
    hide G.MembersText;
    hide G.MemberText;
    BlankMemberJoins();
  }

  lemma BlankMemberJoins()
    ensures [] + ([34, 97, 34] + ([32] + ([58] + ([32] + ([49] + []))))) == [34, 97, 34, 32, 58, 32, 49]
    ensures [123] + ([34, 97, 34, 32, 58, 32, 49] + [125]) == [123, 34, 97, 34, 32, 58, 32, 49, 125]
  {
  }

  lemma NameIs()
    ensures G.LiteralText([G.Plain(97)], true) == [34, 97, 34]
  {
    assert G.UnitsText([G.Plain(97)]) == [97];
  }

  lemma OneIs()
    ensures G.NumeralText(G.Numeral(false, false, [1], [], None)) == [49]
    ensures G.NumeralValue(G.Numeral(false, false, [1], [], None)) == 1.0
  {
    assert G.DigitsText([1]) == [49];
    assert G.Natural([1]) == 1 && G.Natural([]) == 0;
    assert G.Ten(0) == 1.0 && G.Scale(0) == 1.0;
  }

  lemma BlankDocMeans()
    ensures G.Meaning(BlankDoc()) == Item(6, None, 0, 0.0, None, [Item(3, None, 1, 1.0, Some([97]), [])])
  {
    OneIs();
    hide G.NumeralValue;
    var m := BlankDoc().members[0];
    assert G.UnitsMeaning([G.Plain(97)]) == [97];
    assert G.Meaning(m.doc) == Item(3, None, 1, 1.0, None, []);
    assert G.MembersMeaning([m]) == [Item(3, None, 1, 1.0, Some([97]), [])];
  }

  /** The blanks around the colon of {"a" : 1} are skipped. */
  lemma BlankExample(requireEnd: bool)
    ensures ParseText([123, 34, 97, 34, 32, 58, 32, 49, 125], requireEnd)
         == Good(Item(6, None, 0, 0.0, None, [Item(3, None, 1, 1.0, Some([97]), [])]), 9)
  {
    BlankDocWell();
    BlankDocIs();
    BlankDocMeans();
    hide G.Text;
    hide G.Meaning;
    hide G.Well;
    hide ParseText;
    var s: CStr := [123, 34, 97, 34, 32, 58, 32, 49, 125];
    assert [] + (s + []) == s;
    AcceptsStandard(s, [], BlankDoc(), [], requireEnd);
  }
}
