/**
 Where parsing fails, the text was right so far: what stands in front of the error
 position begins a text that the parser accepts.
 */
module Completions {
  import opened CText
  import opened Strings
  import opened Json
  import opened Progress
  import opened Scalars
  import opened Acceptance
  import opened Soundness
  import G = Grammar

  /** u goes on differently from s at e, and from i to its end it is body. */
  predicate Finishes(s: CStr, e: nat, u: CStr, i: nat, body: CStr) {
    && i <= e <= |s| && e <= |u| && u[..e] == s[..e]
    && i <= |u| && u[i..] == body
  }

  /** It is finished with a whole document. */
  predicate Finished(s: CStr, e: nat, u: CStr, i: nat, d: G.Doc) {
    G.Well(d, false) && !G.IsOpen(d) && Finishes(s, e, u, i, G.Text(d))
  }

  lemma FinishHere(s: CStr, e: nat, x: CStr)
    requires e <= |s|
    ensures Finishes(s, e, s[..e] + x, e, x)
  {
  }

  lemma FinishBefore(s: CStr, e: nat, u: CStr, p: nat, i: nat, a: CStr, body: CStr)
    requires Finishes(s, e, u, i, body) && Occurs(s, p, a) && i == p + |a|
    ensures Finishes(s, e, u, p, a + body)
  {
    assert u[p..] == u[p..i] + u[i..];
    forall k | p <= k < i
      ensures u[k] == s[k]
    {
      assert u[..e][k] == s[..e][k];
    }
    assert u[p..i] == s[p..i];
  }

  lemma FinishBehind(s: CStr, e: nat, u: CStr, i: nat, body: CStr, x: CStr)
    requires Finishes(s, e, u, i, body)
    ensures Finishes(s, e, u + x, i, body + x)
  {
    assert (u + x)[..e] == u[..e];
  }

  lemma Marks(s: CStr, p: nat)
    requires p < |s|
    ensures s[p] == COMMA ==> Occurs(s, p, [44])
    ensures s[p] == COLON ==> Occurs(s, p, [58])
    ensures s[p] == OPEN_BRACKET ==> Occurs(s, p, [91])
    ensures s[p] == OPEN_BRACE ==> Occurs(s, p, [123])
  {
  }

  // ----- elements

  function ArrayTail(es: seq<G.Element>): CStr {
    if es == [] then [93] else [44] + (G.ElementsText(es) + [93])
  }

  lemma ElementTail(b: CStr, d: G.Doc, a: CStr, es: seq<G.Element>)
    ensures b + (G.Text(d) + (a + ArrayTail(es))) == G.ElementsText([G.Element(b, d, a)] + es) + [93]
  {
    var e := G.Element(b, d, a);
    var text, rest := G.ElementText(e), G.ElementsText(es);
    assert ([e] + es)[1..] == es;
    ElementsTextIs([e] + es);
    assert text == b + (G.Text(d) + a);
    hide *;
    Assoc(b, G.Text(d) + a, ArrayTail(es));
    Assoc(G.Text(d), a, ArrayTail(es));
    Tails(es, rest);
    Assoc(text, [44] + rest, [93]);
    Assoc([44], rest, [93]);
  }

  lemma Tails(es: seq<G.Element>, rest: CStr)
    requires rest == G.ElementsText(es)
    ensures ArrayTail(es) == if es == [] then [93] else [44] + (rest + [93])
  {
  }

  /** Behind an element that is there as a whole. */
  lemma FinishElement(s: CStr, e: nat, u: CStr, p: nat, i: nat, end: nat, q: nat, d: G.Doc, es: seq<G.Element>)
    requires SkipsTo(s, p, i) && Stands(s, i, d, end) && SkipsTo(s, end, q) && !G.IsOpen(d)
    requires Finishes(s, e, u, q, ArrayTail(es))
    ensures Finishes(s, e, u, p, G.ElementsText([G.Element(s[p..i], d, s[end..q])] + es) + [93])
    ensures G.WellElement(G.Element(s[p..i], d, s[end..q]), false)
  {
    BlanksSkipped(s, p);
    BlanksSkipped(s, end);
    hide *;
    StandsIs(s, i, d, end);
    var b, a := s[p..i], s[end..q];
    FinishBefore(s, e, u, end, q, a, ArrayTail(es));
    FinishBefore(s, e, u, i, end, G.Text(d), a + ArrayTail(es));
    FinishBefore(s, e, u, p, i, b, G.Text(d) + (a + ArrayTail(es)));
    ElementTail(b, d, a, es);
    WellParts(b, d, a);
  }

  /** In an element. */
  lemma FinishInElement(s: CStr, e: nat, u: CStr, p: nat, i: nat, d: G.Doc)
    requires SkipsTo(s, p, i) && Finished(s, e, u, i, d)
    ensures Finishes(s, e, u + [93], p, G.ElementsText([G.Element(s[p..i], d, [])]) + [93])
    ensures G.WellElement(G.Element(s[p..i], d, []), false)
  {
    BlanksSkipped(s, p);
    hide *;
    FinishedIs(s, e, u, i, d);
    var b := s[p..i];
    FinishBehind(s, e, u, i, G.Text(d), [93]);
    FinishBefore(s, e, u + [93], p, i, b, G.Text(d) + [93]);
    ElementTail(b, d, [], []);
    LastTail();
    assert [G.Element(b, d, [])] + [] == [G.Element(b, d, [])];
    NoBlank();
    WellParts(b, d, []);
  }

  lemma LastTail()
    ensures [] + ArrayTail([]) == [93]
  {
  }

  lemma NoBlank()
    ensures G.Blank([], false)
  {
  }

  lemma FinishedIs(s: CStr, e: nat, u: CStr, i: nat, d: G.Doc)
    ensures Finished(s, e, u, i, d) <==> G.Well(d, false) && !G.IsOpen(d) && Finishes(s, e, u, i, G.Text(d))
  {
  }

  /** A string that the end of the text cuts short is finished with a quote. */
  lemma FinishOpen(s: CStr, i: nat, d: G.Doc) returns (f: G.Doc)
    requires Stands(s, i, d, |s|) && G.IsOpen(d)
    ensures Finished(s, |s|, s + [34], i, f)
  {
    f := G.Str(d.units, true);
    hide G.UnitsText;
    hide G.WellUnits;
    var u := s + [34];
    assert u[..|s|] == s[..|s|];
    assert u[i..] == s[i..] + [34];
    assert s[i..] == s[i..i + |G.Text(d)|];
    var text := G.UnitsText(d.units);
    assert [34] + (text + []) + [34] == [34] + (text + [34]);
  }

  /** The loop of parse_array fails, behind an opening bracket or a comma at p. */
  predicate LoopFails(s: CStr, p: nat, kids: seq<Item>, e: nat) {
    && p <= |s| && WellEscaped(s, p)
    && match ParseValue(s, Skip(s, p))
       case Bad(ep) => ep == e
       case Good(kid, end) => ArrayRest(s, Skip(s, end), kids + [kid]) == Bad(e)
       case Undefined => false
  }

  /** The value at i is read to its end; the blanks behind it reach to q. */
  predicate ValueGoes(s: CStr, i: nat, end: nat, q: nat) {
    && i <= |s| && WellEscaped(s, i) && ParseValue(s, i).Good? && ParseValue(s, i).end == end
    && i < end <= |s| && SkipsTo(s, end, q) && WellEscaped(s, q)
  }

  predicate ValueFails(s: CStr, i: nat, e: nat) {
    i <= |s| && WellEscaped(s, i) && ParseValue(s, i) == Bad(e)
  }

  lemma ValueGoesOn(s: CStr, i: nat)
    requires i <= |s| && WellEscaped(s, i) && ParseValue(s, i).Good?
    ensures ValueGoes(s, i, ParseValue(s, i).end, Skip(s, ParseValue(s, i).end))
  {
    hide ParseValue;
    hide WellEscaped;
    ParseValueDefined(s, i);
    WellEscapedSkip(s, ParseValue(s, i).end);
  }

  lemma FailParts(s: CStr, p: nat, kids: seq<Item>, e: nat) returns (i: nat, end: nat, q: nat, more: seq<Item>)
    requires LoopFails(s, p, kids, e)
    ensures SkipsTo(s, p, i)
    ensures ValueFails(s, i, e) || ValueGoes(s, i, end, q)
    ensures !ValueFails(s, i, e) ==> q == e || (p <= q < |s| && s[q] == COMMA && LoopFails(s, q + 1, more, e))
  {
    hide ParseValue;
    hide WellEscaped;
    i := Skip(s, p);
    WellEscapedSkip(s, p);
    end, q, more := 0, 0, kids;
    if ParseValue(s, i).Good? {
      ValueGoesOn(s, i);
      end := ParseValue(s, i).end;
      q := Skip(s, end);
      more := kids + [ParseValue(s, i).value];
      if At(s, q) == COMMA {
        PastComma(s, q);
      }
    }
  }

  lemma {:induction false} ElementsFinish(s: CStr, p: nat, kids: seq<Item>, e: nat) returns (u: CStr, es: seq<G.Element>)
    requires p <= |s| && LoopFails(s, p, kids, e)
    ensures Finishes(s, e, u, p, G.ElementsText(es) + [93])
    ensures es != [] && forall k :: 0 <= k < |es| ==> G.WellElement(es[k], false)
    decreases |s| - p, 2
  {
    hide *;
    var i, end, q, more := FailParts(s, p, kids, e);
    SkipsIs(s, p, i);
    if ValueFails(s, i, e) {
      var d;
      u, d := ValueFinishes(s, i, e);
      FinishInElement(s, e, u, p, i, d);
      u, es := u + [93], [G.Element(s[p..i], d, [])];
    } else {
      ValueGoesIs(s, i, end, q);
      var d := ValueSpelled(s, i);
      if q == e {
        u, es := ElementsStop(s, p, i, end, q, d);
      } else {
        var rest;
        u, rest := ElementsFinish(s, q + 1, more, e);
        u, es := ElementsMore(s, e, u, p, i, end, q, d, rest);
      }
    }
  }

  lemma ValueGoesIs(s: CStr, i: nat, end: nat, q: nat)
    requires ValueGoes(s, i, end, q)
    ensures i <= |s| && WellEscaped(s, i) && ParseValue(s, i).Good? && ParseValue(s, i).end == end
    ensures i < end <= |s| && SkipsTo(s, end, q) && end <= q
  {
    hide ParseValue;
    hide WellEscaped;
  }

  /** Nothing that could stand behind an element. */
  lemma ElementsStop(s: CStr, p: nat, i: nat, end: nat, q: nat, d: G.Doc) returns (u: CStr, es: seq<G.Element>)
    requires SkipsTo(s, p, i) && Stands(s, i, d, end) && SkipsTo(s, end, q)
    ensures Finishes(s, q, u, p, G.ElementsText(es) + [93]) && es != [] && forall k :: 0 <= k < |es| ==> G.WellElement(es[k], false)
  {
    hide *;
    StandsIs(s, i, d, end);
    SkipsIs(s, p, i);
    SkipsIs(s, end, q);
    if G.IsOpen(d) {
      var f := FinishOpen(s, i, d);
      FinishInElement(s, |s|, s + [34], p, i, f);
      u, es := s + [34] + [93], [G.Element(s[p..i], f, [])];
    } else {
      LastTail();
      assert [] + ArrayTail([]) == ArrayTail([]);
      u := s[..q] + [93];
      FinishHere(s, q, [93]);
      FinishElement(s, q, u, p, i, end, q, d, []);
      es := [G.Element(s[p..i], d, s[end..q])] + [];
    }
  }

  lemma ElementsMore(s: CStr, e: nat, u: CStr, p: nat, i: nat, end: nat, q: nat, d: G.Doc, rest: seq<G.Element>)
    returns (w: CStr, es: seq<G.Element>)
    requires SkipsTo(s, p, i) && Stands(s, i, d, end) && SkipsTo(s, end, q) && q < |s| && s[q] == COMMA
    requires Finishes(s, e, u, q + 1, G.ElementsText(rest) + [93]) && rest != []
    requires forall k :: 0 <= k < |rest| ==> G.WellElement(rest[k], false)
    ensures Finishes(s, e, w, p, G.ElementsText(es) + [93]) && es != [] && forall k :: 0 <= k < |es| ==> G.WellElement(es[k], false)
  {
    hide *;
    StandsIs(s, i, d, end);
    SkipsIs(s, p, i);
    SkipsIs(s, end, q);
    Marks(s, q);
    FinishBefore(s, e, u, q, q + 1, [44], G.ElementsText(rest) + [93]);
    Tails(rest, G.ElementsText(rest));
    FinishElement(s, e, u, p, i, end, q, d, rest);
    w, es := u, [G.Element(s[p..i], d, s[end..q])] + rest;
  }

  lemma ArrayFails(s: CStr, i: nat, e: nat)
    requires i < |s| && s[i] == OPEN_BRACKET && WellEscaped(s, i) && ParseArray(s, i) == Bad(e)
    ensures LoopFails(s, i + 1, [], e)
  {
    hide ParseValue;
    hide ArrayRest;
    Inside(s, i);
    hide WellEscaped;
    ParseValueDefinedAt(s, i + 1);
    var v := ParseValue(s, Skip(s, i + 1));
    if v.Good? {
      assert [] + [v.value] == [v.value];
    }
  }

  lemma ParseValueDefinedAt(s: CStr, p: nat)
    requires p <= |s| && WellEscaped(s, p)
    ensures !ParseValue(s, Skip(s, p)).Undefined?
  {
    WellEscapedSkip(s, p);
    ParseValueDefined(s, Skip(s, p));
  }

  lemma ArrayFinishes(s: CStr, i: nat, e: nat) returns (u: CStr, d: G.Doc)
    requires i < |s| && s[i] == OPEN_BRACKET && WellEscaped(s, i) && ParseArray(s, i) == Bad(e)
    ensures Finished(s, e, u, i, d)
    decreases |s| - i, 0
  {
    hide *;
    ArrayFails(s, i, e);
    var es;
    u, es := ElementsFinish(s, i + 1, [], e);
    Marks(s, i);
    FinishBefore(s, e, u, i, i + 1, [91], G.ElementsText(es) + [93]);
    d := G.Arr([], es);
    WholeArrayText(es);
    FinishedIs(s, e, u, i, d);
  }

  lemma WholeArrayText(es: seq<G.Element>)
    requires es != [] && forall k :: 0 <= k < |es| ==> G.WellElement(es[k], false)
    ensures G.Text(G.Arr([], es)) == [91] + (G.ElementsText(es) + [93]) && G.Well(G.Arr([], es), false) && !G.IsOpen(G.Arr([], es))
  {
    hide G.ElementsText;
    hide G.WellElement;
  }

  // ----- members

  function ObjectTail(ms: seq<G.Member>): CStr {
    if ms == [] then [125] else [44] + (G.MembersText(ms) + [125])
  }

  lemma MemberTails(ms: seq<G.Member>, rest: CStr)
    requires rest == G.MembersText(ms)
    ensures ObjectTail(ms) == if ms == [] then [125] else [44] + (rest + [125])
  {
  }

  lemma MemberTail(m: G.Member, ms: seq<G.Member>)
    ensures m.before + (G.LiteralText(m.name, true) + (m.gap + ([58] + (m.space + (G.Text(m.doc) + (m.after + ObjectTail(ms)))))))
         == G.MembersText([m] + ms) + [125]
  {
    var all := [m] + ms;
    assert all[1..] == ms;
    MembersTextIs(all);
    var name, text, rest, tail := G.LiteralText(m.name, true), G.Text(m.doc), G.MembersText(ms), ObjectTail(ms);
    MemberTextIs(m);
    MemberTails(ms, rest);
    hide *;
    Assoc(text, m.after, tail);
    Assoc(m.space, text + m.after, tail);
    Assoc([58], m.space + (text + m.after), tail);
    Assoc(m.gap, [58] + (m.space + (text + m.after)), tail);
    Assoc(name, m.gap + ([58] + (m.space + (text + m.after))), tail);
    Assoc(m.before, name + (m.gap + ([58] + (m.space + (text + m.after)))), tail);
    Assoc(G.MemberText(m), [44] + rest, [125]);
    Assoc([44], rest, [125]);
  }

  /** A name between blanks: it stands at n, and the blanks behind it from g to c. */
  predicate NamePlaced(s: CStr, p: nat, n: nat, g: nat, c: nat, us: seq<G.Unit>) {
    && SkipsTo(s, p, n) && G.WellUnits(us, false) && Occurs(s, n, G.LiteralText(us, true))
    && g == n + |G.LiteralText(us, true)| <= |s| && SkipsTo(s, g, c)
  }

  lemma NamePlacedIs(s: CStr, p: nat, n: nat, g: nat, c: nat, us: seq<G.Unit>)
    requires NamePlaced(s, p, n, g, c, us)
    ensures G.WellUnits(us, false) && Occurs(s, n, G.LiteralText(us, true))
    ensures p <= n <= g == n + |G.LiteralText(us, true)| <= c <= |s| && SkipsTo(s, p, n) && SkipsTo(s, g, c)
    ensures G.Blank(s[p..n], false) && Occurs(s, p, s[p..n]) && G.Blank(s[g..c], false) && Occurs(s, g, s[g..c])
  {
    BlanksSkipped(s, p);
    BlanksSkipped(s, g);
    hide G.LiteralText;
    hide Occurs;
    hide G.WellUnits;
    hide G.Blank;
  }

  lemma FinishName(s: CStr, e: nat, u: CStr, p: nat, n: nat, g: nat, c: nat, us: seq<G.Unit>, rest: CStr)
    requires NamePlaced(s, p, n, g, c, us) && Finishes(s, e, u, c, rest)
    ensures p <= n <= g <= c <= |s| && Finishes(s, e, u, p, s[p..n] + (G.LiteralText(us, true) + (s[g..c] + rest)))
  {
    hide *;
    NamePlacedIs(s, p, n, g, c, us);
    FinishBefore(s, e, u, g, c, s[g..c], rest);
    FinishBefore(s, e, u, n, g, G.LiteralText(us, true), s[g..c] + rest);
    FinishBefore(s, e, u, p, n, s[p..n], G.LiteralText(us, true) + (s[g..c] + rest));
  }

  /** Behind a member that is there as a whole. */
  lemma FinishMember(s: CStr, e: nat, u: CStr, p: nat, n: nat, g: nat, c: nat, v: nat, end: nat, q: nat,
                     us: seq<G.Unit>, d: G.Doc, ms: seq<G.Member>) returns (m: G.Member)
    requires NamePlaced(s, p, n, g, c, us) && c < |s| && s[c] == COLON && SkipsTo(s, c + 1, v)
    requires Stands(s, v, d, end) && SkipsTo(s, end, q) && !G.IsOpen(d) && Finishes(s, e, u, q, ObjectTail(ms))
    ensures Finishes(s, e, u, p, G.MembersText([m] + ms) + [125]) && G.WellMember(m, false)
  {
    hide *;
    NamePlacedIs(s, p, n, g, c, us);
    StandsIs(s, v, d, end);
    SkipsIs(s, c + 1, v);
    SkipsIs(s, end, q);
    Marks(s, c);
    SkipSlices(s, c + 1, v);
    SkipSlices(s, end, q);
    var a, sp, tail := s[end..q], s[c + 1..v], ObjectTail(ms);
    FinishBefore(s, e, u, end, q, a, tail);
    FinishBefore(s, e, u, v, end, G.Text(d), a + tail);
    FinishBefore(s, e, u, c + 1, v, sp, G.Text(d) + (a + tail));
    FinishBefore(s, e, u, c, c + 1, [58], sp + (G.Text(d) + (a + tail)));
    FinishName(s, e, u, p, n, g, c, us, [58] + (sp + (G.Text(d) + (a + tail))));
    m := G.Member(s[p..n], us, s[g..c], sp, d, a);
    MemberTail(m, ms);
    WellMemberParts(s[p..n], us, s[g..c], sp, d, a);
  }

  /** In the value of a member. */
  lemma FinishInMember(s: CStr, e: nat, u: CStr, p: nat, n: nat, g: nat, c: nat, v: nat, us: seq<G.Unit>, d: G.Doc) returns (m: G.Member)
    requires NamePlaced(s, p, n, g, c, us) && c < |s| && s[c] == COLON && SkipsTo(s, c + 1, v) && Finished(s, e, u, v, d)
    ensures Finishes(s, e, u + [125], p, G.MembersText([m]) + [125]) && G.WellMember(m, false)
  {
    hide *;
    NamePlacedIs(s, p, n, g, c, us);
    FinishedIs(s, e, u, v, d);
    Marks(s, c);
    SkipSlices(s, c + 1, v);
    var sp := s[c + 1..v];
    FinishBehind(s, e, u, v, G.Text(d), [125]);
    FinishBefore(s, e, u + [125], c + 1, v, sp, G.Text(d) + [125]);
    FinishBefore(s, e, u + [125], c, c + 1, [58], sp + (G.Text(d) + [125]));
    FinishName(s, e, u + [125], p, n, g, c, us, [58] + (sp + (G.Text(d) + [125])));
    m := G.Member(s[p..n], us, s[g..c], sp, d, []);
    MemberTail(m, []);
    LastMemberTail();
    assert [m] + [] == [m];
    NoBlank();
    WellMemberParts(s[p..n], us, s[g..c], sp, d, []);
  }

  lemma LastMemberTail()
    ensures [] + ObjectTail([]) == [125]
  {
  }

  /** A null for the value. */
  function NullTail(): CStr { [58] + ([] + (G.Text(G.Word(NULL)) + [125])) }

  lemma NullMember(b: CStr, us: seq<G.Unit>, g: CStr) returns (m: G.Member)
    requires G.Blank(b, false) && G.Blank(g, false) && G.WellUnits(us, false)
    ensures b + (G.LiteralText(us, true) + (g + NullTail())) == G.MembersText([m]) + [125] && G.WellMember(m, false)
  {
    m := G.Member(b, us, g, [], G.Word(NULL), []);
    MemberTail(m, []);
    LastMemberTail();
    assert [m] + [] == [m];
    hide G.Text;
    hide G.LiteralText;
    hide G.MembersText;
  }

  /** Behind the name, where the colon is missing. */
  lemma FinishColon(s: CStr, p: nat, n: nat, g: nat, c: nat, us: seq<G.Unit>) returns (u: CStr, m: G.Member)
    requires NamePlaced(s, p, n, g, c, us)
    ensures Finishes(s, c, u, p, G.MembersText([m]) + [125]) && G.WellMember(m, false)
  {
    hide *;
    NamePlacedIs(s, p, n, g, c, us);
    u := s[..c] + NullTail();
    FinishHere(s, c, NullTail());
    FinishName(s, c, u, p, n, g, c, us, NullTail());
    m := NullMember(s[p..n], us, s[g..c]);
  }

  /** In a name that the end of the text cuts short. */
  lemma FinishCut(s: CStr, p: nat, n: nat, us: seq<G.Unit>) returns (u: CStr, m: G.Member)
    requires SkipsTo(s, p, n) && G.WellUnits(us, false) && Occurs(s, n, G.LiteralText(us, false))
    requires n + |G.LiteralText(us, false)| == |s|
    ensures Finishes(s, |s|, u, p, G.MembersText([m]) + [125]) && G.WellMember(m, false)
  {
    hide *;
    SkipSlices(s, p, n);
    var rest := [34] + ([] + NullTail());
    u := s[..|s|] + rest;
    FinishHere(s, |s|, rest);
    FinishBefore(s, |s|, u, n, |s|, G.LiteralText(us, false), rest);
    Assoc(G.LiteralText(us, false), [34], [] + NullTail());
    QuoteCloses(us);
    FinishBefore(s, |s|, u, p, n, s[p..n], G.LiteralText(us, true) + ([] + NullTail()));
    NoBlank();
    m := NullMember(s[p..n], us, []);
  }

  lemma QuoteCloses(us: seq<G.Unit>)
    ensures G.LiteralText(us, false) + [34] == G.LiteralText(us, true)
  {
    var text := G.UnitsText(us);
    hide G.UnitsText;
    assert [34] + (text + []) + [34] == [34] + (text + [34]);
  }

  /** Where the name is missing. */
  lemma FinishNoName(s: CStr, p: nat, n: nat) returns (u: CStr, m: G.Member)
    requires SkipsTo(s, p, n)
    ensures Finishes(s, n, u, p, G.MembersText([m]) + [125]) && G.WellMember(m, false)
  {
    hide *;
    SkipSlices(s, p, n);
    var rest := G.LiteralText([], true) + ([] + NullTail());
    u := s[..n] + rest;
    FinishHere(s, n, rest);
    FinishBefore(s, n, u, p, n, s[p..n], rest);
    NoBlank();
    NoUnitsWell();
    m := NullMember(s[p..n], [], []);
  }

  lemma NoUnitsWell()
    ensures G.WellUnits([], false)
  {
  }

  predicate MemberFails(s: CStr, n: nat, e: nat) { n <= |s| && WellEscaped(s, n) && ParseMember(s, n) == Bad(e) }

  /** What can be wrong with a member. */
  lemma MemberFailure(s: CStr, n: nat, e: nat) returns (c: nat, v: nat)
    requires MemberFails(s, n, e)
    ensures n <= |s| && WellEscaped(s, n)
    ensures (n < |s| && s[n] == QUOTE && StringAt(s, n).Good? && SkipsTo(s, StringAt(s, n).end, c)) || e == n
    ensures e != n ==> e == c || (c < |s| && s[c] == COLON && SkipsTo(s, c + 1, v) && n < v && ValueFails(s, v, e))
    ensures n <= e <= |s|
  {
    hide ParseValue;
    c, v := 0, 0;
    if StringAt(s, n).Good? {
      StringNeedsQuote(s, n);
      hide StringAt;
      var g := StringAt(s, n).end;
      c := Skip(s, g);
      if c < |s| && s[c] == COLON {
        v := Skip(s, c + 1);
        AfterName(s, n, g, c, v);
      }
    }
  }

  lemma MemberFinishes(s: CStr, p: nat, n: nat, e: nat) returns (u: CStr, m: G.Member)
    requires SkipsTo(s, p, n) && MemberFails(s, n, e)
    ensures Finishes(s, e, u, p, G.MembersText([m]) + [125]) && G.WellMember(m, false)
    decreases |s| - n, 2
  {
    hide *;
    var c, v := MemberFailure(s, n, e);
    if e == n {
      u, m := FinishNoName(s, p, n);
    } else {
      var us, closed := StringSpelled(s, n);
      var g := StringAt(s, n).end;
      SkipsIs(s, g, c);
      if !closed {
        u, m := FinishCut(s, p, n, us);
      } else {
        NamePlacedHere(s, p, n, g, c, us);
        if e == c {
          u, m := FinishColon(s, p, n, g, c, us);
        } else {
          var d;
          SkipsIs(s, c + 1, v);
          u, d := ValueFinishes(s, v, e);
          m := FinishInMember(s, e, u, p, n, g, c, v, us, d);
          u := u + [125];
        }
      }
    }
  }

  lemma NamePlacedHere(s: CStr, p: nat, n: nat, g: nat, c: nat, us: seq<G.Unit>)
    requires SkipsTo(s, p, n) && G.WellUnits(us, false) && Occurs(s, n, G.LiteralText(us, true))
    requires g == n + |G.LiteralText(us, true)| <= |s| && SkipsTo(s, g, c)
    ensures NamePlaced(s, p, n, g, c, us)
  {
  }

  /** The loop of parse_object fails, behind an opening brace or a comma at p. */
  predicate MemberLoopFails(s: CStr, p: nat, kids: seq<Item>, e: nat) {
    && p <= |s| && WellEscaped(s, p)
    && match ParseMember(s, Skip(s, p))
       case Bad(ep) => ep == e
       case Good(kid, end) => ObjectRest(s, Skip(s, end), kids + [kid]) == Bad(e)
       case Undefined => false
  }

  /** The member at n is read to its end; the blanks behind it reach to q. */
  predicate MemberGoes(s: CStr, n: nat, end: nat, q: nat) {
    && n <= |s| && WellEscaped(s, n) && ParseMember(s, n).Good? && ParseMember(s, n).end == end
    && n < end <= |s| && SkipsTo(s, end, q) && WellEscaped(s, q)
  }

  lemma MemberFailParts(s: CStr, p: nat, kids: seq<Item>, e: nat) returns (n: nat, end: nat, q: nat, more: seq<Item>)
    requires MemberLoopFails(s, p, kids, e)
    ensures SkipsTo(s, p, n)
    ensures MemberFails(s, n, e) || MemberGoes(s, n, end, q)
    ensures !MemberFails(s, n, e) ==> q == e || (p <= q < |s| && s[q] == COMMA && MemberLoopFails(s, q + 1, more, e))
  {
    hide ParseMember;
    hide WellEscaped;
    n := Skip(s, p);
    WellEscapedSkip(s, p);
    end, q, more := 0, 0, kids;
    if ParseMember(s, n).Good? {
      ParseMemberDefined(s, n);
      end := ParseMember(s, n).end;
      q := Skip(s, end);
      WellEscapedSkip(s, end);
      more := kids + [ParseMember(s, n).value];
      if At(s, q) == COMMA {
        PastComma(s, q);
      }
    }
  }

  lemma MemberGoesParts(s: CStr, p: nat, n: nat, end: nat, q: nat)
    returns (g: nat, c: nat, v: nat, us: seq<G.Unit>, d: G.Doc)
    requires SkipsTo(s, p, n) && MemberGoes(s, n, end, q)
    ensures NamePlaced(s, p, n, g, c, us) && c < |s| && s[c] == COLON && SkipsTo(s, c + 1, v)
    ensures Stands(s, v, d, end) && SkipsTo(s, end, q) && n < end <= q
  {
    hide *;
    MemberGoesIs(s, n, end, q);
    MemberGoesOn(s, n);
    g := StringAt(s, n).end;
    var closed;
    us, closed := StringSpelled(s, n);
    c := Skip(s, g);
    v := Skip(s, c + 1);
    NameCloses(s, n, us, closed, c);
    AfterName(s, n, g, c, v);
    NamePlacedHere(s, p, n, g, c, us);
    d := ValueSpelled(s, v);
  }

  lemma MemberGoesIs(s: CStr, n: nat, end: nat, q: nat)
    requires MemberGoes(s, n, end, q)
    ensures n <= |s| && WellEscaped(s, n) && ParseMember(s, n).Good? && ParseMember(s, n).end == end
    ensures n < end <= q <= |s| && SkipsTo(s, end, q)
  {
    hide ParseMember;
    hide WellEscaped;
  }

  lemma {:induction false} MembersFinish(s: CStr, p: nat, kids: seq<Item>, e: nat) returns (u: CStr, ms: seq<G.Member>)
    requires p <= |s| && MemberLoopFails(s, p, kids, e)
    ensures Finishes(s, e, u, p, G.MembersText(ms) + [125])
    ensures ms != [] && forall k :: 0 <= k < |ms| ==> G.WellMember(ms[k], false)
    decreases |s| - p, 3
  {
    hide *;
    var n, end, q, more := MemberFailParts(s, p, kids, e);
    SkipsIs(s, p, n);
    if MemberFails(s, n, e) {
      var m;
      u, m := MemberFinishes(s, p, n, e);
      ms := [m];
    } else {
      var g, c, v, us, d := MemberGoesParts(s, p, n, end, q);
      if q == e {
        u, ms := MembersStop(s, p, n, g, c, v, end, q, us, d);
      } else {
        var rest;
        u, rest := MembersFinish(s, q + 1, more, e);
        StandsIs(s, v, d, end);
        Marks(s, q);
        FinishBefore(s, e, u, q, q + 1, [44], G.MembersText(rest) + [125]);
        MemberTails(rest, G.MembersText(rest));
        var m := FinishMember(s, e, u, p, n, g, c, v, end, q, us, d, rest);
        ms := [m] + rest;
      }
    }
  }

  /** Nothing that could stand behind a member. */
  lemma MembersStop(s: CStr, p: nat, n: nat, g: nat, c: nat, v: nat, end: nat, q: nat, us: seq<G.Unit>, d: G.Doc)
    returns (u: CStr, ms: seq<G.Member>)
    requires NamePlaced(s, p, n, g, c, us) && c < |s| && s[c] == COLON && SkipsTo(s, c + 1, v)
    requires Stands(s, v, d, end) && SkipsTo(s, end, q)
    ensures Finishes(s, q, u, p, G.MembersText(ms) + [125]) && ms != [] && forall k :: 0 <= k < |ms| ==> G.WellMember(ms[k], false)
  {
    hide *;
    StandsIs(s, v, d, end);
    SkipsIs(s, end, q);
    if G.IsOpen(d) {
      var f := FinishOpen(s, v, d);
      var m := FinishInMember(s, |s|, s + [34], p, n, g, c, v, us, f);
      u, ms := s + [34] + [125], [m];
    } else {
      LastMemberTail();
      assert [] + ObjectTail([]) == ObjectTail([]);
      u := s[..q] + [125];
      FinishHere(s, q, [125]);
      var m := FinishMember(s, q, u, p, n, g, c, v, end, q, us, d, []);
      assert [m] + [] == [m];
      ms := [m];
    }
  }

  lemma ObjectFails(s: CStr, i: nat, e: nat)
    requires i < |s| && s[i] == OPEN_BRACE && WellEscaped(s, i) && ParseObject(s, i) == Bad(e)
    ensures MemberLoopFails(s, i + 1, [], e)
  {
    hide ParseMember;
    hide ObjectRest;
    Inside(s, i);
    hide WellEscaped;
    WellEscapedSkip(s, i + 1);
    ParseMemberDefined(s, Skip(s, i + 1));
    var v := ParseMember(s, Skip(s, i + 1));
    if v.Good? {
      assert [] + [v.value] == [v.value];
    }
  }

  lemma ObjectFinishes(s: CStr, i: nat, e: nat) returns (u: CStr, d: G.Doc)
    requires i < |s| && s[i] == OPEN_BRACE && WellEscaped(s, i) && ParseObject(s, i) == Bad(e)
    ensures Finished(s, e, u, i, d)
    decreases |s| - i, 0
  {
    hide *;
    ObjectFails(s, i, e);
    var ms;
    u, ms := MembersFinish(s, i + 1, [], e);
    Marks(s, i);
    FinishBefore(s, e, u, i, i + 1, [123], G.MembersText(ms) + [125]);
    d := G.Obj([], ms);
    WholeObjectText(ms);
    FinishedIs(s, e, u, i, d);
  }

  lemma WholeObjectText(ms: seq<G.Member>)
    requires ms != [] && forall k :: 0 <= k < |ms| ==> G.WellMember(ms[k], false)
    ensures G.Text(G.Obj([], ms)) == [123] + (G.MembersText(ms) + [125]) && G.Well(G.Obj([], ms), false) && !G.IsOpen(G.Obj([], ms))
  {
    NoBlank();
    hide G.Blank;
    hide G.MembersText;
    hide G.ElementsText;
    hide G.NumeralText;
    hide G.LiteralText;
    hide G.WellMember;
    hide G.WellElement;
    hide G.WellUnits;
    hide G.WellNumeral;
  }

  // ----- values and whole texts

  /** A value fails where it starts, or inside an array or an object. */
  lemma ValueFailure(s: CStr, i: nat, e: nat)
    requires ValueFails(s, i, e)
    ensures i <= |s| && WellEscaped(s, i)
    ensures || e == i
            || (i < |s| && s[i] == OPEN_BRACKET && ParseArray(s, i) == Bad(e))
            || (i < |s| && s[i] == OPEN_BRACE && ParseObject(s, i) == Bad(e))
  {
    hide ParseArray;
    hide ParseObject;
    hide WellEscaped;
  }

  lemma {:induction false} ValueFinishes(s: CStr, i: nat, e: nat) returns (u: CStr, d: G.Doc)
    requires i <= |s| && ValueFails(s, i, e)
    ensures Finished(s, e, u, i, d)
    decreases |s| - i, 1
  {
    hide *;
    ValueFailure(s, i, e);
    if e == i {
      d := G.Word(2);
      u := s[..i] + G.Text(d);
      FinishHere(s, i, G.Text(d));
      NullWell();
      FinishedIs(s, e, u, i, d);
    } else if i < |s| && s[i] == OPEN_BRACKET && ParseArray(s, i) == Bad(e) {
      u, d := ArrayFinishes(s, i, e);
    } else {
      u, d := ObjectFinishes(s, i, e);
    }
  }

  lemma NullWell()
    ensures G.Well(G.Word(2), false) && !G.IsOpen(G.Word(2))
  {
  }

  /** Some accepted text starts with the first e bytes of s. */
  predicate Viable(s: CStr, e: nat, u: CStr) { e <= |s| && s[..e] <= u && ParseText(u, true).Good? }

  lemma FinishedAccepted(s: CStr, e: nat, u: CStr, i: nat, d: G.Doc)
    requires SkipsTo(s, 0, i) && Finished(s, e, u, i, d)
    ensures Viable(s, e, u)
  {
    hide *;
    SkipSlices(s, 0, i);
    FinishedIs(s, e, u, i, d);
    FrontKept(s, e, u, i, G.Text(d));
    NoBlank();
    SpellsIs(u, s[0..i], d, []);
    AcceptsText(u, s[0..i], d, [], true);
    ViableIs(s, e, u);
  }

  lemma FrontKept(s: CStr, e: nat, u: CStr, i: nat, body: CStr)
    requires Finishes(s, e, u, i, body)
    ensures i <= e <= |s| && s[..e] <= u && u == s[0..i] + (body + [])
  {
    forall k | 0 <= k < i
      ensures u[k] == s[k]
    {
      assert u[..e][k] == s[..e][k];
    }
    assert u == u[..i] + u[i..];
  }

  lemma TextFailure(s: CStr, e: nat) returns (i: nat, end: nat)
    requires WellEscaped(s, 0) && ParseText(s, true) == Bad(e)
    ensures SkipsTo(s, 0, i) && i <= |s| && WellEscaped(s, i)
    ensures ValueFails(s, i, e) || (ParseValue(s, i).Good? && ParseValue(s, i).end == end && SkipsTo(s, end, e) && end <= e < |s|)
  {
    hide ParseValue;
    i := Skip(s, 0);
    WellEscapedSkip(s, 0);
    hide WellEscaped;
    ParseValueDefined(s, i);
    end := if ParseValue(s, i).Good? then ParseValue(s, i).end else 0;
  }

  /** Not too late: in every text whose escapes are complete that is refused, what stands
      in front of the error position begins a text that is accepted. */
  lemma FailsInTime(s: CStr, e: nat) returns (u: CStr)
    requires WellEscaped(s, 0) && ParseText(s, true) == Bad(e)
    ensures Viable(s, e, u)
  {
    hide *;
    var i, end := TextFailure(s, e);
    if ValueFails(s, i, e) {
      var d;
      u, d := ValueFinishes(s, i, e);
      FinishedAccepted(s, e, u, i, d);
    } else {
      var d := ValueSpelled(s, i);
      u := FailsBehind(s, i, end, e, d);
    }
  }

  lemma FailsBehind(s: CStr, i: nat, end: nat, e: nat, d: G.Doc) returns (u: CStr)
    requires SkipsTo(s, 0, i) && Stands(s, i, d, end) && SkipsTo(s, end, e) && e < |s|
    ensures Viable(s, e, u)
  {
    hide *;
    StandsIs(s, i, d, end);
    SkipSlices(s, 0, i);
    SkipSlices(s, end, e);
    u := s[..e];
    var front, back := s[0..i], s[end..e];
    assert s[i..end] == G.Text(d) by {
      OccursIs(s, i, G.Text(d));
    }
    assert u == front + (s[i..end] + back);
    SpellsIs(u, front, d, back);
    AcceptsText(u, front, d, back, true);
    ViableIs(s, e, u);
  }

  lemma OccursIs(s: CStr, i: nat, t: CStr)
    requires Occurs(s, i, t) && i + |t| <= |s|
    ensures s[i..i + |t|] == t
  {
  }

  lemma SpellsIs(s: CStr, front: CStr, d: G.Doc, back: CStr)
    requires G.Blank(front, false) && G.Blank(back, false) && G.Well(d, false) && !G.IsOpen(d) && s == front + (G.Text(d) + back)
    ensures G.Spells(s, front, d, back, false)
  {
  }

  lemma ViableIs(s: CStr, e: nat, u: CStr)
    requires e <= |s| && s[..e] <= u && ParseText(u, true).Good?
    ensures Viable(s, e, u)
  {
  }
}
