/**
 The printer as it runs: every text is written into a buffer of its own, sized
 beforehand. The bytes stored are the text of the specification, for any node that
 can be read to the end, references included; and the nodes are left alone.
 */
module PrintCode {
  import opened CText
  import opened Strings
  import opened StringCode
  import opened Json
  import opened Heap
  import opened Sizes

  /** A buffer holding the text, or null for none. */
  ghost predicate Holds(out: array?<Byte>, r: Option<CStr>)
    reads if out == null then {} else {out}
  {
    match r
    case None => out == null
    case Some(text) => out != null && Stored(out, text)
  }

  ghost predicate AllStored(entries: seq<array<Byte>>, texts: seq<CStr>)
    reads entries
  {
    |entries| == |texts| && forall k :: 0 <= k < |entries| ==> Stored(entries[k], texts[k])
  }

  // ----- the C library

  /** strlen. */
  method StrLen(a: array<Byte>, ghost text: CStr) returns (n: nat)
    requires Stored(a, text)
    ensures n == |text|
  {
    n := 0;
    StoredAt(a, text, n);
    while a[n] != 0
      invariant n <= |text| && (a[n] != 0 <==> n < |text|)
      decreases |text| - n
    {
      n := n + 1;
      StoredAt(a, text, n);
    }
  }

  /** A stored text ends at its first NUL. */
  lemma StoredAt(a: array<Byte>, text: CStr, n: nat)
    requires Stored(a, text) && n <= |text|
    ensures n < |text| ==> a[n] == text[n]
    ensures a[n] != 0 <==> n < |text|
  {
    if n < |text| {
      assert a[..|text|][n] == text[n];
    }
  }

  /** strcpy at the moving pointer, which then advances by strlen. */
  method Put(out: array<Byte>, q: nat, src: array<Byte>, ghost text: CStr) returns (q': nat)
    requires Stored(src, text) && src != out && q + |text| < out.Length
    modifies out
    ensures q' == q + |text| && out[..q'] == old(out[..q]) + text
  {
    var k := 0;
    StoredAt(src, text, k);
    while src[k] != 0
      invariant k <= |text| && Stored(src, text) && (src[k] != 0 <==> k < |text|)
      invariant out[..q + k] == old(out[..q]) + text[..k]
      decreases |text| - k
    {
      StoredAt(src, text, k);
      out[q + k] := src[k];
      assert out[..q + k + 1] == out[..q + k] + [text[k]];
      assert text[..k + 1] == text[..k] + [text[k]];
      k := k + 1;
      StoredAt(src, text, k);
    }
    assert text[..k] == text;
    out[q + k] := 0;
    q' := q + k;
    assert out[..q'] == old(out[..q]) + text;
  }

  method PutChar(out: array<Byte>, q: nat, c: Byte) returns (q': nat)
    requires q < out.Length
    modifies out
    ensures q' == q + 1 && out[..q'] == old(out[..q]) + [c]
  {
    out[q] := c;
    q' := q + 1;
    assert out[..q'] == old(out[..q]) + [c];
  }

  /** The loops that write tabulators. */
  method PutTabs(out: array<Byte>, q: nat, n: int) returns (q': nat)
    requires q + |Tabs(n)| <= out.Length
    modifies out
    ensures q' == q + |Tabs(n)| && out[..q'] == old(out[..q]) + Tabs(n)
  {
    q' := q;
    var j := 0;
    while j < n
      invariant 0 <= j && (0 <= n ==> j <= n) && (n < 0 ==> j == 0) && q' == q + j
      invariant out[..q'] == old(out[..q]) + Tabs(j)
    {
      q' := PutChar(out, q', TAB);
      assert Tabs(j) + [TAB] == Tabs(j + 1);
      assert old(out[..q]) + Tabs(j) + [TAB] == old(out[..q]) + (Tabs(j) + [TAB]);
      j := j + 1;
    }
  }

  /** strdup of a literal, and sprintf into a buffer of the given size. */
  method NewText(text: CStr, size: nat) returns (out: array<Byte>)
    requires |text| < size
    ensures fresh(out) && out.Length == size && Stored(out, text)
  {
    out := new Byte[size];
    var k := 0;
    while k < |text|
      invariant k <= |text| && out[..k] == text[..k]
    {
      out[k] := text[k];
      assert out[..k + 1] == out[..k] + [text[k]];
      k := k + 1;
    }
    assert text[..k] == text;
    out[k] := 0;
  }

  // ----- composing the output

  /** What one turn of the loop in print_array writes. */
  function ElementTurn(texts: seq<CStr>, k: nat, fmt: bool): CStr
    requires k < |texts|
  {
    texts[k] + if k + 1 == |texts| then [] else Separator(fmt)
  }

  lemma ElementsStep(texts: seq<CStr>, k: nat, fmt: bool)
    requires k < |texts|
    ensures Elements(texts[k..], fmt) == ElementTurn(texts, k, fmt) + Elements(texts[k + 1..], fmt)
    ensures ElementsReserved(texts[k..], fmt) == |texts[k]| + 2 + (if fmt then 1 else 0) + ElementsReserved(texts[k + 1..], fmt)
  {
    assert texts[k..][1..] == texts[k + 1..];
  }

  method PutElement(out: array<Byte>, q: nat, entry: array<Byte>, last: bool, fmt: bool, ghost texts: seq<CStr>, ghost k: nat)
    returns (q': nat)
    requires k < |texts| && last == (k == |texts| - 1) && Stored(entry, texts[k]) && entry != out
    requires q + |texts[k]| + 2 < out.Length
    modifies out
    ensures q' <= q + |texts[k]| + if fmt then 2 else 1
    ensures out[..q'] == old(out[..q]) + ElementTurn(texts, k, fmt)
  {
    q' := Put(out, q, entry, texts[k]);
    if !last {
      q' := PutChar(out, q', COMMA);
      if fmt {
        q' := PutChar(out, q', SPACE);
      }
    }
  }

  /** The end of print_array. */
  method FillArray(entries: seq<array<Byte>>, len: nat, fmt: bool, ghost texts: seq<CStr>) returns (out: array<Byte>)
    requires |entries| > 0 && AllStored(entries, texts) && len == ArrayReserved(texts, fmt)
    ensures fresh(out) && out.Length == len
    ensures Stored(out, [OPEN_BRACKET] + Elements(texts, fmt) + [CLOSE_BRACKET])
  {
    hide Elements;
    hide ElementsReserved;
    hide ElementTurn;
    out := new Byte[len];
    var q := PutChar(out, 0, OPEN_BRACKET);
    assert texts[0..] == texts;
    var k := 0;
    while k < |entries|
      invariant k <= |entries| && AllStored(entries, texts)
      invariant q > 0 && q + ElementsReserved(texts[k..], fmt) + 4 <= len
      invariant out[..q] + Elements(texts[k..], fmt) == [OPEN_BRACKET] + Elements(texts, fmt)
    {
      ElementsStep(texts, k, fmt);
      Assoc<Byte>(out[..q], ElementTurn(texts, k, fmt), Elements(texts[k + 1..], fmt));
      q := PutElement(out, q, entries[k], k == |entries| - 1, fmt, texts, k);
      k := k + 1;
    }
    NoMore(texts, fmt);
    q := PutChar(out, q, CLOSE_BRACKET);
    out[q] := 0;
    assert out[..q] == [OPEN_BRACKET] + Elements(texts, fmt) + [CLOSE_BRACKET];
  }

  lemma NoMore(texts: seq<CStr>, fmt: bool)
    ensures Elements(texts[|texts|..], fmt) == [] && ElementsReserved(texts[|texts|..], fmt) == 0
  {
  }

  /** What one turn of the loop in print_object writes. */
  function MemberTurn(names: seq<CStr>, texts: seq<CStr>, k: nat, depth: nat, fmt: bool): CStr
    requires |names| == |texts| && k < |texts|
  {
    MemberText(names[k], texts[k], depth, fmt) + (if k + 1 == |texts| then [] else [COMMA]) + if fmt then [NEWLINE] else []
  }

  lemma MembersStep(names: seq<CStr>, texts: seq<CStr>, k: nat, depth: nat, fmt: bool)
    requires |names| == |texts| && k < |texts|
    ensures Members(names[k..], texts[k..], depth, fmt)
         == MemberTurn(names, texts, k, depth, fmt) + Members(names[k + 1..], texts[k + 1..], depth, fmt)
    ensures MembersReserved(names[k..], texts[k..], depth, fmt)
         == |texts[k]| + |names[k]| + 2 + (if fmt then 2 + depth else 0) + MembersReserved(names[k + 1..], texts[k + 1..], depth, fmt)
  {
    hide MemberText;
    assert names[k..][1..] == names[k + 1..];
    assert texts[k..][1..] == texts[k + 1..];
  }

  lemma NoMembers(names: seq<CStr>, texts: seq<CStr>, depth: nat, fmt: bool)
    requires |names| == |texts|
    ensures Members(names[|names|..], texts[|texts|..], depth, fmt) == []
    ensures MembersReserved(names[|names|..], texts[|texts|..], depth, fmt) == 0
  {
  }

  /** The indentation, name and colon of a member. */
  method PutName(out: array<Byte>, q: nat, name: array<Byte>, depth: nat, fmt: bool, ghost text: CStr) returns (q': nat)
    requires Stored(name, text) && name != out && q + |text| + 2 + (if fmt then depth else 0) < out.Length
    modifies out
    ensures q' == q + |text| + 1 + if fmt then depth + 1 else 0
    ensures out[..q'] == old(out[..q]) + ((if fmt then Tabs(depth) else []) + text + (if fmt then [COLON, TAB] else [COLON]))
  {
    q' := q;
    if fmt {
      q' := PutTabs(out, q', depth);
    }
    q' := Put(out, q', name, text);
    q' := PutChar(out, q', COLON);
    if fmt {
      q' := PutChar(out, q', TAB);
    }
  }

  method PutMember(out: array<Byte>, q: nat, name: array<Byte>, entry: array<Byte>, last: bool, depth: nat, fmt: bool,
                   ghost names: seq<CStr>, ghost texts: seq<CStr>, ghost k: nat) returns (q': nat)
    requires |names| == |texts| && k < |texts| && last == (k == |texts| - 1)
    requires Stored(name, names[k]) && Stored(entry, texts[k]) && name != out && entry != out
    requires q + |texts[k]| + |names[k]| + (if fmt then depth + 4 else 2) < out.Length
    modifies out
    ensures q' <= q + |texts[k]| + |names[k]| + if fmt then depth + 4 else 2
    ensures out[..q'] == old(out[..q]) + MemberTurn(names, texts, k, depth, fmt)
  {
    hide Tabs;
    q' := PutName(out, q, name, depth, fmt, names[k]);
    q' := Put(out, q', entry, texts[k]);
    assert out[..q'] == old(out[..q]) + MemberText(names[k], texts[k], depth, fmt);
    if !last {
      q' := PutChar(out, q', COMMA);
    }
    if fmt {
      q' := PutChar(out, q', NEWLINE);
    }
  }

  method PutOpening(out: array<Byte>, fmt: bool) returns (q: nat)
    requires out.Length > 2
    modifies out
    ensures q == if fmt then 2 else 1
    ensures out[..q] == [OPEN_BRACE] + (if fmt then [NEWLINE] else [])
  {
    q := PutChar(out, 0, OPEN_BRACE);
    if fmt {
      q := PutChar(out, q, NEWLINE);
    }
    out[q] := 0;
  }

  method PutClosing(out: array<Byte>, q: nat, tabs: int, fmt: bool, ghost text: CStr)
    requires q + (if fmt then |Tabs(tabs)| else 0) + 1 < out.Length && out[..q] == text
    modifies out
    ensures Stored(out, text + (if fmt then Tabs(tabs) else []) + [CLOSE_BRACE])
  {
    hide Tabs;
    var p := q;
    if fmt {
      p := PutTabs(out, p, tabs);
    }
    p := PutChar(out, p, CLOSE_BRACE);
    out[p] := 0;
    assert out[..p] == text + (if fmt then Tabs(tabs) else []) + [CLOSE_BRACE];
  }

  /** The end of print_object; depth is that of the members. */
  method FillObject(names: seq<array<Byte>>, entries: seq<array<Byte>>, len: nat, depth: nat, fmt: bool,
                    ghost nameTexts: seq<CStr>, ghost texts: seq<CStr>) returns (out: array<Byte>)
    requires |entries| > 0 && depth > 0 && AllStored(entries, texts) && AllStored(names, nameTexts) && |names| == |entries|
    requires len == ObjectReserved(nameTexts, texts, depth - 1, fmt)
    ensures fresh(out) && out.Length == len
    ensures Stored(out, [OPEN_BRACE] + (if fmt then [NEWLINE] else [])
                        + Members(nameTexts, texts, depth, fmt)
                        + (if fmt then Tabs(depth - 1) else []) + [CLOSE_BRACE])
  {
    hide Members;
    hide MembersReserved;
    hide MemberTurn;
    hide Tabs;
    ghost var text := [OPEN_BRACE] + (if fmt then [NEWLINE] else []) + Members(nameTexts, texts, depth, fmt);
    out := new Byte[len];
    var q := PutOpening(out, fmt);
    assert texts[0..] == texts && nameTexts[0..] == nameTexts;
    var i := 0;
    while i < |entries|
      invariant i <= |entries| && AllStored(entries, texts) && AllStored(names, nameTexts)
      invariant 0 < q && q + MembersReserved(nameTexts[i..], texts[i..], depth, fmt) + (if fmt then depth + 5 else 6) <= len
      invariant out[..q] + Members(nameTexts[i..], texts[i..], depth, fmt) == text
    {
      MembersStep(nameTexts, texts, i, depth, fmt);
      Assoc<Byte>(out[..q], MemberTurn(nameTexts, texts, i, depth, fmt), Members(nameTexts[i + 1..], texts[i + 1..], depth, fmt));
      q := PutMember(out, q, names[i], entries[i], i == |entries| - 1, depth, fmt, nameTexts, texts, i);
      i := i + 1;
    }
    NoMembers(nameTexts, texts, depth, fmt);
    PutClosing(out, q, depth - 1, fmt, text);
  }

  // ----- the recursion

  function Prepend(texts: seq<CStr>, r: Option<seq<CStr>>): Option<seq<CStr>> {
    match r
    case None => None
    case Some(more) => Some(texts + more)
  }

  lemma PrependNothing(r: Option<seq<CStr>>)
    ensures Prepend([], r) == r
  {
    if r.Some? {
      assert [] + r.value == r.value;
    }
  }

  /** The child at k printed after the texts of those in front of it. */
  lemma EachTurn(kids: seq<Item>, k: nat, depth: nat, fmt: bool, texts: seq<CStr>)
    requires k < |kids| && (forall j :: 0 <= j < |kids| ==> IntNumbers(kids[j]))
    ensures Prepend(texts, PrintEach(kids[k..], depth, fmt))
         == match PrintValue(kids[k], depth, fmt)
            case None => None
            case Some(text) => Prepend(texts + [text], PrintEach(kids[k + 1..], depth, fmt))
  {
    hide PrintValue;
    hide IntNumbers;
    assert kids[k..][1..] == kids[k + 1..];
    var text := PrintValue(kids[k], depth, fmt);
    var rest := PrintEach(kids[k + 1..], depth, fmt);
    if text.Some? && rest.Some? {
      Assoc(texts, [text.value], rest.value);
    }
  }

  lemma EachDone(kids: seq<Item>, depth: nat, fmt: bool, texts: seq<CStr>)
    ensures Prepend(texts, PrintEach(kids[|kids|..], depth, fmt)) == Some(texts)
  {
    assert texts + [] == texts;
  }

  lemma {:induction false} ElementsReservedGrows(texts: seq<CStr>, text: CStr, fmt: bool)
    ensures ElementsReserved(texts + [text], fmt) == ElementsReserved(texts, fmt) + |text| + 2 + if fmt then 1 else 0
  {
    if texts != [] {
      assert (texts + [text])[1..] == texts[1..] + [text];
      ElementsReservedGrows(texts[1..], text, fmt);
    }
  }

  lemma {:induction false} MembersReservedGrows(names: seq<CStr>, texts: seq<CStr>, name: CStr, text: CStr, depth: nat, fmt: bool)
    requires |names| == |texts|
    ensures MembersReserved(names + [name], texts + [text], depth, fmt)
         == MembersReserved(names, texts, depth, fmt) + |text| + |name| + 2 + if fmt then 2 + depth else 0
  {
    if texts != [] {
      assert (texts + [text])[1..] == texts[1..] + [text];
      assert (names + [name])[1..] == names[1..] + [name];
      MembersReservedGrows(names[1..], texts[1..], name, text, depth, fmt);
    }
  }

  lemma NamesTurn(kids: seq<Item>, k: nat)
    requires k < |kids|
    ensures Names(kids[..k + 1]) == Names(kids[..k]) + [StringText(kids[k].name)]
  {
    NamesGrow(kids[..k], kids[k]);
    assert kids[..k + 1] == kids[..k] + [kids[k]];
  }

  lemma {:induction false} NamesGrow(kids: seq<Item>, kid: Item)
    ensures Names(kids + [kid]) == Names(kids) + [StringText(kid.name)]
  {
    if kids != [] {
      assert (kids + [kid])[1..] == kids[1..] + [kid];
      NamesGrow(kids[1..], kid);
    }
  }

  lemma {:induction false} ItemAt(ks: seq<Cell>, k: nat)
    requires k < |ks|
    ensures ItemsOf(ks)[k] == ItemOf(ks[k])
    decreases |ks|
  {
    if k < |ks| - 1 {
      ItemAt(ks[..|ks| - 1], k);
    }
  }

  /** Printing at the root with format: the one value whose text does not fit. */
  predicate EmptyRoot(t: Item, depth: nat, fmt: bool) {
    fmt && depth == 0 && t.kind % 256 == OBJECT && t.kids == []
  }

  /** A cell that printing may start from. */
  ghost predicate Source(item: Node, c: Cell)
    reads c.node`kind, c.node`str, c.node`num, c.node`dbl, c.node`name, c.node`child, NodesOf(c.kids)
  {
    c.node == item && Readable(c) && IntNumbers(ItemOf(c))
  }

  lemma SourceParts(item: Node, c: Cell)
    requires Source(item, c)
    ensures item.child == (if |c.kids| > 0 then c.kids[0].node else null)
    ensures ItemOf(c) == Item(item.kind, item.str, item.num, item.dbl, item.name, ItemsOf(c.kids))
    ensures item.kind % 256 == ARRAY || item.kind % 256 == OBJECT ==>
              forall k :: 0 <= k < |c.kids| ==> IntNumbers(ItemsOf(c.kids)[k])
  {
    ReadableParts(c);
  }

  lemma SourceChild(item: Node, c: Cell, k: nat)
    requires Source(item, c) && k < |c.kids| && (item.kind % 256 == ARRAY || item.kind % 256 == OBJECT)
    ensures Source(c.kids[k].node, c.kids[k]) && ItemsOf(c.kids)[k] == ItemOf(c.kids[k])
    ensures c.kids[k].node.next == (if k + 1 < |c.kids| then c.kids[k + 1].node else null)
    ensures c.kids[k].node.name == ItemOf(c.kids[k]).name
  {
    hide Readable;
    ItemAt(c.kids, k);
    ReadChild(c, k);
    ReadableParts(c.kids[k]);
    SourceParts(item, c);
  }

  /** The loops that count the entries. */
  method CountEntries(item: Node, ghost c: Cell) returns (n: nat)
    requires Source(item, c) && (item.kind % 256 == ARRAY || item.kind % 256 == OBJECT)
    ensures n == |c.kids|
  {
    hide *;
    SourceParts(item, c);
    var child := item.child;
    n := 0;
    while child != null
      invariant n <= |c.kids| && Source(item, c) && child == if n < |c.kids| then c.kids[n].node else null
      decreases |c.kids| - n
    {
      SourceChild(item, c, n);
      n, child := n + 1, child.next;
    }
  }

  lemma PrintDispatch(t: Item, depth: nat, fmt: bool)
    requires IntNumbers(t)
    ensures var kind := t.kind % 256; var r := PrintValue(t, depth, fmt);
      && (kind == ARRAY ==> r == PrintArray(t.kids, depth, fmt))
      && (kind == OBJECT ==> r == PrintObject(t.kids, depth, fmt))
      && (r.Some? && kind == ARRAY ==> Reserved(t, depth, fmt) == ArrayReserved(PrintEach(t.kids, depth + 1, fmt).value, fmt))
      && (r.Some? && kind == OBJECT ==> Reserved(t, depth, fmt) == ObjectReserved(Names(t.kids), PrintEach(t.kids, depth + 1, fmt).value, depth, fmt))
  {
  }

  /** print_array. */
  method PrintArrayText(item: Node, depth: nat, fmt: bool, ghost c: Cell) returns (out: array?<Byte>)
    requires Source(item, c) && item.kind % 256 == ARRAY
    ensures Holds(out, PrintValue(ItemOf(c), depth, fmt))
    ensures out != null ==> fresh(out) && out.Length == Reserved(ItemOf(c), depth, fmt)
    decreases c, 1
  {
    hide Source;
    hide ItemOf;
    hide ItemsOf;
    hide NodesOf;
    hide PrintValue;
    hide PrintEach;
    hide Reserved;
    hide IntNumbers;
    hide Stored;
    hide Elements;
    hide ElementsReserved;
    SourceParts(item, c);
    ghost var t := ItemOf(c);
    assert IntNumbers(t) by {
      NumbersOf(item, c);
    }
    PrintDispatch(t, depth, fmt);
    assert allocated(NodesOf(c.kids));
    var n := CountEntries(item, c);
    if n == 0 {
      EachDone(t.kids, depth + 1, fmt, []);
      out := NewText([OPEN_BRACKET, CLOSE_BRACKET], 3);
      return;
    }
    PrependNothing(PrintEach(t.kids, depth + 1, fmt));
    assert t.kids[0..] == t.kids;
    var child := item.child;
    var entries: seq<array<Byte>>, len, fail := [], 5, false;
    ghost var texts: seq<CStr>, k := [], 0;
    assert ElementsReserved([], fmt) == 0 by {
      NoMore([], fmt);
    }
    while child != null && !fail
      invariant 0 <= k <= n && Source(item, c)
      invariant fail ==> PrintEach(t.kids, depth + 1, fmt) == None
      invariant !fail ==>
        && child == (if k < n then c.kids[k].node else null)
        && PrintEach(t.kids, depth + 1, fmt) == Prepend(texts, PrintEach(t.kids[k..], depth + 1, fmt))
        && |entries| == k && AllStored(entries, texts) && len == 5 + ElementsReserved(texts, fmt)
      decreases n - k, !fail
    {
      SourceChild(item, c, k);
      EachTurn(t.kids, k, depth + 1, fmt, texts);
      assert allocated(entries);
      var ret := PrintValueText(child, depth + 1, fmt, c.kids[k]);
      if ret == null {
        fail := true;
      } else {
        ghost var text := PrintValue(t.kids[k], depth + 1, fmt).value;
        var size := StrLen(ret, text);
        len := len + size + 2 + if fmt then 1 else 0;
        ElementsReservedGrows(texts, text, fmt);
        entries, texts := entries + [ret], texts + [text];
        child, k := child.next, k + 1;
      }
    }
    if fail {
      return null;
    }
    EachDone(t.kids, depth + 1, fmt, texts);
    out := FillArray(entries, len, fmt, texts);
  }

  ghost predicate AllNumbers(kids: seq<Item>) { forall k :: 0 <= k < |kids| ==> IntNumbers(kids[k]) }

  /** The state of the collecting loop of print_object in front of child k. */
  ghost predicate Collected(kids: seq<Item>, k: nat, names: seq<array<Byte>>, entries: seq<array<Byte>>, texts: seq<CStr>,
                            len: nat, depth: nat, fmt: bool)
    requires k <= |kids| && AllNumbers(kids)
    reads names, entries
  {
    && |entries| == k && AllStored(entries, texts) && AllStored(names, Names(kids[..k]))
    && PrintEach(kids, depth, fmt) == Prepend(texts, PrintEach(kids[k..], depth, fmt))
    && len == 7 + (if fmt then depth else 0) + MembersReserved(Names(kids[..k]), texts, depth, fmt)
  }

  lemma CollectedNone(kids: seq<Item>, depth: nat, fmt: bool)
    requires AllNumbers(kids)
    ensures Collected(kids, 0, [], [], [], 7 + if fmt then depth else 0, depth, fmt)
  {
    PrependNothing(PrintEach(kids, depth, fmt));
    assert kids[0..] == kids;
  }

  ghost predicate Unprintable(kids: seq<Item>, depth: nat, fmt: bool) {
    AllNumbers(kids) && PrintEach(kids, depth, fmt) == None
  }

  /** A child that cannot be printed. */
  lemma CollectedFails(kids: seq<Item>, k: nat, names: seq<array<Byte>>, entries: seq<array<Byte>>, texts: seq<CStr>,
                       len: nat, depth: nat, fmt: bool)
    requires k < |kids| && AllNumbers(kids) && Collected(kids, k, names, entries, texts, len, depth, fmt)
    requires IntNumbers(kids[k]) && PrintValue(kids[k], depth, fmt) == None
    ensures Unprintable(kids, depth, fmt)
  {
    EachTurn(kids, k, depth, fmt, texts);
  }

  lemma CollectedTurn(kids: seq<Item>, k: nat, names: seq<array<Byte>>, entries: seq<array<Byte>>, texts: seq<CStr>,
                      len: nat, depth: nat, fmt: bool, name: array<Byte>, entry: array<Byte>)
    requires k < |kids| && AllNumbers(kids)
    requires Collected(kids, k, names, entries, texts, len, depth, fmt)
    requires IntNumbers(kids[k]) && PrintValue(kids[k], depth, fmt).Some? && Stored(name, StringText(kids[k].name))
    requires Stored(entry, PrintValue(kids[k], depth, fmt).value)
    ensures var text := PrintValue(kids[k], depth, fmt).value;
      Collected(kids, k + 1, names + [name], entries + [entry], texts + [text],
                len + |text| + |StringText(kids[k].name)| + 2 + (if fmt then 2 + depth else 0), depth, fmt)
  {
    hide PrintValue;
    hide PrintEach;
    hide IntNumbers;
    hide Stored;
    hide Names;
    hide MembersReserved;
    hide StringText;
    EachTurn(kids, k, depth, fmt, texts);
    NamesTurn(kids, k);
    MembersReservedGrows(Names(kids[..k]), texts, StringText(kids[k].name), PrintValue(kids[k], depth, fmt).value, depth, fmt);
  }

  lemma CollectedAll(kids: seq<Item>, names: seq<array<Byte>>, entries: seq<array<Byte>>, texts: seq<CStr>,
                     len: nat, depth: nat, fmt: bool)
    requires AllNumbers(kids)
    requires Collected(kids, |kids|, names, entries, texts, len, depth, fmt)
    ensures PrintEach(kids, depth, fmt) == Some(texts)
    ensures |entries| == |kids| && AllStored(entries, texts) && AllStored(names, Names(kids))
    ensures len == 7 + (if fmt then depth else 0) + MembersReserved(Names(kids), texts, depth, fmt)
  {
    assert kids[..|kids|] == kids;
    EachDone(kids, depth, fmt, texts);
  }

  lemma NonEmptyObject(names: seq<CStr>, texts: seq<CStr>, depth: nat, fmt: bool)
    requires |names| == |texts| > 0
    ensures ObjectReserved(names, texts, depth, fmt) == 7 + (if fmt then depth + 1 else 0) + MembersReserved(names, texts, depth + 1, fmt)
  {
  }

  /** The loop of print_object over the children; it goes on after a failure. */
  method CollectMembers(item: Node, n: nat, depth: nat, fmt: bool, ghost c: Cell)
    returns (fail: bool, names: seq<array<Byte>>, entries: seq<array<Byte>>, len: nat, ghost texts: seq<CStr>)
    requires Source(item, c) && item.kind % 256 == OBJECT && depth > 0 && n == |c.kids|
    ensures AllNumbers(ItemsOf(c.kids))
    ensures fail ==> PrintEach(ItemsOf(c.kids), depth, fmt) == None
    ensures !fail ==> Collected(ItemsOf(c.kids), n, names, entries, texts, len, depth, fmt)
    decreases c, 0
  {
    hide *;
    NumbersBelow(item, c);
    assert allocated(NodesOf(c.kids));
    SourceParts(item, c);
    ghost var kids := ItemsOf(c.kids);
    var child := item.child;
    names, entries, fail, len := [], [], false, 7 + if fmt then depth else 0;
    ghost var k := 0;
    texts := [];
    CollectedNone(kids, depth, fmt);
    while child != null
      invariant 0 <= k <= n && Source(item, c)
      invariant child == if k < n then c.kids[k].node else null
      invariant fail ==> Unprintable(kids, depth, fmt)
      invariant !fail ==> Collected(kids, k, names, entries, texts, len, depth, fmt)
      decreases n - k
    {
      SourceChild(item, c, k);
      NotRoot(ItemOf(c.kids[k]), depth, fmt);
      assert allocated(NodesOf(c.kids[k].kids));
      assert allocated(entries) && allocated(names);
      var name := PrintString(child.name);
      var ret := PrintValueText(child, depth, fmt, c.kids[k]);
      if ret == null {
        if !fail {
          HoldsNothing(PrintValue(kids[k], depth, fmt));
          CollectedFails(kids, k, names, entries, texts, len, depth, fmt);
        }
        fail := true;
      } else if !fail {
        HoldsText(ret, PrintValue(kids[k], depth, fmt));
        var size := StrLen(ret, PrintValue(kids[k], depth, fmt).value);
        var nameSize := StrLen(name, StringText(child.name));
        CollectedTurn(kids, k, names, entries, texts, len, depth, fmt, name, ret);
        texts := texts + [PrintValue(kids[k], depth, fmt).value];
        len := len + size + nameSize + 2 + if fmt then 2 + depth else 0;
        names, entries := names + [name], entries + [ret];
      }
      child, k := child.next, k + 1;
    }
    if fail {
      UnprintableIs(kids, depth, fmt);
    }
  }

  /** print_object. */
  method PrintObjectText(item: Node, depth: nat, fmt: bool, ghost c: Cell) returns (out: array?<Byte>)
    requires Source(item, c) && item.kind % 256 == OBJECT && !EmptyRoot(ItemOf(c), depth, fmt)
    ensures Holds(out, PrintValue(ItemOf(c), depth, fmt))
    ensures out != null ==> fresh(out) && out.Length == Reserved(ItemOf(c), depth, fmt)
    decreases c, 1
  {
    hide Source;
    hide ItemOf;
    hide ItemsOf;
    hide NodesOf;
    hide PrintValue;
    hide PrintEach;
    hide Reserved;
    hide ObjectReserved;
    hide IntNumbers;
    hide Stored;
    hide AllStored;
    hide Names;
    hide Members;
    hide MembersReserved;
    hide Collected;
    SourceParts(item, c);
    ghost var t := ItemOf(c);
    NumbersOf(item, c);
    PrintDispatch(t, depth, fmt);
    assert allocated(NodesOf(c.kids));
    var n := CountEntries(item, c);
    if n == 0 {
      NoEntries(t.kids, depth, fmt);
      out := EmptyObject(depth, fmt);
      return;
    }
    var fail, names, entries, len;
    ghost var texts;
    fail, names, entries, len, texts := CollectMembers(item, n, depth + 1, fmt, c);
    if fail {
      return null;
    }
    CollectedAll(t.kids, names, entries, texts, len, depth + 1, fmt);
    SizesAgree(names, entries, Names(t.kids), texts);
    NonEmptyObject(Names(t.kids), texts, depth, fmt);
    out := FillObject(names, entries, len, depth + 1, fmt, Names(t.kids), texts);
  }

  lemma NumbersBelow(item: Node, c: Cell)
    requires Source(item, c) && item.kind % 256 == OBJECT
    ensures AllNumbers(ItemsOf(c.kids)) && forall k :: 0 <= k < |c.kids| ==> IntNumbers(ItemsOf(c.kids)[k])
  {
    SourceParts(item, c);
  }

  lemma NotRoot(t: Item, depth: nat, fmt: bool)
    requires depth > 0
    ensures !EmptyRoot(t, depth, fmt)
  {
  }

  lemma HoldsNothing(r: Option<CStr>)
    requires Holds(null, r)
    ensures r == None
  {
  }

  lemma HoldsText(out: array<Byte>, r: Option<CStr>)
    requires Holds(out, r)
    ensures r.Some? && Stored(out, r.value)
  {
  }

  lemma UnprintableIs(kids: seq<Item>, depth: nat, fmt: bool)
    requires Unprintable(kids, depth, fmt)
    ensures AllNumbers(kids) && PrintEach(kids, depth, fmt) == None
  {
  }

  lemma SizesAgree(names: seq<array<Byte>>, entries: seq<array<Byte>>, nameTexts: seq<CStr>, texts: seq<CStr>)
    requires AllStored(names, nameTexts) && AllStored(entries, texts)
    ensures |names| == |nameTexts| && |entries| == |texts|
  {
  }

  lemma NoEntries(kids: seq<Item>, depth: nat, fmt: bool)
    requires kids == []
    ensures PrintEach(kids, depth + 1, fmt) == Some([]) && Names(kids) == []
  {
  }

  lemma NumbersOf(item: Node, c: Cell)
    requires Source(item, c)
    ensures IntNumbers(ItemOf(c))
  {
  }

  /** The special case of an object without members. */
  method EmptyObject(depth: nat, fmt: bool) returns (out: array<Byte>)
    requires !(fmt && depth == 0)
    ensures fresh(out) && out.Length == ObjectReserved([], [], depth, fmt)
    ensures Stored(out, [OPEN_BRACE] + (if fmt then [NEWLINE] + Tabs(depth - 1) else []) + [CLOSE_BRACE])
  {
    out := new Byte[if fmt then depth + 3 else 3];
    var q := PutChar(out, 0, OPEN_BRACE);
    if fmt {
      q := PutChar(out, q, NEWLINE);
      q := PutTabs(out, q, depth - 1);
    }
    q := PutChar(out, q, CLOSE_BRACE);
    out[q] := 0;
    assert out[..q] == [OPEN_BRACE] + (if fmt then [NEWLINE] + Tabs(depth - 1) else []) + [CLOSE_BRACE];
  }

  /** print_value, for numbers in int range. */
  method PrintValueText(item: Node, depth: nat, fmt: bool, ghost c: Cell) returns (out: array?<Byte>)
    requires Source(item, c) && !EmptyRoot(ItemOf(c), depth, fmt)
    ensures Holds(out, PrintValue(ItemOf(c), depth, fmt))
    ensures out != null ==> fresh(out) && out.Length == Reserved(ItemOf(c), depth, fmt)
    decreases c, 2
  {
    hide Source;
    hide ItemOf;
    hide ItemsOf;
    hide NodesOf;
    hide Stored;
    hide PrintArray;
    hide PrintObject;
    SourceParts(item, c);
    NumbersOf(item, c);
    match item.kind % 256 {
      case 2 => out := NewText(NULL_TEXT, 5);
      case 0 => out := NewText(FALSE_TEXT, 6);
      case 1 => out := NewText(TRUE_TEXT, 5);
      case 3 =>
        NumberLength(item.num);
        out := NewText(NumberText(item.num), 21);
      case 4 => out := PrintString(item.str);
      case 5 => out := PrintArrayText(item, depth, fmt, c);
      case 6 => out := PrintObjectText(item, depth, fmt, c);
      case _ => out := null;
    }
  }
}
