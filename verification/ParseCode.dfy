/**
 The recursive-descent parser as it runs: nodes are allocated, hung on the growing
 chain of children and filled in. The heap it leaves is a well-formed tree of new
 nodes that stands for the value of the specification.
 */
module ParseCode {
  import opened CText
  import opened Strings
  import opened StringCode
  import opened Json
  import opened Heap
  import opened Links
  import opened Duplication

  datatype Outcome = Reached(end: nat) | Failed(ep: nat) | OutOfText

  predicate Agrees(out: Outcome, r: Parsed<Item>) {
    match r
    case Good(_, end) => out == Reached(end)
    case Bad(ep) => out == Failed(ep)
    case Undefined => out == OutOfText
  }

  /** A node that has no value yet; it may be linked and named. */
  ghost predicate Blank(item: Node)
    reads item
  {
    item.child == null && item.str == None && item.num == 0 && item.dbl == 0.0
  }

  /** skip. */
  method SkipBlank(s: CStr, i: nat) returns (r: nat)
    requires i <= |s|
    ensures r == Skip(s, i)
  {
    r := i;
    while At(s, r) != 0 && At(s, r) <= 32
      invariant i <= r <= |s| && Skip(s, i) == Skip(s, r)
      decreases |s| - r
    {
      r := r + 1;
    }
  }

  // ----- numbers

  method ReadDigits(s: CStr, i: nat, n: nat) returns (j: nat, v: nat)
    requires i <= |s|
    ensures j == DigitsEnd(s, i) && v == DigitsValue(s, i, j, n)
  {
    j, v := i, n;
    while IsDigit(At(s, j))
      invariant i <= j <= |s| && DigitsEnd(s, i) == DigitsEnd(s, j)
      invariant DigitsValue(s, i, DigitsEnd(s, i), n) == DigitsValue(s, j, DigitsEnd(s, i), v)
      decreases |s| - j
    {
      v := v * 10 + (s[j] as int - 48);
      j := j + 1;
    }
  }

  /** The fractional part: more digits, each lowering the scale by one. */
  method ReadFraction(s: CStr, p: nat, n: nat) returns (m: nat, scale: int, end: nat)
    requires p <= |s|
    ensures Fraction(s, p, n) == (m, -scale, end)
  {
    m, scale, end := n, 0, p;
    if At(s, p) == DOT && IsDigit(At(s, p + 1)) {
      end, m := ReadDigits(s, p + 1, n);
      scale := (p + 1) - end;
    }
  }

  /** The exponent and its sign. */
  method ReadExponent(s: CStr, p: nat) returns (subscale: nat, subsign: int, end: nat)
    requires p <= |s|
    ensures Exponent(s, p) == (subscale * subsign, end)
  {
    subscale, subsign, end := 0, 1, p;
    if At(s, p) == 101 || At(s, p) == 69 {
      end := end + 1;
      if At(s, end) == PLUS {
        end := end + 1;
      } else if At(s, end) == MINUS {
        subsign, end := -1, end + 1;
      }
      end, subscale := ReadDigits(s, end, 0);
    }
  }

  /** parse_number. */
  method ParseNumberNode(item: Node, s: CStr, i: nat) returns (end: nat)
    requires i < |s| && (s[i] == MINUS || IsDigit(s[i]))
    modifies item`kind, item`num, item`dbl
    ensures var t := ParseNumber(s, i).value;
      end == ParseNumber(s, i).end && item.kind == t.kind && item.num == t.num && item.dbl == t.dbl
  {
    hide Fraction;
    hide Exponent;
    hide DigitsEnd;
    hide DigitsValue;
    hide Power10;
    hide Truncate;
    hide NumberValue;
    var n, scale, subscale, subsign, sign := 0, 0, 0, 1, 1.0;
    end := i;
    if At(s, end) == MINUS {
      sign, end := -1.0, end + 1;
    }
    if At(s, end) == 48 {
      end := end + 1;
    }
    if 49 <= At(s, end) <= 57 {
      end, n := ReadDigits(s, end, n);
    } else {
      NoDigits(s, end);
    }
    n, scale, end := ReadFraction(s, end, n);
    subscale, subsign, end := ReadExponent(s, end);
    var exponent := scale + subscale * subsign;
    SignedValue(s[i] == MINUS, sign, n, exponent);
    assert ParseNumber(s, i).value == NumberItem(NumberValue(s[i] == MINUS, n, subscale * subsign - (-scale)));
    assert subscale * subsign - (-scale) == exponent;
    item.dbl := sign * (n as real) * Power10(exponent);
    item.num := Truncate(item.dbl);
    item.kind := NUMBER;
  }

  lemma SignedValue(negative: bool, sign: real, n: nat, exponent: int)
    requires sign == if negative then -1.0 else 1.0
    ensures sign * (n as real) * Power10(exponent) == NumberValue(negative, n, exponent)
  {
  }

  lemma NoDigits(s: CStr, p: nat)
    requires p <= |s|
    ensures DigitsValue(s, p, p, 0) == 0
  {
  }

  // ----- values

  /** The cell of a node whose fields have just been set and that has no children. */
  lemma FinishedLeaf(d: Cell, t: Item)
    requires d == Cell(d.node, t.(name := d.node.name), []) && t.kids == [] && d.node.child == null
    requires t == Item(d.node.kind, d.node.str, d.node.num, d.node.dbl, t.name, [])
    ensures Tree(d) && Nodes(d) == {d.node} && ItemOf(d) == t.(name := d.node.name)
  {
    LeafTree(d);
  }

  /** parse_value. */
  method ParseValueNode(item: Node, s: CStr, i: nat) returns (out: Outcome, ghost d: Cell)
    requires i <= |s| && Blank(item)
    modifies item`kind, item`child, item`str, item`num, item`dbl
    ensures Agrees(out, ParseValue(s, i))
    ensures out.Reached? ==>
      && d.node == item && Tree(d) && (forall n :: n in Nodes(d) ==> n == item || fresh(n))
      && ItemOf(d) == ParseValue(s, i).value.(name := item.name)
    decreases |s| - i, 1
  {
    hide Tree;
    hide Nodes;
    hide ItemOf;
    hide ParseArray;
    hide ParseObject;
    hide ParseNumber;
    hide StringAt;
    ghost var t := if ParseValue(s, i).Good? then ParseValue(s, i).value else Plain(NULL);
    d := Cell(item, t.(name := item.name), []);
    if Occurs(s, i, NULL_TEXT) {
      item.kind := NULL;
      out := Reached(i + 4);
    } else if Occurs(s, i, FALSE_TEXT) {
      item.kind := FALSE;
      out := Reached(i + 5);
    } else if Occurs(s, i, TRUE_TEXT) {
      item.kind, item.num := TRUE, 1;
      out := Reached(i + 4);
    } else if At(s, i) == QUOTE {
      var r, buffer := ParseString(s, i);
      match r {
        case Good(text, end) =>
          item.kind, item.str := STRING, Some(text);
          out := Reached(end);
        case Bad(ep) => return Failed(ep), d;
        case Undefined => return OutOfText, d;
      }
    } else if At(s, i) == MINUS || IsDigit(At(s, i)) {
      var end := ParseNumberNode(item, s, i);
      NumberShape(s, i);
      out := Reached(end);
    } else if At(s, i) == OPEN_BRACKET {
      out, d := ParseArrayNode(item, s, i);
      return;
    } else if At(s, i) == OPEN_BRACE {
      out, d := ParseObjectNode(item, s, i);
      return;
    } else {
      return Failed(i), d;
    }
    FinishedLeaf(d, t);
  }

  lemma NumberShape(s: CStr, i: nat)
    requires i < |s| && (s[i] == MINUS || IsDigit(s[i]))
    ensures var t := ParseNumber(s, i).value; t == Item(t.kind, None, t.num, t.dbl, None, [])
  {
  }

  // ----- arrays

  /** What is known of the array or object under construction. */
  ghost predicate Growing(d: Cell, item: Node, kind: nat, name: Option<CStr>) {
    d.node == item && d.data == Item(kind, None, 0, 0.0, name, [])
  }

  lemma NoHeads()
    ensures Last(Heads([])) == null
  {
  }

  lemma NoItems()
    ensures ItemsOf([]) == []
    ensures forall t: Item :: [] + [t] == [t]
  {
  }

  /** The start of parse_array and parse_object: the node gets its type. */
  method Begin(item: Node, kind: nat) returns (ghost d: Cell)
    requires Blank(item)
    modifies item`kind
    ensures Growing(d, item, kind, item.name) && d.kids == [] && Tree(d) && Nodes(d) == {item}
  {
    item.kind := kind;
    d := Cell(item, Item(kind, None, 0, 0.0, item.name, []), []);
    LeafTree(d);
  }

  lemma GrowingItem(d: Cell, item: Node, kind: nat, name: Option<CStr>)
    requires Growing(d, item, kind, name)
    ensures ItemOf(d) == Branch(kind, ItemsOf(d.kids)).(name := name)
  {
  }

  lemma GrownKids(d: Cell, e: Cell)
    ensures ItemsOf(Grown(d, e).kids) == ItemsOf(d.kids) + [ItemOf(e)]
    ensures Last(Heads(Grown(d, e).kids)) == e.node
    ensures Grown(d, e).node == d.node && Grown(d, e).data == d.data
  {
    GrownItem(d, e);
  }

  lemma Adopted(d: Cell, e: Cell)
    requires Hung(d, e.node) && Tree(e) && Nodes(d) !! Nodes(e)
    ensures Tree(Grown(d, e)) && Nodes(Grown(d, e)) == Nodes(d) + Nodes(e)
    ensures ItemsOf(Grown(d, e).kids) == ItemsOf(d.kids) + [ItemOf(e)]
    ensures Last(Heads(Grown(d, e).kids)) == e.node
    ensures Grown(d, e).node == d.node && Grown(d, e).data == d.data
  {
    hide *;
    Settle(d, e);
    GrownKids(d, e);
  }

  /** One element: a new node is linked behind the last one and parsed into. */
  method ParseElement(item: Node, last: Node?, s: CStr, from: nat, ghost d: Cell)
    returns (out: Outcome, child: Node, rest: nat, ghost d': Cell)
    requires from <= |s| && Tree(d) && d.node == item && last == Last(Heads(d.kids))
    modifies item`child, Heads(d.kids)`next
    ensures Agrees(out, ParseValue(s, Skip(s, from)))
    ensures out.Reached? ==>
      && rest == Skip(s, out.end)
      && Tree(d') && d'.node == item && d'.data == d.data && child == Last(Heads(d'.kids))
      && (forall n :: n in Nodes(d') ==> n in Nodes(d) || fresh(n))
      && ItemsOf(d'.kids) == ItemsOf(d.kids) + [ParseValue(s, Skip(s, from)).value]
    decreases |s| - from, 2
  {
    hide Skip;
    hide Heads;
    hide Last;
    hide Grown;
    hide Tree;
    hide Hung;
    hide Nodes;
    hide NodesOf;
    hide ItemOf;
    hide ItemsOf;
    hide ParseValue;
    assert allocated(Nodes(d)) && allocated(NodesOf(d.kids));
    d', rest := d, from;
    var p := SkipBlank(s, from);
    child := new Node();
    Hang(item, last, child, d);
    ghost var e;
    out, e := ParseValueNode(child, s, p);
    if out.Reached? {
      Adopted(d, e);
      d' := Grown(d, e);
      assert allocated(Nodes(d')) && allocated(NodesOf(d'.kids));
      rest := SkipBlank(s, out.end);
    }
  }

  /** parse_array. */
  method ParseArrayNode(item: Node, s: CStr, i: nat) returns (out: Outcome, ghost d: Cell)
    requires i < |s| && Blank(item)
    modifies item`kind, item`child
    ensures Agrees(out, ParseArray(s, i))
    ensures out.Reached? ==>
      && d.node == item && Tree(d) && (forall n :: n in Nodes(d) ==> n == item || fresh(n))
      && ItemOf(d) == ParseArray(s, i).value.(name := item.name)
    decreases |s| - i, 0
  {
    hide Skip;
    hide Tree;
    hide Nodes;
    hide NodesOf;
    hide ItemOf;
    hide ParseValue;
    hide ItemsOf;
    hide Heads;
    hide Last;
    hide ArrayRest;
    hide Payload;
    hide Apart;
    hide StringAt;
    d := Begin(item, ARRAY);
    NoItems();
    NoHeads();
    assert allocated(Nodes(d)) && allocated(NodesOf(d.kids));
    var value := SkipBlank(s, i + 1);
    if At(s, value) == CLOSE_BRACKET {
      GrowingItem(d, item, ARRAY, item.name);
      return Reached(value + 1), d;
    }
    SkipNothing(s, value);
    var child;
    out, child, value, d := ParseElement(item, null, s, value, d);
    if !out.Reached? {
      return;
    }
    ArrayStart(s, i, ParseValue(s, Skip(s, i + 1)).value, out.end);
    while At(s, value) == COMMA
      invariant i < value <= |s|
      invariant Tree(d) && Growing(d, item, ARRAY, item.name) && (forall n :: n in Nodes(d) ==> n == item || fresh(n)) && child == Last(Heads(d.kids))
      invariant ParseArray(s, i) == ArrayRest(s, value, ItemsOf(d.kids))
      decreases |s| - value
    {
      TreeHeads(d);
      ghost var before := ItemsOf(d.kids);
      assert forall k :: 0 <= k < |d.kids| ==> fresh(Heads(d.kids)[k]);
      ghost var comma := value;
      out, child, value, d := ParseElement(item, child, s, value + 1, d);
      if !out.Reached? {
        ArrayFails(s, comma, before);
        return;
      }
      ArrayTurn(s, comma, before, ParseValue(s, Skip(s, comma + 1)).value, out.end);
    }
    ArrayStop(s, value, ItemsOf(d.kids));
    GrowingItem(d, item, ARRAY, item.name);
    out := if At(s, value) == CLOSE_BRACKET then Reached(value + 1) else Failed(value);
  }

  // ----- objects

  /** The name of a member and the position behind its colon. */
  function NameAt(s: CStr, i: nat): (r: Parsed<CStr>)
    requires i <= |s|
    ensures r.Good? ==> i < r.end <= |s|
  {
    match StringAt(s, i)
    case Bad(ep) => Bad(ep)
    case Undefined => Undefined
    case Good(name, end) =>
      var p := Skip(s, end);
      if At(s, p) != COLON then Bad(p) else Good(name, Skip(s, p + 1))
  }

  lemma MemberByName(s: CStr, i: nat)
    requires i <= |s|
    ensures ParseMember(s, i)
         == match NameAt(s, i)
            case Bad(ep) => Bad(ep)
            case Undefined => Undefined
            case Good(name, v) =>
              match ParseValue(s, v)
              case Good(kid, end) => Good(kid.(name := Some(name)), end)
              case Bad(ep) => Bad(ep)
              case Undefined => Undefined
  {
    hide StringAt;
    hide Skip;
    hide ParseValue;
  }

  lemma MemberFails(s: CStr, i: nat, out: Outcome)
    requires i <= |s| && !NameAt(s, i).Good?
    requires out == if NameAt(s, i).Bad? then Failed(NameAt(s, i).ep) else OutOfText
    ensures Agrees(out, ParseMember(s, i))
  {
    MemberByName(s, i);
    hide NameAt;
    hide ParseMember;
  }

  lemma MemberAgrees(s: CStr, i: nat, out: Outcome)
    requires i <= |s| && NameAt(s, i).Good? && Agrees(out, ParseValue(s, NameAt(s, i).end))
    ensures Agrees(out, ParseMember(s, i)) && (out.Reached? <==> ParseMember(s, i).Good?)
    ensures out.Reached? ==>
      ParseValue(s, NameAt(s, i).end).Good? && i < out.end <= |s|
      && ParseMember(s, i).value == ParseValue(s, NameAt(s, i).end).value.(name := Some(NameAt(s, i).value))
  {
    MemberByName(s, i);
    hide NameAt;
    hide ParseMember;
    hide ParseValue;
  }

  /** The name is parsed into the new node as its string value and then becomes its
      name. */
  method ParseNameNode(child: Node, s: CStr, p: nat) returns (out: Outcome)
    requires p <= |s| && Blank(child)
    modifies child`kind, child`str, child`name
    ensures match NameAt(s, p)
            case Bad(ep) => out == Failed(ep)
            case Undefined => out == OutOfText
            case Good(name, end) => out == Reached(end) && child.name == Some(name)
    ensures out.Reached? ==> Blank(child)
  {
    hide StringAt;
    hide Skip;
    var r, buffer := ParseString(s, p);
    if r.Bad? {
      return Failed(r.ep);
    }
    if r.Undefined? {
      return OutOfText;
    }
    child.kind, child.str := STRING, Some(r.value);
    var value := SkipBlank(s, r.end);
    child.name, child.str := child.str, None;
    if At(s, value) != COLON {
      return Failed(value);
    }
    value := SkipBlank(s, value + 1);
    out := Reached(value);
  }

  lemma BlankNode(child: Node)
    ensures child.child == null && child.str == None && child.num == 0 && child.dbl == 0.0 ==> Blank(child)
  {
  }

  /** One member: a new node is linked behind the last one, named and parsed into. */
  method ParseMemberNode(item: Node, last: Node?, s: CStr, from: nat, ghost d: Cell)
    returns (out: Outcome, child: Node, rest: nat, ghost d': Cell)
    requires from <= |s| && Tree(d) && d.node == item && last == Last(Heads(d.kids))
    modifies item`child, Heads(d.kids)`next
    ensures Agrees(out, ParseMember(s, Skip(s, from)))
    ensures out.Reached? ==>
      && rest == Skip(s, out.end)
      && Tree(d') && d'.node == item && d'.data == d.data && child == Last(Heads(d'.kids))
      && (forall n :: n in Nodes(d') ==> n in Nodes(d) || fresh(n))
      && ItemsOf(d'.kids) == ItemsOf(d.kids) + [ParseMember(s, Skip(s, from)).value]
    decreases |s| - from, 2
  {
    hide *;
    assert allocated(Nodes(d)) && allocated(NodesOf(d.kids));
    d', rest := d, from;
    var p := SkipBlank(s, from);
    child := new Node();
    Hang(item, last, child, d);
    BlankNode(child);
    out := ParseNameNode(child, s, p);
    if !out.Reached? {
      MemberFails(s, p, out);
      return;
    }
    ghost var e;
    out, e := ParseValueNode(child, s, out.end);
    MemberAgrees(s, p, out);
    if out.Reached? {
      Adopted(d, e);
      d' := Grown(d, e);
      assert allocated(Nodes(d')) && allocated(NodesOf(d'.kids));
      rest := SkipBlank(s, out.end);
    }
  }

  /** parse_object. */
  method ParseObjectNode(item: Node, s: CStr, i: nat) returns (out: Outcome, ghost d: Cell)
    requires i < |s| && Blank(item)
    modifies item`kind, item`child
    ensures Agrees(out, ParseObject(s, i))
    ensures out.Reached? ==>
      && d.node == item && Tree(d) && (forall n :: n in Nodes(d) ==> n == item || fresh(n))
      && ItemOf(d) == ParseObject(s, i).value.(name := item.name)
    decreases |s| - i, 0
  {
    hide Skip;
    hide Tree;
    hide Nodes;
    hide NodesOf;
    hide ItemOf;
    hide ParseMember;
    hide ItemsOf;
    hide Heads;
    hide Last;
    hide ObjectRest;
    hide Payload;
    hide Apart;
    hide StringAt;
    d := Begin(item, OBJECT);
    NoItems();
    NoHeads();
    assert allocated(Nodes(d)) && allocated(NodesOf(d.kids));
    var value := SkipBlank(s, i + 1);
    if At(s, value) == CLOSE_BRACE {
      GrowingItem(d, item, OBJECT, item.name);
      return Reached(value + 1), d;
    }
    SkipNothing(s, value);
    var child;
    out, child, value, d := ParseMemberNode(item, null, s, value, d);
    if !out.Reached? {
      return;
    }
    ObjectStart(s, i, ParseMember(s, Skip(s, i + 1)).value, out.end);
    while At(s, value) == COMMA
      invariant i < value <= |s|
      invariant Tree(d) && Growing(d, item, OBJECT, item.name) && (forall n :: n in Nodes(d) ==> n == item || fresh(n)) && child == Last(Heads(d.kids))
      invariant ParseObject(s, i) == ObjectRest(s, value, ItemsOf(d.kids))
      decreases |s| - value
    {
      TreeHeads(d);
      ghost var before := ItemsOf(d.kids);
      assert forall k :: 0 <= k < |d.kids| ==> fresh(Heads(d.kids)[k]);
      ghost var comma := value;
      out, child, value, d := ParseMemberNode(item, child, s, value + 1, d);
      if !out.Reached? {
        ObjectFails(s, comma, before);
        return;
      }
      ObjectTurn(s, comma, before, ParseMember(s, Skip(s, comma + 1)).value, out.end);
    }
    ObjectStop(s, value, ItemsOf(d.kids));
    GrowingItem(d, item, OBJECT, item.name);
    out := if At(s, value) == CLOSE_BRACE then Reached(value + 1) else Failed(value);
  }

  /** cJSON_ParseWithOpts: null and an error position on failure. */
  method ParseWithOpts(s: CStr, requireEnd: bool) returns (root: Node?, out: Outcome, ghost d: Cell)
    ensures Agrees(out, ParseText(s, requireEnd))
    ensures out.Reached? <==> root != null
    ensures root != null ==>
      && d.node == root && Tree(d) && fresh(Nodes(d))
      && ItemOf(d) == ParseText(s, requireEnd).value
  {
    hide ParseValue;
    hide Tree;
    hide ItemOf;
    var c := new Node();
    root := null;
    var p := SkipBlank(s, 0);
    out, d := ParseValueNode(c, s, p);
    if !out.Reached? {
      return;
    }
    var end := out.end;
    assert allocated(NodesOf(d.kids)) && allocated(Nodes(d));
    if requireEnd {
      end := SkipBlank(s, end);
      if At(s, end) != 0 {
        out := Failed(end);
        return;
      }
    }
    root, out := c, Reached(end);
  }
}
