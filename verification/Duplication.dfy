/**
 Growing a tree of nodes at its last child, and cJSON_Duplicate.
 */
module Duplication {
  import opened CText
  import opened Json
  import opened Heap
  import opened Links

  ghost function Grown(d: Cell, e: Cell): Cell { d.(kids := d.kids + [e]) }

  lemma NodesOfGrown(ks: seq<Cell>, e: Cell)
    ensures NodesOf(ks + [e]) == NodesOf(ks) + Nodes(e)
  {
    hide Nodes;
    assert (ks + [e])[..|ks|] == ks;
  }

  lemma GrownNodes(d: Cell, e: Cell)
    ensures NodesOf(Grown(d, e).kids) == NodesOf(d.kids) + Nodes(e)
    ensures Nodes(Grown(d, e)) == Nodes(d) + Nodes(e)
  {
    hide NodesOf;
    NodesOfGrown(d.kids, e);
  }

  lemma GrownItem(d: Cell, e: Cell)
    ensures ItemOf(Grown(d, e)) == ItemOf(d).(kids := ItemOf(d).kids + [ItemOf(e)])
  {
    assert (d.kids + [e])[..|d.kids|] == d.kids;
  }

  lemma GrownKid(d: Cell, e: Cell, k: int)
    requires 0 <= k <= |d.kids|
    ensures Grown(d, e).kids[k] == if k < |d.kids| then d.kids[k] else e
  {
  }

  lemma GrownApart(d: Cell, e: Cell)
    requires Apart(d) && Apart(e) && Nodes(d) !! Nodes(e)
    ensures Apart(Grown(d, e))
  {
    hide Nodes;
    hide NodesOf;
    GrownNodes(d, e);
    KidsWithin(d);
    RootOf(d);
    var ks := Grown(d, e).kids;
    forall j, k | 0 <= j < k < |ks|
      ensures Nodes(ks[j]) !! Nodes(ks[k])
    {
      GrownKid(d, e, j);
      GrownKid(d, e, k);
    }
    forall k | 0 <= k < |ks|
      ensures Apart(ks[k])
    {
      GrownKid(d, e, k);
    }
  }

  lemma RootOf(d: Cell)
    ensures d.node in Nodes(d) && NodesOf(d.kids) <= Nodes(d)
  {
  }

  lemma KidsWithin(d: Cell)
    ensures forall k :: 0 <= k < |d.kids| ==> Nodes(d.kids[k]) <= Nodes(d)
    ensures forall n :: n in Heads(d.kids) ==> n in Nodes(d)
  {
    hide NodesOf;
  }

  /** What lies below the child at k is not touched by changes to the links of the row. */
  lemma BelowChild(d: Cell, k: int)
    requires Apart(d) && 0 <= k < |d.kids|
    ensures d.node !in Nodes(d.kids[k])
    ensures NodesOf(d.kids[k].kids) <= Nodes(d.kids[k]) <= Nodes(d)
    ensures forall n :: n in Heads(d.kids) ==> n !in NodesOf(d.kids[k].kids)
  {
    hide NodesOf;
    KidsWithin(d);
    RootOf(d.kids[k]);
    assert d.kids[k].node in NodesOf(d.kids);
    forall n | n in Heads(d.kids)
      ensures n !in NodesOf(d.kids[k].kids)
    {
      var j :| 0 <= j < |d.kids| && n == d.kids[j].node;
      RootOf(d.kids[j]);
      if j < k {
        assert Nodes(d.kids[j]) !! Nodes(d.kids[k]);
      } else if k < j {
        assert Nodes(d.kids[k]) !! Nodes(d.kids[j]);
      } else {
        assert Apart(d.kids[k]);
      }
    }
  }

  lemma HeadsDistinct(d: Cell)
    requires Apart(d)
    ensures Distinct(Heads(d.kids)) && d.node !in Heads(d.kids)
  {
    hide NodesOf;
    forall j, k | 0 <= j < k < |d.kids|
      ensures d.kids[j].node != d.kids[k].node
    {
      assert Nodes(d.kids[j]) !! Nodes(d.kids[k]);
    }
  }

  lemma TreeHeads(d: Cell)
    requires Tree(d)
    ensures forall k :: 0 <= k < |d.kids| ==> Heads(d.kids)[k] in Nodes(d) && Heads(d.kids)[k] != d.node
  {
    hide NodesOf;
    hide Nodes;
    HeadsDistinct(d);
    KidsWithin(d);
    forall k | 0 <= k < |d.kids|
      ensures Heads(d.kids)[k] in Nodes(d) && Heads(d.kids)[k] != d.node
    {
      assert Heads(d.kids)[k] in Heads(d.kids);
    }
  }

  // ----- growing

  /** A tree on whose last place a node has been hung that is not filled in yet. */
  ghost predicate Hung(d: Cell, kid: Node)
    reads d.node`kind, d.node`str, d.node`num, d.node`dbl, d.node`name, d.node`child, NodesOf(d.kids), kid`next, kid`prev
  {
    && Payload(d) && Apart(d)
    && Spelled(d.node, Heads(d.kids) + [kid])
    && forall k :: 0 <= k < |d.kids| ==> Linked(d.kids[k])
  }

  lemma TreeParts(d: Cell)
    requires Tree(d)
    ensures Payload(d) && Apart(d) && Spelled(d.node, Heads(d.kids))
    ensures forall k :: 0 <= k < |d.kids| ==> Linked(d.kids[k])
  {
  }

  lemma HungParts(d: Cell, kid: Node)
    requires Payload(d) && Apart(d) && Spelled(d.node, Heads(d.kids) + [kid])
    requires forall k :: 0 <= k < |d.kids| ==> Linked(d.kids[k])
    ensures Hung(d, kid)
  {
  }

  /** The first assignment of child, or the cross-linking of next and prev. */
  method Hang(parent: Node, last: Node?, kid: Node, ghost d: Cell)
    requires Tree(d) && d.node == parent && last == Last(Heads(d.kids)) && kid !in Nodes(d)
    requires kid.next == null && kid.prev == null
    modifies parent`child, Heads(d.kids)`next, kid`prev
    ensures Hung(d, kid) && kid.next == null
    ensures parent.next == old(parent.next) && parent.prev == old(parent.prev)
  {
    hide *;
    TreeParts(d);
    HeadsDistinct(d);
    KidsWithin(d);
    RootOf(d);
    assert allocated(NodesOf(d.kids));
    forall k | 0 <= k < |d.kids|
      ensures allocated(NodesOf(d.kids[k].kids))
    {
    }
    Append(parent, last, kid, Heads(d.kids));
    forall k | 0 <= k < |d.kids|
      ensures Linked(d.kids[k])
    {
      BelowChild(d, k);
    }
    HungParts(d, kid);
  }

  /** Once the hung node is a tree of its own, the whole is a tree again. */
  lemma Settle(d: Cell, e: Cell)
    requires Hung(d, e.node) && Tree(e) && Nodes(d) !! Nodes(e)
    ensures Tree(Grown(d, e))
    ensures Nodes(Grown(d, e)) == Nodes(d) + Nodes(e)
    ensures ItemOf(Grown(d, e)) == ItemOf(d).(kids := ItemOf(d).kids + [ItemOf(e)])
  {
    hide Nodes;
    hide NodesOf;
    hide ItemOf;
    hide Apart;
    GrownNodes(d, e);
    GrownItem(d, e);
    GrownApart(d, e);
    assert Heads(Grown(d, e).kids) == Heads(d.kids) + [e.node];
    forall k | 0 <= k < |Grown(d, e).kids|
      ensures Linked(Grown(d, e).kids[k])
    {
      GrownKid(d, e, k);
    }
  }

  // ----- cJSON_Duplicate

  /** type & ~cJSON_IsReference. */
  function ClearReference(kind: nat): nat {
    if kind / 256 % 2 == 1 then kind - 256 else kind
  }

  /** The value with every reference bit cleared. */
  function Stripped(t: Item): Item
    decreases t, 1
  {
    t.(kind := ClearReference(t.kind), kids := StrippedAll(t.kids))
  }

  function StrippedAll(ts: seq<Item>): (r: seq<Item>)
    ensures |r| == |ts|
    ensures forall k :: 0 <= k < |ts| ==> r[k] == Stripped(ts[k])
    decreases ts, 0
  {
    if ts == [] then [] else StrippedAll(ts[..|ts| - 1]) + [Stripped(ts[|ts| - 1])]
  }

  /** One value is the other without its reference bits, bit 8 of each type. */
  predicate CopyOf(u: Item, t: Item) {
    && u.kind / 256 % 2 == 0 && (u.kind == t.kind || u.kind + 256 == t.kind)
    && u.str == t.str && u.num == t.num && u.dbl == t.dbl && u.name == t.name
    && |u.kids| == |t.kids| && forall k :: 0 <= k < |t.kids| ==> CopyOf(u.kids[k], t.kids[k])
  }

  lemma {:induction false} StrippedCopies(t: Item)
    ensures CopyOf(Stripped(t), t) && CopyOf(Stripped(t).(kids := []), t.(kids := []))
    decreases t
  {
    forall k | 0 <= k < |t.kids|
      ensures CopyOf(Stripped(t).kids[k], t.kids[k])
    {
      StrippedCopies(t.kids[k]);
    }
  }

  lemma StrippedGrows(ts: seq<Item>, t: Item)
    ensures StrippedAll(ts + [t]) == StrippedAll(ts) + [Stripped(t)]
  {
    assert (ts + [t])[..|ts|] == ts;
  }

  lemma ItemsGrow(ks: seq<Cell>, k: int)
    requires 0 <= k < |ks|
    ensures ItemsOf(ks[..k + 1]) == ItemsOf(ks[..k]) + [ItemOf(ks[k])]
  {
    assert ks[..k + 1][..k] == ks[..k];
  }

  /** The first part: a new node with the scalar fields of the old one. */
  method CopyFields(item: Node, ghost c: Cell) returns (copy: Node, ghost d: Cell)
    requires Readable(c) && c.node == item
    ensures d.node == copy && fresh(copy) && Tree(d) && Nodes(d) == {copy} && d.kids == []
    ensures copy.next == null && copy.prev == null
    ensures ItemOf(d) == Stripped(ItemOf(c)).(kids := [])
  {
    hide *;
    ReadableParts(c);
    StrippedFields(c);
    copy := new Node();
    copy.kind, copy.num, copy.dbl := ClearReference(item.kind), item.num, item.dbl;
    copy.str, copy.name := item.str, item.name;
    d := Cell(copy, Item(copy.kind, copy.str, copy.num, copy.dbl, copy.name, []), []);
    PayloadIs(d);
    LeafTree(d);
  }

  lemma PayloadIs(d: Cell)
    requires d.data == Item(d.node.kind, d.node.str, d.node.num, d.node.dbl, d.node.name, [])
    ensures Payload(d)
  {
  }

  lemma StrippedFields(c: Cell)
    requires Payload(c)
    ensures Stripped(ItemOf(c)).(kids := [])
         == Item(ClearReference(c.node.kind), c.node.str, c.node.num, c.node.dbl, c.node.name, [])
  {
  }

  /** cJSON_Duplicate past its first test, on any node that can be read to the end,
      shared children and reference bits included. Every node of the copy is new. */
  method DuplicateItem(item: Node, recurse: bool, ghost c: Cell) returns (copy: Node, ghost d: Cell)
    requires Readable(c) && c.node == item
    ensures d.node == copy && Tree(d) && fresh(Nodes(d)) && copy.next == null && copy.prev == null
    ensures recurse ==> ItemOf(d) == Stripped(ItemOf(c))
    ensures !recurse ==> ItemOf(d) == Stripped(ItemOf(c)).(kids := [])
    decreases c
  {
    hide Readable;
    hide Tree;
    hide Hung;
    hide Nodes;
    hide NodesOf;
    hide ItemOf;
    hide ItemsOf;
    hide Stripped;
    hide StrippedAll;
    hide Payload;
    assert allocated(NodesOf(c.kids));
    ReadableParts(c);
    copy, d := CopyFields(item, c);
    if !recurse {
      return;
    }
    var cptr := item.child;
    var nptr: Node? := null;
    ghost var k := 0;
    while cptr != null
      invariant 0 <= k <= |c.kids| && Readable(c)
      invariant cptr == (if k < |c.kids| then c.kids[k].node else null)
      invariant d.node == copy && Tree(d) && fresh(Nodes(d)) && nptr == Last(Heads(d.kids))
      invariant copy.next == null && copy.prev == null
      invariant ItemOf(d) == Stripped(ItemOf(c)).(kids := StrippedAll(ItemsOf(c.kids[..k])))
      decreases |c.kids| - k
    {
      ReadChild(c, k);
      assert allocated(Nodes(d)) && allocated(NodesOf(d.kids));
      KidsWithin(d);
      ghost var e;
      var newchild;
      newchild, e := DuplicateItem(cptr, true, c.kids[k]);
      d := Attach(copy, nptr, newchild, d, e);
      nptr := newchild;
      cptr := cptr.next;
      ItemsGrow(c.kids, k);
      StrippedGrows(ItemsOf(c.kids[..k]), ItemOf(c.kids[k]));
      k := k + 1;
    }
    StrippedWhole(c);
  }

  /** cJSON_Duplicate: no copy of no item; else a tree of new nodes that is the item
      without its reference bits, and without children unless recursion is asked for. */
  method Duplicate(item: Node?, recurse: bool, ghost c: Cell) returns (copy: Node?, ghost d: Cell)
    requires item != null ==> Readable(c) && c.node == item
    ensures copy == null <==> item == null
    ensures item != null ==>
              && d.node == copy && Tree(d) && fresh(Nodes(d)) && copy.next == null && copy.prev == null
              && ItemOf(d) == (if recurse then Stripped(ItemOf(c)) else Stripped(ItemOf(c)).(kids := []))
              && CopyOf(ItemOf(d), if recurse then ItemOf(c) else ItemOf(c).(kids := []))
  {
    hide *;
    if item == null {
      return null, c;
    }
    StrippedCopies(ItemOf(c));
    copy, d := DuplicateItem(item, recurse, c);
  }

  /** Hanging a finished tree on the last place. */
  method Attach(parent: Node, last: Node?, kid: Node, ghost d: Cell, ghost e: Cell) returns (ghost d': Cell)
    requires Tree(d) && Tree(e) && Nodes(d) !! Nodes(e) && d.node == parent && e.node == kid
    requires last == Last(Heads(d.kids)) && kid.next == null && kid.prev == null
    modifies parent`child, Heads(d.kids)`next, kid`prev
    ensures d' == Grown(d, e) && Tree(d') && Nodes(d') == Nodes(d) + Nodes(e)
    ensures ItemOf(d') == ItemOf(d).(kids := ItemOf(d).kids + [ItemOf(e)])
    ensures kid.next == null && Last(Heads(d'.kids)) == kid
    ensures parent.next == old(parent.next) && parent.prev == old(parent.prev)
  {
    hide *;
    d' := Grown(d, e);
    RootOf(e);
    assert allocated(NodesOf(e.kids)) && allocated(Nodes(d));
    NotBelowItself(e);
    KidsWithin(d);
    RootOf(d);
    Hang(parent, last, kid, d);
    Settle(d, e);
    LastGrown(d, e);
  }

  lemma NotBelowItself(e: Cell)
    requires Tree(e)
    ensures e.node !in NodesOf(e.kids)
  {
  }

  lemma LastGrown(d: Cell, e: Cell)
    ensures Last(Heads(Grown(d, e).kids)) == e.node
  {
  }

  lemma StrippedWhole(c: Cell)
    ensures Stripped(ItemOf(c)).(kids := StrippedAll(ItemsOf(c.kids[..|c.kids|]))) == Stripped(ItemOf(c))
  {
    assert c.kids[..|c.kids|] == c.kids;
  }

  /** Clearing reference bits changes nothing that print_value looks at, so a copy
      prints the same text as its original. */
  lemma {:induction false} StrippedPrints(t: Item, depth: nat, fmt: bool)
    requires IntNumbers(t)
    ensures IntNumbers(Stripped(t))
    ensures PrintValue(Stripped(t), depth, fmt) == PrintValue(t, depth, fmt)
    decreases t, 1
  {
    assert ClearReference(t.kind) % 256 == t.kind % 256;
    if t.kind % 256 == ARRAY || t.kind % 256 == OBJECT {
      StrippedEach(t.kids, depth + 1, fmt);
    }
  }

  lemma {:induction false} StrippedEach(kids: seq<Item>, depth: nat, fmt: bool)
    requires forall k :: 0 <= k < |kids| ==> IntNumbers(kids[k])
    ensures forall k :: 0 <= k < |kids| ==> IntNumbers(StrippedAll(kids)[k])
    ensures PrintEach(StrippedAll(kids), depth, fmt) == PrintEach(kids, depth, fmt)
    ensures Names(StrippedAll(kids)) == Names(kids)
    decreases kids, 0
  {
    if kids != [] {
      StrippedPrints(kids[0], depth, fmt);
      StrippedEach(kids[1..], depth, fmt);
      assert StrippedAll(kids)[1..] == StrippedAll(kids[1..]);
    }
  }
}
