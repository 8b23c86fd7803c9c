/**
 cJSON nodes on the heap. A ghost Cell names the node and everything below it; the
 predicates say that the pointers of the heap spell out exactly that tree.
 */
module Heap {
  import opened CText
  import opened Json

  class Node {
    var next: Node?
    var prev: Node?
    var child: Node?
    var kind: nat
    var str: Option<CStr>
    var num: int
    var dbl: real
    var name: Option<CStr>

    /** cJSON_New_Item: all fields zero. */
    constructor ()
      ensures next == null && prev == null && child == null
      ensures kind == 0 && str == None && num == 0 && dbl == 0.0 && name == None
    {
      next, prev, child := null, null, null;
      kind, str, num, dbl, name := 0, None, 0, 0.0, None;
    }
  }

  /** A node, the scalar fields it holds, and its children. */
  datatype Cell = Cell(node: Node, data: Item, kids: seq<Cell>)

  ghost function Nodes(c: Cell): (r: set<Node>)
    ensures c.node in r
    decreases c, 0
  {
    {c.node} + NodesOf(c.kids)
  }

  ghost function NodesOf(ks: seq<Cell>): (r: set<Node>)
    ensures forall k {:trigger ks[k]} :: 0 <= k < |ks| ==> ks[k].node in r && Nodes(ks[k]) <= r
    decreases ks
  {
    if ks == [] then {}
    else
      var init := ks[..|ks| - 1];
      assert forall k :: 0 <= k < |init| ==> ks[k] == init[k];
      NodesOf(init) + Nodes(ks[|ks| - 1])
  }

  /** The value a cell stands for. */
  ghost function ItemOf(c: Cell): Item
    decreases c, 0
  {
    c.data.(kids := ItemsOf(c.kids))
  }

  ghost function ItemsOf(ks: seq<Cell>): (r: seq<Item>)
    ensures |r| == |ks|
    decreases ks
  {
    if ks == [] then [] else ItemsOf(ks[..|ks| - 1]) + [ItemOf(ks[|ks| - 1])]
  }

  ghost predicate Payload(c: Cell)
    reads c.node`kind, c.node`str, c.node`num, c.node`dbl, c.node`name
  {
    c.data == Item(c.node.kind, c.node.str, c.node.num, c.node.dbl, c.node.name, [])
  }

  // ----- chains of siblings

  ghost function NextIn(ns: seq<Node>, k: int): Node?
    requires 0 <= k < |ns|
  {
    if k + 1 < |ns| then ns[k + 1] else null
  }

  ghost function PrevIn(ns: seq<Node>, k: int): Node?
    requires 0 <= k < |ns|
  {
    if k > 0 then ns[k - 1] else null
  }

  ghost function First(ns: seq<Node>): Node? { if |ns| > 0 then ns[0] else null }

  ghost function Last(ns: seq<Node>): Node? { if |ns| > 0 then ns[|ns| - 1] else null }

  /** The child pointer and the next pointers lead through ns to the end. */
  ghost predicate Forward(parent: Node, ns: seq<Node>)
    reads parent`child, ns`next
  {
    && parent.child == First(ns)
    && forall k {:trigger ns[k].next} :: 0 <= k < |ns| ==> ns[k].next == NextIn(ns, k)
  }

  /** The same, with every prev pointer leading back. */
  ghost predicate Spelled(parent: Node, ns: seq<Node>)
    reads parent`child, ns`next, ns`prev
  {
    && Forward(parent, ns)
    && forall k {:trigger ns[k].prev} :: 0 <= k < |ns| ==> ns[k].prev == PrevIn(ns, k)
  }

  /** The nodes of the children, in order. */
  ghost function Heads(ks: seq<Cell>): (r: seq<Node>)
    ensures |r| == |ks| && forall k :: 0 <= k < |ks| ==> r[k] == ks[k].node
  {
    seq(|ks|, k requires 0 <= k < |ks| => ks[k].node)
  }

  // ----- trees

  /** Following child and next from the node finds exactly this cell. Nodes may be
      shared, as the children of a reference node are. */
  ghost predicate Readable(c: Cell)
    reads c.node`kind, c.node`str, c.node`num, c.node`dbl, c.node`name, c.node`child, NodesOf(c.kids)
    decreases c
  {
    && Payload(c)
    && Forward(c.node, Heads(c.kids))
    && forall k :: 0 <= k < |c.kids| ==> Readable(c.kids[k])
  }

  /** Readable, with the prev pointers in place at every level. */
  ghost predicate Linked(c: Cell)
    reads c.node`kind, c.node`str, c.node`num, c.node`dbl, c.node`name, c.node`child, NodesOf(c.kids)
    decreases c
  {
    && Payload(c)
    && Spelled(c.node, Heads(c.kids))
    && forall k :: 0 <= k < |c.kids| ==> Linked(c.kids[k])
  }

  /** No two places of the cell share a node. */
  ghost predicate Apart(c: Cell)
    decreases c
  {
    && c.node !in NodesOf(c.kids)
    && AllApart(c.kids)
    && forall k :: 0 <= k < |c.kids| ==> Apart(c.kids[k])
  }

  ghost predicate AllApart(ks: seq<Cell>) {
    forall j, k :: 0 <= j < k < |ks| ==> Nodes(ks[j]) !! Nodes(ks[k])
  }

  /** A well-formed tree: doubly linked chains, every node in one place. */
  ghost predicate Tree(c: Cell)
    reads c.node`kind, c.node`str, c.node`num, c.node`dbl, c.node`name, c.node`child, NodesOf(c.kids)
  {
    Linked(c) && Apart(c)
  }

  lemma ReadableParts(c: Cell)
    requires Readable(c)
    ensures Payload(c) && c.node.child == if |c.kids| > 0 then c.kids[0].node else null
  {
  }

  lemma ReadChild(c: Cell, k: int)
    requires Readable(c) && 0 <= k < |c.kids|
    ensures Readable(c.kids[k])
    ensures c.kids[k].node.next == if k + 1 < |c.kids| then c.kids[k + 1].node else null
  {
    assert Heads(c.kids)[k].next == NextIn(Heads(c.kids), k);
  }

  /** What the links of a tree are, pointer by pointer, at the root and so at every level. */
  lemma TreeLinks(c: Cell)
    requires Tree(c)
    ensures c.data == Item(c.node.kind, c.node.str, c.node.num, c.node.dbl, c.node.name, [])
    ensures c.node.child == if c.kids == [] then null else c.kids[0].node
    ensures forall k :: 0 <= k < |c.kids| ==>
      && Tree(c.kids[k])
      && c.kids[k].node.next == (if k + 1 < |c.kids| then c.kids[k + 1].node else null)
      && c.kids[k].node.prev == if k > 0 then c.kids[k - 1].node else null
  {
    var ns := Heads(c.kids);
    forall k | 0 <= k < |c.kids|
      ensures ns[k].next == NextIn(ns, k) && ns[k].prev == PrevIn(ns, k) && ns[k] == c.kids[k].node
    {
    }
  }

  lemma LeafTree(c: Cell)
    requires c.kids == [] && Payload(c) && c.node.child == null
    ensures Tree(c) && Nodes(c) == {c.node} && ItemOf(c) == c.data
  {
  }
}
