/**
 The pointer surgery on a chain of sibling nodes: the parent's child pointer and the
 next and prev pointers of the siblings spell out a sequence of nodes.
 */
module Links {
  import opened Heap

  ghost predicate Distinct(ns: seq<Node>) {
    forall j, k :: 0 <= j < k < |ns| ==> ns[j] != ns[k]
  }

  ghost function Without(ns: seq<Node>, i: nat): (r: seq<Node>)
    requires i < |ns|
    ensures |r| == |ns| - 1
    ensures forall k {:trigger r[k]} :: 0 <= k < |r| ==> r[k] == ns[if k < i then k else k + 1]
  {
    ns[..i] + ns[i + 1..]
  }

  /** Detaching the node at i leaves the others linked in order. */
  method Unlink(parent: Node, c: Node, ghost ns: seq<Node>, ghost i: nat)
    requires Spelled(parent, ns) && Distinct(ns) && i < |ns| && c == ns[i]
    modifies parent`child, ns`next, ns`prev
    ensures Spelled(parent, Without(ns, i))
    ensures c.next == null && c.prev == null
  {
    hide Without;
    assert c.next == NextIn(ns, i) && c.prev == PrevIn(ns, i);
    if c.prev != null {
      c.prev.next := c.next;
    }
    if c.next != null {
      c.next.prev := c.prev;
    }
    if c == parent.child {
      parent.child := c.next;
    }
    c.prev, c.next := null, null;
    ghost var r := Without(ns, i);
    forall k | 0 <= k < |r|
      ensures r[k].next == NextIn(r, k) && r[k].prev == PrevIn(r, k)
    {
      ghost var o := if k < i then k else k + 1;
      assert r[k] == ns[o] && ns[o] != c;
    }
  }

  /** Putting a new node in the place of the one at i. */
  method Exchange(parent: Node, c: Node, item: Node, ghost ns: seq<Node>, ghost i: nat)
    requires Spelled(parent, ns) && Distinct(ns) && i < |ns| && c == ns[i] && item !in ns
    modifies parent`child, ns`next, ns`prev, item`next, item`prev
    ensures Spelled(parent, ns[i := item])
    ensures c.next == null && c.prev == null
  {
    assert c.next == NextIn(ns, i) && c.prev == PrevIn(ns, i);
    item.next := c.next;
    item.prev := c.prev;
    if item.next != null {
      item.next.prev := item;
    }
    if c == parent.child {
      parent.child := item;
    } else {
      item.prev.next := item;
    }
    c.next, c.prev := null, null;
    ghost var r := ns[i := item];
    forall k | 0 <= k < |r|
      ensures r[k].next == NextIn(r, k) && r[k].prev == PrevIn(r, k)
    {
      assert ns[k] == c <==> k == i;
    }
  }

  /** Hanging a node behind the last one. */
  method Append(parent: Node, last: Node?, item: Node, ghost ns: seq<Node>)
    requires Spelled(parent, ns) && Distinct(ns) && item !in ns
    requires last == Last(ns)
    requires item.next == null && item.prev == null
    modifies parent`child, ns`next, item`prev
    ensures Spelled(parent, ns + [item])
  {
    if last == null {
      parent.child := item;
    } else {
      last.next := item;
      item.prev := last;
    }
  }
}
