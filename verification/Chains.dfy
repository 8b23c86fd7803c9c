/**
 The edits of child chains: add, detach, replace, look up. Each acts on the sequence
 of children and leaves next, prev and child consistent.
 */
module Chains {
  import opened CText
  import opened Json
  import opened Heap
  import opened Links

  // ----- names

  /** tolower in the C locale. */
  function ToLower(c: Byte): Byte { if 65 <= c <= 90 then c + 32 else c }

  /** The same byte, or the capital and the small form of one letter. */
  predicate SameLetter(c: Byte, d: Byte) { c == d || (65 <= c <= 90 && d == c + 32) || (65 <= d <= 90 && c == d + 32) }

  predicate SameLetters(x: CStr, y: CStr) {
    |x| == |y| && forall k :: 0 <= k < |x| ==> SameLetter(x[k], y[k])
  }

  /** Two names that are equal up to case, or both missing. */
  predicate SameName(a: Option<CStr>, b: Option<CStr>) {
    match (a, b)
    case (None, None) => true
    case (Some(x), Some(y)) => SameLetters(x, y)
    case _ => false
  }

  /** cJSON_strcasecmp: zero exactly for names equal up to case. */
  method StrCaseCmp(a: Option<CStr>, b: Option<CStr>) returns (r: int)
    ensures r == 0 <==> SameName(a, b)
    ensures r == 0 <==>
      || (a.None? && b.None?)
      || (a.Some? && b.Some? && |a.value| == |b.value|
          && forall k :: 0 <= k < |a.value| ==>
               || a.value[k] == b.value[k]
               || (65 <= a.value[k] <= 90 && b.value[k] == a.value[k] + 32)
               || (65 <= b.value[k] <= 90 && a.value[k] == b.value[k] + 32))
  {
    if a.None? {
      return if b.None? then 0 else 1;
    }
    if b.None? {
      return 1;
    }
    var x, y := a.value, b.value;
    var k := 0;
    while ToLower(At(x, k)) == ToLower(At(y, k))
      invariant k <= |x| && k <= |y|
      invariant forall j :: 0 <= j < k ==> SameLetter(x[j], y[j])
      decreases |x| - k
    {
      if At(x, k) == 0 {
        assert SameLetters(x, y);
        return 0;
      }
      k := k + 1;
    }
    r := ToLower(At(x, k)) - ToLower(At(y, k));
    if k < |x| && k < |y| {
      assert !SameLetter(x[k], y[k]);
    }
  }

  /** "Name" is found as "nAME"; "Name" and "Nam" are different names. */
  lemma NamesExample()
    ensures SameName(Some([78, 97, 109, 101]), Some([110, 65, 77, 69]))
    ensures !SameName(Some([78, 97, 109, 101]), Some([78, 97, 109])) && !SameName(Some([78]), Some([79]))
  {
    var x: CStr, y: CStr := [78], [79];
    assert !SameLetter(x[0], y[0]);
  }

  /** The position of the first child with this name, or the number of children. */
  ghost function Find(ks: seq<Cell>, name: Option<CStr>): (r: nat)
    ensures r <= |ks|
    ensures r < |ks| ==> SameName(ks[r].data.name, name)
    ensures forall k :: 0 <= k < r ==> !SameName(ks[k].data.name, name)
  {
    if ks == [] || SameName(ks[0].data.name, name) then 0 else 1 + Find(ks[1..], name)
  }

  lemma {:induction false} FindIs(ks: seq<Cell>, name: Option<CStr>, i: nat)
    requires i <= |ks| && forall k :: 0 <= k < i ==> !SameName(ks[k].data.name, name)
    requires i < |ks| ==> SameName(ks[i].data.name, name)
    ensures Find(ks, name) == i
  {
    if i > 0 {
      FindIs(ks[1..], name, i - 1);
    }
  }

  // ----- rows

  /** The nodes of the row are distinct, and none of them occurs below a child. What
      lies below the children may be shared, so references are allowed. */
  ghost predicate Separate(d: Cell) {
    && d.node !in Heads(d.kids)
    && Distinct(Heads(d.kids))
    && forall k :: 0 <= k < |d.kids| ==> Outside(d, d.kids[k])
  }

  /** Neither the parent nor a child of d lies below e. */
  ghost predicate Outside(d: Cell, e: Cell) {
    && d.node !in NodesOf(e.kids)
    && forall n :: n in Heads(d.kids) ==> n !in NodesOf(e.kids)
  }

  /** A parent whose children form a doubly linked chain of readable cells. */
  ghost predicate Row(d: Cell)
    reads d.node`kind, d.node`str, d.node`num, d.node`dbl, d.node`name, d.node`child
    reads Heads(d.kids)`next, Heads(d.kids)`prev, NodesOf(d.kids)
  {
    && Payload(d)
    && Spelled(d.node, Heads(d.kids))
    && Separate(d)
    && forall k :: 0 <= k < |d.kids| ==> Readable(d.kids[k])
  }

  /** e can join the row d: its root is new to the row and nothing below crosses. */
  ghost predicate Joins(d: Cell, e: Cell) {
    && e.node != d.node && e.node !in Heads(d.kids)
    && Outside(d, e) && e.node !in NodesOf(e.kids)
    && forall k :: 0 <= k < |d.kids| ==> e.node !in NodesOf(d.kids[k].kids)
  }

  lemma RowHead(d: Cell)
    requires Row(d)
    ensures Payload(d) && Separate(d) && Spelled(d.node, Heads(d.kids))
    ensures d.node.child == if |d.kids| > 0 then d.kids[0].node else null
  {
  }

  /** What the links of a row are, pointer by pointer. */
  lemma RowLinks(d: Cell)
    requires Row(d)
    ensures d.node.child == if d.kids == [] then null else d.kids[0].node
    ensures forall k :: 0 <= k < |d.kids| ==>
      && d.kids[k].node.next == (if k + 1 < |d.kids| then d.kids[k + 1].node else null)
      && d.kids[k].node.prev == if k > 0 then d.kids[k - 1].node else null
  {
    var ns := Heads(d.kids);
    forall k | 0 <= k < |d.kids|
      ensures ns[k].next == NextIn(ns, k) && ns[k].prev == PrevIn(ns, k) && ns[k] == d.kids[k].node
    {
    }
  }

  lemma RowChild(d: Cell, k: int)
    requires Row(d) && 0 <= k < |d.kids|
    ensures Readable(d.kids[k]) && d.kids[k].node in NodesOf(d.kids)
    ensures d.kids[k].node.next == if k + 1 < |d.kids| then d.kids[k + 1].node else null
    ensures d.kids[k].data == Item(d.kids[k].node.kind, d.kids[k].node.str, d.kids[k].node.num, d.kids[k].node.dbl, d.kids[k].node.name, [])
  {
    assert Heads(d.kids)[k].next == NextIn(Heads(d.kids), k);
  }

  // ----- reading a row

  /** cJSON_GetArraySize. */
  method GetArraySize(parent: Node, ghost d: Cell) returns (n: nat)
    requires Row(d) && d.node == parent
    ensures n == |d.kids|
  {
    hide Row;
    hide Readable;
    RowHead(d);
    var c := parent.child;
    n := 0;
    while c != null
      invariant n <= |d.kids| && Row(d)
      invariant c == if n < |d.kids| then d.kids[n].node else null
      decreases |d.kids| - n
    {
      RowChild(d, n);
      n, c := n + 1, c.next;
    }
  }

  /** cJSON_GetArrayItem; a negative index gives the first child. */
  method GetArrayItem(parent: Node, item: int, ghost d: Cell) returns (c: Node?)
    requires Row(d) && d.node == parent
    ensures var i := if item < 0 then 0 else item; c == if i < |d.kids| then d.kids[i].node else null
  {
    hide *;
    RowHead(d);
    c := parent.child;
    var left := item;
    ghost var k := 0;
    while c != null && left > 0
      invariant 0 <= k <= |d.kids| && Row(d)
      invariant c == if k < |d.kids| then d.kids[k].node else null
      invariant left == item - k && (item >= 0 ==> left >= 0) && (item < 0 ==> k == 0)
      decreases |d.kids| - k
    {
      RowChild(d, k);
      c, left, k := c.next, left - 1, k + 1;
    }
  }

  /** cJSON_GetObjectItem: the first child of that name, whatever its case. */
  method GetObjectItem(parent: Node, name: Option<CStr>, ghost d: Cell) returns (c: Node?, i: nat)
    requires Row(d) && d.node == parent
    ensures i == Find(d.kids, name)
    ensures c == if i < |d.kids| then d.kids[i].node else null
  {
    hide Row;
    hide Readable;
    hide NodesOf;
    hide Find;
    hide SameName;
    RowHead(d);
    assert allocated(NodesOf(d.kids));
    c, i := parent.child, 0;
    while c != null
      invariant i <= |d.kids| && Row(d)
      invariant c == if i < |d.kids| then d.kids[i].node else null
      invariant forall k :: 0 <= k < i ==> !SameName(d.kids[k].data.name, name)
      decreases |d.kids| - i
    {
      RowChild(d, i);
      var differ := StrCaseCmp(c.name, name);
      if differ == 0 {
        break;
      }
      c, i := c.next, i + 1;
    }
    FindIs(d.kids, name, i);
  }

  // ----- changing a row

  lemma SeparateParts(d: Cell)
    requires Separate(d)
    ensures d.node !in Heads(d.kids) && Distinct(Heads(d.kids))
  {
  }

  /** The child at k, or a newcomer, is not touched when the links of the row change. */
  lemma SeparateAt(d: Cell, k: int)
    requires Separate(d) && 0 <= k < |d.kids|
    ensures Outside(d, d.kids[k]) && d.kids[k].node != d.node && d.kids[k].node in Heads(d.kids)
  {
    assert d.kids[k].node == Heads(d.kids)[k];
  }

  lemma JoinSeparate(d: Cell, e: Cell)
    requires Separate(d) && Joins(d, e)
    ensures Separate(d.(kids := d.kids + [e]))
    ensures Heads(d.kids + [e]) == Heads(d.kids) + [e.node]
    ensures Outside(d, e) && e.node != d.node && e.node !in Heads(d.kids) && e.node !in NodesOf(e.kids)
    ensures forall k :: 0 <= k < |d.kids| ==> e.node !in NodesOf(d.kids[k].kids)
  {
    hide NodesOf;
    var ks := d.kids + [e];
    assert Heads(ks) == Heads(d.kids) + [e.node];
    forall k | 0 <= k < |ks|
      ensures Outside(d.(kids := ks), ks[k])
    {
      assert ks[k] == if k < |d.kids| then d.kids[k] else e;
    }
  }

  /** Reassembling a row from its parts. */
  lemma RowAgain(d: Cell)
    requires Payload(d) && Spelled(d.node, Heads(d.kids)) && Separate(d)
    requires forall k :: 0 <= k < |d.kids| ==> Readable(d.kids[k])
    ensures Row(d)
  {
  }

  /** The walk along next to the last child. */
  method LastChild(parent: Node, ghost d: Cell) returns (c: Node?)
    requires Row(d) && d.node == parent
    ensures c == Last(Heads(d.kids))
  {
    hide Row;
    RowHead(d);
    c := parent.child;
    if c == null {
      return;
    }
    ghost var k := 0;
    RowChild(d, k);
    while c.next != null
      invariant 0 <= k < |d.kids| && c == d.kids[k].node && Row(d)
      invariant c.next == if k + 1 < |d.kids| then d.kids[k + 1].node else null
      decreases |d.kids| - k
    {
      c, k := c.next, k + 1;
      RowChild(d, k);
    }
  }

  /** An item that may be added to this row: a finished one of its own, or none. */
  ghost predicate Addable(item: Node?, d: Cell, e: Cell)
    reads e.node`kind, e.node`str, e.node`num, e.node`dbl, e.node`name, e.node`child, NodesOf(e.kids), item
  {
    item != null ==> Readable(e) && e.node == item && Joins(d, e) && item.next == null && item.prev == null
  }

  /** The rest of cJSON_AddItemToArray, with an item. */
  method AppendItem(parent: Node, item: Node, ghost d: Cell, ghost e: Cell) returns (ghost d': Cell)
    requires Row(d) && d.node == parent && Addable(item, d, e)
    modifies parent`child, Heads(d.kids)`next, Heads(d.kids)`prev, item`prev
    ensures d' == d.(kids := d.kids + [e]) && Row(d')
  {
    hide Row;
    hide Readable;
    hide NodesOf;
    hide Separate;
    hide Joins;
    hide Spelled;
    assert allocated(NodesOf(d.kids)) && allocated(NodesOf(e.kids));
    var c := LastChild(parent, d);
    d' := d.(kids := d.kids + [e]);
    RowHead(d);
    SeparateParts(d);
    JoinSeparate(d, e);
    forall k | 0 <= k < |d.kids|
      ensures Readable(d.kids[k]) && allocated(NodesOf(d.kids[k].kids))
    {
      RowChild(d, k);
    }
    Append(parent, c, item, Heads(d.kids));
    forall k | 0 <= k < |d'.kids|
      ensures Readable(d'.kids[k])
    {
      if k < |d.kids| {
        SeparateAt(d, k);
      }
    }
    RowAgain(d');
  }

  function Given(item: Node?): set<Node> { if item == null then {} else {item} }

  /** cJSON_AddItemToArray appends; a null item is ignored. */
  method AddItemToArray(parent: Node, item: Node?, ghost d: Cell, ghost e: Cell) returns (ghost d': Cell)
    requires Row(d) && d.node == parent && Addable(item, d, e)
    modifies parent`child, Heads(d.kids)`next, Heads(d.kids)`prev, Given(item)`prev
    ensures d' == if item == null then d else d.(kids := d.kids + [e])
    ensures Row(d')
  {
    if item == null {
      return d;
    }
    hide Row;
    hide Readable;
    hide Joins;
    d' := AppendItem(parent, item, d, e);
  }

  lemma Renamed(d: Cell, e: Cell, name: CStr)
    requires Joins(d, e)
    ensures Joins(d, e.(data := e.data.(name := Some(name))))
  {
  }

  /** cJSON_AddItemToObject: the item takes the name and is appended. */
  method AddItemToObject(parent: Node, name: CStr, item: Node?, ghost d: Cell, ghost e: Cell) returns (ghost d': Cell)
    requires Row(d) && d.node == parent && Addable(item, d, e)
    modifies parent`child, Heads(d.kids)`next, Heads(d.kids)`prev, Given(item)`prev, Given(item)`name
    ensures d' == if item == null then d else d.(kids := d.kids + [e.(data := e.data.(name := Some(name)))])
    ensures Row(d')
  {
    if item == null {
      return d;
    }
    ghost var e' := e.(data := e.data.(name := Some(name)));
    SetName(item, name, d, e);
    Renamed(d, e, name);
    d' := AddItemToArray(parent, item, d, e');
  }

  /** Naming an item that is not in the row leaves the row alone. */
  method SetName(item: Node, name: CStr, ghost d: Cell, ghost e: Cell)
    requires Row(d) && Readable(e) && e.node == item && Joins(d, e)
    modifies item`name
    ensures Row(d) && Readable(e.(data := e.data.(name := Some(name))))
  {
    hide NodesOf;
    item.name := Some(name);
  }

  // ----- references

  /** type | cJSON_IsReference. */
  function Marked(kind: nat): (r: nat)
    ensures r % 256 == kind % 256 && r / 256 % 2 == 1 && (r == kind || r == kind + 256)
  {
    if kind / 256 % 2 == 1 then kind else kind + IS_REFERENCE
  }

  /** create_reference: a new node with the fields of the old one, its type marked,
      sharing the old one's children. */
  method CreateReference(item: Node, ghost e: Cell) returns (r: Node, ghost e': Cell)
    requires Readable(e) && e.node == item
    ensures fresh(r) && r.next == null && r.prev == null
    ensures e' == Cell(r, e.data.(kind := Marked(e.data.kind), name := None), e.kids) && Readable(e')
  {
    hide NodesOf;
    assert allocated(NodesOf(e.kids));
    r := new Node();
    r.child, r.kind, r.str, r.num, r.dbl := item.child, Marked(item.kind), item.str, item.num, item.dbl;
    e' := Cell(r, e.data.(kind := Marked(e.data.kind), name := None), e.kids);
  }

  // ----- taking children out

  ghost function Removed(d: Cell, i: nat): (r: Cell)
    requires i < |d.kids|
    ensures r.node == d.node && r.data == d.data && |r.kids| == |d.kids| - 1
    ensures forall k {:trigger r.kids[k]} :: 0 <= k < |r.kids| ==> r.kids[k] == d.kids[if k < i then k else k + 1]
  {
    d.(kids := d.kids[..i] + d.kids[i + 1..])
  }

  lemma RemovedSeparate(d: Cell, i: nat)
    requires Separate(d) && i < |d.kids|
    ensures Separate(Removed(d, i)) && Heads(Removed(d, i).kids) == Without(Heads(d.kids), i)
  {
    hide NodesOf;
    hide Removed;
    hide Without;
    var r, ns := Removed(d, i), Without(Heads(d.kids), i);
    assert Heads(r.kids) == ns;
    assert forall n :: n in ns ==> n in Heads(d.kids);
    forall k | 0 <= k < |r.kids|
      ensures Outside(r, r.kids[k])
    {
      assert Outside(d, d.kids[if k < i then k else k + 1]);
    }
  }

  /** cJSON_DetachItemFromArray: unlinks the child at the index (the first one for a
      negative index) and changes nothing when there is none. */
  method DetachItemFromArray(parent: Node, which: int, ghost d: Cell) returns (c: Node?, ghost d': Cell)
    requires Row(d) && d.node == parent
    modifies parent`child, Heads(d.kids)`next, Heads(d.kids)`prev
    ensures Row(d')
    ensures var i := if which < 0 then 0 else which;
      if i < |d.kids| then
        c == d.kids[i].node && c.next == null && c.prev == null && Readable(d.kids[i]) && d' == Removed(d, i)
      else c == null && d' == d
  {
    hide Row;
    hide Readable;
    hide NodesOf;
    hide Separate;
    hide Spelled;
    hide Removed;
    hide Without;
    assert allocated(NodesOf(d.kids));
    ghost var i := if which < 0 then 0 else which;
    c := GetArrayItem(parent, which, d);
    d' := d;
    if c == null {
      return;
    }
    d' := Removed(d, i);
    RowHead(d);
    SeparateParts(d);
    RemovedSeparate(d, i);
    forall k | 0 <= k < |d.kids|
      ensures Readable(d.kids[k]) && allocated(NodesOf(d.kids[k].kids))
    {
      RowChild(d, k);
    }
    Unlink(parent, c, Heads(d.kids), i);
    forall k | 0 <= k < |d.kids|
      ensures Readable(d.kids[k])
    {
      SeparateAt(d, k);
    }
    RowAgain(d');
  }

  /** cJSON_DetachItemFromObject takes out exactly the child cJSON_GetObjectItem finds. */
  method DetachItemFromObject(parent: Node, name: Option<CStr>, ghost d: Cell) returns (c: Node?, ghost d': Cell)
    requires Row(d) && d.node == parent
    modifies parent`child, Heads(d.kids)`next, Heads(d.kids)`prev
    ensures Row(d')
    ensures var i := Find(d.kids, name);
      if i < |d.kids| then c == d.kids[i].node && c.next == null && c.prev == null && Readable(d.kids[i]) && d' == Removed(d, i)
      else c == null && d' == d
  {
    hide *;
    var i;
    assert allocated(NodesOf(d.kids));
    c, i := GetObjectItem(parent, name, d);
    d' := d;
    if c != null {
      c, d' := DetachItemFromArray(parent, i, d);
    }
  }

  // ----- replacing children

  lemma ReplacedSeparate(d: Cell, e: Cell, i: nat)
    requires Separate(d) && Joins(d, e) && i < |d.kids|
    ensures Separate(d.(kids := d.kids[i := e])) && Heads(d.kids[i := e]) == Heads(d.kids)[i := e.node]
  {
    hide NodesOf;
    var ks, ns := d.kids[i := e], Heads(d.kids)[i := e.node];
    assert Heads(ks) == ns;
    assert forall n :: n in ns ==> n in Heads(d.kids) || n == e.node;
    forall k | 0 <= k < |ks|
      ensures Outside(d.(kids := ks), ks[k])
    {
      assert ks[k] == if k == i then e else d.kids[k];
    }
  }

  /** cJSON_ReplaceItemInArray puts the new item in the place of the child at the
      index. The old child, unlinked, is then deleted. */
  method ReplaceItemInArray(parent: Node, which: int, newitem: Node, ghost d: Cell, ghost e: Cell)
    returns (c: Node?, ghost d': Cell)
    requires Row(d) && d.node == parent && Readable(e) && e.node == newitem && Joins(d, e)
    modifies parent`child, Heads(d.kids)`next, Heads(d.kids)`prev, newitem`next, newitem`prev
    ensures Row(d')
    ensures var i := if which < 0 then 0 else which;
      if i < |d.kids| then
        c == d.kids[i].node && c.next == null && c.prev == null && d' == d.(kids := d.kids[i := e])
      else c == null && d' == d
  {
    hide Row;
    hide Readable;
    hide NodesOf;
    hide Separate;
    hide Joins;
    hide Spelled;
    assert allocated(NodesOf(d.kids)) && allocated(NodesOf(e.kids));
    ghost var i := if which < 0 then 0 else which;
    c := GetArrayItem(parent, which, d);
    d' := d;
    if c == null {
      return;
    }
    d' := d.(kids := d.kids[i := e]);
    RowHead(d);
    SeparateParts(d);
    JoinSeparate(d, e);
    ReplacedSeparate(d, e, i);
    forall k | 0 <= k < |d.kids|
      ensures Readable(d.kids[k]) && allocated(NodesOf(d.kids[k].kids))
    {
      RowChild(d, k);
    }
    Exchange(parent, c, newitem, Heads(d.kids), i);
    forall k | 0 <= k < |d.kids|
      ensures Readable(d.kids[k])
    {
      SeparateAt(d, k);
    }
    RowAgain(d');
  }

  /** cJSON_ReplaceItemInObject: the new item takes the name; it replaces the child that
      lookup by that name finds. */
  method ReplaceItemInObject(parent: Node, name: CStr, newitem: Node, ghost d: Cell, ghost e: Cell)
    returns (c: Node?, ghost d': Cell)
    requires Row(d) && d.node == parent && Readable(e) && e.node == newitem && Joins(d, e)
    modifies parent`child, Heads(d.kids)`next, Heads(d.kids)`prev, newitem`next, newitem`prev, newitem`name
    ensures Row(d')
    ensures var i := Find(d.kids, Some(name));
      if i < |d.kids| then
        c == d.kids[i].node && d' == d.(kids := d.kids[i := e.(data := e.data.(name := Some(name)))])
      else c == null && d' == d
  {
    hide *;
    var i;
    assert allocated(NodesOf(d.kids)) && allocated(NodesOf(e.kids));
    c, i := GetObjectItem(parent, Some(name), d);
    d' := d;
    if c != null {
      SetName(newitem, name, d, e);
      Renamed(d, e, name);
      c, d' := ReplaceItemInArray(parent, i, newitem, d, e.(data := e.data.(name := Some(name))));
    }
  }
}
