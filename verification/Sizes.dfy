/**
 The printer's allocations: for every kind of value the number of bytes reserved
 before printing, and when it covers the bytes written.
 */
module Sizes {
  import opened CText
  import opened Strings
  import opened Json

  /** The bytes print_array adds to its total per element, after strlen. */
  function ElementsReserved(entries: seq<CStr>, fmt: bool): nat {
    if entries == [] then 0
    else |entries[0]| + 2 + (if fmt then 1 else 0) + ElementsReserved(entries[1..], fmt)
  }

  /** The bytes print_object adds per member; depth is that of the members. */
  function MembersReserved(names: seq<CStr>, entries: seq<CStr>, depth: nat, fmt: bool): nat
    requires |names| == |entries|
  {
    if entries == [] then 0
    else |entries[0]| + |names[0]| + 2 + (if fmt then 2 + depth else 0) + MembersReserved(names[1..], entries[1..], depth, fmt)
  }

  function ArrayReserved(entries: seq<CStr>, fmt: bool): nat {
    if entries == [] then 3 else 5 + ElementsReserved(entries, fmt)
  }

  function ObjectReserved(names: seq<CStr>, entries: seq<CStr>, depth: nat, fmt: bool): nat
    requires |names| == |entries|
  {
    if entries == [] then (if fmt then depth + 3 else 3)
    else 7 + (if fmt then depth + 1 else 0) + MembersReserved(names, entries, depth + 1, fmt)
  }

  /** The size passed to malloc for the text of a value. */
  function Reserved(t: Item, depth: nat, fmt: bool): nat
    requires IntNumbers(t) && PrintValue(t, depth, fmt).Some?
  {
    var kind := t.kind % 256;
    if kind == NUMBER then 21
    else if kind == ARRAY then
      assert PrintArray(t.kids, depth, fmt).Some?;
      ArrayReserved(PrintEach(t.kids, depth + 1, fmt).value, fmt)
    else if kind == OBJECT then
      assert PrintObject(t.kids, depth, fmt).Some?;
      ObjectReserved(Names(t.kids), PrintEach(t.kids, depth + 1, fmt).value, depth, fmt)
    else |PrintValue(t, depth, fmt).value| + 1
  }

  lemma {:induction false} DecimalLength(n: nat, k: nat)
    requires n < Ten(k) && k > 0
    ensures |Decimal(n)| <= k
    decreases k
  {
    if n >= 10 {
      DecimalLength(n / 10, k - 1);
    }
  }

  function Ten(k: nat): nat { if k == 0 then 1 else 10 * Ten(k - 1) }

  lemma NumberLength(n: int)
    requires -0x8000_0000 <= n < 0x8000_0000
    ensures |NumberText(n)| <= 11
  {
    assert Ten(10) == 10_000_000_000 by {
      assert Ten(2) == 100 && Ten(4) == 10_000 && Ten(6) == 1_000_000 && Ten(8) == 100_000_000;
    }
    DecimalLength(if n < 0 then -n else n, 10);
  }

  lemma {:induction false} ElementsFit(entries: seq<CStr>, fmt: bool)
    ensures |Elements(entries, fmt)| <= ElementsReserved(entries, fmt)
  {
    if |entries| > 1 {
      ElementsFit(entries[1..], fmt);
    }
  }

  lemma {:induction false} MembersFit(names: seq<CStr>, entries: seq<CStr>, depth: nat, fmt: bool)
    requires |names| == |entries|
    ensures |Members(names, entries, depth, fmt)| <= MembersReserved(names, entries, depth, fmt)
  {
    if entries != [] {
      MembersFit(names[1..], entries[1..], depth, fmt);
    }
  }

  /** For every value, depth and format, the bytes reserved cover the text and its NUL,
      except for a formatted empty object at depth 0, which is one byte short. */
  lemma ReservedCovers(t: Item, depth: nat, fmt: bool)
    requires IntNumbers(t) && PrintValue(t, depth, fmt).Some?
    ensures |PrintValue(t, depth, fmt).value| + 1 <= Reserved(t, depth, fmt)
       <==> !(fmt && depth == 0 && t.kind % 256 == OBJECT && t.kids == [])
  {
    var kind := t.kind % 256;
    if kind == NUMBER {
      NumberLength(t.num);
    } else if kind == ARRAY && t.kids != [] {
      ElementsFit(PrintEach(t.kids, depth + 1, fmt).value, fmt);
    } else if kind == OBJECT && t.kids != [] {
      MembersFit(Names(t.kids), PrintEach(t.kids, depth + 1, fmt).value, depth + 1, fmt);
    }
  }
}
