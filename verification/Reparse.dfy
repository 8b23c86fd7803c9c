/**
 What the parser builds, from any text, is a clean value; so, numbers being ints, it
 survives printing and parsing again.
 */
module Reparse {
  import opened CText
  import opened Strings
  import opened Json
  import opened RoundTrip
  import opened Acceptance

  lemma {:induction false} ArrayExtends(s: CStr, i: nat, kids: seq<Item>)
    requires i <= |s| && ArrayRest(s, i, kids).Good?
    ensures var t := ArrayRest(s, i, kids).value; t == Branch(ARRAY, t.kids) && kids <= t.kids
    decreases |s| - i
  {
    hide ParseValue;
    if At(s, i) == COMMA && ParseValue(s, Skip(s, i + 1)).Good? {
      var r := ParseValue(s, Skip(s, i + 1));
      ArrayExtends(s, Skip(s, r.end), kids + [r.value]);
    }
  }

  lemma {:induction false} ObjectExtends(s: CStr, i: nat, kids: seq<Item>)
    requires i <= |s| && ObjectRest(s, i, kids).Good?
    ensures var t := ObjectRest(s, i, kids).value; t == Branch(OBJECT, t.kids) && kids <= t.kids
    decreases |s| - i
  {
    hide ParseMember;
    if At(s, i) == COMMA && ParseMember(s, Skip(s, i + 1)).Good? {
      var r := ParseMember(s, Skip(s, i + 1));
      ObjectExtends(s, Skip(s, r.end), kids + [r.value]);
    }
  }

  predicate CleanElements(kids: seq<Item>) {
    forall k :: 0 <= k < |kids| ==> Clean(kids[k]) && kids[k].name.None?
  }

  predicate CleanMembers(kids: seq<Item>) {
    forall k :: 0 <= k < |kids| ==> Clean(kids[k]) && kids[k].name.Some?
  }

  lemma BranchIsClean(kids: seq<Item>)
    ensures CleanElements(kids) ==> Clean(Branch(ARRAY, kids))
    ensures CleanMembers(kids) ==> Clean(Branch(OBJECT, kids))
  {
  }

  /** Nodes without children, as the parser builds them. */
  predicate Leaf(t: Item) {
    || t == Plain(NULL) || t == Plain(FALSE) || t == Plain(TRUE).(num := 1)
    || (t.str.Some? && t == Plain(STRING).(str := t.str))
    || t == Plain(NUMBER).(num := t.num, dbl := t.dbl)
  }

  lemma NumberIsLeaf(s: CStr, i: nat)
    requires i < |s| && (s[i] == MINUS || IsDigit(s[i]))
    ensures ParseNumber(s, i).Good? && Leaf(ParseNumber(s, i).value)
  {
    hide Fraction;
    hide Exponent;
    hide DigitsEnd;
    hide DigitsValue;
    hide NumberValue;
  }

  lemma ParsedLeaf(s: CStr, i: nat)
    requires i < |s| && ParseValue(s, i).Good? && s[i] != OPEN_BRACKET && s[i] != OPEN_BRACE
    ensures Leaf(ParseValue(s, i).value)
  {
    hide StringAt;
    hide ParseNumber;
    hide ParseArray;
    hide ParseObject;
    hide Leaf;
    NullLeaf();
    if s[i] == MINUS || IsDigit(s[i]) {
      NumberIsLeaf(s, i);
    }
  }

  lemma NullLeaf()
    ensures Leaf(Plain(NULL)) && Leaf(Plain(FALSE)) && Leaf(Plain(TRUE).(num := 1))
    ensures forall text :: Leaf(Plain(STRING).(str := Some(text)))
  {
  }

  lemma LeafClean(t: Item)
    requires Leaf(t) && IntNumbers(t)
    ensures Clean(t) && t.name.None?
  {
  }

  lemma LeafIsClean(s: CStr, i: nat)
    requires i < |s| && ParseValue(s, i).Good? && s[i] != OPEN_BRACKET && s[i] != OPEN_BRACE
    requires IntNumbers(ParseValue(s, i).value)
    ensures Clean(ParseValue(s, i).value) && ParseValue(s, i).value.name.None?
  {
    hide *;
    ParsedLeaf(s, i);
    LeafClean(ParseValue(s, i).value);
  }

  lemma KidIsInts(t: Item, k: nat)
    requires IntNumbers(t) && (t.kind == ARRAY || t.kind == OBJECT) && k < |t.kids|
    ensures IntNumbers(t.kids[k])
  {
  }

  lemma SameNumbers(t: Item, name: Option<CStr>)
    ensures IntNumbers(t.(name := name)) <==> IntNumbers(t)
  {
  }

  /** Whatever the text: a value the parser returns, numbers being ints, has no stray
      field, no name outside objects, and a name for every member. */
  lemma {:induction false} ParsedIsClean(s: CStr, i: nat)
    requires i <= |s| && ParseValue(s, i).Good? && IntNumbers(ParseValue(s, i).value)
    ensures Clean(ParseValue(s, i).value) && ParseValue(s, i).value.name.None?
    decreases |s| - i, 3
  {
    hide Clean;
    hide IntNumbers;
    if i == |s| {
    } else if s[i] == OPEN_BRACKET {
      Dispatch(s, i);
      ParsedArrayIsClean(s, i);
    } else if s[i] == OPEN_BRACE {
      Dispatch(s, i);
      ParsedObjectIsClean(s, i);
    } else {
      LeafIsClean(s, i);
    }
  }

  lemma {:induction false} ParsedArrayIsClean(s: CStr, i: nat)
    requires i < |s| && ParseArray(s, i).Good? && IntNumbers(ParseArray(s, i).value)
    ensures Clean(ParseArray(s, i).value)
    decreases |s| - i, 0
  {
    hide ParseValue;
    hide Clean;
    hide IntNumbers;
    hide ArrayRest;
    var p := Skip(s, i + 1);
    if At(s, p) == CLOSE_BRACKET {
      BranchIsClean([]);
    } else {
      var r := ParseValue(s, p);
      var q := Skip(s, r.end);
      ArrayExtends(s, q, [r.value]);
      KidIsInts(ParseArray(s, i).value, 0);
      ParsedIsClean(s, p);
      ArrayRestIsClean(s, q, [r.value]);
    }
  }

  lemma {:induction false} ArrayRestIsClean(s: CStr, i: nat, kids: seq<Item>)
    requires i <= |s| && ArrayRest(s, i, kids).Good? && IntNumbers(ArrayRest(s, i, kids).value) && CleanElements(kids)
    ensures Clean(ArrayRest(s, i, kids).value)
    decreases |s| - i, 0
  {
    hide ParseValue;
    hide Clean;
    hide IntNumbers;
    if At(s, i) == COMMA {
      var p := Skip(s, i + 1);
      var r := ParseValue(s, p);
      var q := Skip(s, r.end);
      ArrayExtends(s, q, kids + [r.value]);
      var t := ArrayRest(s, i, kids).value;
      assert t.kids[|kids|] == (kids + [r.value])[|kids|];
      KidIsInts(t, |kids|);
      ParsedIsClean(s, p);
      ArrayRestIsClean(s, q, kids + [r.value]);
    } else {
      BranchIsClean(kids);
    }
  }

  lemma {:induction false} ParsedMemberIsClean(s: CStr, i: nat)
    requires i <= |s| && ParseMember(s, i).Good? && IntNumbers(ParseMember(s, i).value)
    ensures Clean(ParseMember(s, i).value) && ParseMember(s, i).value.name.Some?
    decreases |s| - i, 4
  {
    hide ParseValue;
    hide StringAt;
    hide Clean;
    hide IntNumbers;
    var name := StringAt(s, i);
    var p := Skip(s, Skip(s, name.end) + 1);
    var t := ParseValue(s, p).value;
    SameNumbers(t, Some(name.value));
    ParsedIsClean(s, p);
    CleanRenamed(t, Some(name.value));
  }

  lemma {:induction false} ParsedObjectIsClean(s: CStr, i: nat)
    requires i < |s| && ParseObject(s, i).Good? && IntNumbers(ParseObject(s, i).value)
    ensures Clean(ParseObject(s, i).value)
    decreases |s| - i, 0
  {
    hide ParseMember;
    hide Clean;
    hide IntNumbers;
    hide ObjectRest;
    var p := Skip(s, i + 1);
    if At(s, p) == CLOSE_BRACE {
      BranchIsClean([]);
    } else {
      var r := ParseMember(s, p);
      var q := Skip(s, r.end);
      ObjectExtends(s, q, [r.value]);
      KidIsInts(ParseObject(s, i).value, 0);
      ParsedMemberIsClean(s, p);
      ObjectRestIsClean(s, q, [r.value]);
    }
  }

  lemma {:induction false} ObjectRestIsClean(s: CStr, i: nat, kids: seq<Item>)
    requires i <= |s| && ObjectRest(s, i, kids).Good? && IntNumbers(ObjectRest(s, i, kids).value) && CleanMembers(kids)
    ensures Clean(ObjectRest(s, i, kids).value)
    decreases |s| - i, 0
  {
    hide ParseMember;
    hide Clean;
    hide IntNumbers;
    if At(s, i) == COMMA {
      var p := Skip(s, i + 1);
      var r := ParseMember(s, p);
      var q := Skip(s, r.end);
      ObjectExtends(s, q, kids + [r.value]);
      var t := ObjectRest(s, i, kids).value;
      assert t.kids[|kids|] == (kids + [r.value])[|kids|];
      KidIsInts(t, |kids|);
      ParsedMemberIsClean(s, p);
      ObjectRestIsClean(s, q, kids + [r.value]);
    } else {
      BranchIsClean(kids);
    }
  }

  /** Any text that parses, its numbers being ints, yields a value that printing and
      parsing again gives back, formatted or not. */
  lemma ParseThenPrint(s: CStr, requireEnd: bool, fmt: bool)
    requires ParseText(s, requireEnd).Good? && IntNumbers(ParseText(s, requireEnd).value)
    ensures var t := ParseText(s, requireEnd).value;
      && PrintValue(t, 0, fmt).Some?
      && ParseText(PrintValue(t, 0, fmt).value, true) == Good(t, |PrintValue(t, 0, fmt).value|)
  {
    ParsedIsClean(s, Skip(s, 0));
    hide ParseValue;
    hide Clean;
    hide PrintValue;
    RoundTrip.RoundTrip(ParseText(s, requireEnd).value, fmt);
  }
}
