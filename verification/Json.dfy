/**
 The JSON printer and parser as functions: print_value and parse_value with the
 functions they recurse through. A node is taken by value; its chain of children
 is a sequence.
 */
module Json {
  import opened CText
  import opened Strings

  /** A cJSON node: type (with the reference bit), valuestring, valueint,
      valuedouble, string and children. */
  datatype Item = Item(kind: nat, str: Option<CStr>, num: int, dbl: real, name: Option<CStr>, kids: seq<Item>)

  const FALSE := 0
  const TRUE := 1
  const NULL := 2
  const NUMBER := 3
  const STRING := 4
  const ARRAY := 5
  const OBJECT := 6
  const IS_REFERENCE := 256

  const NULL_TEXT: CStr := [110, 117, 108, 108]
  const FALSE_TEXT: CStr := [102, 97, 108, 115, 101]
  const TRUE_TEXT: CStr := [116, 114, 117, 101]

  function Plain(kind: nat): Item { Item(kind, None, 0, 0.0, None, []) }

  function Branch(kind: nat, kids: seq<Item>): Item { Item(kind, None, 0, 0.0, None, kids) }

  // ----- numbers

  function Decimal(n: nat): (r: CStr)
    ensures |r| > 0 && (forall k :: 0 <= k < |r| ==> IsDigit(r[k]))
    ensures n > 0 ==> r[0] > 48
    ensures n == 0 ==> r == [48]
  {
    if n < 10 then [48 + n] else Decimal(n / 10) + [48 + n % 10]
  }

  /** printf("%d"). */
  function NumberText(i: int): CStr {
    if i < 0 then [MINUS] + Decimal(-i) else Decimal(i)
  }

  /** The first position from i on that holds no digit. */
  function DigitsEnd(s: CStr, i: nat): (r: nat)
    requires i <= |s|
    ensures i <= r <= |s| && !IsDigit(At(s, r))
    ensures forall k :: i <= k < r ==> IsDigit(s[k])
    decreases |s| - i
  {
    if IsDigit(At(s, i)) then DigitsEnd(s, i + 1) else i
  }

  /** The accumulator after the digits from i to j. */
  function DigitsValue(s: CStr, i: nat, j: nat, n: nat): nat
    requires i <= j <= |s| && forall k :: i <= k < j ==> IsDigit(s[k])
    decreases j - i
  {
    if i == j then n else assert IsDigit(s[i]); DigitsValue(s, i + 1, j, n * 10 + (s[i] as int - 48))
  }

  function TenTo(k: nat): real { if k == 0 then 1.0 else 10.0 * TenTo(k - 1) }

  function Power10(k: int): real {
    if k >= 0 then TenTo(k) else if TenTo(-k) == 0.0 then 0.0 else 1.0 / TenTo(-k)
  }

  /** The conversion (int)n, towards zero. */
  function Truncate(n: real): int { if n >= 0.0 then n.Floor else -((-n).Floor) }

  /** sign * n * pow(10.0, exponent). */
  function NumberValue(negative: bool, n: nat, exponent: int): real {
    (if negative then -1.0 else 1.0) * (n as real) * Power10(exponent)
  }

  function NumberItem(n: real): Item { Item(NUMBER, None, Truncate(n), n, None, []) }

  /** The optional fraction at p: the new accumulator, minus the scale, the end. */
  function Fraction(s: CStr, p: nat, n: nat): (r: (nat, nat, nat))
    requires p <= |s|
    ensures p <= r.2 <= |s|
  {
    if At(s, p) == DOT && IsDigit(At(s, p + 1)) then
      var e := DigitsEnd(s, p + 1);
      (DigitsValue(s, p + 1, e, n), e - (p + 1), e)
    else (n, 0, p)
  }

  /** The optional exponent at p and its end. */
  function Exponent(s: CStr, p: nat): (r: (int, nat))
    requires p <= |s|
    ensures p <= r.1 <= |s|
  {
    if At(s, p) == 101 || At(s, p) == 69 then
      var q := if At(s, p + 1) == PLUS || At(s, p + 1) == MINUS then p + 2 else p + 1;
      var e := DigitsEnd(s, q);
      ((if At(s, p + 1) == MINUS then -1 else 1) * DigitsValue(s, q, e, 0), e)
    else (0, p)
  }

  /** parse_number. The arithmetic is that of the reals. */
  function ParseNumber(s: CStr, i: nat): (r: Parsed<Item>)
    requires i < |s| && (s[i] == MINUS || IsDigit(s[i]))
    ensures r.Good? ==> r.value.name == None
    ensures r.Good? && i < r.end <= |s|
  {
    var p1 := if s[i] == MINUS then i + 1 else i;
    var p2 := if At(s, p1) == 48 then p1 + 1 else p1;
    var p3 := if 49 <= At(s, p2) <= 57 then DigitsEnd(s, p2) else p2;
    var n := DigitsValue(s, p2, p3, 0);
    var (m, scale, p4) := Fraction(s, p3, n);
    var (subscale, p5) := Exponent(s, p4);
    Good(NumberItem(NumberValue(s[i] == MINUS, m, subscale - scale)), p5)
  }

  // ----- printing

  /** The number in this node is an int, so that the double arithmetic is exact. */
  predicate IntNumber(t: Item) {
    t.kind % 256 == NUMBER ==> t.dbl == t.num as real && -0x8000_0000 <= t.num < 0x8000_0000
  }

  /** Every number that printing t reaches is an int. */
  predicate IntNumbers(t: Item) {
    && IntNumber(t)
    && (t.kind % 256 == ARRAY || t.kind % 256 == OBJECT ==> forall k :: 0 <= k < |t.kids| ==> IntNumbers(t.kids[k]))
  }

  function Tabs(n: int): (r: CStr)
    ensures |r| == if n > 0 then n else 0
    ensures forall k :: 0 <= k < |r| ==> r[k] == TAB
  {
    if n <= 0 then [] else [TAB] + Tabs(n - 1)
  }

  function PrintValue(t: Item, depth: nat, fmt: bool): Option<CStr>
    requires IntNumbers(t)
    decreases t, 1
  {
    var kind := t.kind % 256;
    if kind == NULL then Some(NULL_TEXT)
    else if kind == FALSE then Some(FALSE_TEXT)
    else if kind == TRUE then Some(TRUE_TEXT)
    else if kind == NUMBER then Some(NumberText(t.num))
    else if kind == STRING then Some(StringText(t.str))
    else if kind == ARRAY then PrintArray(t.kids, depth, fmt)
    else if kind == OBJECT then PrintObject(t.kids, depth, fmt)
    else None
  }

  function PrintArray(kids: seq<Item>, depth: nat, fmt: bool): Option<CStr>
    requires forall k :: 0 <= k < |kids| ==> IntNumbers(kids[k])
    decreases kids, 2
  {
    if kids == [] then Some([OPEN_BRACKET, CLOSE_BRACKET])
    else
      match PrintEach(kids, depth + 1, fmt)
      case None => None
      case Some(entries) => Some([OPEN_BRACKET] + Elements(entries, fmt) + [CLOSE_BRACKET])
  }

  function PrintObject(kids: seq<Item>, depth: nat, fmt: bool): Option<CStr>
    requires forall k :: 0 <= k < |kids| ==> IntNumbers(kids[k])
    decreases kids, 2
  {
    if kids == [] then
      Some([OPEN_BRACE] + (if fmt then [NEWLINE] + Tabs(depth - 1) else []) + [CLOSE_BRACE])
    else
      match PrintEach(kids, depth + 1, fmt)
      case None => None
      case Some(entries) =>
        Some([OPEN_BRACE] + (if fmt then [NEWLINE] else [])
             + Members(Names(kids), entries, depth + 1, fmt)
             + (if fmt then Tabs(depth) else []) + [CLOSE_BRACE])
  }

  /** The children's texts; None as soon as one cannot be printed. */
  function PrintEach(kids: seq<Item>, depth: nat, fmt: bool): (r: Option<seq<CStr>>)
    requires forall k :: 0 <= k < |kids| ==> IntNumbers(kids[k])
    ensures r.Some? ==> |r.value| == |kids|
    decreases kids, 0
  {
    if kids == [] then Some([])
    else
      match PrintValue(kids[0], depth, fmt)
      case None => None
      case Some(text) =>
        match PrintEach(kids[1..], depth, fmt)
        case None => None
        case Some(texts) => Some([text] + texts)
  }

  function Names(kids: seq<Item>): (r: seq<CStr>)
    ensures |r| == |kids|
  {
    if kids == [] then [] else [StringText(kids[0].name)] + Names(kids[1..])
  }

  function Separator(fmt: bool): CStr { if fmt then [COMMA, SPACE] else [COMMA] }

  function Elements(entries: seq<CStr>, fmt: bool): CStr {
    if entries == [] then []
    else if |entries| == 1 then entries[0]
    else entries[0] + (Separator(fmt) + Elements(entries[1..], fmt))
  }

  /** One member: indentation, name, colon, value. */
  function MemberText(name: CStr, value: CStr, depth: nat, fmt: bool): CStr {
    (if fmt then Tabs(depth) else []) + name + (if fmt then [COLON, TAB] else [COLON]) + value
  }

  function Members(names: seq<CStr>, entries: seq<CStr>, depth: nat, fmt: bool): CStr
    requires |names| == |entries|
  {
    if entries == [] then []
    else
      MemberText(names[0], entries[0], depth, fmt)
      + ((if |entries| == 1 then [] else [COMMA])
         + ((if fmt then [NEWLINE] else []) + Members(names[1..], entries[1..], depth, fmt)))
  }

  // ----- parsing

  function ParseValue(s: CStr, i: nat): (r: Parsed<Item>)
    requires i <= |s|
    ensures r.Good? ==> r.value.name == None
    ensures r.Good? ==> i < r.end <= |s|
    ensures r.Bad? ==> i <= r.ep <= |s|
    decreases |s| - i, 1
  {
    if Occurs(s, i, NULL_TEXT) then Good(Plain(NULL), i + 4)
    else if Occurs(s, i, FALSE_TEXT) then Good(Plain(FALSE), i + 5)
    else if Occurs(s, i, TRUE_TEXT) then Good(Plain(TRUE).(num := 1), i + 4)
    else if At(s, i) == QUOTE then
      match StringAt(s, i)
      case Good(text, end) => Good(Plain(STRING).(str := Some(text)), end)
      case Bad(ep) => Bad(ep)
      case Undefined => Undefined
    else if At(s, i) == MINUS || IsDigit(At(s, i)) then ParseNumber(s, i)
    else if At(s, i) == OPEN_BRACKET then ParseArray(s, i)
    else if At(s, i) == OPEN_BRACE then ParseObject(s, i)
    else Bad(i)
  }

  function ParseArray(s: CStr, i: nat): (r: Parsed<Item>)
    requires i < |s|
    ensures r.Good? ==> r.value.name == None
    ensures r.Good? ==> i < r.end <= |s|
    ensures r.Bad? ==> i <= r.ep <= |s|
    decreases |s| - i, 0
  {
    var p := Skip(s, i + 1);
    if At(s, p) == CLOSE_BRACKET then Good(Branch(ARRAY, []), p + 1)
    else
      match ParseValue(s, p)
      case Good(kid, end) => ArrayRest(s, Skip(s, end), [kid])
      case Bad(ep) => Bad(ep)
      case Undefined => Undefined
  }

  /** The while loop of parse_array, the children so far in kids. */
  function ArrayRest(s: CStr, i: nat, kids: seq<Item>): (r: Parsed<Item>)
    requires i <= |s|
    ensures r.Good? ==> r.value.name == None
    ensures r.Good? ==> i < r.end <= |s|
    ensures r.Bad? ==> i <= r.ep <= |s|
    decreases |s| - i, 0
  {
    if At(s, i) == COMMA then
      match ParseValue(s, Skip(s, i + 1))
      case Good(kid, end) => ArrayRest(s, Skip(s, end), kids + [kid])
      case Bad(ep) => Bad(ep)
      case Undefined => Undefined
    else if At(s, i) == CLOSE_BRACKET then Good(Branch(ARRAY, kids), i + 1)
    else Bad(i)
  }

  function ParseObject(s: CStr, i: nat): (r: Parsed<Item>)
    requires i < |s|
    ensures r.Good? ==> r.value.name == None
    ensures r.Good? ==> i < r.end <= |s|
    ensures r.Bad? ==> i <= r.ep <= |s|
    decreases |s| - i, 0
  {
    var p := Skip(s, i + 1);
    if At(s, p) == CLOSE_BRACE then Good(Branch(OBJECT, []), p + 1)
    else
      match ParseMember(s, p)
      case Good(kid, end) => ObjectRest(s, Skip(s, end), [kid])
      case Bad(ep) => Bad(ep)
      case Undefined => Undefined
  }

  /** One name, colon and value. */
  function ParseMember(s: CStr, i: nat): (r: Parsed<Item>)
    requires i <= |s|
    ensures r.Good? ==> i < r.end <= |s|
    ensures r.Bad? ==> i <= r.ep <= |s|
    decreases |s| - i, 2
  {
    match StringAt(s, i)
    case Bad(ep) => Bad(ep)
    case Undefined => Undefined
    case Good(name, nameEnd) =>
      var p := Skip(s, nameEnd);
      if At(s, p) != COLON then Bad(p)
      else
        match ParseValue(s, Skip(s, p + 1))
        case Good(kid, end) => Good(kid.(name := Some(name)), end)
        case Bad(ep) => Bad(ep)
        case Undefined => Undefined
  }

  function ObjectRest(s: CStr, i: nat, kids: seq<Item>): (r: Parsed<Item>)
    requires i <= |s|
    ensures r.Good? ==> r.value.name == None
    ensures r.Good? ==> i < r.end <= |s|
    ensures r.Bad? ==> i <= r.ep <= |s|
    decreases |s| - i, 0
  {
    if At(s, i) == COMMA then
      match ParseMember(s, Skip(s, i + 1))
      case Good(kid, end) => ObjectRest(s, Skip(s, end), kids + [kid])
      case Bad(ep) => Bad(ep)
      case Undefined => Undefined
    else if At(s, i) == CLOSE_BRACE then Good(Branch(OBJECT, kids), i + 1)
    else Bad(i)
  }

  /** One turn of the loop of parse_array. */
  lemma ArrayTurn(s: CStr, i: nat, kids: seq<Item>, kid: Item, end: nat)
    requires i < |s| && s[i] == COMMA && ParseValue(s, Skip(s, i + 1)) == Good(kid, end)
    ensures ArrayRest(s, i, kids) == ArrayRest(s, Skip(s, end), kids + [kid])
  {
    hide ParseValue;
  }

  lemma ArrayFails(s: CStr, i: nat, kids: seq<Item>)
    requires i < |s| && s[i] == COMMA && !ParseValue(s, Skip(s, i + 1)).Good?
    ensures ArrayRest(s, i, kids) == ParseValue(s, Skip(s, i + 1))
  {
    hide ParseValue;
  }

  lemma ArrayStop(s: CStr, i: nat, kids: seq<Item>)
    requires i <= |s| && At(s, i) != COMMA
    ensures ArrayRest(s, i, kids) == if At(s, i) == CLOSE_BRACKET then Good(Branch(ARRAY, kids), i + 1) else Bad(i)
  {
  }

  lemma ArrayStart(s: CStr, i: nat, kid: Item, end: nat)
    requires i < |s| && At(s, Skip(s, i + 1)) != CLOSE_BRACKET && ParseValue(s, Skip(s, i + 1)) == Good(kid, end)
    ensures ParseArray(s, i) == ArrayRest(s, Skip(s, end), [kid])
  {
    hide ParseValue;
  }

  /** One turn of the loop of parse_object. */
  lemma ObjectTurn(s: CStr, i: nat, kids: seq<Item>, kid: Item, end: nat)
    requires i < |s| && s[i] == COMMA && ParseMember(s, Skip(s, i + 1)) == Good(kid, end)
    ensures ObjectRest(s, i, kids) == ObjectRest(s, Skip(s, end), kids + [kid])
  {
    hide ParseMember;
  }

  lemma ObjectFails(s: CStr, i: nat, kids: seq<Item>)
    requires i < |s| && s[i] == COMMA && !ParseMember(s, Skip(s, i + 1)).Good?
    ensures ObjectRest(s, i, kids) == ParseMember(s, Skip(s, i + 1))
  {
    hide ParseMember;
  }

  lemma ObjectStop(s: CStr, i: nat, kids: seq<Item>)
    requires i <= |s| && At(s, i) != COMMA
    ensures ObjectRest(s, i, kids) == if At(s, i) == CLOSE_BRACE then Good(Branch(OBJECT, kids), i + 1) else Bad(i)
  {
  }

  lemma ObjectStart(s: CStr, i: nat, kid: Item, end: nat)
    requires i < |s| && At(s, Skip(s, i + 1)) != CLOSE_BRACE && ParseMember(s, Skip(s, i + 1)) == Good(kid, end)
    ensures ParseObject(s, i) == ObjectRest(s, Skip(s, end), [kid])
  {
    hide ParseMember;
  }

  /** cJSON_ParseWithOpts: blanks are skipped in front and, when the text must end
      with the value, behind it. */
  function ParseText(s: CStr, requireEnd: bool): (r: Parsed<Item>)
    ensures r.Good? ==> 0 < r.end <= |s| && (requireEnd ==> r.end == |s|)
    ensures r.Bad? ==> r.ep <= |s|
  {
    match ParseValue(s, Skip(s, 0))
    case Good(t, end) =>
      if !requireEnd then Good(t, end)
      else if At(s, Skip(s, end)) == 0 then Good(t, Skip(s, end))
      else Bad(Skip(s, end))
    case Bad(ep) => Bad(ep)
    case Undefined => Undefined
  }
}
