/**
 The texts of JSON values, written from RFC 8259: documents as they are spelled, the
 text of a document, and the value it stands for. Nothing here refers to the parser or
 the printer. What the parser takes beyond the standard is the wider form: blanks of
 any kind, numerals cut short, escapes of any character.
 */
module Grammar {
  import opened CText
  import opened Json

  // ----- numbers (section 6)

  type Digit = d: nat | d < 10

  datatype Sign = NoSign | PlusSign | MinusSign

  datatype Exponent = Exponent(upper: bool, sign: Sign, digits: seq<Digit>)

  /** A minus, a leading zero, the digits of the integer, those of the fraction, the
      exponent. */
  datatype Numeral = Numeral(negative: bool, zero: bool, digits: seq<Digit>, fraction: seq<Digit>, exponent: Option<Exponent>)

  function DigitsText(ds: seq<Digit>): (r: CStr)
    ensures |r| == |ds| && forall k :: 0 <= k < |ds| ==> r[k] == 48 + ds[k] as int
  {
    seq(|ds|, k requires 0 <= k < |ds| => 48 + ds[k] as int)
  }

  function SignText(sign: Sign): CStr {
    match sign
    case NoSign => []
    case PlusSign => [43]
    case MinusSign => [45]
  }

  function ExponentText(e: Option<Exponent>): CStr {
    match e
    case None => []
    case Some(Exponent(upper, sign, digits)) => [if upper then 69 else 101] + (SignText(sign) + DigitsText(digits))
  }

  function FractionText(ds: seq<Digit>): CStr { if ds == [] then [] else [46] + DigitsText(ds) }

  function MinusText(negative: bool): (r: CStr)
    ensures |r| == if negative then 1 else 0
  {
    if negative then [45] else []
  }

  function ZeroText(zero: bool): (r: CStr)
    ensures |r| == if zero then 1 else 0
  {
    if zero then [48] else []
  }

  function NumeralText(n: Numeral): CStr {
    MinusText(n.negative)
    + (ZeroText(n.zero) + (DigitsText(n.digits) + (FractionText(n.fraction) + ExponentText(n.exponent))))
  }

  /** In the standard the integer is zero or starts with another digit, and an exponent
      has digits. */
  predicate WellNumeral(n: Numeral, strict: bool) {
    && (n.digits != [] ==> n.digits[0] != 0)
    && (n.negative || n.zero || n.digits != [])
    && (strict ==> (n.zero <==> n.digits == []) && (n.exponent.Some? ==> n.exponent.value.digits != []))
  }

  function Natural(ds: seq<Digit>): nat {
    if ds == [] then 0 else 10 * Natural(ds[..|ds| - 1]) + ds[|ds| - 1]
  }

  function Ten(k: nat): (r: real)
    ensures r > 0.0
  {
    if k == 0 then 1.0 else Ten(k - 1) * 10.0
  }

  /** Ten to the e. */
  function Scale(e: int): real { if e >= 0 then Ten(e) else 1.0 / Ten(-e) }

  function ExponentOf(e: Option<Exponent>): int {
    match e
    case None => 0
    case Some(Exponent(_, sign, digits)) => (if sign == MinusSign then -1 else 1) * Natural(digits)
  }

  function Magnitude(n: Numeral): real {
    Natural(n.digits) as real + Natural(n.fraction) as real / Ten(|n.fraction|)
  }

  function NumeralValue(n: Numeral): real {
    (if n.negative then -Magnitude(n) else Magnitude(n)) * Scale(ExponentOf(n.exponent))
  }

  // ----- strings (section 7)

  type Sixteenth = n: nat | n < 16

  /** A hexadecimal digit and its case. */
  datatype Nibble = Nibble(value: Sixteenth, upper: bool)

  datatype Hex = Hex(first: Nibble, second: Nibble, third: Nibble, fourth: Nibble)

  /** A byte for itself, a backslash and one character, a code unit, or two that are
      read as a pair. */
  datatype Unit = Plain(c: Char) | Short(c: Char) | Code(unit: Hex) | Pair(high: Hex, low: Hex)

  function NibbleText(n: Nibble): Char {
    var v: int := n.value;
    if v < 10 then 48 + v else if n.upper then 65 + (v - 10) else 97 + (v - 10)
  }

  function HexText(h: Hex): (r: CStr)
    ensures |r| == 4
  {
    [NibbleText(h.first), NibbleText(h.second), NibbleText(h.third), NibbleText(h.fourth)]
  }

  function UnitOf(h: Hex): (u: nat)
    ensures u < 0x10000
  {
    4096 * (h.first.value as int) + 256 * (h.second.value as int) + 16 * (h.third.value as int) + h.fourth.value as int
  }

  predicate HighHalf(u: nat) { 0xD800 <= u <= 0xDBFF }

  predicate LowHalf(u: nat) { 0xDC00 <= u <= 0xDFFF }

  /** In the standard a byte below 32 is escaped, eight characters may follow a
      backslash, and what is meant by half a pair is left open, as is NUL here. */
  predicate WellUnit(u: Unit, strict: bool) {
    match u
    case Plain(c) => c != 34 && c != 92 && (strict ==> c >= 32)
    case Short(c) => c != 117 && (strict ==> c in {34, 92, 47, 98, 102, 110, 114, 116})
    case Code(h) => strict ==> UnitOf(h) != 0 && !HighHalf(UnitOf(h)) && !LowHalf(UnitOf(h))
    case Pair(h, l) => HighHalf(UnitOf(h)) && (strict ==> LowHalf(UnitOf(l)))
  }

  /** The first half of a pair takes the second with it. */
  predicate WellUnits(us: seq<Unit>, strict: bool) {
    && (forall k :: 0 <= k < |us| ==> WellUnit(us[k], strict))
    && forall k :: 0 < k < |us| && us[k - 1].Code? && HighHalf(UnitOf(us[k - 1].unit)) ==> !us[k].Code? && !us[k].Pair?
  }

  function UnitText(u: Unit): CStr {
    match u
    case Plain(c) => [c]
    case Short(c) => [92, c]
    case Code(h) => [92, 117] + HexText(h)
    case Pair(h, l) => ([92, 117] + HexText(h)) + ([92, 117] + HexText(l))
  }

  function UnitsText(us: seq<Unit>): CStr {
    if us == [] then [] else UnitText(us[0]) + UnitsText(us[1..])
  }

  /** The octets of a code point (section 3 of RFC 3629). */
  function Utf8(u: int): CStr {
    if u <= 0 || u >= 0x110000 then []
    else if u < 0x80 then [u]
    else if u < 0x800 then [192 + u / 64, 128 + u % 64]
    else if u < 0x10000 then [224 + u / 4096, 128 + u / 64 % 64, 128 + u % 64]
    else [240 + u / 262144, 128 + u / 4096 % 64, 128 + u / 64 % 64, 128 + u % 64]
  }

  function ShortMeaning(c: Char): Char {
    match c
    case 98 => 8
    case 102 => 12
    case 110 => 10
    case 114 => 13
    case 116 => 9
    case _ => c
  }

  function UnitMeaning(u: Unit): CStr {
    match u
    case Plain(c) => [c]
    case Short(c) => [ShortMeaning(c)]
    case Code(h) =>
      if UnitOf(h) == 0 || HighHalf(UnitOf(h)) || LowHalf(UnitOf(h)) then [] else Utf8(UnitOf(h))
    case Pair(h, l) =>
      if LowHalf(UnitOf(l)) then Utf8(0x10000 + (UnitOf(h) - 0xD800) * 1024 + (UnitOf(l) - 0xDC00)) else []
  }

  function UnitsMeaning(us: seq<Unit>): CStr {
    if us == [] then [] else UnitMeaning(us[0]) + UnitsMeaning(us[1..])
  }

  // ----- documents (sections 2 to 5)

  datatype Doc =
    | Word(kind: nat)
    | Num(numeral: Numeral)
    | Str(units: seq<Unit>, closed: bool)
    | Arr(pad: CStr, elements: seq<Element>)
    | Obj(pad: CStr, members: seq<Member>)

  /** A value with the blanks around it. */
  datatype Element = Element(before: CStr, doc: Doc, after: CStr)

  /** A name and a value with the blanks around both. */
  datatype Member = Member(before: CStr, name: seq<Unit>, gap: CStr, space: CStr, doc: Doc, after: CStr)

  predicate Blank(b: CStr, strict: bool) {
    forall k :: 0 <= k < |b| ==> b[k] <= 32 && (strict ==> b[k] in {32, 9, 10, 13})
  }

  /** A string that the end of the text closes; not in the standard. */
  predicate IsOpen(d: Doc) { d.Str? && !d.closed }

  predicate Well(d: Doc, strict: bool) {
    match d
    case Word(kind) => kind == FALSE || kind == TRUE || kind == NULL
    case Num(n) => WellNumeral(n, strict)
    case Str(us, closed) => WellUnits(us, strict) && (strict ==> closed)
    case Arr(pad, es) => Blank(pad, strict) && forall k :: 0 <= k < |es| ==> WellElement(es[k], strict)
    case Obj(pad, ms) => Blank(pad, strict) && forall k :: 0 <= k < |ms| ==> WellMember(ms[k], strict)
  }

  predicate WellElement(e: Element, strict: bool) {
    Blank(e.before, strict) && Blank(e.after, strict) && Well(e.doc, strict) && !IsOpen(e.doc)
  }

  predicate WellMember(m: Member, strict: bool) {
    && Blank(m.before, strict) && Blank(m.gap, strict) && Blank(m.space, strict) && Blank(m.after, strict)
    && WellUnits(m.name, strict) && Well(m.doc, strict) && !IsOpen(m.doc)
  }

  function WordText(kind: nat): CStr {
    if kind == FALSE then [102, 97, 108, 115, 101] else if kind == TRUE then [116, 114, 117, 101] else [110, 117, 108, 108]
  }

  function LiteralText(us: seq<Unit>, closed: bool): CStr { [34] + (UnitsText(us) + if closed then [34] else []) }

  function Text(d: Doc): CStr {
    match d
    case Word(kind) => WordText(kind)
    case Num(n) => NumeralText(n)
    case Str(us, closed) => LiteralText(us, closed)
    case Arr(pad, es) => [91] + ((if es == [] then pad else ElementsText(es)) + [93])
    case Obj(pad, ms) => [123] + ((if ms == [] then pad else MembersText(ms)) + [125])
  }

  function ElementText(e: Element): CStr {
    e.before + (Text(e.doc) + e.after)
  }

  function ElementsText(es: seq<Element>): CStr {
    if es == [] then []
    else ElementText(es[0]) + if |es| == 1 then [] else [44] + ElementsText(es[1..])
  }

  function MemberText(m: Member): CStr {
    m.before + (LiteralText(m.name, true) + (m.gap + ([58] + (m.space + (Text(m.doc) + m.after)))))
  }

  function MembersText(ms: seq<Member>): CStr {
    if ms == [] then []
    else MemberText(ms[0]) + if |ms| == 1 then [] else [44] + MembersText(ms[1..])
  }

  // ----- what a document stands for

  function Meaning(d: Doc): (t: Item)
    ensures t.name == None
  {
    match d
    case Word(kind) => Item(kind, None, if kind == TRUE then 1 else 0, 0.0, None, [])
    case Num(n) => Item(NUMBER, None, Truncate(NumeralValue(n)), NumeralValue(n), None, [])
    case Str(us, _) => Item(STRING, Some(UnitsMeaning(us)), 0, 0.0, None, [])
    case Arr(_, es) => Item(ARRAY, None, 0, 0.0, None, ElementsMeaning(es))
    case Obj(_, ms) => Item(OBJECT, None, 0, 0.0, None, MembersMeaning(ms))
  }

  function ElementsMeaning(es: seq<Element>): (r: seq<Item>)
    ensures |r| == |es|
  {
    if es == [] then [] else [Meaning(es[0].doc)] + ElementsMeaning(es[1..])
  }

  function MembersMeaning(ms: seq<Member>): (r: seq<Item>)
    ensures |r| == |ms|
  {
    if ms == [] then []
    else [Meaning(ms[0].doc).(name := Some(UnitsMeaning(ms[0].name)))] + MembersMeaning(ms[1..])
  }

  /** The text is this document, with blanks around it. */
  predicate Spells(s: CStr, front: CStr, d: Doc, back: CStr, strict: bool) {
    && Blank(front, strict) && Blank(back, strict) && Well(d, strict)
    && (IsOpen(d) ==> back == [])
    && s == front + (Text(d) + back)
  }

  // ----- the standard's documents are among the wider ones

  lemma {:induction false} StrictIsWide(d: Doc)
    requires Well(d, true)
    ensures Well(d, false)
    decreases d
  {
    match d {
      case Arr(_, es) =>
        forall k | 0 <= k < |es|
          ensures WellElement(es[k], false)
        {
          StrictIsWide(es[k].doc);
        }
      case Obj(_, ms) =>
        forall k | 0 <= k < |ms|
          ensures WellMember(ms[k], false)
        {
          StrictIsWide(ms[k].doc);
        }
      case _ =>
    }
  }
}
