/**
 JSON string literals: what the two passes of parse_string compute, what
 print_string_ptr writes, and how the two are inverse to each other.
 */
module Strings {
  import opened CText
  import opened Utf

  // ----- sscanf("%4x")

  /** The length of the run of hexadecimal digits at i, at most w. */
  function HexRun(s: CStr, i: nat, w: nat): (n: nat)
    requires i <= |s|
    ensures n <= w && i + n <= |s| && forall k :: i <= k < i + n ==> IsHex(s[k])
    decreases w
  {
    if w > 0 && IsHex(At(s, i)) then 1 + HexRun(s, i + 1, w - 1) else 0
  }

  /** The value of the n hexadecimal digits at i. */
  function HexNumber(s: CStr, i: nat, n: nat): nat
    requires i + n <= |s| && forall k :: i <= k < i + n ==> IsHex(s[k])
  {
    if n == 0 then 0 else HexNumber(s, i, n - 1) * 16 + HexValue(s[i + n - 1])
  }

  predicate IsPrefix(s: CStr, i: nat)
    requires i <= |s|
  {
    At(s, i) == 48 && (At(s, i + 1) == 120 || At(s, i + 1) == 88)
  }

  /** Where the digits start and how many of the four characters are left for them,
      behind a sign and a prefix 0x. */
  function DigitsField(s: CStr, i: nat): (r: (nat, nat))
    requires i <= |s|
    ensures i <= r.0 <= |s| && r.1 + (r.0 - i) == 4
  {
    var signed := At(s, i) == MINUS || At(s, i) == PLUS;
    var p := if signed then i + 1 else i;
    var w := if signed then 3 else 4;
    if IsPrefix(s, p) then (p + 2, w - 2) else (p, w)
  }

  /** What sscanf(p, "%4x", &u) stores for the text from i on: blanks are skipped, then
      up to four characters are a number. None if there is no digit; u is left alone. */
  function ScanHex(s: CStr, i: nat): (r: Option<nat>)
    requires i <= |s|
    ensures r.Some? ==> r.value < 0x1_0000_0000
  {
    var j := AfterSpaces(s, i);
    var (p, w) := DigitsField(s, j);
    var n := HexRun(s, p, w);
    if n == 0 then None
    else
      var v := HexNumber(s, p, n);
      Some(if At(s, j) == MINUS then (0x1_0000_0000 - v) % 0x1_0000_0000 else v % 0x1_0000_0000)
  }

  /** 12" and 12 behind blanks, and no digit at all. */
  lemma ScanExamples()
    ensures ScanHex([49, 50, 34], 0) == Some(0x12) && ScanHex([32, 9, 49, 50, 34], 0) == Some(0x12)
    ensures ScanHex([103], 0) == None
  {
  }

  /** -1, and +a0C7 with one digit too many. */
  lemma ScanSigned()
    ensures ScanHex([45, 49, 34], 0) == Some(0xFFFF_FFFF) && ScanHex([43, 97, 48, 67, 55], 0) == Some(0xA0C)
  {
    var s: CStr := [43, 97, 48, 67, 55];
    assert DigitsField(s, 0) == (1, 3) && HexRun(s, 3, 1) == 1;
    assert HexNumber(s, 1, 1) == 10 && HexNumber(s, 1, 2) == 160;
  }

  /** 0x41 with one digit too many, and 0X with no digit behind it. */
  lemma ScanPrefixed()
    ensures ScanHex([48, 120, 52, 49, 50], 0) == Some(0x41) && ScanHex([48, 88, 103], 0) == None
  {
  }

  predicate FourHex(s: CStr, i: nat) {
    i + 4 <= |s| && IsHex(s[i]) && IsHex(s[i + 1]) && IsHex(s[i + 2]) && IsHex(s[i + 3])
  }

  function Hex4(s: CStr, i: nat): (u: nat)
    requires FourHex(s, i)
    ensures u < 0x10000
  {
    ((HexValue(s[i]) * 16 + HexValue(s[i + 1])) * 16 + HexValue(s[i + 2])) * 16 + HexValue(s[i + 3])
  }

  /** Four hexadecimal digits are read as such. */
  lemma ScanFour(s: CStr, i: nat)
    requires FourHex(s, i)
    ensures ScanHex(s, i) == Some(Hex4(s, i))
  {
    assert AfterSpaces(s, i) == i && DigitsField(s, i) == (i, 4);
    HexRunFour(s, i);
  }

  lemma HexRunFour(s: CStr, i: nat)
    requires FourHex(s, i)
    ensures HexRun(s, i, 4) == 4 && HexNumber(s, i, 4) == Hex4(s, i)
  {
    assert HexRun(s, i + 2, 2) == 2;
    assert HexNumber(s, i, 1) == HexValue(s[i]);
    assert HexNumber(s, i, 2) == HexValue(s[i]) * 16 + HexValue(s[i + 1]);
  }

  // ----- reading a literal

  /** The outcome of a parse function: a value and the position after it, a failure
      with the error position, or something C does not define: a pointer that leaves
      the text or the buffer, or the value of a variable nothing was stored in. */
  datatype Parsed<+T> = Good(value: T, end: nat) | Bad(ep: nat) | Undefined

  /** The bytes written and the position reached; or the pointer passes the
      terminating NUL; or a variable is used before anything was stored in it. */
  datatype Literal = Done(bytes: CStr, end: nat) | Runaway | Unset

  /** What can be left in uc behind an escape: a half of a pair without the other, or a
      value shifted to its first octet. */
  type Residue = u: nat | u < 0x4000 || 0xD800 <= u < 0xE000

  type Word = u: nat | u < 0x1_0000_0000

  /** The variables uc and uc2 of parse_string, which live for the whole literal; None as
      long as nothing was stored. */
  datatype Vars = Vars(uc: Option<Residue>, uc2: Option<Word>)

  const NO_VARS: Vars := Vars(None, None)

  /** One \u escape: the bytes it stands for, where reading goes on, and the variables. */
  datatype Escape = Read(bytes: CStr, end: nat, vars: Vars) | Away | Unknown

  function SimpleEscape(c: Char): Char {
    if c == 98 then 8
    else if c == 102 then 12
    else if c == 110 then 10
    else if c == 114 then 13
    else if c == 116 then 9
    else c
  }

  /** A second \u escape right after position i, as the copying pass looks for it. */
  predicate SecondHalf(s: CStr, i: nat)
    requires i <= |s|
  {
    At(s, i) == BACKSLASH && At(s, i + 1) == LOWER_U
  }

  /** What a variable holds after sscanf: without a digit, what it held before. */
  function Scanned(s: CStr, i: nat, held: Option<Word>): (r: Option<Word>)
    requires i <= |s|
  {
    if ScanHex(s, i).Some? then Some(ScanHex(s, i).value) else held
  }

  function HeldWord(uc: Option<Residue>): (r: Option<Word>)
    ensures r.Some? <==> uc.Some?
    ensures r.Some? ==> r.value == uc.value
  {
    match uc
    case None => None
    case Some(u) => Some(u)
  }

  /** A value that writes nothing by itself. */
  predicate Silent(u: nat) { u == 0 || IsLow(u) || IsHigh(u) }

  /** What is left in uc behind an escape of this value alone. */
  function Residual(u: Word): Residue { if Silent(u) then u else Shifted(u) }

  /** One \u escape whose digits are expected at i: reading goes on four characters
      behind i, whatever they are. */
  function Unicode(s: CStr, i: nat, v: Vars): (r: Escape)
    requires i <= |s|
    ensures r.Read? ==> i + 4 <= r.end <= |s| && |r.bytes| <= 4 && r.vars.uc.Some?
    ensures r.Read? && r.end != i + 4 ==> r.end == i + 10 && SecondHalf(s, i + 4)
  {
    if i + 4 > |s| then Away
    else
      match Scanned(s, i, HeldWord(v.uc))
      case None => Unknown
      case Some(u) =>
        if !IsHigh(u) || !SecondHalf(s, i + 4) then
          Read(if Silent(u) then [] else Octets(u), i + 4, v.(uc := Some(Residual(u))))
        else if i + 10 > |s| then Away
        else
          match Scanned(s, i + 6, v.uc2)
          case None => Unknown
          case Some(l) =>
            if !IsLow(l) then Read([], i + 10, Vars(Some(u), Some(l)))
            else Read(Octets(Combine(u, l)), i + 10, Vars(Some(Shifted(Combine(u, l))), Some(l)))
  }

  /** The copying pass from position i to the closing quote or the end. */
  function Copy(s: CStr, i: nat, v: Vars): (r: Literal)
    requires i <= |s|
    ensures r.Done? ==> i <= r.end <= |s| && (At(s, r.end) == 0 || At(s, r.end) == QUOTE)
    decreases |s| - i
  {
    if At(s, i) == 0 || At(s, i) == QUOTE then Done([], i)
    else if s[i] != BACKSLASH then Push([s[i]], Copy(s, i + 1, v))
    else if At(s, i + 1) == 0 then Runaway
    else if s[i + 1] != LOWER_U then Push([SimpleEscape(s[i + 1])], Copy(s, i + 2, v))
    else
      match Unicode(s, i + 2, v)
      case Read(bytes, end, w) => Push(bytes, Copy(s, end, w))
      case Away => Runaway
      case Unknown => Unset
  }

  function Push(bytes: CStr, rest: Literal): Literal {
    match rest
    case Done(more, end) => Done(bytes + more, end)
    case out => out
  }

  datatype Measured = Length(len: nat, stop: nat) | Lost

  /** The counting pass: one per unit, a backslash and its successor being one. */
  function Count(s: CStr, i: nat): (r: Measured)
    requires i <= |s|
    ensures r.Length? ==> i <= r.stop <= |s|
    decreases |s| - i
  {
    if At(s, i) == 0 || At(s, i) == QUOTE then Length(0, i)
    else if s[i] != BACKSLASH then Longer(Count(s, i + 1), 1)
    else if At(s, i + 1) == 0 then Lost
    else Longer(Count(s, i + 2), 1)
  }

  function Longer(r: Measured, n: nat): Measured {
    match r
    case Lost => Lost
    case Length(len, stop) => Length(n + len, stop)
  }

  /** Every backslash of the literal starts a complete escape: a character follows it,
      and after \u four hexadecimal digits. Every literal of RFC 8259 is of this kind. */
  predicate Escaped(s: CStr, i: nat)
    requires i <= |s|
    decreases |s| - i
  {
    if At(s, i) == 0 || At(s, i) == QUOTE then true
    else if s[i] != BACKSLASH then Escaped(s, i + 1)
    else if At(s, i + 1) == 0 then false
    else if s[i + 1] == LOWER_U then FourHex(s, i + 2) && Escaped(s, i + 6)
    else Escaped(s, i + 2)
  }

  // ----- writing a literal

  function EscapeChar(c: Char): (r: CStr)
    ensures 1 <= |r| <= 6
  {
    if c > 31 && c != QUOTE && c != BACKSLASH then [c]
    else if c == BACKSLASH || c == QUOTE then [BACKSLASH, c]
    else if c == 8 then [BACKSLASH, 98]
    else if c == 12 then [BACKSLASH, 102]
    else if c == 10 then [BACKSLASH, 110]
    else if c == 13 then [BACKSLASH, 114]
    else if c == 9 then [BACKSLASH, 116]
    else [BACKSLASH, LOWER_U, 48, 48, HexDigit(c / 16), HexDigit(c % 16)]
  }

  /** The escapes, character by character. */
  lemma EscapeTable(c: Char)
    ensures EscapeChar(34) == [92, 34] && EscapeChar(92) == [92, 92] && EscapeChar(8) == [92, 98] && EscapeChar(12) == [92, 102]
    ensures EscapeChar(10) == [92, 110] && EscapeChar(13) == [92, 114] && EscapeChar(9) == [92, 116]
    ensures EscapeChar(11) == [92, 117, 48, 48, 48, 98] && EscapeChar(31) == [92, 117, 48, 48, 49, 102]
    ensures EscapeChar(1) == [92, 117, 48, 48, 48, 49]
    ensures c >= 32 && c != 34 && c != 92 ==> EscapeChar(c) == [c]
  {
  }

  function EscapeAll(str: CStr): CStr {
    if str == [] then [] else EscapeChar(str[0]) + EscapeAll(str[1..])
  }

  function Quoted(str: CStr): CStr {
    [QUOTE] + EscapeAll(str) + [QUOTE]
  }

  /** A complete \u escape outside the surrogates. */
  lemma CopyBmp(s: CStr, i: nat, u: nat, v: Vars)
    requires i + 6 <= |s| && s[i] == BACKSLASH && s[i + 1] == LOWER_U && FourHex(s, i + 2) && Hex4(s, i + 2) == u
    requires u > 0 && !IsLow(u) && !IsHigh(u)
    ensures Copy(s, i, v) == Push(Encode(u), Copy(s, i + 6, v.(uc := Some(Shifted(u)))))
    ensures Escaped(s, i) <==> Escaped(s, i + 6)
  {
    hide ScanHex;
    hide Hex4;
    hide Octets;
    ScanFour(s, i + 2);
  }

  /** Two complete \u escapes that are a surrogate pair. */
  lemma CopyPair(s: CStr, i: nat, high: nat, low: nat, v: Vars)
    requires i + 12 <= |s| && s[i] == BACKSLASH && s[i + 1] == LOWER_U && s[i + 6] == BACKSLASH && s[i + 7] == LOWER_U
    requires FourHex(s, i + 2) && Hex4(s, i + 2) == high && FourHex(s, i + 8) && Hex4(s, i + 8) == low
    requires IsHigh(high) && IsLow(low)
    ensures Copy(s, i, v) == Push(Encode(Combine(high, low)), Copy(s, i + 12, Vars(Some(Shifted(Combine(high, low))), Some(low))))
    ensures Escaped(s, i) <==> Escaped(s, i + 12)
  {
    hide ScanHex;
    hide Hex4;
    hide Octets;
    hide Combine;
    ScanFour(s, i + 2);
    ScanFour(s, i + 8);
    assert Escaped(s, i) <==> Escaped(s, i + 6);
  }

  lemma ReadControl(s: CStr, i: nat, c: Char)
    requires Occurs(s, i, EscapeChar(c)) && |EscapeChar(c)| == 6
    ensures i + 6 <= |s| && s[i] == BACKSLASH && s[i + 1] == LOWER_U && FourHex(s, i + 2) && Hex4(s, i + 2) == c < 32
  {
    var e := EscapeChar(c);
    OccursAt(s, i, e, 0);
    OccursAt(s, i, e, 1);
    OccursAt(s, i, e, 2);
    OccursAt(s, i, e, 3);
    OccursAt(s, i, e, 4);
    OccursAt(s, i, e, 5);
  }

  lemma ReadPlain(s: CStr, i: nat, c: Char)
    requires Occurs(s, i, EscapeChar(c)) && |EscapeChar(c)| < 6
    ensures |EscapeChar(c)| <= 2 && i + |EscapeChar(c)| <= |s|
    ensures |EscapeChar(c)| == 1 ==> s[i] == c != QUOTE && c != BACKSLASH
    ensures |EscapeChar(c)| == 2 ==> s[i] == BACKSLASH && s[i + 1] != LOWER_U && SimpleEscape(s[i + 1]) == c
  {
    OccursAt(s, i, EscapeChar(c), 0);
    if |EscapeChar(c)| == 2 {
      OccursAt(s, i, EscapeChar(c), 1);
    }
  }

  /** Reading one printed character gives it back, whatever follows. */
  lemma CopyEscapedChar(s: CStr, i: nat, c: Char, v: Vars) returns (w: Vars)
    requires Occurs(s, i, EscapeChar(c))
    ensures Copy(s, i, v) == Push([c], Copy(s, i + |EscapeChar(c)|, w))
    ensures Escaped(s, i) <==> Escaped(s, i + |EscapeChar(c)|)
  {
    hide EscapeChar;
    hide Occurs;
    hide SimpleEscape;
    hide Unicode;
    hide FourHex;
    w := v;
    if |EscapeChar(c)| == 6 {
      ReadControl(s, i, c);
      CopyBmp(s, i, c, v);
      w := v.(uc := Some(Shifted(c)));
    } else {
      ReadPlain(s, i, c);
    }
  }

  lemma EscapeAllSplit(s: CStr, i: nat, str: CStr)
    requires str != [] && Occurs(s, i, EscapeAll(str) + [QUOTE])
    ensures Occurs(s, i, EscapeChar(str[0])) && Occurs(s, i + |EscapeChar(str[0])|, EscapeAll(str[1..]) + [QUOTE])
    ensures |EscapeAll(str)| == |EscapeChar(str[0])| + |EscapeAll(str[1..])|
    ensures [str[0]] + str[1..] == str
  {
    hide Occurs;
    hide EscapeChar;
    Assoc(EscapeChar(str[0]), EscapeAll(str[1..]), [QUOTE]);
    OccursSplit(s, i, EscapeChar(str[0]), EscapeAll(str[1..]) + [QUOTE]);
  }

  lemma CopyNothing(s: CStr, i: nat, v: Vars)
    requires Occurs(s, i, EscapeAll([]) + [QUOTE])
    ensures Copy(s, i, v) == Done([], i) && Escaped(s, i) && EscapeAll([]) == []
  {
    OccursAt(s, i, EscapeAll([]) + [QUOTE], 0);
  }

  lemma PushDone(bytes: CStr, rest: Literal)
    ensures rest.Done? ==> Push(bytes, rest) == Done(bytes + rest.bytes, rest.end)
  {
  }

  /** Reading a printed string gives the string back and ends at its closing quote. */
  lemma {:induction false} CopyEscaped(s: CStr, i: nat, str: CStr, v: Vars)
    requires Occurs(s, i, EscapeAll(str) + [QUOTE])
    ensures Copy(s, i, v) == Done(str, i + |EscapeAll(str)|) && Escaped(s, i)
    decreases |str|
  {
    hide *;
    if str == [] {
      CopyNothing(s, i, v);
    } else {
      EscapeAllSplit(s, i, str);
      var w := CopyEscapedChar(s, i, str[0], v);
      CopyEscaped(s, i + |EscapeChar(str[0])|, str[1..], w);
      PushDone([str[0]], Copy(s, i + |EscapeChar(str[0])|, w));
    }
  }

  /** What parse_string yields at position i, if both passes stay inside the text and
      the bytes copied fit the buffer of the length counted, with the NUL. */
  function StringAt(s: CStr, i: nat): (r: Parsed<CStr>)
    requires i <= |s|
    ensures r.Good? ==> i < r.end <= |s|
    ensures r.Bad? ==> r.ep == i
  {
    if At(s, i) != QUOTE then Bad(i)
    else
      match Copy(s, i + 1, NO_VARS)
      case Done(bytes, end) =>
        if Count(s, i + 1).Length? && |bytes| <= Count(s, i + 1).len then
          Good(bytes, if At(s, end) == QUOTE then end + 1 else end)
        else Undefined
      case _ => Undefined
  }

  /** The text of a string value; a missing one prints as nothing. */
  function StringText(str: Option<CStr>): CStr {
    match str
    case None => []
    case Some(b) => Quoted(b)
  }

  // ----- transcoding

  /** A 16-bit unit written as a \u escape. */
  function UnitEscape(u: nat): (r: CStr)
    requires u < 0x10000
    ensures |r| == 6
  {
    [BACKSLASH, LOWER_U, HexDigit(u / 4096), HexDigit(u / 256 % 16), HexDigit(u / 16 % 16), HexDigit(u % 16)]
  }

  function ScalarEscape(u: Scalar): CStr {
    if u < 0x10000 then UnitEscape(u) else UnitEscape(Split(u).0) + UnitEscape(Split(u).1)
  }

  function ScalarEscapes(us: seq<Scalar>): CStr {
    if us == [] then [] else ScalarEscape(us[0]) + ScalarEscapes(us[1..])
  }

  lemma ReadUnit(s: CStr, i: nat, u: nat)
    requires u < 0x10000 && Occurs(s, i, UnitEscape(u))
    ensures i + 6 <= |s| && s[i] == BACKSLASH && s[i + 1] == LOWER_U
    ensures FourHex(s, i + 2) && Hex4(s, i + 2) == u && ScanHex(s, i + 2) == Some(u)
  {
    var e := UnitEscape(u);
    OccursAt(s, i, e, 0);
    OccursAt(s, i, e, 1);
    OccursAt(s, i, e, 2);
    OccursAt(s, i, e, 3);
    OccursAt(s, i, e, 4);
    OccursAt(s, i, e, 5);
    NibblesSum(u);
    ScanFour(s, i + 2);
  }

  lemma NibblesSum(u: nat)
    ensures ((u / 4096 * 16 + u / 256 % 16) * 16 + u / 16 % 16) * 16 + u % 16 == u
  {
    assert u / 4096 == u / 256 / 16;
    assert u / 256 == u / 16 / 16;
  }

  lemma CopyScalar(s: CStr, i: nat, u: Scalar, v: Vars) returns (w: Vars)
    requires Occurs(s, i, ScalarEscape(u))
    ensures Copy(s, i, v) == Push(Encode(u), Copy(s, i + |ScalarEscape(u)|, w))
    ensures Escaped(s, i) <==> Escaped(s, i + |ScalarEscape(u)|)
  {
    hide Occurs;
    hide UnitEscape;
    hide Copy;
    hide Escaped;
    if u < 0x10000 {
      ReadUnit(s, i, u);
      CopyBmp(s, i, u, v);
      w := v.(uc := Some(Shifted(u)));
    } else {
      OccursSplit(s, i, UnitEscape(Split(u).0), UnitEscape(Split(u).1));
      ReadUnit(s, i, Split(u).0);
      ReadUnit(s, i + 6, Split(u).1);
      SurrogatesRoundTrip(u, 0, 0);
      CopyPair(s, i, Split(u).0, Split(u).1, v);
      w := Vars(Some(Shifted(Combine(Split(u).0, Split(u).1))), Some(Split(u).1));
    }
  }

  lemma ScalarEscapesSplit(s: CStr, i: nat, us: seq<Scalar>)
    requires us != [] && Occurs(s, i, ScalarEscapes(us) + [QUOTE])
    ensures Occurs(s, i, ScalarEscape(us[0])) && Occurs(s, i + |ScalarEscape(us[0])|, ScalarEscapes(us[1..]) + [QUOTE])
    ensures |ScalarEscapes(us)| == |ScalarEscape(us[0])| + |ScalarEscapes(us[1..])|
    ensures EncodeAll(us) == Encode(us[0]) + EncodeAll(us[1..])
  {
    hide Occurs;
    hide ScalarEscape;
    Assoc(ScalarEscape(us[0]), ScalarEscapes(us[1..]), [QUOTE]);
    OccursSplit(s, i, ScalarEscape(us[0]), ScalarEscapes(us[1..]) + [QUOTE]);
  }

  lemma NoEscapes(s: CStr, i: nat, v: Vars)
    requires Occurs(s, i, ScalarEscapes([]) + [QUOTE])
    ensures Copy(s, i, v) == Done([], i) && Escaped(s, i) && EncodeAll([]) == [] && ScalarEscapes([]) == []
  {
    OccursAt(s, i, ScalarEscapes([]) + [QUOTE], 0);
  }

  /** Any sequence of scalar values written as \u escapes, surrogate pairs above
      U+FFFF, is parsed to exactly its UTF-8 encoding, which decodes to the sequence. */
  lemma {:induction false} Transcoding(s: CStr, i: nat, us: seq<Scalar>, v: Vars)
    requires Occurs(s, i, ScalarEscapes(us) + [QUOTE])
    ensures Copy(s, i, v) == Done(EncodeAll(us), i + |ScalarEscapes(us)|) && Escaped(s, i)
    ensures DecodeAll(Copy(s, i, v).bytes) == Some(us)
    decreases |us|
  {
    hide *;
    DecodeEncode(us);
    if us == [] {
      NoEscapes(s, i, v);
    } else {
      ScalarEscapesSplit(s, i, us);
      var w := CopyScalar(s, i, us[0], v);
      Transcoding(s, i + |ScalarEscape(us[0])|, us[1..], w);
      PushDone(Encode(us[0]), Copy(s, i + |ScalarEscape(us[0])|, w));
    }
  }
}
