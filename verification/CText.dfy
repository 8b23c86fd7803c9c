/**
 C strings. A text is the sequence of its non-zero bytes; the terminating NUL sits
 at index |s|, so a position is in bounds exactly when it is at most |s|.
 */
module CText {

  datatype Option<+T> = None | Some(value: T)

  type Byte = b: int | 0 <= b < 256

  type Char = c: int | 1 <= c < 256 witness 1

  type CStr = seq<Char>

  const QUOTE: Char := 34
  const COMMA: Char := 44
  const PLUS: Char := 43
  const MINUS: Char := 45
  const DOT: Char := 46
  const COLON: Char := 58
  const OPEN_BRACKET: Char := 91
  const BACKSLASH: Char := 92
  const CLOSE_BRACKET: Char := 93
  const LOWER_U: Char := 117
  const OPEN_BRACE: Char := 123
  const CLOSE_BRACE: Char := 125
  const TAB: Char := 9
  const NEWLINE: Char := 10
  const SPACE: Char := 32

  /** The byte a C program reads at position i. */
  function At(s: CStr, i: nat): Byte
    requires i <= |s|
  {
    if i < |s| then s[i] else 0
  }

  /** t stands in s at position i. */
  predicate Occurs(s: CStr, i: nat, t: CStr) {
    i + |t| <= |s| && s[i..i + |t|] == t
  }

  lemma OccursSplit(s: CStr, i: nat, a: CStr, b: CStr)
    requires Occurs(s, i, a + b)
    ensures Occurs(s, i, a) && Occurs(s, i + |a|, b)
  {
    var w := s[i..i + |a + b|];
    assert s[i..i + |a|] == w[..|a|] == a;
    assert s[i + |a|..i + |a| + |b|] == w[|a|..] == b;
  }

  lemma Assoc<T>(a: seq<T>, b: seq<T>, c: seq<T>)
    ensures (a + b) + c == a + (b + c)
  {
  }

  lemma OccursAt(s: CStr, i: nat, t: CStr, k: nat)
    requires Occurs(s, i, t) && k < |t|
    ensures At(s, i + k) == t[k]
  {
    assert s[i..i + |t|][k] == s[i + k];
  }

  /** isspace in the C locale. */
  predicate IsSpace(c: Byte) { c == 32 || 9 <= c <= 13 }

  function AfterSpaces(s: CStr, i: nat): (r: nat)
    requires i <= |s|
    ensures i <= r <= |s| && !IsSpace(At(s, r))
    ensures forall k :: i <= k < r ==> IsSpace(s[k])
    decreases |s| - i
  {
    if IsSpace(At(s, i)) then AfterSpaces(s, i + 1) else i
  }

  predicate IsDigit(c: Byte) { 48 <= c <= 57 }

  predicate IsHex(c: Byte) { IsDigit(c) || 65 <= c <= 70 || 97 <= c <= 102 }

  function HexValue(c: Byte): (v: nat)
    requires IsHex(c)
    ensures v < 16
  {
    if c <= 57 then c - 48 else if c <= 70 then c - 55 else c - 87
  }

  /** The lower-case hexadecimal digit that printf writes. */
  function HexDigit(v: nat): (c: Char)
    requires v < 16
    ensures IsHex(c) && HexValue(c) == v
  {
    if v < 10 then 48 + v else 87 + v
  }

  /** Whitespace skipping: everything from 1 to 32 is blank. */
  function Skip(s: CStr, i: nat): (r: nat)
    requires i <= |s|
    ensures i <= r <= |s|
    ensures forall k :: i <= k < r ==> s[k] <= 32
    ensures At(s, r) == 0 || At(s, r) > 32
    decreases |s| - i
  {
    if i < |s| && s[i] <= 32 then Skip(s, i + 1) else i
  }

  lemma SkipNothing(s: CStr, i: nat)
    requires i <= |s| && (At(s, i) == 0 || At(s, i) > 32)
    ensures Skip(s, i) == i
  {
  }

  lemma {:induction false} SkipOver(s: CStr, i: nat, j: nat)
    requires i <= j <= |s|
    requires forall k :: i <= k < j ==> s[k] <= 32
    ensures Skip(s, i) == Skip(s, j)
    decreases j - i
  {
    if i < j {
      SkipOver(s, i + 1, j);
    }
  }
}
