/**
 Packing the typed parameters of eipcmsg into the data of a message: a first pass adds
 up sizes, a second one fills the buffer. Multi-byte numbers are stored low byte first.
 */
module Packing {
  import opened CText
  import Bits
  import G = Grammar

  /** A parameter type: a signed or unsigned number of some bytes, a single character,
      or a string field of the width written behind the S. */
  datatype Kind = Signed(bytes: nat) | Unsigned(bytes: nat) | Letter | Text(width: int)

  /** A type word and the value word behind it. */
  datatype Param = Param(word: CStr, value: CStr)

  // ----- atoi

  function Digits(s: CStr, i: nat, n: nat): nat
    requires i <= |s|
    decreases |s| - i
  {
    if IsDigit(At(s, i)) then Digits(s, i + 1, n * 10 + (s[i] as int - 48)) else n
  }

  function Atoi(s: CStr): int {
    var i := AfterSpaces(s, 0);
    if At(s, i) == MINUS then -(Digits(s, i + 1, 0) as int)
    else if At(s, i) == PLUS then Digits(s, i + 1, 0)
    else Digits(s, i, 0)
  }

  // ----- parameter types

  const I32: CStr := [73, 51, 50]
  const I16: CStr := [73, 49, 54]
  const I8: CStr := [73, 56]
  const C: CStr := [67]
  const U32: CStr := [85, 51, 50]
  const U16: CStr := [85, 49, 54]
  const U8: CStr := [85, 56]
  const LETTER_S: Char := 83

  /** The type a word stands for; None is the error exit. A string of width zero is an
      error, one of negative width is not. */
  function KindOf(word: CStr): (r: Option<Kind>)
    ensures r.Some? && r.value.Text? ==> r.value.width != 0
    ensures r.Some? && !r.value.Text? ==> Width(r.value) > 0
  {
    if word == I32 then Some(Signed(4))
    else if word == I16 then Some(Signed(2))
    else if word == I8 then Some(Signed(1))
    else if word == C then Some(Letter)
    else if word == U32 then Some(Unsigned(4))
    else if word == U16 then Some(Unsigned(2))
    else if word == U8 then Some(Unsigned(1))
    else if At(word, 0) == LETTER_S && Atoi(word[1..]) != 0 then Some(Text(Atoi(word[1..])))
    else None
  }

  function Width(k: Kind): int {
    match k
    case Signed(n) => n
    case Unsigned(n) => n
    case Letter => 1
    case Text(w) => w
  }

  predicate AllKnown(ps: seq<Param>) { forall i :: 0 <= i < |ps| ==> KindOf(ps[i].word).Some? }

  function Total(ps: seq<Param>): int
    requires AllKnown(ps)
  {
    if ps == [] then 0 else Total(ps[..|ps| - 1]) + Width(KindOf(ps[|ps| - 1].word).value)
  }

  /** Where the field of parameter i starts. */
  function Offset(ps: seq<Param>, i: nat): int
    requires AllKnown(ps) && i <= |ps|
  {
    Total(ps[..i])
  }

  lemma TotalNext(ps: seq<Param>, i: nat)
    requires i < |ps| && AllKnown(ps[..i]) && KindOf(ps[i].word).Some?
    ensures AllKnown(ps[..i + 1]) && Total(ps[..i + 1]) == Total(ps[..i]) + Width(KindOf(ps[i].word).value)
  {
    hide KindOf;
    assert ps[..i + 1] == ps[..i] + [ps[i]];
    assert ps[..i + 1][..i] == ps[..i];
  }

  lemma OffsetNext(ps: seq<Param>, i: nat)
    requires AllKnown(ps) && i < |ps|
    ensures Offset(ps, i + 1) == Offset(ps, i) + Width(KindOf(ps[i].word).value)
  {
    assert ps[..i + 1][..i] == ps[..i];
  }

  predicate AllPositive(ps: seq<Param>)
    requires AllKnown(ps)
  {
    forall i :: 0 <= i < |ps| ==> Width(KindOf(ps[i].word).value) > 0
  }

  // ----- the bytes of a field

  function Power256(n: nat): nat { if n == 0 then 1 else 256 * Power256(n - 1) }

  function LowFirst(v: nat, n: nat): (r: seq<Byte>)
    ensures |r| == n
  {
    if n == 0 then [] else [v % 256] + LowFirst(v / 256, n - 1)
  }

  function FromLowFirst(b: seq<Byte>): nat {
    if b == [] then 0 else b[0] + 256 * FromLowFirst(b[1..])
  }

  lemma {:induction false} LowFirstBack(v: nat, n: nat)
    requires v < Power256(n)
    ensures FromLowFirst(LowFirst(v, n)) == v
  {
    if n > 0 {
      assert v / 256 < Power256(n - 1);
      LowFirstBack(v / 256, n - 1);
      assert LowFirst(v, n)[1..] == LowFirst(v / 256, n - 1);
    }
  }

  function Zeros(n: nat): (r: seq<Byte>)
    ensures |r| == n && forall k :: 0 <= k < n ==> r[k] == 0
  {
    if n == 0 then [] else [0] + Zeros(n - 1)
  }

  /** The part of a string that a field of width w keeps. */
  function Fitting(w: nat, s: CStr): (r: CStr)
    requires w > 0
    ensures |r| < w
  {
    if |s| < w then s else s[..w - 1]
  }

  function FieldBytes(k: Kind, s: CStr): (r: seq<Byte>)
    requires Width(k) > 0
    ensures |r| == Width(k)
  {
    match k
    case Signed(n) => LowFirst(Atoi(s) % Positive(n), n)
    case Unsigned(n) => LowFirst(Atoi(s) % Positive(n), n)
    case Letter => [At(s, 0)]
    case Text(w) => Fitting(w, s) + Zeros(w - |Fitting(w, s)|)
  }

  /** 256 to the n; never zero. */
  function Positive(n: nat): (r: nat)
    ensures r > 0 && r == Power256(n)
  {
    PowerPositive(n);
    Power256(n)
  }

  lemma {:induction false} PowerPositive(n: nat)
    ensures Power256(n) > 0
  {
    if n > 0 {
      PowerPositive(n - 1);
    }
  }

  function Packed(ps: seq<Param>): (r: seq<Byte>)
    requires AllKnown(ps) && AllPositive(ps)
    ensures |r| == Total(ps)
  {
    if ps == [] then []
    else Packed(ps[..|ps| - 1]) + FieldBytes(KindOf(ps[|ps| - 1].word).value, ps[|ps| - 1].value)
  }

  lemma NothingPacked()
    ensures Total([]) == 0 && Packed([]) == []
  {
  }

  lemma PackedNext(ps: seq<Param>, i: nat)
    requires AllKnown(ps) && AllPositive(ps) && i < |ps|
    ensures Packed(ps[..i + 1]) == Packed(ps[..i]) + FieldBytes(KindOf(ps[i].word).value, ps[i].value)
  {
    assert ps[..i + 1][..i] == ps[..i];
  }

  // ----- the two passes

  /** The first loop: the size, or None for a word that is no type. */
  method SizePass(ps: seq<Param>) returns (size: Option<int>)
    ensures size.Some? <==> AllKnown(ps)
    ensures size.Some? ==> size.value == Total(ps)
  {
    hide KindOf;
    hide Total;
    var mallocSize := 0;
    var i := 0;
    NothingPacked();
    while i < |ps|
      invariant i <= |ps| && AllKnown(ps[..i]) && mallocSize == Total(ps[..i])
    {
      var word := ps[i].word;
      if KindOf(word).None? {
        return None;
      }
      TotalNext(ps, i);
      mallocSize := mallocSize + Width(KindOf(word).value);
      i := i + 1;
    }
    assert ps[..i] == ps;
    size := Some(mallocSize);
  }

  /** An assignment through a pointer cast to a number of n bytes. */
  method StoreNumber(out: array<Byte>, p: nat, v: nat, n: nat)
    requires p + n <= out.Length
    modifies out
    ensures out[..] == old(out[..p]) + LowFirst(v, n) + old(out[p + n..])
  {
    ghost var bytes := LowFirst(v, n);
    var i, rest := 0, v;
    while i < n
      invariant i <= n && bytes[i..] == LowFirst(rest, n - i)
      invariant forall k :: 0 <= k < i ==> out[p + k] == bytes[k]
      invariant forall k :: 0 <= k < p || p + i <= k < out.Length ==> out[k] == old(out[k])
    {
      assert bytes[i] == bytes[i..][0] == rest % 256;
      assert bytes[i + 1..] == bytes[i..][1..];
      out[p + i] := rest % 256;
      rest := rest / 256;
      i := i + 1;
    }
    assert out[p..p + n] == bytes;
    assert out[..] == out[..p] + out[p..p + n] + out[p + n..];
  }

  /** snprintf of a string into a field: as much as fits, and a NUL. */
  method StoreText(out: array<Byte>, p: nat, w: nat, s: CStr)
    requires w > 0 && p + w <= out.Length
    modifies out
    ensures forall k :: 0 <= k < p || p + |Fitting(w, s)| < k < out.Length ==> out[k] == old(out[k])
    ensures out[p..p + |Fitting(w, s)|] == Fitting(w, s) && out[p + |Fitting(w, s)|] == 0
  {
    var i := 0;
    while i < |s| && i + 1 < w
      invariant i <= |Fitting(w, s)| && out[p..p + i] == Fitting(w, s)[..i]
      invariant forall k :: 0 <= k < p || p + i <= k < out.Length ==> out[k] == old(out[k])
    {
      out[p + i] := s[i];
      assert out[p..p + i + 1] == out[p..p + i] + [s[i]];
      i := i + 1;
    }
    out[p + i] := 0;
  }

  lemma ZeroTail(b: seq<Byte>, p: nat, w: nat, s: CStr)
    requires w > 0 && p + w <= |b| && b[p..p + |Fitting(w, s)|] == Fitting(w, s)
    requires forall k :: p + |Fitting(w, s)| <= k < p + w ==> b[k] == 0
    ensures b[p..p + w] == Fitting(w, s) + Zeros(w - |Fitting(w, s)|)
  {
    var n := |Fitting(w, s)|;
    assert b[p..p + w] == b[p..p + n] + b[p + n..p + w];
    assert b[p + n..p + w] == Zeros(w - n);
  }

  /** The second loop, into a zeroed buffer of the size the first one found. */
  method FillPass(ps: seq<Param>, size: nat) returns (out: array<Byte>)
    requires AllKnown(ps) && AllPositive(ps) && size == Total(ps)
    ensures fresh(out) && out[..] == Packed(ps)
  {
    hide KindOf;
    hide Packed;
    hide Total;
    hide FieldBytes;
    hide Width;
    NothingPacked();
    out := new Byte[size](_ => 0);
    var tillSize, i := 0, 0;
    assert ps[..|ps|] == ps;
    while i < |ps|
      invariant i <= |ps| && tillSize == Offset(ps, i) && 0 <= tillSize <= size
      invariant out[..tillSize] == Packed(ps[..i])
      invariant forall k :: tillSize <= k < size ==> out[k] == 0
    {
      ghost var before := out[..tillSize];
      OffsetNext(ps, i);
      OffsetWithin(ps, i + 1);
      PackedNext(ps, i);
      var kind, value := KindOf(ps[i].word).value, ps[i].value;
      var p := tillSize;
      tillSize := tillSize + Width(kind);
      FillField(out, p, kind, value);
      assert out[..tillSize] == before + FieldBytes(kind, value);
      i := i + 1;
    }
  }

  /** One turn of the second loop. */
  method FillField(out: array<Byte>, p: nat, kind: Kind, value: CStr)
    requires Width(kind) > 0 && p + Width(kind) <= out.Length
    requires forall k :: p <= k < out.Length ==> out[k] == 0
    modifies out
    ensures out[..p] == old(out[..p]) && out[p..p + Width(kind)] == FieldBytes(kind, value)
    ensures forall k :: p + Width(kind) <= k < out.Length ==> out[k] == 0
  {
    match kind {
      case Signed(n) => StoreNumber(out, p, Atoi(value) % Positive(n), n);
      case Unsigned(n) => StoreNumber(out, p, Atoi(value) % Positive(n), n);
      case Letter => out[p] := At(value, 0);
      case Text(w) =>
        StoreText(out, p, w, value);
        ZeroTail(out[..], p, w, value);
    }
  }

  lemma {:induction false} OffsetWithin(ps: seq<Param>, i: nat)
    requires AllKnown(ps) && AllPositive(ps) && i <= |ps|
    ensures 0 <= Offset(ps, i) <= Total(ps)
    decreases |ps| - i
  {
    if i < |ps| {
      OffsetNext(ps, i);
      OffsetWithin(ps, i + 1);
      OffsetPositive(ps[..i]);
    } else {
      assert ps[..i] == ps;
      OffsetPositive(ps);
    }
  }

  lemma {:induction false} OffsetPositive(ps: seq<Param>)
    requires AllKnown(ps) && AllPositive(ps)
    ensures Total(ps) >= 0
  {
    if ps != [] {
      OffsetPositive(ps[..|ps| - 1]);
    }
  }

  // ----- what the words and the bytes are

  lemma {:induction false} DigitsOn(s: CStr, i: nat, ds: seq<G.Digit>, k: nat)
    requires k <= |ds| && Occurs(s, i, G.DigitsText(ds)) && i + |ds| <= |s|
    ensures Digits(s, i, 0) == Digits(s, i + k, G.Natural(ds[..k]))
  {
    if k > 0 {
      DigitsOn(s, i, ds, k - 1);
      OccursAt(s, i, G.DigitsText(ds), k - 1);
      assert ds[..k][..k - 1] == ds[..k - 1];
    }
  }

  lemma {:induction false} SpacesOver(s: CStr, i: nat, j: nat)
    requires i <= j <= |s| && (forall k :: i <= k < j ==> IsSpace(s[k])) && !IsSpace(At(s, j))
    ensures AfterSpaces(s, i) == j
    decreases j - i
  {
    if i < j {
      SpacesOver(s, i + 1, j);
    }
  }

  predicate White(b: CStr) { forall k :: 0 <= k < |b| ==> b[k] == 32 || 9 <= b[k] <= 13 }

  lemma AtoiParts(blanks: CStr, sign: CStr, digits: CStr, rest: CStr)
    ensures var s := blanks + sign + digits + rest;
      && (forall k :: 0 <= k < |blanks| ==> s[k] == blanks[k])
      && Occurs(s, |blanks|, sign) && Occurs(s, |blanks| + |sign|, digits)
      && At(s, |blanks| + |sign| + |digits|) == At(rest, 0)
  {
  }

  /** atoi by what is written: white space, a sign, digits, and something else behind
      them that cannot belong to the number. */
  lemma AtoiIs(blanks: CStr, sign: G.Sign, ds: seq<G.Digit>, rest: CStr)
    requires White(blanks) && !(48 <= At(rest, 0) <= 57)
    requires sign == G.NoSign && ds == [] ==> At(rest, 0) !in {32, 43, 45} && !(9 <= At(rest, 0) <= 13)
    ensures Atoi(blanks + G.SignText(sign) + G.DigitsText(ds) + rest)
         == if sign == G.MinusSign then -(G.Natural(ds) as int) else G.Natural(ds)
  {
    hide *;
    var mark, text := G.SignText(sign), G.DigitsText(ds);
    var s := blanks + mark + text + rest;
    var i, j := |blanks|, |blanks| + |mark|;
    AtoiParts(blanks, mark, text, rest);
    BehindMark(s, j, ds, At(rest, 0));
    AtMark(s, i, sign, At(s, j));
    DigitsAll(s, j, ds);
    BlanksOver(s, blanks);
    AtoiSteps(s, i, sign, G.Natural(ds));
  }

  lemma DigitsAll(s: CStr, i: nat, ds: seq<G.Digit>)
    requires Occurs(s, i, G.DigitsText(ds)) && i + |ds| <= |s| && !(48 <= At(s, i + |ds|) <= 57)
    ensures Digits(s, i, 0) == G.Natural(ds)
  {
    assert ds[..|ds|] == ds;
    DigitsOn(s, i, ds, |ds|);
  }

  lemma BlanksOver(s: CStr, blanks: CStr)
    requires White(blanks) && |blanks| <= |s| && forall k :: 0 <= k < |blanks| ==> s[k] == blanks[k]
    requires At(s, |blanks|) != 32 && !(9 <= At(s, |blanks|) <= 13)
    ensures AfterSpaces(s, 0) == |blanks|
  {
    forall k | 0 <= k < |blanks|
      ensures IsSpace(s[k])
    {
      assert s[k] == blanks[k];
    }
    SpacesOver(s, 0, |blanks|);
  }

  lemma BehindMark(s: CStr, j: nat, ds: seq<G.Digit>, next: Byte)
    requires Occurs(s, j, G.DigitsText(ds)) && j + |ds| <= |s| && At(s, j + |ds|) == next
    ensures if ds == [] then At(s, j) == next else 48 <= At(s, j) <= 57
  {
    if ds != [] {
      OccursAt(s, j, G.DigitsText(ds), 0);
    }
  }

  lemma AtMark(s: CStr, i: nat, sign: G.Sign, next: Byte)
    requires Occurs(s, i, G.SignText(sign)) && i + |G.SignText(sign)| <= |s| && At(s, i + |G.SignText(sign)|) == next
    ensures At(s, i) == match sign { case NoSign => next case PlusSign => 43 case MinusSign => 45 }
    ensures |G.SignText(sign)| == if sign == G.NoSign then 0 else 1
  {
    if sign != G.NoSign {
      OccursAt(s, i, G.SignText(sign), 0);
    }
  }

  lemma AtoiSteps(s: CStr, i: nat, sign: G.Sign, n: nat)
    requires i <= |s| && AfterSpaces(s, 0) == i
    requires sign == G.NoSign ==> At(s, i) !in {43, 45} && Digits(s, i, 0) == n
    requires sign == G.PlusSign ==> At(s, i) == 43 && i < |s| && Digits(s, i + 1, 0) == n
    requires sign == G.MinusSign ==> At(s, i) == 45 && i < |s| && Digits(s, i + 1, 0) == n
    ensures Atoi(s) == if sign == G.MinusSign then -(n as int) else n
  {
    hide Digits;
    hide AfterSpaces;
  }

  /** The type words, letter by letter: I32, I16, I8, C, U32, U16 and U8; S with a
      number that is not zero; and no others. */
  lemma KindTable(word: CStr)
    ensures KindOf([73, 51, 50]) == Some(Signed(4)) && KindOf([73, 49, 54]) == Some(Signed(2)) && KindOf([73, 56]) == Some(Signed(1))
    ensures KindOf([85, 51, 50]) == Some(Unsigned(4)) && KindOf([85, 49, 54]) == Some(Unsigned(2)) && KindOf([85, 56]) == Some(Unsigned(1))
    ensures KindOf([67]) == Some(Letter)
    ensures KindOf([83] + word) == if Atoi(word) != 0 then Some(Text(Atoi(word))) else None
    ensures KindOf(word).Some? ==>
      || word in {[73, 51, 50], [73, 49, 54], [73, 56], [85, 51, 50], [85, 49, 54], [85, 56], [67]}
      || (word != [] && word[0] == 83)
  {
    hide Atoi;
    var w: CStr := [83] + word;
    assert w[1..] == word && w[0] == 83;
  }

  lemma {:induction false} LowFirstAt(v: nat, n: nat, j: nat)
    requires j < n
    ensures LowFirst(v, n)[j] == v / Positive(j) % 256
  {
    if j > 0 {
      LowFirstAt(v / 256, n - 1, j - 1);
      Quotients(v, Positive(j - 1));
      assert Positive(j) == 256 * Positive(j - 1);
    } else {
      assert Positive(0) == 1;
    }
  }

  lemma Quotients(v: nat, p: nat)
    requires p > 0
    ensures v / 256 / p == v / (256 * p)
  {
    var q, r := v / 256 / p, v / 256 % p;
    var rest := 256 * r + v % 256;
    assert v / 256 == p * q + r;
    assert v == 256 * (p * q + r) + v % 256;
    Bits.ModIs(v, 256 * p, q, rest);
  }

  /** The powers that occur. */
  lemma Powers()
    ensures Power256(0) == 1 && Power256(1) == 0x100 && Power256(2) == 0x1_0000 && Power256(4) == 0x1_0000_0000
  {
    assert Power256(3) == 256 * Power256(2);
  }

  /** Byte j of a field: of a number the j-th from the low end, of a string the j-th, and
      zero behind the last one that leaves room for a NUL. */
  function FieldByte(k: Kind, s: CStr, j: nat): int
    requires Width(k) > 0
  {
    match k
    case Letter => At(s, 0)
    case Text(w) => if j < |s| && j + 1 < w then s[j] else 0
    case _ => Atoi(s) % Positive(Width(k)) / Positive(j) % 256
  }

  lemma FieldBytesAre(k: Kind, s: CStr, j: nat)
    requires 0 <= j < Width(k)
    ensures FieldBytes(k, s)[j] == FieldByte(k, s, j)
  {
    hide Atoi;
    if k.Signed? || k.Unsigned? {
      LowFirstAt(Atoi(s) % Positive(Width(k)), Width(k), j);
    }
  }

  lemma {:induction false} PackedPrefix(ps: seq<Param>, i: nat)
    requires AllKnown(ps) && AllPositive(ps) && i <= |ps|
    ensures Packed(ps[..i]) <= Packed(ps) && |Packed(ps[..i])| == Offset(ps, i)
  {
    if i == |ps| {
      assert ps[..i] == ps;
    } else {
      var front := ps[..|ps| - 1];
      PackedPrefix(front, i);
      assert front[..i] == ps[..i];
    }
  }

  lemma PrefixKept(ps: seq<Param>, i: nat)
    requires AllKnown(ps) && AllPositive(ps) && i <= |ps|
    ensures |Packed(ps[..i])| == Offset(ps, i)
  {
  }

  /** Every byte of the buffer is the byte due there of the field that lies there. */
  lemma PackedBytes(ps: seq<Param>, i: nat, j: nat)
    requires AllKnown(ps) && AllPositive(ps) && i < |ps| && j < Width(KindOf(ps[i].word).value)
    ensures 0 <= Offset(ps, i) && Offset(ps, i) + j < |Packed(ps)|
    ensures Packed(ps)[Offset(ps, i) + j] == FieldByte(KindOf(ps[i].word).value, ps[i].value, j)
  {
    hide KindOf;
    hide Packed;
    hide Total;
    hide FieldBytes;
    hide FieldByte;
    hide Width;
    OffsetWithin(ps, i);
    OffsetNext(ps, i);
    PackedPrefix(ps, i + 1);
    PackedNext(ps, i);
    FieldBytesAre(KindOf(ps[i].word).value, ps[i].value, j);
    PrefixKept(ps, i);
  }

  // ----- reading the fields back

  datatype Value = Number(n: int) | Char(c: Byte) | Str(s: CStr)

  /** A stored number of n bytes read as a signed one. */
  function AsSigned(v: nat, n: nat): int { if 2 * v >= Power256(n) then v - Power256(n) else v }

  function UpToNul(b: seq<Byte>): (r: CStr) {
    if b == [] || b[0] == 0 then [] else [b[0]] + UpToNul(b[1..])
  }

  function ReadField(k: Kind, b: seq<Byte>): Value
    requires Width(k) > 0 && |b| == Width(k)
  {
    match k
    case Signed(n) => Number(AsSigned(FromLowFirst(b), n))
    case Unsigned(n) => Number(FromLowFirst(b))
    case Letter => Char(b[0])
    case Text(w) => Str(UpToNul(b))
  }

  /** Reading a message's data by the same types. */
  function Unpack(ps: seq<Param>, b: seq<Byte>): seq<Value>
    requires AllKnown(ps) && AllPositive(ps) && |b| == Total(ps)
  {
    if ps == [] then []
    else
      var before, k := ps[..|ps| - 1], KindOf(ps[|ps| - 1].word).value;
      OffsetPositive(before);
      Unpack(before, b[..Total(before)]) + [ReadField(k, b[Total(before)..])]
  }

  /** What a field can keep of its value word: numbers modulo their width, strings cut
      to one byte less than theirs. */
  function Kept(k: Kind, s: CStr): Value
    requires Width(k) > 0
  {
    match k
    case Signed(n) => Number(AsSigned(Atoi(s) % Positive(n), n))
    case Unsigned(n) => Number(Atoi(s) % Positive(n))
    case Letter => Char(At(s, 0))
    case Text(w) => Str(Fitting(w, s))
  }

  function KeptAll(ps: seq<Param>): seq<Value>
    requires AllKnown(ps) && AllPositive(ps)
  {
    if ps == [] then [] else KeptAll(ps[..|ps| - 1]) + [Kept(KindOf(ps[|ps| - 1].word).value, ps[|ps| - 1].value)]
  }

  lemma {:induction false} UpToNulOf(s: CStr, n: nat)
    requires n > 0
    ensures UpToNul(s + Zeros(n)) == s
  {
    var b := s + Zeros(n);
    if s != [] {
      assert b[1..] == s[1..] + Zeros(n);
      UpToNulOf(s[1..], n);
    }
  }

  lemma FieldBack(k: Kind, s: CStr)
    requires Width(k) > 0
    ensures ReadField(k, FieldBytes(k, s)) == Kept(k, s)
  {
    match k {
      case Signed(n) => LowFirstBack(Atoi(s) % Positive(n), n);
      case Unsigned(n) => LowFirstBack(Atoi(s) % Positive(n), n);
      case Letter =>
      case Text(w) => UpToNulOf(Fitting(w, s), w - |Fitting(w, s)|);
    }
  }

  /** The round trip: what was packed, read by the same types, is what each field can
      keep of its value. */
  lemma {:induction false} UnpackPacked(ps: seq<Param>)
    requires AllKnown(ps) && AllPositive(ps)
    ensures Unpack(ps, Packed(ps)) == KeptAll(ps)
  {
    if ps != [] {
      var before, last := ps[..|ps| - 1], ps[|ps| - 1];
      UnpackPacked(before);
      FieldBack(KindOf(last.word).value, last.value);
      hide KindOf;
      hide FieldBytes;
      hide ReadField;
      hide Kept;
      assert Packed(ps)[..Total(before)] == Packed(before);
      assert Packed(ps)[Total(before)..] == FieldBytes(KindOf(last.word).value, last.value);
    }
  }

  /** A number in the range of its type comes back unchanged. */
  lemma NumbersInRangeKept(n: nat, s: CStr)
    ensures 0 <= Atoi(s) < Power256(n) && n > 0 ==> Kept(Unsigned(n), s) == Number(Atoi(s))
    ensures 0 <= 2 * Atoi(s) + Power256(n) < 2 * Power256(n) && n > 0 ==> Kept(Signed(n), s) == Number(Atoi(s))
  {
    hide Atoi;
    hide Power256;
    var v, p := Atoi(s), Positive(n);
    if 0 <= v < p {
      Bits.ModIs(v, p, 0, v);
    } else if -p <= v < 0 {
      Bits.ModIs(v, p, -1, v + p);
    }
  }

  // ----- negative widths

  /** The bytes a field's assignment or snprintf writes; a negative width is taken as a
      huge size, so the whole string is written. */
  function Written(k: Kind, s: CStr): nat
    requires Width(k) != 0
  {
    match k
    case Text(w) => (if w > 0 then |Fitting(w, s)| else |s|) + 1
    case _ => if Width(k) > 0 then Width(k) else 0
  }

  /** The field is written inside the room between its start and the next one's. */
  predicate InSlot(ps: seq<Param>, i: nat)
    requires AllKnown(ps) && i < |ps|
  {
    Offset(ps, i) + Written(KindOf(ps[i].word).value, ps[i].value) <= Offset(ps, i + 1)
  }

  predicate Tiles(ps: seq<Param>)
    requires AllKnown(ps)
  {
    forall i :: 0 <= i < |ps| ==> InSlot(ps, i)
  }

  lemma InSlotExactly(ps: seq<Param>, i: nat)
    requires AllKnown(ps) && i < |ps|
    ensures InSlot(ps, i) <==> Width(KindOf(ps[i].word).value) > 0
  {
    OffsetNext(ps, i);
  }

  /** The fields tile the buffer exactly if no string is given a negative width. */
  lemma TilesExactly(ps: seq<Param>)
    requires AllKnown(ps)
    ensures Tiles(ps) <==> AllPositive(ps)
  {
    hide KindOf;
    hide InSlot;
    forall i | 0 <= i < |ps|
      ensures InSlot(ps, i) <==> Width(KindOf(ps[i].word).value) > 0
    {
      InSlotExactly(ps, i);
    }
  }

  /** The parameters "I8 1 S-1 x": the size found is zero, and both passes accept them. */
  lemma NegativeWidth()
    ensures var ps := [Param(I8, [49]), Param([83, 45, 49], [120])];
      AllKnown(ps) && Total(ps) == 0 && !Tiles(ps)
  {
    var ps := [Param(I8, [49]), Param([83, 45, 49], [120])];
    var w: CStr := [45, 49];
    assert [83, 45, 49][1..] == w;
    assert Digits(w, 2, 1) == 1;
    assert Digits(w, 1, 0) == Digits(w, 2, 1);
    assert Atoi(w) == -1;
    assert KindOf(ps[0].word) == Some(Signed(1)) && KindOf(ps[1].word) == Some(Text(-1));
    assert ps[..1] == [ps[0]] && ps[..0] == [];
    assert Total(ps[..1]) == 1;
    InSlotExactly(ps, 1);
  }
}
