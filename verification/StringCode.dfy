/**
 parse_string and print_string_ptr as they run: a first pass measures, one buffer
 is allocated, a second pass fills it through a moving index. Where C would leave the
 text or the buffer, parsing ends as undefined.
 */
module StringCode {
  import opened CText
  import opened Utf
  import opened Strings
  import opened Bits

  /** The C string stored in a buffer: its bytes, then a NUL. */
  ghost predicate Stored(out: array<Byte>, str: CStr)
    reads out
  {
    |str| < out.Length && out[..|str|] == str && out[|str|] == 0
  }

  lemma PushPush(a: CStr, b: CStr, r: Literal)
    ensures Push(a, Push(b, r)) == Push(a + b, r)
  {
    if r.Done? {
      assert a + (b + r.bytes) == a + b + r.bytes;
    }
  }

  /** firstByteMark. */
  function FirstByteMark(len: nat): Byte
    requires 1 <= len <= 4
  {
    if len == 1 then 0 else if len == 2 then 0xC0 else if len == 3 then 0xE0 else 0xF0
  }

  /** (uc | 0x80) & 0xBF, stored in a char. */
  function TrailOctet(uc: nat): Byte { And(Or(uc, 0x80), 0xBF) % 256 }

  lemma TrailOctetIs(uc: nat)
    ensures TrailOctet(uc) == 0x80 + uc % 64
  {
    hide And;
    hide Or;
    TrailingOctet(uc);
  }

  /** uc | firstByteMark[len], stored in a char. */
  function FirstOctet(uc: nat, len: nat): Byte
    requires 1 <= len <= 4
  {
    Or(uc, FirstByteMark(len)) % 256
  }

  lemma FirstOctetIs(uc: nat, len: nat)
    requires 1 <= len <= 4
    ensures len == 1 && uc < 128 ==> FirstOctet(uc, len) == uc
    ensures len == 2 && uc < 32 ==> FirstOctet(uc, len) == 0xC0 + uc
    ensures len == 3 && uc < 16 ==> FirstOctet(uc, len) == 0xE0 + uc
    ensures len == 4 ==> FirstOctet(uc, len) == 0xF0 + uc % 16
  {
    hide Or;
    LeadingOctet(uc);
  }

  /** Octets by repeated shifting, the way the switch below produces them. */
  lemma OctetsByShifts(u: nat)
    requires 0 < u < 0x1_0000_0000
    ensures EncodedLength(u) == 1 ==> Octets(u) == [FirstOctet(u, 1)]
    ensures EncodedLength(u) == 2 ==> Octets(u) == [FirstOctet(u / 64, 2), TrailOctet(u)]
    ensures EncodedLength(u) == 3 ==> Octets(u) == [FirstOctet(u / 64 / 64, 3), TrailOctet(u / 64), TrailOctet(u)]
    ensures EncodedLength(u) == 4 ==>
              Octets(u) == [FirstOctet(u / 64 / 64 / 64, 4), TrailOctet(u / 64 / 64), TrailOctet(u / 64), TrailOctet(u)]
  {
    hide FirstOctet;
    hide TrailOctet;
    FirstOctetIs(u, 1);
    FirstOctetIs(u / 64, 2);
    FirstOctetIs(u / 64 / 64, 3);
    FirstOctetIs(u / 64 / 64 / 64, 4);
    TrailOctetIs(u);
    TrailOctetIs(u / 64);
    TrailOctetIs(u / 64 / 64);
    assert u / 64 / 64 == u / 4096;
    assert u / 4096 / 64 == u / 262144;
  }

  lemma ShiftedByShifts(u: nat)
    ensures EncodedLength(u) == 1 ==> Shifted(u) == u
    ensures EncodedLength(u) == 2 ==> Shifted(u) == u / 64
    ensures EncodedLength(u) == 3 ==> Shifted(u) == u / 64 / 64
    ensures EncodedLength(u) == 4 ==> Shifted(u) == u / 64 / 64 / 64
  {
    assert u / 64 / 64 == u / 4096;
    assert u / 4096 / 64 == u / 262144;
  }

  lemma Written(now: seq<Byte>, before: seq<Byte>, q: nat, bytes: CStr)
    requires |now| == |before| && q + |bytes| <= |now|
    requires now[..q] == before[..q] && forall k :: 0 <= k < |bytes| ==> now[q + k] == bytes[k]
    ensures now[..q + |bytes|] == before[..q] + bytes
  {
  }

  /** The fall-through switch that writes octets from the last to the first; a shift by
      six is a division by 64. What is left of the value is returned. */
  method PutUtf8(out: array<Byte>, q: nat, u: nat) returns (q': nat, uc: nat)
    requires 0 < u < 0x1_0000_0000 && q + EncodedLength(u) <= out.Length
    modifies out
    ensures q' == q + |Octets(u)| && uc == Shifted(u)
    ensures out[..q'] == old(out[..q]) + Octets(u)
  {
    hide FirstOctet;
    hide TrailOctet;
    OctetsByShifts(u);
    hide Octets;
    var len := EncodedLength(u);
    var p := q + len;
    uc := u;
    ShiftedByShifts(u);
    if len >= 4 {
      p := p - 1;
      out[p], uc := TrailOctet(uc), uc / 64;
    }
    if len >= 3 {
      p := p - 1;
      out[p], uc := TrailOctet(uc), uc / 64;
    }
    if len >= 2 {
      p := p - 1;
      out[p], uc := TrailOctet(uc), uc / 64;
    }
    p := p - 1;
    out[p] := FirstOctet(uc, len);
    q' := p + len;
    assert forall k :: 0 <= k < len ==> out[q + k] == Octets(u)[k];
    Written(out[..], old(out[..]), q, Octets(u));
  }

  /** The counting pass. */
  method MeasureString(s: CStr, i: nat) returns (r: Measured)
    requires i <= |s|
    ensures r == Count(s, i)
  {
    var p, len := i, 0;
    while At(s, p) != QUOTE && At(s, p) != 0
      invariant i <= p <= |s|
      invariant Count(s, i) == Longer(Count(s, p), len)
      decreases |s| - p
    {
      len := len + 1;
      if s[p] == BACKSLASH {
        if p + 1 == |s| {
          return Lost;
        }
        p := p + 1;
      }
      p := p + 1;
    }
    r := Length(len, p);
  }

  /** The body of the 'u' case; ok is false if C has left the text, uses a variable
      without a value, or is about to leave the buffer. */
  method PutUnicode(out: array<Byte>, q: nat, s: CStr, i: nat, v: Vars) returns (ok: bool, q': nat, i': nat, v': Vars)
    requires i <= |s| && q < out.Length
    modifies out
    ensures ok <==> Unicode(s, i, v).Read? && q + |Unicode(s, i, v).bytes| < out.Length
    ensures ok ==>
              && Unicode(s, i, v) == Read(Unicode(s, i, v).bytes, i', v') && q' == q + |Unicode(s, i, v).bytes|
              && out[..q'] == old(out[..q]) + Unicode(s, i, v).bytes
  {
    hide ScanHex;
    hide Octets;
    hide Shifted;
    hide And;
    hide Or;
    ok, q', i', v' := true, q, i + 4, v;
    var held := Scanned(s, i, HeldWord(v.uc));
    if i + 4 > |s| || held.None? {
      return false, q, i, v;
    }
    var uc: nat := held.value;
    if IsLow(uc) || uc == 0 {
      v' := v.(uc := Some(uc));
      return;
    }
    if IsHigh(uc) {
      v' := v.(uc := Some(uc));
      if At(s, i + 4) != BACKSLASH || At(s, i + 5) != LOWER_U {
        return;
      }
      var held2 := Scanned(s, i + 6, v.uc2);
      if i + 10 > |s| || held2.None? {
        return false, q, i, v;
      }
      var uc2: nat := held2.value;
      i', v' := i + 10, v'.(uc2 := Some(uc2));
      if !IsLow(uc2) {
        return;
      }
      SurrogateBits(uc, uc2);
      uc := 0x10000 + Or(And(uc, 0x3FF) * 1024, And(uc2, 0x3FF));
    }
    if q + EncodedLength(uc) >= out.Length {
      return false, q, i, v;
    }
    q', uc := PutUtf8(out, q, uc);
    v' := v'.(uc := Some(uc));
  }

  /** One turn of the copying loop: a plain character or a whole escape. If ok is false,
      C has left the text or the buffer, or used a variable without a value, by the end
      of this turn. */
  method CopyUnit(s: CStr, p: nat, buffer: array<Byte>, q: nat, v: Vars)
    returns (ok: bool, p': nat, q': nat, v': Vars, ghost bytes: CStr)
    requires p < |s| && At(s, p) != QUOTE && q < buffer.Length
    modifies buffer
    ensures !ok ==> !Copy(s, p, v).Done? || q + |Copy(s, p, v).bytes| >= buffer.Length
    ensures ok ==>
              && p < p' <= |s| && Copy(s, p, v) == Push(bytes, Copy(s, p', v'))
              && q' == q + |bytes| < buffer.Length
              && buffer[..q'] == old(buffer[..q]) + bytes
  {
    hide Unicode;
    ok, bytes, p', q', v' := true, [], p, q, v;
    if s[p] != BACKSLASH {
      bytes := [s[p]];
      if q + 1 == buffer.Length {
        CopyLonger(bytes, Copy(s, p + 1, v));
        ok := false;
        return;
      }
      buffer[q] := s[p];
      p', q' := p + 1, q + 1;
    } else if At(s, p + 1) == 0 {
      ok := false;
    } else if s[p + 1] != LOWER_U {
      bytes := [SimpleEscape(s[p + 1])];
      if q + 1 == buffer.Length {
        CopyLonger(bytes, Copy(s, p + 2, v));
        ok := false;
        return;
      }
      buffer[q] := SimpleEscape(s[p + 1]);
      p', q' := p + 2, q + 1;
    } else {
      ghost var e := Unicode(s, p + 2, v);
      bytes := if e.Read? then e.bytes else [];
      ok, q', p', v' := PutUnicode(buffer, q, s, p + 2, v);
      if ok {
        UnicodeEnds(s, p + 2, v);
      } else if e.Read? {
        CopyLonger(bytes, Copy(s, e.end, e.vars));
      }
    }
  }

  lemma CopyLonger(bytes: CStr, rest: Literal)
    ensures Push(bytes, rest).Done? ==> |Push(bytes, rest).bytes| >= |bytes|
  {
  }

  lemma UnicodeEnds(s: CStr, i: nat, v: Vars)
    requires i <= |s| && Unicode(s, i, v).Read?
    ensures i < Unicode(s, i, v).end <= |s|
  {
  }

  /** parse_string. The buffer of len + 1 bytes is the one the counting pass asked for. */
  method ParseString(s: CStr, i: nat) returns (r: Parsed<CStr>, out: array?<Byte>)
    requires i <= |s|
    ensures r == StringAt(s, i)
    ensures r.Good? ==>
              && out != null && fresh(out) && Stored(out, r.value)
              && Count(s, i + 1).Length? && out.Length == Count(s, i + 1).len + 1
  {
    out := null;
    if At(s, i) != QUOTE {
      return Bad(i), out;
    }
    var measured := MeasureString(s, i + 1);
    if measured.Lost? {
      return Undefined, out;
    }
    var buffer := new Byte[measured.len + 1];
    var p, q := i + 1, 0;
    ghost var text: CStr := [];
    var vars := NO_VARS;
    NothingPushed(Copy(s, i + 1, vars));
    while At(s, p) != QUOTE && At(s, p) != 0
      invariant i < p <= |s| && 0 <= q < buffer.Length
      invariant buffer[..q] == text
      invariant Copy(s, i + 1, NO_VARS) == Push(text, Copy(s, p, vars))
      decreases |s| - p
    {
      ghost var bytes;
      ghost var rest := Copy(s, p, vars);
      var ok;
      ok, p, q, vars, bytes := CopyUnit(s, p, buffer, q, vars);
      if !ok {
        PushLength(text, rest);
        return Undefined, out;
      }
      PushPush(text, bytes, Copy(s, p, vars));
      text := text + bytes;
    }
    assert text + [] == text;
    buffer[q] := 0;
    out := buffer;
    var value: CStr := buffer[..q];
    r := Good(value, if At(s, p) == QUOTE then p + 1 else p);
  }

  lemma NothingPushed(r: Literal)
    ensures Push([], r) == r
  {
    if r.Done? {
      assert [] + r.bytes == r.bytes;
    }
  }

  lemma PushLength(text: CStr, rest: Literal)
    ensures Push(text, rest).Done? <==> rest.Done?
    ensures rest.Done? ==> |Push(text, rest).bytes| == |text| + |rest.bytes|
  {
  }

  /** sprintf of a control character: six characters, and a NUL behind them. */
  method PutControl(out: array<Byte>, q: nat, c: Char)
    requires q + 6 < out.Length && c < 32
    modifies out
    ensures out[..q] == old(out[..q]) && out[q..q + 6] == [BACKSLASH, LOWER_U, 48, 48, HexDigit(c / 16), HexDigit(c % 16)]
  {
    hide HexDigit;
    out[q], out[q + 1], out[q + 2], out[q + 3] := BACKSLASH, LOWER_U, 48, 48;
    out[q + 4], out[q + 5], out[q + 6] := HexDigit(c / 16), HexDigit(c % 16), 0;
  }

  function ShortLetter(c: Char): Char {
    if c == 8 then 98 else if c == 12 then 102 else if c == 10 then 110 else if c == 13 then 114 else 116
  }

  lemma EscapeIs(c: Char)
    ensures c > 31 && c != QUOTE && c != BACKSLASH ==> EscapeChar(c) == [c]
    ensures c == BACKSLASH || c == QUOTE ==> EscapeChar(c) == [BACKSLASH, c]
    ensures 8 <= c <= 13 && c != 11 ==> EscapeChar(c) == [BACKSLASH, ShortLetter(c)]
    ensures c <= 31 && !(8 <= c <= 13 && c != 11) ==>
              EscapeChar(c) == [BACKSLASH, LOWER_U, 48, 48, HexDigit(c / 16), HexDigit(c % 16)]
  {
    hide HexDigit;
  }

  /** One character written with its escape; sprintf also stores a NUL behind it. */
  method PutEscaped(out: array<Byte>, q: nat, c: Char) returns (q': nat)
    requires q + |EscapeChar(c)| < out.Length
    modifies out
    ensures q' == q + |EscapeChar(c)|
    ensures out[..q'] == old(out[..q]) + EscapeChar(c)
  {
    EscapeIs(c);
    hide *;
    if c > 31 && c != QUOTE && c != BACKSLASH {
      out[q] := c;
      q' := q + 1;
    } else if c == BACKSLASH || c == QUOTE {
      out[q], out[q + 1] := BACKSLASH, c;
      q' := q + 2;
    } else if 8 <= c <= 13 && c != 11 {
      out[q], out[q + 1] := BACKSLASH, ShortLetter(c);
      q' := q + 2;
    } else {
      PutControl(out, q, c);
      q' := q + 6;
    }
    assert out[..q'] == out[..q] + out[q..q'];
  }

  /** The number of bytes print_string_ptr counts for the characters of str. */
  method MeasureEscaped(str: CStr) returns (len: nat)
    ensures len == |EscapeAll(str)|
  {
    len := 0;
    var k := 0;
    while k < |str|
      invariant k <= |str|
      invariant |EscapeAll(str)| == len + |EscapeAll(str[k..])|
    {
      var token := str[k];
      len := len + 1;
      if token == QUOTE || token == BACKSLASH || 8 <= token <= 10 || 12 <= token <= 13 {
        len := len + 1;
      } else if token < 32 {
        len := len + 5;
      }
      assert str[k..][1..] == str[k + 1..];
      k := k + 1;
    }
  }

  /** print_string_ptr: the buffer is exactly as long as the text and its NUL. */
  method PrintString(str: Option<CStr>) returns (out: array<Byte>)
    ensures fresh(out) && Stored(out, StringText(str))
    ensures out.Length == |StringText(str)| + 1
  {
    if str.None? {
      out := new Byte[1];
      out[0] := 0;
      return;
    }
    var text := str.value;
    var len := MeasureEscaped(text);
    out := new Byte[len + 3];
    out[0] := QUOTE;
    var q, k := 1, 0;
    while k < |text|
      invariant k <= |text| && 1 <= q && q + |EscapeAll(text[k..])| == len + 1
      invariant out[..q] + EscapeAll(text[k..]) == [QUOTE] + EscapeAll(text)
    {
      ghost var before := out[..q];
      assert text[k..][1..] == text[k + 1..];
      q := PutEscaped(out, q, text[k]);
      assert before + (EscapeChar(text[k]) + EscapeAll(text[k + 1..])) == out[..q] + EscapeAll(text[k + 1..]);
      k := k + 1;
    }
    assert out[..q] == [QUOTE] + EscapeAll(text);
    out[q] := QUOTE;
    out[q + 1] := 0;
    assert out[..q + 1] == out[..q] + [QUOTE];
  }
}
