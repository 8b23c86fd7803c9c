/**
 UTF-8 (section 3 of RFC 3629) and the surrogate arithmetic of UTF-16
 (section 2.2 of RFC 2781), as used by the \u escapes of the JSON parser.
 */
module Utf {
  import opened CText

  predicate IsHigh(u: int) { 0xD800 <= u <= 0xDBFF }

  predicate IsLow(u: int) { 0xDC00 <= u <= 0xDFFF }

  /** A Unicode scalar value other than NUL: no surrogate, at most U+10FFFF. */
  type Scalar = u: int | 0 < u < 0xD800 || 0xE000 <= u < 0x110000 witness 1

  function EncodedLength(u: nat): (n: nat) {
    if u < 0x80 then 1 else if u < 0x800 then 2 else if u < 0x10000 then 3 else 4
  }

  /** The UTF-8 octets of one scalar value. */
  function Encode(u: nat): (r: CStr)
    requires 0 < u < 0x110000
    ensures |r| == EncodedLength(u)
  {
    if u < 0x80 then [u]
    else if u < 0x800 then [0xC0 + u / 64, 0x80 + u % 64]
    else if u < 0x10000 then [0xE0 + u / 4096, 0x80 + u / 64 % 64, 0x80 + u % 64]
    else [0xF0 + u / 262144, 0x80 + u / 4096 % 64, 0x80 + u / 64 % 64, 0x80 + u % 64]
  }

  /** What the transcoding writes for any 32-bit value; sscanf can yield values that are
      no code points. */
  function Octets(u: nat): (r: CStr)
    requires 0 < u < 0x1_0000_0000
    ensures |r| == EncodedLength(u)
    ensures u < 0x110000 ==> r == Encode(u)
  {
    if u < 0x110000 then Encode(u)
    else [0xF0 + u / 262144 % 16, 0x80 + u / 4096 % 64, 0x80 + u / 64 % 64, 0x80 + u % 64]
  }

  /** What the transcoding leaves of the value: shifted by six bits for every octet but
      the first. */
  function Shifted(u: nat): (r: nat)
    ensures u < 0x1_0000_0000 ==> r < 0x4000
  {
    if u < 0x80 then u else if u < 0x800 then u / 64 else if u < 0x10000 then u / 4096 else u / 262144
  }

  /** U+0041, U+00E9, U+20AC and U+1F600, its surrogate halves, and the largest word:
      their octets, and what the loop leaves of them. */
  lemma OctetsExample()
    ensures Octets(0x41) == [0x41] && Octets(0xE9) == [0xC3, 0xA9] && Octets(0x20AC) == [0xE2, 0x82, 0xAC]
    ensures Octets(0x1F600) == [0xF0, 0x9F, 0x98, 0x80] && Octets(0xFFFF_FFFF) == [0xFF, 0xBF, 0xBF, 0xBF]
    ensures Combine(0xD83D, 0xDE00) == 0x1F600
    ensures Shifted(0x41) == 0x41 && Shifted(0xE9) == 3 && Shifted(0x20AC) == 2 && Shifted(0x1F600) == 0
  {
  }

  function EncodeAll(us: seq<Scalar>): (r: CStr) {
    if us == [] then [] else Encode(us[0]) + EncodeAll(us[1..])
  }

  function Trail(c: Byte): Option<int> {
    if 0x80 <= c < 0xC0 then Some(c - 0x80) else None
  }

  /** A reader of UTF-8 text, written from the table of RFC 3629: the number of
      octets comes from the first one, every other carries six bits. */
  function DecodeAll(s: CStr): Option<seq<int>> {
    if s == [] then Some([])
    else if s[0] < 0x80 then Prefix(s[0], DecodeAll(s[1..]))
    else if 0xC0 <= s[0] < 0xE0 && |s| >= 2 && Trail(s[1]).Some? then
      Prefix((s[0] - 0xC0) * 64 + Trail(s[1]).value, DecodeAll(s[2..]))
    else if 0xE0 <= s[0] < 0xF0 && |s| >= 3 && Trail(s[1]).Some? && Trail(s[2]).Some? then
      Prefix((s[0] - 0xE0) * 4096 + Trail(s[1]).value * 64 + Trail(s[2]).value, DecodeAll(s[3..]))
    else if 0xF0 <= s[0] < 0xF8 && |s| >= 4 && Trail(s[1]).Some? && Trail(s[2]).Some? && Trail(s[3]).Some? then
      Prefix((s[0] - 0xF0) * 262144 + Trail(s[1]).value * 4096 + Trail(s[2]).value * 64 + Trail(s[3]).value,
             DecodeAll(s[4..]))
    else None
  }

  function Prefix(u: int, rest: Option<seq<int>>): Option<seq<int>> {
    match rest
    case None => None
    case Some(us) => Some([u] + us)
  }

  /** The parser's combination of two surrogate halves. */
  function Combine(high: int, low: int): (u: nat)
    requires IsHigh(high) && IsLow(low)
    ensures 0x10000 <= u < 0x110000
  {
    0x10000 + (high % 1024 * 1024 + low % 1024)
  }

  /** Splitting a supplementary scalar value as RFC 2781 prescribes. */
  function Split(u: int): (h: (nat, nat))
    requires 0x10000 <= u < 0x110000
    ensures IsHigh(h.0) && IsLow(h.1)
  {
    (0xD800 + (u - 0x10000) / 1024, 0xDC00 + (u - 0x10000) % 1024)
  }

  /** Combining undoes splitting, and splitting undoes combining. */
  lemma SurrogatesRoundTrip(u: int, high: int, low: int)
    ensures 0x10000 <= u < 0x110000 ==> Combine(Split(u).0, Split(u).1) == u
    ensures IsHigh(high) && IsLow(low) ==> Split(Combine(high, low)) == (high, low)
  {
    if IsHigh(high) && IsLow(low) {
      assert high % 1024 == high - 0xD800 && low % 1024 == low - 0xDC00;
    }
  }

  /** Decoding the octets of any scalar values gives the values back. */
  lemma {:induction false} DecodeEncode(us: seq<Scalar>)
    ensures DecodeAll(EncodeAll(us)) == Some(us)
  {
    if us != [] {
      DecodeEncode(us[1..]);
      DecodeOne(us[0], EncodeAll(us[1..]));
      assert [us[0]] + us[1..] == us;
    }
  }

  lemma DecodeOne(u: nat, rest: CStr)
    requires 0 < u < 0x110000
    ensures DecodeAll(Encode(u) + rest) == Prefix(u, DecodeAll(rest))
  {
    var e := Encode(u);
    var s := e + rest;
    assert s[|e|..] == rest;
    assert forall k :: 0 <= k < |e| ==> s[k] == e[k];
    if u >= 0x800 {
      assert u / 64 / 64 == u / 4096;
    }
    if u >= 0x10000 {
      assert u / 4096 / 64 == u / 262144;
    }
  }
}
