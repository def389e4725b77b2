/** The two conversions the reader takes from the softloq-unicode library
    (`convertUTF8ToCodepoint`, `convertCodepointToUTF8`). That library is not part
    of this model; these definitions follow the UTF-8 table of section 4 of
    RFC 3629 strictly (no overlong forms, no surrogates, nothing above U+10FFFF),
    which meets the contract the reader relies on: decoding yields a codepoint and
    a byte count in 1..|s| or fails, encoding yields the bytes or fails on a value
    that is not a Unicode scalar value. */
module Utf8 {
  import opened Base

  /** A Unicode scalar value: a codepoint that is not a surrogate. */
  predicate IsScalar(cp: int) {
    0 <= cp <= 0x10FFFF && !(0xD800 <= cp <= 0xDFFF)
  }

  predicate IsCont(b: byte) {
    0x80 <= b <= 0xBF
  }

  // Second-byte ranges of section 4 of RFC 3629 for three- and four-byte forms.
  function Lo3(b0: byte): byte { if b0 == 0xE0 then 0xA0 else 0x80 }
  function Hi3(b0: byte): byte { if b0 == 0xED then 0x9F else 0xBF }
  function Lo4(b0: byte): byte { if b0 == 0xF0 then 0x90 else 0x80 }
  function Hi4(b0: byte): byte { if b0 == 0xF4 then 0x8F else 0xBF }

  /** Reads one codepoint from the front of `s`: the codepoint and how many bytes it
      occupies, or None on malformed or truncated UTF-8. */
  function DecodeCodepoint(s: seq<byte>): (r: Option<(int, nat)>)
    ensures r.Some? ==> 1 <= r.value.1 <= 4 && r.value.1 <= |s|
    ensures r.Some? ==> IsScalar(r.value.0)
    ensures r.Some? && r.value.1 == 1 <==> |s| > 0 && s[0] < 0x80
    ensures |s| > 0 && s[0] < 0x80 ==> r == Some((s[0], 1))
    ensures r.Some? && r.value.0 < 0x80 ==> r == Some((s[0], 1))
  {
    if |s| == 0 then None
    else if s[0] < 0x80 then Some((s[0], 1))
    else if 0xC2 <= s[0] <= 0xDF then
      if |s| >= 2 && IsCont(s[1]) then Some(((s[0] as int - 0xC0) * 64 + (s[1] as int - 0x80), 2))
      else None
    else if 0xE0 <= s[0] <= 0xEF then
      if |s| >= 3 && Lo3(s[0]) <= s[1] <= Hi3(s[0]) && IsCont(s[2]) then
        Some((((s[0] as int - 0xE0) * 64 + (s[1] as int - 0x80)) * 64 + (s[2] as int - 0x80), 3))
      else None
    else if 0xF0 <= s[0] <= 0xF4 then
      if |s| >= 4 && Lo4(s[0]) <= s[1] <= Hi4(s[0]) && IsCont(s[2]) && IsCont(s[3]) then
        Some(((((s[0] as int - 0xF0) * 64 + (s[1] as int - 0x80)) * 64 + (s[2] as int - 0x80)) * 64 + (s[3] as int - 0x80), 4))
      else None
    else None
  }

  /** The UTF-8 bytes of `cp`, or None when `cp` is not a scalar value. */
  function EncodeCodepoint(cp: int): (r: Option<seq<byte>>)
    ensures r.Some? <==> IsScalar(cp)
    ensures r.Some? ==> 1 <= |r.value| <= 4
    ensures 0 <= cp < 0x80 ==> r == Some([cp])
  {
    if !IsScalar(cp) then None
    else if cp < 0x80 then Some([cp])
    else if cp < 0x800 then Some([0xC0 + cp / 64, 0x80 + cp % 64])
    else if cp < 0x10000 then Some([0xE0 + cp / 64 / 64, 0x80 + cp / 64 % 64, 0x80 + cp % 64])
    else Some([0xF0 + cp / 64 / 64 / 64, 0x80 + cp / 64 / 64 % 64, 0x80 + cp / 64 % 64, 0x80 + cp % 64])
  }

  lemma Split64(q: int, r: int)
    requires 0 <= r < 64
    ensures (q * 64 + r) / 64 == q && (q * 64 + r) % 64 == r
  {
  }

  /** Encoding a decoded codepoint gives back exactly the bytes it was read from. */
  lemma DecodeThenEncode(s: seq<byte>)
    requires DecodeCodepoint(s).Some?
    ensures EncodeCodepoint(DecodeCodepoint(s).value.0) == Some(s[..DecodeCodepoint(s).value.1])
  {
    if s[0] < 0x80 {
      assert s[..1] == [s[0]];
    } else if s[0] <= 0xDF {
      TwoBytes(s);
    } else if s[0] <= 0xEF {
      ThreeBytes(s);
    } else {
      FourBytes(s);
    }
  }

  lemma TwoBytes(s: seq<byte>)
    requires DecodeCodepoint(s).Some? && 0x80 <= s[0] <= 0xDF
    ensures EncodeCodepoint(DecodeCodepoint(s).value.0) == Some(s[..2])
  {
    var cp := DecodeCodepoint(s).value.0;
    var b0, b1: int := s[0] as int - 0xC0, s[1] as int - 0x80;
    assert cp == b0 * 64 + b1 && 0x80 <= cp < 0x800;
    Split64(b0, b1);
    assert s[..2] == [s[0], s[1]];
  }

  lemma ThreeBytes(s: seq<byte>)
    requires DecodeCodepoint(s).Some? && 0xE0 <= s[0] <= 0xEF
    ensures EncodeCodepoint(DecodeCodepoint(s).value.0) == Some(s[..3])
  {
    var cp := DecodeCodepoint(s).value.0;
    var b0, b1, b2: int := s[0] as int - 0xE0, s[1] as int - 0x80, s[2] as int - 0x80;
    var hi := b0 * 64 + b1;
    assert cp == hi * 64 + b2 && 0x800 <= cp < 0x10000;
    Split64(hi, b2);
    Split64(b0, b1);
    assert cp / 64 / 64 == b0 && cp / 64 % 64 == b1 && cp % 64 == b2;
    assert s[..3] == [s[0], s[1], s[2]];
  }

  lemma FourBytes(s: seq<byte>)
    requires DecodeCodepoint(s).Some? && 0xF0 <= s[0]
    ensures EncodeCodepoint(DecodeCodepoint(s).value.0) == Some(s[..4])
  {
    var cp := DecodeCodepoint(s).value.0;
    var b0, b1, b2, b3: int := s[0] as int - 0xF0, s[1] as int - 0x80, s[2] as int - 0x80, s[3] as int - 0x80;
    var hi := b0 * 64 + b1;
    var mid := hi * 64 + b2;
    assert cp == mid * 64 + b3 && 0x10000 <= cp;
    Split64(mid, b3);
    Split64(hi, b2);
    Split64(b0, b1);
    assert cp / 64 / 64 / 64 == b0 && cp / 64 / 64 % 64 == b1 && cp / 64 % 64 == b2 && cp % 64 == b3;
    assert s[..4] == [s[0], s[1], s[2], s[3]];
  }

  /** Decoding the encoding of a scalar value reads it back, whatever follows it. */
  lemma EncodeThenDecode(cp: int, rest: seq<byte>)
    requires IsScalar(cp)
    ensures DecodeCodepoint(EncodeCodepoint(cp).value + rest) == Some((cp, |EncodeCodepoint(cp).value|))
  {
    var b := EncodeCodepoint(cp).value;
    var s := b + rest;
    if cp < 0x80 {
    } else if cp < 0x800 {
      assert s[0] == b[0] && s[1] == b[1];
    } else if cp < 0x10000 {
      assert s[0] == b[0] && s[1] == b[1] && s[2] == b[2];
    } else {
      assert s[0] == b[0] && s[1] == b[1] && s[2] == b[2] && s[3] == b[3];
    }
  }

  /** The codepoint read from the front of `s` does not depend on what follows it. */
  lemma {:induction false} DecodePrefix(s: seq<byte>, t: seq<byte>)
    requires DecodeCodepoint(s).Some?
    ensures DecodeCodepoint(s[..DecodeCodepoint(s).value.1] + t) == DecodeCodepoint(s)
  {
    DecodeThenEncode(s);
    EncodeThenDecode(DecodeCodepoint(s).value.0, t);
  }
}
