/** Properties of the reader stated over all inputs, and the divergences from
    RFC 8259 that src/softloq-json/decoder.cpp shows, each with the input that
    exhibits it. */
module Properties {
  import opened Base
  import opened Utf8
  import opened Elements
  import opened Grammar
  import opened Renderer
  import RoundTrip

  /** The object production never returns an Object with a key twice: a repeated
      key makes `parseMembers` fail instead of overwriting the entry. The same
      holds for every Object nested inside it. */
  lemma {:induction false} ObjectDistinct(s: seq<byte>, pos: nat)
    requires pos <= |s| && ObjectP(s, pos).Ok?
    ensures DistinctKeys(ObjectP(s, pos).value.members)
    ensures WellFormed(ObjectP(s, pos).value)
  {
    if !ByteAt(s, SkipWS(s, pos + 1), RBRACE) {
      MembersLoopDistinct(s, pos + 1, []);
    }
    ObjectWellFormed(s, pos);
  }

  /** The letter that names a byte in a two-byte escape: the inverse of the
      table the string loop reads. */
  function EscapeLetter(b: byte): Option<byte> {
    if b == QUOTE then Some(QUOTE)
    else if b == BACKSLASH then Some(BACKSLASH)
    else if b == SLASH then Some(SLASH)
    else if b == BS then Some(LETTER_B)
    else if b == FF then Some(LETTER_F)
    else if b == LF then Some(LETTER_N)
    else if b == CR then Some(LETTER_R)
    else if b == TAB then Some(LETTER_T)
    else None
  }

  /** The two-byte escapes are a bijection: a letter decodes to a byte exactly
      when that byte is written with that letter, so no two letters give the same
      byte and `u` is not among them. */
  lemma SimpleEscapeInverse(c: byte, b: byte)
    ensures SimpleEscape(c) == Some(b) <==> EscapeLetter(b) == Some(c)
    ensures SimpleEscape(c).Some? ==> c != LETTER_U
  { }

  function Pow16(n: nat): (r: nat)
    ensures r >= 1
  {
    if n == 0 then 1 else 16 * Pow16(n - 1)
  }

  /** `n` hex digits give a value below 16^n. */
  lemma {:induction false} HexValueBound(h: seq<byte>)
    ensures HexValue(h) < Pow16(|h|)
  {
    if h != [] {
      HexValueBound(h[..|h| - 1]);
    }
  }

  /** The value of four hex digits, most significant first. */
  lemma {:induction false} HexValue4(h: seq<byte>)
    requires |h| == 4
    ensures HexValue(h) == ((HexDigitValue(h[0]) * 16 + HexDigitValue(h[1])) * 16 + HexDigitValue(h[2])) * 16 + HexDigitValue(h[3])
  {
    var h3 := h[..3];
    var h2 := h3[..2];
    var h1 := h2[..1];
    assert h1[..0] == [] && h1[0] == h[0] && h2[1] == h[1] && h3[2] == h[2];
    assert HexValue(h1) == HexDigitValue(h[0]);
    assert HexValue(h2) == HexValue(h1) * 16 + HexDigitValue(h[1]);
    assert HexValue(h3) == HexValue(h2) * 16 + HexDigitValue(h[2]);
  }

  /** A `\u` escape stands for a codepoint of at most 0xFFFF, whose encoding takes
      at most three bytes: an escape never yields a codepoint outside the Basic
      Multilingual Plane, since escaped surrogate pairs are not combined. */
  lemma {:induction false} EscapeBmp(s: seq<byte>, pos: nat, acc: seq<byte>)
    requires pos <= |s| && EscapeP(s, pos, acc).Ok?
    ensures acc <= EscapeP(s, pos, acc).value
    ensures |EscapeP(s, pos, acc).value| <= |acc| + 3
  {
    if SimpleEscape(s[pos]).None? {
      var h := s[pos + 1..pos + 5];
      HexValueBound(h);
      assert Pow16(|h|) == 0x10000;
    }
  }

  /** A half of a surrogate pair written as `\u` fails the escape, so JSON text
      with an escaped character outside the Basic Multilingual Plane is refused. */
  lemma {:induction false} EscapedSurrogateFails(s: seq<byte>, pos: nat, acc: seq<byte>)
    requires pos + 5 <= |s| && s[pos] == LETTER_U
    requires 0xD800 <= HexValue(s[pos + 1..pos + 5]) <= 0xDFFF
    ensures EscapeP(s, pos, acc).Fail?
  {
  }

  /** A trailing comma is taken: when an element follows a `,` that no element
      follows, the elements loop still ends with success, just after the comma. */
  lemma {:induction false} ElementsTrailingComma(s: seq<byte>, p: nat, acc: seq<Element>)
    requires p <= |s| && ElementP(s, p).Ok?
    requires ByteAt(s, ElementP(s, p).pos, COMMA) && ElementP(s, ElementP(s, p).pos + 1).Fail?
    ensures ElementsLoop(s, p, acc) == Ok(acc + [ElementP(s, p).value], ElementP(s, p).pos + 1)
  {
    var q := ElementP(s, p).pos;
    assert ElementsLoop(s, q + 1, acc + [ElementP(s, p).value]) == Ok(acc + [ElementP(s, p).value], q + 1);
  }

  /** The same for the members loop, when the key is new. */
  lemma {:induction false} MembersTrailingComma(s: seq<byte>, p: nat, acc: seq<Member>)
    requires p <= |s| && MemberP(s, p).Ok? && !HasKey(acc, MemberP(s, p).value.key)
    requires ByteAt(s, MemberP(s, p).pos, COMMA) && MemberP(s, MemberP(s, p).pos + 1).Fail?
    ensures MembersLoop(s, p, acc) == Ok(acc + [MemberP(s, p).value], MemberP(s, p).pos + 1)
  {
    var q := MemberP(s, p).pos;
    assert MembersLoop(s, q + 1, acc + [MemberP(s, p).value]) == Ok(acc + [MemberP(s, p).value], q + 1);
  }

  /** Any byte other than `"` and `\` below 0x80, control bytes included, is
      taken into a string as it is. */
  lemma {:induction false} RawByteTaken(s: seq<byte>, pos: nat, acc: seq<byte>)
    requires pos < |s| && s[pos] < 0x80 && s[pos] != QUOTE && s[pos] != BACKSLASH
    ensures CharsP(s, pos, acc) == CharsP(s, pos + 1, acc + [s[pos]])
  {
    assert DecodeCodepoint(s[pos..]) == Some((s[pos] as int, 1));
  }

  /** No value starts with a closing bracket or brace, a comma or a colon; this is
      what ends the members and elements loops on a trailing comma. */
  lemma {:induction false} NoValueAt(s: seq<byte>, pos: nat)
    requires pos < |s| && (s[pos] == RBRACE || s[pos] == RBRACKET || s[pos] == COMMA || s[pos] == COLON)
    ensures ValueP(s, pos).Fail?
  {
    RoundTrip.NotObject(s, pos);
    RoundTrip.NotArray(s, pos);
    RoundTrip.NotString(s, pos);
    RoundTrip.NotNumber(s, pos);
  }
}
