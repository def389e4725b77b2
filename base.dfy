/** Bytes, the optional-value wrapper and the ASCII constants the reader and the
    renderer share. The library works on `std::string`, i.e. on raw bytes. */
module Base {

  /** One byte of JSON text. */
  type byte = b: int | 0 <= b < 0x100

  datatype Option<+T> = None | Some(value: T)

  // ASCII bytes the grammar mentions by name.
  const QUOTE: byte := 0x22      // "
  const BACKSLASH: byte := 0x5C  // \
  const SLASH: byte := 0x2F      // /
  const COMMA: byte := 0x2C      // ,
  const COLON: byte := 0x3A      // :
  const LBRACE: byte := 0x7B     // {
  const RBRACE: byte := 0x7D     // }
  const LBRACKET: byte := 0x5B   // [
  const RBRACKET: byte := 0x5D   // ]
  const MINUS: byte := 0x2D      // -
  const PLUS: byte := 0x2B       // +
  const DOT: byte := 0x2E        // .
  const SPACE: byte := 0x20
  const LF: byte := 0x0A
  const CR: byte := 0x0D
  const TAB: byte := 0x09
  const BS: byte := 0x08         // backspace, produced by \b
  const FF: byte := 0x0C         // form feed, produced by \f

  /** The four whitespace bytes of section 2 of RFC 8259. */
  predicate IsWS(b: byte) {
    b == SPACE || b == LF || b == CR || b == TAB
  }

  predicate IsDigit(b: byte) {
    0x30 <= b <= 0x39
  }

  /** The bytes of an ASCII string literal, so that inputs can be written as text. */
  function Ascii(t: string): (r: seq<byte>)
    requires forall i | 0 <= i < |t| :: t[i] as int < 0x80
    ensures |r| == |t|
    ensures forall i | 0 <= i < |t| :: r[i] == t[i] as int
  {
    if t == [] then [] else [t[0] as int] + Ascii(t[1..])
  }

  /** `s` holds `lit` at offset `pos`: the test `json_segment.substr(0, n) == match`. */
  predicate StartsWith(s: seq<byte>, pos: nat, lit: seq<byte>)
    requires pos <= |s|
  {
    pos + |lit| <= |s| && forall i | 0 <= i < |lit| :: s[pos + i] == lit[i]
  }

  /** `s` holds the one byte `b` at offset `pos`: `StartsWith` for a one-byte literal. */
  predicate ByteAt(s: seq<byte>, pos: nat, b: byte) {
    pos < |s| && s[pos] == b
  }

  lemma SliceSplit<T>(s: seq<T>, a: nat, b: nat, c: nat)
    requires a <= b <= c <= |s|
    ensures s[a..c] == s[a..b] + s[b..c]
  {
  }
}
