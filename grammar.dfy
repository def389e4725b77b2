/** What each grammar production of src/softloq-json/decoder.cpp computes, as
    pure functions of the input bytes `s` and the cursor `pos` (the offset of
    `json_segment` in the text). A production either fails, or succeeds with a
    result and the cursor after what it consumed. The imperative productions of
    module Decoder are proved to compute exactly these functions, and to put the
    cursor back on failure. The productions are mutually recursive; they terminate
    because `{` and `[` are consumed before members or elements are read and each
    further member or element follows a consumed `,`: the measure is the remaining
    length, then a rank per production. */
module Grammar {
  import opened Base
  import opened Utf8
  import opened Elements
  import Numbers

  /** The outcome of a production: failure, or its result and the new cursor. */
  datatype Outcome<+T> = Fail | Ok(value: T, pos: nat)

  /** A method's out-parameters report outcome `r` of the production started at
      `pos`: `ok` says whether it matched, and the cursor `next` is the new one on
      success and `pos` again on failure. */
  predicate Reports<T(==)>(r: Outcome<T>, pos: nat, ok: bool, next: nat, value: T) {
    ok == r.Ok? && (ok ==> value == r.value && next == r.pos) && (!ok ==> next == pos)
  }

  /** The whitespace production: the cursor after the longest run of the four
      whitespace bytes at `pos` (never fails). */
  function SkipWS(s: seq<byte>, pos: nat): (p: nat)
    requires pos <= |s|
    ensures pos <= p <= |s|
    ensures p < |s| ==> !IsWS(s[p])
    decreases |s| - pos
  {
    if pos < |s| && IsWS(s[pos]) then SkipWS(s, pos + 1) else pos
  }

  /** Everything the whitespace production skips is whitespace. */
  lemma {:induction false} SkipWSAllWS(s: seq<byte>, pos: nat)
    requires pos <= |s|
    ensures forall i | pos <= i < SkipWS(s, pos) :: IsWS(s[i])
    decreases |s| - pos
  {
    if pos < |s| && IsWS(s[pos]) {
      SkipWSAllWS(s, pos + 1);
    }
  }

  // Escape letters.
  const LETTER_B: byte := 0x62
  const LETTER_F: byte := 0x66
  const LETTER_N: byte := 0x6E
  const LETTER_R: byte := 0x72
  const LETTER_T: byte := 0x74
  const LETTER_U: byte := 0x75

  /** The single-character escapes and the byte each appends. */
  function SimpleEscape(c: byte): Option<byte> {
    if c == QUOTE then Some(QUOTE)
    else if c == BACKSLASH then Some(BACKSLASH)
    else if c == SLASH then Some(SLASH)
    else if c == LETTER_B then Some(BS)
    else if c == LETTER_F then Some(FF)
    else if c == LETTER_N then Some(LF)
    else if c == LETTER_R then Some(CR)
    else if c == LETTER_T then Some(TAB)
    else None
  }

  /** `isxdigit`. */
  predicate IsHexDigit(b: byte) {
    (0x30 <= b <= 0x39) || (0x61 <= b <= 0x66) || (0x41 <= b <= 0x46)
  }

  /** What the `\u` loop adds for one byte: its digit value, or nothing. */
  function HexDigitValue(b: byte): (v: nat)
    ensures v < 16
  {
    if 0x30 <= b <= 0x39 then b - 0x30
    else if 0x61 <= b <= 0x66 then b - 0x61 + 10
    else if 0x41 <= b <= 0x46 then b - 0x41 + 10
    else 0
  }

  /** `accum` after the `\u` loop has read the bytes of `h`. */
  function HexValue(h: seq<byte>): nat {
    if h == [] then 0 else HexValue(h[..|h| - 1]) * 16 + HexDigitValue(h[|h| - 1])
  }

  /** `parseStringEscape`, entered just after the backslash: appends the escaped
      character(s) to `acc`. */
  function EscapeP(s: seq<byte>, pos: nat, acc: seq<byte>): (r: Outcome<seq<byte>>)
    requires pos <= |s|
    ensures r.Ok? ==> pos < r.pos <= |s|
  {
    if pos == |s| then Fail
    else if SimpleEscape(s[pos]).Some? then Ok(acc + [SimpleEscape(s[pos]).value], pos + 1)
    else if s[pos] == LETTER_U then
      if |s| - (pos + 1) < 4 then Fail
      else if !(IsHexDigit(s[pos + 1]) && IsHexDigit(s[pos + 2]) && IsHexDigit(s[pos + 3]) && IsHexDigit(s[pos + 4])) then Fail
      else match EncodeCodepoint(HexValue(s[pos + 1..pos + 5]))
        case None => Fail
        case Some(b) => Ok(acc + b, pos + 5)
    else Fail
  }

  /** `parseStringCharacters`: reads codepoints up to the first unescaped `"`,
      which it does not consume, appending what they stand for to `acc`. */
  function CharsP(s: seq<byte>, pos: nat, acc: seq<byte>): (r: Outcome<seq<byte>>)
    requires pos <= |s|
    ensures r.Ok? ==> pos <= r.pos < |s| && s[r.pos] == QUOTE
    decreases |s| - pos
  {
    if pos == |s| then Fail
    else match DecodeCodepoint(s[pos..])
      case None => Fail
      case Some((cp, n)) =>
        if cp == QUOTE then Ok(acc, pos)
        else if cp == BACKSLASH then
          match EscapeP(s, pos + 1, acc)
          case Fail => Fail
          case Ok(acc', p) => CharsP(s, p, acc')
        else match EncodeCodepoint(cp)
          case None => Fail
          case Some(b) => CharsP(s, pos + n, acc + b)
  }

  /** `parseString`. */
  function StringP(s: seq<byte>, pos: nat): (r: Outcome<Element>)
    requires pos <= |s|
    ensures r.Ok? ==> pos + 2 <= r.pos <= |s| && r.value.String?
  {
    if !ByteAt(s, pos, QUOTE) then Fail
    else match CharsP(s, pos + 1, [])
      case Fail => Fail
      case Ok(cs, p) => if ByteAt(s, p, QUOTE) then Ok(String(cs), p + 1) else Fail
  }

  /** `parseNumber`: the pattern match and the value computed from its groups. */
  function NumberP(s: seq<byte>, pos: nat): (r: Outcome<Element>)
    requires pos <= |s|
    ensures r.Ok? ==> pos < r.pos <= |s| && r.value.Number?
  {
    match Numbers.Lex(s, pos)
    case None => Fail
    case Some((l, p)) =>
      Numbers.LexSound(s, pos);
      Ok(Number(Numbers.Value(l)), p)
  }

  /** `parseBool`. */
  function BoolP(s: seq<byte>, pos: nat): (r: Outcome<Element>)
    requires pos <= |s|
    ensures r.Ok? ==> pos < r.pos <= |s| && r.value.Bool?
  {
    if StartsWith(s, pos, Ascii("true")) then Ok(Bool(true), pos + 4)
    else if StartsWith(s, pos, Ascii("false")) then Ok(Bool(false), pos + 5)
    else Fail
  }

  /** `parseNull`. */
  function NullP(s: seq<byte>, pos: nat): (r: Outcome<Element>)
    requires pos <= |s|
    ensures r.Ok? ==> pos < r.pos <= |s| && r.value.Null?
  {
    if StartsWith(s, pos, Ascii("null")) then Ok(Null, pos + 4) else Fail
  }

  /** `parseValue`: object, array, string, number, bool, null, first match wins. */
  function ValueP(s: seq<byte>, pos: nat): (r: Outcome<Element>)
    requires pos <= |s|
    ensures r.Ok? ==> pos < r.pos <= |s|
    decreases |s| - pos, 1
  {
    var o := ObjectP(s, pos);
    if o.Ok? then o
    else
      var a := ArrayP(s, pos);
      if a.Ok? then a
      else
        var t := StringP(s, pos);
        if t.Ok? then t
        else
          var n := NumberP(s, pos);
          if n.Ok? then n
          else
            var b := BoolP(s, pos);
            if b.Ok? then b else NullP(s, pos)
  }

  /** `parseObject`: `{` ws `}` first, then `{` members `}`. */
  function ObjectP(s: seq<byte>, pos: nat): (r: Outcome<Element>)
    requires pos <= |s|
    ensures r.Ok? ==> pos + 2 <= r.pos <= |s| && r.value.Object?
    decreases |s| - pos, 0
  {
    if !ByteAt(s, pos, LBRACE) then Fail
    else if ByteAt(s, SkipWS(s, pos + 1), RBRACE) then Ok(Object([]), SkipWS(s, pos + 1) + 1)
    else match MembersP(s, pos + 1)
      case Fail => Fail
      case Ok(ms, q) => if ByteAt(s, q, RBRACE) then Ok(Object(ms), q + 1) else Fail
  }

  /** `parseMembers`: at least one member, no key twice. */
  function MembersP(s: seq<byte>, pos: nat): (r: Outcome<seq<Member>>)
    requires pos <= |s|
    ensures r.Ok? ==> pos < r.pos <= |s| && |r.value| > 0
    decreases |s| - pos, 2
  {
    match MembersLoop(s, pos, [])
    case Fail => Fail
    case Ok(ms, q) => if |ms| > 0 then Ok(ms, q) else Fail
  }

  /** The `while (parseMember(...))` loop of `parseMembers`, entered with the
      entries `acc` read so far: it fails on a repeated key, stops where a member
      fails to parse (also just after a `,`), and stops after a member that no `,`
      follows. */
  function MembersLoop(s: seq<byte>, pos: nat, acc: seq<Member>): (r: Outcome<seq<Member>>)
    requires pos <= |s|
    ensures r.Ok? ==> pos <= r.pos <= |s|
    ensures r.Ok? && |r.value| > |acc| ==> pos < r.pos
    decreases |s| - pos, 1
  {
    match MemberP(s, pos)
    case Fail => Ok(acc, pos)
    case Ok(m, p1) =>
      if HasKey(acc, m.key) then Fail
      else if ByteAt(s, p1, COMMA) then MembersLoop(s, p1 + 1, acc + [m])
      else Ok(acc + [m], p1)
  }

  /** The repeated-key test of the loop keeps the keys of an Object distinct. */
  lemma {:induction false} MembersLoopDistinct(s: seq<byte>, pos: nat, acc: seq<Member>)
    requires pos <= |s| && DistinctKeys(acc)
    ensures MembersLoop(s, pos, acc).Ok? ==> DistinctKeys(MembersLoop(s, pos, acc).value)
    decreases |s| - pos
  {
    match MemberP(s, pos)
    case Fail =>
      assert MembersLoop(s, pos, acc) == Ok(acc, pos);
    case Ok(m, p1) =>
      if !HasKey(acc, m.key) {
        AppendDistinct(acc, m);
        if ByteAt(s, p1, COMMA) {
          assert MembersLoop(s, pos, acc) == MembersLoop(s, p1 + 1, acc + [m]);
          MembersLoopDistinct(s, p1 + 1, acc + [m]);
        } else {
          assert MembersLoop(s, pos, acc) == Ok(acc + [m], p1);
        }
      }
  }

  // Every node the reader builds is well formed: the repeated-key test holds in
  // every Object at any depth. The lemmas follow the recursion of the
  // productions and its measure.

  predicate ValuesWellFormed(ms: seq<Member>) {
    forall i | 0 <= i < |ms| :: WellFormed(ms[i].value)
  }

  predicate ItemsWellFormed(es: seq<Element>) {
    forall i | 0 <= i < |es| :: WellFormed(es[i])
  }

  /** A value read by the value production is well formed. */
  lemma {:induction false} ValueWellFormed(s: seq<byte>, pos: nat)
    requires pos <= |s|
    ensures ValueP(s, pos).Ok? ==> WellFormed(ValueP(s, pos).value)
    decreases |s| - pos, 1
  {
    ObjectWellFormed(s, pos);
    ArrayWellFormed(s, pos);
  }

  lemma {:induction false} ObjectWellFormed(s: seq<byte>, pos: nat)
    requires pos <= |s|
    ensures ObjectP(s, pos).Ok? ==> WellFormed(ObjectP(s, pos).value)
    decreases |s| - pos, 0
  {
    if ByteAt(s, pos, LBRACE) && !ByteAt(s, SkipWS(s, pos + 1), RBRACE) {
      MembersLoopDistinct(s, pos + 1, []);
      MembersLoopWellFormed(s, pos + 1, []);
      match MembersLoop(s, pos + 1, [])
      case Fail =>
        assert MembersP(s, pos + 1).Fail?;
      case Ok(ms, q) =>
        if |ms| > 0 && ByteAt(s, q, RBRACE) {
          assert MembersP(s, pos + 1) == Ok(ms, q);
          assert ObjectP(s, pos) == Ok(Object(ms), q + 1);
          assert DistinctKeys(ms);
          assert ValuesWellFormed(ms);
          assert WellFormed(Object(ms));
        } else {
          assert ObjectP(s, pos).Fail?;
        }
    }
  }

  /** The members loop adds only well-formed values to those it was given. */
  lemma {:induction false} MembersLoopWellFormed(s: seq<byte>, pos: nat, acc: seq<Member>)
    requires pos <= |s|
    requires ValuesWellFormed(acc)
    ensures MembersLoop(s, pos, acc).Ok? ==> ValuesWellFormed(MembersLoop(s, pos, acc).value)
    decreases |s| - pos, 1
  {
    MemberWellFormed(s, pos);
    match MemberP(s, pos)
    case Fail =>
    case Ok(m, p1) =>
      var acc' := acc + [m];
      assert ValuesWellFormed(acc') by {
        forall i | 0 <= i < |acc'| ensures WellFormed(acc'[i].value) {
          if i < |acc| {
            assert acc'[i] == acc[i];
          }
        }
      }
      if !HasKey(acc, m.key) {
        if ByteAt(s, p1, COMMA) {
          assert MembersLoop(s, pos, acc) == MembersLoop(s, p1 + 1, acc');
          MembersLoopWellFormed(s, p1 + 1, acc');
        } else {
          assert MembersLoop(s, pos, acc) == Ok(acc', p1);
        }
      }
  }

  lemma {:induction false} MemberWellFormed(s: seq<byte>, pos: nat)
    requires pos <= |s|
    ensures MemberP(s, pos).Ok? ==> WellFormed(MemberP(s, pos).value.value)
    decreases |s| - pos, 0
  {
    var p1 := SkipWS(s, pos);
    match StringP(s, p1)
    case Fail =>
    case Ok(key, p2) =>
      var p3 := SkipWS(s, p2);
      if ByteAt(s, p3, COLON) {
        ElementWellFormed(s, p3 + 1);
      }
  }

  lemma {:induction false} ArrayWellFormed(s: seq<byte>, pos: nat)
    requires pos <= |s|
    ensures ArrayP(s, pos).Ok? ==> WellFormed(ArrayP(s, pos).value)
    decreases |s| - pos, 0
  {
    if ByteAt(s, pos, LBRACKET) && !ByteAt(s, SkipWS(s, pos + 1), RBRACKET) {
      ElementsLoopWellFormed(s, pos + 1, []);
      var es := ElementsLoop(s, pos + 1, []).value;
      var q := ElementsLoop(s, pos + 1, []).pos;
      if |es| > 0 && ByteAt(s, q, RBRACKET) {
        assert ElementsP(s, pos + 1) == Ok(es, q);
        assert ArrayP(s, pos) == Ok(Array(es), q + 1);
        assert ItemsWellFormed(es);
        assert WellFormed(Array(es));
      } else {
        assert ArrayP(s, pos).Fail?;
      }
    }
  }

  /** The elements loop adds only well-formed items to those it was given. */
  lemma {:induction false} ElementsLoopWellFormed(s: seq<byte>, pos: nat, acc: seq<Element>)
    requires pos <= |s|
    requires ItemsWellFormed(acc)
    ensures ItemsWellFormed(ElementsLoop(s, pos, acc).value)
    decreases |s| - pos, 3
  {
    ElementWellFormed(s, pos);
    match ElementP(s, pos)
    case Fail =>
      assert ElementsLoop(s, pos, acc) == Ok(acc, pos);
    case Ok(e, p1) =>
      var acc' := acc + [e];
      assert ItemsWellFormed(acc') by {
        forall i | 0 <= i < |acc'| ensures WellFormed(acc'[i]) {
          if i < |acc| {
            assert acc'[i] == acc[i];
          }
        }
      }
      if ByteAt(s, p1, COMMA) {
        ElementsLoopWellFormed(s, p1 + 1, acc');
        assert ElementsLoop(s, pos, acc) == ElementsLoop(s, p1 + 1, acc');
      } else {
        assert ElementsLoop(s, pos, acc) == Ok(acc', p1);
      }
  }

  lemma {:induction false} ElementWellFormed(s: seq<byte>, pos: nat)
    requires pos <= |s|
    ensures ElementP(s, pos).Ok? ==> WellFormed(ElementP(s, pos).value)
    decreases |s| - pos, 2
  {
    ValueWellFormed(s, SkipWS(s, pos));
  }

  /** `parseMember`: ws string ws `:` element. */
  function MemberP(s: seq<byte>, pos: nat): (r: Outcome<Member>)
    requires pos <= |s|
    ensures r.Ok? ==> pos < r.pos <= |s|
    decreases |s| - pos, 0
  {
    var p1 := SkipWS(s, pos);
    match StringP(s, p1)
    case Fail => Fail
    case Ok(key, p2) =>
      var p3 := SkipWS(s, p2);
      if !ByteAt(s, p3, COLON) then Fail
      else match ElementP(s, p3 + 1)
        case Fail => Fail
        case Ok(v, p4) => Ok(Member(key.text, v), p4)
  }

  /** `parseArray`: `[` ws `]` first, then `[` elements `]`. */
  function ArrayP(s: seq<byte>, pos: nat): (r: Outcome<Element>)
    requires pos <= |s|
    ensures r.Ok? ==> pos + 2 <= r.pos <= |s| && r.value.Array?
    decreases |s| - pos, 0
  {
    if !ByteAt(s, pos, LBRACKET) then Fail
    else if ByteAt(s, SkipWS(s, pos + 1), RBRACKET) then Ok(Array([]), SkipWS(s, pos + 1) + 1)
    else match ElementsP(s, pos + 1)
      case Fail => Fail
      case Ok(es, q) => if ByteAt(s, q, RBRACKET) then Ok(Array(es), q + 1) else Fail
  }

  /** `parseElements`: at least one element. */
  function ElementsP(s: seq<byte>, pos: nat): (r: Outcome<seq<Element>>)
    requires pos <= |s|
    ensures r.Ok? ==> pos < r.pos <= |s| && |r.value| > 0
    decreases |s| - pos, 4
  {
    match ElementsLoop(s, pos, [])
    case Fail => Fail
    case Ok(es, q) => if |es| > 0 then Ok(es, q) else Fail
  }

  /** The `while (parseElement(...))` loop of `parseElements`: it stops where an
      element fails to parse (also just after a `,`) and after an element that no
      `,` follows. It never fails. */
  function ElementsLoop(s: seq<byte>, pos: nat, acc: seq<Element>): (r: Outcome<seq<Element>>)
    requires pos <= |s|
    ensures r.Ok? && pos <= r.pos <= |s|
    ensures |r.value| > |acc| ==> pos < r.pos
    decreases |s| - pos, 3
  {
    match ElementP(s, pos)
    case Fail => Ok(acc, pos)
    case Ok(e, p1) =>
      var acc' := acc + [e];
      if ByteAt(s, p1, COMMA) then
        ElementsLoop(s, p1 + 1, acc')
      else Ok(acc', p1)
  }

  /** `parseElement`: ws value ws. */
  function ElementP(s: seq<byte>, pos: nat): (r: Outcome<Element>)
    requires pos <= |s|
    ensures r.Ok? ==> pos < r.pos <= |s| && (r.pos == |s| || !IsWS(s[r.pos]))
    decreases |s| - pos, 2
  {
    match ValueP(s, SkipWS(s, pos))
    case Fail => Fail
    case Ok(v, p) => Ok(v, SkipWS(s, p))
  }

  /** The production a typed decode function asks for. */
  function Production(t: ElementType, s: seq<byte>, pos: nat): (r: Outcome<Element>)
    requires pos <= |s|
    ensures r.Ok? ==> pos < r.pos <= |s| && TypeOf(r.value) == t
  {
    match t
    case ObjectType => ObjectP(s, pos)
    case ArrayType => ArrayP(s, pos)
    case StringType => StringP(s, pos)
    case NumberType => NumberP(s, pos)
    case BoolType => BoolP(s, pos)
    case NullType => NullP(s, pos)
  }

  /** What a decode function parses before its final emptiness test: for
      `decodeJSON` (`t == None`) an element, for the typed ones ws, the
      production, ws. */
  function Document(t: Option<ElementType>, text: seq<byte>): (r: Outcome<Element>)
    ensures r.Ok? ==> 0 < r.pos <= |text| && (r.pos == |text| || !IsWS(text[r.pos]))
    ensures r.Ok? && t.Some? ==> TypeOf(r.value) == t.value
    ensures r.Ok? ==> WellFormed(r.value)
  {
    ElementWellFormed(text, 0);
    ObjectWellFormed(text, SkipWS(text, 0));
    ArrayWellFormed(text, SkipWS(text, 0));
    match t
    case None => ElementP(text, 0)
    case Some(k) =>
      match Production(k, text, SkipWS(text, 0))
      case Fail => Fail
      case Ok(e, p) => Ok(e, SkipWS(text, p))
  }

  /** What a decode function returns as written: the node only when text is
      left over after the trailing whitespace (decoder.cpp:24, 32, 40, 48, 56,
      64, 72 test `json_segment.empty()` the wrong way round). Of a text that
      parses, exactly one of this and `DecodeWhole` returns the node. */
  function DecodeAsWritten(t: Option<ElementType>, text: seq<byte>): (r: Option<Element>)
    ensures r.Some? ==> WellFormed(r.value)
    ensures r.Some? && t.Some? ==> TypeOf(r.value) == t.value
    ensures r.Some? ==> DecodeWhole(t, text).None?
    ensures r.None? && Document(t, text).Ok? ==> DecodeWhole(t, text) == Some(Document(t, text).value)
  {
    match Document(t, text)
    case Fail => None
    case Ok(e, p) => if p == |text| then None else Some(e)
  }

  /** What the decode functions are documented to do (decoder.hpp:22-76): convert
      the entire text, so the node is returned only when nothing is left over. */
  function DecodeWhole(t: Option<ElementType>, text: seq<byte>): (r: Option<Element>)
    ensures r.Some? ==> WellFormed(r.value)
    ensures r.Some? && t.Some? ==> TypeOf(r.value) == t.value
  {
    match Document(t, text)
    case Fail => None
    case Ok(e, p) => if p == |text| then Some(e) else None
  }
}
