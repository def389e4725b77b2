/** Concrete inputs on which the reader and the renderer behave as
    src/softloq-json/decoder.cpp and src/softloq-json/element.cpp are written,
    including where that differs from RFC 8259. */
module Samples {
  import opened Base
  import opened Utf8
  import opened Elements
  import opened Grammar
  import opened Renderer
  import Numbers
  import RoundTrip
  import Properties

  /** `{ }` is an empty Object; `{,}` is no Object at all. */
  lemma EmptyObject()
    ensures ObjectP(Ascii("{ }"), 0) == Ok(Object([]), 3)
    ensures ObjectP(Ascii("{,}"), 0).Fail?
  {
  }

  /** `null` at `p`, followed by a byte that is not whitespace, is one element. */
  lemma NullElement(s: seq<byte>, p: nat)
    requires p + 4 < |s| && StartsWith(s, p, Ascii("null")) && !IsWS(s[p + 4])
    ensures ElementP(s, p) == Ok(Null, p + 4)
  {
    assert Render(Null, x => []) == Ascii("null");
    assert !IsWS(s[p + 0]);
    RoundTrip.SkipNone(s, p);
    RoundTrip.ValueRT(s, p, Null, x => []);
    RoundTrip.SkipNone(s, p + 4);
    RoundTrip.ElementStep(s, p, p);
  }

  /** No element starts at `p` when a closing bracket or brace is there. */
  lemma NoElement(s: seq<byte>, p: nat)
    requires p < |s| && (s[p] == RBRACE || s[p] == RBRACKET)
    ensures ElementP(s, p).Fail?
  {
    RoundTrip.SkipNone(s, p);
    Properties.NoValueAt(s, p);
  }

  /** `null,]` at `p`: the elements loop takes the `null` and the comma, and
      stops on the `]`. */
  lemma NullThenComma(s: seq<byte>, p: nat)
    requires p + 6 <= |s| && StartsWith(s, p, Ascii("null")) && s[p + 4] == COMMA && s[p + 5] == RBRACKET
    ensures ElementsLoop(s, p, []) == Ok([Null], p + 5)
  {
    NullElement(s, p);
    NoElement(s, p + 5);
    Properties.ElementsTrailingComma(s, p, []);
    assert [] + [Null] == [Null];
  }

  /** `[null,]` is read, the trailing comma included (section 5 of RFC 8259
      refuses it). */
  lemma TrailingCommaArray(s: seq<byte>)
    requires s == [LBRACKET] + Ascii("null") + [COMMA, RBRACKET]
    ensures ArrayP(s, 0) == Ok(Array([Null]), 7)
  {
    assert StartsWith(s, 1, Ascii("null"));
    NullThenComma(s, 1);
    RoundTrip.SkipNone(s, 1);
    RoundTrip.ArrayStep(s, 0, 1);
  }

  /** `null, ]` at `p`: the elements loop takes the `null` and the comma, and
      stops before the space. */
  lemma NullThenCommaSpace(s: seq<byte>, p: nat)
    requires p + 7 <= |s| && StartsWith(s, p, Ascii("null")) && s[p + 4] == COMMA
    requires s[p + 5] == SPACE && s[p + 6] == RBRACKET
    ensures ElementsLoop(s, p, []) == Ok([Null], p + 5)
  {
    NullElement(s, p);
    RoundTrip.SkipOne(s, p + 5);
    Properties.NoValueAt(s, p + 6);
    Properties.ElementsTrailingComma(s, p, []);
    assert [] + [Null] == [Null];
  }

  /** `[null, ]` is refused: the comma is taken only when `]` follows it at once.
      After the comma no element is read, the element production puts the cursor
      back before the space, and the `]` test then sees the space. */
  lemma TrailingCommaSpaceArray(s: seq<byte>)
    requires s == [LBRACKET] + Ascii("null") + [COMMA, SPACE, RBRACKET]
    ensures ArrayP(s, 0).Fail?
  {
    assert StartsWith(s, 1, Ascii("null"));
    NullThenCommaSpace(s, 1);
    RoundTrip.SkipNone(s, 1);
  }

  /** The key `"a"` is plain text. */
  lemma PlainKey()
    ensures RoundTrip.PlainText(Ascii("a"))
  {
    var k := Ascii("a");
    assert k == [0x61];
    assert k[1..] == [];
  }

  /** The string `"a"` at `p`. */
  lemma KeyString(s: seq<byte>, p: nat)
    requires p + 3 <= |s| && s[p] == QUOTE && s[p + 1] == 0x61 && s[p + 2] == QUOTE
    ensures StringP(s, p) == Ok(String(Ascii("a")), p + 3)
  {
    var k := Ascii("a");
    assert k == [0x61];
    PlainKey();
    assert StartsWith(s, p, [QUOTE] + k + [QUOTE]) by {
      assert [QUOTE] + k + [QUOTE] == [QUOTE, 0x61, QUOTE];
    }
    RoundTrip.StringRT(s, p, k);
  }

  /** The entry `"a":null` at `p`, followed by a byte that is not whitespace. */
  lemma NullEntry(s: seq<byte>, p: nat)
    requires p + 8 < |s| && s[p] == QUOTE && s[p + 1] == 0x61 && s[p + 2] == QUOTE && s[p + 3] == COLON
    requires StartsWith(s, p + 4, Ascii("null")) && !IsWS(s[p + 8])
    ensures MemberP(s, p) == Ok(Member(Ascii("a"), Null), p + 8)
  {
    RoundTrip.SkipNone(s, p);
    KeyString(s, p);
    RoundTrip.SkipNone(s, p + 3);
    NullElement(s, p + 4);
    RoundTrip.SkipNone(s, p + 8);
    RoundTrip.MemberStep(s, p, p, p + 3, p + 3, Ascii("a"), Null, p + 8);
  }

  /** `"a":null,}` at `p`: the members loop takes the entry and the comma, and
      stops on the `}`. */
  lemma EntryThenComma(s: seq<byte>, p: nat)
    requires p + 10 <= |s| && s[p] == QUOTE && s[p + 1] == 0x61 && s[p + 2] == QUOTE && s[p + 3] == COLON
    requires StartsWith(s, p + 4, Ascii("null")) && s[p + 8] == COMMA && s[p + 9] == RBRACE
    ensures MembersLoop(s, p, []) == Ok([Member(Ascii("a"), Null)], p + 9)
  {
    NullEntry(s, p);
    var m := Member(Ascii("a"), Null);
    RoundTrip.SkipNone(s, p + 9);
    RoundTrip.NotString(s, p + 9);
    assert MemberP(s, p + 9).Fail?;
    assert !HasKey([], m.key);
    Properties.MembersTrailingComma(s, p, []);
    assert [] + [m] == [m];
  }

  /** `{"a":null,}` is read, the trailing comma included (section 4 of RFC 8259
      refuses it). */
  lemma TrailingCommaObject(s: seq<byte>)
    requires s == [LBRACE, QUOTE, 0x61, QUOTE, COLON] + Ascii("null") + [COMMA, RBRACE]
    ensures ObjectP(s, 0) == Ok(Object([Member(Ascii("a"), Null)]), 11)
  {
    assert StartsWith(s, 5, Ascii("null"));
    EntryThenComma(s, 1);
    RoundTrip.SkipNone(s, 1);
    RoundTrip.ObjectStep(s, 0, 1);
  }

  /** `"a":null, }` at `p`: the members loop takes the entry and the comma, and
      stops before the space. */
  lemma EntryThenCommaSpace(s: seq<byte>, p: nat)
    requires p + 11 <= |s| && s[p] == QUOTE && s[p + 1] == 0x61 && s[p + 2] == QUOTE && s[p + 3] == COLON
    requires StartsWith(s, p + 4, Ascii("null")) && s[p + 8] == COMMA
    requires s[p + 9] == SPACE && s[p + 10] == RBRACE
    ensures MembersLoop(s, p, []) == Ok([Member(Ascii("a"), Null)], p + 9)
  {
    NullEntry(s, p);
    var m := Member(Ascii("a"), Null);
    RoundTrip.SkipOne(s, p + 9);
    RoundTrip.NotString(s, p + 10);
    assert MemberP(s, p + 9).Fail?;
    assert !HasKey([], m.key);
    Properties.MembersTrailingComma(s, p, []);
    assert [] + [m] == [m];
  }

  /** `{"a":null, }` is refused, as `[null, ]` is: the members loop stops before
      the space, where the `}` test fails. */
  lemma TrailingCommaSpaceObject(s: seq<byte>)
    requires s == [LBRACE, QUOTE, 0x61, QUOTE, COLON] + Ascii("null") + [COMMA, SPACE, RBRACE]
    ensures ObjectP(s, 0).Fail?
  {
    assert StartsWith(s, 5, Ascii("null"));
    EntryThenCommaSpace(s, 1);
    RoundTrip.SkipNone(s, 1);
  }

  /** `"a":null,"a":null` at `p`: the members loop fails on the second `"a"`. */
  lemma KeyTwice(s: seq<byte>, p: nat)
    requires p + 18 <= |s| && s[p] == QUOTE && s[p + 1] == 0x61 && s[p + 2] == QUOTE && s[p + 3] == COLON
    requires StartsWith(s, p + 4, Ascii("null")) && s[p + 8] == COMMA
    requires s[p + 9] == QUOTE && s[p + 10] == 0x61 && s[p + 11] == QUOTE && s[p + 12] == COLON
    requires StartsWith(s, p + 13, Ascii("null")) && !IsWS(s[p + 17])
    ensures MembersLoop(s, p, []).Fail?
  {
    NullEntry(s, p);
    NullEntry(s, p + 9);
    var m := Member(Ascii("a"), Null);
    assert [] + [m] == [m] && [m][0] == m;
    assert MembersLoop(s, p, []) == MembersLoop(s, p + 9, [m]);
  }

  /** A key that repeats makes the whole Object fail. */
  lemma RepeatedKey(s: seq<byte>)
    requires s == [LBRACE, QUOTE, 0x61, QUOTE, COLON] + Ascii("null") + [COMMA, QUOTE, 0x61, QUOTE, COLON] + Ascii("null") + [RBRACE]
    ensures ObjectP(s, 0).Fail?
  {
    assert StartsWith(s, 5, Ascii("null")) && StartsWith(s, 14, Ascii("null"));
    KeyTwice(s, 1);
    RoundTrip.SkipNone(s, 1);
  }

  /** `3.5` is read in full. */
  lemma NumberFraction(a: seq<byte>)
    requires a == [0x33, DOT, 0x35]
    ensures NumberP(a, 0) == Ok(Number(3.5), 3)
  {
    assert Numbers.UIntEnd(a, 0) == Some(1);
    assert Numbers.UIntEnd(a, 2) == Some(3);
    assert Numbers.FractionEnd(a, 1) == 3;
    assert Numbers.ExponentPartEnd(a, 3) == 3;
    assert a[0..1] == [0x33] && a[2..3] == [0x35] && a[3..3] == [];
    assert Numbers.Lex(a, 0) == Some((Numbers.Lexeme(false, [0x33], [0x35], []), 3));
    assert Numbers.DigitsValue([0x33]) == 3 && Numbers.DigitsValue([0x35]) == 5 by {
      assert [0x33][..0] == [] && [0x35][..0] == [];
    }
  }

  /** `-2e2` is read in full. */
  lemma NumberExponent(b: seq<byte>)
    requires b == [MINUS, 0x32, 0x65, 0x32]
    ensures NumberP(b, 0) == Ok(Number(-200.0), 4)
  {
    assert Numbers.UIntEnd(b, 1) == Some(2);
    assert Numbers.FractionEnd(b, 2) == 2;
    assert Numbers.UIntEnd(b, 3) == Some(4);
    assert Numbers.ExponentEnd(b, 2) == Some(4);
    assert Numbers.ExponentPartEnd(b, 2) == 4;
    assert b[1..2] == [0x32] && b[2..4] == [0x65, 0x32] && b[2..4][1..] == [0x32];
    assert Numbers.Lex(b, 0) == Some((Numbers.Lexeme(true, [0x32], [], [0x65, 0x32]), 4));
    assert Numbers.DigitsValue([0x32]) == 2 by {
      assert [0x32][..0] == [];
    }
  }

  /** Of `1.05` only `1.0` is matched: a fraction may have a leading zero only
      when it is `0` alone (section 6 of RFC 8259 allows any digits). */
  lemma NumberLeadingZero(c: seq<byte>)
    requires c == [0x31, DOT, 0x30, 0x35]
    ensures NumberP(c, 0) == Ok(Number(1.0), 3)
  {
    assert Numbers.UIntEnd(c, 0) == Some(1);
    assert Numbers.UIntEnd(c, 2) == Some(3);
    assert Numbers.FractionEnd(c, 1) == 3;
    assert Numbers.ExponentPartEnd(c, 3) == 3;
    assert c[0..1] == [0x31] && c[2..3] == [0x30] && c[3..3] == [];
    assert Numbers.Lex(c, 0) == Some((Numbers.Lexeme(false, [0x31], [0x30], []), 3));
    assert Numbers.DigitsValue([0x31]) == 1 && Numbers.DigitsValue([0x30]) == 0 by {
      assert [0x31][..0] == [] && [0x30][..0] == [];
    }
  }

  /** `\u0041` (after the backslash) appends `A` and consumes five bytes. */
  lemma EscapeUnicode(s: seq<byte>)
    requires s == [LETTER_U, 0x30, 0x30, 0x34, 0x31]
    ensures EscapeP(s, 0, []) == Ok([0x41], 5)
  {
    var h := s[1..5];
    assert h == [0x30, 0x30, 0x34, 0x31];
    Properties.HexValue4(h);
    assert HexValue(h) == 0x41;
    assert EncodeCodepoint(0x41) == Some([0x41]) && [] + [0x41] == [0x41];
  }

  /** `\uD83D`, the first half of the surrogate pair of U+1F600, is refused. */
  lemma EscapeSurrogate(s: seq<byte>)
    requires s == [LETTER_U, 0x44, 0x38, 0x33, 0x44]
    ensures EscapeP(s, 0, []).Fail?
  {
    var h := s[1..5];
    assert h == [0x44, 0x38, 0x33, 0x44];
    Properties.HexValue4(h);
    assert HexValue(h) == 0xD83D;
    Properties.EscapedSurrogateFails(s, 0, []);
  }

  /** A raw control byte inside a string is taken (section 7 of RFC 8259 requires
      it to be escaped). */
  lemma RawControlByte()
    ensures StringP([QUOTE, 0x01, QUOTE], 0) == Ok(String([0x01]), 3)
  {
    var s := [QUOTE, 0x01, QUOTE];
    Properties.RawByteTaken(s, 1, []);
    assert [] + [s[1]] == [0x01];
    RoundTrip.CharsEnd(s, 2, [0x01]);
    assert CharsP(s, 1, []) == Ok([0x01], 2);
  }

  /** A String holding `"` renders as three quotes, which read back as an empty
      String followed by a stray quote, so the text is not a document. */
  lemma QuoteNotReadBack()
    ensures Render(String([QUOTE]), x => []) == [QUOTE, QUOTE, QUOTE]
    ensures StringP([QUOTE, QUOTE, QUOTE], 0) == Ok(String([]), 2)
    ensures DecodeWhole(None, [QUOTE, QUOTE, QUOTE]) == None
  {
    var s := [QUOTE, QUOTE, QUOTE];
    RoundTrip.CharsEnd(s, 1, []);
    assert StringP(s, 0) == Ok(String([]), 2);
    RoundTrip.NotObject(s, 0);
    RoundTrip.NotArray(s, 0);
    assert ValueP(s, 0) == Ok(String([]), 2);
    RoundTrip.SkipNone(s, 0);
    RoundTrip.SkipNone(s, 2);
    assert ElementP(s, 0) == Ok(String([]), 2);
  }

  /** `decodeJSON` as written, with `parseWS` corrected, refuses `null` and takes
      `null x`. */
  lemma InvertedTest()
    ensures DecodeAsWritten(None, Ascii("null")) == None
    ensures DecodeWhole(None, Ascii("null")) == Some(Null)
    ensures DecodeAsWritten(None, Ascii("null x")) == Some(Null)
  {
    assert Render(Null, x => []) == Ascii("null");
    RoundTrip.DecodeRendered(Null, x => []);
    var s := Ascii("null x");
    assert s == Ascii("null") + [SPACE, 0x78];
    RoundTrip.SkipNone(s, 0);
    RoundTrip.ValueRT(s, 0, Null, x => []);
    RoundTrip.SkipOne(s, 4);
    RoundTrip.ElementStep(s, 0, 0);
  }
}
