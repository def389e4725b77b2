/** The reader of src/softloq-json/decoder.cpp as the library writes it: each
    production is a method over the input bytes `s` and a cursor (the offset of
    the `std::string_view json_segment` in the text), returning whether it matched,
    the new cursor and what it read. Every production puts the cursor back when it
    fails, and each is proved to compute its function of module Grammar. */
module Decoder {
  import opened Base
  import opened Utf8
  import opened Elements
  import opened Grammar
  import Numbers

  /** `parseMatch`: consume `lit` if the text at the cursor starts with it. The
      library compares `substr(0, lit.length())`, which is shorter than `lit` near
      the end of the text. */
  method ParseMatch(s: seq<byte>, pos: nat, lit: seq<byte>) returns (ok: bool, next: nat)
    requires pos <= |s|
    ensures ok <==> StartsWith(s, pos, lit)
    ensures |lit| == 1 ==> (ok <==> ByteAt(s, pos, lit[0]))
    ensures next == if ok then pos + |lit| else pos
  {
    var n := if |lit| <= |s| - pos then |lit| else |s| - pos;
    if s[pos..pos + n] == lit {
      ok, next := true, pos + |lit|;
    } else {
      ok, next := false, pos;
    }
  }

  /** `parseWS` as the library writes it. A whitespace byte is consumed, but the
      `switch` has no case for any other byte, so an iteration that meets one
      leaves the cursor where it is and the `while` never ends. The method stops
      at that point instead and reports whether the loop would have returned:
      `halts` holds exactly when only whitespace remains, and then the cursor is at
      the end of the text. Otherwise `next` is where the loop spins forever. */
  method ParseWSAsWritten(s: seq<byte>, pos: nat) returns (halts: bool, next: nat)
    requires pos <= |s|
    ensures halts <==> forall i | pos <= i < |s| :: IsWS(s[i])
    ensures halts ==> next == |s|
    ensures !halts ==> next == SkipWS(s, pos) && next < |s|
  {
    next := pos;
    while next < |s|
      invariant pos <= next <= |s|
      invariant SkipWS(s, pos) == SkipWS(s, next)
      invariant forall i | pos <= i < next :: IsWS(s[i])
    {
      if IsWS(s[next]) {
        next := next + 1;
      } else {
        // An iteration that consumes nothing: every later one is the same.
        return false, next;
      }
    }
    halts := true;
  }

  /** `parseWS` as it is evidently meant to work: consume whitespace and stop at
      the first other byte. */
  method ParseWS(s: seq<byte>, pos: nat) returns (next: nat)
    requires pos <= |s|
    ensures next == SkipWS(s, pos)
  {
    next := pos;
    while next < |s| && IsWS(s[next])
      invariant pos <= next <= |s|
      invariant SkipWS(s, pos) == SkipWS(s, next)
    {
      next := next + 1;
    }
  }

  /** `parseValue`: the alternatives in order; a failed one leaves the cursor. */
  method ParseValue(s: seq<byte>, pos: nat) returns (ok: bool, next: nat, value: Element)
    requires pos <= |s|
    ensures Reports(ValueP(s, pos), pos, ok, next, value)
    decreases |s| - pos, 1
  {
    ok, next, value := ParseObject(s, pos);
    if ok { return; }
    ok, next, value := ParseArray(s, pos);
    if ok { return; }
    ok, next, value := ParseString(s, pos);
    if ok { return; }
    ok, next, value := ParseNumber(s, pos);
    if ok { return; }
    ok, next, value := ParseBool(s, pos);
    if ok { return; }
    ok, next, value := ParseNull(s, pos);
  }

  /** `parseObject`: `{` ws `}`, and failing that `{` members `}` from the same
      starting point. */
  method ParseObject(s: seq<byte>, pos: nat) returns (ok: bool, next: nat, value: Element)
    requires pos <= |s|
    ensures Reports(ObjectP(s, pos), pos, ok, next, value)
    decreases |s| - pos, 0
  {
    var m1, p1 := ParseMatch(s, pos, [LBRACE]);
    if m1 {
      var p2 := ParseWS(s, p1);
      var m3, p3 := ParseMatch(s, p2, [RBRACE]);
      if m3 {
        return true, p3, Object([]);
      }
    }
    m1, p1 := ParseMatch(s, pos, [LBRACE]);
    if m1 {
      var mok, p2, members := ParseMembers(s, p1);
      if mok {
        var m3, p3 := ParseMatch(s, p2, [RBRACE]);
        if m3 {
          return true, p3, Object(members);
        }
      }
    }
    return false, pos, Null;
  }

  /** `parseMembers`: members separated by `,`, at least one; a key already in
      the Object fails the whole production. */
  method ParseMembers(s: seq<byte>, pos: nat) returns (ok: bool, next: nat, members: seq<Member>)
    requires pos <= |s|
    ensures Reports(MembersP(s, pos), pos, ok, next, members)
    decreases |s| - pos, 2
  {
    var cur := pos;
    members := [];
    while true
      invariant pos <= cur <= |s|
      invariant MembersLoop(s, pos, []) == MembersLoop(s, cur, members)
      decreases |s| - cur
    {
      var mok, p1, key, value := ParseMember(s, cur);
      if !mok {
        assert MembersLoop(s, cur, members) == Ok(members, cur);
        break;
      }
      if HasKey(members, key.text) {
        assert MembersLoop(s, cur, members) == Fail;
        return false, pos, [];
      }
      cur := p1;
      members := members + [Member(key.text, value)];
      var cok, p2 := ParseMatch(s, cur, [COMMA]);
      if !cok {
        break;
      }
      cur := p2;
    }
    if |members| > 0 {
      return true, cur, members;
    }
    return false, pos, members;
  }

  /** `parseMember`: ws string ws `:` element; the key comes back as the String
      node the library hands to `parseMembers`. */
  method ParseMember(s: seq<byte>, pos: nat) returns (ok: bool, next: nat, key: Element, value: Element)
    requires pos <= |s|
    ensures ok == MemberP(s, pos).Ok?
    ensures ok ==> key == String(MemberP(s, pos).value.key) && value == MemberP(s, pos).value.value
    ensures next == if ok then MemberP(s, pos).pos else pos
    decreases |s| - pos, 0
  {
    var p1 := ParseWS(s, pos);
    var sok, p2, k := ParseString(s, p1);
    if sok {
      var p3 := ParseWS(s, p2);
      var cok, p4 := ParseMatch(s, p3, [COLON]);
      if cok {
        var eok, p5, v := ParseElement(s, p4);
        if eok {
          return true, p5, k, v;
        }
      }
    }
    return false, pos, Null, Null;
  }

  /** `parseArray`: `[` ws `]`, and failing that `[` elements `]`. */
  method ParseArray(s: seq<byte>, pos: nat) returns (ok: bool, next: nat, value: Element)
    requires pos <= |s|
    ensures Reports(ArrayP(s, pos), pos, ok, next, value)
    decreases |s| - pos, 0
  {
    var m1, p1 := ParseMatch(s, pos, [LBRACKET]);
    if m1 {
      var p2 := ParseWS(s, p1);
      var m3, p3 := ParseMatch(s, p2, [RBRACKET]);
      if m3 {
        return true, p3, Array([]);
      }
    }
    m1, p1 := ParseMatch(s, pos, [LBRACKET]);
    if m1 {
      var eok, p2, elements := ParseElements(s, p1);
      if eok {
        var m3, p3 := ParseMatch(s, p2, [RBRACKET]);
        if m3 {
          return true, p3, Array(elements);
        }
      }
    }
    return false, pos, Null;
  }

  /** `parseElements`: elements separated by `,`, at least one, kept in order. */
  method ParseElements(s: seq<byte>, pos: nat) returns (ok: bool, next: nat, elements: seq<Element>)
    requires pos <= |s|
    ensures Reports(ElementsP(s, pos), pos, ok, next, elements)
    decreases |s| - pos, 4
  {
    var cur := pos;
    elements := [];
    while true
      invariant pos <= cur <= |s|
      invariant ElementsLoop(s, pos, []) == ElementsLoop(s, cur, elements)
      decreases |s| - cur
    {
      var eok, p1, e := ParseElement(s, cur);
      if !eok {
        assert ElementsLoop(s, cur, elements) == Ok(elements, cur);
        break;
      }
      assert ElementsLoop(s, cur, elements) ==
        if ByteAt(s, p1, COMMA) then ElementsLoop(s, p1 + 1, elements + [e]) else Ok(elements + [e], p1);
      cur := p1;
      elements := elements + [e];
      var cok, p2 := ParseMatch(s, cur, [COMMA]);
      if !cok {
        break;
      }
      cur := p2;
    }
    assert ElementsLoop(s, pos, []) == Ok(elements, cur);
    if |elements| > 0 {
      return true, cur, elements;
    }
    return false, pos, elements;
  }

  /** `parseElement`: ws value ws. */
  method ParseElement(s: seq<byte>, pos: nat) returns (ok: bool, next: nat, value: Element)
    requires pos <= |s|
    ensures Reports(ElementP(s, pos), pos, ok, next, value)
    decreases |s| - pos, 2
  {
    var p1 := ParseWS(s, pos);
    var vok, p2, v := ParseValue(s, p1);
    if !vok {
      return false, pos, Null;
    }
    var p3 := ParseWS(s, p2);
    return true, p3, v;
  }

  /** `parseString`: `"` characters `"`. */
  method ParseString(s: seq<byte>, pos: nat) returns (ok: bool, next: nat, value: Element)
    requires pos <= |s|
    ensures Reports(StringP(s, pos), pos, ok, next, value)
  {
    var m1, p1 := ParseMatch(s, pos, [QUOTE]);
    if m1 {
      var cok, p2, chars := ParseStringCharacters(s, p1, []);
      if cok {
        var m3, p3 := ParseMatch(s, p2, [QUOTE]);
        if m3 {
          return true, p3, String(chars);
        }
      }
    }
    return false, pos, Null;
  }

  /** `parseStringCharacters`: decode one codepoint at a time and append what it
      stands for to `chars`, up to an unescaped `"`; an undecodable byte sequence,
      a bad escape or the end of the text fails. */
  method ParseStringCharacters(s: seq<byte>, pos: nat, chars: seq<byte>) returns (ok: bool, next: nat, out: seq<byte>)
    requires pos <= |s|
    ensures Reports(CharsP(s, pos, chars), pos, ok, next, out)
  {
    var cur := pos;
    out := chars;
    var issue := false;
    while !issue && cur < |s|
      invariant pos <= cur <= |s|
      invariant !issue ==> CharsP(s, pos, chars) == CharsP(s, cur, out)
      invariant issue ==> CharsP(s, pos, chars).Fail?
      decreases |s| - cur + (if issue then 0 else 1)
    {
      var d := DecodeCodepoint(s[cur..]);
      if d.None? {
        break;
      }
      var (cp, n) := d.value;
      if cp == QUOTE {
        return true, cur, out;
      } else if cp == BACKSLASH {
        var eok, p, escaped := ParseStringEscape(s, cur + 1, out);
        if eok {
          cur, out := p, escaped;
        } else {
          issue := true;
        }
      } else {
        var b := EncodeCodepoint(cp);
        if b.Some? {
          cur, out := cur + n, out + b.value;
        } else {
          issue := true;
        }
      }
    }
    return false, pos, out;
  }

  /** `parseStringEscape`, entered just after the backslash. */
  method ParseStringEscape(s: seq<byte>, pos: nat, chars: seq<byte>) returns (ok: bool, next: nat, out: seq<byte>)
    requires pos <= |s|
    ensures Reports(EscapeP(s, pos, chars), pos, ok, next, out)
  {
    if pos == |s| {
      return false, pos, chars;
    }
    var c := s[pos];
    if c == QUOTE {
      return true, pos + 1, chars + [QUOTE];
    } else if c == BACKSLASH {
      return true, pos + 1, chars + [BACKSLASH];
    } else if c == SLASH {
      return true, pos + 1, chars + [SLASH];
    } else if c == LETTER_B {
      return true, pos + 1, chars + [BS];
    } else if c == LETTER_F {
      return true, pos + 1, chars + [FF];
    } else if c == LETTER_N {
      return true, pos + 1, chars + [LF];
    } else if c == LETTER_R {
      return true, pos + 1, chars + [CR];
    } else if c == LETTER_T {
      return true, pos + 1, chars + [TAB];
    } else if c == LETTER_U {
      var hex := s[pos + 1..];
      if |hex| < 4 {
        return false, pos, chars;
      }
      if !(IsHexDigit(hex[0]) && IsHexDigit(hex[1]) && IsHexDigit(hex[2]) && IsHexDigit(hex[3])) {
        return false, pos, chars;
      }
      var accum: nat := 0;
      for i := 0 to 4
        invariant accum == HexValue(hex[..i])
      {
        assert hex[..i + 1][..i] == hex[..i];
        accum := accum * 16;
        if 0x30 <= hex[i] <= 0x39 {
          accum := accum + (hex[i] - 0x30);
        } else if 0x61 <= hex[i] <= 0x66 {
          accum := accum + (hex[i] - 0x61 + 10);
        } else if 0x41 <= hex[i] <= 0x46 {
          accum := accum + (hex[i] - 0x41 + 10);
        }
      }
      assert hex[..4] == s[pos + 1..pos + 5];
      var b := EncodeCodepoint(accum);
      if b.None? {
        return false, pos, chars;
      }
      return true, pos + 5, chars + b.value;
    }
    return false, pos, chars;
  }

  /** `parseNumber`: match the number pattern at the cursor and compute the value
      from its groups. */
  method ParseNumber(s: seq<byte>, pos: nat) returns (ok: bool, next: nat, value: Element)
    requires pos <= |s|
    ensures Reports(NumberP(s, pos), pos, ok, next, value)
  {
    var m := Numbers.Lex(s, pos);
    if m.None? {
      return false, pos, Null;
    }
    var (l, p) := m.value;
    Numbers.LexSound(s, pos);
    return true, p, Number(Numbers.Value(l));
  }

  /** `parseBool`: `true`, else `false`. */
  method ParseBool(s: seq<byte>, pos: nat) returns (ok: bool, next: nat, value: Element)
    requires pos <= |s|
    ensures Reports(BoolP(s, pos), pos, ok, next, value)
  {
    ok, next := ParseMatch(s, pos, Ascii("true"));
    if ok {
      return true, next, Bool(true);
    }
    ok, next := ParseMatch(s, pos, Ascii("false"));
    if ok {
      return true, next, Bool(false);
    }
    return false, pos, Null;
  }

  /** `parseNull`. */
  method ParseNull(s: seq<byte>, pos: nat) returns (ok: bool, next: nat, value: Element)
    requires pos <= |s|
    ensures Reports(NullP(s, pos), pos, ok, next, value)
  {
    ok, next := ParseMatch(s, pos, Ascii("null"));
    value := Null;
  }

  /** `decodeJSON` as written: parse an element from the start and return it only
      when the text is NOT used up. */
  method DecodeJSON(text: seq<byte>) returns (r: Option<Element>)
    ensures r == DecodeAsWritten(None, text)
    ensures r.Some? ==> WellFormed(r.value)
  {
    var ok, next, e := ParseElement(text, 0);
    if !ok {
      return None;
    }
    r := if next == |text| then None else Some(e);
  }

  /** The typed decode functions as written (`decodeObject`, `decodeArray`,
      `decodeString`, `decodeNumber`, `decodeBool`, `decodeNull`): ws, the
      production of type `t`, ws, then the same inverted emptiness test; the
      `dynamic_cast` is `As`. */
  method DecodeTyped(t: ElementType, text: seq<byte>) returns (r: Option<Element>)
    ensures r == DecodeAsWritten(Some(t), text)
    ensures r.Some? ==> TypeOf(r.value) == t && WellFormed(r.value)
  {
    var p0 := ParseWS(text, 0);
    var ok, p1, e;
    match t {
      case ObjectType => ok, p1, e := ParseObject(text, p0);
      case ArrayType => ok, p1, e := ParseArray(text, p0);
      case StringType => ok, p1, e := ParseString(text, p0);
      case NumberType => ok, p1, e := ParseNumber(text, p0);
      case BoolType => ok, p1, e := ParseBool(text, p0);
      case NullType => ok, p1, e := ParseNull(text, p0);
    }
    if !ok {
      return None;
    }
    var p2 := ParseWS(text, p1);
    r := if p2 == |text| then None else As(e, t);
  }

  /** The decode functions with the emptiness test the right way round: the node
      is returned only when the whole text was read (`t == None` for
      `decodeJSON`). */
  method Decode(t: Option<ElementType>, text: seq<byte>) returns (r: Option<Element>)
    ensures r == DecodeWhole(t, text)
    ensures r.Some? && t.Some? ==> TypeOf(r.value) == t.value
    ensures r.Some? ==> WellFormed(r.value)
  {
    var ok, next, e;
    match t {
      case None =>
        ok, next, e := ParseElement(text, 0);
      case Some(k) =>
        var p0 := ParseWS(text, 0);
        match k {
          case ObjectType => ok, next, e := ParseObject(text, p0);
          case ArrayType => ok, next, e := ParseArray(text, p0);
          case StringType => ok, next, e := ParseString(text, p0);
          case NumberType => ok, next, e := ParseNumber(text, p0);
          case BoolType => ok, next, e := ParseBool(text, p0);
          case NullType => ok, next, e := ParseNull(text, p0);
        }
        if ok {
          next := ParseWS(text, next);
        }
    }
    if !ok {
      return None;
    }
    r := if next == |text| then Some(e) else None;
  }
}
