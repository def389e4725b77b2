/** Reading back what the renderer writes. `toString()` copies string bytes
    between quotes without escaping and prints numbers through
    `std::to_string`, so only some trees come back: those without Number nodes
    whose strings and keys are well-formed UTF-8 holding neither `"` nor `\`.
    For those the reader returns the very tree the renderer was given. */
module RoundTrip {
  import opened Base
  import opened Utf8
  import opened Elements
  import opened Grammar
  import opened Renderer
  import Numbers

  /** `t` is a sequence of whole UTF-8 encoded codepoints. */
  predicate ValidUtf8(t: seq<byte>)
    decreases |t|
  {
    t == [] || (DecodeCodepoint(t).Some? && ValidUtf8(t[DecodeCodepoint(t).value.1..]))
  }

  /** String text the renderer writes in a form the reader takes back unchanged. */
  predicate PlainText(t: seq<byte>) {
    ValidUtf8(t) && forall i | 0 <= i < |t| :: t[i] != QUOTE && t[i] != BACKSLASH
  }

  /** A tree whose rendering reads back as itself: no Number nodes, plain
      strings and keys, and distinct keys in every Object. */
  predicate Plain(e: Element) {
    match e
    case Object(ms) => DistinctKeys(ms) && forall i | 0 <= i < |ms| :: PlainText(ms[i].key) && Plain(ms[i].value)
    case Array(es) => forall i | 0 <= i < |es| :: Plain(es[i])
    case String(t) => PlainText(t)
    case Number(_) => false
    case Bool(_) => true
    case Null => true
  }

  /** ` v` is written at `p` and ends at `q`. */
  predicate ItemAt(s: seq<byte>, p: nat, v: Element, q: nat, num: real -> seq<byte>) {
    p <= |s| && StartsWith(s, p, [SPACE] + Render(v, num)) && p + 1 + |Render(v, num)| == q
  }

  /** ` "k" : v` is written at `p` and ends at `q`. */
  predicate EntryAt(s: seq<byte>, p: nat, k: seq<byte>, v: Element, q: nat, num: real -> seq<byte>) {
    && p + |k| + 5 <= |s| && s[p] == SPACE && StartsWith(s, p + 1, [QUOTE] + k + [QUOTE])
    && s[p + |k| + 3] == SPACE && s[p + |k| + 4] == COLON && ItemAt(s, p + |k| + 5, v, q, num)
  }

  /** Entries `ms` are written from `p` on, a `,` between two of them, and the
      last is followed by ` }` whose `}` is at `end`. */
  predicate MembersAt(s: seq<byte>, p: nat, ms: seq<Member>, end: nat, num: real -> seq<byte>)
    decreases |ms|
  {
    && |ms| > 0
    && var q := p + |ms[0].key| + 6 + |Render(ms[0].value, num)|;
    && EntryAt(s, p, ms[0].key, ms[0].value, q, num) && q < |s|
    && if |ms| == 1 then s[q] == SPACE && end == q + 1 && end < |s| && s[end] == RBRACE
       else s[q] == COMMA && MembersAt(s, q + 1, ms[1..], end, num)
  }

  /** Items `es` are written from `p` on, a `,` between two of them, and the last
      is followed by ` ]` whose `]` is at `end`. */
  predicate ElementsAt(s: seq<byte>, p: nat, es: seq<Element>, end: nat, num: real -> seq<byte>)
    decreases |es|
  {
    && |es| > 0
    && var q := p + 1 + |Render(es[0], num)|;
    && ItemAt(s, p, es[0], q, num) && q < |s|
    && if |es| == 1 then s[q] == SPACE && end == q + 1 && end < |s| && s[end] == RBRACKET
       else s[q] == COMMA && ElementsAt(s, q + 1, es[1..], end, num)
  }

  /** `lit` sits at offset `i` of `x`, which sits at offset `p` of `s`. */
  lemma {:induction false} Within(s: seq<byte>, p: nat, x: seq<byte>, i: nat, lit: seq<byte>)
    requires p <= |s| && StartsWith(s, p, x)
    requires i + |lit| <= |x| && x[i..i + |lit|] == lit
    ensures StartsWith(s, p + i, lit)
  {
    forall k | 0 <= k < |lit| ensures s[p + i + k] == lit[k] {
      assert x[i + k] == x[i..i + |lit|][k];
    }
  }

  /** A rendered plain node starts with a byte that is neither whitespace nor a
      closing bracket or brace. */
  lemma {:induction false} RenderStart(e: Element, num: real -> seq<byte>)
    requires Plain(e)
    ensures |Render(e, num)| >= 2
    ensures var b := Render(e, num)[0]; !IsWS(b) && b != RBRACE && b != RBRACKET && b != MINUS && !IsDigit(b)
  {
  }

  /** The first codepoint of plain text is neither `"` nor `\`, and it encodes
      back to the bytes it was read from. */
  lemma {:induction false} PlainHead(t: seq<byte>)
    requires PlainText(t) && t != []
    ensures var (cp, n) := DecodeCodepoint(t).value;
      cp != QUOTE as int && cp != BACKSLASH as int && EncodeCodepoint(cp) == Some(t[..n])
  {
    var (cp, n) := DecodeCodepoint(t).value;
    DecodeThenEncode(t);
    if cp < 0x80 {
      assert cp == t[0] as int;
    }
  }

  /** What follows the first codepoint of plain text is plain text. */
  lemma {:induction false} PlainTail(t: seq<byte>)
    requires PlainText(t) && t != []
    ensures PlainText(t[DecodeCodepoint(t).value.1..])
  {
    var t' := t[DecodeCodepoint(t).value.1..];
    forall i | 0 <= i < |t'| ensures t'[i] != QUOTE && t'[i] != BACKSLASH {
      assert t'[i] == t[DecodeCodepoint(t).value.1 + i];
    }
  }

  /** The codepoint read at `pos` is the first one of the text found there. */
  lemma {:induction false} DecodeAt(s: seq<byte>, pos: nat, t: seq<byte>)
    requires DecodeCodepoint(t).Some? && pos <= |s| && StartsWith(s, pos, t)
    ensures DecodeCodepoint(s[pos..]) == DecodeCodepoint(t)
  {
    var n := DecodeCodepoint(t).value.1;
    assert s[pos..pos + |t|] == t;
    assert s[pos..] == t[..n] + s[pos + n..];
    DecodePrefix(t, s[pos + n..]);
  }

  /** The characters production stops at a `"`. */
  lemma {:induction false} CharsEnd(s: seq<byte>, pos: nat, acc: seq<byte>)
    requires pos < |s| && s[pos] == QUOTE
    ensures CharsP(s, pos, acc) == Ok(acc, pos)
  {
    assert s[pos..][0] == QUOTE;
  }

  /** The characters production copies a codepoint that is neither `"` nor `\`. */
  lemma {:induction false} CharsStep(s: seq<byte>, pos: nat, acc: seq<byte>, cp: int, n: nat, b: seq<byte>)
    requires pos < |s| && DecodeCodepoint(s[pos..]) == Some((cp, n))
    requires cp != QUOTE as int && cp != BACKSLASH as int && EncodeCodepoint(cp) == Some(b)
    ensures pos + n <= |s| && CharsP(s, pos, acc) == CharsP(s, pos + n, acc + b)
  {
  }

  /** The characters production reads plain text up to the closing quote. */
  lemma {:induction false} CharsRT(s: seq<byte>, pos: nat, t: seq<byte>, acc: seq<byte>)
    requires PlainText(t) && pos <= |s| && StartsWith(s, pos, t) && pos + |t| < |s| && s[pos + |t|] == QUOTE
    ensures CharsP(s, pos, acc) == Ok(acc + t, pos + |t|)
    decreases |t|
  {
    if t == [] {
      CharsEnd(s, pos, acc);
      assert acc + t == acc;
    } else {
      var (cp, n) := DecodeCodepoint(t).value;
      PlainHead(t);
      PlainTail(t);
      DecodeAt(s, pos, t);
      var head, rest := t[..n], t[n..];
      CharsStep(s, pos, acc, cp, n, head);
      assert |rest| == |t| - n && t[n..n + |rest|] == rest;
      Within(s, pos, t, n, rest);
      CharsRT(s, pos + n, rest, acc + head);
      assert acc + head + rest == acc + t && pos + n + |rest| == pos + |t|;
    }
  }

  // Where the parts of rendered text sit; these lemmas are about bytes only.

  lemma {:induction false} Head(s: seq<byte>, p: nat, x: seq<byte>)
    requires p <= |s| && StartsWith(s, p, x) && |x| > 0
    ensures s[p] == x[0]
  {
  }

  lemma {:induction false} QuotedText(s: seq<byte>, pos: nat, t: seq<byte>)
    requires pos <= |s| && StartsWith(s, pos, [QUOTE] + t + [QUOTE])
    ensures pos + |t| + 2 <= |s| && s[pos] == QUOTE && StartsWith(s, pos + 1, t) && s[pos + 1 + |t|] == QUOTE
  {
    var x := [QUOTE] + t + [QUOTE];
    Head(s, pos, x);
    assert x[1..1 + |t|] == t;
    Within(s, pos, x, 1, t);
    assert x[1 + |t|] == QUOTE;
  }

  lemma {:induction false} SpacedText(s: seq<byte>, pos: nat, x: seq<byte>)
    requires pos <= |s| && StartsWith(s, pos, [SPACE] + x)
    ensures pos + 1 + |x| <= |s| && s[pos] == SPACE && StartsWith(s, pos + 1, x)
  {
    Head(s, pos, [SPACE] + x);
    assert ([SPACE] + x)[1..1 + |x|] == x;
    Within(s, pos, [SPACE] + x, 1, x);
  }

  lemma {:induction false} ObjectText(s: seq<byte>, pos: nat, e: Element, num: real -> seq<byte>) returns (end: nat)
    requires e.Object? && pos <= |s| && StartsWith(s, pos, Render(e, num))
    ensures end == pos + 2 + |MembersText(e, |e.members|, num)| && end < |s| && pos + |Render(e, num)| == end + 1
    ensures s[pos] == LBRACE && StartsWith(s, pos + 1, MembersText(e, |e.members|, num))
    ensures s[end - 1] == SPACE && s[end] == RBRACE
  {
    var body := MembersText(e, |e.members|, num);
    var r := Render(e, num);
    assert r == [LBRACE] + body + [SPACE, RBRACE];
    Head(s, pos, r);
    assert r[1..1 + |body|] == body;
    Within(s, pos, r, 1, body);
    assert r[1 + |body|] == SPACE && r[2 + |body|] == r[|r| - 1];
    end := pos + 2 + |body|;
  }

  lemma {:induction false} ArrayText(s: seq<byte>, pos: nat, e: Element, num: real -> seq<byte>) returns (end: nat)
    requires e.Array? && pos <= |s| && StartsWith(s, pos, Render(e, num))
    ensures end == pos + 2 + |ElementsText(e, |e.elements|, num)| && end < |s| && pos + |Render(e, num)| == end + 1
    ensures s[pos] == LBRACKET && StartsWith(s, pos + 1, ElementsText(e, |e.elements|, num))
    ensures s[end - 1] == SPACE && s[end] == RBRACKET
  {
    var body := ElementsText(e, |e.elements|, num);
    var r := Render(e, num);
    assert r == [LBRACKET] + body + [SPACE, RBRACKET];
    Head(s, pos, r);
    assert r[1..1 + |body|] == body;
    Within(s, pos, r, 1, body);
    assert r[1 + |body|] == SPACE && r[2 + |body|] == r[|r| - 1];
    end := pos + 2 + |body|;
  }

  lemma {:induction false} MembersTextPrefix(e: Element, i: nat, n: nat, num: real -> seq<byte>)
    requires e.Object? && i <= n <= |e.members|
    ensures |MembersText(e, i, num)| <= |MembersText(e, n, num)|
    ensures MembersText(e, n, num)[..|MembersText(e, i, num)|] == MembersText(e, i, num)
    decreases n
  {
    if i < n {
      MembersTextPrefix(e, i, n - 1, num);
      var a := MembersText(e, n - 1, num);
      assert MembersText(e, n, num) == a + Separator(n - 1) + MemberText(e, n - 1, num);
      assert (a + Separator(n - 1) + MemberText(e, n - 1, num))[..|a|] == a;
    }
  }

  lemma {:induction false} ElementsTextPrefix(e: Element, i: nat, n: nat, num: real -> seq<byte>)
    requires e.Array? && i <= n <= |e.elements|
    ensures |ElementsText(e, i, num)| <= |ElementsText(e, n, num)|
    ensures ElementsText(e, n, num)[..|ElementsText(e, i, num)|] == ElementsText(e, i, num)
    decreases n
  {
    if i < n {
      ElementsTextPrefix(e, i, n - 1, num);
      var a := ElementsText(e, n - 1, num);
      var item := [SPACE] + Render(e.elements[n - 1], num);
      assert ElementsText(e, n, num) == a + Separator(n - 1) + item;
      assert (a + Separator(n - 1) + item)[..|a|] == a;
    }
  }

  /** Entry i of a rendered Object sits after the first i entries and a comma,
      and a comma follows it unless it is the last. */
  lemma {:induction false} MemberAt(s: seq<byte>, b: nat, e: Element, i: nat, num: real -> seq<byte>) returns (p: nat, q: nat)
    requires e.Object? && i < |e.members| && b <= |s| && StartsWith(s, b, MembersText(e, |e.members|, num))
    ensures p == b + |MembersText(e, i, num)| + |Separator(i)| && q == b + |MembersText(e, i + 1, num)|
    ensures p + |MemberText(e, i, num)| == q && p <= |s| && StartsWith(s, p, MemberText(e, i, num))
    ensures i + 1 < |e.members| ==> q < |s| && s[q] == COMMA
    ensures i + 1 == |e.members| ==> q == b + |MembersText(e, |e.members|, num)|
  {
    var n := |e.members|;
    var body := MembersText(e, n, num);
    var before := MembersText(e, i, num);
    var upto := MembersText(e, i + 1, num);
    var item := MemberText(e, i, num);
    var a := |before| + |Separator(i)|;
    assert upto == before + Separator(i) + item;
    MembersTextPrefix(e, i + 1, n, num);
    assert body[a..a + |item|] == upto[a..a + |item|] == item;
    Within(s, b, body, a, item);
    if i + 1 < n {
      MemberComma(s, b, e, i, num);
    }
    p := b + a;
    q := b + |upto|;
  }

  /** A comma follows every entry of a rendered Object but the last. */
  lemma {:induction false} MemberComma(s: seq<byte>, b: nat, e: Element, i: nat, num: real -> seq<byte>)
    requires e.Object? && i + 1 < |e.members| && b <= |s| && StartsWith(s, b, MembersText(e, |e.members|, num))
    ensures b + |MembersText(e, i + 1, num)| < |s| && s[b + |MembersText(e, i + 1, num)|] == COMMA
  {
    var body := MembersText(e, |e.members|, num);
    var upto := MembersText(e, i + 1, num);
    MembersTextPrefix(e, i + 2, |e.members|, num);
    var next := MembersText(e, i + 2, num);
    assert next == upto + [COMMA] + MemberText(e, i + 1, num);
    assert body[|upto|] == next[|upto|] == COMMA;
  }

  /** Item i of a rendered Array sits after the first i items and a comma, and a
      comma follows it unless it is the last. */
  lemma {:induction false} ElementAt(s: seq<byte>, b: nat, e: Element, i: nat, num: real -> seq<byte>) returns (p: nat, q: nat)
    requires e.Array? && i < |e.elements| && b <= |s| && StartsWith(s, b, ElementsText(e, |e.elements|, num))
    ensures p == b + |ElementsText(e, i, num)| + |Separator(i)| && q == b + |ElementsText(e, i + 1, num)|
    ensures p + 1 + |Render(e.elements[i], num)| == q && p <= |s| && StartsWith(s, p, [SPACE] + Render(e.elements[i], num))
    ensures i + 1 < |e.elements| ==> q < |s| && s[q] == COMMA
    ensures i + 1 == |e.elements| ==> q == b + |ElementsText(e, |e.elements|, num)|
  {
    var n := |e.elements|;
    var body := ElementsText(e, n, num);
    var before := ElementsText(e, i, num);
    var upto := ElementsText(e, i + 1, num);
    var item := [SPACE] + Render(e.elements[i], num);
    var a := |before| + |Separator(i)|;
    assert upto == before + Separator(i) + item;
    ElementsTextPrefix(e, i + 1, n, num);
    assert body[a..a + |item|] == upto[a..a + |item|] == item;
    Within(s, b, body, a, item);
    if i + 1 < n {
      ElementComma(s, b, e, i, num);
    }
    p := b + a;
    q := b + |upto|;
  }

  /** A comma follows every item of a rendered Array but the last. */
  lemma {:induction false} ElementComma(s: seq<byte>, b: nat, e: Element, i: nat, num: real -> seq<byte>)
    requires e.Array? && i + 1 < |e.elements| && b <= |s| && StartsWith(s, b, ElementsText(e, |e.elements|, num))
    ensures b + |ElementsText(e, i + 1, num)| < |s| && s[b + |ElementsText(e, i + 1, num)|] == COMMA
  {
    var body := ElementsText(e, |e.elements|, num);
    var upto := ElementsText(e, i + 1, num);
    ElementsTextPrefix(e, i + 2, |e.elements|, num);
    var next := ElementsText(e, i + 2, num);
    assert next == upto + [COMMA] + ([SPACE] + Render(e.elements[i + 1], num));
    assert body[|upto|] == next[|upto|] == COMMA;
  }

  /** The pieces of one rendered entry ` "key" : value`. */
  lemma {:induction false} MemberTextParts(s: seq<byte>, p: nat, e: Element, i: nat, num: real -> seq<byte>)
    requires e.Object? && i < |e.members| && p <= |s| && StartsWith(s, p, MemberText(e, i, num))
    ensures var k := e.members[i].key;
      && |MemberText(e, i, num)| == |k| + 6 + |Render(e.members[i].value, num)|
      && p + |MemberText(e, i, num)| <= |s|
      && s[p] == SPACE && StartsWith(s, p + 1, [QUOTE] + k + [QUOTE])
      && s[p + |k| + 3] == SPACE && s[p + |k| + 4] == COLON
      && StartsWith(s, p + |k| + 5, [SPACE] + Render(e.members[i].value, num))
  {
    var k := e.members[i].key;
    var v := Render(e.members[i].value, num);
    var x := MemberText(e, i, num);
    assert Ascii(" : ") == [SPACE, COLON, SPACE];
    assert x == [SPACE] + ([QUOTE] + k + [QUOTE]) + [SPACE, COLON] + ([SPACE] + v);
    Head(s, p, x);
    assert x[1..1 + |k| + 2] == [QUOTE] + k + [QUOTE];
    Within(s, p, x, 1, [QUOTE] + k + [QUOTE]);
    assert x[|k| + 3] == SPACE && x[|k| + 4] == COLON;
    assert x[|k| + 5..|x|] == [SPACE] + v;
    Within(s, p, x, |k| + 5, [SPACE] + v);
  }

  lemma {:induction false} PlainMember(e: Element, i: nat)
    requires e.Object? && Plain(e) && i < |e.members|
    ensures PlainText(e.members[i].key) && Plain(e.members[i].value)
  {
  }

  lemma {:induction false} SkipNone(s: seq<byte>, q: nat)
    requires q < |s| && !IsWS(s[q])
    ensures SkipWS(s, q) == q
  {
  }

  lemma {:induction false} SkipOne(s: seq<byte>, q: nat)
    requires q + 1 < |s| && IsWS(s[q]) && !IsWS(s[q + 1])
    ensures SkipWS(s, q) == q + 1
  {
  }

  lemma {:induction false} TakeNext<T>(xs: seq<T>, i: nat)
    requires i < |xs|
    ensures xs[..i + 1] == xs[..i] + [xs[i]]
  {
  }

  lemma {:induction false} TakeAll<T>(xs: seq<T>, n: nat)
    requires n == |xs|
    ensures xs[..n] == xs && xs[..0] == []
  {
  }

  /** A repeated-key test on the entries before i never fires in a tree with
      distinct keys. */
  lemma {:induction false} NewKey(ms: seq<Member>, i: nat)
    requires DistinctKeys(ms) && i < |ms|
    ensures !HasKey(ms[..i], ms[i].key)
  {
    forall j | 0 <= j < i ensures ms[..i][j].key != ms[i].key {
      assert ms[..i][j] == ms[j];
    }
  }

  // One step of a production, in terms of what its parts return. Stating these
  // on the productions themselves keeps the unfolding out of the lemmas below.

  lemma {:induction false} ElementStep(s: seq<byte>, pos: nat, a: nat)
    requires pos <= |s| && SkipWS(s, pos) == a && ValueP(s, a).Ok?
    ensures ElementP(s, pos) == Ok(ValueP(s, a).value, SkipWS(s, ValueP(s, a).pos))
  {
  }

  lemma {:induction false} MemberStep(s: seq<byte>, p: nat, a: nat, b: nat, c: nat, k: seq<byte>, v: Element, end: nat)
    requires p <= |s| && SkipWS(s, p) == a && StringP(s, a) == Ok(String(k), b) && SkipWS(s, b) == c
    requires c < |s| && s[c] == COLON && end <= |s| && ElementP(s, c + 1) == Ok(v, SkipWS(s, end))
    ensures MemberP(s, p) == Ok(Member(k, v), SkipWS(s, end))
  {
  }

  lemma {:induction false} MembersStep(s: seq<byte>, p: nat, acc: seq<Member>, m: Member, q: nat, acc': seq<Member>)
    requires p <= |s| && MemberP(s, p) == Ok(m, q) && !HasKey(acc, m.key) && acc' == acc + [m]
    ensures q < |s| && s[q] == COMMA ==> MembersLoop(s, p, acc) == MembersLoop(s, q + 1, acc')
    ensures q < |s| && s[q] != COMMA ==> MembersLoop(s, p, acc) == Ok(acc', q)
  {
    if q < |s| {
    }
  }

  lemma {:induction false} ElementsStep(s: seq<byte>, p: nat, acc: seq<Element>, x: Element, q: nat, acc': seq<Element>)
    requires p <= |s| && ElementP(s, p) == Ok(x, q) && acc' == acc + [x]
    ensures q < |s| && s[q] == COMMA ==> ElementsLoop(s, p, acc) == ElementsLoop(s, q + 1, acc')
    ensures q < |s| && s[q] != COMMA ==> ElementsLoop(s, p, acc) == Ok(acc', q)
  {
    if q < |s| {
    }
  }

  lemma {:induction false} EmptyObjectStep(s: seq<byte>, pos: nat, a: nat)
    requires pos < |s| && s[pos] == LBRACE && SkipWS(s, pos + 1) == a && a < |s| && s[a] == RBRACE
    ensures ObjectP(s, pos) == Ok(Object([]), a + 1)
  {
  }

  lemma {:induction false} ObjectStep(s: seq<byte>, pos: nat, a: nat)
    requires pos < |s| && s[pos] == LBRACE && SkipWS(s, pos + 1) == a && a < |s| && s[a] != RBRACE
    requires MembersLoop(s, pos + 1, []).Ok? && |MembersLoop(s, pos + 1, []).value| > 0
    requires MembersLoop(s, pos + 1, []).pos < |s| && s[MembersLoop(s, pos + 1, []).pos] == RBRACE
    ensures ObjectP(s, pos) == Ok(Object(MembersLoop(s, pos + 1, []).value), MembersLoop(s, pos + 1, []).pos + 1)
  {
  }

  lemma {:induction false} EmptyArrayStep(s: seq<byte>, pos: nat, a: nat)
    requires pos < |s| && s[pos] == LBRACKET && SkipWS(s, pos + 1) == a && a < |s| && s[a] == RBRACKET
    ensures ArrayP(s, pos) == Ok(Array([]), a + 1)
  {
  }

  lemma {:induction false} ArrayStep(s: seq<byte>, pos: nat, a: nat)
    requires pos < |s| && s[pos] == LBRACKET && SkipWS(s, pos + 1) == a && a < |s| && s[a] != RBRACKET
    requires ElementsLoop(s, pos + 1, []).Ok? && |ElementsLoop(s, pos + 1, []).value| > 0
    requires ElementsLoop(s, pos + 1, []).pos < |s| && s[ElementsLoop(s, pos + 1, []).pos] == RBRACKET
    ensures ArrayP(s, pos) == Ok(Array(ElementsLoop(s, pos + 1, []).value), ElementsLoop(s, pos + 1, []).pos + 1)
  {
  }

  // The productions on rendered text.

  /** The string production reads a plain string written between quotes. */
  lemma {:induction false} StringRT(s: seq<byte>, pos: nat, t: seq<byte>)
    requires PlainText(t) && pos <= |s| && StartsWith(s, pos, [QUOTE] + t + [QUOTE])
    ensures StringP(s, pos) == Ok(String(t), pos + |t| + 2)
  {
    QuotedText(s, pos, t);
    CharsRT(s, pos + 1, t, []);
    assert [] + t == t;
  }

  lemma {:induction false} NotObject(s: seq<byte>, pos: nat)
    requires pos < |s| && s[pos] != LBRACE
    ensures ObjectP(s, pos).Fail?
  {
  }

  lemma {:induction false} NotArray(s: seq<byte>, pos: nat)
    requires pos < |s| && s[pos] != LBRACKET
    ensures ArrayP(s, pos).Fail?
  {
  }

  lemma {:induction false} NotString(s: seq<byte>, pos: nat)
    requires pos < |s| && s[pos] != QUOTE
    ensures StringP(s, pos).Fail?
  {
  }

  lemma {:induction false} NotNumber(s: seq<byte>, pos: nat)
    requires pos < |s| && s[pos] != MINUS && !IsDigit(s[pos])
    ensures NumberP(s, pos).Fail?
  {
    Numbers.LexFails(s, pos);
  }

  /** The literals read back as themselves. */
  lemma {:induction false} LiteralRT(s: seq<byte>, pos: nat, e: Element, num: real -> seq<byte>)
    requires (e.Bool? || e.Null?) && pos <= |s| && StartsWith(s, pos, Render(e, num))
    ensures e.Bool? ==> BoolP(s, pos) == Ok(e, pos + |Render(e, num)|)
    ensures e.Null? ==> NullP(s, pos) == Ok(e, pos + |Render(e, num)|) && BoolP(s, pos).Fail?
  {
    Head(s, pos, Render(e, num));
    if StartsWith(s, pos, Ascii("true")) {
      Head(s, pos, Ascii("true"));
    }
    if StartsWith(s, pos, Ascii("false")) {
      Head(s, pos, Ascii("false"));
    }
  }

  /** The value production reads a rendered plain node back, and stops right
      after it. */
  lemma {:induction false} ValueRT(s: seq<byte>, pos: nat, e: Element, num: real -> seq<byte>)
    requires Plain(e) && pos <= |s| && StartsWith(s, pos, Render(e, num))
    ensures ValueP(s, pos) == Ok(e, pos + |Render(e, num)|)
    decreases e, 2, 0, 0
  {
    RenderStart(e, num);
    Head(s, pos, Render(e, num));
    match e
    case Object(_) =>
      ObjectRT(s, pos, e, num);
    case Array(_) =>
      NotObject(s, pos);
      ArrayRT(s, pos, e, num);
    case String(t) =>
      NotObject(s, pos);
      NotArray(s, pos);
      StringRT(s, pos, t);
    case Bool(_) =>
      NotObject(s, pos);
      NotArray(s, pos);
      NotString(s, pos);
      NotNumber(s, pos);
      LiteralRT(s, pos, e, num);
    case Null =>
      NotObject(s, pos);
      NotArray(s, pos);
      NotString(s, pos);
      NotNumber(s, pos);
      LiteralRT(s, pos, e, num);
  }

  /** The element production reads ` value` and the whitespace after it. */
  lemma {:induction false} ElementRT(s: seq<byte>, pos: nat, e: Element, end: nat, num: real -> seq<byte>)
    requires Plain(e) && ItemAt(s, pos, e, end, num)
    ensures end <= |s| && ElementP(s, pos) == Ok(e, SkipWS(s, end))
    decreases e, 2, 1, 0
  {
    SpacedText(s, pos, Render(e, num));
    RenderStart(e, num);
    Head(s, pos + 1, Render(e, num));
    SkipOne(s, pos);
    ValueRT(s, pos + 1, e, num);
    ElementStep(s, pos, pos + 1);
  }

  /** The member production reads one rendered entry ` "key" : value` that ends
      at `end`. */
  lemma {:induction false} MemberRT(s: seq<byte>, p: nat, k: seq<byte>, v: Element, end: nat, num: real -> seq<byte>)
    requires PlainText(k) && Plain(v) && EntryAt(s, p, k, v, end, num)
    ensures end <= |s| && MemberP(s, p) == Ok(Member(k, v), SkipWS(s, end))
    decreases v, 3, 0, 0
  {
    var a := p + 1;
    var b := a + |k| + 2;
    var c := b + 1;
    assert b == p + |k| + 3 && c == p + |k| + 4 && c + 1 == p + |k| + 5;
    QuotedText(s, a, k);
    SkipOne(s, p);
    StringRT(s, a, k);
    SkipOne(s, b);
    ElementRT(s, c + 1, v, end, num);
    MemberStep(s, p, a, b, c, k, v, end);
  }

  /** Where entry i of a rendered Object and its parts sit, and what follows it. */
  lemma {:induction false} MemberPlace(s: seq<byte>, pos: nat, e: Element, i: nat, num: real -> seq<byte>) returns (p: nat, q: nat)
    requires e.Object? && pos <= |s| && StartsWith(s, pos, Render(e, num)) && i < |e.members|
    ensures p == pos + 1 + |MembersText(e, i, num)| + |Separator(i)|
    ensures EntryAt(s, p, e.members[i].key, e.members[i].value, q, num)
    ensures i + 1 < |e.members| ==> q < |s| && s[q] == COMMA && q + 1 == pos + 1 + |MembersText(e, i + 1, num)| + |Separator(i + 1)|
    ensures i + 1 == |e.members| ==> q + 1 < |s| && s[q] == SPACE && s[q + 1] == RBRACE && q + 1 == pos + 2 + |MembersText(e, |e.members|, num)|
  {
    var close := ObjectText(s, pos, e, num);
    var q0;
    p, q0 := MemberAt(s, pos + 1, e, i, num);
    MemberTextParts(s, p, e, i, num);
    q := q0;
    if i + 1 < |e.members| {
      assert Separator(i + 1) == [COMMA];
    } else {
      assert q + 1 == close;
    }
  }

  /** The layout of the entries of a rendered Object from entry i on. */
  lemma {:induction false} MembersLayout(s: seq<byte>, pos: nat, e: Element, i: nat, num: real -> seq<byte>)
    requires e.Object? && pos <= |s| && StartsWith(s, pos, Render(e, num)) && i < |e.members|
    ensures MembersAt(s, pos + 1 + |MembersText(e, i, num)| + |Separator(i)|, e.members[i..], pos + 2 + |MembersText(e, |e.members|, num)|, num)
    decreases |e.members| - i
  {
    var ms := e.members;
    var p, q := MemberPlace(s, pos, e, i, num);
    assert ms[i..][0] == ms[i];
    if i + 1 < |ms| {
      MembersLayout(s, pos, e, i + 1, num);
      assert ms[i..][1..] == ms[i + 1..];
    }
  }

  /** The first entry of the layout and what follows it. */
  lemma {:induction false} MembersAtHead(s: seq<byte>, p: nat, ms: seq<Member>, end: nat, num: real -> seq<byte>) returns (q: nat)
    requires MembersAt(s, p, ms, end, num)
    ensures q == p + |ms[0].key| + 6 + |Render(ms[0].value, num)|
    ensures EntryAt(s, p, ms[0].key, ms[0].value, q, num) && q < |s|
    ensures |ms| == 1 ==> s[q] == SPACE && end == q + 1 && end < |s| && s[end] == RBRACE
    ensures |ms| > 1 ==> s[q] == COMMA && MembersAt(s, q + 1, ms[1..], end, num)
  {
    q := p + |ms[0].key| + 6 + |Render(ms[0].value, num)|;
  }

  /** Entry i, which starts at `p`, is read by one round of the members loop;
      the round either hands over to the next entry or, after the last one,
      stops on the closing `}` at `end`. */
  lemma {:induction false} MembersEntry(s: seq<byte>, e: Element, i: nat, p: nat, end: nat, num: real -> seq<byte>) returns (q: nat)
    requires e.Object? && Plain(e) && i < |e.members| && MembersAt(s, p, e.members[i..], end, num)
    ensures p <= |s|
    ensures i + 1 < |e.members| ==> q < |s| && MembersAt(s, q + 1, e.members[i + 1..], end, num)
    ensures i + 1 < |e.members| ==> MembersLoop(s, p, e.members[..i]) == MembersLoop(s, q + 1, e.members[..i + 1])
    ensures i + 1 == |e.members| ==> MembersLoop(s, p, e.members[..i]) == Ok(e.members, end)
    decreases e, 0, |e.members| - i, 0
  {
    var ms := e.members;
    var k, v := ms[i].key, ms[i].value;
    assert ms[i..][0] == ms[i] == Member(k, v);
    PlainMember(e, i);
    var q0 := MembersAtHead(s, p, ms[i..], end, num);
    MemberRT(s, p, k, v, q0, num);
    if i + 1 < |ms| {
      SkipNone(s, q0);
      q := q0;
      assert ms[i..][1..] == ms[i + 1..];
    } else {
      SkipOne(s, q0);
      q := q0 + 1;
      TakeAll(ms, i + 1);
    }
    NewKey(ms, i);
    TakeNext(ms, i);
    MembersStep(s, p, ms[..i], ms[i], q, ms[..i + 1]);
  }

  /** From entry i, which starts at `p`, the members loop reads the remaining
      entries and stops on the closing `}` at `end`. */
  lemma {:induction false} MembersLoopRT(s: seq<byte>, e: Element, i: nat, p: nat, end: nat, num: real -> seq<byte>)
    requires e.Object? && Plain(e) && i < |e.members| && MembersAt(s, p, e.members[i..], end, num)
    ensures p <= |s| && MembersLoop(s, p, e.members[..i]) == Ok(e.members, end)
    decreases e, 0, |e.members| - i, 1
  {
    var q := MembersEntry(s, e, i, p, end, num);
    if i + 1 < |e.members| {
      MembersLoopRT(s, e, i + 1, q + 1, end, num);
    }
  }

  /** What a rendered Object looks like to the object production: `{`, a space,
      then `}` or the entries, and the closing `}` at `end`. */
  lemma {:induction false} ObjectShape(s: seq<byte>, pos: nat, e: Element, num: real -> seq<byte>) returns (end: nat)
    requires e.Object? && pos <= |s| && StartsWith(s, pos, Render(e, num))
    ensures pos + |Render(e, num)| == end + 1 && end < |s| && s[end] == RBRACE
    ensures pos + 2 < |s| && s[pos] == LBRACE && s[pos + 1] == SPACE && !IsWS(s[pos + 2])
    ensures e.members == [] ==> s[pos + 2] == RBRACE && end == pos + 2
    ensures e.members != [] ==> s[pos + 2] != RBRACE && MembersAt(s, pos + 1, e.members, end, num)
  {
    var ms := e.members;
    end := ObjectText(s, pos, e, num);
    if ms != [] {
      MembersLayout(s, pos, e, 0, num);
      assert MembersText(e, 0, num) == [] && Separator(0) == [] && ms[0..] == ms;
      var q := MembersAtHead(s, pos + 1, ms, end, num);
      QuotedText(s, pos + 2, ms[0].key);
    }
  }

  /** The object production reads the entries laid out after `{ `. */
  lemma {:induction false} ObjectRead(s: seq<byte>, pos: nat, e: Element, end: nat, num: real -> seq<byte>)
    requires e.Object? && Plain(e) && end < |s| && s[end] == RBRACE
    requires pos + 2 < |s| && s[pos] == LBRACE && s[pos + 1] == SPACE && !IsWS(s[pos + 2])
    requires e.members == [] ==> s[pos + 2] == RBRACE && end == pos + 2
    requires e.members != [] ==> s[pos + 2] != RBRACE && MembersAt(s, pos + 1, e.members, end, num)
    ensures ObjectP(s, pos) == Ok(e, end + 1)
    decreases e, 0, |e.members| + 1, 0
  {
    var ms := e.members;
    assert e == Object(ms);
    SkipOne(s, pos + 1);
    if ms == [] {
      EmptyObjectStep(s, pos, pos + 2);
    } else {
      assert ms[0..] == ms;
      MembersLoopRT(s, e, 0, pos + 1, end, num);
      TakeAll(ms, |ms|);
      ObjectStep(s, pos, pos + 2);
    }
  }

  /** The object production reads a rendered plain Object back. */
  lemma {:induction false} ObjectRT(s: seq<byte>, pos: nat, e: Element, num: real -> seq<byte>)
    requires e.Object? && Plain(e) && pos <= |s| && StartsWith(s, pos, Render(e, num))
    ensures ObjectP(s, pos) == Ok(e, pos + |Render(e, num)|)
    decreases e, 1, 0, 0
  {
    var end := ObjectShape(s, pos, e, num);
    ObjectRead(s, pos, e, end, num);
  }


  /** Where item i of a rendered Array sits, and what follows it. */
  lemma {:induction false} ElementPlace(s: seq<byte>, pos: nat, e: Element, i: nat, num: real -> seq<byte>) returns (p: nat, q: nat)
    requires e.Array? && pos <= |s| && StartsWith(s, pos, Render(e, num)) && i < |e.elements|
    ensures p == pos + 1 + |ElementsText(e, i, num)| + |Separator(i)|
    ensures ItemAt(s, p, e.elements[i], q, num)
    ensures i + 1 < |e.elements| ==> q < |s| && s[q] == COMMA && q + 1 == pos + 1 + |ElementsText(e, i + 1, num)| + |Separator(i + 1)|
    ensures i + 1 == |e.elements| ==> q + 1 < |s| && s[q] == SPACE && s[q + 1] == RBRACKET && q + 1 == pos + 2 + |ElementsText(e, |e.elements|, num)|
  {
    var close := ArrayText(s, pos, e, num);
    p, q := ElementAt(s, pos + 1, e, i, num);
    if i + 1 < |e.elements| {
      assert Separator(i + 1) == [COMMA];
    } else {
      assert q + 1 == close;
    }
  }

  /** The layout of the items of a rendered Array from item i on. */
  lemma {:induction false} ElementsLayout(s: seq<byte>, pos: nat, e: Element, i: nat, num: real -> seq<byte>)
    requires e.Array? && pos <= |s| && StartsWith(s, pos, Render(e, num)) && i < |e.elements|
    ensures ElementsAt(s, pos + 1 + |ElementsText(e, i, num)| + |Separator(i)|, e.elements[i..], pos + 2 + |ElementsText(e, |e.elements|, num)|, num)
    decreases |e.elements| - i
  {
    var es := e.elements;
    var p, q := ElementPlace(s, pos, e, i, num);
    assert es[i..][0] == es[i];
    if i + 1 < |es| {
      ElementsLayout(s, pos, e, i + 1, num);
      assert es[i..][1..] == es[i + 1..];
    }
  }

  /** The first item of the layout and what follows it. */
  lemma {:induction false} ElementsAtHead(s: seq<byte>, p: nat, es: seq<Element>, end: nat, num: real -> seq<byte>) returns (q: nat)
    requires ElementsAt(s, p, es, end, num)
    ensures q == p + 1 + |Render(es[0], num)|
    ensures ItemAt(s, p, es[0], q, num) && q < |s|
    ensures |es| == 1 ==> s[q] == SPACE && end == q + 1 && end < |s| && s[end] == RBRACKET
    ensures |es| > 1 ==> s[q] == COMMA && ElementsAt(s, q + 1, es[1..], end, num)
  {
    q := p + 1 + |Render(es[0], num)|;
  }

  /** Item i, which starts at `p`, is read by one round of the elements loop;
      the round either hands over to the next item or, after the last one,
      stops on the closing `]` at `end`. */
  lemma {:induction false} ElementsEntry(s: seq<byte>, e: Element, i: nat, p: nat, end: nat, num: real -> seq<byte>) returns (q: nat)
    requires e.Array? && Plain(e) && i < |e.elements| && ElementsAt(s, p, e.elements[i..], end, num)
    ensures p <= |s|
    ensures i + 1 < |e.elements| ==> q < |s| && ElementsAt(s, q + 1, e.elements[i + 1..], end, num)
    ensures i + 1 < |e.elements| ==> ElementsLoop(s, p, e.elements[..i]) == ElementsLoop(s, q + 1, e.elements[..i + 1])
    ensures i + 1 == |e.elements| ==> ElementsLoop(s, p, e.elements[..i]) == Ok(e.elements, end)
    decreases e, 0, |e.elements| - i, 0
  {
    var es := e.elements;
    assert es[i..][0] == es[i];
    var q0 := ElementsAtHead(s, p, es[i..], end, num);
    ElementRT(s, p, es[i], q0, num);
    if i + 1 < |es| {
      SkipNone(s, q0);
      q := q0;
      assert es[i..][1..] == es[i + 1..];
    } else {
      SkipOne(s, q0);
      q := q0 + 1;
      TakeAll(es, i + 1);
    }
    TakeNext(es, i);
    ElementsStep(s, p, es[..i], es[i], q, es[..i + 1]);
  }

  /** From item i, which starts at `p`, the elements loop reads the remaining
      items and stops on the closing `]` at `end`. */
  lemma {:induction false} ElementsLoopRT(s: seq<byte>, e: Element, i: nat, p: nat, end: nat, num: real -> seq<byte>)
    requires e.Array? && Plain(e) && i < |e.elements| && ElementsAt(s, p, e.elements[i..], end, num)
    ensures p <= |s| && ElementsLoop(s, p, e.elements[..i]) == Ok(e.elements, end)
    decreases e, 0, |e.elements| - i, 1
  {
    var q := ElementsEntry(s, e, i, p, end, num);
    if i + 1 < |e.elements| {
      ElementsLoopRT(s, e, i + 1, q + 1, end, num);
    }
  }

  /** What a rendered Array looks like to the array production: `[`, a space,
      then `]` or the items, and the closing `]` at `end`. */
  lemma {:induction false} ArrayShape(s: seq<byte>, pos: nat, e: Element, num: real -> seq<byte>) returns (end: nat)
    requires e.Array? && Plain(e) && pos <= |s| && StartsWith(s, pos, Render(e, num))
    ensures pos + |Render(e, num)| == end + 1 && end < |s| && s[end] == RBRACKET
    ensures pos + 2 < |s| && s[pos] == LBRACKET && s[pos + 1] == SPACE && !IsWS(s[pos + 2])
    ensures e.elements == [] ==> s[pos + 2] == RBRACKET && end == pos + 2
    ensures e.elements != [] ==> s[pos + 2] != RBRACKET && ElementsAt(s, pos + 1, e.elements, end, num)
  {
    var es := e.elements;
    end := ArrayText(s, pos, e, num);
    if es != [] {
      ElementsLayout(s, pos, e, 0, num);
      assert ElementsText(e, 0, num) == [] && Separator(0) == [] && es[0..] == es;
      var q := ElementsAtHead(s, pos + 1, es, end, num);
      SpacedText(s, pos + 1, Render(es[0], num));
      RenderStart(es[0], num);
      Head(s, pos + 2, Render(es[0], num));
    }
  }

  /** The array production reads the items laid out after `[ `. */
  lemma {:induction false} ArrayRead(s: seq<byte>, pos: nat, e: Element, end: nat, num: real -> seq<byte>)
    requires e.Array? && Plain(e) && end < |s| && s[end] == RBRACKET
    requires pos + 2 < |s| && s[pos] == LBRACKET && s[pos + 1] == SPACE && !IsWS(s[pos + 2])
    requires e.elements == [] ==> s[pos + 2] == RBRACKET && end == pos + 2
    requires e.elements != [] ==> s[pos + 2] != RBRACKET && ElementsAt(s, pos + 1, e.elements, end, num)
    ensures ArrayP(s, pos) == Ok(e, end + 1)
    decreases e, 0, |e.elements| + 1, 0
  {
    var es := e.elements;
    assert e == Array(es);
    SkipOne(s, pos + 1);
    if es == [] {
      EmptyArrayStep(s, pos, pos + 2);
    } else {
      assert es[0..] == es;
      ElementsLoopRT(s, e, 0, pos + 1, end, num);
      TakeAll(es, |es|);
      ArrayStep(s, pos, pos + 2);
    }
  }

  /** The array production reads a rendered plain Array back. */
  lemma {:induction false} ArrayRT(s: seq<byte>, pos: nat, e: Element, num: real -> seq<byte>)
    requires e.Array? && Plain(e) && pos <= |s| && StartsWith(s, pos, Render(e, num))
    ensures ArrayP(s, pos) == Ok(e, pos + |Render(e, num)|)
    decreases e, 1, 0, 0
  {
    var end := ArrayShape(s, pos, e, num);
    ArrayRead(s, pos, e, end, num);
  }

  // The decode functions on rendered text.

  /** `decodeJSON` of the text the renderer writes for a plain tree: read in full,
      it gives the tree back; as written (the inverted emptiness test) it returns
      nothing, since the element production uses up the whole text. */
  lemma {:induction false} DecodeRendered(e: Element, num: real -> seq<byte>)
    requires Plain(e)
    ensures DecodeWhole(None, Render(e, num)) == Some(e)
    ensures DecodeAsWritten(None, Render(e, num)) == None
  {
    var s := Render(e, num);
    RenderStart(e, num);
    SkipNone(s, 0);
    ValueRT(s, 0, e, num);
    ElementStep(s, 0, 0);
  }

  /** The typed decode function of the tree's own type, on its rendering: the
      same two outcomes. */
  lemma {:induction false} DecodeTypedRendered(e: Element, num: real -> seq<byte>)
    requires Plain(e)
    ensures DecodeWhole(Some(TypeOf(e)), Render(e, num)) == Some(e)
    ensures DecodeAsWritten(Some(TypeOf(e)), Render(e, num)) == None
  {
    var s := Render(e, num);
    RenderStart(e, num);
    SkipNone(s, 0);
    match e
    case Object(_) => ObjectRT(s, 0, e, num);
    case Array(_) => ArrayRT(s, 0, e, num);
    case String(t) => StringRT(s, 0, t);
    case Bool(_) => LiteralRT(s, 0, e, num);
    case Null => LiteralRT(s, 0, e, num);
  }
}
