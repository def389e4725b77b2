/** The text renderer: `toString()` of every node (src/softloq-json/element.cpp and
    the inline leaf renderers of include/softloq-json/element.hpp). Strings and keys
    are copied between quotes without escaping. `Number::toString` is
    `std::to_string(float)`, whose formatting is not modelled: it is the parameter
    `num` of every function and method here. */
module Renderer {
  import opened Base
  import opened Elements

  /** The text of one node. */
  function Render(e: Element, num: real -> seq<byte>): seq<byte>
    decreases e, 1, 0
  {
    match e
    case Object(ms) => [LBRACE] + MembersText(e, |ms|, num) + [SPACE, RBRACE]
    case Array(es) => [LBRACKET] + ElementsText(e, |es|, num) + [SPACE, RBRACKET]
    case String(t) => [QUOTE] + t + [QUOTE]
    case Number(v) => num(v)
    case Bool(b) => if b then Ascii("true") else Ascii("false")
    case Null => Ascii("null")
  }

  /** A comma before every item but the first. */
  function Separator(i: nat): seq<byte> {
    if i > 0 then [COMMA] else []
  }

  /** ` "key" : value` for the i-th entry. */
  function MemberText(e: Element, i: nat, num: real -> seq<byte>): seq<byte>
    requires e.Object? && i < |e.members|
    decreases e, 0, 0
  {
    [SPACE] + [QUOTE] + e.members[i].key + [QUOTE] + Ascii(" : ") + Render(e.members[i].value, num)
  }

  /** The text of the first k entries of Object `e`, separators included. */
  function MembersText(e: Element, k: nat, num: real -> seq<byte>): seq<byte>
    requires e.Object? && k <= |e.members|
    decreases e, 0, k + 1
  {
    if k == 0 then [] else MembersText(e, k - 1, num) + Separator(k - 1) + MemberText(e, k - 1, num)
  }

  /** The text of the first k items of Array `e`, separators included. */
  function ElementsText(e: Element, k: nat, num: real -> seq<byte>): seq<byte>
    requires e.Array? && k <= |e.elements|
    decreases e, 0, k
  {
    if k == 0 then [] else ElementsText(e, k - 1, num) + Separator(k - 1) + ([SPACE] + Render(e.elements[k - 1], num))
  }

  /** A container is written between its brackets, with ` ` before the closing
      one, and a string between quotes around its bytes as they are. */
  lemma RenderShape(e: Element, num: real -> seq<byte>)
    ensures var r := Render(e, num);
      && (e.Object? ==> |r| >= 3 && r[0] == LBRACE && r[|r| - 2..] == [SPACE, RBRACE])
      && (e.Array? ==> |r| >= 3 && r[0] == LBRACKET && r[|r| - 2..] == [SPACE, RBRACKET])
      && (e.String? ==> |r| == |e.text| + 2 && r[0] == QUOTE && r[1..|r| - 1] == e.text && r[|r| - 1] == QUOTE)
  {
  }

  /** `toString()` dispatched on the dynamic type. */
  method ToString(e: Element, num: real -> seq<byte>) returns (text: seq<byte>)
    ensures text == Render(e, num)
    decreases e, 1
  {
    match e
    case Object(_) => text := ObjectToString(e, num);
    case Array(_) => text := ArrayToString(e, num);
    case String(t) => text := [QUOTE] + t + [QUOTE];
    case Number(v) => text := num(v);
    case Bool(b) => text := if b then Ascii("true") else Ascii("false");
    case Null => text := Ascii("null");
  }

  /** `Object::toString`: `{`, then ` "key" : value` per entry with a comma before
      every entry but the first, then ` }`. */
  method ObjectToString(e: Element, num: real -> seq<byte>) returns (text: seq<byte>)
    requires e.Object?
    ensures text == Render(e, num)
    ensures e.members == [] ==> text == Ascii("{ }")
    decreases e, 0
  {
    var ms := e.members;
    text := [LBRACE];
    var i := 0;
    while i < |ms|
      invariant 0 <= i <= |ms|
      invariant text == [LBRACE] + MembersText(e, i, num)
      invariant |text| > 1 <==> i > 0
    {
      ghost var prev := text;
      if |text| > 1 {
        text := text + [COMMA];
      }
      var child := ToString(ms[i].value, num);
      text := text + ([SPACE] + [QUOTE] + ms[i].key + [QUOTE] + Ascii(" : ") + child);
      assert text == prev + Separator(i) + MemberText(e, i, num);
      i := i + 1;
    }
    text := text + [SPACE, RBRACE];
  }

  /** `Array::toString`: `[`, then ` value` per item in order with a comma before
      every item but the first, then ` ]`. */
  method ArrayToString(e: Element, num: real -> seq<byte>) returns (text: seq<byte>)
    requires e.Array?
    ensures text == Render(e, num)
    ensures e.elements == [] ==> text == Ascii("[ ]")
    decreases e, 0
  {
    var es := e.elements;
    text := [LBRACKET];
    var i := 0;
    while i < |es|
      invariant 0 <= i <= |es|
      invariant text == [LBRACKET] + ElementsText(e, i, num)
      invariant |text| > 1 <==> i > 0
    {
      ghost var prev := text;
      if |text| > 1 {
        text := text + [COMMA];
      }
      var child := ToString(es[i], num);
      text := text + ([SPACE] + child);
      assert text == prev + Separator(i) + ([SPACE] + Render(es[i], num));
      i := i + 1;
    }
    text := text + [SPACE, RBRACKET];
  }
}
