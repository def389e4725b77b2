# softloq-json reader and renderer in Dafny

softloq-json is a small C++ JSON library. Its `Decoder` reads JSON text into a
tree of `Element` nodes by recursive descent. Each of its productions moves a
cursor (`std::string_view &json_segment`) forward on success and puts it back on
failure. Every node renders itself back to text with `toString()`.

This project models three parts of the library:

- the node tree: `Elements`, element.dfy;
- the renderer: `Renderer`, render.dfy;
- the reader, in two forms:
  - `Grammar`, grammar.dfy, gives each production as a pure function of the input bytes and the cursor;
  - `Decoder`, decoder.dfy, gives each production as a method, as the library writes it, proved to compute exactly that function and to restore the cursor on failure.

The number pattern of `parseNumber` is hand-written as a lexer in `Numbers`
(number.dfy). The UTF-8 conversions the reader takes from the softloq-unicode
library are in `Utf8` (utf8.dfy).

The reader is modelled as written, including where it differs from RFC 8259.
Each such place has a lemma with an input that shows it:

- A trailing comma is taken when the closing bracket or brace follows it at once: `[null,]` and `{"a":null,}` are read, but `[null, ]` and `{"a":null, }` are refused.
  - `Samples.TrailingCommaArray`, `Samples.TrailingCommaObject`.
  - `Samples.TrailingCommaSpaceArray`, `Samples.TrailingCommaSpaceObject`.
  - `Properties.ElementsTrailingComma`, `Properties.MembersTrailingComma`.
- A fraction may not start with `0` unless it is `0` alone, so of `1.05` only `1.0` is read. See `Samples.NumberLeadingZero`.
- Raw control bytes are taken inside strings.
  - `Samples.RawControlByte`, `Properties.RawByteTaken`.
- `\u` escapes are never paired into surrogates, and an escaped surrogate half is refused.
  - `Properties.EscapeBmp`, `Properties.EscapedSurrogateFails`, `Samples.EscapeSurrogate`.
- A repeated key makes the whole Object fail. See `Samples.RepeatedKey` and `Properties.ObjectDistinct`.
- The renderer copies strings and keys between quotes without escaping them, so a string holding `"` does not read back. See `Samples.QuoteNotReadBack`.

Two places look like plain defects; they are listed under Findings.

- `parseWS` never returns on a byte that is not whitespace. The rest of the model uses the whitespace skip it is evidently meant to be.
- The `decode*` functions test for left-over text the wrong way round.

The main result is a round trip, `RoundTrip.DecodeRendered`. Take any tree without Number nodes whose strings and keys are well-formed UTF-8 with no `"` or `\`, and whose every Object has distinct keys. The reader gives back exactly the tree the renderer was given, as long as the emptiness test is the right way round. With the test as written, the same text is refused.

## Model

| member | source | states |
|---|---|---|
| Decoder.ParseMatch | src/softloq-json/decoder.cpp:8-16 | succeeds exactly when the text at the cursor starts with the literal; then the cursor moves by the literal's length, otherwise it is unchanged |
| Decoder.ParseWSAsWritten | src/softloq-json/decoder.cpp:336-349 | the loop as written returns exactly when only whitespace remains, and then the cursor is at the end of the text; otherwise it spins at the first byte that is not whitespace |
| Decoder.ParseWS | src/softloq-json/decoder.cpp:336-349 | the corrected loop stops at the end of the maximal whitespace run (`Grammar.SkipWS`) |
| Grammar.SkipWS | src/softloq-json/decoder.cpp:336-349 | the whitespace skip stays in the text and stops only at the end or at a byte that is not one of the four whitespace bytes |
| Grammar.SkipWSAllWS | src/softloq-json/decoder.cpp:341-345 | every byte the whitespace skip passes over is 0x20, 0x0A, 0x0D or 0x09 |
| Decoder.ParseValue | src/softloq-json/decoder.cpp:75-78 | computes the value production: object, array, string, number, bool, null tried in that order; cursor unchanged on failure |
| Grammar.ValueP | src/softloq-json/decoder.cpp:75-78 | a matched value consumes at least one byte and stays in the text |
| Decoder.ParseObject | src/softloq-json/decoder.cpp:79-95 | computes the object production (`{` ws `}` or `{` members `}`); cursor restored on failure |
| Grammar.ObjectP | src/softloq-json/decoder.cpp:79-95 | a matched object is an Object and consumes at least its two braces |
| Decoder.ParseMembers | src/softloq-json/decoder.cpp:96-120 | the member loop computes the members production: members separated by commas, failure with the cursor restored on a repeated key or when no member was read |
| Grammar.MembersP | src/softloq-json/decoder.cpp:96-120 | a successful members production has at least one entry and moves the cursor |
| Grammar.MembersLoop | src/softloq-json/decoder.cpp:103-114 | the loop never moves the cursor back, and moves it whenever it adds an entry |
| Grammar.MembersLoopDistinct | src/softloq-json/decoder.cpp:105-111 | a loop started with distinct keys ends, when it succeeds, with distinct keys |
| Properties.ObjectDistinct | src/softloq-json/decoder.cpp:103-119 | an Object returned by the object production never holds the same key twice, and neither does any Object nested inside it |
| Grammar.ValueWellFormed | src/softloq-json/decoder.cpp:75-78 | every node the value production returns has distinct keys in every Object at any depth |
| Grammar.ObjectWellFormed | src/softloq-json/decoder.cpp:79-95 | an Object the object production returns has distinct keys, and so does every Object nested in it |
| Grammar.MembersLoopWellFormed | src/softloq-json/decoder.cpp:103-114 | the members loop adds only values with distinct keys in every nested Object |
| Grammar.MemberWellFormed | src/softloq-json/decoder.cpp:121-130 | the value of a member has distinct keys in every nested Object |
| Grammar.ArrayWellFormed | src/softloq-json/decoder.cpp:131-147 | every Object nested in an Array the array production returns has distinct keys |
| Grammar.ElementsLoopWellFormed | src/softloq-json/decoder.cpp:154-159 | the elements loop adds only items with distinct keys in every nested Object |
| Grammar.ElementWellFormed | src/softloq-json/decoder.cpp:166-175 | the element production returns a node with distinct keys in every nested Object |
| Elements.AppendDistinct | src/softloq-json/decoder.cpp:106-111 | inserting an entry whose key is not yet present keeps the keys distinct |
| Properties.MembersTrailingComma | src/softloq-json/decoder.cpp:112-114 | when a member is read, a comma follows, and no member follows the comma, the loop still succeeds, just after the comma |
| Decoder.ParseMember | src/softloq-json/decoder.cpp:121-130 | ws, a string key, ws, `:`, an element; yields the key as a String node and the value separately; cursor restored on failure |
| Grammar.MemberP | src/softloq-json/decoder.cpp:121-130 | a matched member consumes at least one byte and stays in the text |
| Decoder.ParseArray | src/softloq-json/decoder.cpp:131-147 | computes the array production (`[` ws `]` or `[` elements `]`); cursor restored on failure |
| Grammar.ArrayP | src/softloq-json/decoder.cpp:131-147 | a matched array is an Array and consumes at least its two brackets |
| Decoder.ParseElements | src/softloq-json/decoder.cpp:148-165 | the element loop computes the elements production: elements separated by commas, in order; failure with the cursor restored when none was read |
| Grammar.ElementsP | src/softloq-json/decoder.cpp:148-165 | a successful elements production has at least one item and moves the cursor |
| Grammar.ElementsLoop | src/softloq-json/decoder.cpp:154-159 | the loop always succeeds, never moves the cursor back, and moves it whenever it adds an item |
| Properties.ElementsTrailingComma | src/softloq-json/decoder.cpp:156-158 | when an element is read, a comma follows, and no element follows the comma, the loop still succeeds, just after the comma |
| Decoder.ParseElement | src/softloq-json/decoder.cpp:166-175 | computes ws, value, ws; cursor restored on failure |
| Grammar.ElementP | src/softloq-json/decoder.cpp:166-175 | a matched element moves the cursor and stops at the end or at a byte that is not whitespace |
| Decoder.ParseString | src/softloq-json/decoder.cpp:176-189 | computes `"` characters `"`; cursor restored on failure |
| Grammar.StringP | src/softloq-json/decoder.cpp:176-189 | a matched string is a String node and consumes at least its two quotes |
| Decoder.ParseStringCharacters | src/softloq-json/decoder.cpp:190-229 | the codepoint loop computes the characters production: success at the first unescaped `"` without consuming it; end of text, malformed UTF-8, a bad escape or a failed re-encode fail with the cursor restored |
| Grammar.CharsP | src/softloq-json/decoder.cpp:190-229 | on success the cursor is on a `"` inside the text |
| Properties.RawByteTaken | src/softloq-json/decoder.cpp:218-223 | any byte below 0x80 other than `"` and `\`, control bytes included, is appended as it is and consumed |
| Decoder.ParseStringEscape | src/softloq-json/decoder.cpp:230-296 | computes the escape production: the eight one-letter escapes append their byte and consume one byte; `u` and four hex digits of either case append the UTF-8 of their value and consume five; anything else fails without consuming |
| Grammar.EscapeP | src/softloq-json/decoder.cpp:230-296 | a matched escape consumes at least one byte and stays in the text |
| Properties.HexValue4 | src/softloq-json/decoder.cpp:276-286 | the `accum` of four hex digits is their base-16 value, most significant digit first |
| Properties.HexValueBound | src/softloq-json/decoder.cpp:276-286 | n hex digits have a value below 16^n |
| Properties.EscapeBmp | src/softloq-json/decoder.cpp:269-291 | an escape only appends, and at most three bytes: it never yields a codepoint above U+FFFF |
| Properties.EscapedSurrogateFails | src/softloq-json/decoder.cpp:287-288 | a `\u` escape of a surrogate half (D800-DFFF) fails, since the re-encode refuses it |
| Grammar.NumberP | src/softloq-json/decoder.cpp:297-312 | a matched number is a Number node, consumes at least one byte and stays in the text |
| Numbers.Value | src/softloq-json/decoder.cpp:303-308 | the value of a lexeme is `sign * (integer + fraction) * 10^exponent`: not positive with a `-` and not negative without, zero exactly when the integer and fraction digits are all zero, and without an exponent its magnitude lies in [integer, integer + 1) |
| Numbers.DigitsBound | src/softloq-json/decoder.cpp:304-305 | n decimal digits have a value below 10^n, so the fraction `0.` digits is below 1 |
| Decoder.ParseNumber | src/softloq-json/decoder.cpp:297-312 | computes the number production: the anchored match of the number pattern and its value; nothing consumed when there is no match |
| Numbers.Lex | src/softloq-json/decoder.cpp:299-301 | a match consumes at least one byte and stays in the text |
| Numbers.LexSound | src/softloq-json/decoder.cpp:299 | the bytes a match consumes are exactly the sign, the integer, the fraction and the exponent it reports, each of the pattern's form |
| Numbers.LexFails | src/softloq-json/decoder.cpp:299-301 | there is no match exactly when the text at the cursor does not start with a digit or with `-` and a digit |
| Numbers.LexGreedy | src/softloq-json/decoder.cpp:299 | the match takes the first alternative and each optional part greedily: the fraction is left out only when no `.` and digit follow, the exponent only when no `e`/`E` followed by a digit or by a sign and a digit follows, and an integer or fraction group with a nonzero first digit runs to the last digit |
| Numbers.LexExponentGreedy | src/softloq-json/decoder.cpp:299 | a taken exponent whose digit group has a nonzero first digit runs to the last digit: no digit follows the match |
| Numbers.DigitsEnd | src/softloq-json/decoder.cpp:299 | the digit run ends in the text, at the end or at a byte that is not a digit |
| Numbers.DigitsEndAll | src/softloq-json/decoder.cpp:299 | every byte of the digit run is a digit |
| Numbers.UIntEnd | src/softloq-json/decoder.cpp:299 | the unsigned-integer group (`0`, or a nonzero digit and more digits) matches exactly when a digit is at the cursor, and after a nonzero first digit it takes every digit that follows |
| Numbers.UIntEndSound | src/softloq-json/decoder.cpp:299 | what the unsigned-integer group takes is `0` alone or digits without a leading zero |
| Numbers.ExponentEnd | src/softloq-json/decoder.cpp:299 | an exponent match is at least two bytes and stays in the text |
| Numbers.ExponentEndExact | src/softloq-json/decoder.cpp:299 | the exponent part matches exactly when `e` or `E` is followed by a digit, or by a sign and a digit; its digit group is `0` alone or runs to the last digit |
| Numbers.ExponentEndSound | src/softloq-json/decoder.cpp:299 | what the exponent match takes is `e` or `E`, an optional sign, and an unsigned integer of the group's form |
| Numbers.FractionEnd | src/softloq-json/decoder.cpp:299 | the optional fraction is either absent or `.` followed by an unsigned-integer group match |
| Numbers.ExponentPartEnd | src/softloq-json/decoder.cpp:299 | the optional exponent is either absent or an exponent match |
| Decoder.ParseBool | src/softloq-json/decoder.cpp:313-326 | computes the bool production: `true`, else `false`; nothing consumed on failure |
| Grammar.BoolP | src/softloq-json/decoder.cpp:313-326 | a matched bool is a Bool node and consumes at least one byte |
| Decoder.ParseNull | src/softloq-json/decoder.cpp:327-335 | computes the null production; nothing consumed on failure |
| Grammar.NullP | src/softloq-json/decoder.cpp:327-335 | a matched null is a Null node and consumes at least one byte |
| Properties.NoValueAt | src/softloq-json/decoder.cpp:75-78 | no value starts at `}`, `]`, `,` or `:` |
| Grammar.Production | src/softloq-json/decoder.cpp:26-73 | the production a typed decode function asks for yields a node of that type |
| Grammar.Document | src/softloq-json/decoder.cpp:18-73 | what a decode function parses before its final test stops at the end or at a byte that is not whitespace, has the requested type, and has distinct keys in every Object |
| Decoder.DecodeJSON | src/softloq-json/decoder.cpp:18-25 | as written: the element is returned only when text is left over after it |
| Decoder.DecodeTyped | src/softloq-json/decoder.cpp:26-73 | as written for `decodeObject` ... `decodeNull`: ws, the typed production, ws, then the same inverted test; a returned node has the requested type |
| Decoder.Decode | include/softloq-json/decoder.hpp:22-76 | the documented contract: the node is returned only when the whole text was read, has the requested type, and has distinct keys in every Object |
| Grammar.DecodeAsWritten | src/softloq-json/decoder.cpp:18-73 | the decode functions' inverted test: a node is returned only when text is left over; then it has the requested type and the whole-text reading returns nothing, and when nothing is returned but a document was read, the whole-text reading returns it |
| Grammar.DecodeWhole | include/softloq-json/decoder.hpp:22-76 | the documented reading returns a node of the requested type with distinct keys in every Object |
| Samples.InvertedTest | src/softloq-json/decoder.cpp:24 | with `parseWS` corrected, `decodeJSON` as written refuses `null` and accepts `null x`; read in full, `null` gives Null |
| RoundTrip.DecodeRendered | src/softloq-json/decoder.cpp:18-25 | for a tree without numbers whose strings are plain UTF-8 without `"` or `\`, reading its rendering in full gives the tree back; the as-written `decodeJSON` refuses that text |
| RoundTrip.DecodeTypedRendered | src/softloq-json/decoder.cpp:26-73 | the same two outcomes for the typed decode function of the tree's own type |
| RoundTrip.ValueRT | src/softloq-json/decoder.cpp:75-78 | the value production reads a rendered tree back and stops right after its text |
| RoundTrip.ElementRT | src/softloq-json/decoder.cpp:166-175 | the element production reads ` value` back, with the whitespace after it |
| RoundTrip.MemberRT | src/softloq-json/decoder.cpp:121-130 | the member production reads ` "key" : value` back |
| RoundTrip.MembersLoopRT | src/softloq-json/decoder.cpp:103-114 | the members loop reads the rendered entries of an Object back, in order, up to ` }` |
| RoundTrip.ObjectRT | src/softloq-json/decoder.cpp:79-95 | the object production reads a rendered Object back, consuming exactly its text |
| RoundTrip.ElementsLoopRT | src/softloq-json/decoder.cpp:154-159 | the elements loop reads the rendered items of an Array back, in order, up to ` ]` |
| RoundTrip.ArrayRT | src/softloq-json/decoder.cpp:131-147 | the array production reads a rendered Array back, consuming exactly its text |
| RoundTrip.StringRT | src/softloq-json/decoder.cpp:176-189 | the string production reads a plain string between quotes back |
| RoundTrip.CharsRT | src/softloq-json/decoder.cpp:190-229 | the characters production copies plain UTF-8 text up to the closing quote unchanged |
| RoundTrip.LiteralRT | src/softloq-json/decoder.cpp:313-335 | `true`, `false` and `null` read back as themselves |
| RoundTrip.RenderStart | src/softloq-json/element.cpp:5-35 | a rendered tree without numbers is at least two bytes long and starts with a byte that opens no other production it could be confused with |
| Utf8.DecodeCodepoint | src/softloq-json/decoder.cpp:200-201 | a decoded codepoint is a Unicode scalar value, read from 1 to 4 bytes in the text; an ASCII byte is itself |
| Utf8.EncodeCodepoint | src/softloq-json/decoder.cpp:219-222 | encoding succeeds exactly on scalar values and yields 1 to 4 bytes; ASCII is itself |
| Utf8.DecodeThenEncode | src/softloq-json/decoder.cpp:200-222 | re-encoding a decoded codepoint gives back exactly the bytes it was read from, so raw text is copied unchanged |
| Utf8.EncodeThenDecode | src/softloq-json/decoder.cpp:200-222 | decoding the encoding of a scalar value reads it back, whatever follows |
| Utf8.DecodePrefix | src/softloq-json/decoder.cpp:200-201 | the codepoint read does not depend on the bytes after it |
| Elements.TypeOf | include/softloq-json/element.hpp:19-27 | each of the six variants reports its own tag, and only that one |
| Elements.As | include/softloq-json/element.hpp:40-41 | `as<T>()` yields the node itself exactly when its type is T, and nothing otherwise |
| Elements.Entries | include/softloq-json/element.hpp:45 | the map view of an Object with distinct keys holds every entry and nothing else |
| Elements.StringNode.Empty | src/softloq-json/element.cpp:37 | the default String is empty |
| Elements.StringNode.constructor | src/softloq-json/element.cpp:38 | the value constructor stores its argument |
| Elements.StringNode.SetString | include/softloq-json/element.hpp:71-72 | after `setString(v)`, `getString()` is `v` |
| Elements.StringNode.AsElement | include/softloq-json/element.hpp:62-76 | the node stands for the String of its stored bytes |
| Elements.NumberNode.Zero | src/softloq-json/element.cpp:40 | the default Number is 0 |
| Elements.NumberNode.constructor | src/softloq-json/element.cpp:41 | the value constructor stores its argument |
| Elements.NumberNode.SetNumber | include/softloq-json/element.hpp:88-89 | after `setNumber(v)`, `getNumber()` is `v` |
| Elements.NumberNode.AsElement | include/softloq-json/element.hpp:79-93 | the node stands for the Number of its stored value |
| Elements.BoolNode.False | src/softloq-json/element.cpp:43 | the default Bool is false |
| Elements.BoolNode.constructor | src/softloq-json/element.cpp:44 | the value constructor stores its argument |
| Elements.BoolNode.SetBool | include/softloq-json/element.hpp:105-106 | after `setBool(v)`, `getBool()` is `v` |
| Elements.BoolNode.AsElement | include/softloq-json/element.hpp:96-110 | the node stands for the Bool of its stored flag |
| Renderer.ToString | include/softloq-json/element.hpp:62-117 | `toString()` dispatched on the node's type produces the rendering of `Renderer.Render`: `"` raw bytes `"`, `true`/`false`, `null`, or the container text |
| Renderer.RenderShape | include/softloq-json/element.hpp:62-117 | an Object renders as `{` ... ` }` and an Array as `[` ... ` ]`, each at least three bytes; a String renders as its bytes between two quotes |
| Properties.SimpleEscapeInverse | src/softloq-json/decoder.cpp:235-268 | the eight one-letter escapes are a bijection with their bytes (`\"`, `\\`, `/`, backspace, form feed, line feed, carriage return, tab), and `u` is not one of them |
| Renderer.ObjectToString | src/softloq-json/element.cpp:5-21 | the append loop produces `{`, then ` "key" : value` per entry with a comma before all but the first, then ` }`; `{ }` when empty |
| Renderer.ArrayToString | src/softloq-json/element.cpp:23-35 | the append loop produces `[`, then ` value` per item in order with a comma before all but the first, then ` ]`; `[ ]` when empty |
| Samples.QuoteNotReadBack | include/softloq-json/element.hpp:66 | a String holding `"` renders as three quotes, which read back as an empty String and a stray quote, so the text is not a document |
| Samples.EmptyObject | src/softloq-json/decoder.cpp:83-87 | `{ }` is an empty Object; `{,}` is not an Object |
| Samples.TrailingCommaArray | src/softloq-json/decoder.cpp:154-161 | `[null,]` is read as an Array holding Null |
| Samples.TrailingCommaObject | src/softloq-json/decoder.cpp:103-116 | `{"a":null,}` is read as an Object with one entry |
| Samples.TrailingCommaSpaceArray | src/softloq-json/decoder.cpp:131-161 | `[null, ]` is not an Array: the failed element after the comma puts the cursor back before the space |
| Samples.TrailingCommaSpaceObject | src/softloq-json/decoder.cpp:79-116 | `{"a":null, }` is not an Object, for the same reason |
| Samples.RepeatedKey | src/softloq-json/decoder.cpp:106-110 | `{"a":null,"a":null}` is not an Object |
| Samples.NumberFraction | src/softloq-json/decoder.cpp:299-308 | `3.5` is read in full as 3.5 |
| Samples.NumberExponent | src/softloq-json/decoder.cpp:299-308 | `-2e2` is read in full as -200 |
| Samples.NumberLeadingZero | src/softloq-json/decoder.cpp:299 | of `1.05` only `1.0` is read |
| Samples.EscapeUnicode | src/softloq-json/decoder.cpp:269-291 | the escape `\u0041` appends `A` and consumes five bytes after the backslash |
| Samples.EscapeSurrogate | src/softloq-json/decoder.cpp:287-288 | `\uD83D`, half of a surrogate pair, is refused |
| Samples.RawControlByte | src/softloq-json/decoder.cpp:218-223 | a string holding a raw 0x01 byte is read |

## Left out

- Floating point.
  - `parseNumber` computes a `float` with `std::stof`, `std::pow` and a float product. The model keeps the exact value of the lexeme as a `real` (`Numbers.Value`).
  - `Number::toString` is `std::to_string(float)`. Its formatting is the parameter `num` of the renderer.
  - So Number nodes are left out of the round trip.
- Decoder.ParseNumber: states the exact value of the matched text, not the rounded `float` the library stores. An integer group beyond the `float` range (a `1` followed by 39 zeros) or an exponent group beyond it (40 digits) makes `std::stof` throw `std::out_of_range` (src/softloq-json/decoder.cpp:304, 306). Nothing catches it, so it escapes every decode function. The model gives such a number its exact value instead.
- The `std::regex` engine: `Numbers.Lex` is a hand-written matcher of the pattern. A NUL byte in the text, which would end the C-string search early, is not modelled.
- softloq-unicode is not part of this model. `Utf8` stands in for `convertUTF8ToCodepoint` and `convertCodepointToUTF8` with the strict UTF-8 of section 4 of RFC 3629.
- Memory management is left out: `unique_ptr`, `release` and `dynamic_cast`. The tree is an inductive datatype.
- The `std::unordered_map` iteration order is unspecified. An Object keeps its entries in insertion order, and the renderer writes them in that order.
- Decoder.DecodeJSON: it and Decoder.DecodeTyped model the inverted final test with the corrected whitespace skip (Decoder.ParseWS). With `parseWS` as written they would not return on any text that holds a byte other than whitespace (first Findings row).
- Whitespace insensitivity is not proved: no lemma states that adding or removing whitespace between tokens leaves the value unchanged. It does not hold as written: `[null,]` is read and `[null, ]` is refused (`Samples.TrailingCommaArray`, `Samples.TrailingCommaSpaceArray`).
- Stack exhaustion on deeply nested input is not modelled.
- include/softloq-json/macros.hpp holds export macros only, and include/softloq-json/error.hpp is never used by the reader. Neither is part of this model.
- The `Decoder` class has no data members, so its methods are module-level methods here.
- Object and Array as mutable standard containers: their own member functions (`insert_or_assign`, `push_back` and the rest) are not modelled apart from their use in the reader. Object and Array nodes are values.
- RoundTrip.DecodeRendered: covers trees without Number nodes whose strings and keys hold no `"` or `\` and whose Objects have distinct keys. The renderer does not escape, numbers go through `std::to_string`, and the reader refuses a repeated key.

## Findings

| source | as written | input that shows it | evidently intended | confidence | as-written member | corrected member |
|---|---|---|---|---|---|---|
| src/softloq-json/decoder.cpp:338-347 | the `switch` has no `default`, so on a byte that is not whitespace the `while` neither moves the cursor nor ends; `parseWS` returns only once the text is used up | `null`: `parseElement` calls `parseWS` first, which spins on `n` | skip the maximal run of 0x20, 0x0A, 0x0D, 0x09 and stop at the first other byte | not executed | Decoder.ParseWSAsWritten | Decoder.ParseWS |
| src/softloq-json/decoder.cpp:24 | `json_segment.empty() ? nullptr : node` returns the node only when text is left over; the typed decode functions at lines 32, 40, 48, 56, 64, 72 do the same | with `parseWS` corrected, `null` gives nullptr and `null x` gives Null (Samples.InvertedTest) | return the node only when the whole text was read (include/softloq-json/decoder.hpp:22-28) | not executed | Decoder.DecodeJSON | Decoder.Decode |
