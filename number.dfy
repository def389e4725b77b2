/** The number token of `parseNumber`: the anchored ECMAScript pattern
      ^([-])?(0|[1-9][0-9]*)(?:[.](0|[1-9][0-9]*))?(?:[Ee]([-+]?(?:0|[1-9][0-9]*)))?
    read by hand. Quantifiers are greedy and alternatives are tried in order, and
    every part after the integer is optional, so the match never backtracks into
    the integer: a part is taken exactly when it matches at that point. The value
    is the exact rational `sign * (integer + 0.fraction) * 10^exponent`; the
    library computes it in `float`. */
module Numbers {
  import opened Base

  const ZERO: byte := 0x30
  const LOWER_E: byte := 0x65
  const UPPER_E: byte := 0x45

  /** The four capture groups of a match. `fraction` is empty when the fraction
      group did not take part; `exponent` holds the whole exponent part, its `e` or
      `E` first, and is empty when that part did not take part. */
  datatype Lexeme = Lexeme(negative: bool, integer: seq<byte>, fraction: seq<byte>, exponent: seq<byte>)

  /** The regular language `0|[1-9][0-9]*`. */
  predicate IsUInt(d: seq<byte>) {
    |d| > 0 && (forall i | 0 <= i < |d| :: IsDigit(d[i])) && (d[0] == ZERO ==> |d| == 1)
  }

  predicate IsExponent(x: seq<byte>) {
    |x| >= 2 && (x[0] == LOWER_E || x[0] == UPPER_E) &&
    if x[1] == PLUS || x[1] == MINUS then IsUInt(x[2..]) else IsUInt(x[1..])
  }

  /** The lexeme's parts are in the pattern's languages. */
  predicate ValidLexeme(l: Lexeme) {
    IsUInt(l.integer) && (l.fraction == [] || IsUInt(l.fraction)) && (l.exponent == [] || IsExponent(l.exponent))
  }

  /** The text the lexeme was matched from. */
  function Text(l: Lexeme): seq<byte> {
    (if l.negative then [MINUS] else []) + l.integer + (if l.fraction == [] then [] else [DOT] + l.fraction) + l.exponent
  }

  /** End of the longest run of digits starting at i. */
  function DigitsEnd(s: seq<byte>, i: nat): (j: nat)
    requires i <= |s|
    ensures i <= j <= |s|
    ensures j < |s| ==> !IsDigit(s[j])
    decreases |s| - i
  {
    if i < |s| && IsDigit(s[i]) then DigitsEnd(s, i + 1) else i
  }

  /** The run is made of digits only. */
  lemma {:induction false} DigitsEndAll(s: seq<byte>, i: nat)
    requires i <= |s|
    ensures forall k | i <= k < DigitsEnd(s, i) :: IsDigit(s[k])
    decreases |s| - i
  {
    if i < |s| && IsDigit(s[i]) {
      DigitsEndAll(s, i + 1);
    }
  }

  /** End of the match of `0|[1-9][0-9]*` at i, first alternative first. */
  function UIntEnd(s: seq<byte>, i: nat): (r: Option<nat>)
    requires i <= |s|
    ensures r.Some? ==> i < r.value <= |s|
    ensures r.Some? <==> i < |s| && IsDigit(s[i])
    ensures r.Some? && s[i] != ZERO ==> r.value == |s| || !IsDigit(s[r.value])
  {
    if i < |s| && s[i] == ZERO then Some(i + 1)
    else if i < |s| && IsDigit(s[i]) then Some(DigitsEnd(s, i + 1))
    else None
  }

  /** What `0|[1-9][0-9]*` matches is in its language. */
  lemma {:induction false} UIntEndSound(s: seq<byte>, i: nat)
    requires i <= |s| && UIntEnd(s, i).Some?
    ensures IsUInt(s[i..UIntEnd(s, i).value])
  {
    var j := UIntEnd(s, i).value;
    if s[i] != ZERO {
      DigitsEndAll(s, i + 1);
      assert forall k | 0 <= k < j - i :: s[i..j][k] == s[i + k];
    }
  }

  /** The digit group of an exponent part, after its letter and optional sign. */
  function ExponentDigits(x: seq<byte>): (d: seq<byte>)
    requires IsExponent(x)
    ensures IsUInt(d)
    ensures |x| - |d| == (if x[1] == PLUS || x[1] == MINUS then 2 else 1) && d == x[|x| - |d|..]
  {
    if x[1] == PLUS || x[1] == MINUS then x[2..] else x[1..]
  }

  /** End of the exponent part `[Ee][-+]?(0|[1-9][0-9]*)` at i, if it matches. */
  function ExponentEnd(s: seq<byte>, i: nat): (r: Option<nat>)
    requires i <= |s|
    ensures r.Some? ==> i + 2 <= r.value <= |s|
  {
    if i < |s| && (s[i] == LOWER_E || s[i] == UPPER_E) then
      var j := if i + 1 < |s| && (s[i + 1] == PLUS || s[i + 1] == MINUS) then i + 2 else i + 1;
      match UIntEnd(s, j)
      case Some(k) => Some(k)
      case None => None
    else None
  }

  /** When the exponent part matches: exactly when `e` or `E` is followed by a
      digit, or by a sign and a digit. Its digit group, when it does not start
      with `0`, runs to the last digit. */
  lemma ExponentEndExact(s: seq<byte>, i: nat)
    requires i <= |s|
    ensures ExponentEnd(s, i).Some? <==>
      (i < |s| && (s[i] == LOWER_E || s[i] == UPPER_E) &&
       ((i + 1 < |s| && IsDigit(s[i + 1])) ||
        (i + 2 < |s| && (s[i + 1] == PLUS || s[i + 1] == MINUS) && IsDigit(s[i + 2]))))
    ensures ExponentEnd(s, i).Some? ==>
      var k := ExponentEnd(s, i).value;
      var j := if s[i + 1] == PLUS || s[i + 1] == MINUS then i + 2 else i + 1;
      j < k && (s[j] == ZERO ==> k == j + 1) && (s[j] != ZERO ==> k == |s| || !IsDigit(s[k]))
  {
  }

  /** What the exponent part matches is in its language. */
  lemma {:induction false} ExponentEndSound(s: seq<byte>, i: nat)
    requires i <= |s| && ExponentEnd(s, i).Some?
    ensures IsExponent(s[i..ExponentEnd(s, i).value])
  {
    var j := if i + 1 < |s| && (s[i + 1] == PLUS || s[i + 1] == MINUS) then i + 2 else i + 1;
    var k := ExponentEnd(s, i).value;
    UIntEndSound(s, j);
    assert s[i..k][1..] == s[i + 1..k] && s[i..k][2..] == s[i + 2..k];
  }

  /** End of the optional fraction part `[.](0|[1-9][0-9]*)` at i: i itself when
      the part does not match. */
  function FractionEnd(s: seq<byte>, i: nat): (j: nat)
    requires i <= |s|
    ensures j == i || (i + 2 <= j <= |s| && s[i] == DOT && UIntEnd(s, i + 1) == Some(j))
  {
    if i < |s| && s[i] == DOT && UIntEnd(s, i + 1).Some? then UIntEnd(s, i + 1).value else i
  }

  /** End of the optional exponent part at i: i itself when it does not match. */
  function ExponentPartEnd(s: seq<byte>, i: nat): (j: nat)
    requires i <= |s|
    ensures j == i || (i + 2 <= j <= |s| && ExponentEnd(s, i) == Some(j))
  {
    if ExponentEnd(s, i).Some? then ExponentEnd(s, i).value else i
  }

  /** `std::regex_search` of the pattern at `pos`: the groups and the end of the
      match, or None when nothing matches. */
  function Lex(s: seq<byte>, pos: nat): (r: Option<(Lexeme, nat)>)
    requires pos <= |s|
    ensures r.Some? ==> pos < r.value.1 <= |s|
  {
    var p0 := if pos < |s| && s[pos] == MINUS then pos + 1 else pos;
    match UIntEnd(s, p0)
    case None => None
    case Some(p1) =>
      var p2 := FractionEnd(s, p1);
      var p3 := ExponentPartEnd(s, p2);
      Some((Lexeme(p0 > pos, s[p0..p1], if p2 == p1 then [] else s[p1 + 1..p2], s[p2..p3]), p3))
  }

  /** What the match is: the consumed bytes are the lexeme's text and every part
      is in its language. */
  lemma LexSound(s: seq<byte>, pos: nat)
    requires pos <= |s| && Lex(s, pos).Some?
    ensures ValidLexeme(Lex(s, pos).value.0)
    ensures s[pos..Lex(s, pos).value.1] == Text(Lex(s, pos).value.0)
  {
    var p0 := if pos < |s| && s[pos] == MINUS then pos + 1 else pos;
    var p1 := UIntEnd(s, p0).value;
    var p2 := FractionEnd(s, p1);
    var p3 := ExponentPartEnd(s, p2);
    var l := Lexeme(p0 > pos, s[p0..p1], if p2 == p1 then [] else s[p1 + 1..p2], s[p2..p3]);
    assert Lex(s, pos) == Some((l, p3));
    UIntEndSound(s, p0);
    if p2 != p1 {
      UIntEndSound(s, p1 + 1);
    }
    if p3 != p2 {
      ExponentEndSound(s, p2);
    }
    if p2 != p1 {
      assert s[p1..p2] == [DOT] + s[p1 + 1..p2];
    }
    if p0 > pos {
      assert s[pos..p0] == [MINUS];
    }
    SliceSplit(s, pos, p0, p1);
    SliceSplit(s, pos, p1, p2);
    SliceSplit(s, pos, p2, p3);
  }

  /** The match fails exactly when no digit follows an optional minus sign. */
  lemma LexFails(s: seq<byte>, pos: nat)
    requires pos <= |s|
    ensures Lex(s, pos).None? <==>
      !(pos < |s| && IsDigit(s[pos])) && !(pos + 1 < |s| && s[pos] == MINUS && IsDigit(s[pos + 1]))
  {
  }

  /** The match takes the first alternative and each optional part greedily: a
      fraction is left out only when `.` and a digit do not follow the integer, an
      exponent only when `e` or `E` and a digit, or a sign and a digit, do not
      follow, and a multi-digit integer or fraction runs to the last digit. */
  lemma LexGreedy(s: seq<byte>, pos: nat)
    requires pos <= |s| && Lex(s, pos).Some?
    ensures
      var l := Lex(s, pos).value.0;
      var p1 := pos + (if l.negative then 1 else 0) + |l.integer|;
      var p2 := p1 + (if l.fraction == [] then 0 else 1 + |l.fraction|);
      && (l.integer[0] != ZERO ==> p1 == |s| || !IsDigit(s[p1]))
      && (l.fraction == [] ==> !(p1 + 1 < |s| && s[p1] == DOT && IsDigit(s[p1 + 1])))
      && (l.fraction != [] && l.fraction[0] != ZERO ==> p2 == |s| || !IsDigit(s[p2]))
      && (l.exponent == [] ==>
            !(p2 < |s| && (s[p2] == LOWER_E || s[p2] == UPPER_E) &&
              ((p2 + 1 < |s| && IsDigit(s[p2 + 1])) ||
               (p2 + 2 < |s| && (s[p2 + 1] == PLUS || s[p2 + 1] == MINUS) && IsDigit(s[p2 + 2])))))
  {
    var p0 := if pos < |s| && s[pos] == MINUS then pos + 1 else pos;
    var p1 := UIntEnd(s, p0).value;
    var p2 := FractionEnd(s, p1);
    ExponentEndExact(s, p2);
  }

  /** An exponent that is taken runs to the end of its digit group: when the
      group does not start with `0`, no digit follows the match. */
  lemma LexExponentGreedy(s: seq<byte>, pos: nat)
    requires pos <= |s| && Lex(s, pos).Some?
    ensures
      var (l, p) := Lex(s, pos).value;
      l.exponent != [] ==>
        IsExponent(l.exponent) && (ExponentDigits(l.exponent)[0] != ZERO ==> p == |s| || !IsDigit(s[p]))
  {
    var p0 := if pos < |s| && s[pos] == MINUS then pos + 1 else pos;
    var p1 := UIntEnd(s, p0).value;
    var p2 := FractionEnd(s, p1);
    var p3 := ExponentPartEnd(s, p2);
    var x := s[p2..p3];
    assert Lex(s, pos).value.0.exponent == x && Lex(s, pos).value.1 == p3;
    if p3 != p2 {
      ExponentEndExact(s, p2);
      ExponentEndSound(s, p2);
      assert x[1] == s[p2 + 1];
      assert ExponentDigits(x)[0] == s[p3 - |ExponentDigits(x)|];
    }
  }

  /** Value of a run of decimal digits. */
  function DigitsValue(d: seq<byte>): (v: nat)
    requires forall i | 0 <= i < |d| :: IsDigit(d[i])
  {
    if d == [] then 0
    else
      var last := d[|d| - 1];
      assert IsDigit(last);
      DigitsValue(d[..|d| - 1]) * 10 + (last - 0x30)
  }

  function Pow10Nat(n: nat): (r: nat)
    ensures r >= 1
  {
    if n == 0 then 1 else 10 * Pow10Nat(n - 1)
  }

  /** `std::pow(10, e)` for an integer exponent, exactly. */
  function Pow10(e: int): real {
    if e >= 0 then Pow10Nat(e) as real else 1.0 / (Pow10Nat(-e) as real)
  }

  /** `std::stof` of the exponent group: an optional sign and digits. */
  function ExponentValue(x: seq<byte>): int
    requires x == [] || IsExponent(x)
  {
    if x == [] then 0
    else if x[1] == MINUS then -(DigitsValue(x[2..]) as int)
    else if x[1] == PLUS then DigitsValue(x[2..])
    else DigitsValue(x[1..])
  }

  /** A run of n digits is below 10^n. */
  lemma {:induction false} DigitsBound(d: seq<byte>)
    requires forall i | 0 <= i < |d| :: IsDigit(d[i])
    ensures DigitsValue(d) < Pow10Nat(|d|)
  {
    if d != [] {
      DigitsBound(d[..|d| - 1]);
    }
  }

  lemma Pow10Positive(e: int)
    ensures Pow10(e) > 0.0
  {
    assert Pow10Nat(if e >= 0 then e else -e) >= 1;
  }

  /** A fraction a/b with a < b lies in [0, 1), and is zero exactly when a is. */
  lemma ProperFraction(a: nat, b: nat)
    requires a < b
    ensures 0.0 <= (a as real) / (b as real) < 1.0
    ensures (a as real) / (b as real) == 0.0 <==> a == 0
  {
  }

  /** `sign * m * c` for a magnitude m and a positive scale c: the sign is the
      sign's, zero exactly when m is, and m itself when c is 1. */
  lemma SignedScale(negative: bool, m: real, c: real)
    requires m >= 0.0 && c > 0.0
    ensures var v := (if negative then -1.0 else 1.0) * m * c;
      && (negative ==> v <= 0.0) && (!negative ==> v >= 0.0)
      && (v == 0.0 <==> m == 0.0)
      && (c == 1.0 ==> (if negative then -v else v) == m)
  {
    assert m * c >= 0.0;
    assert m * c == 0.0 <==> m == 0.0;
  }

  /** `sign * (integer + fractional) * exponent` of decoder.cpp, on exact rationals.
      The sign is the minus sign's; the value is zero exactly when the integer and
      fraction digits are; without an exponent, the integer group is the whole part
      of the magnitude. */
  function Value(l: Lexeme): (r: real)
    requires ValidLexeme(l)
    ensures l.negative ==> r <= 0.0
    ensures !l.negative ==> r >= 0.0
    ensures r == 0.0 <==> DigitsValue(l.integer) == 0 && DigitsValue(l.fraction) == 0
    ensures l.exponent == [] ==>
      var whole := DigitsValue(l.integer) as real;
      whole <= (if l.negative then -r else r) < whole + 1.0
  {
    var sign := if l.negative then -1.0 else 1.0;
    var fractional := (DigitsValue(l.fraction) as real) / (Pow10Nat(|l.fraction|) as real);
    var scale := Pow10(ExponentValue(l.exponent));
    DigitsBound(l.fraction);
    ProperFraction(DigitsValue(l.fraction), Pow10Nat(|l.fraction|));
    Pow10Positive(ExponentValue(l.exponent));
    var magnitude := (DigitsValue(l.integer) as real) + fractional;
    SignedScale(l.negative, magnitude, scale);
    sign * magnitude * scale
  }
}
