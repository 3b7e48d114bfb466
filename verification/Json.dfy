/** Canonical JSON (`_canonical_json`) and the strict decoder (`strict_json_loads`).

    Text is a sequence of code points.  The printer sorts keys, uses compact separators and
    ASCII escapes (section 7 of RFC 8259); the parser accepts the whole grammar of
    section 2 of RFC 8259.  A floating-point number is known by its representation, the text that Python prints for it;
    what the representation of a literal is, is a parameter.
 */
module Json {
  import opened Wrappers
  import opened Ordering
  import Utf8

  datatype Json =
    | Null
    | Bool(b: bool)
    | Int(n: int)
    | Float(token: Text)
    | Str(s: Text)
    | Arr(items: seq<Json>)
    | Obj(fields: map<Text, Json>)

  datatype Parsed<+T> = Fail | Done(value: T, rest: Text)

  const MAX_JSON_DEPTH := 256
  const MAX_JSON_INTEGER_DIGITS := 128
  const MAX_JSON_NUMBER_CHARS := 256

  const QUOTE := 34
  const COMMA := 44
  const MINUS := 45
  const COLON := 58
  const BACKSLASH := 92
  const OPEN_BRACKET := 91
  const CLOSE_BRACKET := 93
  const OPEN_BRACE := 123
  const CLOSE_BRACE := 125
  const LOWER_U := 117
  const NEWLINE := 10

  const NULL_TEXT: Text := [110, 117, 108, 108]
  const TRUE_TEXT: Text := [116, 114, 117, 101]
  const FALSE_TEXT: Text := [102, 97, 108, 115, 101]

  // ----- numbers

  predicate IsDigit(c: int) {
    48 <= c <= 57
  }

  function Digits(n: nat): (t: Text)
    ensures t != [] && (forall i | 0 <= i < |t| :: IsDigit(t[i]))
    ensures t[0] == 48 ==> t == [48]
  {
    if n < 10 then [48 + n] else Digits(n / 10) + [48 + n % 10]
  }

  function Value(t: Text): int {
    if t == [] then 0 else Value(t[..|t| - 1]) * 10 + (t[|t| - 1] - 48)
  }

  lemma {:induction false} ValueDigits(n: nat)
    ensures Value(Digits(n)) == n
  {
    if n >= 10 {
      var t := Digits(n);
      assert t[..|t| - 1] == Digits(n / 10);
      ValueDigits(n / 10);
    } else {
      assert Digits(n)[..0] == [];
    }
  }

  /** The longest run of digits at the front. */
  function DigitRun(t: Text): (n: nat)
    ensures n <= |t|
  {
    if t != [] && IsDigit(t[0]) then 1 + DigitRun(t[1..]) else 0
  }

  lemma {:induction false} DigitRunOf(d: Text, rest: Text)
    requires forall i | 0 <= i < |d| :: IsDigit(d[i])
    requires rest == [] || !IsDigit(rest[0])
    ensures DigitRun(d + rest) == |d|
  {
    if d == [] {
      assert d + rest == rest;
    } else {
      assert (d + rest)[1..] == d[1..] + rest;
      DigitRunOf(d[1..], rest);
    }
  }

  function ParseNatural(t: Text): (p: Parsed<int>)
    ensures p.Done? ==> |p.rest| < |t|
  {
    var run := DigitRun(t);
    var n := if run > 0 && t[0] == 48 then 1 else run;
    if n == 0 || n > MAX_JSON_INTEGER_DIGITS then Fail
    else Done(Value(t[..n]), t[n..])
  }

  function ParseInt(t: Text): (p: Parsed<Json>)
    ensures p.Done? ==> |p.rest| < |t|
  {
    if t != [] && t[0] == MINUS then
      match ParseNatural(t[1..])
      case Fail => Fail
      case Done(v, rest) => Done(Int(-v), rest)
    else
      match ParseNatural(t)
      case Fail => Fail
      case Done(v, rest) => Done(Int(v), rest)
  }

  function Magnitude(n: int): nat {
    if n < 0 then -n else n
  }

  function PrintInt(n: int): Text {
    (if n < 0 then [MINUS] else []) + Digits(Magnitude(n))
  }

  function DigitCount(n: int): nat {
    |Digits(Magnitude(n))|
  }

  predicate NumberEnds(rest: Text) {
    rest == [] || !(IsDigit(rest[0]) || rest[0] in {46, 69, 101})
  }

  lemma ParsePrintNatural(n: nat, rest: Text)
    requires NumberEnds(rest)
    ensures ParseNatural(Digits(n) + rest) ==
            if |Digits(n)| <= MAX_JSON_INTEGER_DIGITS then Done(n, rest) else Fail
  {
    var d := Digits(n);
    DigitRunOf(d, rest);
    assert (d + rest)[..|d|] == d && (d + rest)[|d|..] == rest;
    ValueDigits(n);
  }

  lemma ParsePrintInt(n: int, rest: Text)
    requires NumberEnds(rest)
    ensures ParseInt(PrintInt(n) + rest) ==
            if DigitCount(n) <= MAX_JSON_INTEGER_DIGITS then Done(Int(n), rest) else Fail
  {
    var m := Magnitude(n);
    var d, t := Digits(m), PrintInt(n) + rest;
    ParsePrintNatural(m, rest);
    if n < 0 {
      ParseNegative(d, rest);
    } else {
      assert [] + d == d && t[0] == d[0];
      ParsePositive(t);
    }
  }

  lemma ParseNegative(d: Text, rest: Text)
    ensures ParseInt([MINUS] + d + rest) == match ParseNatural(d + rest)
                                            case Fail => Fail
                                            case Done(v, after) => Done(Int(-v), after)
  {
    assert ([MINUS] + d + rest)[1..] == d + rest;
  }

  lemma ParsePositive(t: Text)
    requires t != [] && IsDigit(t[0])
    ensures ParseInt(t) == match ParseNatural(t)
                           case Fail => Fail
                           case Done(v, after) => Done(Int(v), after)
  {
  }

  // ----- numbers with a fraction or an exponent

  /** The length of `-?(0|[1-9][0-9]*)` at the front. */
  function IntLength(t: Text): (n: nat)
    ensures n <= |t|
  {
    var s := if t != [] && t[0] == MINUS then 1 else 0;
    var run := DigitRun(t[s..]);
    if run == 0 then 0 else if t[s] == 48 then s + 1 else s + run
  }

  /** The length of `[.][0-9]+` at the front. */
  function FractionLength(t: Text): (n: nat)
    ensures n <= |t|
  {
    if t == [] || t[0] != 46 || DigitRun(t[1..]) == 0 then 0 else 1 + DigitRun(t[1..])
  }

  /** The length of `[eE][-+]?[0-9]+` at the front. */
  function ExponentLength(t: Text): (n: nat)
    ensures n <= |t|
  {
    if t == [] || (t[0] != 69 && t[0] != 101) then 0
    else
      var s := if |t| > 1 && (t[1] == 43 || t[1] == MINUS) then 2 else 1;
      if DigitRun(t[s..]) == 0 then 0 else s + DigitRun(t[s..])
  }

  /** The length of the number literal at the front, and whether it is more than an integer. */
  function NumberLength(t: Text): (n: nat)
    ensures IntLength(t) <= n <= |t|
  {
    var i := IntLength(t);
    var j := i + FractionLength(t[i..]);
    j + ExponentLength(t[j..])
  }

  predicate FloatToken(t: Text) {
    0 < IntLength(t) < NumberLength(t) == |t|
  }

  /** What `float` makes of a literal, as the text that prints it; None when the value is not finite. */
  type Floats = Text -> Option<Text>

  /** A floating-point number is printed as a short literal of the same form, and reading that gives it back. */
  ghost predicate Faithful(f: Floats) {
    forall t: Text | f(t).Some? ::
      FloatToken(f(t).value) && |f(t).value| <= MAX_JSON_NUMBER_CHARS && f(f(t).value) == f(t)
  }

  /** Reading every literal within the length limit as itself is one such table. */
  lemma LiteralsAreFaithful()
    ensures Faithful((t: Text) => if FloatToken(t) && |t| <= MAX_JSON_NUMBER_CHARS then Some(t) else None)
  {
  }

  /** The number literal at the front: `parse_int` or `parse_float`, by its form. */
  function ParseNumber(f: Floats, t: Text): (p: Parsed<Json>)
    ensures p.Done? ==> |p.rest| < |t|
  {
    var i, n := IntLength(t), NumberLength(t);
    if i == 0 then Fail
    else if n == i then ParseInt(t)
    else if n > MAX_JSON_NUMBER_CHARS then Fail
    else
      match f(t[..n])
      case None => Fail
      case Some(x) => Done(Float(x), t[n..])
  }

  lemma {:induction false} DigitRunAppend(t: Text, rest: Text)
    requires rest == [] || !IsDigit(rest[0])
    ensures DigitRun(t + rest) == DigitRun(t)
  {
    if t == [] {
      assert t + rest == rest;
    } else {
      assert (t + rest)[1..] == t[1..] + rest;
      DigitRunAppend(t[1..], rest);
    }
  }

  lemma IntLengthAppend(t: Text, rest: Text)
    requires t != [] && NumberEnds(rest)
    ensures IntLength(t + rest) == IntLength(t)
  {
    var s := if t[0] == MINUS then 1 else 0;
    assert (t + rest)[s..] == t[s..] + rest;
    DigitRunAppend(t[s..], rest);
  }

  lemma FractionLengthAppend(t: Text, rest: Text)
    requires NumberEnds(rest)
    ensures FractionLength(t + rest) == FractionLength(t)
  {
    if t == [] {
      assert t + rest == rest;
    } else {
      assert (t + rest)[1..] == t[1..] + rest;
      DigitRunAppend(t[1..], rest);
    }
  }

  lemma ExponentLengthAppend(t: Text, rest: Text)
    requires NumberEnds(rest) && ExponentLength(t) == |t|
    ensures ExponentLength(t + rest) == |t|
  {
    if t == [] {
      assert t + rest == rest;
    } else {
      var s := if |t| > 1 && (t[1] == 43 || t[1] == MINUS) then 2 else 1;
      assert |t| > s;
      assert (t + rest)[s..] == t[s..] + rest;
      DigitRunAppend(t[s..], rest);
    }
  }

  /** A float literal followed by something that does not continue it is matched whole. */
  lemma FloatLengthAppend(t: Text, rest: Text)
    requires FloatToken(t) && NumberEnds(rest)
    ensures IntLength(t + rest) == IntLength(t) && NumberLength(t + rest) == |t|
  {
    var i := IntLength(t);
    var j := i + FractionLength(t[i..]);
    IntLengthAppend(t, rest);
    FractionLengthAppend(t[i..], rest);
    ExponentLengthAppend(t[j..], rest);
    FromInside(t, rest, i);
    FromInside(t, rest, j);
  }

  lemma FromInside(t: Text, rest: Text, i: nat)
    requires i <= |t|
    ensures (t + rest)[i..] == t[i..] + rest
  {
  }

  lemma ParsePrintFloat(f: Floats, x: Text, rest: Text)
    requires FloatToken(x) && NumberEnds(rest) && f(x) == Some(x)
    ensures ParseNumber(f, x + rest) == if |x| <= MAX_JSON_NUMBER_CHARS then Done(Float(x), rest) else Fail
  {
    FloatLengthAppend(x, rest);
    assert (x + rest)[..|x|] == x && (x + rest)[|x|..] == rest;
  }

  lemma IntegerLength(n: int, rest: Text)
    requires NumberEnds(rest)
    ensures IntLength(PrintInt(n) + rest) == NumberLength(PrintInt(n) + rest) == |PrintInt(n)|
  {
    var d, t := Digits(Magnitude(n)), PrintInt(n) + rest;
    var s := if n < 0 then 1 else 0;
    assert t[s..] == d + rest && t[s] == d[0] && IsDigit(d[0]);
    DigitRunOf(d, rest);
    var i := |PrintInt(n)|;
    assert t[i..] == [] + rest;
    FractionLengthAppend([], rest);
    ExponentLengthAppend([], rest);
  }

  /** An integer is read back by the number parser, if it is not too long. */
  lemma ParsePrintNumber(f: Floats, n: int, rest: Text)
    requires NumberEnds(rest)
    ensures ParseNumber(f, PrintInt(n) + rest) ==
            if DigitCount(n) <= MAX_JSON_INTEGER_DIGITS then Done(Int(n), rest) else Fail
  {
    IntegerLength(n, rest);
    ParsePrintInt(n, rest);
  }

  /** What a float token begins with, and which characters it is made of. */
  predicate NumberCharacter(c: int) { IsDigit(c) || c == 43 || c == MINUS || c == 46 || c == 69 || c == 101 }

  lemma {:induction false} DigitRunDigits(t: Text, i: nat)
    requires i < DigitRun(t)
    ensures IsDigit(t[i])
  {
    if i > 0 { DigitRunDigits(t[1..], i - 1); }
  }

  lemma TokenStart(t: Text)
    requires FloatToken(t)
    ensures t[0] == MINUS || IsDigit(t[0])
  {
    if t[0] != MINUS { DigitRunDigits(t, 0); assert t[0..] == t; }
  }

  lemma TokenCharacters(t: Text)
    requires FloatToken(t)
    ensures forall k | 0 <= k < |t| :: NumberCharacter(t[k])
  {
    var i := IntLength(t);
    var j := i + FractionLength(t[i..]);
    forall k | 0 <= k < |t| ensures NumberCharacter(t[k]) {
      if k < i { IntCharacter(t, k); }
      else if k < j { assert t[k] == t[i..][k - i]; FractionCharacter(t[i..], k - i); }
      else { assert t[k] == t[j..][k - j]; ExponentCharacter(t[j..], k - j); }
    }
  }

  lemma IntCharacter(t: Text, k: nat)
    requires k < IntLength(t)
    ensures NumberCharacter(t[k])
  {
    var s := if t[0] == MINUS then 1 else 0;
    if k >= s { DigitRunDigits(t[s..], k - s); assert t[s..][k - s] == t[k]; }
  }

  lemma FractionCharacter(t: Text, k: nat)
    requires k < FractionLength(t)
    ensures NumberCharacter(t[k])
  {
    if k > 0 { DigitRunDigits(t[1..], k - 1); assert t[1..][k - 1] == t[k]; }
  }

  lemma ExponentCharacter(t: Text, k: nat)
    requires k < ExponentLength(t)
    ensures NumberCharacter(t[k])
  {
    var s := if |t| > 1 && (t[1] == 43 || t[1] == MINUS) then 2 else 1;
    if k >= s { DigitRunDigits(t[s..], k - s); assert t[s..][k - s] == t[k]; }
  }

  // ----- strings

  function HexDigit(d: int): int
    requires 0 <= d < 16
  {
    if d < 10 then 48 + d else 87 + d
  }

  function HexValue(c: int): int {
    if 48 <= c <= 57 then c - 48
    else if 97 <= c <= 102 then c - 87
    else if 65 <= c <= 70 then c - 55
    else -1
  }

  function Hex4(n: int): (t: Text)
    requires 0 <= n < 0x10000
    ensures |t| == 4
  {
    var n1 := n / 16;
    var n2 := n1 / 16;
    [HexDigit(n2 / 16), HexDigit(n2 % 16), HexDigit(n1 % 16), HexDigit(n % 16)]
  }

  function ParseHex4(t: Text): Option<int> {
    if |t| < 4 || HexValue(t[0]) < 0 || HexValue(t[1]) < 0 || HexValue(t[2]) < 0 || HexValue(t[3]) < 0 then None
    else Some(((HexValue(t[0]) * 16 + HexValue(t[1])) * 16 + HexValue(t[2])) * 16 + HexValue(t[3]))
  }

  lemma ParseHexOf(n: int, rest: Text)
    requires 0 <= n < 0x10000
    ensures ParseHex4(Hex4(n) + rest) == Some(n)
  {
    var t := Hex4(n) + rest;
    assert HexValue(t[0]) == n / 16 / 16 / 16 && HexValue(t[1]) == n / 16 / 16 % 16;
    assert HexValue(t[2]) == n / 16 % 16 && HexValue(t[3]) == n % 16;
  }

  predicate IsHigh(c: int) { 0xD800 <= c < 0xDC00 }
  predicate IsLow(c: int) { 0xDC00 <= c < 0xE000 }

  predicate IsCodePoint(c: int) { 0 <= c <= 0x10FFFF }

  ghost predicate AllCodePoints(s: Text) {
    forall i | 0 <= i < |s| :: IsCodePoint(s[i])
  }

  function UnicodeEscape(n: int): (t: Text)
    requires 0 <= n < 0x10000
    ensures |t| == 6
  {
    [BACKSLASH, LOWER_U] + Hex4(n)
  }

  /** The letter of a two-character escape, if the code point has one. */
  function ShortEscape(c: int): int {
    if c == QUOTE then QUOTE
    else if c == BACKSLASH then BACKSLASH
    else if c == 10 then 110
    else if c == 13 then 114
    else if c == 9 then 116
    else if c == 12 then 102
    else if c == 8 then 98
    else 0
  }

  function Unescape(e: int): Option<int> {
    if e == QUOTE then Some(QUOTE)
    else if e == BACKSLASH then Some(BACKSLASH)
    else if e == 47 then Some(47)
    else if e == 110 then Some(10)
    else if e == 114 then Some(13)
    else if e == 116 then Some(9)
    else if e == 102 then Some(12)
    else if e == 98 then Some(8)
    else None
  }

  /** The surrogate pair of a supplementary code point. */
  function HighOf(c: int): (u: int)
    requires 0x10000 <= c <= 0x10FFFF
    ensures IsHigh(u)
  {
    0xD800 + (c - 0x10000) / 1024
  }

  function LowOf(c: int): (w: int)
    requires 0x10000 <= c <= 0x10FFFF
    ensures IsLow(w)
  {
    0xDC00 + (c - 0x10000) % 1024
  }

  function Join(u: int, w: int): int {
    0x10000 + (u - 0xD800) * 1024 + (w - 0xDC00)
  }

  function EscapeOne(c: int): (t: Text)
    requires IsCodePoint(c)
    ensures t != []
  {
    if ShortEscape(c) != 0 then [BACKSLASH, ShortEscape(c)]
    else if 32 <= c <= 126 then [c]
    else if c < 0x10000 then UnicodeEscape(c)
    else UnicodeEscape(HighOf(c)) + UnicodeEscape(LowOf(c))
  }

  function Escape(s: Text): Text
    requires AllCodePoints(s)
  {
    if s == [] then [] else EscapeOne(s[0]) + Escape(s[1..])
  }

  function PrintString(s: Text): Text
    requires AllCodePoints(s)
  {
    [QUOTE] + Escape(s) + [QUOTE]
  }

  /** The next character of a string body: its code point and the text after it. */
  function ParseCharacter(t: Text): (p: Parsed<int>)
    requires t != []
    ensures p.Done? ==> |p.rest| < |t|
  {
    if t[0] < 32 then Fail
    else if t[0] != BACKSLASH then Done(t[0], t[1..])
    else if |t| < 2 then Fail
    else if t[1] != LOWER_U then
      match Unescape(t[1])
      case None => Fail
      case Some(c) => Done(c, t[2..])
    else
      match ParseHex4(t[2..])
      case None => Fail
      case Some(u) =>
        if IsHigh(u) && |t| >= 12 && t[6] == BACKSLASH && t[7] == LOWER_U
           && ParseHex4(t[8..]).Some? && IsLow(ParseHex4(t[8..]).value)
        then Done(Join(u, ParseHex4(t[8..]).value), t[12..])
        else Done(u, t[6..])
  }

  /** The body of a string, up to its closing quote. */
  function ParseBody(t: Text): (p: Parsed<Text>)
    ensures p.Done? ==> |p.rest| < |t|
    decreases |t|
  {
    if t == [] then Fail
    else if t[0] == QUOTE then Done([], t[1..])
    else
      match ParseCharacter(t)
      case Fail => Fail
      case Done(c, rest) =>
        match ParseBody(rest)
        case Fail => Fail
        case Done(s, rest') => Done([c] + s, rest')
  }

  function ParseString(t: Text): (p: Parsed<Text>)
    ensures p.Done? ==> |p.rest| < |t|
  {
    if t == [] || t[0] != QUOTE then Fail else ParseBody(t[1..])
  }

  lemma ParseEscapedCharacter(c: int, rest: Text)
    requires Utf8.IsScalar(c)
    ensures EscapeOne(c)[0] != QUOTE
    ensures ParseCharacter(EscapeOne(c) + rest) == Done(c, rest)
  {
    var t := EscapeOne(c) + rest;
    if ShortEscape(c) != 0 {
      assert t[2..] == rest;
    } else if 32 <= c <= 126 {
      assert t[1..] == rest;
    } else if c < 0x10000 {
      ParseUnicodeEscape(c, rest);
    } else {
      ParseSurrogatePair(c, rest);
    }
  }

  lemma ParseUnicodeEscape(u: int, rest: Text)
    requires 0 <= u < 0x10000 && !IsHigh(u)
    ensures ParseCharacter(UnicodeEscape(u) + rest) == Done(u, rest)
  {
    var t := UnicodeEscape(u) + rest;
    assert t[2..] == Hex4(u) + rest && t[6..] == rest;
    ParseHexOf(u, rest);
  }

  /** A supplementary code point is written as two escapes and read back as one. */
  lemma ParseSurrogatePair(c: int, rest: Text)
    requires 0x10000 <= c <= 0x10FFFF
    ensures ParseCharacter(EscapeOne(c) + rest) == Done(c, rest)
  {
    var u, w := HighOf(c), LowOf(c);
    assert Join(u, w) == c;
    JoinSurrogates(u, w, rest);
    assert EscapeOne(c) == UnicodeEscape(u) + UnicodeEscape(w);
    assert UnicodeEscape(u) + UnicodeEscape(w) + rest == UnicodeEscape(u) + (UnicodeEscape(w) + rest);
  }

  lemma JoinSurrogates(u: int, w: int, rest: Text)
    requires IsHigh(u) && IsLow(w)
    ensures ParseCharacter(UnicodeEscape(u) + (UnicodeEscape(w) + rest))
            == Done(Join(u, w), rest)
  {
    var t := UnicodeEscape(u) + (UnicodeEscape(w) + rest);
    assert t[2..] == Hex4(u) + (UnicodeEscape(w) + rest);
    ParseHexOf(u, UnicodeEscape(w) + rest);
    assert t[8..] == Hex4(w) + rest && t[12..] == rest;
    ParseHexOf(w, rest);
  }

  lemma {:induction false} ParsePrintBody(s: Text, rest: Text)
    requires Utf8.AllScalar(s)
    ensures ParseBody(Escape(s) + [QUOTE] + rest) == Done(s, rest)
  {
    var t := Escape(s) + [QUOTE] + rest;
    if s == [] {
      assert t == [QUOTE] + rest;
    } else {
      var tail := Escape(s[1..]) + [QUOTE] + rest;
      Shift(EscapeOne(s[0]), Escape(s[1..]), [QUOTE], rest);
      ParseEscapedCharacter(s[0], tail);
      ParsePrintBody(s[1..], rest);
      FirstAndRest(s);
    }
  }

  lemma Shift(a: Text, b: Text, c: Text, d: Text)
    ensures a + b + c + d == a + (b + c + d)
  {
  }

  lemma FirstAndRest(s: Text)
    requires s != []
    ensures [s[0]] + s[1..] == s
  {
  }

  lemma ParsePrintString(s: Text, rest: Text)
    requires Utf8.AllScalar(s)
    ensures ParseString(PrintString(s) + rest) == Done(s, rest)
  {
    ParsePrintBody(s, rest);
    Shift([QUOTE], Escape(s), [QUOTE], rest);
    BehindFirst(QUOTE, Escape(s) + [QUOTE] + rest);
  }

  lemma BehindFirst(c: int, t: Text)
    ensures ([c] + t)[0] == c && ([c] + t)[1..] == t
  {
  }
}
