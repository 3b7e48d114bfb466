/** Strict UTF-8, as Python's `encode("utf-8")` and `decode("utf-8", "strict")`: code points are
    0 to 0x10FFFF without the surrogates, and the encoding must be the shortest one. */
module Utf8 {
  import opened Wrappers
  import opened Ordering

  predicate IsSurrogate(c: int) {
    0xD800 <= c <= 0xDFFF
  }

  predicate IsScalar(c: int) {
    0 <= c <= 0x10FFFF && !IsSurrogate(c)
  }

  ghost predicate AllScalar(s: Text) {
    forall i | 0 <= i < |s| :: IsScalar(s[i])
  }

  ghost predicate AllAscii(s: Text) {
    forall i | 0 <= i < |s| :: 0 <= s[i] < 0x80
  }

  function EncodeOne(c: int): (b: Text)
    requires IsScalar(c)
    ensures 1 <= |b| <= 4
  {
    var c1 := c / 64;
    var c2 := c1 / 64;
    if c < 0x80 then [c]
    else if c < 0x800 then [0xC0 + c1, 0x80 + c % 64]
    else if c < 0x10000 then [0xE0 + c2, 0x80 + c1 % 64, 0x80 + c % 64]
    else [0xF0 + c2 / 64, 0x80 + c2 % 64, 0x80 + c1 % 64, 0x80 + c % 64]
  }

  function Encode(s: Text): Text
    requires AllScalar(s)
  {
    if s == [] then [] else EncodeOne(s[0]) + Encode(s[1..])
  }

  predicate Continuation(b: int) {
    0x80 <= b < 0xC0
  }

  /** The first code point of a byte string and the number of bytes it takes. */
  function DecodeOne(b: Text): Option<(int, nat)>
    requires b != []
  {
    if 0 <= b[0] < 0x80 then Some((b[0], 1))
    else if 0xC2 <= b[0] < 0xE0 && |b| >= 2 && Continuation(b[1]) then
      Some(((b[0] - 0xC0) * 64 + (b[1] - 0x80), 2))
    else if 0xE0 <= b[0] < 0xF0 && |b| >= 3 && Continuation(b[1]) && Continuation(b[2]) then
      var c := ((b[0] - 0xE0) * 64 + (b[1] - 0x80)) * 64 + (b[2] - 0x80);
      if c < 0x800 || IsSurrogate(c) then None else Some((c, 3))
    else if 0xF0 <= b[0] < 0xF5 && |b| >= 4 && Continuation(b[1]) && Continuation(b[2]) && Continuation(b[3]) then
      var c := (((b[0] - 0xF0) * 64 + (b[1] - 0x80)) * 64 + (b[2] - 0x80)) * 64 + (b[3] - 0x80);
      if 0x10000 <= c <= 0x10FFFF then Some((c, 4)) else None
    else None
  }

  function Decode(b: Text): (r: Option<Text>)
    ensures r.Some? ==> AllScalar(r.value)
  {
    if b == [] then Some([])
    else
      match DecodeOne(b)
      case None => None
      case Some((c, n)) =>
        match Decode(b[n..])
        case None => None
        case Some(rest) => Some([c] + rest)
  }

  lemma DecodeOneEncodeOne(c: int, rest: Text)
    requires IsScalar(c)
    ensures DecodeOne(EncodeOne(c) + rest) == Some((c, |EncodeOne(c)|))
  {
  }

  lemma {:induction false} DecodeEncode(s: Text)
    requires AllScalar(s)
    ensures Decode(Encode(s)) == Some(s)
  {
    if s != [] {
      var b, rest := EncodeOne(s[0]), Encode(s[1..]);
      DecodeOneEncodeOne(s[0], rest);
      assert (b + rest)[|b|..] == rest;
      DecodeEncode(s[1..]);
      assert s == [s[0]] + s[1..];
    }
  }

  lemma EncodeOneDecodeOne(b: Text)
    requires b != [] && DecodeOne(b).Some?
    ensures var (c, n) := DecodeOne(b).value; IsScalar(c) && n <= |b| && EncodeOne(c) == b[..n]
  {
    var (c, n) := DecodeOne(b).value;
    if n == 2 {
      Digit(b[0] - 0xC0, b[1] - 0x80);
    } else if n == 3 {
      var q := (b[0] - 0xE0) * 64 + (b[1] - 0x80);
      Digit(b[0] - 0xE0, b[1] - 0x80);
      Digit(q, b[2] - 0x80);
      assert c / 64 == q;
    } else if n == 4 {
      var q := (b[0] - 0xF0) * 64 + (b[1] - 0x80);
      var r := q * 64 + (b[2] - 0x80);
      Digit(b[0] - 0xF0, b[1] - 0x80);
      Digit(q, b[2] - 0x80);
      Digit(r, b[3] - 0x80);
      assert c / 64 == r && r / 64 == q;
    }
  }

  lemma Digit(q: int, r: int)
    requires 0 <= r < 64
    ensures (q * 64 + r) / 64 == q && (q * 64 + r) % 64 == r
  {
  }

  /** The decoder accepts nothing but encodings: strict UTF-8 is a bijection. */
  lemma {:induction false} EncodeDecode(b: Text)
    requires Decode(b).Some?
    ensures AllScalar(Decode(b).value) && Encode(Decode(b).value) == b
  {
    if b != [] {
      var (c, n) := DecodeOne(b).value;
      EncodeOneDecodeOne(b);
      DecodeFirst(b, c, n);
      EncodeDecode(b[n..]);
      EncodeFirst(c, Decode(b[n..]).value);
      CutAt(b, n);
    }
  }

  lemma DecodeFirst(b: Text, c: int, n: int)
    requires b != [] && Decode(b).Some? && DecodeOne(b) == Some((c, n)) && n <= |b|
    ensures Decode(b[n..]).Some? && Decode(b).value == [c] + Decode(b[n..]).value
  {
  }

  lemma CutAt(b: Text, n: nat)
    requires n <= |b|
    ensures b == b[..n] + b[n..]
  {
  }

  lemma EncodeFirst(c: int, s: Text)
    requires IsScalar(c) && AllScalar(s)
    ensures AllScalar([c] + s) && Encode([c] + s) == EncodeOne(c) + Encode(s)
  {
    assert ([c] + s)[1..] == s;
  }

  lemma {:induction false} DecodeAscii(s: Text)
    requires AllAscii(s)
    ensures Decode(s) == Some(s)
  {
    if s != [] {
      DecodeAscii(s[1..]);
      assert s == [s[0]] + s[1..];
    }
  }

  // ----- byte order is code point order

  lemma EncodeOneMonotone(c: int, d: int, x: Text, y: Text)
    requires IsScalar(c) && IsScalar(d) && c < d
    ensures Less(EncodeOne(c) + x, EncodeOne(d) + y)
  {
    var e, f := EncodeOne(c), EncodeOne(d);
    if |e| == |f| {
      EncodeOneSameLength(c, d);
      var k :| 0 <= k < |e| && e[..k] == f[..k] && e[k] < f[k];
      assert (e + x)[..k] == e[..k] && (f + y)[..k] == f[..k];
      LessAt(e + x, f + y, k);
    } else {
      assert e[0] < f[0];
    }
  }

  lemma EncodeOneSameLength(c: int, d: int)
    requires IsScalar(c) && IsScalar(d) && c < d && |EncodeOne(c)| == |EncodeOne(d)|
    ensures var e, f := EncodeOne(c), EncodeOne(d); exists k :: 0 <= k < |e| && e[..k] == f[..k] && e[k] < f[k]
  {
    var e, f, n := EncodeOne(c), EncodeOne(d), |EncodeOne(c)|;
    var c1, d1 := c / 64, d / 64;
    var c2, d2 := c1 / 64, d1 / 64;
    var k := if n == 1 then 0
             else if n == 2 then (if c1 < d1 then 0 else 1)
             else if n == 3 then (if c2 < d2 then 0 else if c1 < d1 then 1 else 2)
             else (if c2 / 64 < d2 / 64 then 0 else if c2 < d2 then 1 else if c1 < d1 then 2 else 3);
    assert e[..k] == f[..k] && e[k] < f[k];
  }

  lemma {:induction false} LessAt(a: Text, b: Text, k: nat)
    requires k < |a| && k < |b| && a[..k] == b[..k] && a[k] < b[k]
    ensures Less(a, b)
  {
    if k > 0 {
      assert a[0] == a[..k][0] == b[..k][0] == b[0];
      assert a[1..][..k - 1] == a[..k][1..] == b[..k][1..] == b[1..][..k - 1];
      LessAt(a[1..], b[1..], k - 1);
    }
  }

  /** Sorting by UTF-8 bytes is sorting by code points, so the two published path orders agree. */
  lemma {:induction false} EncodeMonotone(a: Text, b: Text)
    requires AllScalar(a) && AllScalar(b)
    ensures Less(Encode(a), Encode(b)) <==> Less(a, b)
  {
    if a == [] || b == [] {
    } else if a[0] == b[0] {
      LessPrefix(EncodeOne(a[0]), Encode(a[1..]), Encode(b[1..]));
      EncodeMonotone(a[1..], b[1..]);
    } else if a[0] < b[0] {
      EncodeOneMonotone(a[0], b[0], Encode(a[1..]), Encode(b[1..]));
    } else {
      EncodeOneMonotone(b[0], a[0], Encode(b[1..]), Encode(a[1..]));
      LessAsymmetric(Encode(b), Encode(a));
    }
  }

  // ----- the syntax of section 4 of RFC 3629

  predicate Tail(b: int) { 0x80 <= b <= 0xBF }

  predicate Syntax(b: Text) {
    || (|b| == 1 && 0x00 <= b[0] <= 0x7F)
    || (|b| == 2 && 0xC2 <= b[0] <= 0xDF && Tail(b[1]))
    || (|b| == 3 && b[0] == 0xE0 && 0xA0 <= b[1] <= 0xBF && Tail(b[2]))
    || (|b| == 3 && 0xE1 <= b[0] <= 0xEC && Tail(b[1]) && Tail(b[2]))
    || (|b| == 3 && b[0] == 0xED && 0x80 <= b[1] <= 0x9F && Tail(b[2]))
    || (|b| == 3 && 0xEE <= b[0] <= 0xEF && Tail(b[1]) && Tail(b[2]))
    || (|b| == 4 && b[0] == 0xF0 && 0x90 <= b[1] <= 0xBF && Tail(b[2]) && Tail(b[3]))
    || (|b| == 4 && 0xF1 <= b[0] <= 0xF3 && Tail(b[1]) && Tail(b[2]) && Tail(b[3]))
    || (|b| == 4 && b[0] == 0xF4 && 0x80 <= b[1] <= 0x8F && Tail(b[2]) && Tail(b[3]))
  }

  /** The decoder takes the first code point exactly when a character of that syntax stands in front. */
  lemma SyntaxExactly(b: Text)
    requires b != []
    ensures DecodeOne(b).Some? <==> exists n | 1 <= n <= |b| :: Syntax(b[..n])
    ensures DecodeOne(b).Some? ==> Syntax(b[..DecodeOne(b).value.1])
  {
    if DecodeOne(b).Some? {
      EncodeOneDecodeOne(b);
      EncodedSyntax(DecodeOne(b).value.0);
    }
    forall n | 1 <= n <= |b| && Syntax(b[..n]) ensures DecodeOne(b).Some? { SyntaxDecodes(b, n); }
  }

  lemma EncodedSyntax(c: int)
    requires IsScalar(c)
    ensures Syntax(EncodeOne(c))
  {
  }

  lemma SyntaxDecodes(b: Text, n: nat)
    requires 1 <= n <= |b| && Syntax(b[..n])
    ensures DecodeOne(b).Some? && DecodeOne(b).value.1 == n
  {
    var h := b[..n];
    assert h[0] == b[0] && (n > 1 ==> h[1] == b[1]) && (n > 2 ==> h[2] == b[2]) && (n > 3 ==> h[3] == b[3]);
  }
}
