/** Base64 (section 4 of RFC 4648), as used for the detached signature: encoding, and the validating decoder, which
    ignores the unused low bits of the last digit. */
module Base64 {
  import opened Wrappers
  import opened Ordering

  const PAD := 61

  predicate IsBytes(x: Text) { forall i | 0 <= i < |x| :: 0 <= x[i] < 256 }

  function Digit(v: int): (c: int)
    requires 0 <= v < 64
    ensures 0 < c < 128 && c != PAD && DigitValue(c) == v
  {
    if v < 26 then 65 + v else if v < 52 then 71 + v else if v < 62 then v - 4 else if v == 62 then 43 else 47
  }

  /** The value of a digit, or -1. */
  type Sextet = v: int | -1 <= v < 64

  function DigitValue(c: int): Sextet {
    if 65 <= c <= 90 then c - 65
    else if 97 <= c <= 122 then c - 71
    else if 48 <= c <= 57 then c + 4
    else if c == 43 then 62
    else if c == 47 then 63
    else -1
  }

  function Encode(x: Text): (t: Text)
    requires IsBytes(x)
    ensures |t| == EncodedLength(|x|)
    ensures forall i | 0 <= i < |t| :: 0 < t[i] < 128
  {
    if x == [] then []
    else if |x| == 1 then Single(x[0])
    else if |x| == 2 then Double(x[0], x[1])
    else Quad(x[0], x[1], x[2]) + Encode(x[3..])
  }

  /** Four digits for every started group of three bytes. */
  function EncodedLength(n: nat): (m: nat)
    ensures m == (n + 2) / 3 * 4
  {
    if n == 0 then 0 else if n <= 3 then 4 else 4 + EncodedLength(n - 3)
  }

  /** The last one or two bytes, padded. */
  function Single(x: int): (t: Text)
    requires 0 <= x < 256
    ensures |t| == 4 && forall i | 0 <= i < 4 :: 0 < t[i] < 128
  {
    [Digit(x / 4), Digit(x % 4 * 16), PAD, PAD]
  }

  function Double(x: int, y: int): (t: Text)
    requires 0 <= x < 256 && 0 <= y < 256
    ensures |t| == 4 && forall i | 0 <= i < 4 :: 0 < t[i] < 128
  {
    [Digit(x / 4), Digit(x % 4 * 16 + y / 16), Digit(y % 16 * 4), PAD]
  }

  /** Three bytes as four digits. */
  function Quad(x: int, y: int, z: int): (t: Text)
    requires 0 <= x < 256 && 0 <= y < 256 && 0 <= z < 256
    ensures |t| == 4 && (forall i | 0 <= i < 4 :: 0 < t[i] < 128)
    ensures t[2] != PAD && t[3] != PAD
  {
    [Digit(x / 4), Digit(x % 4 * 16 + y / 16), Digit(y % 16 * 4 + z / 64), Digit(z % 64)]
  }

  lemma QuadValues(x: int, y: int, z: int)
    requires 0 <= x < 256 && 0 <= y < 256 && 0 <= z < 256
    ensures var t := Quad(x, y, z);
            var a, b, c, d := DigitValue(t[0]), DigitValue(t[1]), DigitValue(t[2]), DigitValue(t[3]);
            && a >= 0 && b >= 0 && c >= 0 && d >= 0
            && a * 4 + b / 16 == x && b % 16 * 16 + c / 4 == y && c % 4 * 64 + d == z
  {
  }

  function Decode(t: Text): (x: Option<Text>)
    ensures x.Some? ==> IsBytes(x.value)
  {
    DecodeWith(t, DigitValue)
  }

  /** The bytes of four digits. */
  function Three(a: Sextet, b: Sextet, c: Sextet, d: Sextet): Text {
    [a * 4 + b / 16, b % 16 * 16 + c / 4, c % 4 * 64 + d]
  }

  /** Decoding with a given table of digit values. */
  function DecodeWith(t: Text, value: int -> Sextet): (x: Option<Text>)
    ensures x.Some? ==> IsBytes(x.value)
    decreases |t|
  {
    if t == [] then Some([])
    else if |t| < 4 then None
    else
      var a, b, c, d := value(t[0]), value(t[1]), value(t[2]), value(t[3]);
      if a < 0 || b < 0 then None
      else if |t| == 4 && t[2] == PAD && t[3] == PAD then Some([a * 4 + b / 16])
      else if c < 0 then None
      else if |t| == 4 && t[3] == PAD then Some([a * 4 + b / 16, b % 16 * 16 + c / 4])
      else if d < 0 then None
      else
        match DecodeWith(t[4..], value)
        case None => None
        case Some(rest) => Some(Three(a, b, c, d) + rest)
  }

  lemma DecodeQuad(q: Text, t: Text, value: int -> Sextet)
    requires |q| == 4 && q[3] != PAD && DecodeWith(t, value).Some?
    requires value(q[0]) >= 0 && value(q[1]) >= 0 && value(q[2]) >= 0 && value(q[3]) >= 0
    ensures var a, b, c, d := value(q[0]), value(q[1]), value(q[2]), value(q[3]);
            DecodeWith(q + t, value) == Some(Three(a, b, c, d) + DecodeWith(t, value).value)
  {
    assert (q + t)[4..] == t;
    DecodeFour(q + t, value);
  }

  lemma DecodeFour(t: Text, value: int -> Sextet)
    requires |t| >= 4 && t[3] != PAD && DecodeWith(t[4..], value).Some?
    requires value(t[0]) >= 0 && value(t[1]) >= 0 && value(t[2]) >= 0 && value(t[3]) >= 0
    ensures DecodeWith(t, value)
            == Some(Three(value(t[0]), value(t[1]), value(t[2]), value(t[3])) + DecodeWith(t[4..], value).value)
  {
  }

  lemma ShortValues(x: int, y: int)
    requires 0 <= x < 256 && 0 <= y < 256
    ensures x / 4 * 4 + (x % 4 * 16) / 16 == x
    ensures x / 4 * 4 + (x % 4 * 16 + y / 16) / 16 == x
    ensures (x % 4 * 16 + y / 16) % 16 * 16 + (y % 16 * 4) / 4 == y
  {
  }

  lemma DecodePadded(x: int, y: int, z: int, value: int -> Sextet)
    requires value(x) >= 0 && value(y) >= 0
    ensures DecodeWith([x, y, PAD, PAD], value) == Some([value(x) * 4 + value(y) / 16])
    ensures value(z) >= 0 && z != PAD ==>
              DecodeWith([x, y, z, PAD], value)
                == Some([value(x) * 4 + value(y) / 16, value(y) % 16 * 16 + value(z) / 4])
  {
  }

  lemma DecodeDigits(p: int, q: int, r: int)
    requires 0 <= p < 64 && 0 <= q < 64 && 0 <= r < 64
    ensures Decode([Digit(p), Digit(q), PAD, PAD]) == Some([p * 4 + q / 16])
    ensures Decode([Digit(p), Digit(q), Digit(r), PAD]) == Some([p * 4 + q / 16, q % 16 * 16 + r / 4])
  {
    DecodePadded(Digit(p), Digit(q), Digit(r), DigitValue);
  }

  lemma DecodeSingle(x: int)
    requires 0 <= x < 256
    ensures Decode(Single(x)) == Some([x])
  {
    ShortValues(x, 0);
    DecodeDigits(x / 4, x % 4 * 16, 0);
  }

  lemma DecodeDouble(x: int, y: int)
    requires 0 <= x < 256 && 0 <= y < 256
    ensures Decode(Double(x, y)) == Some([x, y])
  {
    var p, q, r := x / 4, x % 4 * 16 + y / 16, y % 16 * 4;
    ShortValues(x, y);
    DecodeDigits(p, q, r);
    assert [p * 4 + q / 16, q % 16 * 16 + r / 4] == [x, y];
  }

  lemma DecodeStep(x: int, y: int, z: int, t: Text)
    requires 0 <= x < 256 && 0 <= y < 256 && 0 <= z < 256 && Decode(t).Some?
    ensures Decode(Quad(x, y, z) + t) == Some([x, y, z] + Decode(t).value)
  {
    QuadValues(x, y, z);
    DecodeQuad(Quad(x, y, z), t, DigitValue);
  }

  lemma {:induction false} DecodeEncode(x: Text)
    requires IsBytes(x)
    ensures Decode(Encode(x)) == Some(x)
  {
    if |x| >= 3 {
      DecodeEncode(x[3..]);
      DecodeStep(x[0], x[1], x[2], Encode(x[3..]));
      assert x == [x[0], x[1], x[2]] + x[3..];
    } else if |x| == 2 {
      DecodeDouble(x[0], x[1]);
      assert x == [x[0], x[1]];
    } else if |x| == 1 {
      DecodeSingle(x[0]);
      assert x == [x[0]];
    }
  }

  /** The check `b64encode(b64decode(t)) == t` leaves one text per byte string. */
  predicate IsCanonical(t: Text) { Decode(t).Some? && Encode(Decode(t).value) == t }

  lemma CanonicalUnique(t: Text, x: Text)
    requires IsBytes(x)
    ensures IsCanonical(t) && Decode(t) == Some(x) <==> t == Encode(x)
  {
    DecodeEncode(x);
  }

  /** Without that check two texts decode to the same byte. */
  lemma DecoderAloneIsAmbiguous()
    ensures Decode([65, 65, PAD, PAD]) == Decode([65, 66, PAD, PAD]) == Some([0])
    ensures !IsCanonical([65, 66, PAD, PAD])
  {
  }

  // ----- the encoding as section 4 of RFC 4648 describes it

  /** Table 1 of RFC 4648. */
  function Letter(v: int): int {
    if 0 <= v <= 25 then 'A' as int + v
    else if 26 <= v <= 51 then 'a' as int + (v - 26)
    else if 52 <= v <= 61 then '0' as int + (v - 52)
    else if v == 62 then '+' as int
    else '/' as int
  }

  function ByteAt(x: Text, i: nat): int { if i < |x| then x[i] else 0 }

  /** The three bytes of group g as one number of 24 bits, zero bits added at the end. */
  function Bits(x: Text, g: nat): int {
    ByteAt(x, 3 * g) * 0x1_0000 + ByteAt(x, 3 * g + 1) * 0x100 + ByteAt(x, 3 * g + 2)
  }

  /** Digit k of four: six bits, the most significant ones first. */
  function SixBits(n: int, k: nat): (v: int)
    ensures 0 <= v < 64
  {
    (if k == 0 then n / 0x4_0000 else if k == 1 then n / 0x1000 else if k == 2 then n / 64 else n) % 64
  }

  ghost predicate Spelled(t: Text, x: Text, i: nat)
    requires i < |t|
  {
    t[i] == if 3 * (i / 4) + i % 4 > |x| then '=' as int else Letter(SixBits(Bits(x, i / 4), i % 4))
  }

  /** What stands at position i: a letter for six bits of its group, or padding behind the last byte. */
  lemma {:induction false} EncodedAt(x: Text, i: nat)
    requires IsBytes(x) && i < |Encode(x)|
    ensures Spelled(Encode(x), x, i)
  {
    if i < 4 {
      FirstGroup(x, i);
    } else {
      NextGroup(x, i);
      EncodedAt(x[3..], i - 4);
    }
  }

  lemma DigitIsLetter(v: int)
    requires 0 <= v < 64
    ensures Digit(v) == Letter(v)
  {
  }

  /** The first four characters. */
  ghost predicate Starts(t: Text, n: nat, a: int, b: int, c: int)
    requires 0 <= a < 256 && 0 <= b < 256 && 0 <= c < 256
  {
    && |t| >= 4 && t[0] == Digit(a / 4) && t[1] == Digit(a % 4 * 16 + b / 16)
    && t[2] == (if n < 2 then PAD else Digit(b % 16 * 4 + c / 64))
    && t[3] == (if n < 3 then PAD else Digit(c % 64))
  }

  lemma FirstFour(x: Text, a: int, b: int, c: int)
    requires IsBytes(x) && x != [] && a == ByteAt(x, 0) && b == ByteAt(x, 1) && c == ByteAt(x, 2)
    ensures Starts(Encode(x), |x|, a, b, c)
  {
    if |x| == 1 {
      assert b / 16 == 0 && Encode(x) == Single(a);
    } else if |x| == 2 {
      assert c / 64 == 0 && Encode(x) == Double(a, b);
    } else {
      assert Encode(x)[..4] == Quad(a, b, c);
    }
  }

  lemma FirstGroup(x: Text, i: nat)
    requires IsBytes(x) && i < 4 && i < |Encode(x)|
    ensures Spelled(Encode(x), x, i)
  {
    FirstFour(x, ByteAt(x, 0), ByteAt(x, 1), ByteAt(x, 2));
    StartsSpelled(Encode(x), x, i);
  }

  lemma StartsSpelled(t: Text, x: Text, i: nat)
    requires IsBytes(x) && x != [] && i < 4 && Starts(t, |x|, ByteAt(x, 0), ByteAt(x, 1), ByteAt(x, 2))
    ensures Spelled(t, x, i)
  {
    GroupBits(ByteAt(x, 0), ByteAt(x, 1), ByteAt(x, 2));
    Place(i);
    DigitIsLetter(SixBits(Bits(x, 0), i));
  }

  lemma Place(i: nat)
    requires i < 4
    ensures i / 4 == 0 && i % 4 == i && (i == 0 || i == 1 || i == 2 || i == 3)
  {
  }

  lemma NextGroup(x: Text, i: nat)
    requires IsBytes(x) && 4 <= i < |Encode(x)|
    ensures |x| > 3 && i - 4 < |Encode(x[3..])|
    ensures Spelled(Encode(x[3..]), x[3..], i - 4) ==> Spelled(Encode(x), x, i)
  {
    var g := i / 4;
    assert (i - 4) / 4 == g - 1 && (i - 4) % 4 == i % 4;
    assert Bits(x[3..], g - 1) == Bits(x, g);
    assert Encode(x)[i] == Encode(x[3..])[i - 4];
  }

  lemma GroupBits(x: int, y: int, z: int)
    requires 0 <= x < 256 && 0 <= y < 256 && 0 <= z < 256
    ensures var n := x * 0x1_0000 + y * 0x100 + z;
            && SixBits(n, 0) == x / 4 && SixBits(n, 1) == x % 4 * 16 + y / 16
            && SixBits(n, 2) == y % 16 * 4 + z / 64 && SixBits(n, 3) == z % 64
  {
    FourDigits(x / 4, x % 4 * 16 + y / 16, y % 16 * 4 + z / 64, z % 64);
  }

  lemma FourDigits(p: int, q: int, r: int, s: int)
    requires 0 <= p < 64 && 0 <= q < 64 && 0 <= r < 64 && 0 <= s < 64
    ensures var n := p * 0x4_0000 + q * 0x1000 + r * 64 + s;
            SixBits(n, 0) == p && SixBits(n, 1) == q && SixBits(n, 2) == r && SixBits(n, 3) == s
  {
    var n := p * 0x4_0000 + q * 0x1000 + r * 64 + s;
    assert n / 64 == p * 0x1000 + q * 64 + r;
    assert n / 0x1000 == p * 64 + q;
    assert n / 0x4_0000 == p;
  }
}
