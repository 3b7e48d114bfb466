/** The grammar of JSON texts (sections 2 to 7 of RFC 8259), as a relation between a value, a text and what is left of
    the text behind a spelling of the value, and the strict decoder against it: the parser reads exactly these
    spellings, with distinct keys and numbers within their limits. */
module JsonGrammar {
  import opened Wrappers
  import opened Ordering
  import opened Json
  import opened JsonDocument
  import opened JsonLoaded

  // ----- numbers

  predicate DigitText(t: Text) {
    t != [] && forall i | 0 <= i < |t| :: 48 <= t[i] <= 57
  }

  /** `[ minus ] int`: no leading zero. */
  predicate IntText(t: Text) {
    var d := if t != [] && t[0] == 45 then t[1..] else t;
    DigitText(d) && (d[0] == 48 ==> |d| == 1)
  }

  predicate FractionText(t: Text) { t == [] || (t[0] == 46 && DigitText(t[1..])) }

  predicate ExponentText(t: Text) {
    || t == []
    || ((t[0] == 101 || t[0] == 69)
        && (DigitText(t[1..]) || (|t| > 1 && (t[1] == 43 || t[1] == 45) && DigitText(t[2..]))))
  }

  /** An integer of at most 128 digits. */
  ghost predicate SpellsInt(n: int, t: Text, rest: Text) {
    exists k :: IntAt(n, t, rest, k)
  }

  ghost predicate IntAt(n: int, t: Text, rest: Text, k: int) {
    && 0 < k <= |t| && rest == t[k..] && IntText(t[..k])
    && if t[0] == 45 then k <= 129 && n == -Value(t[1..k]) else k <= 128 && n == Value(t[..k])
  }

  /** A number with a fraction or an exponent, of at most 256 characters. */
  ghost predicate SpellsFloat(f: Floats, x: Text, t: Text, rest: Text) {
    exists i, j, k :: FloatAt(f, x, t, rest, i, j, k)
  }

  ghost predicate FloatAt(f: Floats, x: Text, t: Text, rest: Text, i: int, j: int, k: int) {
    && 0 < i <= j <= k <= |t| && i < k <= 256 && rest == t[k..] && f(t[..k]) == Some(x)
    && IntText(t[..i]) && FractionText(t[i..j]) && ExponentText(t[j..k])
  }

  // ----- strings

  /** What a hexadecimal digit of either case is worth. */
  function HexWorth(c: int): int {
    if 48 <= c <= 57 then c - 48 else if 97 <= c <= 102 then c - 87 else if 65 <= c <= 70 then c - 55 else -1
  }

  /** A backslash, the letter u and four hexadecimal digits. */
  predicate UnicodeAt(u: int, t: Text) {
    && |t| >= 6 && t[0] == 92 && t[1] == 117
    && HexWorth(t[2]) >= 0 && HexWorth(t[3]) >= 0 && HexWorth(t[4]) >= 0 && HexWorth(t[5]) >= 0
    && u == 4096 * HexWorth(t[2]) + 256 * HexWorth(t[3]) + 16 * HexWorth(t[4]) + HexWorth(t[5])
  }

  predicate ShortLetter(e: int, c: int) {
    (e, c) in {(34, 34), (92, 92), (47, 47), (98, 8), (102, 12), (110, 10), (114, 13), (116, 9)}
  }

  predicate High(u: int) { 0xD800 <= u <= 0xDBFF }
  predicate Low(u: int) { 0xDC00 <= u <= 0xDFFF }

  ghost predicate LowFollows(t: Text) { exists l :: Low(l) && UnicodeAt(l, t) }

  /** One character: itself, a short escape, an escaped code unit that is not half of a pair, or an escaped pair. */
  ghost predicate SpellsChar(c: int, t: Text, rest: Text) {
    || (t != [] && t[0] == c && c >= 32 && c != 34 && c != 92 && rest == t[1..])
    || (|t| >= 2 && t[0] == 92 && ShortLetter(t[1], c) && rest == t[2..])
    || (UnicodeAt(c, t) && rest == t[6..] && !(High(c) && LowFollows(rest)))
    || SpellsPair(c, t, rest)
  }

  ghost predicate SpellsPair(c: int, t: Text, rest: Text) {
    |t| >= 12 && rest == t[12..]
    && exists h, l :: High(h) && Low(l) && UnicodeAt(h, t) && UnicodeAt(l, t[6..])
                      && c == 0x10000 + (h - 0xD800) * 0x400 + (l - 0xDC00)
  }

  ghost predicate SpellsBody(s: Text, t: Text, rest: Text)
    decreases |s|
  {
    if s == [] then t != [] && t[0] == 34 && rest == t[1..]
    else exists u :: SpellsChar(s[0], t, u) && SpellsBody(s[1..], u, rest)
  }

  ghost predicate SpellsString(s: Text, t: Text, rest: Text) {
    t != [] && t[0] == 34 && SpellsBody(s, t[1..], rest)
  }

  // ----- values

  predicate IsSpace(c: int) { c == 32 || c == 9 || c == 10 || c == 13 }

  /** Any amount of space. */
  ghost predicate Spaced(t: Text, rest: Text) {
    exists n :: SpaceUpTo(t, rest, n)
  }

  predicate SpaceUpTo(t: Text, rest: Text, n: int) {
    0 <= n <= |t| && rest == t[n..] && forall i | 0 <= i < n :: IsSpace(t[i])
  }

  predicate Starts(t: Text, c: int) { t != [] && t[0] == c }

  /** The text t begins with a spelling of v, and rest is behind it. */
  ghost predicate Spells(f: Floats, v: Json, t: Text, rest: Text)
    decreases v, 1, 0, 0
  {
    match v
    case Null => |t| >= 4 && t[..4] == [110, 117, 108, 108] && rest == t[4..]
    case Bool(true) => |t| >= 4 && t[..4] == [116, 114, 117, 101] && rest == t[4..]
    case Bool(false) => |t| >= 5 && t[..5] == [102, 97, 108, 115, 101] && rest == t[5..]
    case Int(n) => SpellsInt(n, t, rest)
    case Float(x) => SpellsFloat(f, x, t, rest)
    case Str(s) => SpellsString(s, t, rest)
    case Arr(items) =>
      && Starts(t, 91)
      && if items == [] then exists u :: Spaced(t[1..], u) && Starts(u, 93) && rest == u[1..]
         else SpellsItems(f, v, 0, t[1..], rest)
    case Obj(fields) =>
      && Starts(t, 123)
      && if fields == map[] then exists u :: Spaced(t[1..], u) && Starts(u, 125) && rest == u[1..]
         else exists keys | Lists(keys, fields) :: SpellsMembers(f, v, keys, t[1..], rest)
  }

  /** Every key of the object once, in some order. */
  ghost predicate Lists(keys: seq<Text>, fields: map<Text, Json>) {
    && (forall k | k in keys :: k in fields) && (forall k | k in fields :: k in keys)
    && forall i, j | 0 <= i < j < |keys| :: keys[i] != keys[j]
  }

  /** The items from position i on, with commas between them, up to the closing bracket. */
  ghost predicate SpellsItems(f: Floats, v: Json, i: nat, t: Text, rest: Text)
    requires v.Arr? && i < |v.items|
    decreases v, 0, |v.items| - i, 1
  {
    exists a, b, c :: ItemThen(f, v, i, t, a, b, c, rest)
  }

  /** Item i from a to b, space up to c, and the rest. */
  ghost predicate ItemThen(f: Floats, v: Json, i: nat, t: Text, a: Text, b: Text, c: Text, rest: Text)
    requires v.Arr? && i < |v.items|
    decreases v, 0, |v.items| - i, 0
  {
    && Spaced(t, a) && Spells(f, v.items[i], a, b) && Spaced(b, c)
    && if i == |v.items| - 1 then Starts(c, 93) && rest == c[1..]
       else Starts(c, 44) && SpellsItems(f, v, i + 1, c[1..], rest)
  }

  /** The members with these keys, with commas between them, up to the closing brace. */
  ghost predicate SpellsMembers(f: Floats, v: Json, keys: seq<Text>, t: Text, rest: Text)
    requires v.Obj? && forall k | k in keys :: k in v.fields
    decreases v, 0, |keys|, 1
  {
    keys != [] && exists a, b, c :: MemberThen(f, v, keys, t, a, b, c, rest)
  }

  /** The first key up to a, its value up to b, space up to c, and the rest. */
  ghost predicate MemberThen(f: Floats, v: Json, keys: seq<Text>, t: Text, a: Text, b: Text, c: Text, rest: Text)
    requires v.Obj? && keys != [] && forall k | k in keys :: k in v.fields
    decreases v, 0, |keys|, 0
  {
    && SpellsKey(keys[0], t, a) && Spells(f, v.fields[keys[0]], a, b) && Spaced(b, c)
    && if |keys| == 1 then Starts(c, 125) && rest == c[1..]
       else Starts(c, 44) && SpellsMembers(f, v, keys[1..], c[1..], rest)
  }

  /** A key, its colon, and the space before, between and behind them. */
  ghost predicate SpellsKey(k: Text, t: Text, rest: Text) {
    exists a, b, c :: KeyThen(k, t, a, b, c, rest)
  }

  ghost predicate KeyThen(k: Text, t: Text, a: Text, b: Text, c: Text, rest: Text) {
    Spaced(t, a) && SpellsString(k, a, b) && Spaced(b, c) && Starts(c, 58) && Spaced(c[1..], rest)
  }
}
