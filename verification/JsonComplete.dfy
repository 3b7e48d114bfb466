/** Whatever the grammar spells the parser reads, so that the two agree; and what the strict decoder accepts as a
    whole. */
module JsonComplete {
  import opened Wrappers
  import opened Ordering
  import opened Json
  import opened JsonDocument
  import opened JsonLoaded
  import opened JsonGrammar
  import opened JsonSound

  // ----- space

  lemma {:induction false} SkipTo(t: Text, n: nat)
    requires n <= |t| && forall i | 0 <= i < n :: IsSpace(t[i])
    ensures SkipSpace(t) == SkipSpace(t[n..])
    decreases n
  {
    if n == 0 {
      assert t[0..] == t;
    } else {
      assert t[1..][n - 1..] == t[n..];
      forall i | 0 <= i < n - 1 ensures IsSpace(t[1..][i]) { assert t[1..][i] == t[i + 1]; }
      SkipTo(t[1..], n - 1);
    }
  }

  lemma SpacedSkips(t: Text, u: Text)
    requires Spaced(t, u)
    ensures SkipSpace(t) == SkipSpace(u)
    ensures u != [] && !IsSpace(u[0]) ==> SkipSpace(t) == u
    ensures t != [] && !IsSpace(t[0]) ==> u == t
  {
    var n :| SpaceUpTo(t, u, n);
    SkipTo(t, n);
    if n == 0 { assert t[0..] == t; }
  }

  /** Space, a comma or a closing bracket ends a number. */
  lemma SpaceEndsNumber(t: Text, u: Text)
    requires Spaced(t, u) && u != [] && (u[0] == COMMA || u[0] == CLOSE_BRACKET || u[0] == CLOSE_BRACE)
    ensures NumberEnds(t)
  {
    var n :| SpaceUpTo(t, u, n);
    if n > 0 { assert IsSpace(t[0]); } else { assert t[0..] == t; }
  }

  // ----- numbers

  lemma IntRun(d: Text, rest: Text)
    requires DigitText(d) && (d[0] == 48 ==> |d| == 1) && NumberEnds(rest)
    ensures ParseNatural(d + rest) == if |d| <= 128 then Done(Value(d), rest) else Fail
    ensures DigitRun(d + rest) == |d|
  {
    DigitRunOf(d, rest);
    assert (d + rest)[..|d|] == d && (d + rest)[|d|..] == rest && (d + rest)[0] == d[0];
  }

  lemma NothingMore(rest: Text)
    requires NumberEnds(rest)
    ensures FractionLength(rest) == 0 && ExponentLength(rest) == 0
  {
  }

  lemma LengthOfInt(x: Text, rest: Text)
    requires IntText(x) && (rest == [] || !IsDigit(rest[0]))
    ensures IntLength(x + rest) == |x|
  {
    var t := x + rest;
    var s := if x[0] == 45 then 1 else 0;
    var d := x[s..];
    assert s == 0 ==> d == x;
    assert t[s..] == d + rest && t[s] == d[0];
    DigitRunOf(d, rest);
  }

  lemma Behind(a: Text, u: Text)
    ensures (a + u)[|a|..] == u && (a + u)[..|a|] == a
  {
  }

  lemma IntComplete(f: Floats, n: int, t: Text, rest: Text)
    requires SpellsInt(n, t, rest) && NumberEnds(rest)
    ensures t != [] && (t[0] == MINUS || IsDigit(t[0])) && ParseNumber(f, t) == Done(Int(n), rest)
  {
    var k :| IntAt(n, t, rest, k);
    assert t[..k] + t[k..] == t && t[..k][0] == t[0] && t[1..k] == t[..k][1..];
    IntOf(f, n, t[..k], rest);
  }

  lemma IntOf(f: Floats, n: int, x: Text, rest: Text)
    requires IntText(x) && NumberEnds(rest)
    requires if x[0] == 45 then |x| <= 129 && n == -Value(x[1..]) else |x| <= 128 && n == Value(x)
    ensures ParseNumber(f, x + rest) == Done(Int(n), rest)
  {
    OnlyInt(x, rest);
    IntRead(n, x, rest);
    NumberIsInt(f, x + rest, Done(Int(n), rest));
  }

  lemma IntRead(n: int, x: Text, rest: Text)
    requires IntText(x) && NumberEnds(rest)
    requires if x[0] == 45 then |x| <= 129 && n == -Value(x[1..]) else |x| <= 128 && n == Value(x)
    ensures ParseInt(x + rest) == Done(Int(n), rest)
  {
    if x[0] == 45 { SignedRead(n, x, rest); } else { PositiveRead(n, x, rest); }
  }

  lemma OnlyInt(x: Text, rest: Text)
    requires IntText(x) && NumberEnds(rest)
    ensures IntLength(x + rest) == NumberLength(x + rest) == |x|
  {
    LengthOfInt(x, rest);
    NothingMore(rest);
    Behind(x, rest);
    assert (x + rest)[|x| + 0..] == rest;
  }

  lemma NumberIsInt(f: Floats, t: Text, p: Parsed<Json>)
    requires IntLength(t) == NumberLength(t) > 0 && ParseInt(t) == p
    ensures ParseNumber(f, t) == p
  {
  }

  lemma SignedRead(n: int, x: Text, rest: Text)
    requires IntText(x) && NumberEnds(rest) && x[0] == 45 && |x| <= 129 && n == -Value(x[1..])
    ensures ParseInt(x + rest) == Done(Int(n), rest)
  {
    BehindSign(x, rest);
    NegativeRead(x + rest, x[1..], rest);
  }

  lemma BehindSign(x: Text, rest: Text)
    requires x != []
    ensures (x + rest)[0] == x[0] && (x + rest)[1..] == x[1..] + rest
  {
  }

  lemma NegativeRead(t: Text, d: Text, rest: Text)
    requires DigitText(d) && (d[0] == 48 ==> |d| == 1) && NumberEnds(rest) && |d| <= 128
    requires t != [] && t[0] == MINUS && t[1..] == d + rest
    ensures ParseInt(t) == Done(Int(-Value(d)), rest)
  {
    IntRun(d, rest);
    NegativeStep(t, d + rest);
  }

  lemma NegativeStep(t: Text, u: Text)
    requires t != [] && t[0] == MINUS && t[1..] == u && ParseNatural(u).Done?
    ensures ParseInt(t) == Done(Int(-ParseNatural(u).value), ParseNatural(u).rest)
  {
  }

  lemma PositiveRead(n: int, d: Text, rest: Text)
    requires DigitText(d) && (d[0] == 48 ==> |d| == 1) && NumberEnds(rest) && |d| <= 128 && n == Value(d)
    ensures ParseInt(d + rest) == Done(Int(n), rest)
  {
    IntRun(d, rest);
    assert (d + rest)[0] == d[0];
    ParsePositive(d + rest);
  }

  lemma RunOfDigits(d: Text, rest: Text)
    requires DigitText(d) && (rest == [] || !IsDigit(rest[0]))
    ensures DigitRun(d + rest) == |d|
  {
    DigitRunOf(d, rest);
  }

  lemma LengthOfFraction(x: Text, rest: Text)
    requires FractionText(x) && (rest == [] || !(IsDigit(rest[0]) || rest[0] == 46))
    ensures FractionLength(x + rest) == |x|
  {
    if x == [] {
      assert x + rest == rest;
    } else {
      assert (x + rest)[1..] == x[1..] + rest;
      RunOfDigits(x[1..], rest);
    }
  }

  lemma LengthOfExponent(x: Text, rest: Text)
    requires ExponentText(x) && NumberEnds(rest)
    ensures ExponentLength(x + rest) == |x|
  {
    if x == [] {
      assert x + rest == rest;
    } else {
      var s := if |x| > 1 && (x[1] == 43 || x[1] == 45) then 2 else 1;
      assert DigitText(x[s..]);
      assert (x + rest)[s..] == x[s..] + rest && (x + rest)[0] == x[0] && (x + rest)[1] == x[1];
      RunOfDigits(x[s..], rest);
    }
  }

  /** The integer part stops at the point or the exponent, and the fraction at the exponent or the end. */
  lemma LengthOfNumber(a: Text, b: Text, c: Text, rest: Text)
    requires IntText(a) && FractionText(b) && ExponentText(c) && b + c != [] && NumberEnds(rest)
    ensures var t := a + (b + (c + rest)); IntLength(t) == |a| && NumberLength(t) == |a| + |b| + |c|
  {
    var u, w := b + (c + rest), c + rest;
    Continues(b, c, rest);
    LengthOfInt(a, u);
    LengthOfFraction(b, w);
    LengthOfExponent(c, rest);
    Behind(a, u);
    Behind(b, w);
    TwiceBehind(a, b, w);
  }

  lemma Continues(b: Text, c: Text, rest: Text)
    requires FractionText(b) && ExponentText(c) && b + c != [] && NumberEnds(rest)
    ensures var w := c + rest; w == [] || !(IsDigit(w[0]) || w[0] == 46)
    ensures var u := b + (c + rest); u != [] && !IsDigit(u[0])
  {
    if c == [] { assert c + rest == rest; }
    if b == [] { assert b + (c + rest) == c + rest; }
  }

  lemma TwiceBehind(a: Text, b: Text, w: Text)
    ensures (a + (b + w))[|a| + |b|..] == w
  {
  }

  lemma Pieces(t: Text, i: int, j: int, k: int)
    requires 0 <= i <= j <= k <= |t|
    ensures t[..i] + (t[i..j] + (t[j..k] + t[k..])) == t && (i < k ==> t[i..j] + t[j..k] != [])
    ensures t[..i] + (t[i..j] + t[j..k]) == t[..k]
  {
  }

  lemma FloatOf(f: Floats, x: Text, a: Text, b: Text, c: Text, rest: Text)
    requires IntText(a) && FractionText(b) && ExponentText(c) && b + c != [] && NumberEnds(rest)
    requires |a| + |b| + |c| <= 256 && f(a + (b + c)) == Some(x)
    ensures ParseNumber(f, a + (b + (c + rest))) == Done(Float(x), rest)
  {
    LengthOfNumber(a, b, c, rest);
    FrontAndBack(a, b, c, rest);
  }

  lemma FrontAndBack(a: Text, b: Text, c: Text, rest: Text)
    ensures var t := a + (b + (c + rest));
            t[..|a| + |b| + |c|] == a + (b + c) && t[|a| + |b| + |c|..] == rest
  {
  }

  lemma FloatComplete(f: Floats, x: Text, t: Text, rest: Text)
    requires SpellsFloat(f, x, t, rest) && NumberEnds(rest)
    ensures t != [] && (t[0] == MINUS || IsDigit(t[0])) && ParseNumber(f, t) == Done(Float(x), rest)
  {
    var i, j, k :| FloatAt(f, x, t, rest, i, j, k);
    Pieces(t, i, j, k);
    FloatOf(f, x, t[..i], t[i..j], t[j..k], rest);
    FirstOfInt(t, i);
  }

  lemma FirstOfInt(t: Text, i: int)
    requires 0 < i <= |t| && IntText(t[..i])
    ensures t[0] == MINUS || IsDigit(t[0])
  {
    assert t[..i][0] == t[0];
  }

  // ----- strings

  lemma UnicodeComplete(u: int, t: Text)
    requires UnicodeAt(u, t)
    ensures ParseHex4(t[2..]) == Some(u) && 0 <= u < 0x10000
  {
    assert t[2..][0] == t[2] && t[2..][1] == t[3] && t[2..][2] == t[4] && t[2..][3] == t[5];
  }

  lemma CharComplete(c: int, t: Text, u: Text)
    requires SpellsChar(c, t, u)
    ensures t != [] && t[0] != QUOTE && ParseCharacter(t) == Done(c, u)
  {
    if SpellsPair(c, t, u) {
      PairComplete(c, t, u);
    } else if UnicodeAt(c, t) && u == t[6..] && !(High(c) && LowFollows(u)) {
      UnicodeComplete(c, t);
      if IsHigh(c) && |t| >= 12 && t[6] == BACKSLASH && t[7] == LOWER_U && ParseHex4(t[8..]).Some?
         && IsLow(ParseHex4(t[8..]).value) {
        assert t[6..][2..] == t[8..];
        HexSound(t[6..]);
        assert LowFollows(u);
      }
    }
  }

  lemma PairComplete(c: int, t: Text, u: Text)
    requires SpellsPair(c, t, u)
    ensures t[0] == BACKSLASH && ParseCharacter(t) == Done(c, u)
  {
    var h, l :| High(h) && Low(l) && UnicodeAt(h, t) && UnicodeAt(l, t[6..])
                && c == 0x10000 + (h - 0xD800) * 0x400 + (l - 0xDC00);
    UnicodeComplete(h, t);
    UnicodeComplete(l, t[6..]);
    assert t[6..][2..] == t[8..] && t[6..][0] == t[6] && t[6..][1] == t[7];
  }

  lemma {:induction false} BodyComplete(s: Text, t: Text, rest: Text)
    requires SpellsBody(s, t, rest)
    ensures ParseBody(t) == Done(s, rest)
    decreases |s|
  {
    if s != [] {
      var u :| SpellsChar(s[0], t, u) && SpellsBody(s[1..], u, rest);
      CharComplete(s[0], t, u);
      BodyComplete(s[1..], u, rest);
      FirstAndRest(s);
    }
  }

  lemma StringComplete(s: Text, t: Text, rest: Text)
    requires SpellsString(s, t, rest)
    ensures ParseString(t) == Done(s, rest) && t[0] == QUOTE
  {
    BodyComplete(s, t[1..], rest);
  }

  // ----- values

  /** How a value begins. */
  lemma FirstOfValue(f: Floats, v: Json, t: Text, rest: Text)
    requires Spells(f, v, t, rest)
    ensures t != [] && !IsSpace(t[0]) && t[0] !in {93, 125, 44, 58}
    ensures (v.Int? || v.Float?) ==> t[0] == MINUS || IsDigit(t[0])
  {
    match v
    case Null => assert t[..4][0] == t[0];
    case Bool(b) => if b { assert t[..4][0] == t[0]; } else { assert t[..5][0] == t[0]; }
    case Int(n) => var k :| IntAt(n, t, rest, k); assert t[..k][0] == t[0];
    case Float(x) => var i, j, k :| FloatAt(f, x, t, rest, i, j, k); assert t[..i][0] == t[0];
    case _ =>
  }

  lemma {:induction false} ValueComplete(f: Floats, v: Json, t: Text, rest: Text)
    requires Spells(f, v, t, rest) && NumberEnds(rest)
    ensures ParseValue(f, t) == Done(v, rest)
    decreases v, 1, 0
  {
    match v
    case Null => WordComplete(f, v, t, rest);
    case Bool(_) => WordComplete(f, v, t, rest);
    case Int(n) => IntComplete(f, n, t, rest); NumberValue(f, t);
    case Float(x) => FloatComplete(f, x, t, rest); NumberValue(f, t);
    case Str(s) => StringComplete(s, t, rest);
    case Arr(_) => ArrayComplete(f, v, t, rest);
    case Obj(_) => ObjectComplete(f, v, t, rest);
  }

  lemma WordComplete(f: Floats, v: Json, t: Text, rest: Text)
    requires Spells(f, v, t, rest) && (v.Null? || v.Bool?)
    ensures ParseValue(f, t) == Done(v, rest)
  {
    if v.Null? {
      assert NULL_TEXT <= t && t[0] == 110;
    } else if v.b {
      assert TRUE_TEXT <= t && t[0] == 116;
      assert NULL_TEXT[0] != t[0];
    } else {
      assert FALSE_TEXT <= t && t[0] == 102;
      assert NULL_TEXT[0] != t[0] && TRUE_TEXT[0] != t[0];
    }
  }

  lemma {:induction false} ArrayComplete(f: Floats, v: Json, t: Text, rest: Text)
    requires Spells(f, v, t, rest) && v.Arr?
    ensures ParseValue(f, t) == Done(v, rest)
    decreases v, 0, |v.items| + 1
  {
    if v.items == [] {
      var u :| Spaced(t[1..], u) && Starts(u, 93) && rest == u[1..];
      SpacedSkips(t[1..], u);
      NothingInside(f, t, u);
    } else {
      ItemsComplete(f, v, 0, t[1..], rest);
      assert v.items[0..] == v.items;
      ItemsRead(f, v, t, rest);
    }
  }

  lemma NothingInside(f: Floats, t: Text, u: Text)
    requires t != [] && u == SkipSpace(t[1..])
    ensures t[0] == OPEN_BRACKET && Starts(u, CLOSE_BRACKET) ==> ParseValue(f, t) == Done(Arr([]), u[1..])
    ensures t[0] == OPEN_BRACE && Starts(u, CLOSE_BRACE) ==> ParseValue(f, t) == Done(Obj(map[]), u[1..])
  {
  }

  lemma ItemsRead(f: Floats, v: Json, t: Text, rest: Text)
    requires v.Arr? && Starts(t, OPEN_BRACKET)
    requires var u := SkipSpace(t[1..]); u != [] && u[0] != CLOSE_BRACKET && ParseItems(f, u) == Done(v.items, rest)
    ensures ParseValue(f, t) == Done(v, rest)
  {
  }

  lemma {:induction false} ItemsComplete(f: Floats, v: Json, i: nat, t: Text, rest: Text)
    requires v.Arr? && i < |v.items| && SpellsItems(f, v, i, t, rest)
    ensures var u := SkipSpace(t); u != [] && u[0] != CLOSE_BRACKET && ParseItems(f, u) == Done(v.items[i..], rest)
    decreases v, 0, |v.items| - i
  {
    var a, b, c :| ItemThen(f, v, i, t, a, b, c, rest);
    FirstOfValue(f, v.items[i], a, b);
    SpacedSkips(t, a);
    SpaceEndsNumber(b, c);
    ValueComplete(f, v.items[i], a, b);
    SpacedSkips(b, c);
    ItemAndMore(v.items, i);
    if i == |v.items| - 1 {
      ItemsEnd(f, a, v.items[i], b, c);
    } else {
      ItemsComplete(f, v, i + 1, c[1..], rest);
      ItemsGoOn(f, a, v.items[i], b, c, v.items[i + 1..], rest);
    }
  }

  lemma ItemAndMore(items: seq<Json>, i: nat)
    requires i < |items|
    ensures items[i..] == [items[i]] + items[i + 1..] && (i == |items| - 1 ==> items[i..] == [items[i]])
  {
  }

  lemma ItemsEnd(f: Floats, a: Text, x: Json, b: Text, c: Text)
    requires ParseValue(f, a) == Done(x, b) && SkipSpace(b) == c && Starts(c, CLOSE_BRACKET)
    ensures ParseItems(f, a) == Done([x], c[1..])
  {
  }

  lemma ItemsGoOn(f: Floats, a: Text, x: Json, b: Text, c: Text, more: seq<Json>, rest: Text)
    requires ParseValue(f, a) == Done(x, b) && SkipSpace(b) == c && Starts(c, COMMA)
    requires ParseItems(f, SkipSpace(c[1..])) == Done(more, rest)
    ensures ParseItems(f, a) == Done([x] + more, rest)
  {
  }

  lemma {:induction false} ObjectComplete(f: Floats, v: Json, t: Text, rest: Text)
    requires Spells(f, v, t, rest) && v.Obj?
    ensures ParseValue(f, t) == Done(v, rest)
    decreases v, 0, |v.fields| + 1
  {
    if v.fields == map[] {
      var u :| Spaced(t[1..], u) && Starts(u, 125) && rest == u[1..];
      SpacedSkips(t[1..], u);
      NothingInside(f, t, u);
    } else {
      var keys :| Lists(keys, v.fields) && SpellsMembers(f, v, keys, t[1..], rest);
      ListsSize(keys, v.fields);
      MembersComplete(f, v, keys, t[1..], rest, map[]);
      FillAll(v, keys);
      MembersRead(f, v, t, rest);
    }
  }

  /** The keys of an object are not more than its fields. */
  lemma ListsSize(keys: seq<Text>, fields: map<Text, Json>)
    requires Lists(keys, fields)
    ensures |keys| <= |fields|
  {
    DistinctSize(keys);
    assert (set k | k in keys) == fields.Keys;
  }

  lemma {:induction false} DistinctSize(keys: seq<Text>)
    requires forall i, j | 0 <= i < j < |keys| :: keys[i] != keys[j]
    ensures |set k | k in keys| == |keys|
  {
    if keys != [] {
      var init, last := keys[..|keys| - 1], keys[|keys| - 1];
      DistinctSize(init);
      assert last !in init;
      assert (set k | k in keys) == (set k | k in init) + {last} by { assert keys == init + [last]; }
    } else {
      assert (set k | k in keys) == {};
    }
  }

  lemma MembersRead(f: Floats, v: Json, t: Text, rest: Text)
    requires v.Obj? && Starts(t, OPEN_BRACE)
    requires var u := SkipSpace(t[1..]); u != [] && u[0] == QUOTE && ParseMembers(f, u, map[]) == Done(v.fields, rest)
    ensures ParseValue(f, t) == Done(v, rest)
  {
  }

  lemma {:induction false} FillAt(seen: map<Text, Json>, v: Json, keys: seq<Text>, k: Text)
    requires v.Obj? && forall x | x in keys :: x in v.fields
    ensures k in Fill(seen, v, keys) <==> k in seen || k in keys
    ensures k in keys ==> Fill(seen, v, keys)[k] == v.fields[k]
    ensures k in seen && k !in keys ==> Fill(seen, v, keys)[k] == seen[k]
    decreases |keys|
  {
    if keys != [] { FillAt(seen[keys[0] := v.fields[keys[0]]], v, keys[1..], k); }
  }

  lemma FillOne(seen: map<Text, Json>, v: Json, keys: seq<Text>)
    requires v.Obj? && |keys| == 1 && keys[0] in v.fields
    ensures Fill(seen, v, keys) == seen[keys[0] := v.fields[keys[0]]]
  {
    assert keys[1..] == [];
  }

  lemma FillAll(v: Json, keys: seq<Text>)
    requires v.Obj? && Lists(keys, v.fields)
    ensures Fill(map[], v, keys) == v.fields
  {
    forall k ensures k in Fill(map[], v, keys) <==> k in v.fields { FillAt(map[], v, keys, k); }
    forall k | k in v.fields ensures Fill(map[], v, keys)[k] == v.fields[k] { FillAt(map[], v, keys, k); }
  }

  lemma KeyComplete(k: Text, t: Text, rest: Text) returns (a: Text, c: Text)
    requires SpellsKey(k, t, rest) && rest != [] && !IsSpace(rest[0])
    ensures a == SkipSpace(t) && a != [] && a[0] == QUOTE && ParseString(a).Done? && ParseString(a).value == k
    ensures c == SkipSpace(ParseString(a).rest) && Starts(c, COLON) && SkipSpace(c[1..]) == rest
  {
    var b;
    a, b, c :| KeyThen(k, t, a, b, c, rest);
    StringComplete(k, a, b);
    SpacedSkips(t, a);
    SpacedSkips(b, c);
    SpacedSkips(c[1..], rest);
  }

  lemma {:induction false} MembersComplete(f: Floats, v: Json, keys: seq<Text>, t: Text, rest: Text,
                                           seen: map<Text, Json>)
    requires v.Obj? && (forall k | k in keys :: k in v.fields && k !in seen) && SpellsMembers(f, v, keys, t, rest)
    requires forall i, j | 0 <= i < j < |keys| :: keys[i] != keys[j]
    ensures var u := SkipSpace(t);
            u != [] && u[0] == QUOTE && ParseMembers(f, u, seen) == Done(Fill(seen, v, keys), rest)
    decreases v, 0, |keys|
  {
    var a, b, c :| MemberThen(f, v, keys, t, a, b, c, rest);
    var k := keys[0];
    var x := v.fields[k];
    FirstOfValue(f, x, a, b);
    var u, colon := KeyComplete(k, t, a);
    SpaceEndsNumber(b, c);
    ValueComplete(f, x, a, b);
    SpacedSkips(b, c);
    assert k in keys;
    if |keys| == 1 {
      FillOne(seen, v, keys);
      MemberEnds(f, u, seen, k, colon, a, x, b, c);
    } else {
      OtherKeys(v, keys, seen, x);
      MembersComplete(f, v, keys[1..], c[1..], rest, seen[k := x]);
      MembersGoOn(f, u, seen, k, colon, a, x, b, c);
    }
  }

  lemma MemberEnds(f: Floats, u: Text, seen: map<Text, Json>, k: Text, colon: Text, a: Text, x: Json, b: Text, c: Text)
    requires ParseString(u).Done? && ParseString(u).value == k && k !in seen
    requires colon == SkipSpace(ParseString(u).rest) && Starts(colon, COLON) && SkipSpace(colon[1..]) == a
    requires ParseValue(f, a) == Done(x, b) && SkipSpace(b) == c && Starts(c, CLOSE_BRACE)
    ensures ParseMembers(f, u, seen) == Done(seen[k := x], c[1..])
  {
  }

  lemma MembersGoOn(f: Floats, u: Text, seen: map<Text, Json>, k: Text, colon: Text, a: Text, x: Json, b: Text, c: Text)
    requires ParseString(u).Done? && ParseString(u).value == k && k !in seen
    requires colon == SkipSpace(ParseString(u).rest) && Starts(colon, COLON) && SkipSpace(colon[1..]) == a
    requires ParseValue(f, a) == Done(x, b) && SkipSpace(b) == c && Starts(c, COMMA)
    ensures ParseMembers(f, u, seen) == ParseMembers(f, SkipSpace(c[1..]), seen[k := x])
  {
  }

  // ----- parser and grammar agree

  /** Behind a text that ends a number the parser reads exactly the spellings of the grammar. */
  lemma ParserIsGrammar(f: Floats, v: Json, t: Text, rest: Text)
    requires NumberEnds(rest)
    ensures ParseValue(f, t) == Done(v, rest) <==> Spells(f, v, t, rest)
  {
    if ParseValue(f, t) == Done(v, rest) { ValueSound(f, t); }
    if Spells(f, v, t, rest) { ValueComplete(f, v, t, rest); }
  }

  /** A document: a value with space around it. */
  ghost predicate Document(f: Floats, v: Json, t: Text) {
    exists a, b :: DocumentAt(f, v, t, a, b)
  }

  ghost predicate DocumentAt(f: Floats, v: Json, t: Text, a: Text, b: Text) {
    Spaced(t, a) && Spells(f, v, a, b) && Spaced(b, [])
  }

  /** What `strict_json_loads` accepts, and as what: the documents of the grammar whose value is not nested too deeply
      and holds no surrogate. */
  lemma StrictLoadsExactly(f: Floats, v: Json, t: Text)
    ensures StrictLoads(f, t) == Some(v) <==> Document(f, v, t) && Scalar(v) && Depth(v) <= 256
  {
    if StrictLoads(f, t) == Some(v) { LoadedIsDocument(f, v, t); }
    if Document(f, v, t) && Scalar(v) && Depth(v) <= 256 {
      var a, b :| DocumentAt(f, v, t, a, b);
      DocumentLoads(f, v, t, a, b);
    }
  }

  lemma DocumentLoads(f: Floats, v: Json, t: Text, a: Text, b: Text)
    requires DocumentAt(f, v, t, a, b) && Scalar(v) && Depth(v) <= 256
    ensures StrictLoads(f, t) == Some(v)
  {
    FirstOfValue(f, v, a, b);
    SpacedSkips(t, a);
    AllSpace(b);
    ValueComplete(f, v, a, b);
    ScanSpace(t, 0);
    ScanParsed(f, a, 0);
    Loaded(f, v, t, a, b);
  }

  lemma Loaded(f: Floats, v: Json, t: Text, a: Text, b: Text)
    requires Scans(t, 0) && SkipSpace(t) == a && ParseValue(f, a) == Done(v, b) && SkipSpace(b) == [] && Scalar(v)
    ensures StrictLoads(f, t) == Some(v)
  {
  }

  lemma LoadedIsDocument(f: Floats, v: Json, t: Text)
    requires StrictLoads(f, t) == Some(v)
    ensures Document(f, v, t) && Scalar(v) && Depth(v) <= 256
  {
    var a := SkipSpace(t);
    var b := ParseValue(f, a).rest;
    SkipIsSpaced(t);
    SkipIsSpaced(b);
    ValueSound(f, a);
    ScanSpace(t, 0);
    ScanParsed(f, a, 0);
    assert DocumentAt(f, v, t, a, b);
  }

  /** Nothing but space ends a number, is skipped whole, and passes the scan. */
  lemma AllSpace(b: Text)
    requires Spaced(b, [])
    ensures NumberEnds(b) && SkipSpace(b) == [] && Scans(b, 0)
  {
    var n :| SpaceUpTo(b, [], n);
    if b != [] { assert IsSpace(b[0]); }
    SpacedSkips(b, []);
    ScanSpace(b, 0);
  }
}
