/** Documents that the strict decoder has accepted: the encoder accepts what they hold, and keeps its value. */
module JsonLoaded {
  import opened Wrappers
  import opened Ordering
  import opened Json
  import opened JsonDocument
  import Utf8

  // ----- numbers

  /** A run of digits is at least as long as the number it stands for. */
  lemma {:induction false} DigitsOfValue(t: Text)
    requires t != [] && forall i | 0 <= i < |t| :: IsDigit(t[i])
    ensures Value(t) >= 0 && |Digits(Value(t))| <= |t|
  {
    var init, last := t[..|t| - 1], t[|t| - 1] - 48;
    if init == [] {
      assert Value(init) == 0;
    } else {
      DigitsOfValue(init);
      assert Value(t) == Value(init) * 10 + last;
      if Value(t) >= 10 { assert Value(t) / 10 == Value(init); }
    }
  }

  lemma NaturalIsBounded(t: Text)
    requires ParseNatural(t).Done?
    ensures ParseNatural(t).value >= 0 && |Digits(ParseNatural(t).value)| <= MAX_JSON_INTEGER_DIGITS
  {
    var run := DigitRun(t);
    var n := if run > 0 && t[0] == 48 then 1 else run;
    forall i | 0 <= i < n ensures IsDigit(t[..n][i]) { DigitRunDigits(t, i); }
    DigitsOfValue(t[..n]);
  }

  lemma NumberIsBounded(f: Floats, t: Text)
    requires Faithful(f) && ParseNumber(f, t).Done?
    ensures Normal(f, ParseNumber(f, t).value) && Bounded(ParseNumber(f, t).value)
  {
    if NumberLength(t) == IntLength(t) {
      if t != [] && t[0] == MINUS { NaturalIsBounded(t[1..]); } else { NaturalIsBounded(t); }
    }
  }

  /** A number literal takes up number characters, and leaves the text behind them. */
  lemma NumberConsumes(f: Floats, t: Text) returns (n: nat)
    requires ParseNumber(f, t).Done?
    ensures n <= |t| && ParseNumber(f, t).rest == t[n..] && forall k | 0 <= k < n :: NumberCharacter(t[k])
  {
    n := NumberLength(t);
    LiteralCharacters(t);
    if n == IntLength(t) { IntConsumes(t); }
  }

  lemma IntConsumes(t: Text)
    requires ParseInt(t).Done? && IntLength(t) > 0
    ensures ParseInt(t).rest == t[IntLength(t)..]
  {
    if t[0] == MINUS {
      var run := DigitRun(t[1..]);
      var n := if run > 0 && t[1] == 48 then 1 else run;
      assert t[1..][n..] == t[1 + n..];
    } else {
      assert t[0..] == t;
    }
  }

  lemma LiteralCharacters(t: Text)
    ensures forall k | 0 <= k < NumberLength(t) :: NumberCharacter(t[k])
  {
    var i := IntLength(t);
    var j := i + FractionLength(t[i..]);
    forall k | 0 <= k < NumberLength(t) ensures NumberCharacter(t[k]) {
      if k < i { IntCharacter(t, k); }
      else if k < j { assert t[k] == t[i..][k - i]; FractionCharacter(t[i..], k - i); }
      else { assert t[k] == t[j..][k - j]; ExponentCharacter(t[j..], k - j); }
    }
  }

  // ----- what the parser returns

  /** Whatever the parser returns holds its floating-point numbers in printed form, and its numbers are within their
      limits. */
  lemma {:induction false} ParsedIsNormal(f: Floats, t: Text)
    requires Faithful(f) && ParseValue(f, t).Done?
    ensures Normal(f, ParseValue(f, t).value) && Bounded(ParseValue(f, t).value)
    decreases |t|, 1
  {
    if t[0] == OPEN_BRACE {
      var u := SkipSpace(t[1..]);
      if u[0] != CLOSE_BRACE { MembersAreNormal(f, u, map[]); }
    } else if t[0] == OPEN_BRACKET {
      var u := SkipSpace(t[1..]);
      if u[0] != CLOSE_BRACKET { ItemsAreNormal(f, u); }
    } else if ParseValue(f, t) == ParseNumber(f, t) {
      NumberIsBounded(f, t);
    }
  }

  lemma {:induction false} ItemsAreNormal(f: Floats, t: Text)
    requires Faithful(f) && ParseItems(f, t).Done?
    ensures forall x | x in ParseItems(f, t).value :: Normal(f, x) && Bounded(x)
    decreases |t|, 2
  {
    ParsedIsNormal(f, t);
    var u := SkipSpace(ParseValue(f, t).rest);
    if u[0] == COMMA { ItemsAreNormal(f, SkipSpace(u[1..])); }
  }

  lemma {:induction false} MembersAreNormal(f: Floats, t: Text, seen: map<Text, Json>)
    requires Faithful(f) && ParseMembers(f, t, seen).Done?
    requires forall k | k in seen :: Normal(f, seen[k]) && Bounded(seen[k])
    ensures var r := ParseMembers(f, t, seen).value; forall k | k in r :: Normal(f, r[k]) && Bounded(r[k])
    decreases |t|, 2
  {
    var key, rest := ParseString(t).value, ParseString(t).rest;
    var u := SkipSpace(SkipSpace(rest)[1..]);
    ParsedIsNormal(f, u);
    var v, w := ParseValue(f, u).value, SkipSpace(ParseValue(f, u).rest);
    if w[0] == COMMA { MembersAreNormal(f, SkipSpace(w[1..]), seen[key := v]); }
  }

  // ----- the scan over text that parses

  /** The scan outside of strings, which is where values begin and end. */
  ghost predicate Scans(t: Text, d: int) { NestingOk(t, d, false, false) }

  lemma {:induction false} ScanSpace(t: Text, d: int)
    ensures Scans(t, d) == Scans(SkipSpace(t), d)
  {
    if t != [] && t[0] in {32, 9, 10, 13} { ScanSpace(t[1..], d); }
  }

  /** Plain text in front of a position does not change the scan. */
  lemma ScanTo(t: Text, n: nat, d: int)
    requires n <= |t|
    requires forall i | 0 <= i < n :: t[i] !in {QUOTE, OPEN_BRACKET, OPEN_BRACE, CLOSE_BRACKET, CLOSE_BRACE}
    ensures Scans(t, d) == Scans(t[n..], d)
  {
    assert t == t[..n] + t[n..];
    ScanPlain(t[..n], t[n..], d);
  }

  /** The same inside a string. */
  lemma ScanInsideTo(t: Text, n: nat, d: int)
    requires n <= |t| && forall i | 0 <= i < n :: t[i] !in {QUOTE, BACKSLASH}
    ensures NestingOk(t, d, true, false) == NestingOk(t[n..], d, true, false)
  {
    assert t == t[..n] + t[n..];
    ScanInside(t[..n], t[n..], d);
  }

  lemma HexIsPlain(t: Text)
    requires ParseHex4(t).Some?
    ensures forall i | 0 <= i < 4 :: t[i] !in {QUOTE, BACKSLASH}
  {
  }

  /** The backslash, the letter u and the four digits behind it. */
  lemma ScanUnicode(t: Text, d: int)
    requires |t| >= 2 && t[0] == BACKSLASH && t[1] == LOWER_U && ParseHex4(t[2..]).Some?
    ensures NestingOk(t, d, true, false) == NestingOk(t[6..], d, true, false)
  {
    HexIsPlain(t[2..]);
    assert t[1..][1..] == t[2..];
    ScanInsideTo(t[2..], 4, d);
    assert t[2..][4..] == t[6..];
  }

  lemma ScanCharacter(t: Text, d: int)
    requires t != [] && t[0] != QUOTE && ParseCharacter(t).Done?
    ensures NestingOk(t, d, true, false) == NestingOk(ParseCharacter(t).rest, d, true, false)
  {
    if t[0] == BACKSLASH {
      if t[1] != LOWER_U {
        assert t[1..][1..] == t[2..];
      } else {
        ScanUnicode(t, d);
        if ParseCharacter(t).rest != t[6..] {
          assert t[6..][2..] == t[8..] && t[6..][6..] == t[12..];
          ScanUnicode(t[6..], d);
        }
      }
    }
  }

  lemma {:induction false} ScanParsedBody(t: Text, d: int)
    requires ParseBody(t).Done?
    ensures NestingOk(t, d, true, false) == Scans(ParseBody(t).rest, d)
    decreases |t|
  {
    if t[0] != QUOTE {
      ScanCharacter(t, d);
      ScanParsedBody(ParseCharacter(t).rest, d);
    }
  }

  lemma ScanParsedString(t: Text, d: int)
    requires ParseString(t).Done?
    ensures Scans(t, d) == Scans(ParseString(t).rest, d)
  {
    ScanParsedBody(t[1..], d);
  }

  lemma ScanParsedNumber(f: Floats, t: Text, d: int)
    requires ParseNumber(f, t).Done?
    ensures Scans(t, d) == Scans(ParseNumber(f, t).rest, d)
  {
    var n := NumberConsumes(f, t);
    ScanTo(t, n, d);
  }

  // ----- the scan measures the depth of what is parsed

  lemma {:induction false} ItemsDepth(v: Json, i: nat, m: nat)
    requires v.Arr? && i <= |v.items| && forall x | x in v.items :: Depth(x) <= m
    ensures MaxDepth(v, i) <= m
    decreases |v.items| - i
  {
    if i < |v.items| { ItemsDepth(v, i + 1, m); }
  }

  lemma {:induction false} MaxDepthFalls(v: Json, i: nat, k: nat)
    requires v.Arr? && i <= k <= |v.items|
    ensures MaxDepth(v, k) <= MaxDepth(v, i)
    decreases k - i
  {
    if i < k {
      DepthStep(v, i);
      MaxDepthFalls(v, i + 1, k);
    }
  }

  lemma DepthOfItem(v: Json, k: nat)
    requires v.Arr? && k < |v.items|
    ensures Depth(v.items[k]) <= MaxDepth(v, 0)
  {
    MaxDepthFalls(v, 0, k);
    DepthStep(v, k);
  }

  lemma DepthStep(v: Json, i: nat)
    requires v.Arr? && i < |v.items|
    ensures Depth(v.items[i]) <= MaxDepth(v, i) && MaxDepth(v, i + 1) <= MaxDepth(v, i)
  {
    var a, b := Depth(v.items[i]), MaxDepth(v, i + 1);
    assert MaxDepth(v, i) == Max(a, b);
  }

  lemma {:induction false} MembersDepth(v: Json, keys: seq<Text>, m: nat)
    requires v.Obj? && (forall k | k in keys :: k in v.fields) && forall k | k in v.fields :: Depth(v.fields[k]) <= m
    ensures MaxDepthOf(v, keys) <= m
    decreases |keys|
  {
    if keys != [] { MembersDepth(v, keys[1..], m); }
  }

  lemma {:induction false} DepthOfMember(v: Json, keys: seq<Text>, k: Text)
    requires v.Obj? && (forall x | x in keys :: x in v.fields) && k in keys
    ensures Depth(v.fields[k]) <= MaxDepthOf(v, keys)
    decreases |keys|
  {
    if keys[0] != k { DepthOfMember(v, keys[1..], k); }
  }

  lemma DepthOfArray(v: Json, m: nat)
    requires v.Arr?
    ensures Depth(v) <= m + 1 <==> forall x | x in v.items :: Depth(x) <= m
  {
    if forall x | x in v.items :: Depth(x) <= m { ItemsDepth(v, 0, m); }
    if Depth(v) <= m + 1 {
      forall x | x in v.items ensures Depth(x) <= m {
        var k :| 0 <= k < |v.items| && v.items[k] == x;
        DepthOfItem(v, k);
      }
    }
  }

  lemma DepthOfObject(v: Json, m: nat)
    requires v.Obj?
    ensures Depth(v) <= m + 1 <==> forall k | k in v.fields :: Depth(v.fields[k]) <= m
  {
    var keys := Sort(v.fields.Keys);
    ObjectDepth(v, keys);
    KeysAre(v, keys);
    if forall k | k in v.fields :: Depth(v.fields[k]) <= m { MembersDepth(v, keys, m); }
    if Depth(v) <= m + 1 {
      forall k | k in v.fields ensures Depth(v.fields[k]) <= m { DepthOfMember(v, keys, k); }
    }
  }

  /** A value that begins where the scan has come to depth d passes exactly when it stays within what is left, and the
      scan goes on behind it at the same depth. */
  lemma {:induction false} ScanParsed(f: Floats, t: Text, d: nat)
    requires ParseValue(f, t).Done? && d <= MAX_JSON_DEPTH
    ensures var p := ParseValue(f, t);
            Scans(t, d) <==> d + Depth(p.value) <= MAX_JSON_DEPTH && Scans(p.rest, d)
    decreases |t|, 1
  {
    if t[0] == QUOTE {
      ScanParsedString(t, d);
    } else if t[0] == OPEN_BRACE {
      ScanParsedObject(f, t, d);
    } else if t[0] == OPEN_BRACKET {
      ScanParsedArray(f, t, d);
    } else {
      ScanParsedLeaf(f, t, d);
    }
  }

  lemma ScanWord(t: Text, word: Text, d: int)
    requires word <= t && forall i | 0 <= i < |word| :: 97 <= word[i] <= 122
    ensures Scans(t, d) == Scans(t[|word|..], d)
  {
    forall i | 0 <= i < |word| ensures 97 <= t[i] <= 122 { assert t[i] == word[i]; }
    ScanTo(t, |word|, d);
  }

  lemma ScanParsedLeaf(f: Floats, t: Text, d: nat)
    requires ParseValue(f, t).Done? && t[0] !in {QUOTE, OPEN_BRACE, OPEN_BRACKET}
    ensures Depth(ParseValue(f, t).value) == 0 && (Scans(t, d) <==> Scans(ParseValue(f, t).rest, d))
  {
    if NULL_TEXT <= t || TRUE_TEXT <= t || FALSE_TEXT <= t {
      var word := ParsedWord(f, t);
      ScanWord(t, word, d);
    } else {
      ParsedNumber(f, t);
      ScanParsedNumber(f, t, d);
    }
  }

  lemma ParsedWord(f: Floats, t: Text) returns (word: Text)
    requires t != [] && t[0] !in {QUOTE, OPEN_BRACE, OPEN_BRACKET}
    requires NULL_TEXT <= t || TRUE_TEXT <= t || FALSE_TEXT <= t
    ensures word <= t && forall i | 0 <= i < |word| :: 97 <= word[i] <= 122
    ensures ParseValue(f, t).Done? && ParseValue(f, t).rest == t[|word|..]
    ensures ParseValue(f, t).value.Null? || ParseValue(f, t).value.Bool?
  {
    word := if NULL_TEXT <= t then NULL_TEXT else if TRUE_TEXT <= t then TRUE_TEXT else FALSE_TEXT;
  }

  lemma ParsedNumber(f: Floats, t: Text)
    requires t != [] && t[0] !in {QUOTE, OPEN_BRACE, OPEN_BRACKET}
    requires !(NULL_TEXT <= t) && !(TRUE_TEXT <= t) && !(FALSE_TEXT <= t)
    ensures ParseValue(f, t) == ParseNumber(f, t)
    ensures ParseNumber(f, t).Done? ==> ParseNumber(f, t).value.Int? || ParseNumber(f, t).value.Float?
  {
  }

  lemma ScanOpening(t: Text, d: nat)
    requires t != [] && (t[0] == OPEN_BRACKET || t[0] == OPEN_BRACE)
    ensures Scans(t, d) <==> d + 1 <= MAX_JSON_DEPTH && Scans(SkipSpace(t[1..]), d + 1)
  {
    ScanSpace(t[1..], d + 1);
  }

  lemma ScanClosing(t: Text, d: nat)
    requires t != [] && (t[0] == CLOSE_BRACKET || t[0] == CLOSE_BRACE) && d > 0
    ensures Scans(t, d) <==> Scans(t[1..], d - 1)
  {
  }

  lemma ScanSeparator(t: Text, d: nat)
    requires t != [] && (t[0] == COMMA || t[0] == COLON)
    ensures Scans(t, d) <==> Scans(SkipSpace(t[1..]), d)
  {
    ScanSpace(t[1..], d);
  }

  lemma ArrayParts(f: Floats, t: Text)
    requires ParseValue(f, t).Done? && t[0] == OPEN_BRACKET
    ensures var u := SkipSpace(t[1..]);
            && u != []
            && (u[0] == CLOSE_BRACKET ==> ParseValue(f, t) == Done(Arr([]), u[1..]))
            && (u[0] != CLOSE_BRACKET ==>
                  && ParseItems(f, u).Done?
                  && ParseValue(f, t) == Done(Arr(ParseItems(f, u).value), ParseItems(f, u).rest))
  {
  }

  lemma ObjectParts(f: Floats, t: Text)
    requires ParseValue(f, t).Done? && t[0] == OPEN_BRACE
    ensures var u := SkipSpace(t[1..]);
            && u != []
            && (u[0] == CLOSE_BRACE ==> ParseValue(f, t) == Done(Obj(map[]), u[1..]))
            && (u[0] != CLOSE_BRACE ==>
                  && ParseMembers(f, u, map[]).Done?
                  && ParseValue(f, t) == Done(Obj(ParseMembers(f, u, map[]).value), ParseMembers(f, u, map[]).rest))
  {
  }

  /** The parts of the first member: key, value, and the text behind it. */
  lemma MemberParts(f: Floats, t: Text, seen: map<Text, Json>) returns (u: Text, x: Text, w: Text)
    requires ParseMembers(f, t, seen).Done?
    ensures ParseString(t).Done? && u == SkipSpace(ParseString(t).rest) && u != [] && u[0] == COLON
    ensures x == SkipSpace(u[1..]) && |x| < |t| && ParseValue(f, x).Done? && ParseString(t).value !in seen
    ensures w == SkipSpace(ParseValue(f, x).rest) && w != [] && (w[0] == CLOSE_BRACE || w[0] == COMMA)
    ensures var next := seen[ParseString(t).value := ParseValue(f, x).value];
            && (w[0] == CLOSE_BRACE ==> ParseMembers(f, t, seen) == Done(next, w[1..]))
            && (w[0] == COMMA ==> ParseMembers(f, t, seen) == ParseMembers(f, SkipSpace(w[1..]), next))
  {
    u := SkipSpace(ParseString(t).rest);
    x := SkipSpace(u[1..]);
    w := SkipSpace(ParseValue(f, x).rest);
  }

  lemma {:induction false} ScanParsedArray(f: Floats, t: Text, d: nat)
    requires ParseValue(f, t).Done? && t[0] == OPEN_BRACKET
    ensures var p := ParseValue(f, t); Scans(t, d) <==> d + Depth(p.value) <= MAX_JSON_DEPTH && Scans(p.rest, d)
    decreases |t|, 0
  {
    var u := SkipSpace(t[1..]);
    ScanOpening(t, d);
    ArrayParts(f, t);
    if d < MAX_JSON_DEPTH {
      var inner := d + 1;
      if u[0] == CLOSE_BRACKET { ScanClosing(u, inner); } else { ScanParsedItems(f, u, inner); }
      assert inner - 1 == d;
      DepthOfArray(ParseValue(f, t).value, MAX_JSON_DEPTH - inner);
    }
  }

  lemma {:induction false} ScanParsedObject(f: Floats, t: Text, d: nat)
    requires ParseValue(f, t).Done? && t[0] == OPEN_BRACE
    ensures var p := ParseValue(f, t); Scans(t, d) <==> d + Depth(p.value) <= MAX_JSON_DEPTH && Scans(p.rest, d)
    decreases |t|, 0
  {
    var u := SkipSpace(t[1..]);
    ScanOpening(t, d);
    ObjectParts(f, t);
    if d < MAX_JSON_DEPTH {
      var inner := d + 1;
      if u[0] == CLOSE_BRACE { ScanClosing(u, inner); } else { ScanParsedMembers(f, u, map[], inner); }
      assert inner - 1 == d;
      DepthOfObject(ParseValue(f, t).value, MAX_JSON_DEPTH - inner);
    }
  }

  lemma {:induction false} ScanParsedItems(f: Floats, t: Text, d: nat)
    requires ParseItems(f, t).Done? && 0 < d <= MAX_JSON_DEPTH
    ensures var p := ParseItems(f, t);
            Scans(t, d) <==> (forall x | x in p.value :: d + Depth(x) <= MAX_JSON_DEPTH) && Scans(p.rest, d - 1)
    decreases |t|, 2
  {
    ScanParsed(f, t, d);
    var x, after := ParseValue(f, t).value, ParseValue(f, t).rest;
    var u := SkipSpace(after);
    ScanSpace(after, d);
    if u[0] == COMMA {
      ScanSeparator(u, d);
      ScanParsedItems(f, SkipSpace(u[1..]), d);
      WithinCons(x, ParseItems(f, SkipSpace(u[1..])).value, d);
    } else {
      ScanClosing(u, d);
    }
  }

  lemma WithinCons(x: Json, more: seq<Json>, d: nat)
    ensures (forall y | y in [x] + more :: d + Depth(y) <= MAX_JSON_DEPTH) <==>
            d + Depth(x) <= MAX_JSON_DEPTH && forall y | y in more :: d + Depth(y) <= MAX_JSON_DEPTH
  {
    if forall y | y in [x] + more :: d + Depth(y) <= MAX_JSON_DEPTH {
      assert x in [x] + more;
      forall y | y in more ensures d + Depth(y) <= MAX_JSON_DEPTH { assert y in [x] + more; }
    }
  }

  lemma {:induction false} ScanParsedMembers(f: Floats, t: Text, seen: map<Text, Json>, d: nat)
    requires ParseMembers(f, t, seen).Done? && 0 < d <= MAX_JSON_DEPTH
    requires forall k | k in seen :: d + Depth(seen[k]) <= MAX_JSON_DEPTH
    ensures var p := ParseMembers(f, t, seen);
            Scans(t, d) <==>
            (forall k | k in p.value :: d + Depth(p.value[k]) <= MAX_JSON_DEPTH) && Scans(p.rest, d - 1)
    decreases |t|, 2
  {
    var u, x, w := MemberParts(f, t, seen);
    var key, v := ParseString(t).value, ParseValue(f, x).value;
    ScanParsedString(t, d);
    ScanSpace(ParseString(t).rest, d);
    ScanSeparator(u, d);
    ScanParsed(f, x, d);
    ScanSpace(ParseValue(f, x).rest, d);
    MembersKept(f, t, seen);
    if d + Depth(v) <= MAX_JSON_DEPTH {
      if w[0] == COMMA {
        ScanSeparator(w, d);
        ScanParsedMembers(f, SkipSpace(w[1..]), seen[key := v], d);
      } else {
        ScanClosing(w, d);
      }
    } else {
      assert ParseMembers(f, t, seen).value[key] == v;
    }
  }

  /** What was read before stays, and the member that is read first is kept as it is. */
  lemma {:induction false} MembersKept(f: Floats, t: Text, seen: map<Text, Json>)
    requires ParseMembers(f, t, seen).Done?
    ensures var r := ParseMembers(f, t, seen).value;
            && (forall k | k in seen :: k in r && r[k] == seen[k])
            && ParseString(t).Done? && ParseString(t).value in r
            && var x := SkipSpace(SkipSpace(ParseString(t).rest)[1..]);
               ParseValue(f, x).Done? && r[ParseString(t).value] == ParseValue(f, x).value
    decreases |t|
  {
    var u, x, w := MemberParts(f, t, seen);
    var key, v := ParseString(t).value, ParseValue(f, x).value;
    if w[0] == COMMA {
      MembersKept(f, SkipSpace(w[1..]), seen[key := v]);
      assert key in seen[key := v];
    }
  }

  // ----- loaded documents

  /** A loaded document can always be put into canonical form, and that keeps its value, floating-point numbers
      included. */
  lemma CanonicalKeepsValue(f: Floats, data: Text)
    requires Faithful(f) && LoadObject(f, data).Some?
    ensures var v := LoadObject(f, data).value;
            && WellTyped(v) && CanonicalJson(f, v).Some?
            && LoadObject(f, CanonicalJson(f, v).value) == Some(v)
  {
    var t := Utf8.Decode(data).value;
    var v := LoadObject(f, data).value;
    ParsedIsNormal(f, SkipSpace(t));
    ScalarIsWellTyped(v);
    ScanSpace(t, 0);
    ScanParsed(f, SkipSpace(t), 0);
    CanonicalExists(f, v);
    LoadCanonical(f, v);
  }
}
