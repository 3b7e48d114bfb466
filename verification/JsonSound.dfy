/** Whatever the parser accepts is spelled by the grammar. */
module JsonSound {
  import opened Wrappers
  import opened Ordering
  import opened Json
  import opened JsonDocument
  import opened JsonLoaded
  import opened JsonGrammar

  // ----- space and numbers

  lemma {:induction false} SkipIsSpaced(t: Text)
    ensures Spaced(t, SkipSpace(t))
  {
    if t != [] && IsSpace(t[0]) {
      SkipIsSpaced(t[1..]);
      var n :| SpaceUpTo(t[1..], SkipSpace(t[1..]), n);
      assert t[1..][n..] == t[n + 1..];
      forall i | 0 <= i < n + 1 ensures IsSpace(t[i]) { if i > 0 { assert t[i] == t[1..][i - 1]; } }
      assert SpaceUpTo(t, SkipSpace(t), n + 1);
    } else {
      assert SpaceUpTo(t, t, 0);
    }
  }

  lemma RunIsDigits(t: Text, n: nat)
    requires 0 < n <= DigitRun(t)
    ensures DigitText(t[..n])
  {
    forall i | 0 <= i < n ensures 48 <= t[..n][i] <= 57 { DigitRunDigits(t, i); }
  }

  lemma IntIsText(t: Text)
    requires IntLength(t) > 0
    ensures IntText(t[..IntLength(t)])
  {
    var k := IntLength(t);
    var s := if t[0] == MINUS then 1 else 0;
    RunIsDigits(t[s..], k - s);
    assert t[..k][s..] == t[s..][..k - s];
    if s == 0 { assert t[0..] == t; }
  }

  lemma FractionIsText(t: Text)
    ensures FractionText(t[..FractionLength(t)])
  {
    var k := FractionLength(t);
    if k > 0 {
      RunIsDigits(t[1..], k - 1);
      assert t[..k][1..] == t[1..][..k - 1];
    }
  }

  lemma ExponentIsText(t: Text)
    ensures ExponentText(t[..ExponentLength(t)])
  {
    var k := ExponentLength(t);
    if k > 0 {
      var s := if |t| > 1 && (t[1] == 43 || t[1] == MINUS) then 2 else 1;
      RunIsDigits(t[s..], k - s);
      assert t[..k][s..] == t[s..][..k - s];
    }
  }

  lemma NaturalSound(t: Text) returns (k: nat)
    requires ParseNatural(t).Done?
    ensures 0 < k <= |t| && k <= 128 && ParseNatural(t) == Done(Value(t[..k]), t[k..])
    ensures DigitText(t[..k]) && (t[0] == 48 ==> k == 1)
  {
    var run := DigitRun(t);
    k := if run > 0 && t[0] == 48 then 1 else run;
    RunIsDigits(t, k);
  }

  lemma Shifted(t: Text, k: nat)
    requires k < |t|
    ensures t[1..k + 1] == t[1..][..k] == t[..k + 1][1..] && t[k + 1..] == t[1..][k..]
  {
  }

  lemma IntSound(t: Text)
    requires ParseInt(t).Done?
    ensures ParseInt(t).value.Int? && SpellsInt(ParseInt(t).value.n, t, ParseInt(t).rest)
  {
    if t[0] == MINUS {
      var k := NaturalSound(t[1..]);
      Shifted(t, k);
      NegativeAt(t, k);
    } else {
      var k := NaturalSound(t);
      assert IntAt(Value(t[..k]), t, t[k..], k);
    }
  }

  lemma NegativeAt(t: Text, k: nat)
    requires Starts(t, 45) && 0 < k < |t| && k <= 128 && DigitText(t[..k + 1][1..]) && (t[1] == 48 ==> k == 1)
    ensures SpellsInt(-Value(t[1..k + 1]), t, t[k + 1..])
  {
    assert t[..k + 1][1..][0] == t[1];
    assert IntAt(-Value(t[1..k + 1]), t, t[k + 1..], k + 1);
  }

  lemma FloatPieces(t: Text, i: nat, j: nat, k: nat)
    requires i == IntLength(t) > 0 && j == i + FractionLength(t[i..]) && k == NumberLength(t)
    ensures j <= k <= |t| && IntText(t[..i]) && FractionText(t[i..j]) && ExponentText(t[j..k])
  {
    IntIsText(t);
    FractionIsText(t[i..]);
    ExponentIsText(t[j..]);
    Middle(t, i, j);
    Middle(t, j, k);
  }

  lemma FloatSound(f: Floats, t: Text, x: Text)
    requires 0 < IntLength(t) < NumberLength(t) <= 256 && f(t[..NumberLength(t)]) == Some(x)
    ensures SpellsFloat(f, x, t, t[NumberLength(t)..])
  {
    var i, k := IntLength(t), NumberLength(t);
    var j := i + FractionLength(t[i..]);
    FloatPieces(t, i, j, k);
    assert FloatAt(f, x, t, t[k..], i, j, k);
  }

  lemma Middle(t: Text, i: nat, j: nat)
    requires i <= j <= |t|
    ensures t[i..][..j - i] == t[i..j]
  {
  }

  lemma NumberSound(f: Floats, t: Text)
    requires ParseNumber(f, t).Done?
    ensures Spells(f, ParseNumber(f, t).value, t, ParseNumber(f, t).rest)
  {
    if NumberLength(t) == IntLength(t) { IntSound(t); } else { FloatSound(f, t, ParseNumber(f, t).value.token); }
  }

  // ----- strings

  lemma HexSound(t: Text)
    requires |t| >= 2 && t[0] == BACKSLASH && t[1] == LOWER_U
    ensures ParseHex4(t[2..]).Some? ==> UnicodeAt(ParseHex4(t[2..]).value, t)
    ensures forall u :: UnicodeAt(u, t) ==> ParseHex4(t[2..]) == Some(u)
  {
    if |t| >= 6 {
      assert t[2..][0] == t[2] && t[2..][1] == t[3] && t[2..][2] == t[4] && t[2..][3] == t[5];
    }
  }

  lemma CharSound(t: Text)
    requires t != [] && t[0] != QUOTE && ParseCharacter(t).Done?
    ensures SpellsChar(ParseCharacter(t).value, t, ParseCharacter(t).rest)
  {
    if t[0] == BACKSLASH && t[1] == LOWER_U {
      HexSound(t);
      var u := ParseHex4(t[2..]).value;
      if ParseCharacter(t) == Done(u, t[6..]) {
        if IsHigh(u) && LowFollows(t[6..]) { PairIsRead(t, u); }
      } else {
        assert t[6..][2..] == t[8..];
        HexSound(t[6..]);
      }
    }
  }

  lemma PairIsRead(t: Text, u: int)
    requires |t| >= 6 && t[0] == BACKSLASH && t[1] == LOWER_U && ParseHex4(t[2..]) == Some(u) && IsHigh(u)
    requires LowFollows(t[6..])
    ensures |t| >= 12 && ParseHex4(t[8..]).Some? && IsLow(ParseHex4(t[8..]).value)
    ensures ParseCharacter(t) == Done(Join(u, ParseHex4(t[8..]).value), t[12..])
  {
    var l :| Low(l) && UnicodeAt(l, t[6..]);
    assert t[6..][2..] == t[8..] && t[6..][0] == t[6] && t[6..][1] == t[7];
    HexSound(t[6..]);
  }

  lemma {:induction false} BodySound(t: Text)
    requires ParseBody(t).Done?
    ensures SpellsBody(ParseBody(t).value, t, ParseBody(t).rest)
    decreases |t|
  {
    if t[0] != QUOTE {
      CharSound(t);
      var u := ParseCharacter(t).rest;
      BodySound(u);
      assert ParseBody(t).value[1..] == ParseBody(u).value;
    }
  }

  lemma StringSound(t: Text)
    requires ParseString(t).Done?
    ensures SpellsString(ParseString(t).value, t, ParseString(t).rest)
  {
    BodySound(t[1..]);
  }

  // ----- values

  lemma {:induction false} ValueSound(f: Floats, t: Text)
    requires ParseValue(f, t).Done?
    ensures Spells(f, ParseValue(f, t).value, t, ParseValue(f, t).rest)
    decreases |t|, 1
  {
    if t[0] == QUOTE {
      StringSound(t);
    } else if t[0] == OPEN_BRACE {
      ObjectSound(f, t);
    } else if t[0] == OPEN_BRACKET {
      ArraySound(f, t);
    } else if NULL_TEXT <= t {
      assert t[..4] == NULL_TEXT;
    } else if TRUE_TEXT <= t {
      assert t[..4] == TRUE_TEXT;
    } else if FALSE_TEXT <= t {
      assert t[..5] == FALSE_TEXT;
    } else {
      NumberSound(f, t);
    }
  }

  lemma EmptyArray(f: Floats, t: Text, u: Text)
    requires Starts(t, 91) && Spaced(t[1..], u) && Starts(u, 93)
    ensures Spells(f, Arr([]), t, u[1..])
  {
  }

  lemma FullArray(f: Floats, items: seq<Json>, t: Text, rest: Text)
    requires items != [] && Starts(t, 91) && SpellsItems(f, Arr(items), 0, t[1..], rest)
    ensures Spells(f, Arr(items), t, rest)
  {
  }

  lemma {:induction false} ArraySound(f: Floats, t: Text)
    requires ParseValue(f, t).Done? && t[0] == OPEN_BRACKET
    ensures Spells(f, ParseValue(f, t).value, t, ParseValue(f, t).rest)
    decreases |t|, 0
  {
    var u := SkipSpace(t[1..]);
    SkipIsSpaced(t[1..]);
    ArrayParts(f, t);
    if u[0] == CLOSE_BRACKET {
      EmptyArray(f, t, u);
    } else {
      ItemsSound(f, u, t[1..], []);
      assert [] + ParseItems(f, u).value == ParseItems(f, u).value;
      FullArray(f, ParseItems(f, u).value, t, ParseItems(f, u).rest);
    }
  }

  lemma ItemsLast(f: Floats, v: Json, i: nat, t: Text, a: Text, b: Text, c: Text)
    requires v.Arr? && i == |v.items| - 1 && Spaced(t, a) && Spells(f, v.items[i], a, b)
    requires Spaced(b, c) && Starts(c, 93)
    ensures SpellsItems(f, v, i, t, c[1..])
  {
    assert ItemThen(f, v, i, t, a, b, c, c[1..]);
  }

  lemma ItemsCons(f: Floats, v: Json, i: nat, t: Text, a: Text, b: Text, c: Text, rest: Text)
    requires v.Arr? && i < |v.items| - 1 && Spaced(t, a) && Spells(f, v.items[i], a, b) && Spaced(b, c) && Starts(c, 44)
    requires SpellsItems(f, v, i + 1, c[1..], rest)
    ensures SpellsItems(f, v, i, t, rest)
  {
    assert ItemThen(f, v, i, t, a, b, c, rest);
  }

  /** The items that are read from u on, with the space before them, behind those that were read before. */
  lemma {:induction false} ItemsSound(f: Floats, u: Text, t: Text, before: seq<Json>)
    requires ParseItems(f, u).Done? && Spaced(t, u)
    ensures ParseItems(f, u).value != []
    ensures SpellsItems(f, Arr(before + ParseItems(f, u).value), |before|, t, ParseItems(f, u).rest)
    decreases |u|, 2
  {
    ValueSound(f, u);
    var x, b := ParseValue(f, u).value, ParseValue(f, u).rest;
    var c := SkipSpace(b);
    SkipIsSpaced(b);
    ItemsParts(f, u);
    if c[0] == COMMA {
      var w := SkipSpace(c[1..]);
      SkipIsSpaced(c[1..]);
      ItemsSound(f, w, c[1..], before + [x]);
      OneItemMore(f, before, x, ParseItems(f, w).value, t, u, b, c, ParseItems(f, w).rest);
    } else {
      ItemsLast(f, Arr(before + [x]), |before|, t, u, b, c);
    }
  }

  lemma OneItemMore(f: Floats, before: seq<Json>, x: Json, more: seq<Json>, t: Text, a: Text, b: Text, c: Text,
                    rest: Text)
    requires more != [] && Spaced(t, a) && Spells(f, x, a, b) && Spaced(b, c) && Starts(c, 44)
    requires SpellsItems(f, Arr(before + [x] + more), |before| + 1, c[1..], rest)
    ensures SpellsItems(f, Arr(before + ([x] + more)), |before|, t, rest)
  {
    var items := before + ([x] + more);
    assert before + [x] + more == items && items[|before|] == x;
    ItemsCons(f, Arr(items), |before|, t, a, b, c, rest);
  }

  lemma ItemsParts(f: Floats, t: Text)
    requires ParseItems(f, t).Done?
    ensures ParseValue(f, t).Done?
    ensures var x, c := ParseValue(f, t).value, SkipSpace(ParseValue(f, t).rest);
            && c != [] && (c[0] == CLOSE_BRACKET || c[0] == COMMA)
            && (c[0] == CLOSE_BRACKET ==> ParseItems(f, t) == Done([x], c[1..]))
            && (c[0] == COMMA ==>
                  && ParseItems(f, SkipSpace(c[1..])).Done?
                  && ParseItems(f, t) == Done([x] + ParseItems(f, SkipSpace(c[1..])).value,
                                              ParseItems(f, SkipSpace(c[1..])).rest))
  {
  }

  lemma EmptyObject(f: Floats, t: Text, u: Text)
    requires Starts(t, 123) && Spaced(t[1..], u) && Starts(u, 125)
    ensures Spells(f, Obj(map[]), t, u[1..])
  {
  }

  lemma FullObject(f: Floats, fields: map<Text, Json>, keys: seq<Text>, t: Text, rest: Text)
    requires Lists(keys, fields) && keys != [] && Starts(t, 123) && SpellsMembers(f, Obj(fields), keys, t[1..], rest)
    ensures Spells(f, Obj(fields), t, rest)
  {
    assert keys[0] in keys;
  }

  lemma {:induction false} ObjectSound(f: Floats, t: Text)
    requires ParseValue(f, t).Done? && t[0] == OPEN_BRACE
    ensures Spells(f, ParseValue(f, t).value, t, ParseValue(f, t).rest)
    decreases |t|, 0
  {
    var u := SkipSpace(t[1..]);
    SkipIsSpaced(t[1..]);
    ObjectParts(f, t);
    if u[0] == CLOSE_BRACE {
      EmptyObject(f, t, u);
    } else {
      var keys := MembersSound(f, u, t[1..], map[]);
      FullObject(f, ParseMembers(f, u, map[]).value, keys, t, ParseMembers(f, u, map[]).rest);
    }
  }

  lemma KeySound(t: Text, s: Text, u: Text, x: Text)
    requires Spaced(t, s) && ParseString(s).Done? && u == SkipSpace(ParseString(s).rest) && Starts(u, COLON)
    requires x == SkipSpace(u[1..])
    ensures SpellsKey(ParseString(s).value, t, x)
  {
    StringSound(s);
    SkipIsSpaced(ParseString(s).rest);
    SkipIsSpaced(u[1..]);
    assert KeyThen(ParseString(s).value, t, s, ParseString(s).rest, u, x);
  }

  lemma MembersLast(f: Floats, v: Json, key: Text, t: Text, x: Text, b: Text, w: Text)
    requires v.Obj? && key in v.fields && SpellsKey(key, t, x) && Spells(f, v.fields[key], x, b) && Spaced(b, w)
    requires Starts(w, 125)
    ensures SpellsMembers(f, v, [key], t, w[1..])
  {
    assert MemberThen(f, v, [key], t, x, b, w, w[1..]);
  }

  lemma MembersCons(f: Floats, v: Json, key: Text, more: seq<Text>, t: Text, x: Text, b: Text, w: Text, rest: Text)
    requires v.Obj? && key in v.fields && more != [] && (forall k | k in more :: k in v.fields)
    requires SpellsKey(key, t, x) && Spells(f, v.fields[key], x, b) && Spaced(b, w) && Starts(w, 44)
    requires SpellsMembers(f, v, more, w[1..], rest)
    ensures SpellsMembers(f, v, [key] + more, t, rest)
  {
    var keys := [key] + more;
    assert keys[1..] == more && keys[0] == key;
    assert MemberThen(f, v, keys, t, x, b, w, rest);
  }

  /** The keys that are read from u on, in the order of the text: they are new, and distinct. */
  lemma {:induction false} MembersSound(f: Floats, u: Text, t: Text, seen: map<Text, Json>) returns (keys: seq<Text>)
    requires ParseMembers(f, u, seen).Done? && Spaced(t, u)
    ensures keys != []
    ensures var r := ParseMembers(f, u, seen).value;
            Extends(r, seen, keys) && SpellsMembers(f, Obj(r), keys, t, ParseMembers(f, u, seen).rest)
    decreases |u|, 2
  {
    var colon, x, w := MemberParts(f, u, seen);
    var key, y, b := ParseString(u).value, ParseValue(f, x).value, ParseValue(f, x).rest;
    var r, rest := ParseMembers(f, u, seen).value, ParseMembers(f, u, seen).rest;
    KeySound(t, u, colon, x);
    ValueSound(f, x);
    SkipIsSpaced(b);
    if w[0] == CLOSE_BRACE {
      keys := [key];
      MembersLast(f, Obj(r), key, t, x, b, w);
    } else {
      SkipIsSpaced(w[1..]);
      var more := MembersSound(f, SkipSpace(w[1..]), w[1..], seen[key := y]);
      keys := [key] + more;
      ExtendsCons(r, seen, key, y, more);
      MembersCons(f, Obj(r), key, more, t, x, b, w, rest);
    }
  }

  /** The map r is seen with these keys added, each once. */
  ghost predicate Extends(r: map<Text, Json>, seen: map<Text, Json>, keys: seq<Text>) {
    && (forall k | k in seen :: k in r && r[k] == seen[k] && k !in keys)
    && (forall k | k in r :: k in seen || k in keys) && (forall k | k in keys :: k in r)
    && forall i, j | 0 <= i < j < |keys| :: keys[i] != keys[j]
  }

  lemma ExtendsCons(r: map<Text, Json>, seen: map<Text, Json>, key: Text, y: Json, more: seq<Text>)
    requires key !in seen && Extends(r, seen[key := y], more)
    ensures Extends(r, seen, [key] + more) && r[key] == y
  {
    var keys := [key] + more;
    assert key in seen[key := y];
    forall i, j | 0 <= i < j < |keys| ensures keys[i] != keys[j] {
      assert keys[j] == more[j - 1] && more[j - 1] in more;
      if i > 0 { assert keys[i] == more[i - 1]; }
    }
  }
}
