/** How the canonical encoder spells a value: as shortly as the grammar allows without characters outside ASCII, with
    lower-case escapes, with the keys in order, and without space outside strings. */
module JsonSpelling {
  import opened Wrappers
  import opened Ordering
  import opened Json
  import opened JsonDocument
  import opened JsonLoaded
  import opened JsonGrammar
  import JsonComplete

  // ----- no spelling is shorter

  /** No control character of the delete kind and nothing outside ASCII. */
  predicate Typeable(t: Text) { forall i | 0 <= i < |t| :: t[i] <= 126 }

  /** The text ends in rest. */
  predicate Ends(t: Text, rest: Text) { |rest| <= |t| && rest == t[|t| - |rest|..] }

  lemma EndsTwice(t: Text, u: Text, w: Text)
    requires Ends(t, u) && Ends(u, w)
    ensures Ends(t, w)
  {
    assert u[|u| - |w|..] == t[|t| - |w|..];
  }

  lemma EndsTypeable(t: Text, u: Text)
    requires Ends(t, u) && Typeable(t)
    ensures Typeable(u)
  {
    forall i | 0 <= i < |u| ensures u[i] <= 126 { assert u[i] == t[|t| - |u| + i]; }
  }

  lemma EndsAt(t: Text, n: nat)
    requires n <= |t|
    ensures Ends(t, t[n..])
  {
  }

  lemma SpacedEnds(t: Text, u: Text)
    requires Spaced(t, u)
    ensures Ends(t, u)
  {
    var n :| SpaceUpTo(t, u, n);
    EndsAt(t, n);
  }

  lemma ShortestInt(n: int, t: Text, rest: Text)
    requires SpellsInt(n, t, rest)
    ensures Ends(t, rest) && |PrintInt(n)| <= |t| - |rest|
  {
    var k :| IntAt(n, t, rest, k);
    EndsAt(t, k);
    if t[0] == 45 {
      assert t[..k][1..] == t[1..k] && t[..k][0] == 45;
      DigitsOfValue(t[1..k]);
    } else {
      assert t[..k][0] == t[0];
      DigitsOfValue(t[..k]);
    }
  }

  lemma ShortestChar(c: int, t: Text, u: Text)
    requires SpellsChar(c, t, u) && IsCodePoint(c) && Typeable(t)
    ensures Ends(t, u) && |EscapeOne(c)| <= |t| - |u|
  {
    if SpellsPair(c, t, u) {
      EndsAt(t, 12);
    } else if UnicodeAt(c, t) && u == t[6..] {
      EndsAt(t, 6);
    } else if |t| >= 2 && t[0] == 92 && ShortLetter(t[1], c) && u == t[2..] {
      EndsAt(t, 2);
    } else {
      EndsAt(t, 1);
    }
  }

  lemma {:induction false} ShortestBody(s: Text, t: Text, rest: Text)
    requires SpellsBody(s, t, rest) && AllCodePoints(s) && Typeable(t)
    ensures Ends(t, rest) && |Escape(s)| + 1 <= |t| - |rest|
    decreases |s|
  {
    if s == [] {
      EndsAt(t, 1);
    } else {
      var u :| SpellsChar(s[0], t, u) && SpellsBody(s[1..], u, rest);
      ShortestChar(s[0], t, u);
      EndsTypeable(t, u);
      ShortestBody(s[1..], u, rest);
      EndsTwice(t, u, rest);
    }
  }

  lemma ShortestString(s: Text, t: Text, rest: Text)
    requires SpellsString(s, t, rest) && AllCodePoints(s) && Typeable(t)
    ensures Ends(t, rest) && |PrintString(s)| <= |t| - |rest|
  {
    EndsAt(t, 1);
    EndsTypeable(t, t[1..]);
    ShortestBody(s, t[1..], rest);
    EndsTwice(t, t[1..], rest);
  }

  /** Among all spellings in ASCII the encoder's is as short as any. */
  lemma {:induction false} Shortest(f: Floats, v: Json, t: Text, rest: Text)
    requires Spells(f, v, t, rest) && WellTyped(v) && FloatFree(v) && Typeable(t)
    ensures Ends(t, rest) && |Print(v)| <= |t| - |rest|
    decreases v, 1, 0
  {
    match v
    case Null => EndsAt(t, 4);
    case Bool(b) => EndsAt(t, if b then 4 else 5);
    case Int(n) => ShortestInt(n, t, rest);
    case Str(s) => ShortestString(s, t, rest);
    case Arr(_) => ShortestArray(f, v, t, rest);
    case Obj(_) => ShortestObject(f, v, t, rest);
  }

  lemma Opened(t: Text)
    requires t != [] && Typeable(t)
    ensures Ends(t, t[1..]) && Typeable(t[1..])
  {
    EndsAt(t, 1);
    EndsTypeable(t, t[1..]);
  }

  lemma Closed(t: Text, u: Text)
    requires Ends(t, u) && u != []
    ensures Ends(t, u[1..]) && |u[1..]| < |t|
  {
    EndsAt(u, 1);
    EndsTwice(t, u, u[1..]);
  }

  lemma {:induction false} ShortestArray(f: Floats, v: Json, t: Text, rest: Text)
    requires Spells(f, v, t, rest) && v.Arr? && WellTyped(v) && FloatFree(v) && Typeable(t)
    ensures Ends(t, rest) && |Print(v)| <= |t| - |rest|
    decreases v, 0, |v.items| + 1
  {
    Opened(t);
    if v.items == [] {
      var u :| Spaced(t[1..], u) && Starts(u, 93) && rest == u[1..];
      SpacedEnds(t[1..], u);
      Closed(t[1..], u);
    } else {
      ShortestItems(f, v, 0, t[1..], rest);
    }
    EndsTwice(t, t[1..], rest);
  }

  lemma {:induction false} ShortestItems(f: Floats, v: Json, i: nat, t: Text, rest: Text)
    requires v.Arr? && i < |v.items| && SpellsItems(f, v, i, t, rest) && WellTyped(v) && FloatFree(v) && Typeable(t)
    ensures Ends(t, rest) && |PrintItems(v, i)| + 1 <= |t| - |rest|
    decreases v, 0, |v.items| - i
  {
    var a, b, c :| ItemThen(f, v, i, t, a, b, c, rest);
    SpacedEnds(t, a);
    EndsTypeable(t, a);
    Shortest(f, v.items[i], a, b);
    EndsTwice(t, a, b);
    SpacedEnds(b, c);
    EndsTwice(t, b, c);
    Closed(t, c);
    if i < |v.items| - 1 {
      EndsTypeable(t, c[1..]);
      ShortestItems(f, v, i + 1, c[1..], rest);
      EndsTwice(t, c[1..], rest);
    }
  }

  // ----- members in any order

  /** The length of the printed members with these keys. */
  ghost function MembersLength(v: Json, keys: seq<Text>): nat
    requires v.Obj? && WellTyped(v) && forall k | k in keys :: k in v.fields
  {
    if keys == [] then 0 else |PrintMember(v, keys[0])| + MembersLength(v, keys[1..])
  }

  lemma {:induction false} LengthOfMembers(v: Json, keys: seq<Text>)
    requires v.Obj? && WellTyped(v) && keys != [] && forall k | k in keys :: k in v.fields
    ensures |PrintMembers(v, keys)| == MembersLength(v, keys) + |keys| - 1
    decreases |keys|
  {
    if |keys| > 1 { LengthOfMembers(v, keys[1..]); } else { assert keys[1..] == []; }
  }

  lemma {:induction false} LengthWithout(v: Json, keys: seq<Text>, i: nat)
    requires v.Obj? && WellTyped(v) && (forall k | k in keys :: k in v.fields) && i < |keys|
    ensures MembersLength(v, keys) == |PrintMember(v, keys[i])| + MembersLength(v, keys[..i] + keys[i + 1..])
    decreases i
  {
    if i == 0 {
      assert keys[..0] + keys[1..] == keys[1..];
    } else {
      LengthWithout(v, keys[1..], i - 1);
      var fewer := keys[..i] + keys[i + 1..];
      assert fewer[0] == keys[0] && fewer[1..] == keys[1..][..i - 1] + keys[1..][i..];
      assert keys[1..][i - 1] == keys[i];
    }
  }

  /** Distinct keys in another order give the same length. */
  lemma {:induction false} SameLength(v: Json, a: seq<Text>, b: seq<Text>)
    requires v.Obj? && WellTyped(v) && Lists(a, v.fields) && Lists(b, v.fields)
    ensures |a| == |b| && MembersLength(v, a) == MembersLength(v, b)
  {
    SameLengthOf(v, a, b);
  }

  ghost predicate Distinct(keys: seq<Text>) { forall i, j | 0 <= i < j < |keys| :: keys[i] != keys[j] }

  lemma {:induction false} SameLengthOf(v: Json, a: seq<Text>, b: seq<Text>)
    requires v.Obj? && WellTyped(v) && (forall k | k in a :: k in v.fields) && (forall k | k in b :: k in v.fields)
    requires Distinct(a) && Distinct(b) && forall k :: k in a <==> k in b
    ensures |a| == |b| && MembersLength(v, a) == MembersLength(v, b)
    decreases |a|
  {
    if a == [] {
      SomeKey(b);
    } else {
      assert a[0] in b;
      var i :| 0 <= i < |b| && b[i] == a[0];
      var fewer := b[..i] + b[i + 1..];
      LengthWithout(v, b, i);
      RemoveKey(a, b, i, fewer);
      SameLengthOf(v, a[1..], fewer);
    }
  }

  lemma SomeKey(b: seq<Text>)
    ensures b == [] || exists k :: k in b
  {
    if b != [] { assert b[0] in b; }
  }

  lemma RemoveKey(a: seq<Text>, b: seq<Text>, i: nat, fewer: seq<Text>)
    requires a != [] && i < |b| && b[i] == a[0] && fewer == b[..i] + b[i + 1..]
    requires Distinct(a) && Distinct(b) && forall k :: k in a <==> k in b
    ensures Distinct(a[1..]) && Distinct(fewer) && (forall k :: k in a[1..] <==> k in fewer)
    ensures (forall k | k in fewer :: k in b) && |b| == |fewer| + 1
  {
    forall k ensures k in a[1..] <==> k in fewer {
      if k in a[1..] {
        var j :| 0 < j < |a| && a[j] == k;
        assert a[0] != a[j] && k in b;
        var m :| 0 <= m < |b| && b[m] == k;
        assert m != i;
        if m < i { assert fewer[m] == k; } else { assert fewer[m - 1] == k; }
      }
      if k in fewer {
        var m :| 0 <= m < |fewer| && fewer[m] == k;
        var n := if m < i then m else m + 1;
        assert b[n] == k && n != i && k != a[0];
        assert k in a;
        var j :| 0 <= j < |a| && a[j] == k;
        assert a[1..][j - 1] == k;
      }
    }
    forall x, y | 0 <= x < y < |fewer| ensures fewer[x] != fewer[y] {
      assert fewer[x] == b[if x < i then x else x + 1] && fewer[y] == b[if y < i then y else y + 1];
    }
  }

  lemma {:induction false} ShortestObject(f: Floats, v: Json, t: Text, rest: Text)
    requires Spells(f, v, t, rest) && v.Obj? && WellTyped(v) && FloatFree(v) && Typeable(t)
    ensures Ends(t, rest) && |Print(v)| <= |t| - |rest|
    decreases v, 0, |v.fields| + 1
  {
    Opened(t);
    if v.fields == map[] {
      var u :| Spaced(t[1..], u) && Starts(u, 125) && rest == u[1..];
      SpacedEnds(t[1..], u);
      Closed(t[1..], u);
      assert v.fields.Keys == {};
    } else {
      var keys :| Lists(keys, v.fields) && SpellsMembers(f, v, keys, t[1..], rest);
      ListsFit(keys, v.fields);
      ShortestMembers(f, v, keys, t[1..], rest);
      PrintedLength(v, keys);
    }
    EndsTwice(t, t[1..], rest);
  }

  lemma ListsFit(keys: seq<Text>, fields: map<Text, Json>)
    requires Lists(keys, fields)
    ensures |keys| <= |fields|
  {
    JsonComplete.ListsSize(keys, fields);
  }

  /** The encoder's own order is one of them. */
  lemma PrintedLength(v: Json, keys: seq<Text>)
    requires v.Obj? && WellTyped(v) && Lists(keys, v.fields) && keys != []
    ensures |Print(v)| == MembersLength(v, keys) + |keys| + 1
  {
    var sorted := Sort(v.fields.Keys);
    KeysAre(v, sorted);
    assert Distinct(sorted) by {
      forall i, j | 0 <= i < j < |sorted| ensures sorted[i] != sorted[j] { LessIrreflexive(sorted[i]); }
    }
    SameLength(v, keys, sorted);
    LengthOfMembers(v, sorted);
  }

  lemma ShortestKey(k: Text, t: Text, a: Text)
    requires SpellsKey(k, t, a) && AllCodePoints(k) && Typeable(t)
    ensures Ends(t, a) && |PrintString(k)| + 1 <= |t| - |a|
  {
    var x, b, c :| KeyThen(k, t, x, b, c, a);
    SpacedEnds(t, x);
    EndsTypeable(t, x);
    ShortestString(k, x, b);
    EndsTwice(t, x, b);
    SpacedEnds(b, c);
    EndsTwice(t, b, c);
    Closed(t, c);
    SpacedEnds(c[1..], a);
    EndsTwice(t, c[1..], a);
  }

  lemma {:induction false} ShortestMembers(f: Floats, v: Json, keys: seq<Text>, t: Text, rest: Text)
    requires v.Obj? && (forall k | k in keys :: k in v.fields) && SpellsMembers(f, v, keys, t, rest)
    requires WellTyped(v) && FloatFree(v) && Typeable(t)
    ensures Ends(t, rest) && MembersLength(v, keys) + |keys| <= |t| - |rest|
    decreases v, 0, |keys|
  {
    var a, b, c :| MemberThen(f, v, keys, t, a, b, c, rest);
    ShortestKey(keys[0], t, a);
    EndsTypeable(t, a);
    Shortest(f, v.fields[keys[0]], a, b);
    EndsTwice(t, a, b);
    SpacedEnds(b, c);
    EndsTwice(t, b, c);
    Closed(t, c);
    if |keys| > 1 {
      EndsTypeable(t, c[1..]);
      ShortestMembers(f, v, keys[1..], c[1..], rest);
      EndsTwice(t, c[1..], rest);
    } else {
      assert keys[1..] == [];
    }
  }

  // ----- lower-case escapes

  /** How many upper-case letters a text holds. */
  function Uppers(t: Text): nat {
    if t == [] then 0 else (if 65 <= t[0] <= 90 then 1 else 0) + Uppers(t[1..])
  }

  lemma {:induction false} UppersConcat(a: Text, b: Text)
    ensures Uppers(a + b) == Uppers(a) + Uppers(b)
  {
    if a == [] {
      assert a + b == b;
    } else {
      assert (a + b)[1..] == a[1..] + b;
      UppersConcat(a[1..], b);
    }
  }

  lemma {:induction false} NoUppers(t: Text)
    requires forall i | 0 <= i < |t| :: !(65 <= t[i] <= 90)
    ensures Uppers(t) == 0
  {
    if t != [] { NoUppers(t[1..]); }
  }

  lemma HexIsLower(n: int)
    requires 0 <= n < 0x10000
    ensures forall i | 0 <= i < 6 :: !(65 <= UnicodeEscape(n)[i] <= 90)
  {
  }

  lemma EscapeKeepsUppers(c: int)
    requires IsCodePoint(c)
    ensures Uppers(EscapeOne(c)) == Uppers([c])
  {
    assert [c][1..] == [];
    if ShortEscape(c) != 0 {
      NoUppers(EscapeOne(c));
    } else if c < 32 || 126 < c < 0x10000 {
      HexIsLower(c);
      NoUppers(EscapeOne(c));
    } else if c >= 0x10000 {
      HexIsLower(HighOf(c));
      HexIsLower(LowOf(c));
      NoUppers(EscapeOne(c));
    }
  }

  /** Escapes add no upper-case letter: a string is printed with exactly its own. */
  lemma {:induction false} EscapesAreLower(s: Text)
    requires AllCodePoints(s)
    ensures Uppers(Escape(s)) == Uppers(s)
  {
    if s != [] {
      EscapesAreLower(s[1..]);
      UppersConcat(EscapeOne(s[0]), Escape(s[1..]));
      EscapeKeepsUppers(s[0]);
      UppersConcat([s[0]], s[1..]);
      assert s == [s[0]] + s[1..];
    }
  }

  // ----- keys in order

  /** The keys of the members in the order in which the parser meets them. */
  function KeysInText(f: Floats, t: Text): seq<Text>
    decreases |t|
  {
    match ParseString(t)
    case Fail => []
    case Done(key, rest) =>
      var u := SkipSpace(rest);
      if u == [] then [key]
      else
        match ParseValue(f, SkipSpace(u[1..]))
        case Fail => [key]
        case Done(_, rest') =>
          var w := SkipSpace(rest');
          if w == [] || w[0] != COMMA then [key] else [key] + KeysInText(f, SkipSpace(w[1..]))
  }

  lemma {:induction false} PrintedKeys(f: Floats, v: Json, keys: seq<Text>, rest: Text)
    requires v.Obj? && WellTyped(v) && Scalar(v) && Normal(f, v) && Bounded(v) && keys != []
    requires forall k | k in keys :: k in v.fields
    ensures KeysInText(f, PrintMembers(v, keys) + [CLOSE_BRACE] + rest) == keys
    decreases |keys|
  {
    var k, more := keys[0], keys[1..];
    var x := v.fields[k];
    var after := MemberText(v, keys, rest);
    var t, u := PrintMembers(v, keys) + [CLOSE_BRACE] + rest, Print(x) + after;
    ParsePrintString(k, [COLON] + u);
    ParsePrint(f, x, after);
    Colon(u);
    if more == [] {
      assert keys == [k];
      KeysEnd(f, t, k, u, x, after);
    } else {
      PrintedKeys(f, v, more, rest);
      KeysGoOn(f, t, k, u, x, after);
      assert keys == [k] + more;
    }
  }

  lemma Colon(u: Text)
    ensures SkipSpace([COLON] + u) == [COLON] + u && ([COLON] + u)[1..] == u
  {
  }

  lemma KeysEnd(f: Floats, t: Text, k: Text, u: Text, x: Json, after: Text)
    requires ParseString(t) == Done(k, [COLON] + u) && SkipSpace(u) == u && ParseValue(f, u) == Done(x, after)
    requires SkipSpace([COLON] + u) == [COLON] + u && ([COLON] + u)[1..] == u && Starts(after, CLOSE_BRACE)
    ensures KeysInText(f, t) == [k]
  {
  }

  lemma KeysGoOn(f: Floats, t: Text, k: Text, u: Text, x: Json, after: Text)
    requires ParseString(t) == Done(k, [COLON] + u) && SkipSpace(u) == u && ParseValue(f, u) == Done(x, after)
    requires SkipSpace([COLON] + u) == [COLON] + u && ([COLON] + u)[1..] == u
    requires Starts(after, COMMA) && SkipSpace(after[1..]) == after[1..]
    ensures KeysInText(f, t) == [k] + KeysInText(f, after[1..])
  {
  }

  /** In the text of an object its keys occur once each and in strictly increasing order. */
  lemma KeysInOrder(f: Floats, v: Json, rest: Text)
    requires v.Obj? && v.fields != map[] && WellTyped(v) && Scalar(v) && Normal(f, v) && Bounded(v)
    ensures Print(v)[0] == OPEN_BRACE
    ensures var keys := KeysInText(f, (Print(v) + rest)[1..]);
            (forall i, j | 0 <= i < j < |keys| :: Less(keys[i], keys[j])) && forall k :: k in keys <==> k in v.fields
  {
    var keys := Sort(v.fields.Keys);
    KeysAre(v, keys);
    assert keys != [] by { var k :| k in v.fields; assert k in keys; }
    ObjectText(v, keys, rest, PrintMembers(v, keys) + [CLOSE_BRACE] + rest);
    assert (Print(v) + rest)[1..] == PrintMembers(v, keys) + [CLOSE_BRACE] + rest;
    PrintedKeys(f, v, keys, rest);
  }

  // ----- no space outside strings

  /** Outside of strings there is no space, tab or line break. */
  function Dense(t: Text, inString: bool, escaped: bool): bool
    decreases |t|
  {
    if t == [] then true
    else if inString then
      if escaped then Dense(t[1..], true, false)
      else if t[0] == BACKSLASH then Dense(t[1..], true, true)
      else Dense(t[1..], t[0] != QUOTE, false)
    else !IsSpace(t[0]) && Dense(t[1..], t[0] == QUOTE, false)
  }

  lemma {:induction false} DensePlain(p: Text, rest: Text)
    requires forall i | 0 <= i < |p| :: !IsSpace(p[i]) && p[i] != QUOTE
    ensures Dense(p + rest, false, false) == Dense(rest, false, false)
    decreases |p|
  {
    if p == [] {
      assert p + rest == rest;
    } else {
      assert (p + rest)[1..] == p[1..] + rest;
      DensePlain(p[1..], rest);
    }
  }

  lemma {:induction false} DenseInside(p: Text, rest: Text)
    requires forall i | 0 <= i < |p| :: p[i] !in {QUOTE, BACKSLASH}
    ensures Dense(p + rest, true, false) == Dense(rest, true, false)
    decreases |p|
  {
    if p == [] {
      assert p + rest == rest;
    } else {
      assert (p + rest)[1..] == p[1..] + rest;
      DenseInside(p[1..], rest);
    }
  }

  lemma DenseUnicode(u: int, rest: Text)
    requires 0 <= u < 0x10000
    ensures Dense(UnicodeEscape(u) + rest, true, false) == Dense(rest, true, false)
  {
    var t := UnicodeEscape(u) + rest;
    assert t[1..][1..] == Hex4(u) + rest;
    DenseInside(Hex4(u), rest);
  }

  lemma DenseCharacter(c: int, rest: Text)
    requires IsCodePoint(c)
    ensures Dense(EscapeOne(c) + rest, true, false) == Dense(rest, true, false)
  {
    var t := EscapeOne(c) + rest;
    if ShortEscape(c) != 0 {
      assert t[1..][1..] == rest;
    } else if 32 <= c <= 126 {
      DenseInside([c], rest);
    } else if c < 0x10000 {
      DenseUnicode(c, rest);
    } else {
      var u, w := UnicodeEscape(HighOf(c)), UnicodeEscape(LowOf(c));
      DenseUnicode(HighOf(c), w + rest);
      DenseUnicode(LowOf(c), rest);
      assert u + w + rest == u + (w + rest);
    }
  }

  lemma {:induction false} DenseBody(s: Text, rest: Text)
    requires AllCodePoints(s)
    ensures Dense(Escape(s) + rest, true, false) == Dense(rest, true, false)
  {
    if s == [] {
      assert Escape(s) + rest == rest;
    } else {
      assert Escape(s) + rest == EscapeOne(s[0]) + (Escape(s[1..]) + rest);
      DenseCharacter(s[0], Escape(s[1..]) + rest);
      DenseBody(s[1..], rest);
    }
  }

  lemma DenseString(s: Text, rest: Text)
    requires AllCodePoints(s)
    ensures Dense(PrintString(s) + rest, false, false) == Dense(rest, false, false)
  {
    var t := PrintString(s) + rest;
    assert t[0] == QUOTE && t[1..] == Escape(s) + ([QUOTE] + rest);
    DenseBody(s, [QUOTE] + rest);
    assert ([QUOTE] + rest)[1..] == rest;
  }

  lemma {:induction false} DensePrint(v: Json, rest: Text)
    requires WellTyped(v)
    ensures Dense(Print(v) + rest, false, false) == Dense(rest, false, false)
    decreases v, 1, 0
  {
    match v
    case Null => DensePlain(NULL_TEXT, rest);
    case Bool(b) => DensePlain(if b then TRUE_TEXT else FALSE_TEXT, rest);
    case Int(n) => DenseInt(n, rest);
    case Float(x) => DenseToken(x, rest);
    case Str(s) => DenseString(s, rest);
    case Arr(_) => DenseArray(v, rest);
    case Obj(fields) =>
      var keys := Sort(fields.Keys);
      KeysAre(v, keys);
      ObjectText(v, keys, rest, PrintMembers(v, keys) + [CLOSE_BRACE] + rest);
      DenseObject(v, keys, rest);
  }

  lemma DenseInt(n: int, rest: Text)
    ensures Dense(PrintInt(n) + rest, false, false) == Dense(rest, false, false)
  {
    var digits := Digits(Magnitude(n));
    assert forall i | 0 <= i < |digits| :: IsDigit(digits[i]);
    DensePlain(PrintInt(n), rest);
  }

  lemma DenseToken(x: Text, rest: Text)
    requires FloatToken(x)
    ensures Dense(x + rest, false, false) == Dense(rest, false, false)
  {
    TokenCharacters(x);
    DensePlain(x, rest);
  }

  lemma {:induction false} DenseArray(v: Json, rest: Text)
    requires v.Arr? && WellTyped(v)
    ensures Dense(Print(v) + rest, false, false) == Dense(rest, false, false)
    decreases v, 0, |v.items| + 1
  {
    var after := [CLOSE_BRACKET] + rest;
    assert Print(v) + rest == [OPEN_BRACKET] + (PrintItems(v, 0) + after);
    DensePlain([OPEN_BRACKET], PrintItems(v, 0) + after);
    DenseItems(v, 0, after);
    DensePlain([CLOSE_BRACKET], rest);
  }

  lemma {:induction false} DenseItems(v: Json, i: nat, after: Text)
    requires v.Arr? && WellTyped(v) && i <= |v.items|
    ensures Dense(PrintItems(v, i) + after, false, false) == Dense(after, false, false)
    decreases v, 0, |v.items| - i
  {
    if i == |v.items| {
      assert PrintItems(v, i) + after == after;
    } else if i == |v.items| - 1 {
      DensePrint(v.items[i], after);
    } else {
      var x, next := Print(v.items[i]), PrintItems(v, i + 1) + after;
      assert PrintItems(v, i) + after == x + ([COMMA] + next);
      DensePrint(v.items[i], [COMMA] + next);
      DensePlain([COMMA], next);
      DenseItems(v, i + 1, after);
    }
  }

  lemma {:induction false} DenseObject(v: Json, keys: seq<Text>, rest: Text)
    requires v.Obj? && WellTyped(v) && forall k | k in keys :: k in v.fields
    ensures Dense([OPEN_BRACE] + (PrintMembers(v, keys) + [CLOSE_BRACE] + rest), false, false)
            == Dense(rest, false, false)
    decreases v, 0, |keys| + 1
  {
    var after := [CLOSE_BRACE] + rest;
    Regroup(PrintMembers(v, keys), [CLOSE_BRACE], rest);
    DensePlain([OPEN_BRACE], PrintMembers(v, keys) + after);
    DenseMembers(v, keys, after);
    DensePlain([CLOSE_BRACE], rest);
  }

  lemma {:induction false} DenseMembers(v: Json, keys: seq<Text>, after: Text)
    requires v.Obj? && WellTyped(v) && forall k | k in keys :: k in v.fields
    ensures Dense(PrintMembers(v, keys) + after, false, false) == Dense(after, false, false)
    decreases v, 0, |keys|
  {
    if keys == [] {
      assert PrintMembers(v, keys) + after == after;
    } else {
      var x := Print(v.fields[keys[0]]);
      var next := PrintMembers(v, keys[1..]) + after;
      var tail := if |keys| == 1 then after else [COMMA] + next;
      MembersText(v, keys, after);
      DenseString(keys[0], [COLON] + (x + tail));
      DensePlain([COLON], x + tail);
      DensePrint(v.fields[keys[0]], tail);
      if |keys| > 1 {
        DensePlain([COMMA], next);
        DenseMembers(v, keys[1..], after);
      }
    }
  }

  /** A canonical document is one line: no space outside its strings, and a line break at its end. */
  lemma CanonicalIsDense(f: Floats, v: Json)
    requires WellTyped(v) && CanonicalJson(f, v).Some?
    ensures var t := CanonicalJson(f, v).value;
            |t| > 0 && t[|t| - 1] == 10 && Dense(t[..|t| - 1], false, false)
  {
    DensePrint(v, []);
    assert Print(v) + [] == Print(v);
    assert (Print(v) + [NEWLINE])[..|Print(v)|] == Print(v);
  }

  /** And as short as any document of a value without floats that holds nothing beyond the tilde: no other spelling of
      what a loaded document says is shorter than its canonical form. */
  lemma CanonicalIsShortest(f: Floats, v: Json, t: Text)
    requires StrictLoads(f, t) == Some(v) && FloatFree(v) && Typeable(t) && WellTyped(v)
    ensures CanonicalJson(f, v).Some? ==> |CanonicalJson(f, v).value| - 1 <= |t|
  {
    JsonComplete.StrictLoadsExactly(f, v, t);
    var a, b :| JsonComplete.DocumentAt(f, v, t, a, b);
    SpacedEnds(t, a);
    EndsTypeable(t, a);
    Shortest(f, v, a, b);
  }
}
