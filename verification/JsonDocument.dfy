/** Whole documents: printing and parsing of values, the nesting scan, and the round trips. */
module JsonDocument {
  import opened Wrappers
  import opened Ordering
  import opened Json
  import Utf8

  // ----- printing

  /** Python strings are sequences of code points, surrogates included; floating-point numbers print as literals. */
  ghost predicate WellTyped(v: Json)
    decreases v
  {
    match v
    case Null => true
    case Bool(_) => true
    case Int(_) => true
    case Float(x) => FloatToken(x)
    case Str(s) => AllCodePoints(s)
    case Arr(items) => forall x | x in items :: WellTyped(x)
    case Obj(fields) => forall k | k in fields :: AllCodePoints(k) && WellTyped(fields[k])
  }

  /** The same, and no string, as a value or as a key, contains a surrogate. */
  ghost predicate Scalar(v: Json)
    decreases v
  {
    match v
    case Null => true
    case Bool(_) => true
    case Int(_) => true
    case Float(x) => FloatToken(x)
    case Str(s) => Utf8.AllScalar(s)
    case Arr(items) => forall x | x in items :: Scalar(x)
    case Obj(fields) => forall k | k in fields :: Utf8.AllScalar(k) && Scalar(fields[k])
  }

  /** Every integer has at most 128 digits, and every other number at most 256 characters. */
  ghost predicate Bounded(v: Json)
    decreases v
  {
    match v
    case Null => true
    case Bool(_) => true
    case Int(n) => DigitCount(n) <= MAX_JSON_INTEGER_DIGITS
    case Float(x) => |x| <= MAX_JSON_NUMBER_CHARS
    case Str(_) => true
    case Arr(items) => forall x | x in items :: Bounded(x)
    case Obj(fields) => forall k | k in fields :: Bounded(fields[k])
  }

  /** Every floating-point number is given by the text that prints it. */
  ghost predicate Normal(f: Floats, v: Json)
    decreases v
  {
    match v
    case Float(x) => f(x) == Some(x)
    case Arr(items) => forall x | x in items :: Normal(f, x)
    case Obj(fields) => forall k | k in fields :: Normal(f, fields[k])
    case _ => true
  }

  ghost predicate FloatFree(v: Json)
    decreases v
  {
    match v
    case Float(_) => false
    case Arr(items) => forall x | x in items :: FloatFree(x)
    case Obj(fields) => forall k | k in fields :: FloatFree(fields[k])
    case _ => true
  }

  lemma {:induction false} FloatFreeIsNormal(f: Floats, v: Json)
    requires FloatFree(v)
    ensures Normal(f, v)
    decreases v
  {
    match v
    case Arr(items) => forall x | x in items ensures Normal(f, x) { FloatFreeIsNormal(f, x); }
    case Obj(fields) => forall k | k in fields ensures Normal(f, fields[k]) { FloatFreeIsNormal(f, fields[k]); }
    case _ =>
  }

  ghost function Print(v: Json): (t: Text)
    requires WellTyped(v)
    ensures t != []
    decreases v, 1, 0
  {
    match v
    case Null => NULL_TEXT
    case Bool(b) => if b then TRUE_TEXT else FALSE_TEXT
    case Int(n) => PrintInt(n)
    case Float(x) => x
    case Str(s) => PrintString(s)
    case Arr(items) => [OPEN_BRACKET] + PrintItems(v, 0) + [CLOSE_BRACKET]
    case Obj(fields) => [OPEN_BRACE] + PrintMembers(v, Sort(fields.Keys)) + [CLOSE_BRACE]
  }

  /** The items from position i on, separated by commas. */
  ghost function PrintItems(v: Json, i: nat): Text
    requires v.Arr? && WellTyped(v) && i <= |v.items|
    decreases v, 0, |v.items| - i
  {
    if i == |v.items| then []
    else if i == |v.items| - 1 then Print(v.items[i])
    else Print(v.items[i]) + [COMMA] + PrintItems(v, i + 1)
  }

  /** The given members, separated by commas. */
  ghost function PrintMembers(v: Json, keys: seq<Text>): Text
    requires v.Obj? && WellTyped(v) && forall k | k in keys :: k in v.fields
    decreases v, 0, |keys|
  {
    if keys == [] then []
    else if |keys| == 1 then PrintMember(v, keys[0])
    else PrintMember(v, keys[0]) + [COMMA] + PrintMembers(v, keys[1..])
  }

  ghost function PrintMember(v: Json, k: Text): Text
    requires v.Obj? && WellTyped(v) && k in v.fields
    decreases v, 0, 0
  {
    PrintString(k) + [COLON] + Print(v.fields[k])
  }

  // ----- parsing

  function SkipSpace(t: Text): (r: Text)
    ensures |r| <= |t|
  {
    if t != [] && t[0] in {32, 9, 10, 13} then SkipSpace(t[1..]) else t
  }

  function ParseValue(f: Floats, t: Text): (p: Parsed<Json>)
    ensures p.Done? ==> |p.rest| < |t|
    decreases |t|, 1
  {
    if t == [] then Fail
    else if t[0] == QUOTE then
      match ParseString(t)
      case Fail => Fail
      case Done(s, rest) => Done(Str(s), rest)
    else if t[0] == OPEN_BRACE then
      var u := SkipSpace(t[1..]);
      if u != [] && u[0] == CLOSE_BRACE then Done(Obj(map[]), u[1..])
      else
        match ParseMembers(f, u, map[])
        case Fail => Fail
        case Done(fields, rest) => Done(Obj(fields), rest)
    else if t[0] == OPEN_BRACKET then
      var u := SkipSpace(t[1..]);
      if u != [] && u[0] == CLOSE_BRACKET then Done(Arr([]), u[1..])
      else
        match ParseItems(f, u)
        case Fail => Fail
        case Done(items, rest) => Done(Arr(items), rest)
    else if NULL_TEXT <= t then Done(Null, t[4..])
    else if TRUE_TEXT <= t then Done(Bool(true), t[4..])
    else if FALSE_TEXT <= t then Done(Bool(false), t[5..])
    else ParseNumber(f, t)
  }

  /** One or more values and the closing bracket. */
  function ParseItems(f: Floats, t: Text): (p: Parsed<seq<Json>>)
    ensures p.Done? ==> |p.rest| < |t|
    decreases |t|, 2
  {
    match ParseValue(f, t)
    case Fail => Fail
    case Done(v, rest) =>
      var u := SkipSpace(rest);
      if u == [] then Fail
      else if u[0] == CLOSE_BRACKET then Done([v], u[1..])
      else if u[0] != COMMA then Fail
      else
        match ParseItems(f, SkipSpace(u[1..]))
        case Fail => Fail
        case Done(items, rest') => Done([v] + items, rest')
  }

  /** One or more members and the closing brace; a key that was seen before is an error. */
  function ParseMembers(f: Floats, t: Text, seen: map<Text, Json>): (p: Parsed<map<Text, Json>>)
    ensures p.Done? ==> |p.rest| < |t|
    decreases |t|, 2
  {
    match ParseString(t)
    case Fail => Fail
    case Done(key, rest) =>
      var u := SkipSpace(rest);
      if u == [] || u[0] != COLON || key in seen then Fail
      else
        match ParseValue(f, SkipSpace(u[1..]))
        case Fail => Fail
        case Done(v, rest') =>
          var w := SkipSpace(rest');
          if w == [] then Fail
          else if w[0] == CLOSE_BRACE then Done(seen[key := v], w[1..])
          else if w[0] != COMMA then Fail
          else ParseMembers(f, SkipSpace(w[1..]), seen[key := v])
  }

  // ----- parse after print

  lemma PrintStart(v: Json)
    requires WellTyped(v)
    ensures var c := Print(v)[0]; c !in {32, 9, 10, 13, CLOSE_BRACKET, CLOSE_BRACE}
  {
    match v
    case Int(n) =>
      var d := Digits(Magnitude(n));
      assert IsDigit(d[0]);
      assert Print(v)[0] == if n < 0 then MINUS else d[0];
    case Float(x) => TokenStart(x);
    case _ =>
  }

  lemma NoSpace(t: Text, u: Text)
    requires t != [] && t[0] !in {32, 9, 10, 13}
    ensures SkipSpace(t + u) == t + u
  {
  }

  /** Parsing a printed value returns it and stops right behind it, or fails when an integer
      is too long. */
  lemma {:induction false} ParsePrint(f: Floats, v: Json, rest: Text)
    requires Normal(f, v)
    requires WellTyped(v) && Scalar(v) && NumberEnds(rest)
    ensures ParseValue(f, Print(v) + rest) == if Bounded(v) then Done(v, rest) else Fail
    decreases v, 1, 0
  {
    var t := Print(v) + rest;
    match v
    case Null => assert t[4..] == rest;
    case Bool(b) => assert if b then t[4..] == rest else t[5..] == rest;
    case Int(n) => ParsePrintIntValue(f, n, rest);
    case Float(x) => ParsePrintFloatValue(f, x, rest);
    case Str(s) => ParsePrintString(s, rest);
    case Arr(items) =>
      if items == [] {
        assert PrintItems(v, 0) == [];
        assert Print(v) == [OPEN_BRACKET, CLOSE_BRACKET];
        ParseEmpty(f, rest);
      } else {
        ParsePrintArray(f, v, rest);
      }
    case Obj(fields) =>
      if fields == map[] {
        assert fields.Keys == {};
        assert Print(v) == [OPEN_BRACE, CLOSE_BRACE];
        ParseEmpty(f, rest);
      } else {
        ParsePrintObject(f, v, rest);
      }
  }

  lemma ParseEmpty(f: Floats, rest: Text)
    ensures ParseValue(f, [OPEN_BRACKET, CLOSE_BRACKET] + rest) == Done(Arr([]), rest)
    ensures ParseValue(f, [OPEN_BRACE, CLOSE_BRACE] + rest) == Done(Obj(map[]), rest)
  {
    var t, u := [OPEN_BRACKET, CLOSE_BRACKET] + rest, [OPEN_BRACE, CLOSE_BRACE] + rest;
    assert t[1..] == [CLOSE_BRACKET] + rest && u[1..] == [CLOSE_BRACE] + rest;
    assert SkipSpace(t[1..])[1..] == rest && SkipSpace(u[1..])[1..] == rest;
  }

  lemma ParsePrintIntValue(f: Floats, n: int, rest: Text)
    requires NumberEnds(rest)
    ensures ParseValue(f, PrintInt(n) + rest) == if Bounded(Int(n)) then Done(Int(n), rest) else Fail
  {
    ParsePrintNumber(f, n, rest);
    var d, t := Digits(Magnitude(n)), PrintInt(n) + rest;
    assert t[0] == if n < 0 then MINUS else d[0];
    assert IsDigit(d[0]);
    NumberValue(f, t);
  }

  /** A digit or a minus sign can only begin a number. */
  lemma NumberValue(f: Floats, t: Text)
    requires t != [] && (t[0] == MINUS || IsDigit(t[0]))
    ensures ParseValue(f, t) == ParseNumber(f, t)
  {
    assert !(NULL_TEXT <= t) && !(TRUE_TEXT <= t) && !(FALSE_TEXT <= t) by {
      assert NULL_TEXT[0] != t[0] && TRUE_TEXT[0] != t[0] && FALSE_TEXT[0] != t[0];
    }
  }

  lemma ParsePrintFloatValue(f: Floats, x: Text, rest: Text)
    requires FloatToken(x) && NumberEnds(rest) && f(x) == Some(x)
    ensures ParseValue(f, x + rest) == if |x| <= MAX_JSON_NUMBER_CHARS then Done(Float(x), rest) else Fail
  {
    TokenStart(x);
    assert (x + rest)[0] == x[0];
    NumberValue(f, x + rest);
    ParsePrintFloat(f, x, rest);
  }

  lemma {:induction false} ParsePrintArray(f: Floats, v: Json, rest: Text)
    requires Normal(f, v)
    requires v.Arr? && v.items != [] && WellTyped(v) && Scalar(v)
    ensures ParseValue(f, Print(v) + rest) == if Bounded(v) then Done(v, rest) else Fail
    decreases v, 0, |v.items| + 1
  {
    var t, body := Print(v) + rest, PrintItems(v, 0);
    ItemsStart(v, 0);
    assert t[1..] == body + ([CLOSE_BRACKET] + rest);
    NoSpace(body, [CLOSE_BRACKET] + rest);
    ParsePrintItems(f, v, 0, rest);
    assert v.items[0..] == v.items;
    assert body + [CLOSE_BRACKET] + rest == body + ([CLOSE_BRACKET] + rest);
    assert BoundedFrom(v, 0) <==> Bounded(v);
  }

  lemma ItemsStart(v: Json, i: nat)
    requires v.Arr? && WellTyped(v) && i < |v.items|
    ensures PrintItems(v, i) != [] && PrintItems(v, i)[0] == Print(v.items[i])[0]
    ensures PrintItems(v, i)[0] !in {32, 9, 10, 13, CLOSE_BRACKET, CLOSE_BRACE}
  {
    PrintStart(v.items[i]);
  }

  /** One step of the item loop, by what follows the value. */
  lemma ItemsStep(f: Floats, t: Text, x: Json, after: Text)
    requires ParseValue(f, t) == Done(x, after) && after != []
    ensures after[0] == CLOSE_BRACKET ==> ParseItems(f, t) == Done([x], after[1..])
    ensures after[0] == COMMA && SkipSpace(after[1..]) == after[1..] ==>
              ParseItems(f, t) == match ParseItems(f, after[1..])
                               case Fail => Fail
                               case Done(items, rest) => Done([x] + items, rest)
  {
  }

  ghost predicate BoundedFrom(v: Json, i: nat)
    requires v.Arr? && i <= |v.items|
  {
    forall x | x in v.items[i..] :: Bounded(x)
  }

  lemma {:induction false} ParsePrintItems(f: Floats, v: Json, i: nat, rest: Text)
    requires Normal(f, v)
    requires v.Arr? && WellTyped(v) && Scalar(v) && i < |v.items|
    ensures ParseItems(f, PrintItems(v, i) + [CLOSE_BRACKET] + rest) ==
            if BoundedFrom(v, i) then Done(v.items[i..], rest) else Fail
    decreases v, 0, |v.items| - i
  {
    var x, t := v.items[i], PrintItems(v, i) + [CLOSE_BRACKET] + rest;
    BoundedStep(v, i);
    var after := ItemText(v, i, rest);
    ParsePrint(f, x, after);
    if Bounded(x) {
      ItemsStep(f, t, x, after);
      if i < |v.items| - 1 {
        ParsePrintItems(f, v, i + 1, rest);
      } else {
        assert v.items[i..] == [x];
      }
    }
  }

  lemma BoundedStep(v: Json, i: nat)
    requires v.Arr? && i < |v.items|
    ensures v.items[i..] == [v.items[i]] + v.items[i + 1..]
    ensures BoundedFrom(v, i) <==> Bounded(v.items[i]) && BoundedFrom(v, i + 1)
  {
    assert v.items[i..] == [v.items[i]] + v.items[i + 1..];
  }

  /** The text of the items from i on is the item at i and what follows it. */
  lemma ItemText(v: Json, i: nat, rest: Text) returns (after: Text)
    requires v.Arr? && WellTyped(v) && i < |v.items|
    ensures PrintItems(v, i) + [CLOSE_BRACKET] + rest == Print(v.items[i]) + after && NumberEnds(after) && after != []
    ensures i == |v.items| - 1 ==> after[0] == CLOSE_BRACKET && after[1..] == rest
    ensures i < |v.items| - 1 ==>
              && after[0] == COMMA && after[1..] == PrintItems(v, i + 1) + [CLOSE_BRACKET] + rest
              && SkipSpace(after[1..]) == after[1..]
  {
    if i == |v.items| - 1 {
      after := [CLOSE_BRACKET] + rest;
    } else {
      var next := PrintItems(v, i + 1) + [CLOSE_BRACKET] + rest;
      after := [COMMA] + next;
      ItemsStart(v, i + 1);
      assert next[0] == PrintItems(v, i + 1)[0];
      assert after[1..] == next;
    }
  }

  lemma {:induction false} ParsePrintObject(f: Floats, v: Json, rest: Text)
    requires Normal(f, v)
    requires v.Obj? && v.fields != map[] && WellTyped(v) && Scalar(v)
    ensures ParseValue(f, Print(v) + rest) == if Bounded(v) then Done(v, rest) else Fail
    decreases v, 0, |v.fields.Keys| + 1
  {
    var keys := Sort(v.fields.Keys);
    KeysOf(v, keys);
    var u := PrintMembers(v, keys) + [CLOSE_BRACE] + rest;
    ObjectText(v, keys, rest, u);
    MembersStart(v, keys);
    ObjectStep(f, u);
    ParsePrintMembers(f, v, keys, map[], rest);
  }

  lemma ObjectText(v: Json, keys: seq<Text>, rest: Text, u: Text)
    requires v.Obj? && WellTyped(v) && keys == Sort(v.fields.Keys) && forall k | k in keys :: k in v.fields
    requires u == PrintMembers(v, keys) + [CLOSE_BRACE] + rest
    ensures Print(v) + rest == [OPEN_BRACE] + u
  {
  }

  lemma ObjectStep(f: Floats, u: Text)
    requires u != [] && u[0] == QUOTE
    ensures ParseValue(f, [OPEN_BRACE] + u) == match ParseMembers(f, u, map[])
                                            case Fail => Fail
                                            case Done(fields, rest) => Done(Obj(fields), rest)
  {
    assert ([OPEN_BRACE] + u)[1..] == u && SkipSpace(u) == u;
  }

  lemma KeysOf(v: Json, keys: seq<Text>)
    requires v.Obj? && v.fields != map[] && keys == Sort(v.fields.Keys)
    ensures keys != [] && (forall k :: k in keys <==> k in v.fields)
    ensures forall i, j | 0 <= i < j < |keys| :: keys[i] != keys[j]
    ensures Fill(map[], v, keys) == v.fields
    ensures BoundedKeys(v, keys) <==> Bounded(v)
  {
    KeysAre(v, keys);
    SortedDistinct(keys);
    FillIs(v, keys);
    BoundedIs(v, keys);
    var k :| k in v.fields;
  }

  lemma BoundedIs(v: Json, keys: seq<Text>)
    requires v.Obj? && forall k :: k in keys <==> k in v.fields
    ensures BoundedKeys(v, keys) <==> Bounded(v)
  {
    if BoundedKeys(v, keys) {
      forall k | k in v.fields ensures Bounded(v.fields[k]) { assert k in keys; }
    }
  }

  lemma KeysAre(v: Json, keys: seq<Text>)
    requires v.Obj? && keys == Sort(v.fields.Keys)
    ensures forall k :: k in keys <==> k in v.fields
  {
    assert forall k :: k in keys <==> k in Elements(keys);
  }

  lemma FillIs(v: Json, keys: seq<Text>)
    requires v.Obj? && forall k :: k in keys <==> k in v.fields
    ensures Fill(map[], v, keys) == v.fields
  {
    FillAll(map[], v, keys);
    var f := Fill(map[], v, keys);
    assert forall k :: k in f <==> k in v.fields;
    assert forall k | k in f :: f[k] == v.fields[k];
  }

  lemma {:induction false} FillAll(seen: map<Text, Json>, v: Json, keys: seq<Text>)
    requires v.Obj? && forall k | k in keys :: k in v.fields
    ensures Fill(seen, v, keys).Keys == seen.Keys + Elements(keys)
    ensures forall k | k in Fill(seen, v, keys) ::
              Fill(seen, v, keys)[k] == if k in keys then v.fields[k] else seen[k]
    decreases |keys|
  {
    if keys != [] {
      FillAll(seen[keys[0] := v.fields[keys[0]]], v, keys[1..]);
      assert keys == [keys[0]] + keys[1..];
    }
  }

  ghost predicate BoundedKeys(v: Json, keys: seq<Text>)
    requires v.Obj? && forall k | k in keys :: k in v.fields
  {
    forall k | k in keys :: Bounded(v.fields[k])
  }

  lemma SortedDistinct(keys: seq<Text>)
    requires Sorted(keys)
    ensures forall i, j | 0 <= i < j < |keys| :: keys[i] != keys[j]
  {
    forall i, j | 0 <= i < j < |keys| ensures keys[i] != keys[j] {
      LessIrreflexive(keys[i]);
    }
  }

  /** The dictionary after the given keys have been read into it. */
  ghost function Fill(seen: map<Text, Json>, v: Json, keys: seq<Text>): map<Text, Json>
    requires v.Obj? && forall k | k in keys :: k in v.fields
    decreases |keys|
  {
    if keys == [] then seen else Fill(seen[keys[0] := v.fields[keys[0]]], v, keys[1..])
  }

  lemma MembersStart(v: Json, keys: seq<Text>)
    requires v.Obj? && WellTyped(v) && keys != [] && forall k | k in keys :: k in v.fields
    ensures PrintMembers(v, keys) != [] && PrintMembers(v, keys)[0] == QUOTE
  {
    assert PrintMember(v, keys[0])[0] == QUOTE;
  }

  /** One step of the member loop, by what follows the value. */
  lemma MembersStep(f: Floats, t: Text, seen: map<Text, Json>, k: Text, u: Text, x: Json, after: Text)
    requires ParseString(t) == Done(k, [COLON] + u) && k !in seen && SkipSpace(u) == u
    requires ParseValue(f, u) == Done(x, after) && after != []
    ensures after[0] == CLOSE_BRACE ==> ParseMembers(f, t, seen) == Done(seen[k := x], after[1..])
    ensures after[0] == COMMA && SkipSpace(after[1..]) == after[1..] ==>
              ParseMembers(f, t, seen) == ParseMembers(f, after[1..], seen[k := x])
  {
    assert ([COLON] + u)[1..] == u && SkipSpace([COLON] + u) == [COLON] + u;
  }

  lemma MembersFail(f: Floats, t: Text, seen: map<Text, Json>, k: Text, u: Text)
    requires ParseString(t) == Done(k, [COLON] + u) && SkipSpace(u) == u && ParseValue(f, u).Fail?
    ensures ParseMembers(f, t, seen).Fail?
  {
    assert ([COLON] + u)[1..] == u && SkipSpace([COLON] + u) == [COLON] + u;
  }

  lemma {:induction false} ParsePrintMembers(f: Floats, v: Json, keys: seq<Text>, seen: map<Text, Json>, rest: Text)
    requires Normal(f, v)
    requires v.Obj? && WellTyped(v) && Scalar(v) && keys != []
    requires forall k | k in keys :: k in v.fields && k !in seen
    requires forall i, j | 0 <= i < j < |keys| :: keys[i] != keys[j]
    ensures ParseMembers(f, PrintMembers(v, keys) + [CLOSE_BRACE] + rest, seen) ==
            if BoundedKeys(v, keys) then Done(Fill(seen, v, keys), rest) else Fail
    decreases v, 0, |keys|
  {
    var k, t := keys[0], PrintMembers(v, keys) + [CLOSE_BRACE] + rest;
    var x, more := v.fields[k], keys[1..];
    assert keys == [k] + more;
    var after := MemberText(v, keys, rest);
    var u := Print(x) + after;
    ParsePrintString(k, [COLON] + u);
    ParsePrint(f, x, after);
    if Bounded(x) {
      MembersStep(f, t, seen, k, u, x, after);
      if more != [] {
        OtherKeys(v, keys, seen, x);
        ParsePrintMembers(f, v, more, seen[k := x], rest);
      }
    } else {
      MembersFail(f, t, seen, k, u);
    }
  }

  lemma OtherKeys(v: Json, keys: seq<Text>, seen: map<Text, Json>, x: Json)
    requires v.Obj? && keys != [] && forall k | k in keys :: k in v.fields && k !in seen
    requires forall i, j | 0 <= i < j < |keys| :: keys[i] != keys[j]
    ensures forall k | k in keys[1..] :: k in v.fields && k !in seen[keys[0] := x]
    ensures forall i, j | 0 <= i < j < |keys[1..]| :: keys[1..][i] != keys[1..][j]
  {
  }

  lemma MemberText(v: Json, keys: seq<Text>, rest: Text) returns (after: Text)
    requires v.Obj? && WellTyped(v) && keys != [] && (forall k | k in keys :: k in v.fields)
    ensures after != [] && NumberEnds(after)
    ensures var u := Print(v.fields[keys[0]]) + after;
            && PrintMembers(v, keys) + [CLOSE_BRACE] + rest == PrintString(keys[0]) + ([COLON] + u)
            && SkipSpace(u) == u
    ensures |keys| == 1 ==> after[0] == CLOSE_BRACE && after[1..] == rest
    ensures |keys| > 1 ==>
              && after[0] == COMMA && after[1..] == PrintMembers(v, keys[1..]) + [CLOSE_BRACE] + rest
              && SkipSpace(after[1..]) == after[1..]
  {
    var k, x := PrintString(keys[0]), Print(v.fields[keys[0]]);
    PrintStart(v.fields[keys[0]]);
    if |keys| == 1 {
      after := [CLOSE_BRACE] + rest;
      LastMember(k, x, after);
    } else {
      var more := PrintMembers(v, keys[1..]);
      var next := more + [CLOSE_BRACE] + rest;
      after := [COMMA] + next;
      MembersStart(v, keys[1..]);
      NoSpace(more, [CLOSE_BRACE] + rest);
      OtherMember(k, x, more, [CLOSE_BRACE] + rest);
      Regroup(more, [CLOSE_BRACE], rest);
    }
    NoSpace(x, after);
    Regroup(PrintMembers(v, keys), [CLOSE_BRACE], rest);
  }

  lemma LastMember(k: Text, x: Text, after: Text)
    ensures k + [COLON] + x + after == k + ([COLON] + (x + after))
  {
    Regroup(k + [COLON], x, after);
    Regroup(k, [COLON], x + after);
  }

  lemma OtherMember(k: Text, x: Text, more: Text, end: Text)
    ensures (k + [COLON] + x + [COMMA] + more) + end == k + ([COLON] + (x + ([COMMA] + (more + end))))
  {
    var p := k + [COLON] + x;
    Regroup(p + [COMMA], more, end);
    Regroup(p, [COMMA], more + end);
    LastMember(k, x, [COMMA] + (more + end));
  }

  lemma Regroup(a: Text, b: Text, c: Text)
    ensures a + b + c == a + (b + c)
  {
  }

  // ----- the nesting scan

  /** `_check_nesting`: no prefix of the text opens more than 256 brackets outside strings. */
  function NestingOk(t: Text, depth: int, inString: bool, escaped: bool): bool
    decreases |t|
  {
    if t == [] then true
    else if inString then
      if escaped then NestingOk(t[1..], depth, true, false)
      else if t[0] == BACKSLASH then NestingOk(t[1..], depth, true, true)
      else NestingOk(t[1..], depth, t[0] != QUOTE, false)
    else if t[0] == QUOTE then NestingOk(t[1..], depth, true, false)
    else if t[0] == OPEN_BRACKET || t[0] == OPEN_BRACE then
      depth + 1 <= MAX_JSON_DEPTH && NestingOk(t[1..], depth + 1, false, false)
    else if t[0] == CLOSE_BRACKET || t[0] == CLOSE_BRACE then NestingOk(t[1..], depth - 1, false, false)
    else NestingOk(t[1..], depth, false, false)
  }

  /** The scan as the loop it is. */
  method CheckNesting(t: Text) returns (ok: bool)
    ensures ok == NestingOk(t, 0, false, false)
  {
    var depth, inString, escaped := 0, false, false;
    var i := 0;
    while i < |t|
      invariant 0 <= i <= |t| && (escaped ==> inString)
      invariant NestingOk(t, 0, false, false) == NestingOk(t[i..], depth, inString, escaped)
    {
      var c := t[i];
      assert t[i..][1..] == t[i + 1..];
      if inString {
        if escaped {
          escaped := false;
        } else if c == BACKSLASH {
          escaped := true;
        } else if c == QUOTE {
          inString := false;
        }
      } else if c == QUOTE {
        inString := true;
      } else if c == OPEN_BRACKET || c == OPEN_BRACE {
        depth := depth + 1;
        if depth > MAX_JSON_DEPTH { return false; }
      } else if c == CLOSE_BRACKET || c == CLOSE_BRACE {
        depth := depth - 1;
      }
      i := i + 1;
    }
    return true;
  }

  ghost function MaxDepth(v: Json, i: nat): nat
    requires v.Arr? && i <= |v.items|
    decreases v, 0, |v.items| - i
  {
    if i == |v.items| then 0 else Max(Depth(v.items[i]), MaxDepth(v, i + 1))
  }

  ghost function MaxDepthOf(v: Json, keys: seq<Text>): nat
    requires v.Obj? && forall k | k in keys :: k in v.fields
    decreases v, 0, |keys|
  {
    if keys == [] then 0 else Max(Depth(v.fields[keys[0]]), MaxDepthOf(v, keys[1..]))
  }

  function Max(a: nat, b: nat): nat {
    if a < b then b else a
  }

  /** How deeply arrays and objects are nested. */
  ghost function Depth(v: Json): nat
    decreases v, 1, 0
  {
    match v
    case Arr(items) => 1 + MaxDepth(v, 0)
    case Obj(fields) => 1 + MaxDepthOf(v, Sort(fields.Keys))
    case _ => 0
  }

  /** Text without quotes and brackets does not change the scan. */
  lemma {:induction false} ScanPlain(p: Text, rest: Text, d: int)
    requires forall i | 0 <= i < |p| :: p[i] !in {QUOTE, OPEN_BRACKET, OPEN_BRACE, CLOSE_BRACKET, CLOSE_BRACE}
    ensures NestingOk(p + rest, d, false, false) == NestingOk(rest, d, false, false)
    decreases |p|
  {
    if p == [] {
      assert p + rest == rest;
    } else {
      assert (p + rest)[1..] == p[1..] + rest;
      ScanPlain(p[1..], rest, d);
    }
  }

  /** Inside a string, text without quotes and backslashes does not change the scan. */
  lemma {:induction false} ScanInside(p: Text, rest: Text, d: int)
    requires forall i | 0 <= i < |p| :: p[i] !in {QUOTE, BACKSLASH}
    ensures NestingOk(p + rest, d, true, false) == NestingOk(rest, d, true, false)
    decreases |p|
  {
    if p == [] {
      assert p + rest == rest;
    } else {
      assert (p + rest)[1..] == p[1..] + rest;
      ScanInside(p[1..], rest, d);
    }
  }

  lemma ScanUnicodeEscape(u: int, rest: Text, d: int)
    requires 0 <= u < 0x10000
    ensures NestingOk(UnicodeEscape(u) + rest, d, true, false) == NestingOk(rest, d, true, false)
  {
    var t := UnicodeEscape(u) + rest;
    assert t[1..][1..] == Hex4(u) + rest;
    ScanInside(Hex4(u), rest, d);
  }

  lemma ScanEscapedCharacter(c: int, rest: Text, d: int)
    requires IsCodePoint(c)
    ensures NestingOk(EscapeOne(c) + rest, d, true, false) == NestingOk(rest, d, true, false)
  {
    var t := EscapeOne(c) + rest;
    if ShortEscape(c) != 0 {
      assert t[1..][1..] == rest;
    } else if 32 <= c <= 126 {
      ScanInside([c], rest, d);
    } else if c < 0x10000 {
      ScanUnicodeEscape(c, rest, d);
    } else {
      var u, w := UnicodeEscape(HighOf(c)), UnicodeEscape(LowOf(c));
      ScanUnicodeEscape(HighOf(c), w + rest, d);
      ScanUnicodeEscape(LowOf(c), rest, d);
      assert u + w + rest == u + (w + rest);
    }
  }

  lemma {:induction false} ScanBody(s: Text, rest: Text, d: int)
    requires AllCodePoints(s)
    ensures NestingOk(Escape(s) + rest, d, true, false) == NestingOk(rest, d, true, false)
  {
    if s == [] {
      assert Escape(s) + rest == rest;
    } else {
      assert Escape(s) + rest == EscapeOne(s[0]) + (Escape(s[1..]) + rest);
      ScanEscapedCharacter(s[0], Escape(s[1..]) + rest, d);
      ScanBody(s[1..], rest, d);
    }
  }

  lemma ScanString(s: Text, rest: Text, d: int)
    requires AllCodePoints(s)
    ensures NestingOk(PrintString(s) + rest, d, false, false) == NestingOk(rest, d, false, false)
  {
    var t := PrintString(s) + rest;
    assert t[1..] == Escape(s) + ([QUOTE] + rest);
    ScanBody(s, [QUOTE] + rest, d);
    assert ([QUOTE] + rest)[1..] == rest;
  }

  /** On a printed value the scan measures exactly its depth, whatever its strings contain. */
  lemma {:induction false} ScanPrint(v: Json, rest: Text, d: nat)
    requires WellTyped(v) && d <= MAX_JSON_DEPTH
    ensures NestingOk(Print(v) + rest, d, false, false) ==
            (d + Depth(v) <= MAX_JSON_DEPTH && NestingOk(rest, d, false, false))
    decreases v, 1, 0
  {
    if v.Arr? {
      ScanArray(v, rest, d);
    } else if v.Obj? {
      var keys := Sort(v.fields.Keys);
      ObjectDepth(v, keys);
      ObjectText(v, keys, rest, PrintMembers(v, keys) + [CLOSE_BRACE] + rest);
      ScanObject(v, keys, rest, d);
    } else {
      ScanLeaf(v, rest, d);
    }
  }

  lemma ScanLeaf(v: Json, rest: Text, d: nat)
    requires WellTyped(v) && !v.Arr? && !v.Obj?
    ensures NestingOk(Print(v) + rest, d, false, false) == NestingOk(rest, d, false, false)
  {
    match v
    case Null => ScanPlain(NULL_TEXT, rest, d);
    case Bool(b) => ScanPlain(if b then TRUE_TEXT else FALSE_TEXT, rest, d);
    case Int(n) => ScanInt(n, rest, d);
    case Float(x) => ScanToken(x, rest, d);
    case Str(s) => ScanString(s, rest, d);
  }

  lemma ScanToken(x: Text, rest: Text, d: nat)
    requires FloatToken(x)
    ensures NestingOk(x + rest, d, false, false) == NestingOk(rest, d, false, false)
  {
    TokenCharacters(x);
    ScanPlain(x, rest, d);
  }

  lemma ScanOpen(c: int, body: Text, d: nat)
    requires c == OPEN_BRACKET || c == OPEN_BRACE
    ensures NestingOk([c] + body, d, false, false) == (d + 1 <= MAX_JSON_DEPTH && NestingOk(body, d + 1, false, false))
  {
    assert ([c] + body)[1..] == body;
  }

  lemma ScanClose(c: int, rest: Text, d: nat)
    requires c == CLOSE_BRACKET || c == CLOSE_BRACE
    ensures NestingOk([c] + rest, d + 1, false, false) == NestingOk(rest, d, false, false)
  {
    assert ([c] + rest)[1..] == rest;
  }

  lemma {:induction false} ScanArray(v: Json, rest: Text, d: nat)
    requires v.Arr? && WellTyped(v) && d <= MAX_JSON_DEPTH
    ensures NestingOk(Print(v) + rest, d, false, false) ==
            (d + Depth(v) <= MAX_JSON_DEPTH && NestingOk(rest, d, false, false))
    decreases v, 0, |v.items| + 1
  {
    var after := [CLOSE_BRACKET] + rest;
    var body := PrintItems(v, 0) + after;
    assert Print(v) + rest == [OPEN_BRACKET] + body;
    ScanOpen(OPEN_BRACKET, body, d);
    ScanClose(CLOSE_BRACKET, rest, d);
    if d < MAX_JSON_DEPTH { ScanItems(v, 0, after, d + 1); }
  }

  lemma {:induction false} ScanObject(v: Json, keys: seq<Text>, rest: Text, d: nat)
    requires v.Obj? && WellTyped(v) && (forall k | k in keys :: k in v.fields) && d <= MAX_JSON_DEPTH
    ensures NestingOk([OPEN_BRACE] + (PrintMembers(v, keys) + [CLOSE_BRACE] + rest), d, false, false) ==
            (d + 1 + MaxDepthOf(v, keys) <= MAX_JSON_DEPTH && NestingOk(rest, d, false, false))
    decreases v, 0, |keys| + 1
  {
    Regroup(PrintMembers(v, keys), [CLOSE_BRACE], rest);
    ScanOpen(OPEN_BRACE, PrintMembers(v, keys) + ([CLOSE_BRACE] + rest), d);
    ScanClose(CLOSE_BRACE, rest, d);
    if d < MAX_JSON_DEPTH { ScanMembers(v, keys, [CLOSE_BRACE] + rest, d + 1); }
  }

  lemma ObjectDepth(v: Json, keys: seq<Text>)
    requires v.Obj? && keys == Sort(v.fields.Keys)
    ensures (forall k | k in keys :: k in v.fields) && Depth(v) == 1 + MaxDepthOf(v, keys)
  {
    assert forall k | k in keys :: k in Elements(keys);
  }

  lemma ScanInt(n: int, rest: Text, d: int)
    ensures NestingOk(PrintInt(n) + rest, d, false, false) == NestingOk(rest, d, false, false)
  {
    var digits := Digits(Magnitude(n));
    assert forall i | 0 <= i < |digits| :: IsDigit(digits[i]);
    ScanPlain(PrintInt(n), rest, d);
  }

  lemma {:induction false} ScanItems(v: Json, i: nat, after: Text, d: nat)
    requires v.Arr? && WellTyped(v) && i <= |v.items| && d <= MAX_JSON_DEPTH
    ensures NestingOk(PrintItems(v, i) + after, d, false, false) ==
            (d + MaxDepth(v, i) <= MAX_JSON_DEPTH && NestingOk(after, d, false, false))
    decreases v, 0, |v.items| - i
  {
    if i == |v.items| {
      assert PrintItems(v, i) + after == after;
    } else if i == |v.items| - 1 {
      ScanPrint(v.items[i], after, d);
      assert MaxDepth(v, i + 1) == 0;
    } else {
      var x, next := Print(v.items[i]), PrintItems(v, i + 1) + after;
      assert PrintItems(v, i) + after == x + ([COMMA] + next);
      ScanPrint(v.items[i], [COMMA] + next, d);
      ScanPlain([COMMA], next, d);
      ScanItems(v, i + 1, after, d);
    }
  }

  lemma MembersText(v: Json, keys: seq<Text>, after: Text)
    requires v.Obj? && WellTyped(v) && keys != [] && forall k | k in keys :: k in v.fields
    ensures var next := PrintMembers(v, keys[1..]) + after;
            PrintMembers(v, keys) + after
            == PrintString(keys[0])
               + ([COLON] + (Print(v.fields[keys[0]]) + if |keys| == 1 then after else [COMMA] + next))
  {
    var k, x := PrintString(keys[0]), Print(v.fields[keys[0]]);
    if |keys| == 1 {
      LastMember(k, x, after);
    } else {
      OtherMember(k, x, PrintMembers(v, keys[1..]), after);
    }
  }

  lemma {:induction false} ScanMembers(v: Json, keys: seq<Text>, after: Text, d: nat)
    requires v.Obj? && WellTyped(v) && (forall k | k in keys :: k in v.fields) && d <= MAX_JSON_DEPTH
    ensures NestingOk(PrintMembers(v, keys) + after, d, false, false) ==
            (d + MaxDepthOf(v, keys) <= MAX_JSON_DEPTH && NestingOk(after, d, false, false))
    decreases v, 0, |keys|
  {
    if keys == [] {
      assert PrintMembers(v, keys) + after == after;
    } else {
      var k, x := PrintString(keys[0]), Print(v.fields[keys[0]]);
      var next := PrintMembers(v, keys[1..]) + after;
      var tail := if |keys| == 1 then after else [COMMA] + next;
      MembersText(v, keys, after);
      ScanString(keys[0], [COLON] + (x + tail), d);
      ScanPlain([COLON], x + tail, d);
      ScanPrint(v.fields[keys[0]], tail, d);
      if |keys| == 1 {
        assert MaxDepthOf(v, keys[1..]) == 0;
      } else {
        ScanPlain([COMMA], next, d);
        ScanMembers(v, keys[1..], after, d);
      }
    }
  }

  // ----- documents

  /** `strict_json_loads`. */
  ghost function StrictLoads(f: Floats, t: Text): (r: Option<Json>)
    ensures r.Some? ==> Scalar(r.value)
  {
    if !NestingOk(t, 0, false, false) then None
    else
      match ParseValue(f, SkipSpace(t))
      case Fail => None
      case Done(v, rest) => if SkipSpace(rest) == [] && Scalar(v) then Some(v) else None
  }

  /** `_canonical_json`: print, and require that the strict decoder accepts the result. */
  ghost function CanonicalJson(f: Floats, v: Json): Option<Text>
    requires WellTyped(v)
  {
    var t := Print(v) + [NEWLINE];
    if StrictLoads(f, t).Some? then Some(t) else None
  }

  /** `_load_json_object`, from bytes. */
  ghost function LoadObject(f: Floats, data: Text): Option<Json> {
    match Utf8.Decode(data)
    case None => None
    case Some(t) =>
      match StrictLoads(f, t)
      case None => None
      case Some(v) => if v.Obj? then Some(v) else None
  }

  lemma ScalarIsWellTyped(v: Json)
    requires Scalar(v)
    ensures WellTyped(v)
    decreases v
  {
    match v
    case Arr(items) => forall x | x in items ensures WellTyped(x) { ScalarIsWellTyped(x); }
    case Obj(fields) =>
      forall k | k in fields ensures AllCodePoints(k) && WellTyped(fields[k]) { ScalarIsWellTyped(fields[k]); }
    case _ =>
  }

  /** The decoder undoes the printer on every tree without surrogates that is within the limits,
      and rejects the text of every other such tree. */
  lemma LoadPrint(f: Floats, v: Json)
    requires Normal(f, v)
    requires WellTyped(v) && Scalar(v)
    ensures StrictLoads(f, Print(v) + [NEWLINE]) ==
            if Bounded(v) && Depth(v) <= MAX_JSON_DEPTH then Some(v) else None
  {
    var t := Print(v) + [NEWLINE];
    ScanPrint(v, [NEWLINE], 0);
    assert NestingOk([NEWLINE], 0, false, false);
    PrintStart(v);
    NoSpace(Print(v), [NEWLINE]);
    ParsePrint(f, v, [NEWLINE]);
    assert SkipSpace([NEWLINE]) == [];
  }

  /** The exact condition of the round trip.  The encoder accepts a tree in which a high surrogate is
      directly followed by a low one, and the decoder reads that pair as one code point; in every
      accepted tree this is the only way to lose the round trip. */
  lemma RoundTrip(f: Floats, v: Json)
    requires WellTyped(v) && Normal(f, v) && CanonicalJson(f, v).Some?
    ensures StrictLoads(f, CanonicalJson(f, v).value) == Some(v) <==> Scalar(v)
  {
    if Scalar(v) { LoadPrint(f, v); }
  }

  lemma CanonicalExists(f: Floats, v: Json)
    requires Normal(f, v)
    requires WellTyped(v) && Scalar(v)
    ensures CanonicalJson(f, v).Some? <==> Bounded(v) && Depth(v) <= MAX_JSON_DEPTH
  {
    LoadPrint(f, v);
  }

  // ----- printed text is ASCII

  lemma {:induction false} EscapeAscii(s: Text)
    requires AllCodePoints(s)
    ensures Utf8.AllAscii(Escape(s))
  {
    if s != [] {
      EscapeAscii(s[1..]);
      assert Utf8.AllAscii(EscapeOne(s[0])) by {
        var c := s[0];
        if c >= 0x10000 { HexAscii(HighOf(c)); HexAscii(LowOf(c)); } else { HexAscii(c); }
      }
    }
  }

  lemma HexAscii(u: int)
    requires 0 <= u < 0x10000
    ensures Utf8.AllAscii(UnicodeEscape(u))
  {
    assert forall x | 0 <= x < 16 :: 48 <= HexDigit(x) < 0x80;
  }

  lemma {:induction false} PrintAscii(v: Json)
    requires WellTyped(v)
    ensures Utf8.AllAscii(Print(v))
    decreases v, 1, 0
  {
    if v.Arr? { ArrayAscii(v); } else if v.Obj? { ObjectAscii(v); } else { LeafAscii(v); }
  }

  lemma LeafAscii(v: Json)
    requires WellTyped(v) && !v.Arr? && !v.Obj?
    ensures Utf8.AllAscii(Print(v))
  {
    match v
    case Int(n) => IntAscii(n);
    case Float(x) => TokenAscii(x);
    case Str(s) => StringAscii(s);
    case _ =>
  }

  lemma TokenAscii(x: Text)
    requires FloatToken(x)
    ensures Utf8.AllAscii(x)
  {
    TokenCharacters(x);
    forall i | 0 <= i < |x| ensures 0 <= x[i] < 0x80 { assert NumberCharacter(x[i]); }
  }

  lemma StringAscii(s: Text)
    requires AllCodePoints(s)
    ensures Utf8.AllAscii(PrintString(s))
  {
    EscapeAscii(s);
    Enclosed([QUOTE], Escape(s), [QUOTE]);
  }

  lemma {:induction false} ArrayAscii(v: Json)
    requires v.Arr? && WellTyped(v)
    ensures Utf8.AllAscii(Print(v))
    decreases v, 0, |v.items| + 1
  {
    ItemsAscii(v, 0);
    Enclosed([OPEN_BRACKET], PrintItems(v, 0), [CLOSE_BRACKET]);
  }

  lemma {:induction false} ObjectAscii(v: Json)
    requires v.Obj? && WellTyped(v)
    ensures Utf8.AllAscii(Print(v))
    decreases v, 0, |v.fields.Keys| + 1
  {
    var keys := Sort(v.fields.Keys);
    KeysAre(v, keys);
    MembersAscii(v, keys);
    Enclosed([OPEN_BRACE], PrintMembers(v, keys), [CLOSE_BRACE]);
  }

  lemma IntAscii(n: int)
    ensures Utf8.AllAscii(PrintInt(n))
  {
    var d := Digits(Magnitude(n));
    assert forall i | 0 <= i < |d| :: IsDigit(d[i]);
  }

  lemma Enclosed(a: Text, b: Text, c: Text)
    requires Utf8.AllAscii(a) && Utf8.AllAscii(b) && Utf8.AllAscii(c)
    ensures Utf8.AllAscii(a + b + c)
  {
  }

  lemma {:induction false} ItemsAscii(v: Json, i: nat)
    requires v.Arr? && WellTyped(v) && i <= |v.items|
    ensures Utf8.AllAscii(PrintItems(v, i))
    decreases v, 0, |v.items| - i
  {
    if i < |v.items| {
      PrintAscii(v.items[i]);
      ItemsAscii(v, i + 1);
    }
  }

  lemma {:induction false} MembersAscii(v: Json, keys: seq<Text>)
    requires v.Obj? && WellTyped(v) && forall k | k in keys :: k in v.fields
    ensures Utf8.AllAscii(PrintMembers(v, keys))
    decreases v, 0, |keys|
  {
    if keys != [] {
      EscapeAscii(keys[0]);
      PrintAscii(v.fields[keys[0]]);
      MembersAscii(v, keys[1..]);
    }
  }

  /** Objects survive the way through bytes, and their encoding passes the canonical check. */
  lemma LoadCanonical(f: Floats, v: Json)
    requires Normal(f, v)
    requires WellTyped(v) && Scalar(v) && v.Obj? && CanonicalJson(f, v).Some?
    ensures LoadObject(f, CanonicalJson(f, v).value) == Some(v)
  {
    PrintAscii(v);
    Utf8.DecodeAscii(CanonicalJson(f, v).value);
    LoadPrint(f, v);
  }

  /** The check `_canonical_json(loaded) == data`. */
  ghost predicate IsCanonical(f: Floats, data: Text) {
    LoadObject(f, data).Some? &&
    (ScalarIsWellTyped(LoadObject(f, data).value); CanonicalJson(f, LoadObject(f, data).value) == Some(data))
  }

  /** A value has exactly one canonical document: encoding it gives one that passes the check, and
      any byte string that passes the check and loads to it is that document. */
  lemma CanonicalUnique(f: Floats, v: Json, data: Text)
    requires Normal(f, v)
    requires WellTyped(v) && Scalar(v) && v.Obj? && Bounded(v) && Depth(v) <= MAX_JSON_DEPTH
    ensures IsCanonical(f, data) && LoadObject(f, data) == Some(v) <==> data == Print(v) + [NEWLINE]
  {
    LoadPrint(f, v);
    LoadCanonical(f, v);
  }

  /** The smallest tree that loses the round trip: an object that holds a high surrogate directly followed by a low one
      is accepted, and read back with one supplementary code point in their place. */
  lemma SurrogatePairIsMerged(f: Floats, k: Text)
    requires Utf8.AllScalar(k)
    ensures var v, w := Obj(map[k := Str([0xD800, 0xDC00])]), Obj(map[k := Str([0x10000])]);
            && WellTyped(v) && CanonicalJson(f, v).Some? && LoadObject(f, CanonicalJson(f, v).value) == Some(w)
  {
    SamePrint();
    ReadAsOther(f, k, Str([0xD800, 0xDC00]), Str([0x10000]));
  }

  /** A member whose text is that of another scalar value is read back as that value. */
  lemma ReadAsOther(f: Floats, k: Text, x: Json, y: Json)
    requires Utf8.AllScalar(k) && x.Str? && y.Str? && WellTyped(x) && Scalar(y) && WellTyped(y) && Print(x) == Print(y)
    ensures var v, w := Obj(map[k := x]), Obj(map[k := y]);
            && WellTyped(v) && CanonicalJson(f, v).Some? && LoadObject(f, CanonicalJson(f, v).value) == Some(w)
  {
    var v, w := Obj(map[k := x]), Obj(map[k := y]);
    PrintSingle(k, x);
    PrintSingle(k, y);
    assert Print(v) == Print(w);
    SingleLoads(f, w);
  }

  lemma SingleLoads(f: Floats, w: Json)
    requires w.Obj? && Scalar(w) && WellTyped(w) && Normal(f, w) && Bounded(w) && Depth(w) == 1
    ensures CanonicalJson(f, w).Some? && LoadObject(f, CanonicalJson(f, w).value) == Some(w)
  {
    CanonicalExists(f, w);
    LoadCanonical(f, w);
  }

  lemma SamePrint()
    ensures Print(Str([0xD800, 0xDC00])) == Print(Str([0x10000]))
  {
    EscapeSingle(0xD800);
    EscapeSingle(0xDC00);
    EscapeSingle(0x10000);
    assert Escape([0xD800, 0xDC00]) == EscapeOne(0xD800) + Escape([0xDC00]) by {
      assert [0xD800, 0xDC00][1..] == [0xDC00];
    }
  }

  lemma EscapeSingle(c: int)
    requires IsCodePoint(c)
    ensures Escape([c]) == EscapeOne(c)
  {
    assert [c][1..] == [] && EscapeOne(c) + [] == EscapeOne(c);
  }

  lemma PrintSingle(k: Text, x: Json)
    requires AllCodePoints(k) && WellTyped(x)
    ensures WellTyped(Obj(map[k := x]))
    ensures Print(Obj(map[k := x])) == [OPEN_BRACE] + (PrintString(k) + [COLON] + Print(x)) + [CLOSE_BRACE]
    ensures Depth(Obj(map[k := x])) == 1 + Depth(x)
  {
    var v := Obj(map[k := x]);
    var keys := Sort(v.fields.Keys);
    KeysAre(v, keys);
    assert |keys| == 1 && keys[0] in keys && keys[0] == k;
    assert PrintMembers(v, keys) == PrintMember(v, k);
    ObjectDepth(v, keys);
    assert MaxDepthOf(v, keys) == Max(Depth(x), MaxDepthOf(v, []));
  }
}
