/** The parser for `git cat-file --batch` output in `_head_blobs`. */
module CatFile {
  import opened Wrappers
  import opened Ordering
  import Json

  const NEWLINE := 10
  const SPACE := 32
  const MISSING: Text := [32, 109, 105, 115, 115, 105, 110, 103]   // " missing"
  const BLOB: Text := [98, 108, 111, 98]                           // "blob"

  /** What Git knows about one query. */
  datatype Answer = Missing | Found(oid: Text, blob: Text)

  /** The line or lines that Git prints for one query. */
  function Render(query: Text, a: Answer): Text {
    match a
    case Missing => query + MISSING + [NEWLINE]
    case Found(oid, blob) => oid + [SPACE] + BLOB + [SPACE] + Json.Digits(|blob|) + [NEWLINE] + blob + [NEWLINE]
  }

  function RenderAll(queries: seq<Text>, answers: seq<Answer>): Text
    requires |queries| == |answers|
  {
    if queries == [] then [] else Render(queries[0], answers[0]) + RenderAll(queries[1..], answers[1..])
  }

  function Expected(answers: seq<Answer>): seq<Option<Text>> {
    if answers == [] then []
    else [if answers[0].Found? then Some(answers[0].blob) else None] + Expected(answers[1..])
  }

  // ----- the parser

  /** `find(b"\n")`: the position of the first newline, or the length. */
  function FirstNewline(t: Text): (k: nat)
    ensures k <= |t| && (forall i | 0 <= i < k :: t[i] != NEWLINE) && (k < |t| ==> t[k] == NEWLINE)
  {
    FirstNewlineFrom(t, 0)
  }

  function FirstNewlineFrom(t: Text, i: nat): (k: nat)
    requires i <= |t|
    ensures i <= k <= |t| && (forall j | i <= j < k :: t[j] != NEWLINE) && (k < |t| ==> t[k] == NEWLINE)
    decreases |t| - i
  {
    if i == |t| || t[i] == NEWLINE then i else FirstNewlineFrom(t, i + 1)
  }

  /** `rfind(b" ")`: the position of the last space, or -1. */
  function LastSpace(t: Text): (k: int)
    ensures -1 <= k < |t| && (k >= 0 ==> t[k] == SPACE) && (forall i | k < i < |t| :: t[i] != SPACE)
  {
    if t == [] then -1 else if t[|t| - 1] == SPACE then |t| - 1 else LastSpace(t[..|t| - 1])
  }

  predicate AllDigits(t: Text) {
    t != [] && forall i | 0 <= i < |t| :: Json.IsDigit(t[i])
  }

  predicate EndsMissing(header: Text) {
    |header| >= |MISSING| && header[|header| - |MISSING|..] == MISSING
  }

  /** `rsplit(b" ", 2)` into three fields, the middle one "blob" and the last one a size. */
  function BlobSize(header: Text): (n: Option<int>)
    ensures n.Some? ==> n.value >= 0
  {
    var i := LastSpace(header);
    if i < 0 then None
    else
      var j := LastSpace(header[..i]);
      if j < 0 || header[j + 1..i] != BLOB || !AllDigits(header[i + 1..]) then None
      else (ValueNonNegative(header[i + 1..]); Some(Json.Value(header[i + 1..])))
  }

  lemma {:induction false} ValueNonNegative(t: Text)
    requires forall i | 0 <= i < |t| :: Json.IsDigit(t[i])
    ensures Json.Value(t) >= 0
  {
    if t != [] { ValueNonNegative(t[..|t| - 1]); }
  }

  /** One answer at the front: the bytes, if any, and what is left. */
  function ParseOne(t: Text): (r: Option<(Option<Text>, Text)>)
    ensures r.Some? ==> |r.value.1| < |t|
  {
    var k := FirstNewline(t);
    if k == |t| then None else ParseBody(t[..k], t[k + 1..])
  }

  /** What a header line announces, taken from the bytes behind it. */
  function ParseBody(header: Text, body: Text): (r: Option<(Option<Text>, Text)>)
    ensures r.Some? ==> |r.value.1| <= |body|
  {
    if EndsMissing(header) then Some((None, body))
    else
      match BlobSize(header)
      case None => None
      case Some(n) =>
        if n >= |body| || body[n] != NEWLINE then None else Some((Some(body[..n]), body[n + 1..]))
  }

  function ParseAll(t: Text, count: nat): Option<(seq<Option<Text>>, Text)> {
    if count == 0 then Some(([], t))
    else
      match ParseOne(t)
      case None => None
      case Some((a, rest)) =>
        match ParseAll(rest, count - 1)
        case None => None
        case Some((more, rest')) => Some(([a] + more, rest'))
  }

  // ----- the parser inverts the stream format

  predicate IsLine(t: Text) {
    NEWLINE !in t
  }

  lemma FirstNewlineOf(line: Text, rest: Text)
    requires IsLine(line)
    ensures FirstNewline(line + [NEWLINE] + rest) == |line|
    ensures (line + [NEWLINE] + rest)[..|line|] == line && (line + [NEWLINE] + rest)[|line| + 1..] == rest
  {
    var t := line + [NEWLINE] + rest;
    forall i | 0 <= i < |line| ensures t[i] != NEWLINE { assert t[i] == line[i] && line[i] in line; }
    assert t[|line|] == NEWLINE;
  }

  lemma LastSpaceOf(front: Text, word: Text)
    requires forall i | 0 <= i < |word| :: word[i] != SPACE
    ensures var h := front + [SPACE] + word;
            LastSpace(h) == |front| && h[..|front|] == front && h[|front| + 1..] == word
  {
    var h := front + [SPACE] + word;
    assert h[|front|] == SPACE && h[|front| + 1..] == word;
    assert forall i | |front| < i < |h| :: h[i] == word[i - |front| - 1];
  }

  lemma BlobHeader(oid: Text, n: nat)
    ensures var h := oid + [SPACE] + BLOB + [SPACE] + Json.Digits(n); !EndsMissing(h) && BlobSize(h) == Some(n)
  {
    var d := Json.Digits(n);
    assert forall i | 0 <= i < |d| :: Json.IsDigit(d[i]);
    var front := oid + [SPACE] + BLOB;
    var h := front + [SPACE] + d;
    Json.ValueDigits(n);
    LastSpaceOf(front, d);
    LastSpaceOf(oid, BLOB);
    assert h[|oid| + 1..|front|] == h[..|front|][|oid| + 1..] == BLOB;
    NotMissing(front + [SPACE], d);
  }

  lemma NotMissing(front: Text, d: Text)
    requires AllDigits(d)
    ensures !EndsMissing(front + d)
  {
    var h := front + d;
    assert Json.IsDigit(h[|h| - 1]);
    if |h| >= 8 { assert h[|h| - 8..][7] == h[|h| - 1]; }
  }

  lemma ParseRendered(query: Text, a: Answer, rest: Text)
    requires IsLine(query) && (a.Found? ==> IsLine(a.oid))
    ensures ParseOne(Render(query, a) + rest) == Some((if a.Found? then Some(a.blob) else None, rest))
  {
    if a.Missing? {
      var header := query + MISSING;
      assert Render(query, a) + rest == header + [NEWLINE] + rest;
      FirstNewlineOf(header, rest);
      assert header[|header| - |MISSING|..] == MISSING;
    } else {
      var header := a.oid + [SPACE] + BLOB + [SPACE] + Json.Digits(|a.blob|);
      var body := a.blob + [NEWLINE] + rest;
      assert Render(query, a) + rest == header + [NEWLINE] + body;
      FirstNewlineOf(header, body);
      BlobHeader(a.oid, |a.blob|);
      assert body[..|a.blob|] == a.blob && body[|a.blob| + 1..] == rest;
    }
  }

  /** For arbitrary blob bytes, newlines and header-like text included, every answer comes back exact and
      the parser stops at the end of the stream. */
  lemma {:induction false} ParseInvertsRender(queries: seq<Text>, answers: seq<Answer>, rest: Text)
    requires |queries| == |answers|
    requires forall i | 0 <= i < |queries| :: IsLine(queries[i]) && (answers[i].Found? ==> IsLine(answers[i].oid))
    ensures ParseAll(RenderAll(queries, answers) + rest, |queries|) == Some((Expected(answers), rest))
    decreases |queries|
  {
    if queries == [] {
      assert RenderAll(queries, answers) + rest == rest;
    } else {
      var first, more := Render(queries[0], answers[0]), RenderAll(queries[1..], answers[1..]);
      assert RenderAll(queries, answers) + rest == first + (more + rest);
      ParseRendered(queries[0], answers[0], more + rest);
      ParseInvertsRender(queries[1..], answers[1..], rest);
    }
  }

  // ----- whatever the parser accepts is made of such answers

  /** The header line of a blob, read from its text: a name, " blob " and a decimal size. */
  ghost predicate SizeFrom(header: Text, k: nat, n: int) {
    && k + 6 <= |header| && header[k..k + 6] == Chars(" blob ")
    && header[k + 6..] != [] && (forall i | k + 6 <= i < |header| :: '0' as int <= header[i] <= '9' as int)
    && Json.Value(header[k + 6..]) == n
  }

  lemma BlobSizeExactly(header: Text, n: int)
    ensures BlobSize(header) == Some(n) <==> exists k: nat :: SizeFrom(header, k, n)
  {
    if BlobSize(header) == Some(n) { SizeIsFrom(header, n); }
    forall k: nat | SizeFrom(header, k, n) ensures BlobSize(header) == Some(n) { FromIsSize(header, k, n); }
  }

  lemma SizeIsFrom(header: Text, n: int)
    requires BlobSize(header) == Some(n)
    ensures exists k: nat :: SizeFrom(header, k, n)
  {
    var i := LastSpace(header);
    var j := LastSpace(header[..i]);
    assert |header[j + 1..i]| == 4;
    var w := header[j..j + 6];
    assert w[1..5] == BLOB && w[0] == SPACE && w[5] == SPACE;
    assert w[1] == w[1..5][0] && w[2] == w[1..5][1] && w[3] == w[1..5][2] && w[4] == w[1..5][3];
    assert w == Chars(" blob ");
    forall m | j + 6 <= m < |header| ensures '0' as int <= header[m] <= '9' as int {
      assert header[m] == header[i + 1..][m - i - 1];
    }
    assert SizeFrom(header, j, n);
  }

  lemma FromIsSize(header: Text, k: nat, n: int)
    requires SizeFrom(header, k, n)
    ensures BlobSize(header) == Some(n)
  {
    var name, digits := header[..k], header[k + 6..];
    var w := header[k..k + 6];
    assert w[0] == SPACE && w[5] == SPACE && w[1..5] == BLOB;
    assert header[k..][..6] == w;
    LastSpaceOf(name, BLOB);
    LastSpaceOf(name + [SPACE] + BLOB, digits);
    assert header == name + w + digits;
    assert name + w == name + [SPACE] + BLOB + [SPACE];
    assert AllDigits(digits);
  }

  lemma MissingExactly(header: Text)
    ensures EndsMissing(header) <==> |header| >= 8 && header[|header| - 8..] == Chars(" missing")
  {
    assert MISSING == Chars(" missing");
  }

  /** The shape of one accepted answer: a header line, and for a found blob exactly its bytes and a newline. */
  ghost predicate Framed(t: Text, header: Text, a: Option<Text>, rest: Text) {
    && IsLine(header)
    && match a
       case None => EndsMissing(header) && t == header + [NEWLINE] + rest
       case Some(b) => && !EndsMissing(header) && BlobSize(header) == Some(|b|)
                       && t == header + [NEWLINE] + b + [NEWLINE] + rest
  }

  /** An answer is accepted if and only if the text starts with one, and it is then the only one. */
  lemma FramedIsParsed(t: Text, header: Text, a: Option<Text>, rest: Text)
    requires Framed(t, header, a, rest)
    ensures ParseOne(t) == Some((a, rest))
  {
    match a
    case None => FirstNewlineOf(header, rest);
    case Some(b) =>
      var body := b + [NEWLINE] + rest;
      assert t == header + [NEWLINE] + body;
      FirstNewlineOf(header, body);
      assert body[..|b|] == b && body[|b| + 1..] == rest;
  }

  lemma ParsedIsFramed(t: Text)
    requires ParseOne(t).Some?
    ensures Framed(t, t[..FirstNewline(t)], ParseOne(t).value.0, ParseOne(t).value.1)
  {
    var k := FirstNewline(t);
    var h, body := t[..k], t[k + 1..];
    assert t == h + [NEWLINE] + body;
    var (a, rest) := ParseOne(t).value;
    if a.Some? {
      CutBlob(body, |a.value|);
      Regroup(h, a.value, rest);
    }
  }

  lemma CutBlob(body: Text, n: nat)
    requires n < |body| && body[n] == NEWLINE
    ensures body == body[..n] + [NEWLINE] + body[n + 1..]
  {
  }

  lemma Regroup(h: Text, b: Text, rest: Text)
    ensures h + [NEWLINE] + (b + [NEWLINE] + rest) == h + [NEWLINE] + b + [NEWLINE] + rest
  {
  }

  // ----- the loop

  ghost function Outputs(paths: seq<Text>, answers: seq<Option<Text>>): map<Text, Option<Text>>
    requires |paths| == |answers|
  {
    if paths == [] then map[]
    else Outputs(paths[..|paths| - 1], answers[..|answers| - 1])[paths[|paths| - 1] := answers[|answers| - 1]]
  }

  /** The cursor loop of `_head_blobs` over the captured output. */
  method ReadBlobs(paths: seq<Text>, payload: Text) returns (r: Option<map<Text, Option<Text>>>, cursor: nat)
    ensures cursor <= |payload|
    ensures r.Some? <==> ParseAll(payload, |paths|).Some?
    ensures r.Some? ==>
              var (answers, rest) := ParseAll(payload, |paths|).value;
              |answers| == |paths| && payload[cursor..] == rest && r.value == Outputs(paths, answers)
  {
    cursor := 0;
    var output: map<Text, Option<Text>> := map[];
    ghost var done: seq<Option<Text>> := [];
    var i := 0;
    ghost var all := ParseAll(payload, |paths|);
    ghost var rest, count := payload, |paths|;
    RejoinsAtStart(payload, count);
    while i < |paths|
      invariant 0 <= i <= |paths| && cursor <= |payload| && |done| == i
      invariant rest == payload[cursor..] && count == |paths| - i
      invariant output == Outputs(paths[..i], done)
      invariant Rejoins(all, done, rest, count)
    {
      var answer, next := ReadOne(payload, cursor);
      if next == 0 {
        RejoinsStops(all, done, rest, count);
        return None, cursor;
      }
      OutputsStep(paths, i, done, answer);
      RejoinsStep(all, done, rest, count, answer, payload[next..]);
      rest, count := payload[next..], count - 1;
      output := output[paths[i] := answer];
      done := done + [answer];
      cursor := next;
      i := i + 1;
    }
    assert paths[..i] == paths;
    RejoinsAtEnd(all, done, rest);
    r := Some(output);
  }

  type Parse = Option<(seq<Option<Text>>, Text)>

  /** The whole parse is what has been read, followed by the parse of what is left. */
  ghost predicate Continues(all: Parse, done: seq<Option<Text>>, left: Parse) {
    && (all.Some? <==> left.Some?)
    && (left.Some? ==> all.value.1 == left.value.1 && all.value.0 == done + left.value.0)
  }

  ghost predicate Rejoins(all: Parse, done: seq<Option<Text>>, t: Text, count: nat) {
    Continues(all, done, ParseAll(t, count))
  }

  lemma RejoinsAtStart(t: Text, count: nat)
    ensures Rejoins(ParseAll(t, count), [], t, count)
  {
    var all := ParseAll(t, count);
    if all.Some? { assert [] + all.value.0 == all.value.0; }
  }

  lemma RejoinsStops(all: Parse, done: seq<Option<Text>>, t: Text, count: nat)
    requires count > 0 && ParseOne(t).None? && Rejoins(all, done, t, count)
    ensures all.None?
  {
  }

  lemma RejoinsAtEnd(all: Parse, done: seq<Option<Text>>, t: Text)
    requires Rejoins(all, done, t, 0)
    ensures all == Some((done, t))
  {
    assert done + [] == done;
  }

  lemma RejoinsStep(all: Parse, done: seq<Option<Text>>, t: Text, count: nat, a: Option<Text>, rest: Text)
    requires count > 0 && ParseOne(t) == Some((a, rest)) && Rejoins(all, done, t, count)
    ensures Rejoins(all, done + [a], rest, count - 1)
  {
    var after := ParseAll(rest, count - 1);
    if after.Some? { assert done + ([a] + after.value.0) == (done + [a]) + after.value.0; }
  }

  lemma OutputsStep(paths: seq<Text>, i: nat, done: seq<Option<Text>>, a: Option<Text>)
    requires i < |paths| && |done| == i
    ensures Outputs(paths[..i + 1], done + [a]) == Outputs(paths[..i], done)[paths[i] := a]
  {
    var p, b := paths[..i + 1], done + [a];
    assert p[..|p| - 1] == paths[..i] && p[|p| - 1] == paths[i];
    assert b[..|b| - 1] == done && b[|b| - 1] == a;
  }

  /** For distinct paths the map is the list of answers, path by path. */
  lemma {:induction false} OutputsAt(paths: seq<Text>, answers: seq<Option<Text>>, i: nat)
    requires |paths| == |answers| && i < |paths| && forall j, k | 0 <= j < k < |paths| :: paths[j] != paths[k]
    ensures paths[i] in Outputs(paths, answers) && Outputs(paths, answers)[paths[i]] == answers[i]
    decreases |paths|
  {
    var n := |paths| - 1;
    if i < n {
      OutputsAt(paths[..n], answers[..n], i);
      assert paths[..n][i] == paths[i] && answers[..n][i] == answers[i] && paths[i] != paths[n];
    }
  }

  lemma {:induction false} OutputsKeys(paths: seq<Text>, answers: seq<Option<Text>>)
    requires |paths| == |answers|
    ensures Outputs(paths, answers).Keys == set p | p in paths
    decreases |paths|
  {
    var n := |paths| - 1;
    if paths != [] {
      OutputsKeys(paths[..n], answers[..n]);
      assert paths == paths[..n] + [paths[n]];
    }
  }

  lemma {:induction false} ExpectedAt(answers: seq<Answer>, i: nat)
    requires i < |answers|
    ensures |Expected(answers)| == |answers|
    ensures Expected(answers)[i] == if answers[i].Found? then Some(answers[i].blob) else None
  {
    if |answers| > 1 { ExpectedAt(answers[1..], if i > 0 then i - 1 else 0); }
  }

  /** The loop on what Git prints: every found path gets its exact bytes, every missing path none, no other path
      anything, and nothing is left over. */
  method ReadRendered(paths: seq<Text>, queries: seq<Text>, answers: seq<Answer>)
    returns (r: Option<map<Text, Option<Text>>>, cursor: nat)
    requires |paths| == |queries| == |answers| && forall j, k | 0 <= j < k < |paths| :: paths[j] != paths[k]
    requires forall i | 0 <= i < |queries| :: IsLine(queries[i]) && (answers[i].Found? ==> IsLine(answers[i].oid))
    ensures r.Some? && r.value.Keys == (set p | p in paths) && cursor == |RenderAll(queries, answers)|
    ensures forall i | 0 <= i < |paths| ::
              r.value[paths[i]] == if answers[i].Found? then Some(answers[i].blob) else None
  {
    var payload := RenderAll(queries, answers);
    ParseInvertsRender(queries, answers, []);
    assert payload + [] == payload;
    r, cursor := ReadBlobs(paths, payload);
    OutputsKeys(paths, Expected(answers));
    forall i | 0 <= i < |paths|
      ensures r.value[paths[i]] == if answers[i].Found? then Some(answers[i].blob) else None
    {
      ExpectedAt(answers, i);
      OutputsAt(paths, Expected(answers), i);
    }
  }

  /** `payload.find(b"\n", cursor)` */
  method FindNewline(payload: Text, cursor: nat) returns (end: nat)
    requires cursor <= |payload|
    ensures cursor <= end <= |payload| && end - cursor == FirstNewline(payload[cursor..])
  {
    end := cursor;
    while end < |payload| && payload[end] != NEWLINE
      invariant cursor <= end <= |payload|
      invariant forall i | cursor <= i < end :: payload[i] != NEWLINE
    {
      end := end + 1;
    }
    ghost var t := payload[cursor..];
    assert forall i | 0 <= i < end - cursor :: t[i] == payload[cursor + i];
  }

  /** One iteration: the answer and the next cursor, or zero when the stream is malformed. */
  method ReadOne(payload: Text, cursor: nat) returns (answer: Option<Text>, next: nat)
    requires cursor <= |payload|
    ensures next <= |payload|
    ensures next == 0 <==> ParseOne(payload[cursor..]).None?
    ensures next != 0 ==> cursor < next && ParseOne(payload[cursor..]) == Some((answer, payload[next..]))
  {
    answer, next := None, 0;
    var end := FindNewline(payload, cursor);
    if end == |payload| { return; }
    var header, start := payload[cursor..end], end + 1;
    HeaderAt(payload, cursor, end);
    if EndsMissing(header) { return None, start; }
    var size := BlobSize(header);
    if size.None? { return; }
    var stop := start + size.value;
    if stop >= |payload| || payload[stop] != NEWLINE { return; }
    CutAt(payload, start, stop);
    answer, next := Some(payload[start..stop]), stop + 1;
  }

  lemma HeaderAt(payload: Text, cursor: nat, end: nat)
    requires cursor <= end < |payload| && end - cursor == FirstNewline(payload[cursor..])
    ensures ParseOne(payload[cursor..]) == ParseBody(payload[cursor..end], payload[end + 1..])
  {
    CutAt(payload, cursor, end);
    ParseAt(payload[cursor..], end - cursor, payload[cursor..end], payload[end + 1..]);
  }

  lemma ParseAt(t: Text, k: nat, header: Text, body: Text)
    requires k == FirstNewline(t) < |t| && header == t[..k] && body == t[k + 1..]
    ensures ParseOne(t) == ParseBody(header, body)
  {
  }

  lemma CutAt(payload: Text, i: nat, j: nat)
    requires i <= j < |payload|
    ensures payload[i..][..j - i] == payload[i..j] && payload[i..][j - i + 1..] == payload[j + 1..]
    ensures payload[i..][j - i] == payload[j]
  {
  }
}
