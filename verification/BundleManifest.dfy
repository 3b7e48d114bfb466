/** The bundle manifest as a JSON object: member names, context, authentication, record and material rows, written by
    `create_evidence_bundle` and validated field by field by `inspect_evidence_bundle`. */
module BundleManifest {
  import opened Wrappers
  import opened Ordering
  import opened Paths
  import opened Json
  import JsonDocument
  import Utf8

  const MAX_VERDICT_BYTES := 8 * 1024 * 1024
  const MAX_MATERIAL_BYTES := 32 * 1024 * 1024

  lemma CharsScalar(s: string)
    ensures Utf8.AllScalar(Chars(s))
  {
  }

  // ----- member names

  const HYPHEN := 45

  const MANIFEST_PATH := Chars("bundle.json")
  const SIGNATURE_PATH := Chars("bundle.sig")
  const VERDICT_PATH := Chars("record") + [SLASH] + Chars("verdict.json")

  const DOT: Text := [46]

  predicate Proper(part: Text) { part != [] && part != DOT && part != [46, 46] }

  // ----- `PurePosixPath` on relative names

  /** The components between the slashes. */
  function Split(t: Text): (parts: seq<Text>)
    ensures parts != []
    decreases |t|
  {
    var k := FirstSlash(t);
    if k == |t| then [t] else [t[..k]] + Split(t[k + 1..])
  }

  /** The components that a path keeps: the empty ones and the single dots are dropped. */
  function Kept(parts: seq<Text>): seq<Text> {
    if parts == [] then []
    else (if parts[0] == [] || parts[0] == DOT then [] else [parts[0]]) + Kept(parts[1..])
  }

  function Joined(parts: seq<Text>): Text {
    if parts == [] then [] else if |parts| == 1 then parts[0] else parts[0] + [SLASH] + Joined(parts[1..])
  }

  /** `as_posix`: a path without parts is the single dot. */
  function AsPosix(parts: seq<Text>): Text {
    if parts == [] then DOT else Joined(parts)
  }

  predicate Allowed(t: Text) { forall i | 0 <= i < |t| :: t[i] != 92 && t[i] != 0 && t[i] != 58 }

  /** `_safe_member_name` */
  predicate SafeName(t: Text) {
    && t != [] && Allowed(t)
    && var parts := Kept(Split(t));
       t[0] != SLASH && AsPosix(parts) == t && forall p | p in parts :: Proper(p)
  }

  lemma {:induction false} JoinedSplit(t: Text)
    ensures Joined(Split(t)) == t
    decreases |t|
  {
    var k := FirstSlash(t);
    if k < |t| {
      JoinedSplit(t[k + 1..]);
      assert Split(t)[1..] == Split(t[k + 1..]);
      CutAt(t, k);
    }
  }

  lemma CutAt(t: Text, k: nat)
    requires k < |t| && t[k] == SLASH
    ensures t[..k] + [SLASH] + t[k + 1..] == t
  {
  }

  predicate Counts(part: Text) { part != [] && part != DOT }

  /** A list of components is kept whole when none of them is empty or a dot, and only then. */
  lemma {:induction false} KeptWhole(parts: seq<Text>)
    ensures |Kept(parts)| <= |parts|
    ensures Kept(parts) == parts <==> forall i | 0 <= i < |parts| :: Counts(parts[i])
  {
    if parts != [] {
      var rest := parts[1..];
      KeptWhole(rest);
      assert forall i | 0 <= i < |rest| :: rest[i] == parts[i + 1];
      if Counts(parts[0]) {
        assert Kept(parts) == [parts[0]] + Kept(rest) && parts == [parts[0]] + rest;
        assert Kept(parts)[1..] == Kept(rest);
        assert (forall i | 0 <= i < |rest| :: Counts(rest[i])) ==> forall i | 0 <= i < |parts| :: Counts(parts[i]);
      }
    }
  }

  /** Any other list becomes shorter when joined, or has nothing left. */
  lemma {:induction false} KeptShorter(parts: seq<Text>)
    ensures |Joined(Kept(parts))| <= |Joined(parts)|
    ensures Kept(parts) != [] && Kept(parts) != parts ==> |Joined(Kept(parts))| < |Joined(parts)|
  {
    if parts != [] {
      var rest := parts[1..];
      KeptShorter(rest);
      assert parts == [parts[0]] + rest;
      KeptStep(parts[0], rest, Kept(rest));
      if !Counts(parts[0]) { assert Kept(parts) == Kept(rest); }
    }
  }

  lemma KeptStep(first: Text, rest: seq<Text>, kept: seq<Text>)
    ensures |Joined([first] + rest)| == |first| + if rest == [] then 0 else 1 + |Joined(rest)|
    ensures |Joined([first] + kept)| == |first| + if kept == [] then 0 else 1 + |Joined(kept)|
  {
    assert ([first] + rest)[1..] == rest && ([first] + kept)[1..] == kept;
  }

  /** Which names are accepted: those of proper components only, and the single dot, which is its own normal form and
      has no parts. */
  lemma SafeNameExactly(t: Text)
    ensures SafeName(t) <==> t == DOT || (Allowed(t) && forall p | p in Split(t) :: Proper(p))
    ensures SafeName(t) ==> ((forall p | p in Split(t) :: Proper(p)) <==> t != DOT)
  {
    var parts := Split(t);
    JoinedSplit(t);
    KeptWhole(parts);
    KeptShorter(parts);
    FirstIsEmpty(t);
    if t == DOT { assert parts == [DOT] && Kept([DOT]) == Kept([]); }
    if forall p | p in parts :: Proper(p) {
      forall i | 0 <= i < |parts| ensures Counts(parts[i]) { assert Proper(parts[i]); }
    }
  }

  lemma FirstIsEmpty(t: Text)
    ensures t == [] || t[0] == SLASH ==> Split(t)[0] == []
  {
  }

  predicate Tame(t: Text) { Proper(t) && Allowed(t) && forall i | 0 <= i < |t| :: t[i] != SLASH }

  lemma TameIsSafe(t: Text)
    requires Tame(t)
    ensures SafeName(t)
  {
    assert Split(t) == [t];
    SafeNameExactly(t);
  }

  lemma TwoPartsAreSafe(a: Text, b: Text)
    requires Tame(a) && Tame(b)
    ensures SafeName(a + [SLASH] + b)
  {
    var t := a + [SLASH] + b;
    assert t[|a|] == SLASH && forall k | 0 <= k < |a| :: t[k] == a[k];
    assert FirstSlash(t) == |a|;
    assert t[..|a|] == a && t[|a| + 1..] == b;
    assert Split(b) == [b] && Split(t) == [a, b];
    forall k | 0 <= k < |t| ensures t[k] != 92 && t[k] != 0 && t[k] != 58 {
      if k > |a| { assert t[k] == b[k - |a| - 1]; }
    }
    SafeNameExactly(t);
  }

  predicate RoleStart(c: int) { 97 <= c <= 122 }
  predicate RoleCharacter(c: int) { RoleStart(c) || 48 <= c <= 57 || c == 95 || c == 46 || c == 45 }

  /** `[a-z][a-z0-9_.-]{0,63}` */
  predicate IsRole(r: Text) { 1 <= |r| <= 64 && RoleStart(r[0]) && forall i | 0 <= i < |r| :: RoleCharacter(r[i]) }

  /** `{index:03d}` */
  function Pad3(i: nat): (t: Text)
    ensures |t| >= 3 && forall k | 0 <= k < |t| :: IsDigit(t[k])
    ensures i < 1000 ==> |t| == 3
  {
    if i < 10 then [48, 48, 48 + i]
    else if i < 100 then [48, 48 + i / 10, 48 + i % 10]
    else if i < 1000 then [48 + i / 100, 48 + i / 10 % 10, 48 + i % 10]
    else (LongDigits(i, 3); Digits(i))
  }

  function Power10(k: nat): (p: nat)
    ensures p > 0
  {
    if k == 0 then 1 else 10 * Power10(k - 1)
  }

  lemma {:induction false} LongDigits(n: nat, k: nat)
    requires n >= Power10(k)
    ensures |Digits(n)| > k
  {
    if k > 0 { LongDigits(n / 10, k - 1); }
  }

  lemma {:induction false} ShortDigits(n: nat, k: nat)
    requires k > 0 && n < Power10(k)
    ensures |Digits(n)| <= k
  {
    if n >= 10 { ShortDigits(n / 10, k - 1); }
  }

  function MaterialPath(index: nat, role: Text): Text {
    Chars("materials") + [SLASH] + (Pad3(index) + [HYPHEN] + role)
  }

  lemma PathIsSafe(index: nat, role: Text)
    requires IsRole(role)
    ensures SafeName(MaterialPath(index, role))
  {
    var file := Pad3(index) + [HYPHEN] + role;
    var n := |Pad3(index)|;
    forall i | 0 <= i < |file| ensures file[i] != SLASH && file[i] != 92 && file[i] != 0 && file[i] != 58 {
      if i < n { assert IsDigit(Pad3(index)[i]); } else if i > n { assert RoleCharacter(role[i - n - 1]); }
    }
    TwoPartsAreSafe(Chars("materials"), file);
  }

  lemma FixedPathsAreSafe()
    ensures SafeName(MANIFEST_PATH) && SafeName(SIGNATURE_PATH) && SafeName(VERDICT_PATH)
  {
    TameIsSafe(MANIFEST_PATH);
    TameIsSafe(SIGNATURE_PATH);
    TwoPartsAreSafe(Chars("record"), Chars("verdict.json"));
  }

  /** The reader's duplicate-path check can never fire: the index is part of the path. */
  lemma PathsDiffer(i: nat, r: Text, j: nat, s: Text)
    requires MaterialPath(i, r) == MaterialPath(j, s)
    ensures i == j
  {
    var n := |Chars("materials")| + 1;
    var x, y := Pad3(i), Pad3(j);
    var a, b := x + [HYPHEN] + r, y + [HYPHEN] + s;
    assert a == MaterialPath(i, r)[n..] == MaterialPath(j, s)[n..] == b;
    assert a == x + ([HYPHEN] + r) && b == y + ([HYPHEN] + s);
    DigitRunOf(x, [HYPHEN] + r);
    DigitRunOf(y, [HYPHEN] + s);
    assert x == a[..|x|] == b[..|y|] == y;
    PadValue(i);
    PadValue(j);
  }

  lemma PadValue(i: nat)
    ensures Value(Pad3(i)) == i
  {
    if i < 1000 {
      var t := Pad3(i);
      assert t[..2] == [t[0], t[1]] && [t[0], t[1]][..1] == [t[0]] && [t[0]][..0] == [];
      assert Value([t[0]]) == t[0] - 48;
      assert Value([t[0], t[1]]) == (t[0] - 48) * 10 + (t[1] - 48);
    } else {
      ValueDigits(i);
    }
  }

  lemma PathsAreNotFixed(i: nat, r: Text)
    ensures MaterialPath(i, r) !in {MANIFEST_PATH, SIGNATURE_PATH, VERDICT_PATH}
  {
    assert MaterialPath(i, r)[0] == Chars("materials")[0] == 'm' as int;
    assert MANIFEST_PATH[0] == 'b' as int && SIGNATURE_PATH[0] == 'b' as int && VERDICT_PATH[0] == 'r' as int;
  }

  // ----- keys

  datatype Key =
    | FormatKey | ContextKey | AuthenticationKey | RecordKey | MaterialsKey
    | AlgorithmKey | KeyIdKey | PurposeKey | SignaturePathKey | PathKey
    | Sha256Key | SizeKey | SchemaVersionKey | ToolKey | ToolVersionKey
    | RoleKey | RepositoryKey | RepositoryIdKey | RunIdKey | RunAttemptKey
    | BaseShaKey | HeadShaKey | BaseTreeShaKey | HeadTreeShaKey | CandidateSha256Key
    | PolicySha256Key | VerifierPackSha256Key | GuardArtifactSha256Key | AttestationKey

  function Spelling(key: Key): string {
    match key
    case FormatKey => "format"
    case ContextKey => "context"
    case AuthenticationKey => "authentication"
    case RecordKey => "record"
    case MaterialsKey => "materials"
    case AlgorithmKey => "algorithm"
    case KeyIdKey => "key_id"
    case PurposeKey => "purpose"
    case SignaturePathKey => "signature_path"
    case PathKey => "path"
    case Sha256Key => "sha256"
    case SizeKey => "size"
    case SchemaVersionKey => "schema_version"
    case ToolKey => "tool"
    case ToolVersionKey => "tool_version"
    case RoleKey => "role"
    case RepositoryKey => "repository"
    case RepositoryIdKey => "repository_id"
    case RunIdKey => "run_id"
    case RunAttemptKey => "run_attempt"
    case BaseShaKey => "base_sha"
    case HeadShaKey => "head_sha"
    case BaseTreeShaKey => "base_tree_sha"
    case HeadTreeShaKey => "head_tree_sha"
    case CandidateSha256Key => "candidate_sha256"
    case PolicySha256Key => "policy_sha256"
    case VerifierPackSha256Key => "verifier_pack_sha256"
    case GuardArtifactSha256Key => "guard_artifact_sha256"
    case AttestationKey => "attestation"
  }

  function Name(key: Key): Text { Chars(Spelling(key)) }

  /** Length and first two letters. */
  function Mark(key: Key): (int, char, char) {
    match key
    case FormatKey => (6, 'f', 'o')
    case ContextKey => (7, 'c', 'o')
    case AuthenticationKey => (14, 'a', 'u')
    case RecordKey => (6, 'r', 'e')
    case MaterialsKey => (9, 'm', 'a')
    case AlgorithmKey => (9, 'a', 'l')
    case KeyIdKey => (6, 'k', 'e')
    case PurposeKey => (7, 'p', 'u')
    case SignaturePathKey => (14, 's', 'i')
    case PathKey => (4, 'p', 'a')
    case Sha256Key => (6, 's', 'h')
    case SizeKey => (4, 's', 'i')
    case SchemaVersionKey => (14, 's', 'c')
    case ToolKey => (4, 't', 'o')
    case ToolVersionKey => (12, 't', 'o')
    case RoleKey => (4, 'r', 'o')
    case RepositoryKey => (10, 'r', 'e')
    case RepositoryIdKey => (13, 'r', 'e')
    case RunIdKey => (6, 'r', 'u')
    case RunAttemptKey => (11, 'r', 'u')
    case BaseShaKey => (8, 'b', 'a')
    case HeadShaKey => (8, 'h', 'e')
    case BaseTreeShaKey => (13, 'b', 'a')
    case HeadTreeShaKey => (13, 'h', 'e')
    case CandidateSha256Key => (16, 'c', 'a')
    case PolicySha256Key => (13, 'p', 'o')
    case VerifierPackSha256Key => (20, 'v', 'e')
    case GuardArtifactSha256Key => (21, 'g', 'u')
    case AttestationKey => (11, 'a', 't')
  }

  /** The keys of the manifest itself; the others are those of the context and of the verdict. */
  predicate IsManifestKey(key: Key) {
    key in {FormatKey, ContextKey, AuthenticationKey, RecordKey, MaterialsKey, AlgorithmKey,
            KeyIdKey, PurposeKey, SignaturePathKey, PathKey, Sha256Key,
            SizeKey, SchemaVersionKey, ToolKey, ToolVersionKey}
  }

  ghost predicate Marked(key: Key) {
    |Spelling(key)| == Mark(key).0 >= 4 && Spelling(key)[0] == Mark(key).1 && Spelling(key)[1] == Mark(key).2
  }

  lemma MarkOfManifestKey(key: Key)
    requires IsManifestKey(key)
    ensures Marked(key)
  {
  }

  lemma MarkOfOtherKey(key: Key)
    requires !IsManifestKey(key)
    ensures Marked(key)
  {
  }

  lemma MarkOfSpelling(key: Key)
    ensures Marked(key)
  {
    if IsManifestKey(key) { MarkOfManifestKey(key); } else { MarkOfOtherKey(key); }
  }

  /** No two keys are spelled alike: they differ in length or in their first two letters. */
  lemma NameInjective(a: Key, b: Key)
    requires Name(a) == Name(b)
    ensures a == b
  {
    MarkOfSpelling(a);
    MarkOfSpelling(b);
    assert |Name(a)| == |Spelling(a)| && |Name(b)| == |Spelling(b)|;
    assert Name(a)[0] == Spelling(a)[0] as int && Name(a)[1] == Spelling(a)[1] as int;
    MarkInjective(a, b);
  }

  lemma MarkInjective(a: Key, b: Key)
    requires Mark(a) == Mark(b)
    ensures a == b
  {
  }

  // ----- objects with a fixed set of keys

  predicate HexDigits(t: Text) { forall i | 0 <= i < |t| :: 48 <= t[i] <= 57 || 97 <= t[i] <= 102 }

  predicate IsSha256(t: Text) { |t| == 64 && HexDigits(t) }

  predicate IsGitSha(t: Text) { (|t| == 40 || |t| == 64) && HexDigits(t) }

  predicate IsKeyId(t: Text) { |t| == 71 && t[..7] == Chars("sha256:") && IsSha256(t[7..]) }

  /** `get`: a missing key reads as null. */
  function Get(j: Json, key: Key): Json {
    if j.Obj? && Name(key) in j.fields then j.fields[Name(key)] else Null
  }

  function NamesOf(keys: set<Key>): set<Text> { set k | k in keys :: Name(k) }

  /** `_require_exact_keys` */
  predicate ExactKeys(j: Json, keys: set<Key>) { j.Obj? && j.fields.Keys == NamesOf(keys) }

  lemma NamesInjective()
    ensures forall a, b :: Name(a) == Name(b) ==> a == b
  {
    forall a, b | Name(a) == Name(b) ensures a == b { NameInjective(a, b); }
  }

  function Object(values: map<Key, Json>): Json {
    NamesInjective();
    Obj(map k | k in values :: Name(k) := values[k])
  }

  /** The values an object holds under the given keys. */
  function Fields(j: Json, keys: set<Key>): map<Key, Json> { map k | k in keys :: Get(j, k) }

  lemma ObjectFields(values: map<Key, Json>)
    ensures ExactKeys(Object(values), values.Keys) && Fields(Object(values), values.Keys) == values
  {
    NamesInjective();
    var o := Object(values);
    assert o.fields.Keys == NamesOf(values.Keys);
    forall k | k in values ensures Get(o, k) == values[k] { assert Name(k) in o.fields; }
  }

  lemma SameFields(j: Json, o: Json, keys: set<Key>)
    requires ExactKeys(j, keys) && ExactKeys(o, keys) && Fields(j, keys) == Fields(o, keys)
    ensures j == o
  {
    forall t | t in j.fields ensures j.fields[t] == o.fields[t] {
      var k :| k in keys && Name(k) == t;
      assert Fields(j, keys)[k] == Get(j, k) && Fields(o, keys)[k] == Get(o, k);
    }
    assert j.fields == o.fields;
  }

  /** An object is what its exact keys and their values say. */
  lemma ObjectExact(j: Json, values: map<Key, Json>)
    ensures j == Object(values) <==> ExactKeys(j, values.Keys) && Fields(j, values.Keys) == values
  {
    ObjectFields(values);
    if ExactKeys(j, values.Keys) && Fields(j, values.Keys) == values { SameFields(j, Object(values), values.Keys); }
  }

  // ----- authentication

  const SIGNATURE_PURPOSE := Chars("evoguard-evidence-envelope")

  const AuthenticationKeys := {AlgorithmKey, KeyIdKey, PurposeKey, SignaturePathKey}

  function AuthenticationValues(keyId: Text): (f: map<Key, Json>)
    ensures f.Keys == AuthenticationKeys
  {
    map[AlgorithmKey := Str(Chars("Ed25519")), KeyIdKey := Str(keyId), PurposeKey := Str(SIGNATURE_PURPOSE),
        SignaturePathKey := Str(SIGNATURE_PATH)]
  }

  function KeyIdIn(f: map<Key, Json>): Option<Text>
    requires f.Keys == AuthenticationKeys
  {
    if f[AlgorithmKey] != Str(Chars("Ed25519")) || f[PurposeKey] != Str(SIGNATURE_PURPOSE) then None
    else if f[SignaturePathKey] != Str(SIGNATURE_PATH) then None
    else if !f[KeyIdKey].Str? || !IsKeyId(f[KeyIdKey].s) then None
    else Some(f[KeyIdKey].s)
  }

  /** `_validate_authentication`: the key id. */
  ghost function ReadAuthentication(j: Json): Option<Text> {
    if !ExactKeys(j, AuthenticationKeys) then None else KeyIdIn(Fields(j, AuthenticationKeys))
  }

  lemma AuthenticationExact(j: Json, keyId: Text)
    ensures ReadAuthentication(j) == Some(keyId) <==> IsKeyId(keyId) && j == Object(AuthenticationValues(keyId))
  {
    ObjectExact(j, AuthenticationValues(keyId));
    KeyIdExact(Fields(j, AuthenticationKeys), keyId);
  }

  lemma KeyIdExact(f: map<Key, Json>, keyId: Text)
    requires f.Keys == AuthenticationKeys
    ensures KeyIdIn(f) == Some(keyId) <==> IsKeyId(keyId) && f == AuthenticationValues(keyId)
  {
  }

  // ----- record and materials

  datatype Record = Record(sha: Text, size: int, schemaVersion: Text, tool: Text, toolVersion: Text)
  datatype Row = Row(role: Text, sha: Text, size: int)

  /** `_validate_digest_row` */
  predicate DigestRow(f: map<Key, Json>)
    requires PathKey in f && Sha256Key in f && SizeKey in f
  {
    && f[PathKey].Str? && SafeName(f[PathKey].s)
    && f[Sha256Key].Str? && IsSha256(f[Sha256Key].s)
    && f[SizeKey].Int? && f[SizeKey].n >= 0
  }

  const RecordKeys := {PathKey, Sha256Key, SizeKey, SchemaVersionKey, ToolKey, ToolVersionKey}

  function RecordValues(r: Record): (f: map<Key, Json>)
    ensures f.Keys == RecordKeys
  {
    map[PathKey := Str(VERDICT_PATH), Sha256Key := Str(r.sha), SizeKey := Int(r.size),
        SchemaVersionKey := Str(r.schemaVersion), ToolKey := Str(r.tool), ToolVersionKey := Str(r.toolVersion)]
  }

  predicate NonEmptyString(j: Json) { j.Str? && j.s != [] }

  ghost function RecordIn(f: map<Key, Json>): Option<Record>
    requires f.Keys == RecordKeys
  {
    if !DigestRow(f) || f[PathKey].s != VERDICT_PATH then None
    else if !NonEmptyString(f[SchemaVersionKey]) || !NonEmptyString(f[ToolKey]) || !NonEmptyString(f[ToolVersionKey])
    then None
    else if f[SizeKey].n > MAX_VERDICT_BYTES then None
    else Some(Record(f[Sha256Key].s, f[SizeKey].n, f[SchemaVersionKey].s, f[ToolKey].s, f[ToolVersionKey].s))
  }

  ghost function ReadRecord(j: Json): Option<Record> {
    if !ExactKeys(j, RecordKeys) then None else RecordIn(Fields(j, RecordKeys))
  }

  predicate ValidRecord(r: Record) {
    && IsSha256(r.sha) && 0 <= r.size <= MAX_VERDICT_BYTES && r.schemaVersion != [] && r.tool != []
    && r.toolVersion != []
  }

  lemma RecordExact(j: Json, r: Record)
    ensures ReadRecord(j) == Some(r) <==> ValidRecord(r) && j == Object(RecordValues(r))
  {
    ObjectExact(j, RecordValues(r));
    RecordInExact(Fields(j, RecordKeys), r);
  }

  lemma RecordInExact(f: map<Key, Json>, r: Record)
    requires f.Keys == RecordKeys
    ensures RecordIn(f) == Some(r) <==> ValidRecord(r) && f == RecordValues(r)
  {
    FixedPathsAreSafe();
  }

  const RowKeys := {RoleKey, PathKey, Sha256Key, SizeKey}

  function RowValues(i: nat, row: Row): (f: map<Key, Json>)
    ensures f.Keys == RowKeys
  {
    map[RoleKey := Str(row.role), PathKey := Str(MaterialPath(i, row.role)), Sha256Key := Str(row.sha),
        SizeKey := Int(row.size)]
  }

  function RowIn(i: nat, f: map<Key, Json>): Option<Row>
    requires f.Keys == RowKeys
  {
    if !DigestRow(f) || !f[RoleKey].Str? || !IsRole(f[RoleKey].s) then None
    else if f[PathKey].s != MaterialPath(i, f[RoleKey].s) || f[SizeKey].n > MAX_MATERIAL_BYTES then None
    else Some(Row(f[RoleKey].s, f[Sha256Key].s, f[SizeKey].n))
  }

  function ReadRow(i: nat, j: Json): Option<Row> {
    if !ExactKeys(j, RowKeys) then None else RowIn(i, Fields(j, RowKeys))
  }

  predicate ValidRow(row: Row) { IsRole(row.role) && IsSha256(row.sha) && 0 <= row.size <= MAX_MATERIAL_BYTES }

  lemma RowExact(i: nat, j: Json, row: Row)
    ensures ReadRow(i, j) == Some(row) <==> ValidRow(row) && j == Object(RowValues(i, row))
  {
    ObjectExact(j, RowValues(i, row));
    RowInExact(i, Fields(j, RowKeys), row);
  }

  lemma RowInExact(i: nat, f: map<Key, Json>, row: Row)
    requires f.Keys == RowKeys
    ensures RowIn(i, f) == Some(row) <==> ValidRow(row) && f == RowValues(i, row)
  {
    if IsRole(row.role) { PathIsSafe(i, row.role); }
  }

  // ----- context

  const ContextKeys := {RepositoryKey, RepositoryIdKey, RunIdKey, RunAttemptKey, BaseShaKey, HeadShaKey, BaseTreeShaKey,
                        HeadTreeShaKey, CandidateSha256Key, PolicySha256Key, VerifierPackSha256Key,
                        GuardArtifactSha256Key}

  /** `_required_bounded_string` */
  ghost predicate BoundedString(j: Json, maximum: nat) {
    && j.Str? && 0 < |j.s| <= maximum && Utf8.AllScalar(j.s) && forall i | 0 <= i < |j.s| :: j.s[i] >= 0x20
  }

  predicate OptionalGitSha(j: Json) { j.Null? || (j.Str? && IsGitSha(j.s)) }

  predicate RequiredSha(j: Json) { j.Str? && IsSha256(j.s) }

  const RevisionKeys := {BaseShaKey, HeadShaKey, BaseTreeShaKey, HeadTreeShaKey}
  const DigestKeys := {CandidateSha256Key, PolicySha256Key, GuardArtifactSha256Key}
  const BindingKeys := {CandidateSha256Key, PolicySha256Key, VerifierPackSha256Key}

  ghost predicate ContextValues(f: map<Key, Json>)
    requires f.Keys == ContextKeys
  {
    && BoundedString(f[RepositoryKey], 512) && BoundedString(f[RepositoryIdKey], 256) && BoundedString(f[RunIdKey], 256)
    && f[RunAttemptKey].Int? && 1 <= f[RunAttemptKey].n <= 2147483647
    && (forall k | k in RevisionKeys :: OptionalGitSha(f[k]))
    && (forall k | k in DigestKeys :: RequiredSha(f[k]))
    && (f[VerifierPackSha256Key].Null? || RequiredSha(f[VerifierPackSha256Key]))
  }

  ghost predicate WellFormedContext(c: Json) {
    ExactKeys(c, ContextKeys) && ContextValues(Fields(c, ContextKeys))
  }

  predicate AgreesWhenPresent(c: Json, attestation: Json, key: Key) {
    Get(attestation, key).Null? || Get(c, key) == Get(attestation, key)
  }

  predicate BoundTo(c: Json, verdict: Json) {
    var a := Get(verdict, AttestationKey);
    && a.Obj?
    && (forall k | k in BindingKeys :: Get(c, k) == Get(a, k))
    && forall k | k in RevisionKeys :: AgreesWhenPresent(c, a, k)
  }

  /** `validate_evidence_context`, with the verdict or without. */
  ghost predicate ValidContext(c: Json, verdict: Option<Json>) {
    WellFormedContext(c) && (verdict.Some? ==> BoundTo(c, verdict.value))
  }

  // ----- the manifest

  const BUNDLE_FORMAT := Chars("EVOGUARD_EVIDENCE_BUNDLE_V1")
  const MAX_MATERIALS := 32

  datatype Manifest = Manifest(context: Json, keyId: Text, record: Record, rows: seq<Row>)

  const ManifestKeys := {FormatKey, ContextKey, AuthenticationKey, RecordKey, MaterialsKey}

  function RowsJson(rows: seq<Row>): (items: seq<Json>)
    ensures |items| == |rows| && forall i | 0 <= i < |rows| :: items[i] == Object(RowValues(i, rows[i]))
  {
    seq(|rows|, i requires 0 <= i < |rows| => Object(RowValues(i, rows[i])))
  }

  function ManifestValues(m: Manifest): (f: map<Key, Json>)
    ensures f.Keys == ManifestKeys
  {
    map[FormatKey := Str(BUNDLE_FORMAT), ContextKey := m.context,
        AuthenticationKey := Object(AuthenticationValues(m.keyId)), RecordKey := Object(RecordValues(m.record)),
        MaterialsKey := Arr(RowsJson(m.rows))]
  }

  function ToJson(m: Manifest): Json { Object(ManifestValues(m)) }

  /** The order of `(role, digest, size)` triples. */
  predicate RowLess(a: Row, b: Row) {
    Less(a.role, b.role) || (a.role == b.role && (Less(a.sha, b.sha) || (a.sha == b.sha && a.size < b.size)))
  }

  function RoleSet(rows: seq<Row>): set<Text> { set row | row in rows :: row.role }

  /** `len(roles) == len(set(roles))` */
  predicate DistinctRoles(rows: seq<Row>) { |RoleSet(rows)| == |rows| }

  lemma RoleSetStep(rows: seq<Row>)
    requires rows != []
    ensures RoleSet(rows) == RoleSet(rows[..|rows| - 1]) + {rows[|rows| - 1].role}
  {
    assert rows == rows[..|rows| - 1] + [rows[|rows| - 1]];
  }

  lemma {:induction false} RoleSetSize(rows: seq<Row>)
    ensures |RoleSet(rows)| <= |rows|
  {
    if rows != [] {
      RoleSetStep(rows);
      RoleSetSize(rows[..|rows| - 1]);
    }
  }

  lemma {:induction false} DistinctPairs(rows: seq<Row>, i: nat, j: nat)
    requires DistinctRoles(rows) && i < j < |rows|
    ensures rows[i].role != rows[j].role
  {
    var init, last := rows[..|rows| - 1], rows[|rows| - 1];
    RoleSetStep(rows);
    RoleSetSize(init);
    assert last.role !in RoleSet(init);
    if j == |rows| - 1 { assert init[i] in init; } else { DistinctPairs(init, i, j); }
  }

  /** The list equals its sorted arrangement. */
  predicate InOrder(rows: seq<Row>) { forall i, j | 0 <= i < j < |rows| :: !RowLess(rows[j], rows[i]) }

  predicate Listed(rows: seq<Row>) { |rows| <= MAX_MATERIALS && InOrder(rows) && DistinctRoles(rows) }

  ghost function ReadRows(items: seq<Json>): (r: Option<seq<Row>>)
    ensures r.Some? ==> |r.value| == |items| && forall i | 0 <= i < |items| :: ReadRow(i, items[i]) == Some(r.value[i])
    ensures r.None? ==> exists i | 0 <= i < |items| :: ReadRow(i, items[i]).None?
  {
    if forall i | 0 <= i < |items| :: ReadRow(i, items[i]).Some? then
      Some(seq(|items|, i requires 0 <= i < |items| => ReadRow(i, items[i]).value))
    else None
  }

  ghost function PathsUpTo(rows: seq<Row>, n: nat): set<Text>
    requires n <= |rows|
  {
    {MANIFEST_PATH, SIGNATURE_PATH, VERDICT_PATH} + set i | 0 <= i < n :: MaterialPath(i, rows[i].role)
  }

  lemma PathIsNew(rows: seq<Row>, role: Text)
    ensures MaterialPath(|rows|, role) !in PathsUpTo(rows, |rows|)
  {
    PathsAreNotFixed(|rows|, role);
    forall i | 0 <= i < |rows| ensures MaterialPath(i, rows[i].role) != MaterialPath(|rows|, role) {
      if MaterialPath(i, rows[i].role) == MaterialPath(|rows|, role) { PathsDiffer(i, rows[i].role, |rows|, role); }
    }
  }

  lemma PathsGrow(rows: seq<Row>, row: Row)
    ensures PathsUpTo(rows + [row], |rows| + 1) == PathsUpTo(rows, |rows|) + {MaterialPath(|rows|, row.role)}
  {
    var more := rows + [row];
    assert forall i | 0 <= i < |rows| :: more[i].role == rows[i].role;
    assert more[|rows|] == row;
  }

  /** The inspector's loop over the declared materials, with its set of declared paths: the duplicate-path refusal never
      happens. */
  method CheckMaterials(items: seq<Json>) returns (r: Option<seq<Row>>)
    ensures r == ReadRows(items)
  {
    var declared := {MANIFEST_PATH, SIGNATURE_PATH, VERDICT_PATH};
    var rows: seq<Row> := [];
    for index := 0 to |items|
      invariant |rows| == index && declared == PathsUpTo(rows, index)
      invariant ReadSoFar(items, rows)
    {
      var row := ReadRow(index, items[index]);
      if row.None? { return None; }
      var path := MaterialPath(index, row.value.role);
      PathIsNew(rows, row.value.role);
      if path in declared { return None; }
      PathsGrow(rows, row.value);
      ReadOneMore(items, rows, row.value);
      declared := declared + {path};
      rows := rows + [row.value];
    }
    r := Some(rows);
    AllRowsRead(items, rows);
  }

  ghost predicate ReadSoFar(items: seq<Json>, rows: seq<Row>) {
    |rows| <= |items| && forall i | 0 <= i < |rows| :: ReadRow(i, items[i]) == Some(rows[i])
  }

  lemma ReadOneMore(items: seq<Json>, rows: seq<Row>, row: Row)
    requires ReadSoFar(items, rows) && |rows| < |items| && ReadRow(|rows|, items[|rows|]) == Some(row)
    ensures ReadSoFar(items, rows + [row])
  {
    var more := rows + [row];
    forall i | 0 <= i < |more| ensures ReadRow(i, items[i]) == Some(more[i]) {
      if i < |rows| { assert more[i] == rows[i]; }
    }
  }

  lemma AllRowsRead(items: seq<Json>, rows: seq<Row>)
    requires |rows| == |items| && ReadSoFar(items, rows)
    ensures ReadRows(items) == Some(rows)
  {
    assert ReadRows(items).Some?;
    assert ReadRows(items).value == rows;
  }

  lemma RowsExact(items: seq<Json>, rows: seq<Row>)
    ensures ReadRows(items) == Some(rows)
            <==> (forall i | 0 <= i < |rows| :: ValidRow(rows[i])) && items == RowsJson(rows)
  {
    if ReadRows(items) == Some(rows) {
      forall i | 0 <= i < |rows| ensures ValidRow(rows[i]) && items[i] == RowsJson(rows)[i] {
        RowExact(i, items[i], rows[i]);
      }
    }
    if (forall i | 0 <= i < |rows| :: ValidRow(rows[i])) && items == RowsJson(rows) {
      forall i | 0 <= i < |rows| ensures ReadRow(i, items[i]) == Some(rows[i]) { RowExact(i, items[i], rows[i]); }
      assert ReadRows(items).Some?;
      assert ReadRows(items).value == rows;
    }
  }

  ghost function Combine(context: Json, keyId: Option<Text>, record: Option<Record>,
                         rows: Option<seq<Row>>): Option<Manifest> {
    if !ValidContext(context, None) || keyId.None? || record.None? || rows.None? || !Listed(rows.value) then None
    else Some(Manifest(context, keyId.value, record.value, rows.value))
  }

  ghost function ManifestIn(f: map<Key, Json>): Option<Manifest>
    requires f.Keys == ManifestKeys
  {
    if f[FormatKey] != Str(BUNDLE_FORMAT) || !f[MaterialsKey].Arr? then None
    else
      Combine(f[ContextKey], ReadAuthentication(f[AuthenticationKey]), ReadRecord(f[RecordKey]),
              ReadRows(f[MaterialsKey].items))
  }

  /** The manifest checks of `inspect_evidence_bundle`. */
  ghost function ReadManifest(j: Json): Option<Manifest> {
    if !ExactKeys(j, ManifestKeys) then None else ManifestIn(Fields(j, ManifestKeys))
  }

  ghost predicate ValidManifest(m: Manifest) {
    && WellFormedContext(m.context) && IsKeyId(m.keyId) && ValidRecord(m.record)
    && (forall i | 0 <= i < |m.rows| :: ValidRow(m.rows[i])) && Listed(m.rows)
  }

  /** The inspector's field-by-field checks accept exactly the objects the creator builds from valid parts. */
  lemma ManifestExact(j: Json, m: Manifest)
    ensures ReadManifest(j) == Some(m) <==> ValidManifest(m) && j == ToJson(m)
  {
    ObjectExact(j, ManifestValues(m));
    ManifestInExact(Fields(j, ManifestKeys), m);
  }

  lemma CombineExact(context: Json, keyId: Option<Text>, record: Option<Record>, rows: Option<seq<Row>>, m: Manifest)
    ensures Combine(context, keyId, record, rows) == Some(m) <==>
            (&& WellFormedContext(context) && Listed(m.rows) && m.context == context
             && keyId == Some(m.keyId) && record == Some(m.record) && rows == Some(m.rows))
  {
  }

  lemma FiveValues(f: map<Key, Json>, a: Json, b: Json, c: Json, d: Json, e: Json)
    requires f.Keys == ManifestKeys
    ensures f == map[FormatKey := a, ContextKey := b, AuthenticationKey := c, RecordKey := d, MaterialsKey := e] <==>
            (f[FormatKey] == a && f[ContextKey] == b && f[AuthenticationKey] == c && f[RecordKey] == d
             && f[MaterialsKey] == e)
  {
  }

  lemma ManifestValuesAre(f: map<Key, Json>, m: Manifest)
    requires f.Keys == ManifestKeys
    ensures f == ManifestValues(m) <==>
            (&& f[FormatKey] == Str(BUNDLE_FORMAT) && f[ContextKey] == m.context
             && f[AuthenticationKey] == Object(AuthenticationValues(m.keyId))
             && f[RecordKey] == Object(RecordValues(m.record)) && f[MaterialsKey] == Arr(RowsJson(m.rows)))
  {
    FiveValues(f, Str(BUNDLE_FORMAT), m.context, Object(AuthenticationValues(m.keyId)), Object(RecordValues(m.record)),
               Arr(RowsJson(m.rows)));
  }

  lemma ManifestInExact(f: map<Key, Json>, m: Manifest)
    requires f.Keys == ManifestKeys
    ensures ManifestIn(f) == Some(m) <==> ValidManifest(m) && f == ManifestValues(m)
  {
    ManifestValuesAre(f, m);
    AuthenticationExact(f[AuthenticationKey], m.keyId);
    RecordExact(f[RecordKey], m.record);
    if f[FormatKey] == Str(BUNDLE_FORMAT) && f[MaterialsKey].Arr? {
      RowsExact(f[MaterialsKey].items, m.rows);
      CombineExact(f[ContextKey], ReadAuthentication(f[AuthenticationKey]), ReadRecord(f[RecordKey]),
                   ReadRows(f[MaterialsKey].items), m);
    }
  }

  // ----- the manifest can always be encoded

  /** A tree the canonical encoder accepts, with its depth. */
  ghost predicate Encodable(j: Json, depth: nat) {
    && JsonDocument.Scalar(j) && JsonDocument.FloatFree(j) && JsonDocument.Bounded(j) && JsonDocument.Depth(j) <= depth
  }

  ghost predicate ScalarRecord(r: Record) {
    Utf8.AllScalar(r.schemaVersion) && Utf8.AllScalar(r.tool) && Utf8.AllScalar(r.toolVersion)
  }

  lemma StringEncodable(t: Text)
    requires Utf8.AllScalar(t)
    ensures Encodable(Str(t), 0)
  {
  }

  lemma NumberEncodable(n: int)
    requires 0 <= n < Power10(11)
    ensures Encodable(Int(n), 0)
  {
    ShortDigits(n, 11);
  }

  lemma {:induction false} DepthOfKeys(v: Json, keys: seq<Text>, d: nat)
    requires v.Obj? && (forall k | k in keys :: k in v.fields)
    requires forall k | k in v.fields :: JsonDocument.Depth(v.fields[k]) <= d
    ensures JsonDocument.MaxDepthOf(v, keys) <= d
  {
    if keys != [] { DepthOfKeys(v, keys[1..], d); }
  }

  lemma {:induction false} DepthOfItems(v: Json, i: nat, d: nat)
    requires v.Arr? && i <= |v.items| && forall j | 0 <= j < |v.items| :: JsonDocument.Depth(v.items[j]) <= d
    ensures JsonDocument.MaxDepth(v, i) <= d
    decreases |v.items| - i
  {
    if i < |v.items| { DepthOfItems(v, i + 1, d); }
  }

  lemma ItemsEncodable(items: seq<Json>, d: nat)
    requires forall i | 0 <= i < |items| :: Encodable(items[i], d)
    ensures Encodable(Arr(items), d + 1)
  {
    DepthOfItems(Arr(items), 0, d);
  }

  lemma ObjectEncodable(o: Json, d: nat)
    requires o.Obj? && forall t | t in o.fields :: Utf8.AllScalar(t) && Encodable(o.fields[t], d)
    ensures Encodable(o, d + 1)
  {
    var keys := Sort(o.fields.Keys);
    JsonDocument.ObjectDepth(o, keys);
    DepthOfKeys(o, keys, d);
  }

  lemma FieldsEncodable(j: Json, keys: set<Key>, d: nat)
    requires ExactKeys(j, keys) && forall k | k in keys :: Encodable(Get(j, k), d)
    ensures Encodable(j, d + 1)
  {
    forall t | t in j.fields ensures Utf8.AllScalar(t) && Encodable(j.fields[t], d) {
      var k :| k in keys && Name(k) == t;
      CharsScalar(Spelling(k));
      assert Encodable(Get(j, k), d);
    }
    ObjectEncodable(j, d);
  }

  lemma ValuesEncodable(values: map<Key, Json>, d: nat)
    requires forall k | k in values :: Encodable(values[k], d)
    ensures Encodable(Object(values), d + 1)
  {
    ObjectFields(values);
    forall k | k in values.Keys ensures Encodable(Get(Object(values), k), d) {
      assert Fields(Object(values), values.Keys)[k] == values[k];
    }
    FieldsEncodable(Object(values), values.Keys, d);
  }

  ghost predicate Leaf(j: Json) { j.Null? || (j.Int? && 0 <= j.n < Power10(11)) || (j.Str? && Utf8.AllScalar(j.s)) }

  lemma LeafEncodable(j: Json)
    requires Leaf(j)
    ensures Encodable(j, 0)
  {
    if j.Int? { NumberEncodable(j.n); }
  }

  lemma ContextLeaf(f: map<Key, Json>, k: Key)
    requires f.Keys == ContextKeys && ContextValues(f) && k in ContextKeys
    ensures Leaf(f[k])
  {
    assert Power10(11) > 2147483647 by { assert Power10(5) == 100000; assert Power10(10) == 100000 * Power10(5); }
  }

  lemma ContextEncodable(c: Json)
    requires WellFormedContext(c)
    ensures Encodable(c, 1)
  {
    var f := Fields(c, ContextKeys);
    forall k | k in ContextKeys ensures Encodable(Get(c, k), 0) {
      ContextLeaf(f, k);
      LeafEncodable(f[k]);
    }
    FieldsEncodable(c, ContextKeys, 0);
  }

  lemma HexScalar(t: Text)
    requires HexDigits(t)
    ensures Utf8.AllScalar(t)
  {
  }

  lemma PathScalar(i: nat, role: Text)
    requires IsRole(role)
    ensures Utf8.AllScalar(role) && Utf8.AllScalar(MaterialPath(i, role))
  {
    forall k | 0 <= k < |role| ensures Utf8.IsScalar(role[k]) { assert RoleCharacter(role[k]); }
    var file := Pad3(i) + [HYPHEN] + role;
    var n := |Pad3(i)|;
    forall k | 0 <= k < |file| ensures Utf8.IsScalar(file[k]) {
      if k < n { assert IsDigit(Pad3(i)[k]); } else if k > n { assert RoleCharacter(role[k - n - 1]); }
    }
    CharsScalar("materials");
  }

  lemma RowEncodable(i: nat, row: Row)
    requires ValidRow(row)
    ensures Encodable(Object(RowValues(i, row)), 1)
  {
    PathScalar(i, row.role);
    HexScalar(row.sha);
    StringEncodable(row.role);
    StringEncodable(MaterialPath(i, row.role));
    StringEncodable(row.sha);
    NumberEncodable(row.size);
    ValuesEncodable(RowValues(i, row), 0);
  }

  lemma RecordEncodable(r: Record)
    requires ValidRecord(r) && ScalarRecord(r)
    ensures Encodable(Object(RecordValues(r)), 1)
  {
    HexScalar(r.sha);
    CharsScalar("record");
    CharsScalar("verdict.json");
    StringEncodable(VERDICT_PATH);
    StringEncodable(r.sha);
    StringEncodable(r.schemaVersion);
    StringEncodable(r.tool);
    StringEncodable(r.toolVersion);
    NumberEncodable(r.size);
    ValuesEncodable(RecordValues(r), 0);
  }

  lemma KeyIdScalar(keyId: Text)
    requires IsKeyId(keyId)
    ensures Utf8.AllScalar(keyId)
  {
    CharsScalar("sha256:");
    HexScalar(keyId[7..]);
    assert keyId == Chars("sha256:") + keyId[7..];
  }

  lemma AuthenticationEncodable(keyId: Text)
    requires IsKeyId(keyId)
    ensures Encodable(Object(AuthenticationValues(keyId)), 1)
  {
    KeyIdScalar(keyId);
    CharsScalar("Ed25519");
    CharsScalar("evoguard-evidence-envelope");
    CharsScalar("bundle.sig");
    StringEncodable(Chars("Ed25519"));
    StringEncodable(keyId);
    StringEncodable(SIGNATURE_PURPOSE);
    StringEncodable(SIGNATURE_PATH);
    ValuesEncodable(AuthenticationValues(keyId), 0);
  }

  lemma RowsEncodable(rows: seq<Row>)
    requires forall i | 0 <= i < |rows| :: ValidRow(rows[i])
    ensures Encodable(Arr(RowsJson(rows)), 2)
  {
    var items := RowsJson(rows);
    forall i | 0 <= i < |items| ensures Encodable(items[i], 1) { RowEncodable(i, rows[i]); }
    ItemsEncodable(items, 1);
  }

  lemma FiveEncodable(a: Json, b: Json, c: Json, d: Json, e: Json)
    requires Encodable(a, 2) && Encodable(b, 2) && Encodable(c, 2) && Encodable(d, 2) && Encodable(e, 2)
    ensures Encodable(Object(map[FormatKey := a, ContextKey := b, AuthenticationKey := c, RecordKey := d,
                                 MaterialsKey := e]), 3)
  {
    FiveOf(a, b, c, d, e);
    ValuesEncodable(map[FormatKey := a, ContextKey := b, AuthenticationKey := c, RecordKey := d, MaterialsKey := e], 2);
  }

  lemma FiveOf(a: Json, b: Json, c: Json, d: Json, e: Json)
    ensures var values := map[FormatKey := a, ContextKey := b, AuthenticationKey := c, RecordKey := d,
                              MaterialsKey := e];
            forall k | k in values :: values[k] in {a, b, c, d, e}
  {
  }

  /** A valid manifest is within every limit of the canonical encoder. */
  lemma ManifestEncodable(m: Manifest)
    requires ValidManifest(m) && ScalarRecord(m.record)
    ensures Encodable(ToJson(m), 3)
  {
    CharsScalar("EVOGUARD_EVIDENCE_BUNDLE_V1");
    StringEncodable(BUNDLE_FORMAT);
    ContextEncodable(m.context);
    AuthenticationEncodable(m.keyId);
    RecordEncodable(m.record);
    RowsEncodable(m.rows);
    FiveEncodable(Str(BUNDLE_FORMAT), m.context, Object(AuthenticationValues(m.keyId)), Object(RecordValues(m.record)),
                  Arr(RowsJson(m.rows)));
  }
}
