/** `inspect_evidence_bundle`, and how it relates to `create_evidence_bundle`. */
module BundleInspection {
  import opened Wrappers
  import opened Ordering
  import opened Json
  import opened BundleManifest
  import opened BundleOrder
  import opened Zip
  import opened Bundle
  import JsonDocument
  import Base64

  // ----- the archive listing

  /** `_validate_member_metadata` */
  predicate CanonicalEntry(e: Entry) {
    && SafeName(e.name) && e.flags == 0 && e.method_ == 0 && e.extra == [] && e.comment == []
    && e.system == UNIX && e.attributes / HALF_LIMIT == MODE && e.date == DATE && e.time == 0
  }

  predicate DistinctNames(es: seq<Entry>) { forall i, j | 0 <= i < j < |es| :: es[i].name != es[j].name }

  predicate Listable(es: seq<Entry>) {
    && 0 < |es| <= MAX_ARCHIVE_MEMBERS && es[0].name == MANIFEST_PATH && DistinctNames(es)
    && forall i | 0 <= i < |es| :: CanonicalEntry(es[i])
  }

  function Listing(b: Text): Option<seq<Entry>> {
    if |b| > MAX_ARCHIVE_BYTES then None
    else
      match Preflight(b)
      case None => None
      case Some(count) =>
        match OpenArchive(b)
        case None => None
        case Some(es) => if |es| != count || !Listable(es) then None else Some(es)
  }

  /** `_read_archive_member` */
  function ReadEntry(b: Text, e: Entry, limit: nat, crc: Crc): Option<Text> {
    if e.size > limit then None
    else
      match ReadMember(b, e, crc)
      case None => None
      case Some(data) => if |data| > limit || |data| != e.size then None else Some(data)
  }

  /** An opened archive reads an entry up to a limit. */
  type Reader = (Entry, nat) -> Option<Text>

  function ReaderOf(b: Text, crc: Crc): Reader { (e: Entry, limit: nat) => ReadEntry(b, e, limit, crc) }

  // ----- the parts

  /** The manifest bytes: strict, canonical, and valid field by field. */
  ghost function ManifestOf(f: Floats, bytes: Text): Option<Manifest> {
    if !JsonDocument.IsCanonical(f, bytes) then None else ReadManifest(JsonDocument.LoadObject(f, bytes).value)
  }

  ghost predicate VerdictMatches(f: Floats, m: Manifest, verdict: Text, sha: Hash) {
    && |verdict| == m.record.size && sha(verdict) == m.record.sha
    && JsonDocument.LoadObject(f, verdict).Some?
    && RecordOf(JsonDocument.LoadObject(f, verdict).value, verdict, sha) == Some(m.record)
    && ValidContext(m.context, Some(JsonDocument.LoadObject(f, verdict).value))
  }

  ghost function VerdictIn(f: Floats, data: Option<Text>, m: Manifest, sha: Hash): Option<Text> {
    if data.None? || !VerdictMatches(f, m, data.value, sha) then None else data
  }

  function SignatureIn(encoded: Option<Text>): (r: Option<Text>)
    ensures r.Some? ==> |r.value| == 64 && Base64.IsBytes(r.value) && encoded == Some(Base64.Encode(r.value))
  {
    if encoded.None? || |encoded.value| != SIGNATURE_BYTES then None
    else if exists i | 0 <= i < |encoded.value| :: encoded.value[i] > 0x7F then None
    else
      match Base64.Decode(encoded.value)
      case None => None
      case Some(signature) =>
        if |signature| != 64 || Base64.Encode(signature) != encoded.value then None else Some(signature)
  }

  function ExpectedNames(rows: seq<Row>): (names: seq<Text>)
    ensures |names| == |rows| + 3
    ensures names[0] == MANIFEST_PATH && names[1] == SIGNATURE_PATH && names[2] == VERDICT_PATH
    ensures forall i | 0 <= i < |rows| :: names[3 + i] == MaterialPath(i, rows[i].role)
  {
    [MANIFEST_PATH, SIGNATURE_PATH, VERDICT_PATH]
    + seq(|rows|, i requires 0 <= i < |rows| => MaterialPath(i, rows[i].role))
  }

  predicate NamesMatch(es: seq<Entry>, rows: seq<Row>) {
    |es| == |rows| + 3 && forall i | 0 <= i < |es| :: es[i].name == ExpectedNames(rows)[i]
  }

  function RowTotal(rows: seq<Row>): int {
    if rows == [] then 0 else RowTotal(rows[..|rows| - 1]) + rows[|rows| - 1].size
  }

  /** The bytes of material i, when they match its row. */
  function MaterialIn(read: Reader, es: seq<Entry>, rows: seq<Row>, i: nat, sha: Hash): Option<Text>
    requires i < |rows| && |es| == |rows| + 3
  {
    match read(es[3 + i], MAX_MATERIAL_BYTES)
    case None => None
    case Some(data) => if |data| != rows[i].size || sha(data) != rows[i].sha then None else Some(data)
  }

  function MaterialsIn(read: Reader, es: seq<Entry>, rows: seq<Row>, sha: Hash): (r: Option<seq<Loaded>>)
    requires |es| == |rows| + 3
    ensures r.Some? ==> |r.value| == |rows| && forall i | 0 <= i < |rows| ::
                          r.value[i].row == rows[i] && MaterialIn(read, es, rows, i, sha) == Some(r.value[i].data)
    ensures r.None? ==> exists i | 0 <= i < |rows| :: MaterialIn(read, es, rows, i, sha).None?
  {
    if forall i | 0 <= i < |rows| :: MaterialIn(read, es, rows, i, sha).Some? then
      Some(seq(|rows|, i requires 0 <= i < |rows| => Loaded(rows[i], MaterialIn(read, es, rows, i, sha).value)))
    else None
  }

  /** The inspector's last loop. */
  method ReadMaterials(read: Reader, es: seq<Entry>, rows: seq<Row>, sha: Hash) returns (r: Option<seq<Loaded>>)
    requires |es| == |rows| + 3
    ensures r == MaterialsIn(read, es, rows, sha)
  {
    var s: seq<Loaded> := [];
    for i := 0 to |rows|
      invariant |s| == i
      invariant forall k | 0 <= k < i :: s[k].row == rows[k] && MaterialIn(read, es, rows, k, sha) == Some(s[k].data)
    {
      var data := MaterialIn(read, es, rows, i, sha);
      if data.None? { return None; }
      s := s + [Loaded(rows[i], data.value)];
    }
    r := Some(s);
    assert MaterialsIn(read, es, rows, sha).Some? && MaterialsIn(read, es, rows, sha).value == s;
  }

  // ----- inspection

  datatype Inspected = Inspected(manifestBytes: Text, signature: Text, verdict: Text, materials: seq<Loaded>)

  ghost function InspectEntries(f: Floats, b: Text, es: seq<Entry>, read: Reader, bytes: Text, m: Manifest, sha: Hash,
                                crc: Crc)
    : Option<Inspected>
  {
    if !NamesMatch(es, m.rows) || m.record.size + RowTotal(m.rows) > MAX_TOTAL_BYTES then None
    else
      match VerdictIn(f, read(es[2], MAX_VERDICT_BYTES), m, sha)
      case None => None
      case Some(verdict) =>
        match SignatureIn(read(es[1], SIGNATURE_BYTES))
        case None => None
        case Some(signature) =>
          match MaterialsIn(read, es, m.rows, sha)
          case None => None
          case Some(s) =>
            if Archive(Members(bytes, Base64.Encode(signature), verdict, s), crc) != b then None
            else Some(Inspected(bytes, signature, verdict, s))
  }

  /** `inspect_evidence_bundle`, from the snapshot. */
  ghost function Inspect(f: Floats, b: Text, sha: Hash, crc: Crc): Option<Inspected> {
    match Listing(b)
    case None => None
    case Some(es) =>
      match ReadEntry(b, es[0], MAX_MANIFEST_BYTES, crc)
      case None => None
      case Some(bytes) =>
        match ManifestOf(f, bytes)
        case None => None
        case Some(m) => InspectEntries(f, b, es, ReaderOf(b, crc), bytes, m, sha, crc)
  }

  // ----- what the listing shows of a written archive

  ghost predicate Shows(es: seq<Entry>, read: Reader, ms: seq<Member>) {
    && |es| == |ms| && (forall k | 0 <= k < |ms| :: es[k].name == ms[k].name)
    && forall k: nat, limit: nat | k < |ms| && |ms[k].data| <= limit :: read(es[k], limit) == Some(ms[k].data)
  }

  lemma ReadWritten(ms: seq<Member>, k: nat, limit: nat, crc: Crc)
    requires Fits(ms, crc) && k < |ms| && |ms[k].data| <= limit
    ensures ReadEntry(Archive(ms, crc), Entries(ms, 0, crc)[k], limit, crc) == Some(ms[k].data)
  {
    ArchiveIsLaid(ms, crc);
    MembersReadBack(ms, 0, crc, Archive(ms, crc), k);
    EntryFields(ms, 0, crc, k);
  }

  lemma ArchiveShows(ms: seq<Member>, crc: Crc)
    requires Fits(ms, crc)
    ensures Shows(Entries(ms, 0, crc), ReaderOf(Archive(ms, crc), crc), ms)
  {
    var es, read := Entries(ms, 0, crc), ReaderOf(Archive(ms, crc), crc);
    forall k | 0 <= k < |ms| ensures es[k].name == ms[k].name { EntryFields(ms, 0, crc, k); }
    forall k: nat, limit: nat | k < |ms| && |ms[k].data| <= limit ensures read(es[k], limit) == Some(ms[k].data) {
      ReadWritten(ms, k, limit, crc);
    }
  }

  lemma EntriesAreCanonical(ms: seq<Member>, crc: Crc)
    requires forall k | 0 <= k < |ms| :: SafeName(ms[k].name)
    ensures forall k | 0 <= k < |ms| :: CanonicalEntry(Entries(ms, 0, crc)[k])
  {
    forall k | 0 <= k < |ms| ensures CanonicalEntry(Entries(ms, 0, crc)[k]) {
      EntryFields(ms, 0, crc, k);
    }
  }

  lemma MemberNames(manifest: Text, signature: Text, verdict: Text, s: seq<Loaded>)
    requires forall i | 0 <= i < |s| :: IsRole(s[i].row.role)
    ensures var ms := Members(manifest, signature, verdict, s);
            && (forall k | 0 <= k < |ms| :: SafeName(ms[k].name))
            && forall i, j | 0 <= i < j < |ms| :: ms[i].name != ms[j].name
  {
    var ms := Members(manifest, signature, verdict, s);
    forall k | 0 <= k < |ms| ensures SafeName(ms[k].name) { NameIsSafe(manifest, signature, verdict, s, k); }
    forall i, j | 0 <= i < j < |ms| ensures ms[i].name != ms[j].name {
      NamesDiffer(manifest, signature, verdict, s, i, j);
    }
  }

  lemma NameIsSafe(manifest: Text, signature: Text, verdict: Text, s: seq<Loaded>, k: nat)
    requires k < |s| + 3 && forall i | 0 <= i < |s| :: IsRole(s[i].row.role)
    ensures SafeName(Members(manifest, signature, verdict, s)[k].name)
  {
    var ms := Members(manifest, signature, verdict, s);
    if k < 3 {
      FixedPathsAreSafe();
    } else {
      var i := k - 3;
      assert ms[3 + i].name == MaterialPath(i, s[i].row.role);
      PathIsSafe(i, s[i].row.role);
    }
  }

  lemma NamesDiffer(manifest: Text, signature: Text, verdict: Text, s: seq<Loaded>, i: nat, j: nat)
    requires i < j < |s| + 3
    ensures var ms := Members(manifest, signature, verdict, s); ms[i].name != ms[j].name
  {
    var x, y := Members(manifest, signature, verdict, s)[i].name, Members(manifest, signature, verdict, s)[j].name;
    if j < 3 {
      FixedPathsDiffer();
    } else {
      PathIsName(manifest, signature, verdict, s, j - 3);
      if i >= 3 { PathIsName(manifest, signature, verdict, s, i - 3); }
      TwoNamesDiffer(x, y, i, if i < 3 then [] else s[i - 3].row.role, j, s[j - 3].row.role);
    }
  }

  lemma TwoNamesDiffer(x: Text, y: Text, i: nat, r: Text, j: nat, s: Text)
    requires 3 <= j && i < j && y == MaterialPath(j - 3, s)
    requires if i < 3 then x in {MANIFEST_PATH, SIGNATURE_PATH, VERDICT_PATH} else x == MaterialPath(i - 3, r)
    ensures x != y
  {
    if i < 3 { PathsAreNotFixed(j - 3, s); } else if x == y { PathsDiffer(i - 3, r, j - 3, s); }
  }

  lemma PathIsName(manifest: Text, signature: Text, verdict: Text, s: seq<Loaded>, i: nat)
    requires i < |s|
    ensures Members(manifest, signature, verdict, s)[i + 3].name == MaterialPath(i, s[i].row.role)
  {
    assert i + 3 == 3 + i;
  }

  lemma FixedPathsDiffer()
    ensures MANIFEST_PATH != SIGNATURE_PATH && MANIFEST_PATH != VERDICT_PATH && SIGNATURE_PATH != VERDICT_PATH
  {
    assert |MANIFEST_PATH| == 11 && |SIGNATURE_PATH| == 10 && |VERDICT_PATH| == 19;
  }

  /** An archive within the limits, of members with safe and distinct names, is listed. */
  lemma ListingOf(ms: seq<Member>, crc: Crc)
    requires Fits(ms, crc) && |Archive(ms, crc)| <= MAX_ARCHIVE_BYTES
    requires 0 < |ms| <= MAX_ARCHIVE_MEMBERS && |Directory(ms, 0, crc)| <= MAX_CENTRAL_DIRECTORY_BYTES
    requires ms[0].name == MANIFEST_PATH && forall i, j | 0 <= i < j < |ms| :: ms[i].name != ms[j].name
    requires forall k | 0 <= k < |ms| :: SafeName(ms[k].name)
    ensures Listing(Archive(ms, crc)) == Some(Entries(ms, 0, crc))
    ensures Shows(Entries(ms, 0, crc), ReaderOf(Archive(ms, crc), crc), ms)
  {
    ArchiveShows(ms, crc);
    EntriesAreCanonical(ms, crc);
    ListableEntries(Entries(ms, 0, crc), ms);
    PreflightArchive(ms, crc);
    OpenReadsBack(ms, crc);
    ListingIs(Archive(ms, crc), Entries(ms, 0, crc));
  }

  lemma ListingIs(b: Text, es: seq<Entry>)
    requires |b| <= MAX_ARCHIVE_BYTES && Preflight(b) == Some(|es|) && OpenArchive(b) == Some(es) && Listable(es)
    ensures Listing(b) == Some(es)
  {
  }

  /** What the creator packs, the inspector lists. */
  lemma ListingOfMembers(manifest: Text, signature: Text, verdict: Text, s: seq<Loaded>, crc: Crc)
    requires |manifest| <= MAX_MANIFEST_BYTES && |signature| == SIGNATURE_BYTES && Collectable(|verdict|, s)
    ensures var ms := Members(manifest, signature, verdict, s);
            && Listing(Archive(ms, crc)) == Some(Entries(ms, 0, crc))
            && Shows(Entries(ms, 0, crc), ReaderOf(Archive(ms, crc), crc), ms)
  {
    forall i | 0 <= i < |s| ensures IsRole(s[i].row.role) { assert Acceptable(s[i]); }
    LimitsUnreachable(manifest, signature, verdict, s, crc);
    MemberNames(manifest, signature, verdict, s);
    ListingOf(Members(manifest, signature, verdict, s), crc);
  }

  lemma ListableEntries(es: seq<Entry>, ms: seq<Member>)
    requires |es| == |ms| && (forall k | 0 <= k < |ms| :: es[k].name == ms[k].name) && 0 < |ms| <= MAX_ARCHIVE_MEMBERS
             && ms[0].name == MANIFEST_PATH
    requires (forall k | 0 <= k < |ms| :: CanonicalEntry(es[k]))
             && forall i, j | 0 <= i < j < |ms| :: ms[i].name != ms[j].name
    ensures Listable(es)
  {
    forall i, j | 0 <= i < j < |es| ensures es[i].name != es[j].name {
      assert es[i].name == ms[i].name && es[j].name == ms[j].name;
    }
  }

  lemma ShownNames(es: seq<Entry>, read: Reader, manifest: Text, signature: Text, verdict: Text, s: seq<Loaded>)
    requires Shows(es, read, Members(manifest, signature, verdict, s))
    ensures NamesMatch(es, Rows(s))
  {
    var ms, names := Members(manifest, signature, verdict, s), ExpectedNames(Rows(s));
    forall i | 0 <= i < |es| ensures es[i].name == names[i] {
      assert es[i].name == ms[i].name;
      NameOfMember(manifest, signature, verdict, s, i);
    }
  }

  lemma NameOfMember(manifest: Text, signature: Text, verdict: Text, s: seq<Loaded>, i: nat)
    requires i < |s| + 3
    ensures Members(manifest, signature, verdict, s)[i].name == ExpectedNames(Rows(s))[i]
  {
    if i >= 3 { MaterialName(manifest, signature, verdict, s, i - 3); }
  }

  lemma MaterialName(manifest: Text, signature: Text, verdict: Text, s: seq<Loaded>, i: nat)
    requires i < |s|
    ensures Members(manifest, signature, verdict, s)[3 + i].name == MaterialPath(i, s[i].row.role)
    ensures ExpectedNames(Rows(s))[3 + i] == MaterialPath(i, s[i].row.role)
  {
  }

  lemma ShownMaterials(es: seq<Entry>, read: Reader, manifest: Text, signature: Text, verdict: Text, s: seq<Loaded>,
                       sha: Hash)
    requires Shows(es, read, Members(manifest, signature, verdict, s)) && Genuine(s, sha) && Collectable(|verdict|, s)
    ensures MaterialsIn(read, es, Rows(s), sha) == Some(s)
  {
    var ms, rows := Members(manifest, signature, verdict, s), Rows(s);
    forall i | 0 <= i < |s| ensures MaterialIn(read, es, rows, i, sha) == Some(s[i].data) {
      assert Acceptable(s[i]);
      assert ms[3 + i].data == s[i].data;
      assert read(es[3 + i], MAX_MATERIAL_BYTES) == Some(ms[3 + i].data);
    }
    SameMaterials(read, es, s, rows, sha);
  }

  lemma SameMaterials(read: Reader, es: seq<Entry>, s: seq<Loaded>, rows: seq<Row>, sha: Hash)
    requires rows == Rows(s) && |es| == |rows| + 3
    requires forall i | 0 <= i < |s| :: MaterialIn(read, es, rows, i, sha) == Some(s[i].data)
    ensures MaterialsIn(read, es, rows, sha) == Some(s)
  {
    var r := MaterialsIn(read, es, rows, sha);
    assert r.Some?;
    forall i | 0 <= i < |s| ensures r.value[i] == s[i] { assert r.value[i].row == rows[i] == s[i].row; }
    assert r.value == s;
  }

  lemma {:induction false} RowTotals(s: seq<Loaded>, sha: Hash)
    requires Genuine(s, sha)
    ensures RowTotal(Rows(s)) == Total(s)
  {
    if s != [] {
      RowTotals(s[..|s| - 1], sha);
      assert Rows(s)[..|s| - 1] == Rows(s[..|s| - 1]);
    }
  }

  lemma SignatureReadsBack(signature: Text)
    requires |signature| == 64 && Base64.IsBytes(signature)
    ensures |Base64.Encode(signature)| == SIGNATURE_BYTES
            && SignatureIn(Some(Base64.Encode(signature))) == Some(signature)
  {
    Base64.DecodeEncode(signature);
  }

  // ----- the two directions

  /** What a sealed bundle is made of. */
  ghost predicate Sealable(f: Floats, m: Manifest, bytes: Text, signature: Text, verdict: Text, s: seq<Loaded>,
                           sha: Hash) {
    && ValidManifest(m) && ScalarRecord(m.record) && ManifestOf(f, bytes) == Some(m) && |bytes| <= MAX_MANIFEST_BYTES
    && |signature| == 64 && Base64.IsBytes(signature)
    && m.rows == Rows(s) && Genuine(s, sha) && Collectable(|verdict|, s)
    && |verdict| <= MAX_VERDICT_BYTES && VerdictMatches(f, m, verdict, sha)
  }

  /** Every sealable bundle is accepted, and inspection returns its parts. */
  lemma SealedIsAccepted(f: Floats, m: Manifest, bytes: Text, signature: Text, verdict: Text, s: seq<Loaded>, sha: Hash,
                         crc: Crc)
    requires Sealable(f, m, bytes, signature, verdict, s, sha)
    ensures Inspect(f, Archive(Members(bytes, Base64.Encode(signature), verdict, s), crc), sha, crc)
            == Some(Inspected(bytes, signature, verdict, s))
  {
    SignatureReadsBack(signature);
    var encoded := Base64.Encode(signature);
    var ms := Members(bytes, encoded, verdict, s);
    var b, es := Archive(ms, crc), Entries(ms, 0, crc);
    ListingOfMembers(bytes, encoded, verdict, s, crc);
    assert ReaderOf(b, crc)(es[0], MAX_MANIFEST_BYTES) == Some(ms[0].data);
    EntriesAccepted(f, m, bytes, signature, verdict, s, sha, crc, b, es, ReaderOf(b, crc));
    InspectIs(f, b, es, bytes, m, sha, crc);
  }

  lemma InspectIs(f: Floats, b: Text, es: seq<Entry>, bytes: Text, m: Manifest, sha: Hash, crc: Crc)
    requires Listing(b) == Some(es) && es != [] && ReadEntry(b, es[0], MAX_MANIFEST_BYTES, crc) == Some(bytes)
    requires ManifestOf(f, bytes) == Some(m)
    ensures Inspect(f, b, sha, crc) == InspectEntries(f, b, es, ReaderOf(b, crc), bytes, m, sha, crc)
  {
  }

  lemma EntriesAccepted(f: Floats, m: Manifest, bytes: Text, signature: Text, verdict: Text, s: seq<Loaded>, sha: Hash,
                        crc: Crc,
                        b: Text, es: seq<Entry>, read: Reader)
    requires Sealable(f, m, bytes, signature, verdict, s, sha)
    requires Shows(es, read, Members(bytes, Base64.Encode(signature), verdict, s))
    requires b == Archive(Members(bytes, Base64.Encode(signature), verdict, s), crc)
    ensures InspectEntries(f, b, es, read, bytes, m, sha, crc) == Some(Inspected(bytes, signature, verdict, s))
  {
    SignatureReadsBack(signature);
    var encoded := Base64.Encode(signature);
    ShownNames(es, read, bytes, encoded, verdict, s);
    RowTotals(s, sha);
    ShownFixed(es, read, bytes, encoded, verdict, s);
    ShownMaterials(es, read, bytes, encoded, verdict, s, sha);
    Assembled(f, b, es, read, bytes, m, sha, crc, verdict, signature, s);
  }

  lemma ShownFixed(es: seq<Entry>, read: Reader, bytes: Text, encoded: Text, verdict: Text, s: seq<Loaded>)
    requires Shows(es, read, Members(bytes, encoded, verdict, s)) && |verdict| <= MAX_VERDICT_BYTES
    requires |encoded| == SIGNATURE_BYTES
    ensures |es| >= 3 && read(es[1], SIGNATURE_BYTES) == Some(encoded)
            && read(es[2], MAX_VERDICT_BYTES) == Some(verdict)
  {
    var ms := Members(bytes, encoded, verdict, s);
    assert read(es[1], SIGNATURE_BYTES) == Some(ms[1].data);
    assert read(es[2], MAX_VERDICT_BYTES) == Some(ms[2].data);
  }

  lemma Assembled(f: Floats, b: Text, es: seq<Entry>, read: Reader, bytes: Text, m: Manifest, sha: Hash, crc: Crc,
                  verdict: Text, signature: Text, s: seq<Loaded>)
    requires NamesMatch(es, m.rows) && m.record.size + RowTotal(m.rows) <= MAX_TOTAL_BYTES
    requires VerdictIn(f, read(es[2], MAX_VERDICT_BYTES), m, sha) == Some(verdict)
    requires SignatureIn(read(es[1], SIGNATURE_BYTES)) == Some(signature)
    requires MaterialsIn(read, es, m.rows, sha) == Some(s)
    requires b == Archive(Members(bytes, Base64.Encode(signature), verdict, s), crc)
    ensures InspectEntries(f, b, es, read, bytes, m, sha, crc) == Some(Inspected(bytes, signature, verdict, s))
  {
  }

  lemma CanonicalManifest(f: Floats, m: Manifest, bytes: Text)
    requires ValidManifest(m) && ScalarRecord(m.record)
    requires JsonDocument.WellTyped(ToJson(m)) && JsonDocument.CanonicalJson(f, ToJson(m)) == Some(bytes)
    ensures ManifestOf(f, bytes) == Some(m)
  {
    ManifestWellTyped(f, m);
    ManifestExact(ToJson(m), m);
  }

  /** A successful seal, taken apart. */
  lemma SealParts(m: Manifest, verdict: Text, s: seq<Loaded>, t: Tools)
    requires ValidManifest(m) && ScalarRecord(m.record) && Seal(m, verdict, s, t).Some?
    ensures var c := Seal(m, verdict, s, t).value;
            && ManifestOf(t.floats, c.manifestBytes) == Some(m) && |c.manifestBytes| <= MAX_MANIFEST_BYTES
            && c.signature == t.sign(SIGNING_DOMAIN + c.manifestBytes) && |c.signature| == 64
            && Base64.IsBytes(c.signature)
            && c.archive == Archive(Members(c.manifestBytes, Base64.Encode(c.signature), verdict, s), t.crc)
  {
    ManifestWellTyped(t.floats, m);
    var bytes := JsonDocument.CanonicalJson(t.floats, ToJson(m)).value;
    CanonicalManifest(t.floats, m, bytes);
    PackParts(bytes, verdict, s, t);
  }

  lemma PackParts(bytes: Text, verdict: Text, s: seq<Loaded>, t: Tools)
    requires SignAndPack(bytes, verdict, s, t).Some?
    ensures var c := SignAndPack(bytes, verdict, s, t).value;
            && c.manifestBytes == bytes && |bytes| <= MAX_MANIFEST_BYTES
            && c.signature == t.sign(SIGNING_DOMAIN + bytes) && |c.signature| == 64 && Base64.IsBytes(c.signature)
            && c.archive == Archive(Members(bytes, Base64.Encode(c.signature), verdict, s), t.crc)
  {
  }

  /** A successful creation, taken apart. */
  lemma CreateParts(i: Input, t: Tools) returns (m: Manifest)
    requires IsKeyId(i.keyId) && Hashing(t.sha) && Create(i, t).Some?
    ensures var c, s := Create(i, t).value, SortLoaded(LoadAll(i.materials, t.sha));
            && Sealable(t.floats, m, c.manifestBytes, c.signature, i.verdict, s, t.sha)
            && m.context == i.context && m.keyId == i.keyId
            && c.signature == t.sign(SIGNING_DOMAIN + c.manifestBytes)
            && c.archive == Archive(Members(c.manifestBytes, Base64.Encode(c.signature), i.verdict, s), t.crc)
  {
    var v := JsonDocument.LoadObject(t.floats, i.verdict).value;
    var all := LoadAll(i.materials, t.sha);
    var s := SortLoaded(all);
    m := Manifest(i.context, i.keyId, RecordOf(v, i.verdict, t.sha).value, Rows(s));
    LoadedIsScalar(t.floats, i.verdict);
    PartsAreValid(i, v, t.sha);
    SealParts(m, i.verdict, s, t);
    SortedIsGenuine(i.materials, t.sha);
    SortCollectable(|i.verdict|, all);
  }

  /** Whatever the creator writes, the inspector accepts: it returns the manifest bytes that were signed, the signature,
      the verdict bytes and the materials in canonical order. */
  lemma RoundTrip(i: Input, t: Tools)
    requires IsKeyId(i.keyId) && Hashing(t.sha) && Create(i, t).Some?
    ensures var c := Create(i, t).value;
            Inspect(t.floats, c.archive, t.sha, t.crc)
            == Some(Inspected(c.manifestBytes, c.signature, i.verdict, SortLoaded(LoadAll(i.materials, t.sha))))
  {
    var m := CreateParts(i, t);
    var c, s := Create(i, t).value, SortLoaded(LoadAll(i.materials, t.sha));
    SealedIsAccepted(t.floats, m, c.manifestBytes, c.signature, i.verdict, s, t.sha, t.crc);
  }

  lemma ManifestOfExact(f: Floats, bytes: Text, m: Manifest)
    requires ManifestOf(f, bytes) == Some(m)
    ensures ValidManifest(m) && JsonDocument.Scalar(ToJson(m)) && JsonDocument.LoadObject(f, bytes) == Some(ToJson(m))
    ensures JsonDocument.WellTyped(ToJson(m)) && JsonDocument.CanonicalJson(f, ToJson(m)) == Some(bytes)
  {
    LoadedIsScalar(f, bytes);
    var j := JsonDocument.LoadObject(f, bytes).value;
    ManifestExact(j, m);
    JsonDocument.ScalarIsWellTyped(j);
  }

  /** An accepted bundle, taken apart. */
  lemma AcceptedParts(f: Floats, b: Text, sha: Hash, crc: Crc) returns (m: Manifest)
    requires Inspect(f, b, sha, crc).Some?
    ensures var r := Inspect(f, b, sha, crc).value;
            && ManifestOf(f, r.manifestBytes) == Some(m) && |r.manifestBytes| <= MAX_MANIFEST_BYTES
            && Parts(f, m, r, sha) && |r.verdict| <= MAX_VERDICT_BYTES
            && b == Archive(Members(r.manifestBytes, Base64.Encode(r.signature), r.verdict, r.materials), crc)
  {
    var es := Listing(b).value;
    var bytes := ReadEntry(b, es[0], MAX_MANIFEST_BYTES, crc).value;
    ReadWithinLimit(b, es[0], MAX_MANIFEST_BYTES, crc);
    m := ManifestOf(f, bytes).value;
    EntriesParts(f, b, es, ReaderOf(b, crc), bytes, m, sha, crc);
    ReadWithinLimit(b, es[2], MAX_VERDICT_BYTES, crc);
  }

  lemma ReadWithinLimit(b: Text, e: Entry, limit: nat, crc: Crc)
    ensures ReaderOf(b, crc)(e, limit) == ReadEntry(b, e, limit, crc)
    ensures ReadEntry(b, e, limit, crc).Some? ==> |ReadEntry(b, e, limit, crc).value| <= limit
  {
  }

  ghost predicate Parts(f: Floats, m: Manifest, r: Inspected, sha: Hash) {
    && |r.signature| == 64 && Base64.IsBytes(r.signature)
    && VerdictMatches(f, m, r.verdict, sha) && m.record.size + RowTotal(m.rows) <= MAX_TOTAL_BYTES
    && Rows(r.materials) == m.rows && Genuine(r.materials, sha)
  }

  lemma EntriesParts(f: Floats, b: Text, es: seq<Entry>, read: Reader, bytes: Text, m: Manifest, sha: Hash, crc: Crc)
    requires InspectEntries(f, b, es, read, bytes, m, sha, crc).Some?
    ensures var r := InspectEntries(f, b, es, read, bytes, m, sha, crc).value;
            && |es| >= 3 && read(es[2], MAX_VERDICT_BYTES) == Some(r.verdict)
            && r.manifestBytes == bytes && Parts(f, m, r, sha)
            && b == Archive(Members(r.manifestBytes, Base64.Encode(r.signature), r.verdict, r.materials), crc)
  {
    MaterialsAreGenuine(read, es, m.rows, sha);
  }

  lemma MaterialsAreGenuine(read: Reader, es: seq<Entry>, rows: seq<Row>, sha: Hash)
    requires |es| == |rows| + 3 && MaterialsIn(read, es, rows, sha).Some?
    ensures var s := MaterialsIn(read, es, rows, sha).value; Rows(s) == rows && Genuine(s, sha)
  {
    var s := MaterialsIn(read, es, rows, sha).value;
    forall i | 0 <= i < |s| ensures s[i].row.sha == sha(s[i].data) && s[i].row.size == |s[i].data| {
      assert MaterialIn(read, es, rows, i, sha) == Some(s[i].data);
    }
    assert Rows(s) == rows;
  }

  lemma AcceptedIsSealable(f: Floats, b: Text, sha: Hash, crc: Crc) returns (m: Manifest)
    requires Inspect(f, b, sha, crc).Some?
    ensures var r := Inspect(f, b, sha, crc).value;
            && Sealable(f, m, r.manifestBytes, r.signature, r.verdict, r.materials, sha)
            && b == Archive(Members(r.manifestBytes, Base64.Encode(r.signature), r.verdict, r.materials), crc)
  {
    m := AcceptedParts(f, b, sha, crc);
    var r := Inspect(f, b, sha, crc).value;
    ManifestOfExact(f, r.manifestBytes, m);
    LoadedIsScalar(f, r.verdict);
    RecordIsScalar(JsonDocument.LoadObject(f, r.verdict).value, r.verdict, sha);
    RowTotals(r.materials, sha);
    AcceptedIsCollectable(m, r.verdict, r.materials, sha);
  }

  lemma AcceptedIsCollectable(m: Manifest, verdict: Text, s: seq<Loaded>, sha: Hash)
    requires ValidManifest(m) && Rows(s) == m.rows && Genuine(s, sha)
    requires |verdict| + Total(s) <= MAX_TOTAL_BYTES
    ensures Collectable(|verdict|, s)
  {
    forall i | 0 <= i < |s| ensures Acceptable(s[i]) { assert ValidRow(m.rows[i]); }
  }

  // ----- acceptance is exactly creation

  function MaterialsOf(s: seq<Loaded>): (ms: seq<Material>)
    ensures |ms| == |s| && forall i | 0 <= i < |s| :: ms[i] == Material(s[i].row.role, s[i].data)
  {
    seq(|s|, i requires 0 <= i < |s| => Material(s[i].row.role, s[i].data))
  }

  lemma ReloadSame(s: seq<Loaded>, sha: Hash)
    requires Genuine(s, sha) && DistinctRoles(Rows(s)) && InOrder(Rows(s))
    ensures LoadAll(MaterialsOf(s), sha) == s && SortLoaded(s) == s
  {
    ListedIsSorted(s);
    SortOfSortedRows(s);
    assert forall i | 0 <= i < |s| :: LoadAll(MaterialsOf(s), sha)[i] == s[i];
  }

  ghost function InputOf(m: Manifest, verdict: Text, s: seq<Loaded>): Input {
    Input(verdict, m.context, m.keyId, MaterialsOf(s))
  }

  lemma SealableIsCreated(m: Manifest, bytes: Text, signature: Text, verdict: Text, s: seq<Loaded>, t: Tools)
    requires Hashing(t.sha) && Sealable(t.floats, m, bytes, signature, verdict, s, t.sha)
             && t.sign(SIGNING_DOMAIN + bytes) == signature
    ensures IsKeyId(m.keyId)
    ensures Create(InputOf(m, verdict, s), t)
            == Some(Created(bytes, signature, Archive(Members(bytes, Base64.Encode(signature), verdict, s), t.crc)))
  {
    var v := JsonDocument.LoadObject(t.floats, verdict).value;
    LoadedIsScalar(t.floats, verdict);
    CreateFromIs(m, bytes, signature, verdict, v, s, t);
    CreateIs(InputOf(m, verdict, s), v, t);
  }

  lemma CreateIs(i: Input, v: Json, t: Tools)
    requires IsKeyId(i.keyId) && Hashing(t.sha) && JsonDocument.Scalar(v) && |i.verdict| <= MAX_VERDICT_BYTES
    requires JsonDocument.LoadObject(t.floats, i.verdict) == Some(v)
    ensures Create(i, t) == CreateFrom(i, v, t)
  {
    assert |i.verdict| <= MAX_TOTAL_BYTES;
  }

  lemma CreateFromIs(m: Manifest, bytes: Text, signature: Text, verdict: Text, v: Json, s: seq<Loaded>, t: Tools)
    requires Hashing(t.sha) && Sealable(t.floats, m, bytes, signature, verdict, s, t.sha)
             && t.sign(SIGNING_DOMAIN + bytes) == signature
    requires JsonDocument.LoadObject(t.floats, verdict) == Some(v) && JsonDocument.Scalar(v)
    ensures CreateFrom(InputOf(m, verdict, s), v, t)
            == Some(Created(bytes, signature, Archive(Members(bytes, Base64.Encode(signature), verdict, s), t.crc)))
  {
    ReloadSame(s, t.sha);
    SealIs(m, bytes, signature, verdict, s, t);
    assert m == Manifest(m.context, m.keyId, m.record, Rows(s));
  }

  lemma SealIs(m: Manifest, bytes: Text, signature: Text, verdict: Text, s: seq<Loaded>, t: Tools)
    requires Sealable(t.floats, m, bytes, signature, verdict, s, t.sha) && t.sign(SIGNING_DOMAIN + bytes) == signature
    ensures Seal(m, verdict, s, t)
            == Some(Created(bytes, signature, Archive(Members(bytes, Base64.Encode(signature), verdict, s), t.crc)))
  {
    ManifestOfExact(t.floats, bytes, m);
    PackSucceeds(bytes, verdict, s, t);
  }

  /** The creator writes b for this input. */
  ghost predicate Writes(i: Input, t: Tools, b: Text)
    requires Hashing(t.sha)
  {
    IsKeyId(i.keyId) && Create(i, t).Some? && Create(i, t).value.archive == b
  }

  /** The creator writes b for some input and some signer. */
  ghost predicate Creatable(f: Floats, b: Text, sha: Hash, crc: Crc)
    requires Hashing(sha)
  {
    exists i: Input, sign: Text -> Text :: Writes(i, Tools(sha, crc, f, sign), b)
  }

  lemma WrittenIsCreatable(i: Input, t: Tools, b: Text)
    requires Hashing(t.sha) && Writes(i, t, b)
    ensures Creatable(t.floats, b, t.sha, t.crc)
  {
    assert t == Tools(t.sha, t.crc, t.floats, t.sign);
  }

  lemma SealableIsCreatable(m: Manifest, bytes: Text, signature: Text, verdict: Text, s: seq<Loaded>, t: Tools)
    requires Hashing(t.sha) && Sealable(t.floats, m, bytes, signature, verdict, s, t.sha)
             && t.sign(SIGNING_DOMAIN + bytes) == signature
    ensures Creatable(t.floats, Archive(Members(bytes, Base64.Encode(signature), verdict, s), t.crc), t.sha, t.crc)
  {
    SealableIsCreated(m, bytes, signature, verdict, s, t);
    WrittenIsCreatable(InputOf(m, verdict, s), t, Archive(Members(bytes, Base64.Encode(signature), verdict, s), t.crc));
  }

  lemma AcceptedIsCreatable(f: Floats, b: Text, sha: Hash, crc: Crc)
    requires Hashing(sha) && Inspect(f, b, sha, crc).Some?
    ensures Creatable(f, b, sha, crc)
  {
    var m := AcceptedIsSealable(f, b, sha, crc);
    var r := Inspect(f, b, sha, crc).value;
    SealableIsCreatable(m, r.manifestBytes, r.signature, r.verdict, r.materials,
                        Tools(sha, crc, f, (x: Text) => r.signature));
  }

  /** The inspector accepts exactly the byte strings that the creator can write. */
  lemma AcceptedExactly(f: Floats, b: Text, sha: Hash, crc: Crc)
    requires Hashing(sha)
    ensures Inspect(f, b, sha, crc).Some? <==> Creatable(f, b, sha, crc)
  {
    if Creatable(f, b, sha, crc) {
      var i: Input, sign: Text -> Text :| Writes(i, Tools(sha, crc, f, sign), b);
      RoundTrip(i, Tools(sha, crc, f, sign));
    } else if Inspect(f, b, sha, crc).Some? {
      AcceptedIsCreatable(f, b, sha, crc);
    }
  }

  /** Two accepted snapshots with the same contents are the same bytes. */
  lemma SameContentsSameBytes(f: Floats, a: Text, b: Text, sha: Hash, crc: Crc)
    requires Inspect(f, a, sha, crc).Some? && Inspect(f, a, sha, crc) == Inspect(f, b, sha, crc)
    ensures a == b
  {
    var _ := AcceptedIsSealable(f, a, sha, crc);
    var _ := AcceptedIsSealable(f, b, sha, crc);
  }
}
