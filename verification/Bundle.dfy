/** Evidence bundles: `create_evidence_bundle` and `inspect_evidence_bundle` over the canonical manifest, the detached
    signature and the stored archive.  SHA-256, CRC-32 and the signer are parameters; reading the input files and
    publishing the output are not modelled. */
module Bundle {
  import opened Wrappers
  import opened Ordering
  import opened Json
  import opened BundleManifest
  import opened BundleOrder
  import opened Zip
  import JsonDocument
  import Base64
  import Utf8

  const MAX_MANIFEST_BYTES := 1024 * 1024
  const MAX_ARCHIVE_BYTES := MAX_TOTAL_BYTES + MAX_MANIFEST_BYTES + 1024 * 1024
  const SIGNATURE_BYTES := 88

  /** Every digest is 64 lower-case hexadecimal digits. */
  ghost predicate Hashing(sha: Hash) { forall d :: IsSha256(sha(d)) }

  // ----- members

  function Members(manifest: Text, signature: Text, verdict: Text, s: seq<Loaded>): (ms: seq<Member>)
    ensures |ms| == |s| + 3
    ensures ms[0] == Member(MANIFEST_PATH, manifest) && ms[1] == Member(SIGNATURE_PATH, signature)
    ensures ms[2] == Member(VERDICT_PATH, verdict)
    ensures forall i | 0 <= i < |s| :: ms[3 + i] == Member(MaterialPath(i, s[i].row.role), s[i].data)
  {
    [Member(MANIFEST_PATH, manifest), Member(SIGNATURE_PATH, signature), Member(VERDICT_PATH, verdict)]
    + seq(|s|, i requires 0 <= i < |s| => Member(MaterialPath(i, s[i].row.role), s[i].data))
  }

  function DataTotal(ms: seq<Member>): nat {
    if ms == [] then 0 else |ms[0].data| + DataTotal(ms[1..])
  }

  predicate BriefNames(ms: seq<Member>) { forall i | 0 <= i < |ms| :: |ms[i].name| <= 78 }

  lemma {:induction false} SectionSizes(ms: seq<Member>, offset: nat, crc: Crc)
    requires BriefNames(ms)
    ensures |Locals(ms, crc)| <= 108 * |ms| + DataTotal(ms) && |Directory(ms, offset, crc)| <= 124 * |ms|
  {
    if ms != [] {
      assert BriefNames(ms[1..]);
      assert |ms[0].name| <= 78;
      SectionSizes(ms[1..], offset + |Local(ms[0], crc)|, crc);
    }
  }

  lemma {:induction false} DataTotalSnoc(ms: seq<Member>, m: Member)
    ensures DataTotal(ms + [m]) == DataTotal(ms) + |m.data|
  {
    if ms == [] {
      assert ms + [m] == [m];
    } else {
      assert (ms + [m])[1..] == ms[1..] + [m];
      DataTotalSnoc(ms[1..], m);
    }
  }

  lemma ThreeTotal(x: Member, y: Member, z: Member)
    ensures DataTotal([x, y, z]) == |x.data| + |y.data| + |z.data|
  {
    assert [x, y, z][1..] == [y, z] && [y, z][1..] == [z] && [z][1..] == [];
    assert DataTotal([z]) == |z.data|;
    assert DataTotal([y, z]) == |y.data| + |z.data|;
  }

  lemma MembersSnoc(manifest: Text, signature: Text, verdict: Text, s: seq<Loaded>)
    requires s != []
    ensures var ms := Members(manifest, signature, verdict, s);
            var init := Members(manifest, signature, verdict, s[..|s| - 1]);
            ms == init + [ms[|ms| - 1]] && ms[|ms| - 1].data == s[|s| - 1].data
  {
    var ms, init := Members(manifest, signature, verdict, s), Members(manifest, signature, verdict, s[..|s| - 1]);
    forall k | 0 <= k < |init| ensures ms[k] == init[k] {
      if k >= 3 { SameMember(manifest, signature, verdict, s, k - 3); }
    }
    LastOf(ms, init);
    assert ms[3 + (|s| - 1)].data == s[|s| - 1].data;
  }

  lemma SameMember(manifest: Text, signature: Text, verdict: Text, s: seq<Loaded>, i: nat)
    requires i < |s| - 1
    ensures Members(manifest, signature, verdict, s)[3 + i]
            == Members(manifest, signature, verdict, s[..|s| - 1])[3 + i]
  {
    assert s[..|s| - 1][i] == s[i];
  }

  lemma LastOf(ms: seq<Member>, init: seq<Member>)
    requires |ms| == |init| + 1 && forall k | 0 <= k < |init| :: ms[k] == init[k]
    ensures ms == init + [ms[|ms| - 1]]
  {
  }

  lemma {:induction false} MembersTotal(manifest: Text, signature: Text, verdict: Text, s: seq<Loaded>)
    ensures DataTotal(Members(manifest, signature, verdict, s)) == |manifest| + |signature| + |verdict| + Total(s)
  {
    var ms := Members(manifest, signature, verdict, s);
    if s == [] {
      ThreeTotal(ms[0], ms[1], ms[2]);
      assert ms == [ms[0], ms[1], ms[2]];
    } else {
      var init := s[..|s| - 1];
      MembersTotal(manifest, signature, verdict, init);
      MembersSnoc(manifest, signature, verdict, s);
      DataTotalSnoc(Members(manifest, signature, verdict, init), ms[|ms| - 1]);
    }
  }

  lemma MembersAreBrief(manifest: Text, signature: Text, verdict: Text, s: seq<Loaded>)
    requires Collectable(|verdict|, s)
    ensures BriefNames(Members(manifest, signature, verdict, s))
  {
    var ms := Members(manifest, signature, verdict, s);
    forall i | 0 <= i < |ms| ensures |ms[i].name| <= 78 {
      if i >= 3 { assert Acceptable(s[i - 3]); }
    }
  }

  /** Once the earlier limits hold, neither the archive nor the central-directory limit can be hit. */
  lemma LimitsUnreachable(manifest: Text, signature: Text, verdict: Text, s: seq<Loaded>, crc: Crc)
    requires |manifest| <= MAX_MANIFEST_BYTES && |signature| == SIGNATURE_BYTES && Collectable(|verdict|, s)
    ensures var ms := Members(manifest, signature, verdict, s);
            && Fits(ms, crc) && |Archive(ms, crc)| <= MAX_ARCHIVE_BYTES
            && |ms| <= MAX_ARCHIVE_MEMBERS && |Directory(ms, 0, crc)| <= MAX_CENTRAL_DIRECTORY_BYTES
  {
    var ms := Members(manifest, signature, verdict, s);
    MembersAreBrief(manifest, signature, verdict, s);
    MembersTotal(manifest, signature, verdict, s);
    SectionSizes(ms, 0, crc);
  }

  // ----- creation

  datatype Tools = Tools(sha: Hash, crc: Crc, floats: Floats, sign: Text -> Text)

  datatype Input = Input(verdict: Text, context: Json, keyId: Text, materials: seq<Material>)

  datatype Created = Created(manifestBytes: Text, signature: Text, archive: Text)

  const SIGNING_DOMAIN := BUNDLE_FORMAT + [0]

  /** `_record_manifest` */
  function RecordOf(verdict: Json, payload: Text, sha: Hash): Option<Record> {
    var schema, tool, version := Get(verdict, SchemaVersionKey), Get(verdict, ToolKey), Get(verdict, ToolVersionKey);
    if !NonEmptyString(schema) || !NonEmptyString(tool) || !NonEmptyString(version) then None
    else Some(Record(sha(payload), |payload|, schema.s, tool.s, version.s))
  }

  lemma RecordIsScalar(verdict: Json, payload: Text, sha: Hash)
    requires JsonDocument.Scalar(verdict) && RecordOf(verdict, payload, sha).Some?
    ensures ScalarRecord(RecordOf(verdict, payload, sha).value)
  {
    assert verdict.Obj?;
    assert Name(SchemaVersionKey) in verdict.fields && Name(ToolKey) in verdict.fields
      && Name(ToolVersionKey) in verdict.fields;
  }

  lemma LoadedIsScalar(f: Floats, data: Text)
    requires JsonDocument.LoadObject(f, data).Some?
    ensures JsonDocument.Scalar(JsonDocument.LoadObject(f, data).value)
  {
  }

  lemma ManifestWellTyped(f: Floats, m: Manifest)
    requires ValidManifest(m) && ScalarRecord(m.record)
    ensures JsonDocument.WellTyped(ToJson(m)) && JsonDocument.CanonicalJson(f, ToJson(m)).Some?
    ensures JsonDocument.LoadObject(f, JsonDocument.CanonicalJson(f, ToJson(m)).value) == Some(ToJson(m))
  {
    ManifestEncodable(m);
    EncodableLoads(f, ToJson(m));
  }

  lemma EncodableLoads(f: Floats, j: Json)
    requires Encodable(j, 3) && j.Obj?
    ensures JsonDocument.WellTyped(j) && JsonDocument.CanonicalJson(f, j).Some?
    ensures JsonDocument.LoadObject(f, JsonDocument.CanonicalJson(f, j).value) == Some(j)
  {
    JsonDocument.ScalarIsWellTyped(j);
    JsonDocument.FloatFreeIsNormal(f, j);
    JsonDocument.CanonicalExists(f, j);
    JsonDocument.LoadCanonical(f, j);
  }

  /** Encode, sign and pack. */
  ghost function Seal(m: Manifest, verdict: Text, s: seq<Loaded>, t: Tools): Option<Created>
    requires ValidManifest(m) && ScalarRecord(m.record)
  {
    ManifestWellTyped(t.floats, m);
    match JsonDocument.CanonicalJson(t.floats, ToJson(m))
    case None => None
    case Some(bytes) => SignAndPack(bytes, verdict, s, t)
  }

  function SignAndPack(bytes: Text, verdict: Text, s: seq<Loaded>, t: Tools): Option<Created> {
    var signature := t.sign(SIGNING_DOMAIN + bytes);
    if |bytes| > MAX_MANIFEST_BYTES || |signature| != 64 || !Base64.IsBytes(signature) then None
    else
      var encoded := Base64.Encode(signature);
      var archive := Archive(Members(bytes, encoded, verdict, s), t.crc);
      if |encoded| != SIGNATURE_BYTES || |archive| > MAX_ARCHIVE_BYTES then None
      else Some(Created(bytes, signature, archive))
  }

  /** Within the earlier limits, only the size of the manifest and the shape of the signature can still refuse. */
  lemma PackSucceeds(bytes: Text, verdict: Text, s: seq<Loaded>, t: Tools)
    requires Collectable(|verdict|, s)
    ensures var signature, r := t.sign(SIGNING_DOMAIN + bytes), SignAndPack(bytes, verdict, s, t);
            if |bytes| > MAX_MANIFEST_BYTES || |signature| != 64 || !Base64.IsBytes(signature) then r == None
            else r == Some(Created(bytes, signature,
                                   Archive(Members(bytes, Base64.Encode(signature), verdict, s), t.crc)))
  {
    var signature := t.sign(SIGNING_DOMAIN + bytes);
    if |bytes| <= MAX_MANIFEST_BYTES && |signature| == 64 && Base64.IsBytes(signature) {
      LimitsUnreachable(bytes, Base64.Encode(signature), verdict, s, t.crc);
    }
  }

  ghost predicate Genuine(s: seq<Loaded>, sha: Hash) {
    forall i | 0 <= i < |s| :: s[i].row.sha == sha(s[i].data) && s[i].row.size == |s[i].data|
  }

  lemma RowsAreValid(start: nat, s: seq<Loaded>, sha: Hash)
    requires Hashing(sha) && Genuine(s, sha) && Collectable(start, s)
    ensures forall i | 0 <= i < |s| :: ValidRow(Rows(s)[i])
  {
    forall i | 0 <= i < |s| ensures ValidRow(Rows(s)[i]) { assert Acceptable(s[i]); }
  }

  lemma SortedIsGenuine(ms: seq<Material>, sha: Hash)
    ensures Genuine(SortLoaded(LoadAll(ms, sha)), sha)
  {
    var s, t := LoadAll(ms, sha), SortLoaded(LoadAll(ms, sha));
    SortElements(s);
    forall i | 0 <= i < |t| ensures t[i].row.sha == sha(t[i].data) && t[i].row.size == |t[i].data| {
      assert t[i] in s;
      var j :| 0 <= j < |s| && s[j] == t[i];
    }
  }

  /** The parts of a creation that reached the manifest make a valid one. */
  lemma PartsAreValid(i: Input, v: Json, sha: Hash)
    requires IsKeyId(i.keyId) && Hashing(sha) && JsonDocument.Scalar(v) && |i.verdict| <= MAX_VERDICT_BYTES
    requires ValidContext(i.context, Some(v)) && Collectable(|i.verdict|, LoadAll(i.materials, sha))
    requires DistinctRoles(Rows(SortLoaded(LoadAll(i.materials, sha)))) && RecordOf(v, i.verdict, sha).Some?
    ensures var s, record := SortLoaded(LoadAll(i.materials, sha)), RecordOf(v, i.verdict, sha).value;
            ValidManifest(Manifest(i.context, i.keyId, record, Rows(s))) && ScalarRecord(record)
  {
    var all := LoadAll(i.materials, sha);
    var s := SortLoaded(all);
    RecordIsScalar(v, i.verdict, sha);
    SortCollectable(|i.verdict|, all);
    SortedIsGenuine(i.materials, sha);
    RowsAreValid(|i.verdict|, s, sha);
    SortElements(all);
    SameRoles(s, all);
    DistinctSorts(all);
    SortedIsInOrder(s);
    assert IsSha256(sha(i.verdict));
  }

  /** `create_evidence_bundle`, from file contents to archive bytes. */
  ghost function Create(i: Input, t: Tools): Option<Created>
    requires IsKeyId(i.keyId) && Hashing(t.sha)
  {
    if |i.verdict| > MAX_VERDICT_BYTES || |i.verdict| > MAX_TOTAL_BYTES then None
    else
      match JsonDocument.LoadObject(t.floats, i.verdict)
      case None => None
      case Some(v) => LoadedIsScalar(t.floats, i.verdict); CreateFrom(i, v, t)
  }

  /** The rest of the creation, for a verdict that loads. */
  ghost function CreateFrom(i: Input, v: Json, t: Tools): Option<Created>
    requires IsKeyId(i.keyId) && Hashing(t.sha) && JsonDocument.Scalar(v) && |i.verdict| <= MAX_VERDICT_BYTES
  {
    var all := LoadAll(i.materials, t.sha);
    var s := SortLoaded(all);
    if !ValidContext(i.context, Some(v)) || !Collectable(|i.verdict|, all) || !DistinctRoles(Rows(s)) then None
    else
      match RecordOf(v, i.verdict, t.sha)
      case None => None
      case Some(record) =>
        PartsAreValid(i, v, t.sha);
        Seal(Manifest(i.context, i.keyId, record, Rows(s)), i.verdict, s, t)
  }

  /** What creation demands of the verdict, the context and the materials, in any order. */
  ghost predicate Bundleable(i: Input, t: Tools) {
    && |i.verdict| <= MAX_VERDICT_BYTES && JsonDocument.LoadObject(t.floats, i.verdict).Some?
    && var v := JsonDocument.LoadObject(t.floats, i.verdict).value;
       && ValidContext(i.context, Some(v)) && RecordOf(v, i.verdict, t.sha).Some?
       && Collectable(|i.verdict|, LoadAll(i.materials, t.sha)) && DistinctRoles(Rows(LoadAll(i.materials, t.sha)))
  }

  /** The manifest of an acceptable input; it is valid, so that the encoder accepts it. */
  ghost function ManifestFor(i: Input, t: Tools): (m: Manifest)
    requires IsKeyId(i.keyId) && Hashing(t.sha) && Bundleable(i, t)
    ensures ValidManifest(m) && ScalarRecord(m.record)
  {
    var v, all := JsonDocument.LoadObject(t.floats, i.verdict).value, LoadAll(i.materials, t.sha);
    LoadedIsScalar(t.floats, i.verdict);
    SortElements(all);
    SameRoles(SortLoaded(all), all);
    PartsAreValid(i, v, t.sha);
    Manifest(i.context, i.keyId, RecordOf(v, i.verdict, t.sha).value, Rows(SortLoaded(all)))
  }

  ghost function ManifestBytesFor(i: Input, t: Tools): Text
    requires IsKeyId(i.keyId) && Hashing(t.sha) && Bundleable(i, t)
  {
    ManifestWellTyped(t.floats, ManifestFor(i, t));
    JsonDocument.CanonicalJson(t.floats, ToJson(ManifestFor(i, t))).value
  }

  /** Up to the manifest, creation is acceptance of the input. */
  lemma CreateIsSeal(i: Input, t: Tools)
    requires IsKeyId(i.keyId) && Hashing(t.sha)
    ensures Create(i, t) == if Bundleable(i, t)
                            then Seal(ManifestFor(i, t), i.verdict, SortLoaded(LoadAll(i.materials, t.sha)), t)
                            else None
  {
    var all := LoadAll(i.materials, t.sha);
    SortElements(all);
    SameRoles(SortLoaded(all), all);
  }

  lemma SealIsPack(m: Manifest, verdict: Text, s: seq<Loaded>, t: Tools)
    requires ValidManifest(m) && ScalarRecord(m.record) && Collectable(|verdict|, s)
    ensures JsonDocument.WellTyped(ToJson(m)) && JsonDocument.CanonicalJson(t.floats, ToJson(m)).Some?
    ensures var bytes := JsonDocument.CanonicalJson(t.floats, ToJson(m)).value;
            Seal(m, verdict, s, t).Some? <==> |bytes| <= MAX_MANIFEST_BYTES && Signs(t, bytes)
  {
    ManifestWellTyped(t.floats, m);
    PackSucceeds(JsonDocument.CanonicalJson(t.floats, ToJson(m)).value, verdict, s, t);
  }

  /** The signer returns 64 bytes. */
  ghost predicate Signs(t: Tools, bytes: Text) {
    |t.sign(SIGNING_DOMAIN + bytes)| == 64 && Base64.IsBytes(t.sign(SIGNING_DOMAIN + bytes))
  }

  /** Creation succeeds exactly for acceptable inputs whose manifest is within its limit, given a signer that returns 64
      bytes; no other check can refuse. */
  lemma CreationSucceeds(i: Input, t: Tools)
    requires IsKeyId(i.keyId) && Hashing(t.sha)
    ensures Create(i, t).Some? <==>
            (&& Bundleable(i, t) && |ManifestBytesFor(i, t)| <= MAX_MANIFEST_BYTES && Signs(t, ManifestBytesFor(i, t)))
  {
    CreateIsSeal(i, t);
    if Bundleable(i, t) {
      var all := LoadAll(i.materials, t.sha);
      SortCollectable(|i.verdict|, all);
      SealIsPack(ManifestFor(i, t), i.verdict, SortLoaded(all), t);
    }
  }

  /** The order of the materials does not matter: the same outcome, and the same bytes. */
  lemma OrderIrrelevant(i: Input, materials: seq<Material>, t: Tools)
    requires IsKeyId(i.keyId) && Hashing(t.sha) && multiset(i.materials) == multiset(materials)
    ensures Create(i.(materials := materials), t) == Create(i, t)
  {
    SameLoaded(i.materials, materials, t.sha);
    SameArrangement(|i.verdict|, LoadAll(i.materials, t.sha), LoadAll(materials, t.sha));
  }

  /** Lists with the same elements are refused together, or sort to the same list within the same limits. */
  lemma SameArrangement(start: nat, a: seq<Loaded>, b: seq<Loaded>)
    requires |a| == |b| && forall y :: y in a <==> y in b
    ensures DistinctRoles(Rows(SortLoaded(a))) <==> DistinctRoles(Rows(SortLoaded(b)))
    ensures DistinctRoles(Rows(SortLoaded(a))) ==>
              SortLoaded(a) == SortLoaded(b) && Collectable(start, a) == Collectable(start, b)
  {
    SortElements(a);
    SortElements(b);
    SameRoles(SortLoaded(a), SortLoaded(b));
    SameRoles(SortLoaded(a), a);
    SameRoles(SortLoaded(b), b);
    if DistinctRoles(Rows(a)) {
      DistinctSorts(a);
      DistinctSorts(b);
      OneArrangement(SortLoaded(a), SortLoaded(b));
      SortCollectable(start, a);
      SortCollectable(start, b);
    }
  }

  lemma SameLoaded(a: seq<Material>, b: seq<Material>, sha: Hash)
    requires multiset(a) == multiset(b)
    ensures |a| == |b| && forall y :: y in LoadAll(a, sha) <==> y in LoadAll(b, sha)
  {
    assert |a| == |multiset(a)| == |multiset(b)| == |b|;
    LoadedSubset(a, b, sha);
    LoadedSubset(b, a, sha);
  }

  lemma LoadedSubset(a: seq<Material>, b: seq<Material>, sha: Hash)
    requires multiset(a) == multiset(b)
    ensures forall y :: y in LoadAll(a, sha) ==> y in LoadAll(b, sha)
  {
    forall y | y in LoadAll(a, sha) ensures y in LoadAll(b, sha) {
      var i :| 0 <= i < |a| && LoadAll(a, sha)[i] == y;
      assert a[i] in multiset(a);
      assert a[i] in b;
      var j :| 0 <= j < |b| && b[j] == a[i];
      assert LoadAll(b, sha)[j] == y;
    }
  }
}
