/** Bundles by the texts they hold: what the manifest says on the wire, field name by field name, and how it is bound to
    the verdict and the materials beside it. */
module BundleWire {
  import opened Wrappers
  import opened Ordering
  import opened Json
  import opened BundleManifest
  import opened BundleOrder
  import opened Bundle
  import opened BundleInspection
  import JsonDocument
  import Zip

  /** What an object holds under a field name; null when it holds nothing. */
  function At(j: Json, name: string): Json {
    if j.Obj? && Chars(name) in j.fields then j.fields[Chars(name)] else Null
  }

  predicate LowerHex(j: Json, length: nat) {
    j.Str? && |j.s| == length
    && forall i | 0 <= i < length :: ('0' as int <= j.s[i] <= '9' as int) || ('a' as int <= j.s[i] <= 'f' as int)
  }

  ghost predicate Line(j: Json, maximum: nat) {
    && j.Str? && 1 <= |j.s| <= maximum
    && forall i | 0 <= i < |j.s| :: 0x20 <= j.s[i] <= 0x10FFFF && !(0xD800 <= j.s[i] <= 0xDFFF)
  }

  /** A revision field: nothing, or a lower-case Git object id. */
  predicate Revision(j: Json) { j.Null? || LowerHex(j, 40) || LowerHex(j, 64) }

  /** The attestation leaves this field open, or the context repeats it. */
  predicate Repeats(c: Json, a: Json, name: string) { At(a, name).Null? || At(c, name) == At(a, name) }

  /** The same field of both. */
  predicate Same(c: Json, a: Json, name: string) { At(c, name) == At(a, name) }

  // ----- field names

  lemma GetAt(j: Json, key: Key, name: string)
    requires Name(key) == Chars(name)
    ensures Get(j, key) == At(j, name)
  {
  }

  lemma FieldAt(values: map<Key, Json>, key: Key, name: string)
    requires key in values && Name(key) == Chars(name)
    ensures Object(values).Obj? && At(Object(values), name) == values[key]
  {
    ObjectFields(values);
    assert Fields(Object(values), values.Keys)[key] == values[key];
    GetAt(Object(values), key, name);
  }

  lemma RevisionNames()
    ensures Name(BaseShaKey) == Chars("base_sha") && Name(HeadShaKey) == Chars("head_sha")
    ensures Name(BaseTreeShaKey) == Chars("base_tree_sha") && Name(HeadTreeShaKey) == Chars("head_tree_sha")
  {
  }

  lemma BindingNames()
    ensures Name(CandidateSha256Key) == Chars("candidate_sha256") && Name(PolicySha256Key) == Chars("policy_sha256")
    ensures Name(VerifierPackSha256Key) == Chars("verifier_pack_sha256") && Name(AttestationKey) == Chars("attestation")
  {
  }

  lemma RunNames()
    ensures Name(RepositoryKey) == Chars("repository") && Name(RepositoryIdKey) == Chars("repository_id")
    ensures Name(RunIdKey) == Chars("run_id") && Name(RunAttemptKey) == Chars("run_attempt")
    ensures Name(GuardArtifactSha256Key) == Chars("guard_artifact_sha256")
  {
  }

  lemma FormatName()
    ensures Name(FormatKey) == Chars("format")
  {
  }

  lemma ManifestNames()
    ensures Name(ContextKey) == Chars("context")
    ensures Name(AuthenticationKey) == Chars("authentication") && Name(RecordKey) == Chars("record")
    ensures Name(MaterialsKey) == Chars("materials")
  {
  }

  lemma AuthenticationNames()
    ensures Name(AlgorithmKey) == Chars("algorithm") && Name(KeyIdKey) == Chars("key_id")
    ensures Name(PurposeKey) == Chars("purpose") && Name(SignaturePathKey) == Chars("signature_path")
  {
  }

  lemma RowNames()
    ensures Name(RoleKey) == Chars("role") && Name(PathKey) == Chars("path")
    ensures Name(Sha256Key) == Chars("sha256") && Name(SizeKey) == Chars("size")
  {
  }

  lemma OwnNames()
    ensures Name(SchemaVersionKey) == Chars("schema_version") && Name(ToolKey) == Chars("tool")
    ensures Name(ToolVersionKey) == Chars("tool_version")
  {
  }

  // ----- the context

  lemma ShapesAgree(j: Json, maximum: nat)
    ensures BoundedString(j, maximum) <==> Line(j, maximum)
    ensures OptionalGitSha(j) <==> Revision(j)
    ensures RequiredSha(j) <==> LowerHex(j, 64)
  {
  }

  lemma ContextField(c: Json, key: Key, name: string)
    requires key in ContextKeys && Name(key) == Chars(name)
    ensures Fields(c, ContextKeys)[key] == At(c, name)
  {
    GetAt(c, key, name);
  }

  /** A well-formed context: the digests and the revisions. */
  lemma ContextDigests(c: Json)
    requires WellFormedContext(c)
    ensures LowerHex(At(c, "candidate_sha256"), 64) && LowerHex(At(c, "policy_sha256"), 64)
    ensures At(c, "verifier_pack_sha256").Null? || LowerHex(At(c, "verifier_pack_sha256"), 64)
  {
    BindingNames();
    ContextField(c, CandidateSha256Key, "candidate_sha256");
    ContextField(c, PolicySha256Key, "policy_sha256");
    ContextField(c, VerifierPackSha256Key, "verifier_pack_sha256");
    ShapesAgree(At(c, "candidate_sha256"), 0);
    ShapesAgree(At(c, "policy_sha256"), 0);
    ShapesAgree(At(c, "verifier_pack_sha256"), 0);
  }

  lemma ContextRevisions(c: Json)
    requires WellFormedContext(c)
    ensures Revision(At(c, "base_sha")) && Revision(At(c, "head_sha"))
    ensures Revision(At(c, "base_tree_sha")) && Revision(At(c, "head_tree_sha"))
  {
    RevisionNames();
    ContextField(c, BaseShaKey, "base_sha");
    ContextField(c, HeadShaKey, "head_sha");
    ContextField(c, BaseTreeShaKey, "base_tree_sha");
    ContextField(c, HeadTreeShaKey, "head_tree_sha");
    forall j ensures OptionalGitSha(j) <==> Revision(j) { ShapesAgree(j, 0); }
  }

  /** And the run it belongs to. */
  lemma ContextRun(c: Json)
    requires WellFormedContext(c)
    ensures Line(At(c, "repository"), 512) && Line(At(c, "repository_id"), 256) && Line(At(c, "run_id"), 256)
    ensures At(c, "run_attempt").Int? && 1 <= At(c, "run_attempt").n <= 2147483647
    ensures LowerHex(At(c, "guard_artifact_sha256"), 64)
  {
    RunNames();
    ContextField(c, RepositoryKey, "repository");
    ContextField(c, RepositoryIdKey, "repository_id");
    ContextField(c, RunIdKey, "run_id");
    ContextField(c, RunAttemptKey, "run_attempt");
    ContextField(c, GuardArtifactSha256Key, "guard_artifact_sha256");
    ShapesAgree(At(c, "repository"), 512);
    ShapesAgree(At(c, "repository_id"), 256);
    ShapesAgree(At(c, "run_id"), 256);
    ShapesAgree(At(c, "guard_artifact_sha256"), 0);
  }

  /** Nothing else is asked of a context with exactly these fields. */
  lemma WellFormedIf(c: Json)
    requires ExactKeys(c, ContextKeys)
    requires Line(At(c, "repository"), 512) && Line(At(c, "repository_id"), 256) && Line(At(c, "run_id"), 256)
    requires At(c, "run_attempt").Int? && 1 <= At(c, "run_attempt").n <= 2147483647
    requires Revision(At(c, "base_sha")) && Revision(At(c, "head_sha"))
    requires Revision(At(c, "base_tree_sha")) && Revision(At(c, "head_tree_sha"))
    requires LowerHex(At(c, "candidate_sha256"), 64) && LowerHex(At(c, "policy_sha256"), 64)
    requires LowerHex(At(c, "guard_artifact_sha256"), 64)
    requires At(c, "verifier_pack_sha256").Null? || LowerHex(At(c, "verifier_pack_sha256"), 64)
    ensures WellFormedContext(c)
  {
    RunFields(c);
    RevisionFields(c);
    DigestFields(c);
  }

  lemma RunFields(c: Json)
    ensures var f := Fields(c, ContextKeys);
            && (BoundedString(f[RepositoryKey], 512) <==> Line(At(c, "repository"), 512))
            && (BoundedString(f[RepositoryIdKey], 256) <==> Line(At(c, "repository_id"), 256))
            && (BoundedString(f[RunIdKey], 256) <==> Line(At(c, "run_id"), 256))
            && f[RunAttemptKey] == At(c, "run_attempt")
  {
    RunNames();
    ContextField(c, RepositoryKey, "repository");
    ContextField(c, RepositoryIdKey, "repository_id");
    ContextField(c, RunIdKey, "run_id");
    ContextField(c, RunAttemptKey, "run_attempt");
    ShapesAgree(At(c, "repository"), 512);
    ShapesAgree(At(c, "repository_id"), 256);
    ShapesAgree(At(c, "run_id"), 256);
  }

  lemma RevisionFields(c: Json)
    requires Revision(At(c, "base_sha")) && Revision(At(c, "head_sha"))
    requires Revision(At(c, "base_tree_sha")) && Revision(At(c, "head_tree_sha"))
    ensures forall k | k in RevisionKeys :: OptionalGitSha(Fields(c, ContextKeys)[k])
  {
    RevisionNames();
    forall k | k in RevisionKeys ensures OptionalGitSha(Fields(c, ContextKeys)[k]) {
      var name := if k == BaseShaKey then "base_sha" else if k == HeadShaKey then "head_sha"
                  else if k == BaseTreeShaKey then "base_tree_sha" else "head_tree_sha";
      ContextField(c, k, name);
      ShapesAgree(At(c, name), 0);
    }
  }

  lemma DigestFields(c: Json)
    requires LowerHex(At(c, "candidate_sha256"), 64) && LowerHex(At(c, "policy_sha256"), 64)
    requires LowerHex(At(c, "guard_artifact_sha256"), 64)
    requires At(c, "verifier_pack_sha256").Null? || LowerHex(At(c, "verifier_pack_sha256"), 64)
    ensures forall k | k in DigestKeys :: RequiredSha(Fields(c, ContextKeys)[k])
    ensures var pack := Fields(c, ContextKeys)[VerifierPackSha256Key]; pack.Null? || RequiredSha(pack)
  {
    BindingNames();
    RunNames();
    forall k | k in DigestKeys ensures RequiredSha(Fields(c, ContextKeys)[k]) {
      var name := if k == CandidateSha256Key then "candidate_sha256" else if k == PolicySha256Key then "policy_sha256"
                  else "guard_artifact_sha256";
      ContextField(c, k, name);
      ShapesAgree(At(c, name), 0);
    }
    ContextField(c, VerifierPackSha256Key, "verifier_pack_sha256");
    ShapesAgree(At(c, "verifier_pack_sha256"), 0);
  }

  /** Which contexts are bound to a verdict: three digests always agree with its attestation, four revisions wherever
      the attestation gives one. */
  lemma BoundDigests(c: Json, v: Json)
    requires BoundTo(c, v)
    ensures At(v, "attestation").Obj?
    ensures var a := At(v, "attestation");
            Same(c, a, "candidate_sha256") && Same(c, a, "policy_sha256") && Same(c, a, "verifier_pack_sha256")
  {
    BindingNames();
    GetAt(v, AttestationKey, "attestation");
    var a := At(v, "attestation");
    SameField(c, a, CandidateSha256Key, "candidate_sha256");
    SameField(c, a, PolicySha256Key, "policy_sha256");
    SameField(c, a, VerifierPackSha256Key, "verifier_pack_sha256");
  }

  lemma SameField(c: Json, a: Json, key: Key, name: string)
    requires Name(key) == Chars(name)
    ensures Get(c, key) == Get(a, key) <==> Same(c, a, name)
    ensures AgreesWhenPresent(c, a, key) <==> Repeats(c, a, name)
  {
    GetAt(c, key, name);
    GetAt(a, key, name);
  }

  lemma BoundRevisions(c: Json, v: Json)
    requires BoundTo(c, v)
    ensures var a := At(v, "attestation");
            && Repeats(c, a, "base_sha") && Repeats(c, a, "head_sha")
            && Repeats(c, a, "base_tree_sha") && Repeats(c, a, "head_tree_sha")
  {
    BindingNames();
    RevisionNames();
    GetAt(v, AttestationKey, "attestation");
    var a := At(v, "attestation");
    SameField(c, a, BaseShaKey, "base_sha");
    SameField(c, a, HeadShaKey, "head_sha");
    SameField(c, a, BaseTreeShaKey, "base_tree_sha");
    SameField(c, a, HeadTreeShaKey, "head_tree_sha");
  }

  /** Nothing else is asked of it. */
  lemma BoundIf(c: Json, v: Json)
    requires At(v, "attestation").Obj?
    requires var a := At(v, "attestation");
             Same(c, a, "candidate_sha256") && Same(c, a, "policy_sha256") && Same(c, a, "verifier_pack_sha256")
    requires var a := At(v, "attestation");
             && Repeats(c, a, "base_sha") && Repeats(c, a, "head_sha")
             && Repeats(c, a, "base_tree_sha") && Repeats(c, a, "head_tree_sha")
    ensures BoundTo(c, v)
  {
    BindingNames();
    GetAt(v, AttestationKey, "attestation");
    var a := At(v, "attestation");
    forall k | k in BindingKeys ensures Get(c, k) == Get(a, k) {
      if k == CandidateSha256Key { SameField(c, a, k, "candidate_sha256"); }
      else if k == PolicySha256Key { SameField(c, a, k, "policy_sha256"); }
      else { SameField(c, a, k, "verifier_pack_sha256"); }
    }
    RevisionNames();
    forall k | k in RevisionKeys ensures AgreesWhenPresent(c, a, k) {
      if k == BaseShaKey { SameField(c, a, k, "base_sha"); }
      else if k == HeadShaKey { SameField(c, a, k, "head_sha"); }
      else if k == BaseTreeShaKey { SameField(c, a, k, "base_tree_sha"); }
      else { SameField(c, a, k, "head_tree_sha"); }
    }
  }

  // ----- the manifest object

  /** The five fields of a manifest, and what is in them. */
  lemma ManifestFields(m: Manifest)
    ensures var j := ToJson(m);
            && j.Obj? && At(j, "format") == Str(Chars("EVOGUARD_EVIDENCE_BUNDLE_V1")) && At(j, "context") == m.context
            && At(j, "authentication") == Object(AuthenticationValues(m.keyId))
            && At(j, "record") == Object(RecordValues(m.record)) && At(j, "materials") == Arr(RowsJson(m.rows))
  {
    ManifestHead(m);
    ManifestTail(m);
  }

  lemma ManifestHead(m: Manifest)
    ensures var j := ToJson(m);
            && j.Obj? && At(j, "format") == Str(Chars("EVOGUARD_EVIDENCE_BUNDLE_V1")) && At(j, "context") == m.context
  {
    ManifestFormat(m);
    ManifestContext(m);
  }

  lemma ManifestFormat(m: Manifest)
    ensures At(ToJson(m), "format") == Str(Chars("EVOGUARD_EVIDENCE_BUNDLE_V1"))
  {
    FormatName();
    FormatValue(m);
    FirstField(ManifestValues(m), Str(BUNDLE_FORMAT));
  }

  lemma FormatValue(m: Manifest)
    ensures FormatKey in ManifestValues(m) && ManifestValues(m)[FormatKey] == Str(BUNDLE_FORMAT)
  {
  }

  lemma FirstField(values: map<Key, Json>, x: Json)
    requires FormatKey in values && values[FormatKey] == x && Name(FormatKey) == Chars("format")
    ensures At(Object(values), "format") == x
  {
    FieldAt(values, FormatKey, "format");
  }

  lemma ManifestContext(m: Manifest)
    ensures ToJson(m).Obj? && At(ToJson(m), "context") == m.context
  {
    ManifestNames();
    FieldAt(ManifestValues(m), ContextKey, "context");
  }

  lemma ManifestTail(m: Manifest)
    ensures var j := ToJson(m);
            && At(j, "authentication") == Object(AuthenticationValues(m.keyId))
            && At(j, "record") == Object(RecordValues(m.record)) && At(j, "materials") == Arr(RowsJson(m.rows))
  {
    var values := ManifestValues(m);
    ManifestNames();
    FieldAt(values, AuthenticationKey, "authentication");
    FieldAt(values, RecordKey, "record");
    FieldAt(values, MaterialsKey, "materials");
  }

  lemma AuthenticationFields(keyId: Text)
    ensures var j := Object(AuthenticationValues(keyId));
            && j.Obj? && At(j, "algorithm") == Str(Chars("Ed25519")) && At(j, "key_id") == Str(keyId)
            && At(j, "purpose") == Str(Chars("evoguard-evidence-envelope"))
            && At(j, "signature_path") == Str(Chars("bundle.sig"))
  {
    var values := AuthenticationValues(keyId);
    AuthenticationNames();
    FieldAt(values, AlgorithmKey, "algorithm");
    FieldAt(values, KeyIdKey, "key_id");
    FieldAt(values, PurposeKey, "purpose");
    FieldAt(values, SignaturePathKey, "signature_path");
  }

  lemma RecordFields(r: Record)
    ensures var j := Object(RecordValues(r));
            && j.Obj? && At(j, "path") == Str(Chars("record/verdict.json")) && At(j, "sha256") == Str(r.sha)
            && At(j, "size") == Int(r.size)
  {
    var values := RecordValues(r);
    RowNames();
    FieldAt(values, PathKey, "path");
    FieldAt(values, Sha256Key, "sha256");
    FieldAt(values, SizeKey, "size");
    VerdictPlace();
  }

  lemma VerdictPlace()
    ensures VERDICT_PATH == Chars("record/verdict.json")
  {
  }

  lemma RecordWords(r: Record)
    ensures var j := Object(RecordValues(r));
            && At(j, "schema_version") == Str(r.schemaVersion) && At(j, "tool") == Str(r.tool)
            && At(j, "tool_version") == Str(r.toolVersion)
  {
    var values := RecordValues(r);
    OwnNames();
    FieldAt(values, SchemaVersionKey, "schema_version");
    FieldAt(values, ToolKey, "tool");
    FieldAt(values, ToolVersionKey, "tool_version");
  }

  lemma RowFields(i: nat, row: Row)
    ensures var j := Object(RowValues(i, row));
            && j.Obj? && At(j, "role") == Str(row.role) && At(j, "path") == Str(MaterialPath(i, row.role))
            && At(j, "sha256") == Str(row.sha) && At(j, "size") == Int(row.size)
  {
    var values := RowValues(i, row);
    RowNames();
    FieldAt(values, RoleKey, "role");
    FieldAt(values, PathKey, "path");
    FieldAt(values, Sha256Key, "sha256");
    FieldAt(values, SizeKey, "size");
  }

  /** The place of a material: below "materials/", its index in decimal with at least three digits, and its role. */
  lemma MaterialPlace(i: nat, role: Text)
    requires i < 1000
    ensures MaterialPath(i, role)
            == Chars("materials/") + [48 + i / 100, 48 + i / 10 % 10, 48 + i % 10] + Chars("-") + role
  {
    assert Chars("materials/") == Chars("materials") + [47] && Chars("-") == [45];
  }

  // ----- the record

  /** The record repeats the verdict's own words. */
  lemma RecordIsOwn(v: Json, payload: Text, sha: Hash, r: Record)
    ensures RecordOf(v, payload, sha) == Some(r) <==>
            && r.sha == sha(payload) && r.size == |payload|
            && At(v, "schema_version") == Str(r.schemaVersion) && r.schemaVersion != []
            && At(v, "tool") == Str(r.tool) && r.tool != []
            && At(v, "tool_version") == Str(r.toolVersion) && r.toolVersion != []
  {
    OwnNames();
    GetAt(v, SchemaVersionKey, "schema_version");
    GetAt(v, ToolKey, "tool");
    GetAt(v, ToolVersionKey, "tool_version");
  }

  // ----- accepted bundles

  /** Every accepted bundle: its context is bound to the verdict it carries, and its record repeats that verdict's
      digest, size and own description. */
  lemma AcceptedIsBound(f: Floats, b: Text, sha: Hash, crc: Zip.Crc)
    requires Inspect(f, b, sha, crc).Some?
    ensures var r := Inspect(f, b, sha, crc).value;
            && JsonDocument.LoadObject(f, r.manifestBytes).Some? && JsonDocument.LoadObject(f, r.verdict).Some?
            && var j, v := JsonDocument.LoadObject(f, r.manifestBytes).value,
                           JsonDocument.LoadObject(f, r.verdict).value;
               var c, a, record := At(j, "context"), At(v, "attestation"), At(j, "record");
               && a.Obj?
               && At(c, "candidate_sha256") == At(a, "candidate_sha256")
               && At(c, "policy_sha256") == At(a, "policy_sha256")
               && At(c, "verifier_pack_sha256") == At(a, "verifier_pack_sha256")
               && (At(a, "base_sha") != Null ==> At(c, "base_sha") == At(a, "base_sha"))
               && (At(a, "head_sha") != Null ==> At(c, "head_sha") == At(a, "head_sha"))
               && (At(a, "base_tree_sha") != Null ==> At(c, "base_tree_sha") == At(a, "base_tree_sha"))
               && (At(a, "head_tree_sha") != Null ==> At(c, "head_tree_sha") == At(a, "head_tree_sha"))
               && At(record, "schema_version") == At(v, "schema_version") && At(record, "tool") == At(v, "tool")
               && At(record, "tool_version") == At(v, "tool_version")
               && At(record, "path") == Str(Chars("record/verdict.json"))
               && At(record, "sha256") == Str(sha(r.verdict)) && At(record, "size") == Int(|r.verdict|)
  {
    var m := AcceptedIsSealable(f, b, sha, crc);
    var r := Inspect(f, b, sha, crc).value;
    var v := JsonDocument.LoadObject(f, r.verdict).value;
    ManifestOfExact(f, r.manifestBytes, m);
    ManifestFields(m);
    RecordFields(m.record);
    RecordWords(m.record);
    RecordIsOwn(v, r.verdict, sha, m.record);
    BoundDigests(m.context, v);
    BoundRevisions(m.context, v);
  }

  /** Its context is well formed, its authentication names the algorithm and the key, and its material rows are those of
      the materials it carries, in strict order of their roles. */
  lemma AcceptedIsDescribed(f: Floats, b: Text, sha: Hash, crc: Zip.Crc)
    requires Inspect(f, b, sha, crc).Some?
    ensures var r := Inspect(f, b, sha, crc).value;
            && JsonDocument.LoadObject(f, r.manifestBytes).Some?
            && var j := JsonDocument.LoadObject(f, r.manifestBytes).value;
               var c, auth, items := At(j, "context"), At(j, "authentication"), At(j, "materials");
               && At(j, "format") == Str(Chars("EVOGUARD_EVIDENCE_BUNDLE_V1"))
               && LowerHex(At(c, "candidate_sha256"), 64) && LowerHex(At(c, "policy_sha256"), 64)
               && LowerHex(At(c, "guard_artifact_sha256"), 64)
               && Revision(At(c, "base_sha")) && Revision(At(c, "head_sha"))
               && Revision(At(c, "base_tree_sha")) && Revision(At(c, "head_tree_sha"))
               && Line(At(c, "repository"), 512) && Line(At(c, "repository_id"), 256) && Line(At(c, "run_id"), 256)
               && At(c, "run_attempt").Int? && 1 <= At(c, "run_attempt").n <= 2147483647
               && At(auth, "algorithm") == Str(Chars("Ed25519"))
               && At(auth, "purpose") == Str(Chars("evoguard-evidence-envelope"))
               && At(auth, "signature_path") == Str(Chars("bundle.sig"))
               && items.Arr? && |items.items| == |r.materials| <= 32
               && (forall i | 0 <= i < |r.materials| ::
                     && At(items.items[i], "role") == Str(r.materials[i].row.role)
                     && At(items.items[i], "path") == Str(MaterialPath(i, r.materials[i].row.role))
                     && At(items.items[i], "sha256") == Str(sha(r.materials[i].data))
                     && At(items.items[i], "size") == Int(|r.materials[i].data|))
               && (forall i, k | 0 <= i < k < |r.materials| ::
                     Less(r.materials[i].row.role, r.materials[k].row.role))
  {
    var m := AcceptedIsSealable(f, b, sha, crc);
    var r := Inspect(f, b, sha, crc).value;
    ManifestOfExact(f, r.manifestBytes, m);
    ManifestFields(m);
    AuthenticationFields(m.keyId);
    ContextDigests(m.context);
    ContextRevisions(m.context);
    ContextRun(m.context);
    forall i | 0 <= i < |r.materials|
      ensures At(RowsJson(m.rows)[i], "role") == Str(r.materials[i].row.role)
              && At(RowsJson(m.rows)[i], "path") == Str(MaterialPath(i, r.materials[i].row.role))
              && At(RowsJson(m.rows)[i], "sha256") == Str(sha(r.materials[i].data))
              && At(RowsJson(m.rows)[i], "size") == Int(|r.materials[i].data|)
    {
      RowFields(i, m.rows[i]);
      assert m.rows[i] == r.materials[i].row;
    }
    ListedIsSorted(r.materials);
  }

  /** A role: a lower-case letter, then at most 63 lower-case letters, digits, underscores, dots and hyphens. */
  ghost predicate RoleText(r: Text) {
    && 1 <= |r| <= 64 && 'a' as int <= r[0] <= 'z' as int
    && forall i | 0 <= i < |r| :: || 'a' as int <= r[i] <= 'z' as int || '0' as int <= r[i] <= '9' as int
                                  || r[i] == '_' as int || r[i] == '.' as int || r[i] == '-' as int
  }

  /** Its parts are within the published limits: 1 MiB of manifest, 8 MiB of verdict, 32 materials of 32 MiB, and
      64 MiB in all; the signature has 64 bytes. */
  lemma AcceptedWithinLimits(f: Floats, b: Text, sha: Hash, crc: Zip.Crc)
    requires Inspect(f, b, sha, crc).Some?
    ensures var r := Inspect(f, b, sha, crc).value;
            && |r.manifestBytes| <= 1_048_576 && |r.verdict| <= 8_388_608 && |r.signature| == 64
            && |r.materials| <= 32 && |r.verdict| + Total(r.materials) <= 67_108_864
            && forall i | 0 <= i < |r.materials| ::
                 RoleText(r.materials[i].row.role) && |r.materials[i].data| <= 33_554_432
  {
    var m := AcceptedIsSealable(f, b, sha, crc);
    var r := Inspect(f, b, sha, crc).value;
    WithinLimits(|r.verdict|, r.materials);
  }

  lemma WithinLimits(start: nat, s: seq<Loaded>)
    requires Collectable(start, s)
    ensures |s| <= 32 && start + Total(s) <= 67_108_864
    ensures forall i | 0 <= i < |s| :: RoleText(s[i].row.role) && |s[i].data| <= 33_554_432
  {
    forall i | 0 <= i < |s| ensures RoleText(s[i].row.role) && |s[i].data| <= 33_554_432 {
      assert Acceptable(s[i]);
      RoleIsText(s[i].row.role);
    }
  }

  lemma RoleIsText(r: Text)
    ensures IsRole(r) <==> RoleText(r)
  {
  }

  // ----- created bundles

  /** The same of every created bundle, with the context, the key and the verdict that were given; the signature is that
      of the format name, a zero byte and the manifest. */
  lemma CreatedIsBound(i: Input, t: Tools)
    requires IsKeyId(i.keyId) && Hashing(t.sha) && Create(i, t).Some?
    ensures var c := Create(i, t).value;
            && JsonDocument.LoadObject(t.floats, c.manifestBytes).Some?
            && JsonDocument.LoadObject(t.floats, i.verdict).Some?
            && c.signature == t.sign(Chars("EVOGUARD_EVIDENCE_BUNDLE_V1") + [0] + c.manifestBytes)
            && var j, v := JsonDocument.LoadObject(t.floats, c.manifestBytes).value,
                           JsonDocument.LoadObject(t.floats, i.verdict).value;
               var a, record := At(v, "attestation"), At(j, "record");
               && At(j, "context") == i.context && At(At(j, "authentication"), "key_id") == Str(i.keyId)
               && At(i.context, "candidate_sha256") == At(a, "candidate_sha256")
               && At(i.context, "policy_sha256") == At(a, "policy_sha256")
               && At(i.context, "verifier_pack_sha256") == At(a, "verifier_pack_sha256")
               && (At(a, "base_sha") != Null ==> At(i.context, "base_sha") == At(a, "base_sha"))
               && (At(a, "head_sha") != Null ==> At(i.context, "head_sha") == At(a, "head_sha"))
               && (At(a, "base_tree_sha") != Null ==> At(i.context, "base_tree_sha") == At(a, "base_tree_sha"))
               && (At(a, "head_tree_sha") != Null ==> At(i.context, "head_tree_sha") == At(a, "head_tree_sha"))
               && At(record, "schema_version") == At(v, "schema_version") && At(record, "tool") == At(v, "tool")
               && At(record, "tool_version") == At(v, "tool_version")
               && At(record, "sha256") == Str(t.sha(i.verdict)) && At(record, "size") == Int(|i.verdict|)
  {
    RoundTrip(i, t);
    var c := Create(i, t).value;
    AcceptedIsBound(t.floats, c.archive, t.sha, t.crc);
    var m := CreateParts(i, t);
    ManifestOfExact(t.floats, c.manifestBytes, m);
    ManifestFields(m);
    AuthenticationFields(m.keyId);
  }

  /** Creation refuses every context that says something else than the attestation. */
  lemma UnboundIsRefused(i: Input, t: Tools, v: Json)
    requires IsKeyId(i.keyId) && Hashing(t.sha) && JsonDocument.LoadObject(t.floats, i.verdict) == Some(v)
    requires var a := At(v, "attestation");
             || At(i.context, "candidate_sha256") != At(a, "candidate_sha256")
             || At(i.context, "policy_sha256") != At(a, "policy_sha256")
             || At(i.context, "verifier_pack_sha256") != At(a, "verifier_pack_sha256")
             || (At(a, "head_sha") != Null && At(i.context, "head_sha") != At(a, "head_sha"))
    ensures Create(i, t).None?
  {
    if Create(i, t).Some? { CreatedIsBound(i, t); }
  }
}
