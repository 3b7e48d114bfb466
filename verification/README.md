# Evidence gate: a verified model

This project models the parts of an evidence gate that decide whether a record can be trusted: the two-file publication
of benchmark evidence with rollback, the canonical containers (JSON, stored ZIP, base64, length-framed digests), the
derivation of a change from raw Git trees, the cleanup state machines around black-box runs and the external verifier,
and the algorithms and arithmetic behind patch minimisation, diff coverage and benchmark metrics.

Each module follows one component. Code that works by changing things step by step is modelled by classes and by methods
with loops, and every such method is tied to a specification function or states its property outright; code that only
computes is modelled by functions, with lemmas about them. Exceptions are result datatypes. SHA-256, CRC-32, Ed25519 and
the square root are parameters: SHA-256 is assumed injective only in `Publication.OnlyWholePairsVerify`, and the framing
results speak of digest pre-images, so they need no assumption about it. Arithmetic on floats is exact real arithmetic;
a float in a JSON document is known by the text that prints it.

| module | component |
|---|---|
| `Publication` | pair publication, rollback, crash states |
| `Json`, `JsonDocument`, `JsonLoaded`, `Utf8`, `Ordering`, `Paths` | canonical JSON and the strict decoder; text orders and paths |
| `JsonGrammar`, `JsonSound`, `JsonComplete`, `JsonSpelling` | the grammar of RFC 8259 as a relation; parser and grammar agree; what the canonical spelling is |
| `Zip`, `Base64`, `BundleManifest`, `BundleOrder`, `Bundle`, `BundleInspection` | evidence bundles, bytes to bytes |
| `BundleWire`, `ZipWire`, `FramingWire` | the same formats by field names, byte positions and literal texts, independently of the code that writes them |
| `Framing`, `Chunks`, `PackWalk`, `PackOrder` | length-framed digests; checkout walk against raw Git |
| `CatFile`, `GitBinding`, `ReleasePromotion` | Git batch parser, Git binding records, version substitution |
| `TreeDiff`, `Candidate` | raw-Git derivation of a change |
| `BlackboxPack`, `BlackboxCleanup`, `VerifierDriver` | one judged pack and its cleanup chain; process with two reader threads |
| `PatchMin`, `DiffCoverage`, `Metrics`, `MetricsMeaning` | minimisation, coverage totals, benchmark metrics and what they count |

## Main results

- **Publication.** For every fault plan (any subset of calls may fail, rollback and cleanup included), one call publishes
  both files, or changes nothing, or rolls back. The rollback fails if and only if one of its own steps fails. After a
  rollback the two names show exactly their old bytes if and only if the plan fails none of the removals that were made
  behind a link; a plan under which link and removal never come apart always gives all or nothing, and so does every
  plain replacement. Every crash state shows each file old or new, and of all of them only the complete old and the
  complete new pair verify. Every other name that was there keeps its file and its bytes, whatever its spelling and
  whatever fails, and every name that is new is one the call drew and created. Behind a finished cleanup at most one such
  name stays, and one stays if and only if the plan abandons a creation. A request that is not refused is a linked pair:
  every result row carries the run id of the manifest, which records the digest, size and row count of the results.
  Without a fault it is refused for one of the listed reasons and for no other.
- **Bundles.** `inspect_evidence_bundle` accepts exactly the byte strings that `create_evidence_bundle` can write, and
  returns what was put in, for every verdict, floats included. Creation succeeds if and only if verdict, context,
  materials, manifest size and signature are acceptable. The order of the materials is irrelevant, equal contents mean
  equal bytes, and the archive and central-directory limits cannot be hit. In every created and every accepted bundle the
  context repeats the three digests of the verdict's attestation and each revision the attestation gives, field by field
  as texts, and the record repeats the verdict's own digest, size, schema and tool; creation refuses any other context.
  Every byte of the archive has its place spelled out.
- **Canonical JSON.** Strict decoding undoes canonical printing on every tree without surrogates, a value has exactly one
  canonical document, and every document that loads has one, which loads to the same value. The parser accepts exactly
  the spellings of the RFC 8259 grammar, and the strict decoder exactly its documents within the number and depth limits
  and without surrogates. The canonical document has its keys in strictly increasing order, no space outside strings,
  lower-case escapes, and no spelling of a value without floats in printable ASCII is shorter.
- **Pack digests.** A pack has the same digest pre-image in its checkout and in raw Git if and only if its names are in
  order at every level, a condition on sibling names alone.
- **Raw Git.** Derived path lists are exactly the difference of the trees; the validator accepts exactly the payloads that
  some pair of differing trees produces; candidate blocks and deletions rebuild the head if and only if no file became a
  directory.
- **Black-box runs.** `run_blackbox` returns a passed verdict if and only if an unchanged pack was judged with exit code
  zero and a report in which every test passed, over unchanged harness inputs, and no cleanup stage failed. A control
  exception that comes first is raised as it is, wherever it comes from; a verdict is returned after a failure only for a
  container cleanup error or an ordinary workspace exception.
- **Verifier driver.** Over every interleaving, a result is returned only if it is the complete standard output of a
  run that exited with zero, in time and fully cleaned up, and a run that returns exists whenever both streams fit.
- **Metrics.** Every reported rate is a share of rows, named by the rows it counts and the rows it is taken of, and the
  Wilson bounds are the two proportions that lie exactly z of their own standard errors from the observed one.

## Where the code does less than one would expect

- A link that succeeds and a removal of the staging name that then fails leave the new file under the target although it
  does not count as published, so no rollback removes it. This can happen when a file is created or initialised, never
  when both are replaced (`Publication.FailedUnlinkLeavesLink` runs a whole call into this state; the exact condition is
  `SomeFails(attempts)` in `Guarantees`, which `Publication.Publisher.PublishPair` promises).
- A staging file that was created is not removed when the fstat behind its creation fails, so this one fault leaves it on
  disk for good (`Publication.FailedStatLeavesFile` runs a whole call into this state). A file stays exactly when that
  fstat fails, or its write fails and the removal behind the write too (`Abandons`, likewise).
- Payloads above 8 MiB pass the checks and are refused only when they are read back, so a fault-free call moves them into
  place and rolls them back (`Publication.OversizedIsRolledBack`).
- The encoder accepts a string with a high surrogate directly followed by a low one; the decoder returns one code point.
  The round trip of an accepted tree holds if and only if it contains no surrogate (`JsonDocument.RoundTrip`).
- The two pack digests differ on accepted packs: "test_b.py" beside "a/x" is one (`PackWalk.AcceptedPackDiffers`). They
  agree if and only if, at every level, each file sorts before "n/" for each directory n, the directories stay in order
  when a slash is added to their names, and each directory sorts before "n/" for each sibling n that has subdirectories
  (`PackOrder.DigestsAgreeByNames`).
- Rebuilding the head from candidate blocks and deletions fails if and only if a file of the base has become a directory
  (`Candidate.FileBecomesDirectory`).
- `_safe_member_name` accepts the single dot, which is its own normal form and has no parts
  (`BundleManifest.SafeNameExactly`).

## Model

| member | source | states |
|---|---|---|
| `Publication.Publisher.PublishPair` | benchmarks/run_manifest.py:3093-3336 | for every fault plan: published, refused unchanged, or rolled back; what is not refused is a linked pair (every row's run id, digest, size and row count are those the manifest records), meets no occupied target without replacement, no half pair and no shared file, and initialises exactly the recorded results; without faults there is no other reason to refuse; rolled back shows the old pair iff the plan fails no removal behind a link; the rollback fails iff one of its own steps does; crash states show each file old or new; every other entry keeps its file and bytes and every new name was drawn and created by the call; a staging file is left iff the plan abandons a creation |
| `Publication.Publisher.CheckAndPublish` | benchmarks/run_manifest.py:3093-3336 | the same with acceptance as the checks are written: not refused only if they admit the request, and refused without a fault only if they do not |
| `Publication.Publisher.PublishIf` | benchmarks/run_manifest.py:3219-3336 | the same behind the checks, for an admitted or a refused request |
| `Publication.Publisher.AttemptAndCleanUp` | benchmarks/run_manifest.py:3219-3336 | the same for the try statement alone; the rollback error is reported iff a handler step failed, and the frame with what is left after a finished or a broken-off cleanup |
| `Publication.Publisher.FinallyCleanUp` | benchmarks/run_manifest.py:3328-3336 | the finally block behind the rest: the frame of all of it, and the remaining names when it finishes |
| `Publication.Publisher.Attempt` | benchmarks/run_manifest.py:3223-3327 | the try block with its handler: the rollback error is reported iff a handler step failed; the staging files it made, and nothing else changed besides them and the targets |
| `Publication.Publisher.TryPublish` | benchmarks/run_manifest.py:3223-3284 | the try block: which moves were made when it stopped, with everything staged before the first move |
| `Publication.Publisher.StageAll` | benchmarks/run_manifest.py:3224-3229 | new and old bytes are staged under fresh names of this call, and no existing entry changes |
| `Publication.Publisher.StageOld` | benchmarks/run_manifest.py:3226-3229 | the rollback copies, behind the new files, which stay intact |
| `Publication.Publisher.MoveBoth` | benchmarks/run_manifest.py:3243-3253 | the two moves: disk, flags and crash states for every point of failure |
| `Publication.Publisher.MoveManifest` | benchmarks/run_manifest.py:3247-3253 | the check between the moves and the second move, for every point of failure |
| `Publication.Publisher.Confirm` | benchmarks/run_manifest.py:3254-3284 | succeeds only if both files read back exactly and within their limits |
| `Publication.Publisher.Handle` | benchmarks/run_manifest.py:3285-3327 | succeeds iff none of its own steps fails, and then the old pair is visible again except for a link left behind; changes nothing but the targets and this call's files |
| `Publication.Publisher.RollBack` | benchmarks/run_manifest.py:3285-3327 | each published target is put back or left exactly as found, from an arbitrary disk state; success iff both identities match and no step fails |
| `Publication.Publisher.Restore` | benchmarks/run_manifest.py:3020-3051 | a target is replaced or removed only if it still has the published identity; success iff it has, the old bytes are staged and no step fails |
| `Publication.Publisher.SyncParents` | benchmarks/run_manifest.py:3309-3323 | both parents are attempted; success iff no step fails |
| `Publication.Publisher.PublishStaged` | benchmarks/run_manifest.py:2691-2733 | rename, or link plus removal; when the file counts as published, when a link is left behind, and success iff the identities match and nothing fails |
| `Publication.Publisher.LinkAndRemove` | benchmarks/run_manifest.py:2721-2731 | link and removal: moved, unchanged, or linked under both names, the last exactly when the removal fails |
| `Publication.Publisher.Link` | benchmarks/run_manifest.py:2720-2730 | a link never replaces an existing name |
| `Publication.Publisher.UnlinkLinked` | benchmarks/run_manifest.py:2731-2731 | the removal behind a link, recorded with its place in the plan |
| `Publication.Publisher.Unlink` | benchmarks/run_manifest.py:2485-2492 | a missing name is not an error |
| `Publication.Publisher.AssertIdentity` | benchmarks/run_manifest.py:2562-2583 | passes only if the name still has the staged identity |
| `Publication.Publisher.Read` | benchmarks/run_manifest.py:2960-3009 | returns the visible bytes only within the limit |
| `Publication.Publisher.Allocate` | benchmarks/run_manifest.py:2524-2545 | an exclusive creation under a drawn name that did not exist, or nothing; names run out only where a drawn one was in use or repeats |
| `Publication.Publisher.TryCreate` | benchmarks/run_manifest.py:2524-2543 | one attempt: a file under the next name, a name in use, or a failure |
| `Publication.Publisher.Stage` | benchmarks/run_manifest.py:2495-2559 | a fresh staging file with exactly the payload, or nothing but what could not be removed again |
| `Publication.Publisher.Fill` | benchmarks/run_manifest.py:2546-2559 | fstat and write behind a creation: the file stays behind iff the fstat fails, or the write and its removal do |
| `Publication.Publisher.Stat` | benchmarks/run_manifest.py:2546-2546 | the fstat behind a creation, recorded with its place in the plan |
| `Publication.Publisher.Write` | benchmarks/run_manifest.py:2547-2554 | the whole payload is written, or the file is discarded |
| `Publication.Publisher.Discard` | benchmarks/run_manifest.py:2552-2554 | a partial staging file is removed, or remains iff the removal fails too |
| `Publication.Publisher.CleanUp` | benchmarks/run_manifest.py:2586-2596 | removes exactly the staging entries and never a visible file |
| `Publication.Publisher.Preflight` | benchmarks/run_manifest.py:3103-3217 | admits exactly the requests that satisfy the argument, mode, identity and size checks |
| `Publication.FailedUnlinkLeavesLink` | benchmarks/run_manifest.py:2720-2733 | a whole call on an empty disk, failing nothing but removals behind a link, reports a rollback and leaves one new file visible without the other |
| `Publication.FailedStatLeavesFile` | benchmarks/run_manifest.py:2546-2559 | a whole call on an empty disk, failing nothing but the fstat behind a creation, reports a rollback, finishes its cleanup and leaves one staging file |
| `Publication.OversizedIsRolledBack` | benchmarks/run_manifest.py:3254-3284 | a fault-free call with an oversized payload ends rolled back, with no name on the disk |
| `Publication.OnlyWholePairsVerify` | benchmarks/run_manifest.py:3932-3941 | of all old/new mixtures exactly the whole old and the whole new pair pass the result-digest comparison |
| `JsonDocument.ParsePrint` | evoom_guard/evidence_bundle.py:189-204 | parsing a printed value returns it and stops behind it, or fails exactly when a number is too long |
| `JsonDocument.CheckNesting` | evoom_guard/strict_json.py:20-44 | the scanning loop computes the nesting condition |
| `JsonDocument.ScanPrint` | evoom_guard/strict_json.py:20-44 | on printed text the scan accepts exactly the trees within the depth limit |
| `JsonDocument.LoadPrint` | evoom_guard/strict_json.py:97-120 | strict decoding of canonical text returns the tree within the limits and refuses it otherwise |
| `JsonDocument.RoundTrip` | evoom_guard/evidence_bundle.py:189-204 | an accepted tree survives encoding and decoding iff it contains no surrogate |
| `JsonDocument.CanonicalExists` | evoom_guard/evidence_bundle.py:189-204 | the encoder accepts a surrogate-free tree iff its numbers and its depth are within the limits |
| `JsonDocument.SurrogatePairIsMerged` | evoom_guard/evidence_bundle.py:189-204 | an object holding a two-surrogate string is accepted and comes back with one code point in its place |
| `JsonDocument.LoadCanonical` | evoom_guard/evidence_bundle.py:207-214 | an object, floats included, survives the way through ASCII bytes |
| `JsonDocument.CanonicalUnique` | evoom_guard/evidence_bundle.py:871-872 | bytes pass the canonical check and load to a value iff they are its canonical document |
| `JsonSound.ValueSound` | evoom_guard/strict_json.py:47-120 | whatever the parser reads is a spelling of the value it returns, in the grammar of RFC 8259 |
| `JsonComplete.ValueComplete` | evoom_guard/strict_json.py:47-120 | every spelling of a value in the grammar is read as that value |
| `JsonComplete.ParserIsGrammar` | evoom_guard/strict_json.py:47-120 | the two together: the parser reads a value up to a place iff the grammar spells it up to there |
| `JsonComplete.StrictLoadsExactly` | evoom_guard/strict_json.py:79-120 | a text loads as a value iff it is a document of the grammar for it, without surrogates and at most 256 levels deep |
| `JsonSpelling.Shortest` | evoom_guard/evidence_bundle.py:189-204 | no spelling of a float-free value in printable ASCII is shorter than the printed one |
| `JsonSpelling.CanonicalIsShortest` | evoom_guard/evidence_bundle.py:189-204 | no document in printable ASCII that loads to the value is shorter than its canonical one without the final line break |
| `JsonSpelling.EscapesAreLower` | evoom_guard/evidence_bundle.py:189-204 | a printed string has exactly the upper-case letters of the string itself, so escapes are in lower case |
| `JsonSpelling.KeysInOrder` | evoom_guard/evidence_bundle.py:189-204 | in the text of an object its keys occur in strictly increasing order, each once |
| `JsonSpelling.CanonicalIsDense` | evoom_guard/evidence_bundle.py:189-204 | a canonical document has no space, tab or line break outside strings but the final line break |
| `JsonLoaded.ParsedIsNormal` | evoom_guard/strict_json.py:60-120 | every number of a parsed value is within its limit and every float in the form that prints it |
| `JsonLoaded.ScanParsed` | evoom_guard/strict_json.py:20-44 | the nesting scan accepts a text iff the value parsed from it is within the depth limit, strings and spaces included |
| `JsonLoaded.CanonicalKeepsValue` | evoom_guard/evidence_bundle.py:189-214 | every loaded document can be put into canonical form, and that loads to the same value |
| `Json.ParsePrintInt` | evoom_guard/strict_json.py:71-76 | a printed integer is read back iff it has at most 128 digits |
| `Json.ParsePrintFloat` | evoom_guard/strict_json.py:60-68 | a printed float is read back iff it has at most 256 characters |
| `Json.ParsePrintString` | evoom_guard/evidence_bundle.py:189-204 | an ASCII-escaped string is read back, supplementary code points included |
| `Utf8.DecodeEncode` | evoom_guard/strict_json.py:79-94 | UTF-8 decoding undoes encoding on all scalar texts |
| `Utf8.EncodeDecode` | evoom_guard/evidence_bundle.py:207-214 | only the shortest encoding decodes, so decoding loses nothing |
| `Utf8.EncodeMonotone` | evoom_guard/candidate/identity.py:81-84 | the order of UTF-8 bytes is the order of code points |
| `Utf8.SyntaxExactly` | evoom_guard/strict_json.py:79-94 | a code point is decoded iff one of the byte sequences of section 4 of RFC 3629 stands in front, and it takes exactly those bytes |
| `Ordering.LessExactly` | evoom_guard/evidence_bundle.py:189-204 | one text sorts before another iff at the first place where they differ it ends or has the smaller code point |
| `Zip.ArchiveBytes` | evoom_guard/evidence_bundle.py:391-401 | the member loop writes exactly the specified local headers, directory and end record |
| `Zip.DirectoryReadsBack` | evoom_guard/evidence_bundle.py:845-855 | reading the central directory returns every entry with its metadata and offset |
| `Zip.MembersReadBack` | evoom_guard/evidence_bundle.py:686-701 | every member is found at its recorded offset with its exact bytes and checksum |
| `Zip.PreflightArchive` | evoom_guard/evidence_bundle.py:704-739 | on a written archive the preflight returns the member count iff the count and directory limits hold |
| `Zip.ArchiveInjective` | evoom_guard/evidence_bundle.py:391-401 | archive bytes determine the members, their names, contents and order |
| `ZipWire.MemberOnWire` | evoom_guard/evidence_bundle.py:383-401 | in every archive, the bytes of each local header, name, content and central header, and where they lie |
| `ZipWire.EndOnWire` | evoom_guard/evidence_bundle.py:391-401 | the end record with its counts and offsets, and that the sections leave no gap |
| `Base64.DecodeEncode` | evoom_guard/evidence_bundle.py:549-553 | decoding undoes encoding |
| `Base64.EncodedAt` | evoom_guard/evidence_bundle.py:549-553 | every character is the letter of its six bits in Table 1 of RFC 4648, or padding behind the last byte |
| `Base64.CanonicalUnique` | evoom_guard/evidence_bundle.py:955-967 | with the re-encoding check a byte string has exactly one accepted text |
| `Base64.DecoderAloneIsAmbiguous` | evoom_guard/evidence_bundle.py:962-967 | why that check is needed: two texts decode to the same byte |
| `BundleManifest.ManifestExact` | evoom_guard/evidence_bundle.py:870-929 | the inspector's manifest checks accept exactly the objects built from valid parts, and recover the parts |
| `BundleManifest.AuthenticationExact` | evoom_guard/evidence_bundle.py:404-423 | the authentication object is accepted iff it is the one built for a valid key id |
| `BundleManifest.RecordExact` | evoom_guard/evidence_bundle.py:883-895 | the record object is accepted iff it is built from a valid record |
| `BundleManifest.RowExact` | evoom_guard/evidence_bundle.py:901-915 | a material row is accepted iff it is built from a valid row at its index |
| `BundleManifest.CheckMaterials` | evoom_guard/evidence_bundle.py:897-920 | the loop with its set of declared paths reads exactly the valid rows; the duplicate-path refusal never happens |
| `BundleManifest.PathsDiffer` | evoom_guard/evidence_bundle.py:909-920 | the index is recoverable from a material path |
| `BundleManifest.PathIsSafe` | evoom_guard/evidence_bundle.py:657-665 | every generated material path is a safe member name |
| `BundleManifest.SafeNameExactly` | evoom_guard/evidence_bundle.py:657-665 | a name is accepted iff it is the single dot or consists of proper components without the three refused characters |
| `BundleManifest.ObjectExact` | evoom_guard/evidence_bundle.py:278-284 | an object is determined by its exact keys and their values |
| `BundleManifest.NameInjective` | evoom_guard/evidence_bundle.py:60-77 | no two keys of the format are spelled alike |
| `BundleManifest.ManifestEncodable` | evoom_guard/evidence_bundle.py:533-540 | a valid manifest is within every limit of the canonical encoder |
| `BundleOrder.CollectMaterials` | evoom_guard/evidence_bundle.py:489-507 | the loop with its running total accepts exactly the materials within the count, role, size and total limits |
| `BundleOrder.OneArrangement` | evoom_guard/evidence_bundle.py:509-515 | lists sorted strictly by role with the same elements are equal |
| `BundleOrder.SortSorts` | evoom_guard/evidence_bundle.py:509-512 | sorting by role, digest and size orders distinct roles strictly |
| `BundleOrder.SortElements` | evoom_guard/evidence_bundle.py:509 | sorting keeps the rows |
| `BundleOrder.ListedIsSorted` | evoom_guard/evidence_bundle.py:921-929 | in canonical order without repeated roles means strictly sorted by role |
| `Bundle.LimitsUnreachable` | evoom_guard/evidence_bundle.py:563-573 | within the earlier limits the archive, member-count and central-directory limits always hold |
| `Bundle.PackSucceeds` | evoom_guard/evidence_bundle.py:540-573 | once the materials are collected, only the manifest size and the shape of the signature can still refuse |
| `Bundle.CreationSucceeds` | evoom_guard/evidence_bundle.py:444-573 | creation succeeds iff verdict, context and materials are acceptable, the manifest is within its limit and the signer returns 64 bytes |
| `Bundle.CreateIsSeal` | evoom_guard/evidence_bundle.py:444-573 | creation refuses an unacceptable input and otherwise seals the manifest of its sorted materials |
| `Bundle.OrderIrrelevant` | evoom_guard/evidence_bundle.py:444-573 | permuted materials give the same outcome and the same bytes |
| `BundleInspection.RoundTrip` | evoom_guard/evidence_bundle.py:837-1004 | inspecting what was created returns the manifest bytes, signature, verdict and sorted materials, for every verdict that loads |
| `BundleInspection.AcceptedIsSealable` | evoom_guard/evidence_bundle.py:837-1004 | every accepted bundle is the archive of its own valid parts |
| `BundleInspection.SealableIsCreated` | evoom_guard/evidence_bundle.py:444-573 | creating from such parts gives back exactly these bytes |
| `BundleInspection.AcceptedExactly` | evoom_guard/evidence_bundle.py:837-1004 | inspection accepts a byte string iff creation can write it for some input and signer |
| `BundleWire.AcceptedIsBound` | evoom_guard/evidence_bundle.py:837-1004 | in every accepted bundle the context holds the same candidate_sha256, policy_sha256 and verifier_pack_sha256 as the attestation of the verdict, and the same base_sha, head_sha, base_tree_sha and head_tree_sha wherever it gives one; the record holds the digest, size, schema_version, tool and tool_version of the verdict |
| `BundleWire.AcceptedIsDescribed` | evoom_guard/evidence_bundle.py:870-929 | every field of an accepted manifest by its name: format, context formats and ranges, authentication, and for each material its role, path, digest and size in strict order of roles |
| `BundleWire.AcceptedWithinLimits` | evoom_guard/evidence_bundle.py:47-56 | an accepted bundle is within 1 MiB of manifest, 8 MiB of verdict, 32 materials of 32 MiB and 64 MiB in all, and its roles have the published form |
| `BundleWire.CreatedIsBound` | evoom_guard/evidence_bundle.py:444-573 | the same of every created bundle, with the given context, key and verdict; the signed bytes are the format name, a zero byte and the manifest |
| `BundleWire.UnboundIsRefused` | evoom_guard/evidence_bundle.py:343-363 | creation refuses every context that disagrees with the attestation in one of these fields |
| `BundleWire.BoundIf` | evoom_guard/evidence_bundle.py:343-363 | nothing but the agreement of these fields is asked of a context beside a verdict |
| `BundleWire.WellFormedIf` | evoom_guard/evidence_bundle.py:287-341 | nothing but the formats of the named fields is asked of a context by itself |
| `BundleWire.RecordIsOwn` | evoom_guard/evidence_bundle.py:426-441 | the record made for a verdict repeats that verdict's own words |
| `BundleWire.MaterialPlace` | evoom_guard/evidence_bundle.py:517-524 | a material lies below "materials/" under its index in at least three digits and its role |
| `BundleInspection.SameContentsSameBytes` | evoom_guard/evidence_bundle.py:994-997 | two accepted snapshots with equal contents are byte-equal |
| `BundleInspection.ListingOf` | evoom_guard/evidence_bundle.py:840-864 | an archive within the limits with safe, distinct names passes preflight, listing and metadata checks |
| `BundleInspection.ReadMaterials` | evoom_guard/evidence_bundle.py:975-992 | the last loop returns the materials iff every one matches its row |
| `Framing.FrameUnique` | evoom_guard/pack_manifest.py:209-218 | a length frame at the front of a byte string can be cut off in one way only |
| `FramingWire.BigEndianAt` | evoom_guard/pack_manifest.py:209-218 | byte i of a length of k bytes is the digit of weight 256 to the power k - 1 - i |
| `Framing.FramedPreimageUnique` | benchmarks/run_manifest.py:490-501 | under one domain, framed entry lists have equal pre-images iff they are equal |
| `Framing.FramedDigest` | benchmarks/run_manifest.py:490-501 | the update loop feeds exactly the framed pre-image |
| `Framing.PackPreimageUnique` | evoom_guard/pack_manifest.py:209-258 | pack inventories have equal pre-images iff they list the same directories and files in the same order |
| `FramingWire.PackSpelled` | evoom_guard/pack_manifest.py:209-258 | the pre-image of every inventory as text: header with a zero byte, a D record per directory, an F record per file with its framed bytes |
| `Framing.HashPackFile` | evoom_guard/pack_manifest.py:221-244 | accepts iff sizes are within the limits and the bytes read agree with the framed size; then appends the file record |
| `Framing.DigestInventory` | evoom_guard/pack_manifest.py:247-258 | the loops produce exactly the inventory pre-image, or refuse iff a file is unreadable |
| `Framing.HashFiles` | evoom_guard/pack_manifest.py:247-258 | the file loop with its running total |
| `Framing.IdentityInjective` | evoom_guard/candidate/identity.py:95-123 | distinct maps of byte strings have distinct identity bytes |
| `FramingWire.IdentitySpelled` | evoom_guard/candidate/identity.py:95-123 | the identity bytes of every map as text: domain with a zero byte, number of files, an F record per path in increasing order |
| `Framing.TextIdentityInjective` | evoom_guard/candidate/identity.py:81-123 | distinct candidate text maps have distinct identity bytes, through their UTF-8 encoding |
| `PackWalk.WalkFilesMembers` | evoom_guard/pack_manifest.py:181-206 | the walk lists exactly the files of the pack |
| `PackWalk.WalkFilesNoRepeats` | evoom_guard/pack_manifest.py:181-206 | and each once |
| `PackWalk.WalkDirectoriesMembers` | evoom_guard/pack_manifest.py:181-206 | the walk lists exactly the directories of the pack |
| `PackWalk.WalkDirectoriesNoRepeats` | evoom_guard/pack_manifest.py:181-206 | and each once |
| `PackWalk.GitDirectoriesAreDirectories` | evoom_guard/finalizer_derivation.py:1697-1747 | the proper prefixes of the members are exactly the directories of a pack without empty ones |
| `PackWalk.DirectoriesAgree` | evoom_guard/finalizer_derivation.py:1697-1747 | both sides frame the same directories, in the same order iff the walk is sorted |
| `PackWalk.FilesAgree` | evoom_guard/finalizer_derivation.py:1697-1747 | both sides frame the same files, in the same order iff the walk is sorted |
| `PackWalk.DigestsAgree` | evoom_guard/finalizer_derivation.py:1697-1747 | the pre-images are equal iff the walk order is full-path sorted |
| `PackWalk.FlatPacksAgree` | evoom_guard/pack_manifest.py:181-206 | packs without subdirectories always agree |
| `PackWalk.NestedPacksDiffer` | evoom_guard/pack_manifest.py:181-206 | a file that sorts after something below a sibling directory makes the digests differ |
| `PackWalk.NestedExample` | evoom_guard/finalizer_derivation.py:1722-1740 | any pack with a file f beside n/r where f sorts after n/r |
| `PackWalk.AcceptedPackDiffers` | evoom_guard/finalizer_derivation.py:1722-1747 | the accepted pack with files "test_b.py" and "a/x" has two different pre-images |
| `PackOrder.FilesSorted` | evoom_guard/pack_manifest.py:181-206 | the walk lists files in full-path order iff at every level each file sorts before "n/" for each directory n, and directories stay in order with a slash added |
| `PackOrder.DirectoriesSorted` | evoom_guard/pack_manifest.py:181-206 | the walk lists directories in full-path order iff at every level siblings sort before "n/" for each n with subdirectories, and such siblings stay in order with a slash added |
| `PackOrder.DigestsAgreeByNames` | evoom_guard/finalizer_derivation.py:1697-1747 | the pre-images are equal iff both conditions on sibling names hold |
| `CatFile.ParseInvertsRender` | benchmarks/run_manifest.py:1443-1495 | for any newline-free queries and any blob bytes the parser returns exact answers and stops at the end |
| `CatFile.FramedIsParsed` | benchmarks/run_manifest.py:1475-1494 | a text that starts with one well-formed answer is parsed as that answer |
| `CatFile.ParsedIsFramed` | benchmarks/run_manifest.py:1475-1494 | whatever is accepted starts with one well-formed answer |
| `CatFile.BlobSizeExactly` | benchmarks/run_manifest.py:1475-1494 | a header announces a blob of n bytes iff it ends in " blob " and decimal digits worth n |
| `CatFile.MissingExactly` | benchmarks/run_manifest.py:1475-1494 | and a missing object iff it ends in " missing" |
| `CatFile.ReadBlobs` | benchmarks/run_manifest.py:1473-1495 | the cursor loop computes the parse, its map of outputs and the end position |
| `CatFile.ReadRendered` | benchmarks/run_manifest.py:1473-1495 | on what Git prints, each found path gets its exact bytes, each missing path none, and the cursor ends at the end |
| `CatFile.ReadOne` | benchmarks/run_manifest.py:1475-1494 | one iteration: answer and next cursor, or refusal |
| `GitBinding.CompareBoundPaths` | benchmarks/run_manifest.py:1616-1640 | the flags say whether all paths are tracked and equal to HEAD |
| `GitBinding.CompareInventory` | benchmarks/run_manifest.py:1642-1656 | the source inventories are equal as sets |
| `GitBinding.CollectGitState` | benchmarks/run_manifest.py:1585-1686 | the record says `git-head` iff every path, the inventory and the worktree match HEAD; each flag is its observation, and the reason is the first observation that goes against the binding |
| `GitBinding.ValidatorExact` | benchmarks/run_manifest.py:3699-3776 | no error iff the record agrees with its own flags |
| `GitBinding.ProjectionAgrees` | benchmarks/run_manifest.py:1689-1719 | the projection of an accepted record is accepted with the same bound flag |
| `GitBinding.AcceptedHasRecord` | benchmarks/run_manifest.py:3432-3501 | every accepted projection comes from an accepted record |
| `GitBinding.AcceptedReason` | benchmarks/run_manifest.py:3432-3501 | the reason in an accepted projection is the first flag that goes against the binding, and it is bound iff all flags are in order |
| `GitBinding.CollectAndValidate` | benchmarks/run_manifest.py:1585-1719 | every collected record passes both validators, bound iff everything matches HEAD |
| `ReleasePromotion.NoSelfOverlap` | benchmarks/run_manifest.py:570-603 | the assignment pattern cannot overlap itself |
| `ReleasePromotion.OnePlace` | benchmarks/run_manifest.py:570-603 | an accepted file changes at exactly one place |
| `ReleasePromotion.DevelopmentOnce` | benchmarks/run_manifest.py:570-603 | the development assignment then occurs exactly once |
| `ReleasePromotion.Reversible` | benchmarks/run_manifest.py:570-603 | substituting back restores the current bytes |
| `ReleasePromotion.DistinctTreesStayDistinct` | benchmarks/run_manifest.py:570-603 | distinct current trees never normalise to the same bundle |
| `ReleasePromotion.PromotedExactly` | benchmarks/run_manifest.py:570-603 | a tree is promoted iff the recorded version is the current X.Y.Z followed by ".dev0" and the version file assigns the current one at one place and the recorded one nowhere; no other file changes |
| `ReleasePromotion.PromotedFile` | benchmarks/run_manifest.py:570-603 | in the version file the line of the current version becomes the line of the recorded one |
| `TreeDiff.ExactDifference` | evoom_guard/finalizer_derivation.py:1432-1466 | derived lists are ordered, disjoint, exactly the disagreeing paths, and rebuild head from base |
| `TreeDiff.ValidatorAcceptsDerived` | evoom_guard/finalizer_derivation.py:1255-1298 | the path relations and the file count of a derived payload are accepted iff the trees differ |
| `TreeDiff.AcceptedExactly` | evoom_guard/finalizer_derivation.py:1255-1298 | the validator accepts a payload iff some pair of differing trees with safe paths produces it |
| `TreeDiff.PathOrdersAgree` | evoom_guard/finalizer_derivation.py:1160-1189 | ordering by UTF-8 bytes and by code points accept the same lists |
| `Candidate.CandidateBlocks` | evoom_guard/finalizer_derivation.py:1568-1636 | succeeds iff every changed path keeps its mode, is a regular blob of at most 1 MiB in UTF-8 and the limits hold, and returns their texts; every refusal has one of these reasons |
| `Candidate.VisitAll` | evoom_guard/finalizer_derivation.py:1583-1636 | the loop over the changed paths: succeeds iff each is representable and the totals fit |
| `Candidate.Visit` | evoom_guard/finalizer_derivation.py:1607-1631 | the chain of checks on one changed path accepts iff the path is representable and the running total is within the limit, and then adds its size and text |
| `Candidate.Reconstruction` | evoom_guard/finalizer_derivation.py:1639-1666 | base with blocks and deletions applied equals head iff no base file became a directory, whatever the order of the walk |
| `Candidate.FileBecomesDirectory` | evoom_guard/finalizer_derivation.py:1658-1666 | concrete trees for which it does not |
| `BlackboxPack.Lifecycle.Execute` | evoom_guard/verifiers/blackbox_pack.py:208-286 | the active flag stays set iff the judge did not return; completed iff the snapshot was unchanged before and after; which exception escapes; terminal in exactly the listed cases, with a verdict that has not passed |
| `BlackboxPack.Interpret` | evoom_guard/verifiers/blackbox_pack.py:289-386 | passed iff exit code zero and a report in which every test passed; ran iff exit code and report agree |
| `BlackboxPack.PackPasses` | evoom_guard/verifiers/blackbox_pack.py:208-386 | the exact condition for a passed pack; an active lifecycle never carries one |
| `BlackboxCleanup.RunBody` | evoom_guard/blackbox.py:1103-1152 | the body and the lifecycle flag that the chain finds |
| `BlackboxCleanup.RunBlackbox` | evoom_guard/blackbox.py:1345-1380 | for every body, pack and combination of failures: each applicable stage is attempted in order; without a failure the body's verdict is returned; a first failure that is a control exception, or comes from the body, a look or the recorder, is raised itself; a container cleanup error returns the pending verdict of an active lifecycle or the container's own error, an ordinary workspace exception the workspace error; later failures become notes |
| `BlackboxCleanup.FirstFailure` | evoom_guard/blackbox.py:1153-1342 | which failure comes first: the body, then each look and its stage in order |
| `BlackboxCleanup.EveryFailureIsKept` | evoom_guard/blackbox.py:1280-1342 | every failing stage is the first failure or noted on it |
| `BlackboxCleanup.Chain.Finish` | evoom_guard/blackbox.py:1153-1342 | the nested finally stages equal the specification of first-failure precedence |
| `BlackboxCleanup.Chain.Observe` | evoom_guard/blackbox.py:816-831 | an exception the caller is already handling never becomes the primary |
| `BlackboxCleanup.Chain.Guarded` | evoom_guard/blackbox.py:1161-1258 | container and recorder stages: a failure becomes the primary or a note on it |
| `BlackboxCleanup.Chain.Workspaces` | evoom_guard/blackbox.py:1260-1342 | both workspaces are removed before any failure is raised, and a deferred primary is raised last |
| `BlackboxCleanup.Chain.RemoveBoth` | evoom_guard/blackbox.py:1261-1278 | the loop attempts both removals and collects their failures in order |
| `BlackboxCleanup.Chain.NoteAll` | evoom_guard/blackbox.py:1280-1301 | every collected failure becomes one note, in order |
| `BlackboxCleanup.EnforceHarness` | evoom_guard/blackbox.py:1025-1066 | a verdict stays passed iff the harness inputs are proven unchanged |
| `BlackboxCleanup.PassedExactly` | evoom_guard/blackbox.py:1345-1380 | a passed result iff the pack passed over unchanged harness inputs and no failure occurred in any look or stage |
| `BlackboxCleanup.PendingIsNotActive` | evoom_guard/blackbox.py:1175-1192 | the verdict that a container cleanup failure may return has not passed |
| `BlackboxCleanup.PassedMeansClean` | evoom_guard/blackbox.py:1345-1380 | passed means every stage succeeded |
| `BlackboxCleanup.Truncate` | evoom_guard/blackbox.py:378-383 | length bound and content of a truncated text |
| `BlackboxCleanup.DetailsBounded` | evoom_guard/blackbox.py:517-541 | diagnostics stay within the bound iff prefix and separators do |
| `VerifierDriver.RunsAreSafe` | evoom_guard/github_attestation.py:1485-1728 | in every state of every run: bounded stream prefixes, no pipe closed under a live reader, a result only with exit code zero, no timeout and the complete standard output, failures cleaned up |
| `VerifierDriver.TimeoutIsFinal` | evoom_guard/github_attestation.py:1580-1680 | a call whose deadline has passed never returns a result |
| `VerifierDriver.NextKeepsInv` | evoom_guard/github_attestation.py:1485-1728 | every step of the readers, the process and the main thread keeps the invariant |
| `VerifierDriver.OriginalIsRaised` | evoom_guard/github_attestation.py:1681-1728 | the first exception after the spawn is the one raised, whatever the cleanup does |
| `VerifierDriver.StreamsAreFixed` | evoom_guard/github_attestation.py:1485-1728 | no run changes the streams or their limits, so a returned result is the process's own output |
| `VerifierDriver.CleanRunReturns` | evoom_guard/github_attestation.py:1485-1728 | some run returns the standard output whenever both streams fit |
| `VerifierDriver.CheckCompletes` | evoom_guard/github_attestation.py:1653-1680 | the final checks leave only complete, clean results of a process that exited with zero |
| `VerifierDriver.Drain` | evoom_guard/github_attestation.py:1543-1560 | the buffer is the stream's prefix of at most maximum + 1 bytes, overflow iff the stream is longer than the maximum |
| `VerifierDriver.DrainIsReceive` | evoom_guard/github_attestation.py:1543-1560 | the drain loop computes what the reader of the machine does with the same chunks |
| `VerifierDriver.JoinAndClose` | evoom_guard/github_attestation.py:1446-1482 | a stream is closed iff its attempted reader stopped; success iff all stopped and closed; when an error is raised |
| `VerifierDriver.JoinAndCloseIsJoin` | evoom_guard/github_attestation.py:1446-1482 | what the two loops promise is a join step of the machine |
| `PatchMin.MinimizePatch` | evoom_guard/patchmin.py:57-102 | terminates within 2 + n(n+1)/2 calls with an order-preserving, passing, 1-minimal result, or an error iff neither the empty nor the whole patch passes |
| `PatchMin.GreedyResult` | evoom_guard/patchmin.py:88-102 | what the restart loop returns, for every predicate |
| `PatchMin.Sweep` | evoom_guard/patchmin.py:95-100 | one sweep finds the first edit whose removal still passes, and counts its evaluations |
| `PatchMin.ProperMissesOne` | evoom_guard/patchmin.py:66-67 | a proper subsequence fits into the list without some single edit |
| `PatchMin.MonotoneMinimal` | evoom_guard/patchmin.py:57-102 | for a monotone predicate no proper subsequence passes |
| `PatchMin.RestartEqualsOnePass` | evoom_guard/patchmin.py:88-102 | for a monotone predicate the restart loop equals one left-to-right pass |
| `DiffCoverage.Classify` | evoom_guard/evidence.py:392-419 | the loop splits the touched code lines into those executed and not excluded, and the others |
| `DiffCoverage.Partition` | evoom_guard/evidence.py:392-419 | they partition the touched code lines; executed is exactly what is reported and not excluded |
| `DiffCoverage.Totals` | evoom_guard/evidence.py:909-943 | totals are per-file sums and the denominator does not depend on the report |
| `DiffCoverage.ExecutedTotalIsCovered` | evoom_guard/evidence.py:909-943 | the executed total is the number of touched code lines, file by file, that the report lists as executed and does not exclude |
| `DiffCoverage.TouchedTotalIsDenominator` | evoom_guard/evidence.py:909-943 | the denominator is the number of touched code lines |
| `DiffCoverage.ExecutedMonotone` | evoom_guard/evidence.py:392-419 | a smaller report or more exclusions never raise the executed total |
| `DiffCoverage.TamperingGainsNothing` | evoom_guard/evidence.py:392-419 | leaving files out of the report or excluding more lines never raises the executed total |
| `DiffCoverage.PercentFalls` | evoom_guard/evidence.py:943-944 | nor the reported percentage, rounded to one decimal |
| `DiffCoverage.PercentInRange` | evoom_guard/evidence.py:943-944 | the percentage is between 0 and 100, and 100 when every touched line counts as executed |
| `DiffCoverage.PercentIsClose` | evoom_guard/evidence.py:943-944 | the percentage is within 0.05 of the exact quotient |
| `Metrics.WilsonContains` | benchmarks/evaluate.py:146-163 | 0 ≤ low ≤ k/n ≤ high ≤ 1 and the clamps are never active |
| `Metrics.WilsonMirrored` | benchmarks/evaluate.py:146-163 | swapping successes and failures mirrors the interval |
| `MetricsMeaning.WilsonIsScoreInterval` | benchmarks/evaluate.py:146-163 | the bounds are the two proportions that lie exactly z of their own standard errors from k/n |
| `Metrics.ReportIsSound` | benchmarks/evaluate.py:166-217 | every reported rate lies in its interval inside [0, 1], and the operational rate is at least the detection rate |
| `MetricsMeaning.RatesMean` | benchmarks/evaluate.py:166-217 | each reported rate is the share of named rows among named rows: which truths and verdicts count and which are the denominator, with the interval of the same counts |
| `Metrics.EvaluateRows` | benchmarks/evaluate.py:225-253 | the metrics of the tally, or the first invalid row; the total is the row count |
| `Metrics.TallyRows` | benchmarks/evaluate.py:228-248 | the counting loop: the tally, or the number of the first invalid row |
| `Metrics.TallyBaseline` | benchmarks/evaluate.py:265-286 | the same for derived baseline predictions |
| `Metrics.SelectViable` | benchmarks/evaluate.py:302-321 | the selection loop keeps exactly the viable rows, in order, iff every label agrees with its baseline |
| `Metrics.TallyEvasions` | benchmarks/evaluate.py:324-338 | the three counters are the tally of the selected rows |
| `Metrics.TallyOfPermutation` | benchmarks/evaluate.py:228-248 | permuted rows have the same tally |
| `Metrics.TotalIsRowCount` | benchmarks/evaluate.py:225-253 | confusion counts plus abstentions equal the row count |
| `Metrics.EvaluationIgnoresOrder` | benchmarks/evaluate.py:225-253 | permuted rows give the same metrics |
| `Metrics.AbstentionsEarnNothing` | benchmarks/evaluate.py:166-217 | dropping every ERROR row leaves accuracy and both error rates unchanged |
| `Metrics.LabelIsDerived` | benchmarks/evaluate.py:97-143 | an accepted baseline record has the label its facts give, and no other label is accepted beside them |
| `Metrics.EvaluateBaselineRows` | benchmarks/evaluate.py:261-291 | equals the row evaluation of the derived predictions |
| `Metrics.EvaluateEvasions` | benchmarks/evaluate.py:299-359 | succeeds iff labels, selection and truths are in order, and then equals the row evaluation of the baseline-accepted evasions |

## Left out

- Windows code paths of the publication, the driver and the readers: only the POSIX branches are modelled.
- Publication.Publisher.PublishPair: does not model asynchronous exceptions between a rename and the `published` flag, other processes changing the targets during the call, durability beyond visible names, the single calls within the write of a staging file (one step, after which any prefix may be there), or the directory-binding check after the pinned block; an exception raised by the cleanup is reported separately from the outcome it would mask.
- Publication.Publisher.Restore: always has the rollback file that every caller stages beforehand.
- The value of a JSON float: a float is known by the text Python prints for it. What `float` makes of a literal is a parameter; that printing and reading are inverse is the hypothesis `Json.Faithful`, or `JsonDocument.Normal` for a given tree.
- JsonSpelling.Shortest: values without floats, since Python does not print a float in the fewest characters, and spellings without the delete character, which the encoder escapes.
- Publication.Publisher.Preflight: the initialization path, parent identities, modification times and the Git checks are abstract steps that may fail, not conditions of the request.
- Zip.DirectoryReadsBack: models the part of the standard library's reader that a comment-free single-disk archive reaches; ZIP64 records, extra-field decoding and version-dependent overlap checks are not modelled.
- BundleInspection.AcceptedExactly: names are compared as bytes, files are given as contents, the semantic record verification before creation and the publication of the archive file are not modelled, and the signer is trusted to report a well-formed key id.
- Signature verification and the external context comparison after inspection: field equality only.
- PackWalk.WalkFilesMembers: the directory walk is a recursive function, not a loop over `os.walk`, and entry-count limits are not modelled.
- CatFile.ParseInvertsRender: sizes are plain decimal digits; other spellings that Python's `int` accepts in the batch header are refused in the model.
- Parsing of `git ls-tree` rows and of raw objects; the model starts from trees as maps.
- ReleasePromotion.DistinctTreesStayDistinct: source-bundle size limits are not modelled.
- Type errors in validators whose fields are already typed in the model.
- GitBinding.CollectAndValidate: the head reported by Git is assumed to be an object id, as the caller checks.
- BlackboxCleanup.RunBlackbox: the preparation before the pack, the judge, its report, the stages and the note texts are inputs; container and file-system work is not modelled.
- BlackboxPack.Interpret: diagnostics, durations and the digest of the report are not modelled.
- DiffCoverage.PercentFalls: the percentage is rounded half to even from the exact quotient; the error of the float division before rounding is not modelled.
- VerifierDriver.RunsAreSafe: waiting, timing and signals are nondeterministic steps; that a run ends is not claimed.
- `parse_unified_diff`, `risk_score` and `changed_lines`: text splitting and `difflib`, with little to prove beyond one branch.
- Metrics.WilsonContains: exact reals; rounding of floating-point results is not modelled.
- Timing summaries, corpus files, command-line plumbing and environment collection.
