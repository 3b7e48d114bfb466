/** Length-framed digest pre-images: `_framed_digest`, the verifier-pack inventory and the candidate
    text map.  SHA-256 itself is not modelled; what it is applied to is, and is uniquely decodable.
    Byte strings are sequences of integers; paths are given as their UTF-8 bytes. */
module Framing {
  import opened Wrappers
  import opened Ordering
  import Chunks
  import Utf8

  // ----- eight-byte lengths

  function Power256(k: nat): (p: nat)
    ensures p > 0
  {
    if k == 0 then 1 else 256 * Power256(k - 1)
  }

  const LENGTH_LIMIT := Power256(8)

  /** `n.to_bytes(k, "big")` */
  function BigEndian(n: nat, k: nat): (b: Text)
    ensures |b| == k
  {
    if k == 0 then [] else BigEndian(n / 256, k - 1) + [n % 256]
  }

  function FromBigEndian(b: Text): int {
    if b == [] then 0 else FromBigEndian(b[..|b| - 1]) * 256 + b[|b| - 1]
  }

  lemma {:induction false} BigEndianInverse(n: nat, k: nat)
    requires n < Power256(k)
    ensures FromBigEndian(BigEndian(n, k)) == n
  {
    if k > 0 {
      var b := BigEndian(n, k);
      assert b[..k - 1] == BigEndian(n / 256, k - 1);
      BigEndianInverse(n / 256, k - 1);
    }
  }

  function Length8(n: nat): (b: Text)
    ensures |b| == 8
  {
    BigEndian(n, 8)
  }

  lemma Length8Injective(m: nat, n: nat)
    requires m < LENGTH_LIMIT && n < LENGTH_LIMIT && Length8(m) == Length8(n)
    ensures m == n
  {
    BigEndianInverse(m, 8);
    BigEndianInverse(n, 8);
  }

  // ----- one frame

  function Frame(x: Text): (f: Text)
    ensures |f| == |x| + 8
  {
    Length8(|x|) + x
  }

  ghost predicate Fits(x: Text) {
    |x| < LENGTH_LIMIT
  }

  /** A frame at the front of a byte string can be cut off in only one way. */
  lemma FrameUnique(a: Text, r: Text, b: Text, s: Text)
    requires Fits(a) && Fits(b) && Frame(a) + r == Frame(b) + s
    ensures a == b && r == s
  {
    var t := Frame(a) + r;
    assert t[..8] == Length8(|a|) && t[..8] == Length8(|b|);
    Length8Injective(|a|, |b|);
    assert t[8..8 + |a|] == a && t[8..8 + |a|] == b;
    assert t[8 + |a|..] == r && t[8 + |a|..] == s;
  }

  // ----- `_framed_digest`

  datatype Labelled = Labelled(name: Text, payload: Text)

  function FramedEntries(entries: seq<Labelled>): Text {
    if entries == [] then []
    else Frame(entries[0].name) + (Frame(entries[0].payload) + FramedEntries(entries[1..]))
  }

  function FramedPreimage(domain: Text, entries: seq<Labelled>): Text {
    Frame(domain) + FramedEntries(entries)
  }

  ghost predicate EntriesFit(entries: seq<Labelled>) {
    forall i | 0 <= i < |entries| :: Fits(entries[i].name) && Fits(entries[i].payload)
  }

  lemma {:induction false} FramedEntriesUnique(a: seq<Labelled>, b: seq<Labelled>)
    requires EntriesFit(a) && EntriesFit(b) && FramedEntries(a) == FramedEntries(b)
    ensures a == b
    decreases |a|
  {
    if a != [] && b != [] {
      FrameUnique(a[0].name, Frame(a[0].payload) + FramedEntries(a[1..]),
                  b[0].name, Frame(b[0].payload) + FramedEntries(b[1..]));
      FrameUnique(a[0].payload, FramedEntries(a[1..]), b[0].payload, FramedEntries(b[1..]));
      FramedEntriesUnique(a[1..], b[1..]);
      assert a == [a[0]] + a[1..] && b == [b[0]] + b[1..];
    }
  }

  /** Two framed digests have the same pre-image only if domain and entries agree. */
  lemma FramedPreimageUnique(domain: Text, a: seq<Labelled>, domain': Text, b: seq<Labelled>)
    requires Fits(domain) && Fits(domain') && EntriesFit(a) && EntriesFit(b)
    requires FramedPreimage(domain, a) == FramedPreimage(domain', b)
    ensures domain == domain' && a == b
  {
    FrameUnique(domain, FramedEntries(a), domain', FramedEntries(b));
    FramedEntriesUnique(a, b);
  }

  /** The update loop of `_framed_digest`. */
  method FramedDigest(domain: Text, entries: seq<Labelled>) returns (preimage: Text)
    ensures preimage == FramedPreimage(domain, entries)
  {
    preimage := Length8(|domain|) + domain;
    var i := 0;
    while i < |entries|
      invariant 0 <= i <= |entries|
      invariant preimage + FramedEntries(entries[i..]) == FramedPreimage(domain, entries)
    {
      ghost var rest := FramedEntries(entries[i + 1..]);
      assert entries[i..][1..] == entries[i + 1..];
      var l, p := Frame(entries[i].name), Frame(entries[i].payload);
      assert preimage + (l + (p + rest)) == preimage + l + p + rest;
      preimage := preimage + l + p;
      i := i + 1;
    }
    assert entries[i..] == [];
    assert preimage + [] == preimage;
  }

  // ----- the verifier-pack inventory

  const DIRECTORY_TAG := 68
  const FILE_TAG := 70
  const PACK_HEADER: Text :=
    [69, 86, 79, 71, 85, 65, 82, 68, 95, 80, 65, 67, 75, 95, 86, 50, 0]   // "EVOGUARD_PACK_V2\0"
  const MAX_PACK_FILE_BYTES := 8 * 1024 * 1024
  const MAX_PACK_BYTES := 32 * 1024 * 1024

  function DirectoryRecords(directories: seq<Text>): Text {
    if directories == [] then [] else [DIRECTORY_TAG] + (Frame(directories[0]) + DirectoryRecords(directories[1..]))
  }

  function FileRecords(files: seq<Labelled>): Text {
    if files == [] then []
    else [FILE_TAG] + (Frame(files[0].name) + (Frame(files[0].payload) + FileRecords(files[1..])))
  }

  function PackPreimage(directories: seq<Text>, files: seq<Labelled>): Text {
    PACK_HEADER + (DirectoryRecords(directories) + FileRecords(files))
  }

  lemma TaggedUnique(tag: int, a: Text, r: Text, b: Text, s: Text)
    requires Fits(a) && Fits(b) && [tag] + (Frame(a) + r) == [tag] + (Frame(b) + s)
    ensures a == b && r == s
  {
    assert ([tag] + (Frame(a) + r))[1..] == Frame(a) + r && ([tag] + (Frame(b) + s))[1..] == Frame(b) + s;
    FrameUnique(a, r, b, s);
  }

  lemma {:induction false} FileRecordsUnique(a: seq<Labelled>, b: seq<Labelled>)
    requires EntriesFit(a) && EntriesFit(b) && FileRecords(a) == FileRecords(b)
    ensures a == b
    decreases |a|
  {
    if a != [] && b != [] {
      TaggedUnique(FILE_TAG, a[0].name, Frame(a[0].payload) + FileRecords(a[1..]),
                   b[0].name, Frame(b[0].payload) + FileRecords(b[1..]));
      FrameUnique(a[0].payload, FileRecords(a[1..]), b[0].payload, FileRecords(b[1..]));
      FileRecordsUnique(a[1..], b[1..]);
      assert a == [a[0]] + a[1..] && b == [b[0]] + b[1..];
    }
  }

  lemma {:induction false} RecordsUnique(d: seq<Text>, f: seq<Labelled>, d': seq<Text>, f': seq<Labelled>)
    requires (forall i | 0 <= i < |d| :: Fits(d[i])) && (forall i | 0 <= i < |d'| :: Fits(d'[i]))
    requires EntriesFit(f) && EntriesFit(f')
    requires DirectoryRecords(d) + FileRecords(f) == DirectoryRecords(d') + FileRecords(f')
    ensures d == d' && f == f'
    decreases |d| + |d'|
  {
    RecordsText(d, f);
    RecordsText(d', f');
    if d == [] && d' == [] {
      FileRecordsUnique(f, f');
    } else if d != [] && d' != [] {
      var r, r' := DirectoryRecords(d[1..]) + FileRecords(f), DirectoryRecords(d'[1..]) + FileRecords(f');
      TaggedUnique(DIRECTORY_TAG, d[0], r, d'[0], r');
      RecordsUnique(d[1..], f, d'[1..], f');
      assert d == [d[0]] + d[1..] && d' == [d'[0]] + d'[1..];
    }
  }

  /** The records start with a tag that says whether a directory is next. */
  lemma RecordsText(d: seq<Text>, f: seq<Labelled>)
    ensures var t := DirectoryRecords(d) + FileRecords(f);
            && (d == [] ==> t == FileRecords(f) && (t == [] || t[0] == FILE_TAG))
            && (d != [] ==> t == [DIRECTORY_TAG] + (Frame(d[0]) + (DirectoryRecords(d[1..]) + FileRecords(f))))
  {
    var g := FileRecords(f);
    if d == [] {
      assert [] + g == g;
    } else {
      var x, r := Frame(d[0]), DirectoryRecords(d[1..]);
      assert ([DIRECTORY_TAG] + (x + r)) + g == [DIRECTORY_TAG] + (x + (r + g));
    }
  }

  /** Two inventories have the same pre-image only if they list the same directories and the same
      files with the same bytes, in the same order. */
  lemma PackPreimageUnique(d: seq<Text>, f: seq<Labelled>, d': seq<Text>, f': seq<Labelled>)
    requires (forall i | 0 <= i < |d| :: Fits(d[i])) && (forall i | 0 <= i < |d'| :: Fits(d'[i]))
    requires EntriesFit(f) && EntriesFit(f')
    ensures PackPreimage(d, f) == PackPreimage(d', f') <==> d == d' && f == f'
  {
    if PackPreimage(d, f) == PackPreimage(d', f') {
      var n := |PACK_HEADER|;
      assert PackPreimage(d, f)[n..] == DirectoryRecords(d) + FileRecords(f);
      assert PackPreimage(d', f')[n..] == DirectoryRecords(d') + FileRecords(f');
      RecordsUnique(d, f, d', f');
    }
  }

  datatype PackError = FileTooLarge | PackTooLarge | ChangedWhileHashing

  /** One pack file as the operating system presents it: a size, and then chunks of bytes. */
  datatype PackFile = PackFile(path: Text, size: nat, chunks: seq<Text>)

  /** `_hash_pack_file`: the size is framed first, the bytes follow chunk by chunk, and the two must
      agree in the end. */
  method HashPackFile(preimage: Text, file: PackFile, total: nat) returns (r: Result<Text, PackError>, sum: nat)
    requires total <= MAX_PACK_BYTES
    ensures r.Ok? <==> && file.size <= MAX_PACK_FILE_BYTES && total + file.size <= MAX_PACK_BYTES
                       && |Chunks.Concat(file.chunks)| == file.size
    ensures r.Ok? ==> && r.value == preimage + FileRecords([Labelled(file.path, Chunks.Concat(file.chunks))])
                      && sum == total + file.size <= MAX_PACK_BYTES
  {
    var digest := preimage + [FILE_TAG] + Frame(file.path);
    sum := total;
    if file.size > MAX_PACK_FILE_BYTES { return Err(FileTooLarge), sum; }
    if total + file.size > MAX_PACK_BYTES { return Err(PackTooLarge), sum; }
    digest := digest + Length8(file.size);
    var observed, i := 0, 0;
    ghost var start, done: Text := digest, [];
    while i < |file.chunks|
      invariant 0 <= i <= |file.chunks|
      invariant done + Chunks.Concat(file.chunks[i..]) == Chunks.Concat(file.chunks)
      invariant digest == start + done && observed == |done| && sum == total + observed
      invariant observed <= MAX_PACK_FILE_BYTES && sum <= MAX_PACK_BYTES
    {
      var chunk := file.chunks[i];
      Chunks.NextChunk(file.chunks, i, done);
      assert |Chunks.Concat(file.chunks)| >= observed + |chunk|;
      observed := observed + |chunk|;
      sum := sum + |chunk|;
      if observed > MAX_PACK_FILE_BYTES { return Err(FileTooLarge), sum; }
      if sum > MAX_PACK_BYTES { return Err(PackTooLarge), sum; }
      digest := digest + chunk;
      done := done + chunk;
      i := i + 1;
    }
    assert done == Chunks.Concat(file.chunks) by { assert file.chunks[i..] == [] && done + [] == done; }
    if observed != file.size { return Err(ChangedWhileHashing), sum; }
    OneFileRecord(preimage, file.path, done);
    r := Ok(digest);
  }

  lemma OneFileRecord(preimage: Text, path: Text, data: Text)
    ensures preimage + FileRecords([Labelled(path, data)])
            == preimage + [FILE_TAG] + Frame(path) + Length8(|data|) + data
  {
    var f := Labelled(path, data);
    assert [f][1..] == [];
    assert FileRecords([f]) == [FILE_TAG] + (Frame(path) + (Frame(data) + []));
  }

  ghost predicate Readable(files: seq<PackFile>, total: nat) {
    if files == [] then true
    else
      && files[0].size <= MAX_PACK_FILE_BYTES && total + files[0].size <= MAX_PACK_BYTES
      && |Chunks.Concat(files[0].chunks)| == files[0].size
      && Readable(files[1..], total + files[0].size)
  }

  function Contents(files: seq<PackFile>): seq<Labelled> {
    if files == [] then [] else [Labelled(files[0].path, Chunks.Concat(files[0].chunks))] + Contents(files[1..])
  }

  lemma {:induction false} FileRecordsSnoc(files: seq<Labelled>, f: Labelled)
    ensures FileRecords(files + [f]) == FileRecords(files) + FileRecords([f])
  {
    if files == [] {
      assert [] + [f] == [f];
    } else {
      assert (files + [f])[1..] == files[1..] + [f] && (files + [f])[0] == files[0];
      FileRecordsSnoc(files[1..], f);
    }
  }

  lemma {:induction false} DirectoryRecordsSnoc(directories: seq<Text>, d: Text)
    ensures DirectoryRecords(directories + [d]) == DirectoryRecords(directories) + ([DIRECTORY_TAG] + Frame(d))
  {
    if directories == [] {
      assert [] + [d] == [d] && [d][1..] == [];
    } else {
      assert (directories + [d])[1..] == directories[1..] + [d] && (directories + [d])[0] == directories[0];
      DirectoryRecordsSnoc(directories[1..], d);
    }
  }

  lemma {:induction false} ContentsSnoc(files: seq<PackFile>, f: PackFile)
    ensures Contents(files + [f]) == Contents(files) + [Labelled(f.path, Chunks.Concat(f.chunks))]
  {
    if files == [] {
      assert [] + [f] == [f] && [f][1..] == [];
    } else {
      assert (files + [f])[1..] == files[1..] + [f];
      ContentsSnoc(files[1..], f);
    }
  }

  /** `_digest_inventory`: the pre-image of the whole inventory, or the first file that is too large,
      makes the pack too large, or does not match its size. */
  method DigestInventory(directories: seq<Text>, files: seq<PackFile>) returns (r: Result<Text, PackError>)
    ensures r.Ok? <==> Readable(files, 0)
    ensures r.Ok? ==> r.value == PackPreimage(directories, Contents(files))
  {
    var digest := PACK_HEADER;
    var i := 0;
    while i < |directories|
      invariant 0 <= i <= |directories|
      invariant digest == PACK_HEADER + DirectoryRecords(directories[..i])
    {
      assert directories[..i + 1] == directories[..i] + [directories[i]];
      DirectoryRecordsSnoc(directories[..i], directories[i]);
      digest := digest + [DIRECTORY_TAG] + Frame(directories[i]);
      i := i + 1;
    }
    assert directories[..i] == directories;
    r := HashFiles(digest, files);
    if r.Ok? {
      var d, f := DirectoryRecords(directories), FileRecords(Contents(files));
      assert PACK_HEADER + d + f == PACK_HEADER + (d + f);
    }
  }

  /** The file loop of `_digest_inventory`. */
  method HashFiles(start: Text, files: seq<PackFile>) returns (r: Result<Text, PackError>)
    ensures r.Ok? <==> Readable(files, 0)
    ensures r.Ok? ==> r.value == start + FileRecords(Contents(files))
  {
    var digest := start;
    var total: nat, j := 0, 0;
    assert files[0..] == files;
    while j < |files|
      invariant 0 <= j <= |files| && total <= MAX_PACK_BYTES
      invariant digest == start + FileRecords(Contents(files[..j]))
      invariant Readable(files, 0) <==> Readable(files[j..], total)
    {
      var next, sum := HashPackFile(digest, files[j], total);
      assert files[j..][0] == files[j] && files[j..][1..] == files[j + 1..];
      if next.Err? { return next; }
      AppendFile(start, files, j);
      digest, total := next.value, sum;
      j := j + 1;
    }
    assert files[..j] == files && files[j..] == [];
    r := Ok(digest);
  }

  lemma AppendFile(start: Text, files: seq<PackFile>, j: nat)
    requires j < |files|
    ensures start + FileRecords(Contents(files[..j]))
            + FileRecords([Labelled(files[j].path, Chunks.Concat(files[j].chunks))])
            == start + FileRecords(Contents(files[..j + 1]))
  {
    var f := Labelled(files[j].path, Chunks.Concat(files[j].chunks));
    assert files[..j + 1] == files[..j] + [files[j]];
    ContentsSnoc(files[..j], files[j]);
    FileRecordsSnoc(Contents(files[..j]), f);
  }

  // ----- the candidate text map

  const IDENTITY_DOMAIN: Text :=
    [69, 86, 79, 71, 85, 65, 82, 68, 95, 67, 65, 78, 68, 73, 68, 65, 84, 69, 95,
     84, 69, 88, 84, 95, 77, 65, 80, 95, 86, 50, 0]   // "EVOGUARD_CANDIDATE_TEXT_MAP_V2\0"

  ghost function Rows(blocks: map<Text, Text>, paths: seq<Text>): seq<Labelled>
    requires forall p | p in paths :: p in blocks
  {
    if paths == [] then [] else [Labelled(paths[0], blocks[paths[0]])] + Rows(blocks, paths[1..])
  }

  lemma {:induction false} RowsAt(blocks: map<Text, Text>, paths: seq<Text>)
    requires forall p | p in paths :: p in blocks
    ensures |Rows(blocks, paths)| == |paths|
    ensures forall i | 0 <= i < |paths| :: Rows(blocks, paths)[i] == Labelled(paths[i], blocks[paths[i]])
  {
    if paths != [] { RowsAt(blocks, paths[1..]); }
  }

  lemma SortedPaths(blocks: map<Text, Text>)
    ensures forall p :: p in Sort(blocks.Keys) <==> p in blocks
  {
    assert forall p :: p in Sort(blocks.Keys) <==> p in Elements(Sort(blocks.Keys));
  }

  ghost function MapRows(blocks: map<Text, Text>): seq<Labelled> {
    SortedPaths(blocks);
    Rows(blocks, Sort(blocks.Keys))
  }

  /** `candidate_text_map_identity_bytes`. */
  ghost function IdentityBytes(blocks: map<Text, Text>): Text {
    IDENTITY_DOMAIN + (Length8(|blocks|) + FileRecords(MapRows(blocks)))
  }

  /** Maps of byte strings with the same identity bytes are equal. */
  lemma IdentityInjective(a: map<Text, Text>, b: map<Text, Text>)
    requires forall p | p in a :: Fits(p) && Fits(a[p])
    requires forall p | p in b :: Fits(p) && Fits(b[p])
    requires IdentityBytes(a) == IdentityBytes(b)
    ensures a == b
  {
    BehindPrefix(IDENTITY_DOMAIN, Length8(|a|), FileRecords(MapRows(a)), Length8(|b|), FileRecords(MapRows(b)));
    MapRowsFit(a);
    MapRowsFit(b);
    FileRecordsUnique(MapRows(a), MapRows(b));
    RowsDetermine(a, b);
    RowsDetermine(b, a);
  }

  lemma BehindPrefix(domain: Text, m: Text, x: Text, n: Text, y: Text)
    requires |m| == |n| && domain + (m + x) == domain + (n + y)
    ensures x == y
  {
    assert x == (domain + (m + x))[|domain| + |m|..];
    assert y == (domain + (n + y))[|domain| + |n|..];
  }

  lemma MapRowsFit(blocks: map<Text, Text>)
    requires forall p | p in blocks :: Fits(p) && Fits(blocks[p])
    ensures EntriesFit(MapRows(blocks))
  {
    SortedPaths(blocks);
    RowsOfFit(blocks, Sort(blocks.Keys));
  }

  lemma RowsOfFit(blocks: map<Text, Text>, paths: seq<Text>)
    requires forall p | p in paths :: p in blocks && Fits(p) && Fits(blocks[p])
    ensures EntriesFit(Rows(blocks, paths))
  {
    RowsAt(blocks, paths);
    forall i | 0 <= i < |paths| ensures Fits(Rows(blocks, paths)[i].name) && Fits(Rows(blocks, paths)[i].payload) {
      assert paths[i] in paths;
    }
  }

  lemma RowsDetermine(a: map<Text, Text>, b: map<Text, Text>)
    requires MapRows(a) == MapRows(b)
    ensures forall p | p in a :: p in b && b[p] == a[p]
  {
    SortedPaths(a);
    SortedPaths(b);
    RowsAt(a, Sort(a.Keys));
    RowsAt(b, Sort(b.Keys));
    forall p | p in a ensures p in b && b[p] == a[p] {
      var i :| 0 <= i < |Sort(a.Keys)| && Sort(a.Keys)[i] == p;
      assert MapRows(b)[i] == Labelled(p, a[p]);
    }
  }

  // ----- the identity of a map of texts

  ghost predicate Encodable(blocks: map<Text, Text>) {
    forall p | p in blocks :: Utf8.AllScalar(p) && Utf8.AllScalar(blocks[p])
  }

  lemma EncodeInjective(a: Text, b: Text)
    requires Utf8.AllScalar(a) && Utf8.AllScalar(b) && Utf8.Encode(a) == Utf8.Encode(b)
    ensures a == b
  {
    Utf8.DecodeEncode(a);
    Utf8.DecodeEncode(b);
  }

  lemma KeysStayApart(blocks: map<Text, Text>)
    requires Encodable(blocks)
    ensures forall p, q | p in blocks && q in blocks && Utf8.Encode(p) == Utf8.Encode(q) :: p == q
  {
    forall p, q | p in blocks && q in blocks && Utf8.Encode(p) == Utf8.Encode(q) ensures p == q {
      EncodeInjective(p, q);
    }
  }

  /** Every path and every content as its UTF-8 bytes. */
  ghost function Encoded(blocks: map<Text, Text>): (e: map<Text, Text>)
    requires Encodable(blocks)
  {
    KeysStayApart(blocks);
    map p | p in blocks :: Utf8.Encode(p) := Utf8.Encode(blocks[p])
  }

  lemma EncodedAt(blocks: map<Text, Text>, p: Text)
    requires Encodable(blocks) && p in blocks
    ensures Utf8.Encode(p) in Encoded(blocks) && Encoded(blocks)[Utf8.Encode(p)] == Utf8.Encode(blocks[p])
  {
    KeysStayApart(blocks);
  }

  lemma EncodedWithin(a: map<Text, Text>, b: map<Text, Text>, p: Text)
    requires Encodable(a) && Encodable(b) && Encoded(a) == Encoded(b) && p in a
    ensures p in b && b[p] == a[p]
  {
    EncodedAt(a, p);
    var q :| q in b && Utf8.Encode(q) == Utf8.Encode(p);
    EncodeInjective(p, q);
    EncodedAt(b, p);
    EncodeInjective(a[p], b[p]);
  }

  lemma EncodedInjective(a: map<Text, Text>, b: map<Text, Text>)
    requires Encodable(a) && Encodable(b) && Encoded(a) == Encoded(b)
    ensures a == b
  {
    forall p | p in a ensures p in b && b[p] == a[p] { EncodedWithin(a, b, p); }
    forall p | p in b ensures p in a { EncodedWithin(b, a, p); }
  }

  /** Two candidate text maps with the same identity bytes are equal: no path, no content and no code point can be
      changed without changing the identity. */
  lemma TextIdentityInjective(a: map<Text, Text>, b: map<Text, Text>)
    requires Encodable(a) && Encodable(b)
    requires forall p | p in Encoded(a) :: Fits(p) && Fits(Encoded(a)[p])
    requires forall p | p in Encoded(b) :: Fits(p) && Fits(Encoded(b)[p])
    requires IdentityBytes(Encoded(a)) == IdentityBytes(Encoded(b))
    ensures a == b
  {
    IdentityInjective(Encoded(a), Encoded(b));
    EncodedInjective(a, b);
  }
}
