/** The framed pre-images as other programs write them: header texts, tags and eight-byte lengths spelled out, for
    every pack inventory and every candidate text map. */
module FramingWire {
  import opened Ordering
  import opened Framing
  import Chunks

  // ----- lengths

  /** Byte i of k holds the digit of weight 256 to the power k - 1 - i: the most significant byte comes first. */
  lemma {:induction false} BigEndianAt(n: nat, k: nat, i: nat)
    requires i < k
    ensures BigEndian(n, k)[i] == n / Power256(k - 1 - i) % 256
  {
    if i < k - 1 {
      BigEndianAt(n / 256, k - 1, i);
      DivideTwice(n, Power256(k - 2 - i));
    }
  }

  lemma DivideTwice(n: nat, p: nat)
    requires p > 0
    ensures n / 256 / p == n / (256 * p)
  {
    var q, r := n / 256, n % 256;
    var q', r' := q / p, q % p;
    assert n == 256 * q + r && q == p * q' + r';
    Quotient(n, 256 * p, q', 256 * r' + r);
  }

  lemma Quotient(n: int, d: nat, q: int, r: int)
    requires d > 0 && 0 <= r < d && n == d * q + r
    ensures n / d == q
  {
    var x := n / d;
    assert d * x <= n < d * x + d;
    Multiples(d, x, q);
    Multiples(d, q, x);
  }

  lemma Multiples(d: nat, x: int, y: int)
    ensures x < y ==> d * x + d <= d * y
  {
    if x < y {
      var k := y - x - 1;
      assert d * k >= 0;
      assert d * (x + 1 + k) == d * x + d + d * k;
    }
  }

  lemma Length8Spelled(n: nat)
    requires n < 0x1_0000_0000
    ensures Length8(n) == [0, 0, 0, 0, n / 0x100_0000, n / 0x1_0000 % 256, n / 0x100 % 256, n % 256]
  {
    assert n / 256 / 256 == n / 0x1_0000 && n / 0x1_0000 / 256 == n / 0x100_0000 && n / 0x100_0000 / 256 == 0;
    var a, b, c, d := n / 256, n / 0x1_0000, n / 0x100_0000, 0;
    assert BigEndian(d, 4) == [0, 0, 0, 0] by { assert BigEndian(0, 2) == [0, 0]; }
    assert BigEndian(c, 5) == [0, 0, 0, 0, c];
    assert BigEndian(b, 6) == [0, 0, 0, 0, c, b % 256];
    assert BigEndian(a, 7) == [0, 0, 0, 0, c, b % 256, a % 256];
  }

  // ----- the verifier pack

  function DirectoryRecord(path: Text): Text {
    Chars("D") + Length8(|path|) + path
  }

  function FileRecord(f: Labelled): Text {
    Chars("F") + Length8(|f.name|) + f.name + Length8(|f.payload|) + f.payload
  }

  lemma {:induction false} DirectoriesSpelled(directories: seq<Text>)
    ensures DirectoryRecords(directories)
            == Chunks.Concat(seq(|directories|, i requires 0 <= i < |directories| => DirectoryRecord(directories[i])))
  {
    var parts := seq(|directories|, i requires 0 <= i < |directories| => DirectoryRecord(directories[i]));
    if directories != [] {
      var d := directories[1..];
      assert parts[1..] == seq(|d|, i requires 0 <= i < |d| => DirectoryRecord(d[i]));
      assert Chars("D") == [DIRECTORY_TAG];
      DirectoriesSpelled(d);
    }
  }

  lemma {:induction false} FilesSpelled(files: seq<Labelled>)
    ensures FileRecords(files) == Chunks.Concat(seq(|files|, i requires 0 <= i < |files| => FileRecord(files[i])))
  {
    var parts := seq(|files|, i requires 0 <= i < |files| => FileRecord(files[i]));
    if files != [] {
      var f := files[1..];
      assert parts[1..] == seq(|f|, i requires 0 <= i < |f| => FileRecord(f[i]));
      assert Chars("F") == [FILE_TAG];
      FilesSpelled(f);
    }
  }

  /** The pre-image of every inventory: the header, a `D` record for each directory, an `F` record for each file. */
  lemma PackSpelled(directories: seq<Text>, files: seq<Labelled>)
    ensures PackPreimage(directories, files)
            == Chars("EVOGUARD_PACK_V2") + [0]
               + Chunks.Concat(seq(|directories|, i requires 0 <= i < |directories| =>
                                     Chars("D") + Length8(|directories[i]|) + directories[i]))
               + Chunks.Concat(seq(|files|, i requires 0 <= i < |files| =>
                                     Chars("F") + Length8(|files[i].name|) + files[i].name
                                     + Length8(|files[i].payload|) + files[i].payload))
  {
    DirectoriesSpelled(directories);
    FilesSpelled(files);
    assert seq(|directories|, i requires 0 <= i < |directories| => DirectoryRecord(directories[i]))
           == seq(|directories|, i requires 0 <= i < |directories| =>
                    Chars("D") + Length8(|directories[i]|) + directories[i]);
    assert seq(|files|, i requires 0 <= i < |files| => FileRecord(files[i]))
           == seq(|files|, i requires 0 <= i < |files| =>
                    Chars("F") + Length8(|files[i].name|) + files[i].name
                    + Length8(|files[i].payload|) + files[i].payload);
    assert Chars("EVOGUARD_PACK_V2") + [0] == PACK_HEADER;
  }

  // ----- the candidate text map

  /** The record of one file of a map. */
  ghost function MapRecord(blocks: map<Text, Text>, path: Text): Text
    requires path in blocks
  {
    Chars("F") + Length8(|path|) + path + Length8(|blocks[path]|) + blocks[path]
  }

  lemma PathsAreKeys(blocks: map<Text, Text>, paths: seq<Text>)
    requires Elements(paths) == blocks.Keys
    ensures forall i | 0 <= i < |paths| :: paths[i] in blocks
  {
    forall i | 0 <= i < |paths| ensures paths[i] in blocks { assert paths[i] in Elements(paths); }
  }

  lemma MapRowsSpelled(blocks: map<Text, Text>, paths: seq<Text>)
    requires Sorted(paths) && Elements(paths) == blocks.Keys
    requires forall i | 0 <= i < |paths| :: paths[i] in blocks
    ensures FileRecords(MapRows(blocks))
            == Chunks.Concat(seq(|paths|, i requires 0 <= i < |paths| => MapRecord(blocks, paths[i])))
  {
    SortedPaths(blocks);
    SortOfSorted(paths);
    RowsSpelled(blocks, paths);
  }

  lemma RowsSpelled(blocks: map<Text, Text>, paths: seq<Text>)
    requires forall p | p in paths :: p in blocks
    ensures FileRecords(Rows(blocks, paths))
            == Chunks.Concat(seq(|paths|, i requires 0 <= i < |paths| => MapRecord(blocks, paths[i])))
  {
    var rows := Rows(blocks, paths);
    RowsAt(blocks, paths);
    FilesSpelled(rows);
    var listed := seq(|rows|, i requires 0 <= i < |rows| => FileRecord(rows[i]));
    var named := seq(|paths|, i requires 0 <= i < |paths| => MapRecord(blocks, paths[i]));
    forall i | 0 <= i < |paths| ensures listed[i] == named[i] {
      assert rows[i] == Labelled(paths[i], blocks[paths[i]]);
    }
    assert listed == named;
  }

  /** The identity bytes of every map: the domain, the number of files, and an `F` record for each path in
      increasing order of its bytes. */
  lemma IdentitySpelled(blocks: map<Text, Text>, paths: seq<Text>)
    requires Sorted(paths) && Elements(paths) == blocks.Keys
    ensures forall i | 0 <= i < |paths| :: paths[i] in blocks
    ensures IdentityBytes(blocks)
            == Chars("EVOGUARD_CANDIDATE_TEXT_MAP_V2") + [0] + Length8(|paths|)
               + Chunks.Concat(seq(|paths|, i requires 0 <= i < |paths| => MapRecord(blocks, paths[i])))
  {
    PathsAreKeys(blocks, paths);
    MapRowsSpelled(blocks, paths);
    SortOfSorted(paths);
    DomainSpelled();
    var records := Chunks.Concat(seq(|paths|, i requires 0 <= i < |paths| => MapRecord(blocks, paths[i])));
    Regroup(IDENTITY_DOMAIN, Length8(|paths|), records);
  }

  lemma DomainSpelled()
    ensures Chars("EVOGUARD_CANDIDATE_TEXT_MAP_V2") + [0] == IDENTITY_DOMAIN
  {
  }

  lemma Regroup(a: Text, b: Text, c: Text)
    ensures a + (b + c) == a + b + c
  {
  }
}
