/** The stored archive byte by byte, as any ZIP program reads it (sections 4.3.7, 4.3.12 and 4.3.16 of PKWARE's
    APPNOTE.TXT): where every header of every archive lies, and what its bytes are. */
module ZipWire {
  import opened Ordering
  import opened Zip

  /** Two and four bytes, the least significant one first. */
  function Two(n: nat): (b: Text)
    ensures |b| == 2
  {
    [n % 256, n / 256 % 256]
  }

  function Four(n: nat): (b: Text)
    ensures |b| == 4
  {
    [n % 256, n / 0x100 % 256, n / 0x1_0000 % 256, n / 0x100_0000 % 256]
  }

  lemma HalfIsTwo(n: nat)
    ensures Half(n) == Two(n)
  {
  }

  lemma WholeIsFour(n: nat)
    ensures Whole(n) == Four(n)
  {
    Bytes(n, n / HALF_LIMIT, n % HALF_LIMIT);
  }

  lemma Bytes(n: nat, high: nat, low: nat)
    requires n == 0x1_0000 * high + low && low < 0x1_0000
    ensures low % 256 == n % 256 && low / 256 % 256 == n / 0x100 % 256
    ensures high == n / 0x1_0000 && high / 256 == n / 0x100_0000
  {
    var q, r := low / 256, low % 256;
    assert n == 256 * (256 * high + q) + r;
    assert n / 256 == 256 * high + q;
  }

  /** Where local header k starts: behind the headers, names and contents of the members before it. */
  function LocalStart(ms: seq<Member>, k: nat): nat
    requires k <= |ms|
  {
    if k == 0 then 0 else LocalStart(ms, k - 1) + 30 + |ms[k - 1].name| + |ms[k - 1].data|
  }

  /** Where central header k starts: the directory follows the last member. */
  function CentralStart(ms: seq<Member>, k: nat): (n: nat)
    requires k <= |ms|
    ensures n >= LocalStart(ms, |ms|)
  {
    if k == 0 then LocalStart(ms, |ms|) else CentralStart(ms, k - 1) + 46 + |ms[k - 1].name|
  }

  lemma {:induction false} LocalsSplit(ms: seq<Member>, crc: Crc, k: nat, b: Text)
    requires k <= |ms| && At(b, 0, Locals(ms, crc))
    ensures At(b, LocalStart(ms, k), Locals(ms[k..], crc))
    ensures |Locals(ms, crc)| == LocalStart(ms, k) + |Locals(ms[k..], crc)|
  {
    if k == 0 {
      assert ms[0..] == ms;
    } else {
      LocalsSplit(ms, crc, k - 1, b);
      LocalsStep(ms, crc, k - 1, b, LocalStart(ms, k - 1), LocalStart(ms, k));
    }
  }

  lemma LocalsStep(ms: seq<Member>, crc: Crc, k: nat, b: Text, o: nat, o': nat)
    requires k < |ms| && At(b, o, Locals(ms[k..], crc)) && o' == o + 30 + |ms[k].name| + |ms[k].data|
    ensures At(b, o, Local(ms[k], crc)) && At(b, o', Locals(ms[k + 1..], crc))
    ensures o + |Locals(ms[k..], crc)| == o' + |Locals(ms[k + 1..], crc)|
  {
    Unfold(ms, k, 0, crc);
    AtSplit(b, o, Local(ms[k], crc), Locals(ms[k + 1..], crc));
  }

  /** The rest of the directory, from header k on, lies at its place and ends at `end`. */
  ghost predicate Lies(ms: seq<Member>, crc: Crc, k: nat, b: Text, end: nat) {
    && k <= |ms| && At(b, CentralStart(ms, k), Directory(ms[k..], LocalStart(ms, k), crc))
    && CentralStart(ms, k) + |Directory(ms[k..], LocalStart(ms, k), crc)| == end
  }

  lemma {:induction false} Walk(ms: seq<Member>, crc: Crc, k: nat, b: Text, end: nat)
    requires k <= |ms| && Lies(ms, crc, 0, b, end)
    ensures Lies(ms, crc, k, b, end)
  {
    if k > 0 {
      Walk(ms, crc, k - 1, b, end);
      RestStep(ms, crc, k - 1, b, end);
    }
  }

  lemma RestStep(ms: seq<Member>, crc: Crc, k: nat, b: Text, end: nat)
    requires k < |ms| && Lies(ms, crc, k, b, end)
    ensures Lies(ms, crc, k + 1, b, end)
  {
    NextStart(ms, k);
    DirectoryStep(ms, crc, k, b, CentralStart(ms, k), CentralStart(ms, k + 1), LocalStart(ms, k),
                  LocalStart(ms, k + 1));
  }

  lemma NextStart(ms: seq<Member>, k: nat)
    requires k < |ms|
    ensures LocalStart(ms, k + 1) == LocalStart(ms, k) + 30 + |ms[k].name| + |ms[k].data|
    ensures CentralStart(ms, k + 1) == CentralStart(ms, k) + 46 + |ms[k].name|
  {
  }

  lemma WholeLies(ms: seq<Member>, crc: Crc, b: Text, at: nat)
    requires at == LocalStart(ms, |ms|) && At(b, at, Directory(ms, 0, crc))
    ensures Lies(ms, crc, 0, b, at + |Directory(ms, 0, crc)|)
  {
    FromStart(ms);
  }

  lemma DirectorySplit(ms: seq<Member>, crc: Crc, k: nat, b: Text, at: nat)
    requires k <= |ms| && at == LocalStart(ms, |ms|) && At(b, at, Directory(ms, 0, crc))
    ensures At(b, CentralStart(ms, k), Directory(ms[k..], LocalStart(ms, k), crc))
    ensures at + |Directory(ms, 0, crc)| == CentralStart(ms, k) + |Directory(ms[k..], LocalStart(ms, k), crc)|
  {
    WholeLies(ms, crc, b, at);
    Walk(ms, crc, k, b, at + |Directory(ms, 0, crc)|);
  }

  lemma FromStart(ms: seq<Member>)
    ensures ms[0..] == ms
  {
  }

  lemma DirectoryStep(ms: seq<Member>, crc: Crc, k: nat, b: Text, c: nat, c': nat, o: nat, o': nat)
    requires k < |ms| && At(b, c, Directory(ms[k..], o, crc))
    requires c' == c + 46 + |ms[k].name| && o' == o + 30 + |ms[k].name| + |ms[k].data|
    ensures At(b, c, Central(ms[k], o, crc)) && At(b, c', Directory(ms[k + 1..], o', crc))
    ensures c + |Directory(ms[k..], o, crc)| == c' + |Directory(ms[k + 1..], o', crc)|
  {
    Unfold(ms, k, o, crc);
    AtSplit(b, c, Central(ms[k], o, crc), Directory(ms[k + 1..], o', crc));
  }

  ghost predicate SizesOnWire(b: Text, i: nat, m: Member, checksum: nat) {
    && At(b, i, Four(checksum)) && At(b, i + 4, Four(|m.data|)) && At(b, i + 8, Four(|m.data|))
    && At(b, i + 12, Two(|m.name|)) && At(b, i + 14, [0, 0])
  }

  lemma SizesAt(b: Text, i: nat, m: Member, crc: Crc)
    requires At(b, i, Sizes(m, crc))
    ensures SizesOnWire(b, i, m, crc(m.data))
  {
    var x, y, z := Whole(crc(m.data)), Whole(|m.data|), Half(|m.name|) + Half(0);
    AtSplit(b, i, x + y, y + z);
    AtSplit(b, i, x, y);
    AtSplit(b, i + 8, y, z);
    AtSplit(b, i + 12, Half(|m.name|), Half(0));
    WholeIsFour(crc(m.data));
    WholeIsFour(|m.data|);
    HalfIsTwo(|m.name|);
    HalfIsTwo(0);
    assert Two(0) == [0, 0];
  }

  /** Signature, version 2.0, no flags, stored, midnight of 1 January 1980. */
  const LOCAL_HEAD: Text := [0x50, 0x4B, 3, 4, 20, 0, 0, 0, 0, 0, 0, 0, 0x21, 0]
  /** The same behind the version and system of the writer: 2.0 on Unix. */
  const CENTRAL_HEAD: Text := [0x50, 0x4B, 1, 2, 20, 3, 20, 0, 0, 0, 0, 0, 0, 0, 0x21, 0]
  /** No comment, disk 0, no internal attributes, a regular file with mode 0644. */
  const CENTRAL_TAIL: Text := [0, 0, 0, 0, 0, 0, 0, 0, 0xA4, 0x81]

  lemma LocalAt(b: Text, o: nat, m: Member, crc: Crc)
    requires At(b, o, Local(m, crc))
    ensures LocalOnWire(b, o, m, crc(m.data))
  {
    AtSplit(b, o, LOCAL_SIGNATURE + FIXED, Sizes(m, crc) + (m.name + m.data));
    assert LOCAL_SIGNATURE + FIXED == LOCAL_HEAD;
    AtSplit(b, o + 14, Sizes(m, crc), m.name + m.data);
    SizesAt(b, o + 14, m, crc);
    AtSplit(b, o + 30, m.name, m.data);
  }

  lemma CentralAt(b: Text, c: nat, m: Member, offset: nat, crc: Crc)
    requires At(b, c, Central(m, offset, crc))
    ensures CentralOnWire(b, c, m, offset, crc(m.data))
  {
    var head, place := CENTRAL_SIGNATURE + [VERSION, UNIX] + FIXED, PLACEMENT + Whole(offset);
    AtSplit(b, c, head, Sizes(m, crc) + (place + m.name));
    assert head == CENTRAL_HEAD;
    AtSplit(b, c + 16, Sizes(m, crc), place + m.name);
    SizesAt(b, c + 16, m, crc);
    AtSplit(b, c + 32, place, m.name);
    AtSplit(b, c + 32, PLACEMENT, Whole(offset));
    assert PLACEMENT == CENTRAL_TAIL;
    WholeIsFour(offset);
  }

  ghost predicate LocalOnWire(b: Text, o: nat, m: Member, checksum: nat) {
    && At(b, o, LOCAL_HEAD) && SizesOnWire(b, o + 14, m, checksum)
    && At(b, o + 30, m.name) && At(b, o + 30 + |m.name|, m.data)
  }

  ghost predicate CentralOnWire(b: Text, c: nat, m: Member, offset: nat, checksum: nat) {
    && At(b, c, CENTRAL_HEAD) && SizesOnWire(b, c + 16, m, checksum)
    && At(b, c + 32, CENTRAL_TAIL) && At(b, c + 42, Four(offset)) && At(b, c + 46, m.name)
  }

  /** The bytes of member k and of its directory entry, in every archive. */
  lemma MemberOnWire(ms: seq<Member>, crc: Crc, k: nat)
    requires Fits(ms, crc) && k < |ms|
    ensures LocalOnWire(Archive(ms, crc), LocalStart(ms, k), ms[k], crc(ms[k].data))
    ensures CentralOnWire(Archive(ms, crc), CentralStart(ms, k), ms[k], LocalStart(ms, k), crc(ms[k].data))
  {
    var b := Archive(ms, crc);
    HeadersAt(ms, crc, k, b);
    LocalAt(b, LocalStart(ms, k), ms[k], crc);
    CentralAt(b, CentralStart(ms, k), ms[k], LocalStart(ms, k), crc);
  }

  lemma HeadersAt(ms: seq<Member>, crc: Crc, k: nat, b: Text)
    requires Fits(ms, crc) && k < |ms| && b == Archive(ms, crc)
    ensures At(b, LocalStart(ms, k), Local(ms[k], crc))
    ensures At(b, CentralStart(ms, k), Central(ms[k], LocalStart(ms, k), crc))
  {
    var o := LocalStart(ms, k);
    ArchiveIsLaid(ms, crc);
    LocalsSplit(ms, crc, k, b);
    LocalsSplit(ms, crc, |ms|, b);
    NoMore(ms, 0, crc);
    NextStart(ms, k);
    LocalsStep(ms, crc, k, b, o, LocalStart(ms, k + 1));
    DirectorySplit(ms, crc, k, b, |Locals(ms, crc)|);
    DirectoryStep(ms, crc, k, b, CentralStart(ms, k), CentralStart(ms, k + 1), o, LocalStart(ms, k + 1));
  }

  /** Signature and disk numbers, the number of members twice, size and offset of the directory, no comment. */
  ghost predicate EndRecord(b: Text, e: nat, count: nat, size: nat, offset: nat) {
    && At(b, e, [0x50, 0x4B, 5, 6, 0, 0, 0, 0]) && At(b, e + 8, Two(count)) && At(b, e + 10, Two(count))
    && At(b, e + 12, Four(size)) && At(b, e + 16, Four(offset)) && At(b, e + 20, [0, 0])
  }

  /** The end record, and that there is nothing else: the sections follow one another without a gap. */
  lemma EndOnWire(ms: seq<Member>, crc: Crc)
    requires Fits(ms, crc)
    ensures |Archive(ms, crc)| == CentralStart(ms, |ms|) + 22
    ensures EndRecord(Archive(ms, crc), CentralStart(ms, |ms|), |ms|,
                      CentralStart(ms, |ms|) - LocalStart(ms, |ms|), LocalStart(ms, |ms|))
  {
    var b, l, d := Archive(ms, crc), Locals(ms, crc), Directory(ms, 0, crc);
    ArchiveIsLaid(ms, crc);
    SectionsEnd(ms, crc, b);
    LaidEnd(b, l, d, |ms|, CentralStart(ms, |ms|), LocalStart(ms, |ms|));
  }

  lemma LaidEnd(b: Text, l: Text, d: Text, count: nat, e: nat, o: nat)
    requires Laid(b, l, d, count) && o == |l| && e == |l| + |d|
    ensures |b| == e + 22 && EndRecord(b, e, count, e - o, o)
  {
    EndAt(b, e, count, |d|, |l|);
  }

  lemma SectionsEnd(ms: seq<Member>, crc: Crc, b: Text)
    requires At(b, 0, Locals(ms, crc)) && At(b, |Locals(ms, crc)|, Directory(ms, 0, crc))
    ensures |Locals(ms, crc)| == LocalStart(ms, |ms|)
    ensures |Locals(ms, crc)| + |Directory(ms, 0, crc)| == CentralStart(ms, |ms|)
  {
    LocalsSplit(ms, crc, |ms|, b);
    NoMore(ms, LocalStart(ms, |ms|), crc);
    DirectorySplit(ms, crc, |ms|, b, |Locals(ms, crc)|);
  }

  lemma EndAt(b: Text, e: nat, count: nat, size: nat, offset: nat)
    requires At(b, e, End(count, size, offset))
    ensures EndRecord(b, e, count, size, offset)
  {
    var disks, counts, where := Half(0) + Half(0), Half(count) + Half(count), Whole(size) + Whole(offset);
    AtSplit(b, e, END_SIGNATURE, disks + (counts + (where + Half(0))));
    AtSplit(b, e + 4, disks, counts + (where + Half(0)));
    AtSplit(b, e + 8, counts, where + Half(0));
    AtSplit(b, e + 12, where, Half(0));
    AtSplit(b, e + 8, Half(count), Half(count));
    AtSplit(b, e + 12, Whole(size), Whole(offset));
    WholeIsFour(size);
    WholeIsFour(offset);
    assert Half(0) == [0, 0] && disks == [0, 0, 0, 0];
    AtJoin(b, e, [0x50, 0x4B, 5, 6], [0, 0, 0, 0]);
    assert [0x50, 0x4B, 5, 6] + [0, 0, 0, 0] == [0x50, 0x4B, 5, 6, 0, 0, 0, 0];
  }

  lemma AtJoin(b: Text, i: nat, x: Text, y: Text)
    requires At(b, i, x) && At(b, i + |x|, y)
    ensures At(b, i, x + y)
  {
    forall k | 0 <= k < |x + y| ensures b[i + k] == (x + y)[k] {
      if k >= |x| { assert b[i + |x| + (k - |x|)] == y[k - |x|]; }
    }
  }
}
