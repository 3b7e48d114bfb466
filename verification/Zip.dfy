/** Stored ZIP archives: `_archive_bytes`, `_preflight_zip` and the part of the reader the bundle inspection relies on
    (sections 4.3.7, 4.3.12 and 4.3.16 of PKWARE's APPNOTE.TXT).  Bytes are integers; CRC-32 is a parameter. */
module Zip {
  import opened Wrappers
  import opened Ordering

  const MAX_ARCHIVE_MEMBERS := 35
  const MAX_CENTRAL_DIRECTORY_BYTES := 64 * 1024

  const HALF_LIMIT := 0x1_0000
  const WORD_LIMIT := 0x1_0000_0000

  type Word = x: int | 0 <= x < 0x1_0000_0000
  type Crc = Text -> Word

  datatype Member = Member(name: Text, data: Text)

  // ----- little-endian numbers

  function Half(n: nat): (b: Text)
    ensures |b| == 2
  {
    [n % 256, n / 256 % 256]
  }

  function Whole(n: nat): (b: Text)
    ensures |b| == 4
  {
    Half(n % HALF_LIMIT) + Half(n / HALF_LIMIT)
  }

  function ReadHalf(b: Text, i: nat): int
    requires i + 2 <= |b|
  {
    b[i] + 256 * b[i + 1]
  }

  function ReadWhole(b: Text, i: nat): int
    requires i + 4 <= |b|
  {
    ReadHalf(b, i) + HALF_LIMIT * ReadHalf(b, i + 2)
  }

  /** `b[i:j]` in Python: clamped to the end. */
  function Slice(b: Text, i: nat, j: nat): (s: Text)
    ensures j <= |b| && i <= j ==> s == b[i..j]
  {
    var end := if j <= |b| then j else |b|;
    if i <= end then b[i..end] else []
  }

  /** `b` holds the bytes of `part` at position i. */
  ghost predicate At(b: Text, i: nat, part: Text) {
    i + |part| <= |b| && forall k | 0 <= k < |part| :: b[i + k] == part[k]
  }

  lemma HalfAt(b: Text, i: nat, n: nat)
    requires At(b, i, Half(n)) && n < HALF_LIMIT
    ensures ReadHalf(b, i) == n
  {
    var h := Half(n);
    assert b[i + 0] == h[0] && b[i + 1] == h[1];
  }

  lemma WholeAt(b: Text, i: nat, n: nat)
    requires At(b, i, Whole(n)) && n < WORD_LIMIT
    ensures ReadWhole(b, i) == n
  {
    var low, high := n % HALF_LIMIT, n / HALF_LIMIT;
    AtSplit(b, i, Half(low), Half(high));
    HalfAt(b, i, low);
    HalfAt(b, i + 2, high);
  }

  /** The parts of a concatenation lie one after the other. */
  lemma AtSplit(b: Text, i: nat, x: Text, y: Text)
    requires At(b, i, x + y)
    ensures At(b, i, x) && At(b, i + |x|, y)
  {
    var z := x + y;
    forall k | 0 <= k < |x| ensures b[i + k] == x[k] { assert z[k] == x[k]; }
    forall k | 0 <= k < |y| ensures b[i + |x| + k] == y[k] { assert b[i + (|x| + k)] == z[|x| + k]; }
  }

  lemma AtFront(x: Text, rest: Text)
    ensures At(x + rest, 0, x)
  {
  }

  lemma AtSlice(b: Text, i: nat, x: Text)
    requires At(b, i, x)
    ensures b[i..i + |x|] == x
  {
    forall k | 0 <= k < |x| ensures b[i..i + |x|][k] == x[k] { assert b[i + k] == x[k]; }
  }

  // ----- writing

  const LOCAL_SIGNATURE: Text := [80, 75, 3, 4]
  const CENTRAL_SIGNATURE: Text := [80, 75, 1, 2]
  const END_SIGNATURE: Text := [80, 75, 5, 6]

  const VERSION := 20
  const UNIX := 3
  /** 1980-01-01 in DOS form; the time of day is zero. */
  const DATE := 0x21
  /** A regular file with mode 0644. */
  const MODE := 0x81A4

  /** Version, flags, method and time stamp, which are the same for every member. */
  const FIXED: Text := [VERSION, 0, 0, 0, 0, 0, 0, 0, DATE, 0]

  /** Checksum, both sizes, the length of the name and of the (empty) extra field. */
  function Sizes(m: Member, crc: Crc): (b: Text)
    ensures |b| == 16
  {
    (Whole(crc(m.data)) + Whole(|m.data|)) + (Whole(|m.data|) + (Half(|m.name|) + Half(0)))
  }

  /** The local header, the name and the data. */
  function Local(m: Member, crc: Crc): (b: Text)
    ensures |b| == 30 + |m.name| + |m.data|
  {
    (LOCAL_SIGNATURE + FIXED) + (Sizes(m, crc) + (m.name + m.data))
  }

  /** Empty comment, first disk, no internal attributes, and the mode in the upper half of the external ones. */
  const PLACEMENT: Text := [0, 0, 0, 0, 0, 0, 0, 0, MODE % 256, MODE / 256]

  /** The central directory header and the name. */
  function Central(m: Member, offset: nat, crc: Crc): (b: Text)
    ensures |b| == 46 + |m.name|
  {
    (CENTRAL_SIGNATURE + [VERSION, UNIX] + FIXED) + (Sizes(m, crc) + ((PLACEMENT + Whole(offset)) + m.name))
  }

  function Locals(ms: seq<Member>, crc: Crc): Text {
    if ms == [] then [] else Local(ms[0], crc) + Locals(ms[1..], crc)
  }

  function Directory(ms: seq<Member>, offset: nat, crc: Crc): Text {
    if ms == [] then [] else Central(ms[0], offset, crc) + Directory(ms[1..], offset + |Local(ms[0], crc)|, crc)
  }

  function End(count: nat, size: nat, offset: nat): (b: Text)
    ensures |b| == 22
  {
    END_SIGNATURE + ((Half(0) + Half(0)) + ((Half(count) + Half(count)) + ((Whole(size) + Whole(offset)) + Half(0))))
  }

  function Archive(ms: seq<Member>, crc: Crc): Text {
    var locals, directory := Locals(ms, crc), Directory(ms, 0, crc);
    locals + directory + End(|ms|, |directory|, |locals|)
  }

  /** What a 32-bit archive can express. */
  predicate Fits(ms: seq<Member>, crc: Crc) {
    && |ms| < HALF_LIMIT
    && |Locals(ms, crc)| + |Directory(ms, 0, crc)| < WORD_LIMIT
    && ShortNames(ms)
  }

  predicate ShortNames(ms: seq<Member>) { forall i | 0 <= i < |ms| :: |ms[i].name| < HALF_LIMIT }

  lemma Unfold(ms: seq<Member>, i: nat, offset: nat, crc: Crc)
    requires i < |ms|
    ensures Locals(ms[i..], crc) == Local(ms[i], crc) + Locals(ms[i + 1..], crc)
    ensures Directory(ms[i..], offset, crc)
            == Central(ms[i], offset, crc) + Directory(ms[i + 1..], offset + |Local(ms[i], crc)|, crc)
  {
    assert ms[i..][1..] == ms[i + 1..];
  }

  lemma Regroup(x: Text, y: Text, z: Text)
    ensures x + (y + z) == (x + y) + z
  {
  }

  /** After i members: what is left to write completes both sections. */
  ghost predicate Written(ms: seq<Member>, i: nat, locals: Text, directory: Text, crc: Crc) {
    && i <= |ms| && locals + Locals(ms[i..], crc) == Locals(ms, crc)
    && directory + Directory(ms[i..], |locals|, crc) == Directory(ms, 0, crc)
  }

  lemma WriteStep(ms: seq<Member>, i: nat, locals: Text, directory: Text, crc: Crc)
    requires i < |ms| && Written(ms, i, locals, directory, crc)
    ensures Written(ms, i + 1, locals + Local(ms[i], crc), directory + Central(ms[i], |locals|, crc), crc)
  {
    Unfold(ms, i, |locals|, crc);
    Regroup(locals, Local(ms[i], crc), Locals(ms[i + 1..], crc));
    Regroup(directory, Central(ms[i], |locals|, crc), Directory(ms[i + 1..], |locals| + |Local(ms[i], crc)|, crc));
  }

  lemma WrittenAll(ms: seq<Member>, locals: Text, directory: Text, crc: Crc)
    requires Written(ms, |ms|, locals, directory, crc)
    ensures locals == Locals(ms, crc) && directory == Directory(ms, 0, crc)
  {
    NoMore(ms, |locals|, crc);
    AppendNothing(locals, Locals(ms, crc));
    AppendNothing(directory, Directory(ms, 0, crc));
  }

  lemma AppendNothing(x: Text, y: Text)
    requires x + [] == y
    ensures x == y
  {
  }

  lemma NoMore(ms: seq<Member>, offset: nat, crc: Crc)
    ensures Locals(ms[|ms|..], crc) == [] && Directory(ms[|ms|..], offset, crc) == []
  {
  }

  /** `_archive_bytes`. */
  method ArchiveBytes(ms: seq<Member>, crc: Crc) returns (b: Text)
    ensures b == Archive(ms, crc)
  {
    var locals, directory := [], [];
    for i := 0 to |ms|
      invariant Written(ms, i, locals, directory, crc)
    {
      WriteStep(ms, i, locals, directory, crc);
      directory := directory + Central(ms[i], |locals|, crc);
      locals := locals + Local(ms[i], crc);
    }
    WrittenAll(ms, locals, directory, crc);
    b := locals + directory + End(|ms|, |directory|, |locals|);
  }

  // ----- reading

  /** One entry of the central directory, as `zipfile` reports it. */
  datatype Entry = Entry(
    system: int, flags: int, method_: int, time: int, date: int, crc: int, compressedSize: int, size: int,
    extra: Text, comment: Text, attributes: int, offset: int, name: Text)

  function HeadLength(b: Text): (n: int)
    requires |b| >= 46
  {
    46 + ReadHalf(b, 28) + ReadHalf(b, 30) + ReadHalf(b, 32)
  }

  function Natural(n: int): nat { if n < 0 then 0 else n }

  function ParseEntry(b: Text): Entry
    requires |b| >= 46
  {
    var n, x, c := Natural(ReadHalf(b, 28)), Natural(ReadHalf(b, 30)), Natural(ReadHalf(b, 32));
    Entry(b[5], ReadHalf(b, 8), ReadHalf(b, 10), ReadHalf(b, 12), ReadHalf(b, 14), ReadWhole(b, 16),
          ReadWhole(b, 20), ReadWhole(b, 24), Slice(b, 46 + n, 46 + n + x), Slice(b, 46 + n + x, 46 + n + x + c),
          ReadWhole(b, 38), ReadWhole(b, 42), Slice(b, 46, 46 + n))
  }

  /** The reader's loop over the central directory. */
  function ReadDirectory(b: Text): Option<seq<Entry>>
    decreases |b|
  {
    if b == [] then Some([])
    else if |b| < 46 || b[..4] != CENTRAL_SIGNATURE then None
    else
      var head := HeadLength(b);
      var rest := if 46 <= head <= |b| then b[head..] else [];
      match ReadDirectory(rest)
      case None => None
      case Some(entries) => Some([ParseEntry(b)] + entries)
  }

  function EntryOf(m: Member, offset: nat, crc: Crc): Entry {
    Entry(UNIX, 0, 0, 0, DATE, crc(m.data), |m.data|, |m.data|, [], [], MODE * HALF_LIMIT, offset, m.name)
  }

  function Entries(ms: seq<Member>, offset: nat, crc: Crc): (es: seq<Entry>)
    ensures |es| == |ms|
  {
    if ms == [] then []
    else [EntryOf(ms[0], offset, crc)] + Entries(ms[1..], offset + |Local(ms[0], crc)|, crc)
  }

  lemma SizesFields(m: Member, crc: Crc, b: Text, i: nat)
    requires |m.name| < HALF_LIMIT && |m.data| < WORD_LIMIT && At(b, i, Sizes(m, crc))
    ensures ReadWhole(b, i) == crc(m.data) && ReadWhole(b, i + 4) == |m.data| && ReadWhole(b, i + 8) == |m.data|
    ensures ReadHalf(b, i + 12) == |m.name| && ReadHalf(b, i + 14) == 0
  {
    var x, y, z := Whole(crc(m.data)), Whole(|m.data|), Half(|m.name|) + Half(0);
    AtSplit(b, i, x + y, y + z);
    AtSplit(b, i, x, y);
    AtSplit(b, i + 8, y, z);
    AtSplit(b, i + 12, Half(|m.name|), Half(0));
    WholeAt(b, i, crc(m.data));
    WholeAt(b, i + 4, |m.data|);
    WholeAt(b, i + 8, |m.data|);
    HalfAt(b, i + 12, |m.name|);
    HalfAt(b, i + 14, 0);
  }

  lemma PlacementFields(offset: nat, b: Text, i: nat)
    requires offset < WORD_LIMIT && At(b, i, PLACEMENT + Whole(offset))
    ensures ReadHalf(b, i) == 0 && ReadWhole(b, i + 6) == MODE * HALF_LIMIT && ReadWhole(b, i + 10) == offset
  {
    AtSplit(b, i, PLACEMENT, Whole(offset));
    WholeAt(b, i + 10, offset);
    assert b[i + 0] == PLACEMENT[0] && b[i + 1] == PLACEMENT[1] && b[i + 6] == PLACEMENT[6];
    assert b[i + 7] == PLACEMENT[7] && b[i + 8] == PLACEMENT[8] && b[i + 9] == PLACEMENT[9];
  }

  lemma HeadFields(b: Text)
    requires At(b, 0, CENTRAL_SIGNATURE + [VERSION, UNIX] + FIXED)
    ensures b[..4] == CENTRAL_SIGNATURE && b[5] == UNIX
    ensures ReadHalf(b, 8) == 0 && ReadHalf(b, 10) == 0 && ReadHalf(b, 12) == 0 && ReadHalf(b, 14) == DATE
  {
    var h := CENTRAL_SIGNATURE + [VERSION, UNIX] + FIXED;
    assert forall k | 0 <= k < 16 :: b[0 + k] == h[k];
    AtSlice(b, 0, h);
    assert b[..16] == h && b[..4] == b[..16][..4];
    assert h[5] == UNIX && h[8] == 0 && h[9] == 0 && h[10] == 0 && h[11] == 0;
    assert h[12] == 0 && h[13] == 0 && h[14] == DATE && h[15] == 0;
  }

  /** Every field of a central header, read back. */
  lemma CentralFields(m: Member, offset: nat, crc: Crc, b: Text)
    requires |m.name| < HALF_LIMIT && |m.data| < WORD_LIMIT && offset < WORD_LIMIT
    requires At(b, 0, Central(m, offset, crc))
    ensures b[..4] == CENTRAL_SIGNATURE && HeadLength(b) == 46 + |m.name|
    ensures ParseEntry(b) == EntryOf(m, offset, crc)
  {
    var head, sizes, place := CENTRAL_SIGNATURE + [VERSION, UNIX] + FIXED, Sizes(m, crc), PLACEMENT + Whole(offset);
    AtSplit(b, 0, head, sizes + (place + m.name));
    AtSplit(b, 16, sizes, place + m.name);
    AtSplit(b, 32, place, m.name);
    HeadFields(b);
    SizesFields(m, crc, b, 16);
    PlacementFields(offset, b, 32);
    AtSlice(b, 46, m.name);
  }

  lemma OffsetsFit(ms: seq<Member>, crc: Crc)
    requires ms != [] && ShortNames(ms)
    ensures |ms[0].name| < HALF_LIMIT && ShortNames(ms[1..])
    ensures |Locals(ms, crc)| == |Local(ms[0], crc)| + |Locals(ms[1..], crc)|
    ensures |ms[0].data| <= |Local(ms[0], crc)|
  {
  }

  lemma ReadStep(head: Text, rest: Text, e: Entry)
    requires |head| >= 46 && (head + rest)[..4] == CENTRAL_SIGNATURE
    requires HeadLength(head + rest) == |head| && ParseEntry(head + rest) == e
    ensures ReadDirectory(head + rest) ==
            if ReadDirectory(rest).None? then None else Some([e] + ReadDirectory(rest).value)
  {
    assert (head + rest)[|head|..] == rest;
  }

  lemma CentralStep(m: Member, offset: nat, crc: Crc, rest: Text, es: seq<Entry>)
    requires |m.name| < HALF_LIMIT && |m.data| < WORD_LIMIT && offset < WORD_LIMIT
    requires ReadDirectory(rest) == Some(es)
    ensures ReadDirectory(Central(m, offset, crc) + rest) == Some([EntryOf(m, offset, crc)] + es)
  {
    var head := Central(m, offset, crc);
    AtFront(head, rest);
    CentralFields(m, offset, crc, head + rest);
    ReadStep(head, rest, EntryOf(m, offset, crc));
  }

  /** A directory reader that handles one central header after another. */
  ghost predicate Stepwise(read: Text -> Option<seq<Entry>>, crc: Crc) {
    && read([]) == Some([])
    && forall m: Member, offset: nat, rest: Text, es: seq<Entry> ::
         |m.name| < HALF_LIMIT && |m.data| < WORD_LIMIT && offset < WORD_LIMIT && read(rest) == Some(es) ==>
         read(Central(m, offset, crc) + rest) == Some([EntryOf(m, offset, crc)] + es)
  }

  lemma {:induction false} StepwiseReads(read: Text -> Option<seq<Entry>>, ms: seq<Member>, offset: nat, crc: Crc)
    requires Stepwise(read, crc) && offset + |Locals(ms, crc)| < WORD_LIMIT && ShortNames(ms)
    ensures read(Directory(ms, offset, crc)) == Some(Entries(ms, offset, crc))
  {
    if ms != [] {
      OffsetsFit(ms, crc);
      StepwiseReads(read, ms[1..], offset + |Local(ms[0], crc)|, crc);
    }
  }

  /** The directory loop of the reader undoes the writer's. */
  lemma DirectoryReadsBack(ms: seq<Member>, offset: nat, crc: Crc)
    requires offset + |Locals(ms, crc)| < WORD_LIMIT && ShortNames(ms)
    ensures ReadDirectory(Directory(ms, offset, crc)) == Some(Entries(ms, offset, crc))
  {
    ReaderIsStepwise(crc);
    StepwiseReads(ReadDirectory, ms, offset, crc);
  }

  lemma ReaderIsStepwise(crc: Crc)
    ensures Stepwise(ReadDirectory, crc)
  {
    forall m: Member, offset: nat, rest: Text, es: seq<Entry> |
      |m.name| < HALF_LIMIT && |m.data| < WORD_LIMIT && offset < WORD_LIMIT && ReadDirectory(rest) == Some(es)
      ensures ReadDirectory(Central(m, offset, crc) + rest) == Some([EntryOf(m, offset, crc)] + es)
    {
      CentralStep(m, offset, crc, rest, es);
    }
  }

  /** `ZipFile.open` and a full read of one member; None when the reader refuses. */
  function ReadMember(b: Text, e: Entry, crc: Crc): Option<Text> {
    if e.offset < 0 || e.offset + 30 > |b| || b[e.offset..e.offset + 4] != LOCAL_SIGNATURE then None
    else
      var n, x := Natural(ReadHalf(b, e.offset + 26)), Natural(ReadHalf(b, e.offset + 28));
      var name := Slice(b, e.offset + 30, e.offset + 30 + n);
      var start := e.offset + 30 + n + x;
      var stored := if e.compressedSize < e.size then e.compressedSize else e.size;
      var data := Slice(b, start, start + Natural(stored));
      if name != e.name || |data| != e.size || crc(data) != e.crc then None else Some(data)
  }

  lemma LocalFields(m: Member, crc: Crc, b: Text, i: nat)
    requires |m.name| < HALF_LIMIT && |m.data| < WORD_LIMIT && At(b, i, Local(m, crc))
    ensures b[i..i + 4] == LOCAL_SIGNATURE && ReadHalf(b, i + 26) == |m.name| && ReadHalf(b, i + 28) == 0
    ensures b[i + 30..i + 30 + |m.name|] == m.name
    ensures b[i + 30 + |m.name|..i + 30 + |m.name| + |m.data|] == m.data
  {
    AtSplit(b, i, LOCAL_SIGNATURE + FIXED, Sizes(m, crc) + (m.name + m.data));
    AtSplit(b, i, LOCAL_SIGNATURE, FIXED);
    AtSlice(b, i, LOCAL_SIGNATURE);
    AtSplit(b, i + 14, Sizes(m, crc), m.name + m.data);
    SizesFields(m, crc, b, i + 14);
    AtSplit(b, i + 30, m.name, m.data);
    AtSlice(b, i + 30, m.name);
    AtSlice(b, i + 30 + |m.name|, m.data);
  }

  lemma MemberReadsBack(m: Member, crc: Crc, b: Text, i: nat)
    requires |m.name| < HALF_LIMIT && |m.data| < WORD_LIMIT && At(b, i, Local(m, crc))
    ensures ReadMember(b, EntryOf(m, i, crc), crc) == Some(m.data)
  {
    LocalFields(m, crc, b, i);
  }

  lemma EntriesStep(ms: seq<Member>, offset: nat, crc: Crc, k: nat)
    requires k < |ms|
    ensures Entries(ms, offset, crc)[k] ==
            if k == 0 then EntryOf(ms[0], offset, crc) else Entries(ms[1..], offset + |Local(ms[0], crc)|, crc)[k - 1]
  {
  }

  /** Every member is found at its recorded offset. */
  lemma {:induction false} MembersReadBack(ms: seq<Member>, offset: nat, crc: Crc, b: Text, k: nat)
    requires k < |ms| && At(b, offset, Locals(ms, crc))
    requires |Locals(ms, crc)| < WORD_LIMIT && ShortNames(ms)
    ensures ReadMember(b, Entries(ms, offset, crc)[k], crc) == Some(ms[k].data)
  {
    OffsetsFit(ms, crc);
    LocalsAt(ms, offset, crc, b);
    EntriesStep(ms, offset, crc, k);
    if k == 0 {
      MemberReadsBack(ms[0], crc, b, offset);
    } else {
      MembersReadBack(ms[1..], offset + |Local(ms[0], crc)|, crc, b, k - 1);
    }
  }

  lemma LocalsAt(ms: seq<Member>, offset: nat, crc: Crc, b: Text)
    requires ms != [] && At(b, offset, Locals(ms, crc))
    ensures At(b, offset, Local(ms[0], crc)) && At(b, offset + |Local(ms[0], crc)|, Locals(ms[1..], crc))
  {
    AtSplit(b, offset, Local(ms[0], crc), Locals(ms[1..], crc));
  }

  /** What the reader reports about a member, apart from its place. */
  lemma {:induction false} EntryFields(ms: seq<Member>, offset: nat, crc: Crc, k: nat)
    requires k < |ms|
    ensures exists at: nat :: Entries(ms, offset, crc)[k] == EntryOf(ms[k], at, crc)
  {
    EntriesStep(ms, offset, crc, k);
    if k > 0 { EntryFields(ms[1..], offset + |Local(ms[0], crc)|, crc, k - 1); }
  }

  // ----- the preflight

  /** `_preflight_zip`: the declared number of members. */
  function Preflight(b: Text): Option<nat> {
    if |b| < 22 || b[..4] != LOCAL_SIGNATURE then None
    else
      var e := |b| - 22;
      var count, size, offset := ReadHalf(b, e + 10), ReadWhole(b, e + 12), ReadWhole(b, e + 16);
      if b[e..e + 4] != END_SIGNATURE || ReadHalf(b, e + 20) != 0 then None
      else if ReadHalf(b, e + 4) != 0 || ReadHalf(b, e + 6) != 0 || ReadHalf(b, e + 8) != count then None
      else if count <= 0 || count > MAX_ARCHIVE_MEMBERS then None
      else if offset + size != e then None
      else if size > MAX_CENTRAL_DIRECTORY_BYTES then None
      else if offset < 0 || Slice(b, offset, offset + 4) != CENTRAL_SIGNATURE then None
      else Some(count)
  }

  lemma EndFields(b: Text, e: nat, count: nat, size: nat, offset: nat)
    requires At(b, e, End(count, size, offset)) && count < HALF_LIMIT && size < WORD_LIMIT && offset < WORD_LIMIT
    ensures b[e..e + 4] == END_SIGNATURE && ReadHalf(b, e + 20) == 0
    ensures ReadHalf(b, e + 4) == 0 && ReadHalf(b, e + 6) == 0
    ensures ReadHalf(b, e + 8) == count && ReadHalf(b, e + 10) == count
    ensures ReadWhole(b, e + 12) == size && ReadWhole(b, e + 16) == offset
  {
    var disks, counts, where := Half(0) + Half(0), Half(count) + Half(count), Whole(size) + Whole(offset);
    AtSplit(b, e, END_SIGNATURE, disks + (counts + (where + Half(0))));
    AtSplit(b, e + 4, disks, counts + (where + Half(0)));
    AtSplit(b, e + 8, counts, where + Half(0));
    AtSplit(b, e + 12, where, Half(0));
    AtSlice(b, e, END_SIGNATURE);
    AtSplit(b, e + 4, Half(0), Half(0));
    AtSplit(b, e + 8, Half(count), Half(count));
    AtSplit(b, e + 12, Whole(size), Whole(offset));
    EndNumbers(b, e, count, size, offset);
  }

  lemma EndNumbers(b: Text, e: nat, count: nat, size: nat, offset: nat)
    requires count < HALF_LIMIT && size < WORD_LIMIT && offset < WORD_LIMIT
    requires At(b, e + 4, Half(0)) && At(b, e + 6, Half(0)) && At(b, e + 8, Half(count)) && At(b, e + 10, Half(count))
    requires At(b, e + 12, Whole(size)) && At(b, e + 16, Whole(offset)) && At(b, e + 20, Half(0))
    ensures ReadHalf(b, e + 4) == 0 && ReadHalf(b, e + 6) == 0 && ReadHalf(b, e + 20) == 0
    ensures ReadHalf(b, e + 8) == count && ReadHalf(b, e + 10) == count
    ensures ReadWhole(b, e + 12) == size && ReadWhole(b, e + 16) == offset
  {
    HalfAt(b, e + 4, 0);
    HalfAt(b, e + 6, 0);
    HalfAt(b, e + 8, count);
    HalfAt(b, e + 10, count);
    WholeAt(b, e + 12, size);
    WholeAt(b, e + 16, offset);
    HalfAt(b, e + 20, 0);
  }

  /** The end record, for sections that are given. */
  ghost predicate Laid(b: Text, l: Text, d: Text, count: nat) {
    && |b| == |l| + |d| + 22 && |l| + |d| < WORD_LIMIT && count < HALF_LIMIT
    && b[|l|..|l| + |d|] == d && At(b, |l| + |d|, End(count, |d|, |l|))
  }

  lemma EndOfArchive(b: Text, l: Text, d: Text, count: nat)
    requires Laid(b, l, d, count)
    ensures b[|b| - 22..|b| - 18] == END_SIGNATURE && ReadHalf(b, |b| - 2) == 0
    ensures ReadHalf(b, |b| - 18) == 0 && ReadHalf(b, |b| - 16) == 0
    ensures ReadHalf(b, |b| - 14) == count && ReadHalf(b, |b| - 12) == count
    ensures ReadWhole(b, |b| - 10) == |d| && ReadWhole(b, |b| - 6) == |l|
  {
    EndFields(b, |l| + |d|, count, |d|, |l|);
  }

  lemma PreflightOf(b: Text, l: Text, d: Text, count: nat)
    requires Laid(b, l, d, count)
    requires count > 0 ==> b[..4] == LOCAL_SIGNATURE && Slice(b, |l|, |l| + 4) == CENTRAL_SIGNATURE
    ensures Preflight(b) ==
            if 0 < count <= MAX_ARCHIVE_MEMBERS && |d| <= MAX_CENTRAL_DIRECTORY_BYTES then Some(count) else None
  {
    EndOfArchive(b, l, d, count);
  }

  /** Where the three sections lie. */
  lemma Lay(l: Text, d: Text, count: nat)
    requires |l| + |d| < WORD_LIMIT && count < HALF_LIMIT
    ensures var b := l + d + End(count, |d|, |l|); Laid(b, l, d, count) && At(b, 0, l) && At(b, |l|, d)
  {
    var e := End(count, |d|, |l|);
    var b := l + d + e;
    AtFront(b, []);
    AppendNothing(b, b + []);
    AtSplit(b, 0, l + d, e);
    AtSplit(b, 0, l, d);
    AtSlice(b, |l|, d);
  }

  lemma ArchiveIsLaid(ms: seq<Member>, crc: Crc)
    requires Fits(ms, crc)
    ensures var b, l, d := Archive(ms, crc), Locals(ms, crc), Directory(ms, 0, crc);
            Laid(b, l, d, |ms|) && At(b, 0, l) && At(b, |l|, d)
  {
    Lay(Locals(ms, crc), Directory(ms, 0, crc), |ms|);
  }

  /** On what the writer writes, the preflight returns the number of members exactly when there is at least one, there
      are at most 35, and the directory is within its limit. */
  lemma PreflightArchive(ms: seq<Member>, crc: Crc)
    requires Fits(ms, crc)
    ensures Preflight(Archive(ms, crc)) ==
            if ms != [] && |ms| <= MAX_ARCHIVE_MEMBERS && |Directory(ms, 0, crc)| <= MAX_CENTRAL_DIRECTORY_BYTES
            then Some(|ms|) else None
  {
    ArchiveIsLaid(ms, crc);
    if ms != [] { FirstSignatures(ms, crc, Archive(ms, crc)); }
    PreflightOf(Archive(ms, crc), Locals(ms, crc), Directory(ms, 0, crc), |ms|);
  }

  lemma FirstSignatures(ms: seq<Member>, crc: Crc, b: Text)
    requires ms != [] && At(b, 0, Locals(ms, crc)) && At(b, |Locals(ms, crc)|, Directory(ms, 0, crc))
    ensures |b| >= 4 && b[..4] == LOCAL_SIGNATURE
    ensures Slice(b, |Locals(ms, crc)|, |Locals(ms, crc)| + 4) == CENTRAL_SIGNATURE
  {
    var m, l := ms[0], |Locals(ms, crc)|;
    AtSplit(b, 0, Local(m, crc), Locals(ms[1..], crc));
    AtSplit(b, 0, LOCAL_SIGNATURE + FIXED, Sizes(m, crc) + (m.name + m.data));
    AtSplit(b, 0, LOCAL_SIGNATURE, FIXED);
    AtSlice(b, 0, LOCAL_SIGNATURE);
    assert b[..4] == b[0..4];
    var head := CENTRAL_SIGNATURE + [VERSION, UNIX] + FIXED;
    AtSplit(b, l, Central(m, 0, crc), Directory(ms[1..], |Local(m, crc)|, crc));
    AtSplit(b, l, head, Sizes(m, crc) + ((PLACEMENT + Whole(0)) + m.name));
    AtSplit(b, l, CENTRAL_SIGNATURE + [VERSION, UNIX], FIXED);
    AtSplit(b, l, CENTRAL_SIGNATURE, [VERSION, UNIX]);
    AtSlice(b, l, CENTRAL_SIGNATURE);
  }

  // ----- the whole reader

  function DirectoryBytes(b: Text): Text
    requires |b| >= 22
  {
    Slice(b, Natural(ReadWhole(b, |b| - 6)), |b| - 22)
  }

  /** The entries of the directory the end record points to. */
  function OpenArchive(b: Text): Option<seq<Entry>>
    requires Preflight(b).Some?
  {
    ReadDirectory(DirectoryBytes(b))
  }

  lemma OpenLaid(b: Text, l: Text, d: Text, count: nat)
    requires Laid(b, l, d, count)
    ensures DirectoryBytes(b) == d
  {
    EndOfArchive(b, l, d, count);
  }

  lemma OpenReadsBack(ms: seq<Member>, crc: Crc)
    requires Fits(ms, crc) && Preflight(Archive(ms, crc)).Some?
    ensures OpenArchive(Archive(ms, crc)) == Some(Entries(ms, 0, crc))
  {
    ArchiveIsLaid(ms, crc);
    OpenLaid(Archive(ms, crc), Locals(ms, crc), Directory(ms, 0, crc), |ms|);
    DirectoryReadsBack(ms, 0, crc);
  }

  lemma SameLayout(b: Text, l: Text, d: Text, count: nat, l': Text, d': Text, count': nat)
    requires Laid(b, l, d, count) && Laid(b, l', d', count')
    ensures d == d'
  {
    EndOfArchive(b, l, d, count);
    EndOfArchive(b, l', d', count');
  }

  /** The archive determines its members: names, contents and order. */
  lemma ArchiveInjective(ms: seq<Member>, ns: seq<Member>, crc: Crc)
    requires Fits(ms, crc) && Fits(ns, crc) && Archive(ms, crc) == Archive(ns, crc)
    ensures ms == ns
  {
    ArchiveIsLaid(ms, crc);
    ArchiveIsLaid(ns, crc);
    SameLayout(Archive(ms, crc), Locals(ms, crc), Directory(ms, 0, crc), |ms|, Locals(ns, crc), Directory(ns, 0, crc),
               |ns|);
    DirectoryReadsBack(ms, 0, crc);
    DirectoryReadsBack(ns, 0, crc);
    SameEntries(ms, ns, crc, Archive(ms, crc));
  }

  lemma SameEntries(ms: seq<Member>, ns: seq<Member>, crc: Crc, b: Text)
    requires Entries(ms, 0, crc) == Entries(ns, 0, crc) && ShortNames(ms) && ShortNames(ns)
    requires At(b, 0, Locals(ms, crc)) && At(b, 0, Locals(ns, crc))
    requires |Locals(ms, crc)| < WORD_LIMIT && |Locals(ns, crc)| < WORD_LIMIT
    ensures ms == ns
  {
    assert |ms| == |Entries(ms, 0, crc)| == |ns|;
    forall k | 0 <= k < |ms| ensures ms[k] == ns[k] {
      MembersReadBack(ms, 0, crc, b, k);
      MembersReadBack(ns, 0, crc, b, k);
      EntryFields(ms, 0, crc, k);
      EntryFields(ns, 0, crc, k);
    }
  }
}
