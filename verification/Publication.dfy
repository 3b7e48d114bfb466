/** Publication of the benchmark evidence pair (results file, manifest file).

    A disk is a map from directory entries to inodes plus a map from inodes to bytes.
    Every call into the operating system is one step of a clock, and an arbitrary
    fault plan `fails` says which steps raise, so a proof about one call of
    `PublishPair` covers every combination of failures, those during rollback and
    cleanup included.  The ghost set `crashes` collects the pair of visible files after
    every single change of a name: the states in which the process could be killed.
 */
module Publication {
  import opened Wrappers

  type Bytes = seq<int>

  datatype Entry = Entry(dir: nat, file: string)

  /** `_StagedFile` on POSIX: where the bytes are, the identity of the file, and
      whether it has been moved onto its target. */
  datatype Staged = Staged(entry: Entry, inode: nat, published: bool)

  /** What the two target names show: the bytes, or nothing. */
  datatype Pair = Pair(results: Option<Bytes>, manifest: Option<Bytes>)

  /** The identity the initialization preflight recorded for the existing results. */
  datatype Initialization = Initialization(inode: nat, payload: Bytes)

  datatype Outcome =
    | Refused          // an exception before the first change
    | Published        // the try block completed
    | RolledBack       // a step failed and the original exception is raised again
    | RollbackFailed   // "publication and rollback both failed"

  /** The kinds of calls into the operating system.  The removal of the staging name behind a link and the fstat behind
      a creation are kinds of their own. */
  datatype Call = AtLook | AtCreate | AtStat | AtWrite | AtRename | AtLink | AtUnlinkLinked | AtUnlink

  const MAX_RESULTS_BYTES := 8 * 1024 * 1024
  const MAX_MANIFEST_BYTES := 8 * 1024 * 1024
  const STAGING_ATTEMPTS := 128

  predicate EndsWith(s: string, suffix: string) {
    |s| > |suffix| && forall i | 0 <= i < |suffix| :: s[|s| - |suffix| + i] == suffix[i]
  }

  lemma LastCharacter(s: string, suffix: string)
    requires suffix != ""
    ensures EndsWith(s, suffix) ==> s[|s| - 1] == suffix[|suffix| - 1]
  {
    if EndsWith(s, suffix) {
      assert s[|s| - |suffix| + (|suffix| - 1)] == suffix[|suffix| - 1];
    }
  }

  predicate IsStaging(e: Entry) {
    EndsWith(e.file, ".tmp")
  }

  function StagingEntry(dir: nat, token: string): (e: Entry)
    ensures IsStaging(e) && e.dir == dir
  {
    Entry(dir, StagingName(token))
  }

  function StagingName(token: string): (s: string)
    ensures EndsWith(s, ".tmp")
  {
    ".evoguard-" + token + ".tmp"
  }

  /** What a manifest payload says about its results file. */
  datatype Recorded = Recorded(runId: string, sha256: Bytes, size: int, rows: int)

  /** The readers of evidence payloads: the row run ids of a results file, the record
      of a manifest, and SHA-256. */
  datatype Readers = Readers(
    runIds: Bytes -> Option<seq<string>>,
    recorded: Bytes -> Option<Recorded>,
    sha256: Bytes -> Bytes)
  {
    /** The digest, byte count and row count in the manifest are those of the results. */
    predicate DigestMatches(results: Bytes, manifest: Bytes) {
      && runIds(results).Some?
      && recorded(manifest).Some?
      && var m := recorded(manifest).value;
         && m.sha256 == sha256(results)
         && m.size == |results|
         && m.rows == |runIds(results).value|
    }

    /** The generation link: every row carries the run id of the manifest. */
    predicate Linked(results: Bytes, manifest: Bytes) {
      && DigestMatches(results, manifest)
      && var ids := runIds(results).value;
         && ids != []
         && forall i | 0 <= i < |ids| :: ids[i] == recorded(manifest).value.runId
    }
  }

  lemma {:induction false} Subset(a: set<Entry>, b: set<Entry>)
    requires a <= b
    ensures |a| <= |b|
    decreases b
  {
    if b != {} {
      var x :| x in b;
      Subset(a - {x}, b - {x});
    }
  }

  datatype Disk = Disk(names: map<Entry, nat>, data: map<nat, Bytes>, next: nat) {

    ghost predicate Consistent() {
      && (forall e | e in names :: names[e] in data)
      && (forall i | i in data :: i < next)
    }

    function Inode(e: Entry): Option<nat> {
      if e in names then Some(names[e]) else None
    }

    function Bytes(e: Entry): Option<Bytes> {
      if e in names && names[e] in data then Some(data[names[e]]) else None
    }

    function Links(inode: nat): nat {
      |set e | e in names && names[e] == inode|
    }

    /** The file under this name has no other name. */
    ghost predicate OnlyName(e: Entry) {
      e in names && forall x | x in names && names[x] == names[e] :: x == e
    }

    ghost predicate AtMost(e: Entry, limit: nat) {
      Bytes(e).Some? ==> |Bytes(e).value| <= limit
    }

    lemma OneLink(e: Entry)
      requires e in names
      ensures Links(names[e]) == 1 <==> OnlyName(e)
    {
      var all := set x | x in names && names[x] == names[e];
      assert e in all;
      if OnlyName(e) { assert all == {e}; }
      if |all| == 1 {
        forall x | x in names && names[x] == names[e] ensures x == e {
          if x != e {
            assert {x, e} <= all;
            Subset({x, e}, all);
          }
        }
      }
    }

    function Removed(e: Entry): Disk {
      this.(names := names - {e})
    }

    function Linked(e: Entry, inode: nat): Disk {
      this.(names := names[e := inode])
    }

    /** The staged file now has the target's name and no other. */
    function Moved(s: Staged, target: Entry): Disk {
      Linked(target, s.inode).Removed(s.entry)
    }

    function Created(e: Entry): Disk {
      Disk(names[e := next], data[next := []], next + 1)
    }

    function Written(inode: nat, payload: Bytes): Disk {
      this.(data := data[inode := payload])
    }

    /** The staged file is intact under its staging name. */
    ghost predicate Holds(s: Staged, payload: Bytes) {
      && !s.published
      && Inode(s.entry) == Some(s.inode)
      && Bytes(s.entry) == Some(payload)
    }

    /** A file is staged exactly when there was something to stage. */
    ghost predicate StagedFor(s: Option<Staged>, payload: Option<Bytes>) {
      s.Some? == payload.Some? && (s.Some? ==> Holds(s.value, payload.value))
    }
  }

  ghost predicate SameAt(before: Disk, after: Disk, e: Entry) {
    before.Inode(e) == after.Inode(e) && before.Bytes(e) == after.Bytes(e)
  }

  /** Names may have been added, and no file has lost or changed its bytes. */
  ghost predicate Extends(before: Disk, after: Disk) {
    && (forall e | e in before.names :: e in after.names && after.names[e] == before.names[e])
    && (forall i | i in before.data :: i in after.data && after.data[i] == before.data[i])
  }

  /** Every entry but these is as before. */
  ghost predicate SameOutside(before: Disk, after: Disk, changed: set<Entry>) {
    forall e: Entry | e !in changed :: SameAt(before, after, e)
  }

  lemma SameOutsideTwice(a: Disk, b: Disk, c: Disk, changed: set<Entry>)
    requires SameOutside(a, b, changed) && SameOutside(b, c, changed)
    ensures SameOutside(a, c, changed)
  {
    forall e: Entry | e !in changed ensures SameAt(a, c, e) { assert SameAt(a, b, e) && SameAt(b, c, e); }
  }

  lemma SameOutsideMore(a: Disk, b: Disk, some: set<Entry>, more: set<Entry>)
    requires SameOutside(a, b, some) && some <= more
    ensures SameOutside(a, b, more)
  {
  }

  ghost function Entries(s: Option<Staged>): set<Entry> {
    if s.Some? then {s.value.entry} else {}
  }

  /** A fresh staging file disturbs no other entry, whether it is kept or removed again. */
  lemma StagingKeeps(d: Disk, e: Entry, payload: Bytes)
    requires d.Consistent() && d.Inode(e).None?
    ensures var w := d.Created(e).Written(d.next, payload);
            && w.Consistent() && Extends(d, w)
            && w.Removed(e).Consistent() && Extends(d, w.Removed(e))
            && w.Holds(Staged(e, d.next, false), payload) && w.names.Keys == d.names.Keys + {e}
    ensures var w := d.Created(e).Written(d.next, payload);
            forall x: Entry | x != e :: w.Bytes(x) == d.Bytes(x) && w.Removed(e).Bytes(x) == d.Bytes(x)
  {
  }

  /** The pairs a call may pass through: each file old or new, independently. */
  ghost function Mixed(was: Pair, resultsPayload: Bytes, manifestPayload: Bytes): set<Pair> {
    {was, Pair(Some(resultsPayload), was.manifest), Pair(Some(resultsPayload), Some(manifestPayload)),
     Pair(was.results, Some(manifestPayload))}
  }

  /** What is remembered about the staging of one call.  `start` and `since` are the names on disk and the number of
      names drawn when it began. */
  datatype Books = Books(
    start: set<Entry>,
    since: nat,
    own: set<Entry>,        // the names under which the call has created a file
    exhausted: bool,        // a search for a staging name found none
    creations: set<nat>,    // when a created file was to be looked at
    statFailed: bool,       // one of these looks failed
    abandoned: bool)        // a created file could not be removed again
  {
    ghost predicate Later(b: Books) {
      b.start == start && b.since == since && own <= b.own && creations <= b.creations
    }
  }

  /** How far the two moves of the try block have come. */
  datatype Progress = Nothing | ResultsStray | ResultsMoved | ManifestStray | BothMoved

  class Publisher {
    const results: Entry
    const manifest: Entry
    const readers: Readers
    const fails: (nat, Call) -> bool
    const token: nat -> string

    var disk: Disk
    var clock: nat
    var draws: nat

    ghost var crashes: set<Pair>
    ghost var faults: nat           // failed steps, and searches for a staging name that found none
    ghost var attempts: set<nat>    // when a staging name was to be removed behind a link
    ghost var stray: bool           // one of these removals failed
    ghost var books: Books

    constructor (results: Entry, manifest: Entry, readers: Readers, fails: (nat, Call) -> bool, token: nat -> string,
                 disk: Disk)
      requires disk.Consistent()
      ensures Valid() && clock == 0 && draws == 0 && crashes == {Visible()}
      ensures this.disk == disk && this.results == results && this.manifest == manifest
      ensures this.readers == readers && this.fails == fails && this.token == token
    {
      this.results, this.manifest, this.readers, this.fails, this.token := results, manifest, readers, fails, token;
      this.disk, this.clock, this.draws := disk, 0, 0;
      this.faults, this.attempts, this.stray := 0, {}, false;
      this.books := Books({}, 0, {}, false, {}, false, false);
      this.crashes := {Pair(disk.Bytes(results), disk.Bytes(manifest))};
    }

    function View(d: Disk): Pair {
      Pair(d.Bytes(results), d.Bytes(manifest))
    }

    function Visible(): Pair
      reads this`disk
    {
      View(disk)
    }

    ghost predicate Valid()
      reads this`disk, this`crashes, this`faults, this`attempts, this`stray, this`books
    {
      disk.Consistent() && Visible() in crashes && Accounted()
    }

    // ----- faults and the plan

    /** The plan makes some call fail that is neither the removal behind a link nor the fstat behind a creation. */
    ghost predicate OthersMayFail() {
      exists t: nat, c: Call | c != AtUnlinkLinked && c != AtStat :: fails(t, c)
    }

    /** The plan makes one of these removals fail. */
    ghost predicate SomeFails(ts: set<nat>) {
      exists t | t in ts :: fails(t, AtUnlinkLinked)
    }

    /** The plan makes one of these fstat calls fail. */
    ghost predicate SomeStatFails(ts: set<nat>) {
      exists t | t in ts :: fails(t, AtStat)
    }

    /** A file created just before step t stays: its fstat fails, which nothing handles, or its write fails and the
        removal after it too. */
    ghost predicate Abandons(t: nat) {
      fails(t, AtStat) || (fails(t + 1, AtWrite) && fails(t + 2, AtUnlink))
    }

    ghost predicate SomeAbandoned(ts: set<nat>) {
      exists t | t in ts :: Abandons(t)
    }

    /** The failed removals behind a link and fstats behind a creation, of which there is at most one each. */
    ghost function Charged(): nat
      reads this`stray, this`books
    {
      (if stray then 1 else 0) + if books.statFailed then 1 else 0
    }

    /** Every fault has its cause in the plan, or in the staging names. */
    ghost predicate Accounted()
      reads this`faults, this`attempts, this`stray, this`books
    {
      && stray == SomeFails(attempts)
      && faults >= Charged()
      && (faults > Charged() ==> books.exhausted || OthersMayFail())
    }

    /** A staging name drawn by the calls from one draw to another. */
    ghost predicate Drawn(e: Entry, from: nat, to: nat) {
      e.dir in {results.dir, manifest.dir} && exists k: nat | from <= k < to :: e.file == StagingName(token(k))
    }

    ghost predicate AllDrawn(es: set<Entry>, from: nat, to: nat) {
      forall e | e in es :: Drawn(e, from, to)
    }

    /** Some name drawn in between was in use from the start, or drawn before. */
    ghost predicate Repeats(start: set<Entry>, from: nat, to: nat) {
      exists dir: nat, k: nat | from <= k < to ::
        StagingEntry(dir, token(k)) in start || Drawn(StagingEntry(dir, token(k)), from, k)
    }

    /** The created names were drawn by this call, and names run out only where they repeat. */
    ghost predicate NamesKept(b: Books, to: nat) {
      b.since <= to && AllDrawn(b.own, b.since, to) && (b.exhausted ==> Repeats(b.start, b.since, to))
    }

    /** The plan decides what is left over. */
    ghost predicate PlanKept(b: Books) {
      b.statFailed == SomeStatFails(b.creations) && b.abandoned == SomeAbandoned(b.creations)
    }

    ghost predicate Kept(b: Books, to: nat) {
      NamesKept(b, to) && PlanKept(b)
    }

    /** One more name is drawn; one that is drawn while it is in use repeats. */
    lemma DrawNext(b: Books, to: nat, dir: nat, names: set<Entry>)
      requires NamesKept(b, to) && Proper() && dir in {results.dir, manifest.dir} && names <= b.start + b.own
      ensures var e := StagingEntry(dir, token(to));
              && NamesKept(b, to + 1) && NamesKept(b.(own := b.own + {e}), to + 1) && Aside(e)
              && (e in names ==> Repeats(b.start, b.since, to + 1))
    {
      var e := StagingEntry(dir, token(to));
      assert Drawn(e, b.since, to + 1);
      forall x | x in b.own ensures Drawn(x, b.since, to + 1) { assert Drawn(x, b.since, to); }
      if b.exhausted { RepeatsMore(b.start, b.since, to, to + 1); }
      if e in names { assert e in b.start || Drawn(e, b.since, to); }
    }

    lemma RepeatsMore(start: set<Entry>, from: nat, to: nat, more: nat)
      requires Repeats(start, from, to) && to <= more
      ensures Repeats(start, from, more)
    {
      var dir: nat, k: nat :| from <= k < to
        && (StagingEntry(dir, token(k)) in start || Drawn(StagingEntry(dir, token(k)), from, k));
    }

    /** The shape of destinations that the argument checks enforce. */
    ghost predicate Proper() {
      results != manifest && !IsStaging(results) && !IsStaging(manifest)
    }

    /** A name that is neither of the targets. */
    predicate Aside(e: Entry) {
      e != results && e != manifest
    }

    // ----- single steps

    method Step(c: Call) returns (ok: bool)
      requires Accounted() && c != AtUnlinkLinked && c != AtStat
      modifies this`clock, this`faults
      ensures Accounted()
      ensures ok == !fails(old(clock), c) && clock == old(clock) + 1
      ensures faults == old(faults) + if ok then 0 else 1
    {
      ok := !fails(clock, c);
      clock := clock + 1;
      if !ok { faults := faults + 1; }
    }

    /** Make a changed disk the visible one, and remember that a crash may follow. */
    method Commit(d: Disk)
      requires d.Consistent() && Accounted()
      modifies this`disk, this`crashes
      ensures Valid() && disk == d && crashes == old(crashes) + {Visible()}
    {
      disk := d;
      crashes := crashes + {Visible()};
    }

    /** `_unlink_from_directory`: a missing entry is not an error. */
    method Unlink(e: Entry) returns (ok: bool)
      requires Valid()
      modifies this`clock, this`faults, this`disk, this`crashes
      ensures Valid()
      ensures ok == !fails(old(clock), AtUnlink) && clock == old(clock) + 1
      ensures disk == if ok then old(disk).Removed(e) else old(disk)
      ensures crashes == old(crashes) + {Visible()}
      ensures faults == old(faults) + if ok then 0 else 1
    {
      ok := Step(AtUnlink);
      if ok { Commit(disk.Removed(e)); }
    }

    /** The same call for the staging name behind a link that was just made. */
    method UnlinkLinked(e: Entry) returns (ok: bool)
      requires Valid() && !stray
      modifies this`clock, this`faults, this`disk, this`crashes, this`attempts, this`stray
      ensures Valid()
      ensures ok == !fails(old(clock), AtUnlinkLinked) && stray == !ok && attempts == old(attempts) + {old(clock)}
      ensures disk == if ok then old(disk).Removed(e) else old(disk)
      ensures crashes == old(crashes) + {Visible()}
      ensures faults == old(faults) + if ok then 0 else 1
    {
      ok := !fails(clock, AtUnlinkLinked);
      attempts := attempts + {clock};
      clock := clock + 1;
      if ok {
        disk := disk.Removed(e);
      } else {
        faults := faults + 1;
        stray := true;
      }
      crashes := crashes + {Visible()};
    }

    /** `os.rename` of a staged file onto its target. */
    method Rename(s: Staged, target: Entry) returns (ok: bool)
      requires Valid() && disk.Inode(s.entry) == Some(s.inode) && s.entry != target
      modifies this`clock, this`faults, this`disk, this`crashes
      ensures Valid()
      ensures ok == !fails(old(clock), AtRename)
      ensures disk == if ok then old(disk).Moved(s, target) else old(disk)
      ensures crashes == old(crashes) + {Visible()}
      ensures faults == old(faults) + if ok then 0 else 1
    {
      ok := Step(AtRename);
      if ok { Commit(disk.Moved(s, target)); }
    }

    /** `os.link` refuses an existing destination. */
    method Link(s: Staged, target: Entry) returns (ok: bool)
      requires Valid() && disk.Inode(s.entry) == Some(s.inode)
      modifies this`clock, this`faults, this`disk, this`crashes
      ensures Valid()
      ensures ok == (!fails(old(clock), AtLink) && old(disk).Inode(target).None?) && clock == old(clock) + 1
      ensures ok == (faults == old(faults) && old(disk).Inode(target).None?)
      ensures disk == if ok then old(disk).Linked(target, s.inode) else old(disk)
      ensures crashes == old(crashes) + {Visible()}
      ensures faults >= old(faults)
    {
      ok := Step(AtLink);
      ok := ok && disk.Inode(target).None?;
      if ok { Commit(disk.Linked(target, s.inode)); }
    }

    /** `_assert_staged_identity`. */
    method AssertIdentity(s: Staged, at: Entry) returns (ok: bool)
      requires Accounted()
      modifies this`clock, this`faults
      ensures Accounted()
      ensures ok == (!fails(old(clock), AtLook) && disk.Inode(at) == Some(s.inode)) && clock == old(clock) + 1
      ensures ok == (faults == old(faults) && disk.Inode(at) == Some(s.inode))
      ensures faults >= old(faults)
    {
      ok := Step(AtLook);
      ok := ok && disk.Inode(at) == Some(s.inode);
    }

    /** `_read_pinned_regular_file`. */
    method Read(e: Entry, limit: nat) returns (r: Option<Bytes>)
      requires Accounted()
      modifies this`clock, this`faults
      ensures Accounted()
      ensures r.Some? ==> r == disk.Bytes(e)
      ensures r.Some? == (faults == old(faults) && disk.Bytes(e).Some? && |disk.Bytes(e).value| <= limit)
      ensures faults >= old(faults)
    {
      var ok := Step(AtLook);
      r := disk.Bytes(e);
      if !ok || (r.Some? && |r.value| > limit) { r := None; }
    }

    // ----- staging

    /** The fstat of a file that was just created. */
    method Stat() returns (ok: bool)
      requires Accounted() && !books.statFailed
      modifies this`clock, this`faults, this`books
      ensures Accounted()
      ensures ok == !fails(old(clock), AtStat) && clock == old(clock) + 1
      ensures books == old(books).(creations := old(books).creations + {old(clock)}, statFailed := !ok)
      ensures faults == old(faults) + if ok then 0 else 1
    {
      ok := !fails(clock, AtStat);
      books := books.(creations := books.creations + {clock}, statFailed := !ok);
      clock := clock + 1;
      if !ok { faults := faults + 1; }
    }

    /** The O_EXCL loop of `_stage_bytes`. */
    method Allocate(dir: nat) returns (r: Option<Staged>)
      requires Accounted() && NamesKept(books, draws) && Proper() && dir in {results.dir, manifest.dir} && Within()
      modifies this`clock, this`faults, this`disk, this`draws, this`books
      ensures Accounted() && NamesKept(books, draws)
      ensures r.None? ==>
                disk == old(disk) && faults > old(faults) && books == old(books).(exhausted := books.exhausted)
      ensures r.Some? ==>
                && r.value.inode == old(disk).next && !r.value.published
                && Aside(r.value.entry) && old(disk).Inode(r.value.entry).None?
                && disk == old(disk).Created(r.value.entry) && faults == old(faults)
                && books == old(books).(own := old(books).own + {r.value.entry})
    {
      var attempt := 0;
      while attempt < STAGING_ATTEMPTS
        invariant Accounted() && NamesKept(books, draws) && books == old(books) && disk == old(disk)
        invariant faults == old(faults) && (attempt > 0 ==> Repeats(books.start, books.since, draws))
      {
        var ok;
        ok, r := TryCreate(dir);
        if !ok || r.Some? { return; }
        attempt := attempt + 1;
      }
      faults, books := faults + 1, books.(exhausted := true);
      return None;
    }

    /** One attempt: the next name, unless it is in use. */
    method TryCreate(dir: nat) returns (ok: bool, r: Option<Staged>)
      requires Accounted() && NamesKept(books, draws) && Proper() && dir in {results.dir, manifest.dir} && Within()
      modifies this`clock, this`faults, this`disk, this`draws, this`books
      ensures Accounted() && NamesKept(books, draws)
      ensures faults == old(faults) + (if ok then 0 else 1) && (!ok ==> r.None?)
      ensures r.None? ==> disk == old(disk) && books == old(books)
      ensures ok && r.None? ==> Repeats(books.start, books.since, draws)
      ensures r.Some? ==>
                && r.value.inode == old(disk).next && !r.value.published
                && Aside(r.value.entry) && old(disk).Inode(r.value.entry).None?
                && disk == old(disk).Created(r.value.entry)
                && books == old(books).(own := old(books).own + {r.value.entry})
    {
      var e := StagingEntry(dir, token(draws));
      DrawNext(books, draws, dir, disk.names.Keys);
      draws := draws + 1;
      r := None;
      ok := Step(AtCreate);
      if ok && disk.Inode(e).None? {
        r := Some(Staged(e, disk.next, false));
        disk, books := disk.Created(e), books.(own := books.own + {e});
      }
    }

    /** What staging calls add to the names on disk: the files they return, and what stays for good. */
    ghost predicate Added(before: Disk, after: Disk, mine: set<Entry>, left: set<Entry>) {
      && Extends(before, after) && after.names.Keys == before.names.Keys + mine + left
      && mine !! before.names.Keys && left !! before.names.Keys && mine !! left
    }

    ghost function Single(left: Option<Entry>): set<Entry> {
      if left.Some? then {left.value} else {}
    }

    /** The same, with every new name created by this call. */
    ghost predicate Gained(before: Disk, after: Disk, mine: set<Entry>, left: Option<Entry>)
      reads this`books
    {
      && Added(before, after, mine, Single(left)) && mine + Single(left) <= books.own
      && left.Some? == books.abandoned
    }

    /** No name is on disk but those of the start and those created since. */
    ghost predicate Within()
      reads this`disk, this`books
    {
      disk.names.Keys <= books.start + books.own
    }

    /** A staged file changes no target and nothing else that was there. */
    lemma StagedFile(before: Disk, e: Entry, payload: Bytes)
      requires before.Consistent() && Aside(e) && before.Inode(e).None?
      ensures var w := before.Created(e).Written(before.next, payload);
              && w.Consistent() && View(w) == View(before) && Added(before, w, {e}, {})
              && w.Holds(Staged(e, before.next, false), payload)
    {
      StagingKeeps(before, e, payload);
    }

    /** A created file that stays as it is. */
    lemma EmptyFile(before: Disk, e: Entry)
      requires before.Consistent() && Aside(e) && before.Inode(e).None?
      ensures var w := before.Created(e);
              w.Consistent() && View(w) == View(before) && Added(before, w, {}, {e})
    {
      StagedFile(before, e, []);
      assert before.Created(e).Written(before.next, []) == before.Created(e);
    }

    /** `_stage_bytes` on POSIX: allocate and fill a staging file. */
    method Stage(dir: nat, payload: Bytes) returns (r: Option<Staged>, ghost left: Option<Entry>)
      requires Valid() && Proper() && Kept(books, draws) && Within() && !books.abandoned
      requires dir in {results.dir, manifest.dir}
      modifies this`clock, this`faults, this`disk, this`draws, this`crashes, this`books
      ensures Valid() && Visible() == old(Visible()) && crashes == old(crashes)
      ensures Kept(books, draws) && Within() && old(books).Later(books)
      ensures Gained(old(disk), disk, Entries(r), left) && AsideIfAny(r)
      ensures r.Some? ==> disk.Holds(r.value, payload) && left.None? && books.creations != {}
      ensures r.Some? == (faults == old(faults)) && faults >= old(faults) + Charged() - old(Charged())
    {
      ghost var before := disk;
      left := None;
      r := Allocate(dir);
      if r.None? { return; }
      var ok;
      ok, left := Fill(r.value, payload, before);
      if !ok { r := None; }
    }

    /** Behind the creation: fstat, write and fsync.  A failed write removes the file again, and that removal may itself
        fail; a failed fstat removes nothing. */
    method Fill(s: Staged, payload: Bytes, ghost before: Disk) returns (ok: bool, ghost left: Option<Entry>)
      requires before.Consistent() && before.Inode(s.entry).None? && s.inode == before.next && !s.published
      requires Accounted() && PlanKept(books) && !books.abandoned
      requires disk == before.Created(s.entry) && Aside(s.entry) && View(before) in crashes
      modifies this`clock, this`faults, this`disk, this`crashes, this`books
      ensures Valid() && View(before) == Visible() && crashes == old(crashes)
      ensures PlanKept(books)
      ensures books == old(books).(creations := old(books).creations + {old(clock)}, statFailed := books.statFailed,
                                   abandoned := left.Some?)
      ensures Added(before, disk, if ok then {s.entry} else {}, Single(left))
      ensures ok ==> disk.Holds(s, payload)
      ensures ok == (faults == old(faults)) && faults >= old(faults) + Charged() - old(Charged())
      ensures left == if Abandons(old(clock)) then Some(s.entry) else None
    {
      OneMore(books.creations, clock);
      ok := Stat();
      if ok {
        ok, left := Write(s, payload, before);
      } else {
        EmptyFile(before, s.entry);
        left := Some(s.entry);
      }
      books := books.(abandoned := left.Some?);
    }

    lemma OneMore(ts: set<nat>, t: nat)
      ensures SomeAbandoned(ts + {t}) <==> SomeAbandoned(ts) || Abandons(t)
      ensures SomeStatFails(ts + {t}) <==> SomeStatFails(ts) || fails(t, AtStat)
    {
    }

    /** Write and fsync the allocated file; on failure some prefix may have been written, and the file is removed
        again. */
    method Write(s: Staged, payload: Bytes, ghost before: Disk) returns (ok: bool, ghost left: Option<Entry>)
      requires before.Consistent() && before.Inode(s.entry).None? && s.inode == before.next && !s.published
               && Accounted()
      requires disk == before.Created(s.entry) && Aside(s.entry) && View(before) in crashes
      modifies this`clock, this`faults, this`disk, this`crashes
      ensures Valid() && View(before) == Visible() && crashes == old(crashes)
      ensures Added(before, disk, if ok then {s.entry} else {}, Single(left))
      ensures ok ==> disk.Holds(s, payload)
      ensures ok == (faults == old(faults)) && faults >= old(faults)
      ensures left == if fails(old(clock), AtWrite) && fails(old(clock) + 1, AtUnlink) then Some(s.entry) else None
    {
      left := None;
      ok := Step(AtWrite);
      StagedFile(before, s.entry, payload);
      if ok {
        disk := disk.Written(s.inode, payload);
      } else {
        left := Discard(s, before);
      }
    }

    /** The except branch of `_stage_bytes`. */
    method Discard(s: Staged, ghost before: Disk) returns (ghost left: Option<Entry>)
      requires before.Consistent() && before.Inode(s.entry).None? && s.inode == before.next && Accounted()
      requires disk == before.Created(s.entry) && Aside(s.entry) && View(before) in crashes
      modifies this`clock, this`faults, this`disk, this`crashes
      ensures Valid() && View(before) == Visible() && crashes == old(crashes)
      ensures Added(before, disk, {}, Single(left)) && faults >= old(faults)
      ensures left == if fails(old(clock), AtUnlink) then Some(s.entry) else None
    {
      var partial: Bytes := *;
      StagedFile(before, s.entry, partial);
      StagingKeeps(before, s.entry, partial);
      disk := disk.Written(s.inode, partial);
      var removed := Unlink(s.entry);
      left := if removed then None else Some(s.entry);
    }

    /** One optional staging call of the try block: nothing to stage is a success. */
    method StageOptional(dir: nat, payload: Option<Bytes>)
      returns (r: Option<Staged>, ok: bool, ghost left: Option<Entry>)
      requires Valid() && Proper() && Kept(books, draws) && Within() && !books.abandoned
      requires dir in {results.dir, manifest.dir}
      modifies this`clock, this`faults, this`disk, this`draws, this`crashes, this`books
      ensures Valid() && Visible() == old(Visible()) && crashes == old(crashes)
      ensures Kept(books, draws) && Within() && old(books).Later(books)
      ensures Gained(old(disk), disk, Entries(r), left) && AsideIfAny(r)
      ensures r.Some? ==> !r.value.published
      ensures ok ==> disk.StagedFor(r, payload) && left.None? && (payload.Some? ==> books.creations != {})
      ensures ok == (faults == old(faults)) && faults >= old(faults) + Charged() - old(Charged())
    {
      r, ok, left := None, true, None;
      if payload.Some? {
        r, left := Stage(dir, payload.value);
        ok := r.Some?;
      }
    }

    lemma AddedTwice(a: Disk, b: Disk, c: Disk, m: set<Entry>, n: set<Entry>, left: set<Entry>,
                     sooner: set<Entry>, later: set<Entry>)
      requires Added(a, b, m, {}) && Added(b, c, n, left) && m <= sooner <= later && n + left <= later
      ensures Added(a, c, m + n, left) && m !! n && m !! left && m + n + left <= later
    {
    }

    /** Two staging calls in a row: the new payloads, or the old bytes for rollback. */
    method StagePair(first: Option<Bytes>, second: Option<Bytes>)
      returns (s: Option<Staged>, t: Option<Staged>, ok: bool, ghost left: Option<Entry>)
      requires Valid() && Proper() && Kept(books, draws) && Within() && !books.abandoned
      modifies this`clock, this`faults, this`disk, this`draws, this`crashes, this`books
      ensures Valid() && Visible() == old(Visible()) && crashes == old(crashes)
      ensures Kept(books, draws) && Within() && old(books).Later(books)
      ensures Gained(old(disk), disk, Entries(s) + Entries(t), left) && Entries(s) !! Entries(t)
      ensures AsideIfAny(s) && AsideIfAny(t)
      ensures (s.Some? ==> !s.value.published) && (t.Some? ==> !t.value.published)
      ensures ok ==> disk.StagedFor(s, first) && disk.StagedFor(t, second) && left.None?
      ensures ok && first.Some? ==> books.creations != {}
      ensures ok == (faults == old(faults)) && faults >= old(faults) + Charged() - old(Charged())
    {
      t := None;
      s, ok, left := StageOptional(results.dir, first);
      if !ok { return; }
      ghost var half, own := disk, books.own;
      t, ok, left := StageOptional(manifest.dir, second);
      AddedTwice(old(disk), half, disk, Entries(s), Entries(t), Single(left), own, books.own);
    }

    // ----- moving a staged file onto its target

    /** `_publish_staged_file`.  `published` is set only after both the link and the
        unlink; a failure of that unlink is remembered in `stray`. */
    method PublishStaged(s: Staged, target: Entry, replace: bool) returns (ok: bool, p: Staged)
      requires Valid() && !s.published && Aside(s.entry) && !Aside(target)
      requires !stray || replace
      modifies this`clock, this`faults, this`disk, this`crashes, this`attempts, this`stray
      ensures Valid() && p == s.(published := p.published)
      ensures ok ==> p.published
      ensures p.published ==>
                old(disk).Inode(s.entry) == Some(s.inode) && disk == old(disk).Moved(s, target) && stray == old(stray)
      ensures !p.published ==>
                || (disk == old(disk) && stray == old(stray))
                || (&& stray && !replace && !ok && old(disk).Inode(target).None?
                    && old(disk).Inode(s.entry) == Some(s.inode) && disk == old(disk).Linked(target, s.inode))
      ensures replace ==> attempts == old(attempts) && stray == old(stray)
      ensures !replace && p.published ==> attempts != {}
      ensures attempts >= old(attempts)
      ensures crashes == old(crashes) + {Visible()}
      ensures faults >= old(faults)
      ensures ok == (&& old(disk).Inode(s.entry) == Some(s.inode) && (replace || old(disk).Inode(target).None?)
                     && faults == old(faults))
      ensures stray && !old(stray) ==> faults == old(faults) + 1
    {
      p := s;
      ok := AssertIdentity(s, s.entry);
      if !ok { return; }
      if replace {
        ok := Rename(s, target);
        if !ok { return; }
      } else {
        ok := LinkAndRemove(s, target);
        if !ok { return; }
      }
      p := s.(published := true);
      ok := AssertIdentity(p, target);
    }

    /** The branch that never replaces: a link to the target, then the removal of the staging name. */
    method LinkAndRemove(s: Staged, target: Entry) returns (ok: bool)
      requires Valid() && disk.Inode(s.entry) == Some(s.inode) && !stray && Aside(s.entry) && !Aside(target)
      modifies this`clock, this`faults, this`disk, this`crashes, this`attempts, this`stray
      ensures Valid()
      ensures ok ==> old(disk).Inode(target).None? && disk == old(disk).Moved(s, target) && attempts != {}
      ensures !ok && !stray ==> disk == old(disk)
      ensures stray ==> old(disk).Inode(target).None? && disk == old(disk).Linked(target, s.inode)
      ensures stray ==> !ok && faults == old(faults) + 1
      ensures ok == (faults == old(faults) && old(disk).Inode(target).None?) && faults >= old(faults)
      ensures attempts >= old(attempts) && crashes == old(crashes) + {Visible()}
    {
      ok := Link(s, target);
      if !ok { return; }
      ok := UnlinkLinked(s.entry);
    }

    /** The disk after `_restore_target` has succeeded. */
    function Restored(d: Disk, target: Entry, rollback: Option<Staged>): Disk {
      if rollback.None? then d.Removed(target) else d.Moved(rollback.value, target)
    }

    /** `_restore_target`: refuses a target that no longer has the published identity,
        removes a target that did not exist, moves the staged old bytes back otherwise. */
    method Restore(target: Entry, published: Staged, rollback: Option<Staged>) returns (ok: bool, ghost changed: bool)
      requires Valid() && !Aside(target)
      requires rollback.Some? ==> !rollback.value.published && Aside(rollback.value.entry)
      modifies this`clock, this`faults, this`disk, this`crashes, this`attempts, this`stray
      ensures Valid() && stray == old(stray) && attempts == old(attempts)
      ensures old(disk).Inode(target) != Some(published.inode) ==> !changed
      ensures changed && rollback.Some? ==> old(disk).Inode(rollback.value.entry) == Some(rollback.value.inode)
      ensures disk == if changed then Restored(old(disk), target, rollback) else old(disk)
      ensures ok ==> changed
      ensures ok == (Restorable(old(disk), target, published, rollback) && faults == old(faults))
      ensures crashes == old(crashes) + {Visible()}
      ensures faults >= old(faults)
    {
      changed := false;
      ok := AssertIdentity(published, target);
      if !ok { return; }
      if rollback.None? {
        ok := Unlink(target);
        changed := ok;
      } else {
        var p;
        ok, p := PublishStaged(rollback.value, target, true);
        changed := p.published;
      }
    }

    /** The target is still ours, and the old bytes are still staged. */
    ghost predicate Restorable(d: Disk, target: Entry, published: Staged, rollback: Option<Staged>) {
      && d.Inode(target) == Some(published.inode)
      && (rollback.Some? ==> d.Inode(rollback.value.entry) == Some(rollback.value.inode))
    }

    // ----- the two moves

    /** The disk after the given progress, from the disk on which everything was staged. */
    ghost function DiskAfter(d: Disk, p: Progress, sr: Staged, sm: Staged): Disk {
      match p
      case Nothing => d
      case ResultsStray => d.Linked(results, sr.inode)
      case ResultsMoved => d.Moved(sr, results)
      case ManifestStray => d.Moved(sr, results).Linked(manifest, sm.inode)
      case BothMoved => d.Moved(sr, results).Moved(sm, manifest)
    }

    predicate AsideIfAny(s: Option<Staged>) {
      s.Some? ==> Aside(s.value.entry)
    }

    /** Everything is staged, under names of its own. */
    ghost predicate Ready(d: Disk, sr: Staged, sm: Staged, rr: Option<Staged>, rm: Option<Staged>,
                          resultsPayload: Bytes, manifestPayload: Bytes) {
      && results != manifest && d.Consistent()
      && Aside(sr.entry) && Aside(sm.entry) && AsideIfAny(rr) && AsideIfAny(rm)
      && d.Holds(sr, resultsPayload) && d.Holds(sm, manifestPayload)
      && d.StagedFor(rr, d.Bytes(results)) && d.StagedFor(rm, d.Bytes(manifest))
      && sr.entry != sm.entry && {sr.entry, sm.entry} !! (Entries(rr) + Entries(rm)) && Entries(rr) !! Entries(rm)
    }

    /** What the targets show, and what can still be taken back, at every point of progress. */
    lemma AfterProgress(d: Disk, p: Progress, sr: Staged, sm: Staged, rr: Option<Staged>, rm: Option<Staged>,
                        resultsPayload: Bytes, manifestPayload: Bytes)
      requires Ready(d, sr, sm, rr, rm, resultsPayload, manifestPayload)
      ensures var a := DiskAfter(d, p, sr, sm);
              && a.Consistent()
              && View(a) == Pair(if p.Nothing? then d.Bytes(results) else Some(resultsPayload),
                                 if p.ManifestStray? || p.BothMoved? then Some(manifestPayload) else d.Bytes(manifest))
              && (p.ResultsMoved? || p.ManifestStray? || p.BothMoved? ==> a.Inode(results) == Some(sr.inode))
              && (p.BothMoved? ==> a.Inode(manifest) == Some(sm.inode))
              && a.StagedFor(rr, d.Bytes(results)) && a.StagedFor(rm, d.Bytes(manifest))
              && SameOutside(d, a, {results, manifest, sr.entry, sm.entry})
    {
      ViewAfterProgress(d, p, sr, sm, rr, rm, resultsPayload, manifestPayload);
      StagedAfterProgress(d, p, sr, sm, rr, rm, resultsPayload, manifestPayload);
    }

    lemma ViewAfterProgress(d: Disk, p: Progress, sr: Staged, sm: Staged, rr: Option<Staged>, rm: Option<Staged>,
                            resultsPayload: Bytes, manifestPayload: Bytes)
      requires Ready(d, sr, sm, rr, rm, resultsPayload, manifestPayload)
      ensures View(DiskAfter(d, p, sr, sm)) ==
              Pair(if p.Nothing? then d.Bytes(results) else Some(resultsPayload),
                   if p.ManifestStray? || p.BothMoved? then Some(manifestPayload) else d.Bytes(manifest))
    {
    }

    lemma StagedAfterProgress(d: Disk, p: Progress, sr: Staged, sm: Staged, rr: Option<Staged>, rm: Option<Staged>,
                              resultsPayload: Bytes, manifestPayload: Bytes)
      requires Ready(d, sr, sm, rr, rm, resultsPayload, manifestPayload)
      ensures var a := DiskAfter(d, p, sr, sm);
              && a.StagedFor(rr, d.Bytes(results)) && a.StagedFor(rm, d.Bytes(manifest))
              && SameOutside(d, a, {results, manifest, sr.entry, sm.entry})
    {
    }

    /** Results first, then the manifest, with the directory check between them. */
    method MoveBoth(replace: bool, replaceManifest: bool, sr: Staged, sm: Staged,
                    ghost rr: Option<Staged>, ghost rm: Option<Staged>,
                    ghost resultsPayload: Bytes, ghost manifestPayload: Bytes)
      returns (ok: bool, pr: Staged, pm: Staged, ghost p: Progress)
      requires Valid() && !stray && Ready(disk, sr, sm, rr, rm, resultsPayload, manifestPayload)
      requires (replace || disk.Inode(results).None?) && (replaceManifest || disk.Inode(manifest).None?)
      modifies this`clock, this`faults, this`disk, this`crashes, this`attempts, this`stray
      ensures Valid() && disk == DiskAfter(old(disk), p, sr, sm)
      ensures pr == sr.(published := p.ResultsMoved? || p.ManifestStray? || p.BothMoved?)
      ensures pm == sm.(published := p.BothMoved?)
      ensures stray == (p.ResultsStray? || p.ManifestStray?)
      ensures p.ResultsStray? ==> !replace && old(disk).Inode(results).None?
      ensures p.ManifestStray? ==> !replaceManifest && old(disk).Inode(manifest).None?
      ensures ok ==> p.BothMoved?
      ensures crashes <= old(crashes) + {View(old(disk)), View(old(disk).Moved(sr, results)), Visible()}
      ensures attempts >= old(attempts) && (replace && replaceManifest ==> attempts == old(attempts))
      ensures ok && !replaceManifest ==> attempts != {}
      ensures ok == (faults == old(faults)) && faults >= old(faults)
    {
      pm, p := sm, Nothing;
      ok, pr := PublishStaged(sr, results, replace);
      p := if stray then ResultsStray else if pr.published then ResultsMoved else Nothing;
      if ok {
        AfterProgress(old(disk), ResultsMoved, sr, sm, rr, rm, resultsPayload, manifestPayload);
        ok, pm, p := MoveManifest(replaceManifest, sm);
      }
    }

    /** The directory check and the second move, on a disk where the results have been moved. */
    method MoveManifest(replaceManifest: bool, sm: Staged) returns (ok: bool, pm: Staged, ghost p: Progress)
      requires Valid() && !stray && !sm.published && Aside(sm.entry) && disk.Inode(sm.entry) == Some(sm.inode)
      requires replaceManifest || disk.Inode(manifest).None?
      modifies this`clock, this`faults, this`disk, this`crashes, this`attempts, this`stray
      ensures Valid() && (p.ResultsMoved? || p.ManifestStray? || p.BothMoved?)
      ensures p.ResultsMoved? ==> disk == old(disk)
      ensures p.ManifestStray? ==> disk == old(disk).Linked(manifest, sm.inode) && !replaceManifest
      ensures p.BothMoved? ==> disk == old(disk).Moved(sm, manifest)
      ensures pm == sm.(published := p.BothMoved?) && stray == p.ManifestStray?
      ensures crashes == old(crashes) + {Visible()}
      ensures attempts >= old(attempts) && (replaceManifest ==> attempts == old(attempts))
      ensures ok ==> p.BothMoved? && (!replaceManifest ==> attempts != {})
      ensures ok == (faults == old(faults)) && faults >= old(faults)
    {
      pm, p := sm, ResultsMoved;
      ok := Step(AtLook);
      if !ok { return; }
      ok, pm := PublishStaged(sm, manifest, replaceManifest);
      p := if stray then ManifestStray else if pm.published then BothMoved else ResultsMoved;
    }

    ghost predicate WithinLimits(resultsPayload: Bytes, manifestPayload: Bytes) {
      |resultsPayload| <= MAX_RESULTS_BYTES && |manifestPayload| <= MAX_MANIFEST_BYTES
    }

    /** Directory checks, fsync of the parents and the exact read-back of both files. */
    method Confirm(resultsPayload: Bytes, manifestPayload: Bytes) returns (ok: bool)
      requires Accounted()
      modifies this`clock, this`faults
      ensures Accounted()
      ensures ok == (&& Visible() == Pair(Some(resultsPayload), Some(manifestPayload))
                     && WithinLimits(resultsPayload, manifestPayload) && faults == old(faults))
      ensures faults >= old(faults)
    {
      ok := Steps(if manifest.dir == results.dir then 5 else 6);
      if !ok { return; }
      var observedResults := Read(results, MAX_RESULTS_BYTES);
      if observedResults.None? { return false; }
      var observedManifest := Read(manifest, MAX_MANIFEST_BYTES);
      if observedManifest.None? { return false; }
      ok := observedResults.value == resultsPayload && observedManifest.value == manifestPayload;
    }

    /** A run of calls that only observe or flush; the first failure stops it. */
    method Steps(count: nat) returns (ok: bool)
      requires Accounted()
      modifies this`clock, this`faults
      ensures Accounted()
      ensures faults == old(faults) + if ok then 0 else 1
    {
      ok := true;
      var i := 0;
      while ok && i < count
        invariant Accounted() && faults == old(faults) + if ok then 0 else 1
        decreases count - i
      {
        ok := Step(AtLook);
        i := i + 1;
      }
    }

    /** The state the exception handler finds: either nothing was moved, or everything was
        staged and the disk is the staged one with the moves made so far. */
    ghost predicate Attempted(staged: Disk, p: Progress,
                              sr: Option<Staged>, sm: Option<Staged>, rr: Option<Staged>, rm: Option<Staged>,
                              resultsPayload: Bytes, manifestPayload: Bytes)
      reads this`disk
    {
      if p.Nothing? then
        disk == staged && (sr.Some? ==> !sr.value.published) && (sm.Some? ==> !sm.value.published)
      else
        && sr.Some? && sm.Some?
        && Ready(staged, sr.value.(published := false), sm.value.(published := false), rr, rm, resultsPayload,
                 manifestPayload)
        && disk == DiskAfter(staged, p, sr.value.(published := false), sm.value.(published := false))
        && sr.value.published == (p.ResultsMoved? || p.ManifestStray? || p.BothMoved?)
        && sm.value.published == p.BothMoved?
    }

    ghost function Mine(sr: Option<Staged>, sm: Option<Staged>, rr: Option<Staged>, rm: Option<Staged>): set<Entry> {
      Entries(sr) + Entries(sm) + (Entries(rr) + Entries(rm))
    }

    /** Every name the try statement may change once its files are staged. */
    ghost function Touched(sr: Option<Staged>, sm: Option<Staged>, rr: Option<Staged>, rm: Option<Staged>): set<Entry> {
      {results, manifest} + Mine(sr, sm, rr, rm)
    }

    /** The four staging calls that open the try block: the old bytes are staged for
        rollback before anything is moved. */
    method StageAll(resultsPayload: Bytes, manifestPayload: Bytes, oldResults: Option<Bytes>,
                    oldManifest: Option<Bytes>)
      returns (sr: Option<Staged>, sm: Option<Staged>, rr: Option<Staged>, rm: Option<Staged>, ok: bool,
               ghost left: Option<Entry>)
      requires Valid() && Proper() && Kept(books, draws) && Within() && !books.abandoned
      requires Visible() == Pair(oldResults, oldManifest)
      modifies this`clock, this`faults, this`disk, this`draws, this`crashes, this`books
      ensures Kept(books, draws) && old(books).Later(books)
      ensures Valid() && Visible() == old(Visible()) && crashes == old(crashes)
      ensures Gained(old(disk), disk, Mine(sr, sm, rr, rm), left)
      ensures AsideIfAny(sr) && AsideIfAny(sm) && AsideIfAny(rr) && AsideIfAny(rm)
      ensures (sr.Some? ==> !sr.value.published) && (sm.Some? ==> !sm.value.published)
      ensures (rr.Some? ==> !rr.value.published) && (rm.Some? ==> !rm.value.published)
      ensures ok ==> sr.Some? && sm.Some? && Ready(disk, sr.value, sm.value, rr, rm, resultsPayload, manifestPayload)
      ensures ok ==> left.None? && books.creations != {}
      ensures ok == (faults == old(faults)) && faults >= old(faults) + Charged() - old(Charged())
    {
      rr, rm := None, None;
      sr, sm, ok, left := StagePair(Some(resultsPayload), Some(manifestPayload));
      assert Mine(sr, sm, None, None) == Entries(sr) + Entries(sm);
      if ok {
        rr, rm, ok, left := StageOld(sr.value, sm.value, resultsPayload, manifestPayload, old(disk), oldResults,
                                     oldManifest);
      }
    }

    /** The old bytes, behind the new ones. */
    method StageOld(sr: Staged, sm: Staged, ghost resultsPayload: Bytes, ghost manifestPayload: Bytes,
                    ghost before: Disk, oldResults: Option<Bytes>, oldManifest: Option<Bytes>)
      returns (rr: Option<Staged>, rm: Option<Staged>, ok: bool, ghost left: Option<Entry>)
      requires Valid() && Proper() && Kept(books, draws) && Within() && !books.abandoned
      requires Visible() == Pair(oldResults, oldManifest) && Aside(sr.entry) && Aside(sm.entry)
      requires Gained(before, disk, {sr.entry} + {sm.entry}, None) && sr.entry != sm.entry
      requires disk.Holds(sr, resultsPayload) && disk.Holds(sm, manifestPayload)
      modifies this`clock, this`faults, this`disk, this`draws, this`crashes, this`books
      ensures Kept(books, draws) && old(books).Later(books)
      ensures Valid() && Visible() == old(Visible()) && crashes == old(crashes)
      ensures Gained(before, disk, Mine(Some(sr), Some(sm), rr, rm), left)
      ensures AsideIfAny(rr) && AsideIfAny(rm)
      ensures (rr.Some? ==> !rr.value.published) && (rm.Some? ==> !rm.value.published)
      ensures ok ==> left.None? && Ready(disk, sr, sm, rr, rm, resultsPayload, manifestPayload)
      ensures ok == (faults == old(faults)) && faults >= old(faults) + Charged() - old(Charged())
    {
      ghost var own := books.own;
      rr, rm, ok, left := StagePair(oldResults, oldManifest);
      AddedTwice(before, old(disk), disk, {sr.entry} + {sm.entry}, Entries(rr) + Entries(rm), Single(left), own,
                 books.own);
      if ok { NowReady(old(disk), disk, sr, sm, rr, rm, resultsPayload, manifestPayload); }
    }

    /** Behind the second pair of staging calls the first files are still intact. */
    lemma NowReady(half: Disk, d: Disk, sr: Staged, sm: Staged, rr: Option<Staged>, rm: Option<Staged>,
                   resultsPayload: Bytes, manifestPayload: Bytes)
      requires results != manifest && d.Consistent() && View(half) == View(d) && Extends(half, d)
      requires Aside(sr.entry) && Aside(sm.entry) && AsideIfAny(rr) && AsideIfAny(rm)
      requires half.Holds(sr, resultsPayload) && half.Holds(sm, manifestPayload)
      requires d.StagedFor(rr, half.Bytes(results)) && d.StagedFor(rm, half.Bytes(manifest))
      requires sr.entry != sm.entry && Entries(rr) !! Entries(rm)
      requires {sr.entry} + {sm.entry} !! Entries(rr) + Entries(rm)
      ensures Ready(d, sr, sm, rr, rm, resultsPayload, manifestPayload)
    {
      StillHolds(half, d, sr, resultsPayload);
      StillHolds(half, d, sm, manifestPayload);
    }

    /** The try block. */
    method TryPublish(resultsPayload: Bytes, manifestPayload: Bytes, replace: bool, initialization: bool,
                      oldResults: Option<Bytes>, oldManifest: Option<Bytes>, ghost was: Pair)
      returns (ok: bool, sr: Option<Staged>, sm: Option<Staged>, rr: Option<Staged>, rm: Option<Staged>,
               ghost staged: Disk, ghost p: Progress, ghost left: Option<Entry>)
      requires Valid() && Proper() && Kept(books, draws) && Within() && !stray && !books.abandoned
      requires was == Visible() == Pair(oldResults, oldManifest)
      requires !replace ==> oldResults.None? && oldManifest.None?
      requires initialization ==> oldManifest.None?
      modifies this`clock, this`faults, this`disk, this`draws, this`crashes, this`books, this`attempts, this`stray
      ensures Kept(books, draws) && old(books).Later(books)
      ensures Valid() && View(staged) == was
      ensures Gained(old(disk), staged, Mine(sr, sm, rr, rm), left)
      ensures Attempted(staged, p, sr, sm, rr, rm, resultsPayload, manifestPayload)
      ensures AsideIfAny(sr) && AsideIfAny(sm) && AsideIfAny(rr) && AsideIfAny(rm)
      ensures (rr.Some? ==> !rr.value.published) && (rm.Some? ==> !rm.value.published)
      ensures Strays(p, replace, initialization, was)
      ensures ok ==> p.BothMoved? && WithinLimits(resultsPayload, manifestPayload) && left.None?
      ensures crashes <= old(crashes) + Mixed(was, resultsPayload, manifestPayload)
      ensures attempts >= old(attempts) && (replace && !initialization ==> attempts == old(attempts))
      ensures ok && (!replace || initialization) ==> attempts != {}
      ensures WithinLimits(resultsPayload, manifestPayload) ==> ok == (faults == old(faults))
      ensures ok ==> faults == old(faults) && books.creations != {}
      ensures faults >= old(faults) + Charged()
    {
      p := Nothing;
      sr, sm, rr, rm, ok, left := StageAll(resultsPayload, manifestPayload, oldResults, oldManifest);
      staged := disk;
      if !ok { return; }
      var pr, pm;
      ok, pr, pm, p := MoveAndConfirm(resultsPayload, manifestPayload, replace, initialization, sr.value, sm.value, rr,
                                      rm);
      sr, sm := Some(pr), Some(pm);
    }

    /** Which link, if any, was left behind, and that it can only be one that took no other file's place. */
    ghost predicate Strays(p: Progress, replace: bool, initialization: bool, was: Pair)
      reads this`stray
    {
      && stray == (p.ResultsStray? || p.ManifestStray?)
      && (p.ResultsStray? ==> !replace && was.results.None?)
      && (p.ManifestStray? ==> (!replace || initialization) && was.manifest.None?)
    }

    /** The rest of the try block, once everything is staged. */
    method MoveAndConfirm(resultsPayload: Bytes, manifestPayload: Bytes, replace: bool, initialization: bool,
                          sr: Staged, sm: Staged, ghost rr: Option<Staged>, ghost rm: Option<Staged>)
      returns (ok: bool, pr: Staged, pm: Staged, ghost p: Progress)
      requires Valid() && !stray && Ready(disk, sr, sm, rr, rm, resultsPayload, manifestPayload)
      requires (replace || disk.Inode(results).None?) && ((replace && !initialization) || disk.Inode(manifest).None?)
      modifies this`clock, this`faults, this`disk, this`crashes, this`attempts, this`stray
      ensures Valid() && disk == DiskAfter(old(disk), p, sr, sm)
      ensures pr == sr.(published := p.ResultsMoved? || p.ManifestStray? || p.BothMoved?)
      ensures pm == sm.(published := p.BothMoved?)
      ensures Strays(p, replace, initialization, View(old(disk)))
      ensures ok ==> p.BothMoved? && WithinLimits(resultsPayload, manifestPayload)
      ensures crashes <= old(crashes) + Mixed(View(old(disk)), resultsPayload, manifestPayload)
      ensures attempts >= old(attempts) && (replace && !initialization ==> attempts == old(attempts))
      ensures ok && (!replace || initialization) ==> attempts != {}
      ensures ok == (WithinLimits(resultsPayload, manifestPayload) && faults == old(faults))
      ensures faults >= old(faults) + if stray then 1 else 0
    {
      pr, pm, p := sr, sm, Nothing;
      ok := Steps(if initialization then 4 else 2);
      if !ok { return; }
      ok, pr, pm, p := MoveBoth(replace, replace && !initialization, sr, sm, rr, rm, resultsPayload, manifestPayload);
      MixedViews(old(disk), p, sr, sm, rr, rm, resultsPayload, manifestPayload);
      if ok {
        ok := Confirm(resultsPayload, manifestPayload);
      }
    }

    // ----- the frame of the call

    /** The names on disk besides the two targets. */
    ghost function Others(d: Disk): set<Entry> {
      d.names.Keys - {results, manifest}
    }

    /** Everything that was there besides the targets is there, under its name and with its bytes, and every name that
        is new was created by this call. */
    ghost predicate Framed(before: Disk, after: Disk)
      reads this`books
    {
      && (forall e | e in Others(before) :: SameAt(before, after, e))
      && Others(after) <= Others(before) + books.own
    }

    /** What the staging calls gained, followed by changes of nothing but the targets and this call's names. */
    lemma FrameOf(before: Disk, staged: Disk, moved: Disk, after: Disk, mine: set<Entry>, left: Option<Entry>)
      requires before.Consistent() && Gained(before, staged, mine, left)
      requires SameOutside(staged, moved, {results, manifest} + mine)
      requires SameOutside(moved, after, {results, manifest} + mine)
      requires left.Some? ==> Aside(left.value)
      ensures Framed(before, after) && Single(left) <= Others(after) - Others(before)
      ensures mine !! after.names.Keys ==> Others(after) == Others(before) + Single(left)
    {
      SameOutsideTwice(staged, moved, after, {results, manifest} + mine);
      forall e | e in Others(before) ensures SameAt(before, after, e) {
        assert SameAt(staged, after, e);
      }
      forall e | e !in mine && e != results && e != manifest
        ensures e in after.names <==> e in before.names || e in Single(left)
      {
        assert SameAt(staged, after, e);
      }
    }

    /** When the targets show the old bytes, the set of names is the old one, up to what was left over. */
    lemma NamesByView(before: Disk, after: Disk, left: set<Entry>)
      requires before.Consistent() && after.Consistent() && View(before) == View(after)
      requires Others(after) == Others(before) + left
      ensures after.names.Keys == before.names.Keys + left
    {
      forall e ensures e in after.names <==> e in before.names || e in left {
        assert e in Others(after) <==> e in Others(before) || e in left;
      }
    }

    lemma StillHolds(before: Disk, after: Disk, s: Staged, payload: Bytes)
      requires Extends(before, after) && before.Holds(s, payload)
      ensures after.Holds(s, payload)
    {
    }

    lemma MixedViews(d: Disk, p: Progress, sr: Staged, sm: Staged, rr: Option<Staged>, rm: Option<Staged>,
                     resultsPayload: Bytes, manifestPayload: Bytes)
      requires Ready(d, sr, sm, rr, rm, resultsPayload, manifestPayload)
      ensures {View(d), View(d.Moved(sr, results)), View(DiskAfter(d, p, sr, sm))}
              <= Mixed(View(d), resultsPayload, manifestPayload)
      ensures p.BothMoved? ==>
                View(DiskAfter(d, p, sr, sm)) == Pair(Some(resultsPayload), Some(manifestPayload))
    {
      AfterProgress(d, p, sr, sm, rr, rm, resultsPayload, manifestPayload);
      AfterProgress(d, ResultsMoved, sr, sm, rr, rm, resultsPayload, manifestPayload);
    }

    // ----- the exception handler

    ghost predicate IsPublished(s: Option<Staged>) {
      s.Some? && s.value.published
    }

    /** The rollback of the handler: manifest first, then results, then the parents.  Each
        published target is either put back or left exactly as it was found. */
    method RollBack(sr: Option<Staged>, sm: Option<Staged>, rr: Option<Staged>, rm: Option<Staged>)
      returns (ok: bool, ghost manifestBack: bool, ghost resultsBack: bool)
      requires Valid() && results != manifest
      requires rr.Some? ==> !rr.value.published && Aside(rr.value.entry)
      requires rm.Some? ==> !rm.value.published && Aside(rm.value.entry)
      modifies this`clock, this`faults, this`disk, this`crashes, this`attempts, this`stray
      ensures Valid() && stray == old(stray) && attempts == old(attempts)
      ensures disk == PutBack(old(disk), manifestBack, rm, resultsBack, rr)
      ensures manifestBack ==> IsPublished(sm) && old(disk).Inode(manifest) == Some(sm.value.inode)
      ensures resultsBack ==> IsPublished(sr)
      ensures resultsBack ==> PutBack(old(disk), manifestBack, rm, false, rr).Inode(results) == Some(sr.value.inode)
      ensures ok ==> manifestBack == IsPublished(sm) && resultsBack == IsPublished(sr)
      ensures ok == (&& (IsPublished(sm) ==> Restorable(old(disk), manifest, sm.value, rm))
                     && (IsPublished(sr) ==> Restorable(PutBack(old(disk), manifestBack, rm, false, rr), results,
                                                        sr.value, rr))
                     && faults == old(faults))
      ensures crashes <= old(crashes) + {View(PutBack(old(disk), manifestBack, rm, false, rr)), Visible()}
      ensures faults >= old(faults)
    {
      ok, manifestBack, resultsBack := true, false, false;
      var resultsPublished := sr.Some? && sr.value.published;
      var manifestPublished := sm.Some? && sm.value.published;
      if manifestPublished {
        ok, manifestBack := Restore(manifest, sm.value, rm);
      }
      if resultsPublished {
        var restored;
        restored, resultsBack := Restore(results, sr.value, rr);
        ok := ok && restored;
      }
      var synced := SyncParents(resultsPublished, manifestPublished);
      ok := ok && synced;
    }

    /** Flush and check the directory of each restored target, once per directory. */
    method SyncParents(resultsPublished: bool, manifestPublished: bool) returns (ok: bool)
      requires Accounted()
      modifies this`clock, this`faults
      ensures Accounted() && ok == (faults == old(faults)) && faults >= old(faults)
    {
      ok := true;
      if resultsPublished { ok := Steps(2); }
      if manifestPublished && !(resultsPublished && results.dir == manifest.dir) {
        var synced := Steps(2);
        ok := ok && synced;
      }
    }

    ghost function PutBack(d: Disk, manifestBack: bool, rm: Option<Staged>, resultsBack: bool,
                           rr: Option<Staged>): Disk {
      var e := if manifestBack then Restored(d, manifest, rm) else d;
      if resultsBack then Restored(e, results, rr) else e
    }

    /** A restored target shows its old bytes; the other target and what is staged for it stay. */
    lemma RestoredTarget(d: Disk, target: Entry, rollback: Option<Staged>, was: Option<Bytes>,
                         other: Entry, otherRollback: Option<Staged>, otherWas: Option<Bytes>)
      requires d.Consistent() && target != other && Entries(rollback) + Entries(otherRollback) !! {target, other}
      requires d.StagedFor(rollback, was) && d.StagedFor(otherRollback, otherWas)
      requires Entries(rollback) !! Entries(otherRollback)
      ensures var r := Restored(d, target, rollback);
              && r.Consistent() && r.Bytes(target) == was && r.Bytes(other) == d.Bytes(other)
              && r.StagedFor(otherRollback, otherWas) && SameOutside(d, r, {target} + Entries(rollback))
    {
    }

    /** Putting either target back, or both, gives it its old bytes and disturbs nothing else. */
    lemma PutBackView(d: Disk, rr: Option<Staged>, rm: Option<Staged>, was: Pair, manifestBack: bool, resultsBack: bool)
      requires d.Consistent() && results != manifest && Entries(rr) !! Entries(rm)
      requires AsideIfAny(rr) && AsideIfAny(rm)
      requires d.StagedFor(rr, was.results) && d.StagedFor(rm, was.manifest)
      ensures var b := PutBack(d, manifestBack, rm, resultsBack, rr);
              && View(b) == Pair(if resultsBack then was.results else d.Bytes(results),
                                 if manifestBack then was.manifest else d.Bytes(manifest))
              && SameOutside(d, b, {results, manifest} + Entries(rr) + Entries(rm))
    {
      if manifestBack { RestoredTarget(d, manifest, rm, was.manifest, results, rr, was.results); }
      var c := PutBack(d, manifestBack, rm, false, rr);
      if resultsBack { RestoredTarget(c, results, rr, was.results, manifest, None, None); }
    }

    /** The finally block: each staging name is removed; the first failure stops it. */
    method CleanUp(sr: Option<Staged>, sm: Option<Staged>, rr: Option<Staged>, rm: Option<Staged>) returns (ok: bool)
      requires Valid()
      requires AsideIfAny(sr) && AsideIfAny(sm) && AsideIfAny(rr) && AsideIfAny(rm)
      modifies this`clock, this`faults, this`disk, this`crashes
      ensures Valid() && Visible() == old(Visible()) && crashes == old(crashes)
      ensures SameOutside(old(disk), disk, Touched(sr, sm, rr, rm))
      ensures ok ==> disk.names == old(disk).names - Mine(sr, sm, rr, rm) && Mine(sr, sm, rr, rm) !! disk.names.Keys
      ensures ok == (faults == old(faults)) && faults >= old(faults)
    {
      ok := RemoveStaged(sr);
      if !ok { return; }
      ok := RemoveStaged(sm);
      if !ok { return; }
      ok := RemoveStaged(rr);
      if !ok { return; }
      ok := RemoveStaged(rm);
      if ok { MinusAll(old(disk).names, Entries(sr), Entries(sm), Entries(rr), Entries(rm)); }
    }

    lemma MinusAll(names: map<Entry, nat>, a: set<Entry>, b: set<Entry>, c: set<Entry>, d: set<Entry>)
      ensures names - a - b - c - d == names - (a + b + (c + d))
    {
    }

    /** `_cleanup_staged_file`. */
    method RemoveStaged(s: Option<Staged>) returns (ok: bool)
      requires Valid() && AsideIfAny(s)
      modifies this`clock, this`faults, this`disk, this`crashes
      ensures Valid() && Visible() == old(Visible()) && crashes == old(crashes)
      ensures SameOutside(old(disk), disk, Entries(s))
      ensures disk.names == if ok then old(disk).names - Entries(s) else old(disk).names
      ensures ok == (faults == old(faults)) && faults >= old(faults)
    {
      ok := true;
      if s.Some? { ok := Unlink(s.value.entry); }
    }

    // ----- the whole call

    /** The condition under which the checks before the try block let a request through. */
    ghost predicate Admits(d: Disk, resultsPayload: Bytes, manifestPayload: Bytes, replace: bool,
                           initialization: Option<Initialization>) {
      var existing := (d.Inode(results).Some?, d.Inode(manifest).Some?);
      && EndsWith(results.file, ".jsonl") && EndsWith(manifest.file, ".json") && results != manifest
      && readers.Linked(resultsPayload, manifestPayload)
      && (!replace ==> existing == (false, false) && initialization.None?)
      && (initialization.Some? ==> existing == (true, false))
      && (replace && initialization.None? ==> existing.0 == existing.1)
      && (existing == (true, true) ==> d.Inode(results) != d.Inode(manifest))
      && (initialization.Some? ==>
            && d.Inode(results) == Some(initialization.value.inode) && d.Links(initialization.value.inode) == 1
            && d.Bytes(results) == Some(initialization.value.payload))
      && (d.Bytes(results).Some? ==> |d.Bytes(results).value| <= MAX_RESULTS_BYTES)
      && (d.Bytes(manifest).Some? ==> |d.Bytes(manifest).value| <= MAX_MANIFEST_BYTES)
    }

    lemma DestinationsAreNotStaging()
      requires EndsWith(results.file, ".jsonl") && EndsWith(manifest.file, ".json")
      ensures !IsStaging(results) && !IsStaging(manifest)
    {
      LastCharacter(results.file, ".jsonl");
      LastCharacter(results.file, ".tmp");
      LastCharacter(manifest.file, ".json");
      LastCharacter(manifest.file, ".tmp");
    }

    /** Everything before the try block: argument checks, existence, and the old bytes. */
    method Preflight(resultsPayload: Bytes, manifestPayload: Bytes, replace: bool,
                     initialization: Option<Initialization>)
      returns (admitted: bool, oldResults: Option<Bytes>, oldManifest: Option<Bytes>)
      requires Valid()
      modifies this`clock, this`faults
      ensures Valid() && faults >= old(faults)
      ensures admitted ==> Admits(disk, resultsPayload, manifestPayload, replace, initialization)
      ensures admitted ==> Pair(oldResults, oldManifest) == Visible() && Proper()
      ensures admitted == (Admits(disk, resultsPayload, manifestPayload, replace, initialization)
                           && faults == old(faults))
    {
      admitted, oldResults, oldManifest := false, None, None;
      if !EndsWith(results.file, ".jsonl") || !EndsWith(manifest.file, ".json") || results == manifest { return; }
      DestinationsAreNotStaging();
      if !readers.Linked(resultsPayload, manifestPayload) { return; }
      var ok := Steps(4);
      if !ok { return; }
      var hasResults, hasManifest := disk.Inode(results).Some?, disk.Inode(manifest).Some?;
      if !replace && (hasResults || hasManifest) { return; }
      if initialization.Some? && !replace { return; }
      if initialization.Some? && !(hasResults && !hasManifest) { return; }
      if replace && hasResults != hasManifest && initialization.None? { return; }
      if hasResults && hasManifest && disk.Inode(results) == disk.Inode(manifest) { return; }
      if initialization.Some? {
        if disk.Inode(results) != Some(initialization.value.inode) || disk.Links(initialization.value.inode) != 1 {
          return;
        }
        ok := Step(AtLook);
        if !ok { return; }
      }
      if hasResults {
        oldResults := Read(results, MAX_RESULTS_BYTES);
        if oldResults.None? { return; }
        if initialization.Some? && oldResults.value != initialization.value.payload { return; }
      }
      if hasManifest {
        oldManifest := Read(manifest, MAX_MANIFEST_BYTES);
        if oldManifest.None? { return; }
      }
      admitted := true;
    }

    /** The try block with its exception handler.  `handlerFaults` counts the steps that failed in the handler. */
    method Attempt(resultsPayload: Bytes, manifestPayload: Bytes, replace: bool, initialization: bool,
                   oldResults: Option<Bytes>, oldManifest: Option<Bytes>)
      returns (outcome: Outcome, sr: Option<Staged>, sm: Option<Staged>, rr: Option<Staged>, rm: Option<Staged>,
               ghost handlerFaults: nat, ghost left: Option<Entry>, ghost staged: Disk)
      requires Valid() && Proper() && Kept(books, draws) && Within() && !stray && !books.abandoned
      requires Visible() == Pair(oldResults, oldManifest)
      requires !replace ==> oldResults.None? && oldManifest.None?
      requires initialization ==> oldManifest.None?
      modifies this`clock, this`faults, this`disk, this`draws, this`crashes, this`books, this`attempts, this`stray
      ensures Kept(books, draws) && old(books).Later(books)
      ensures Valid() && !outcome.Refused?
      ensures Shown(outcome, Pair(oldResults, oldManifest), Pair(Some(resultsPayload), Some(manifestPayload)))
      ensures outcome.RollbackFailed? == (handlerFaults > 0)
      ensures replace && !initialization ==> attempts == old(attempts)
      ensures crashes <= old(crashes) + Mixed(Pair(oldResults, oldManifest), resultsPayload, manifestPayload)
      ensures AsideIfAny(sr) && AsideIfAny(sm) && AsideIfAny(rr) && AsideIfAny(rm)
      ensures Gained(old(disk), staged, Mine(sr, sm, rr, rm), left)
      ensures SameOutside(staged, disk, Touched(sr, sm, rr, rm))
      ensures Causes(outcome, old(faults), handlerFaults, left, replace && !initialization,
                     WithinLimits(resultsPayload, manifestPayload), faults)
    {
      ghost var was := Pair(oldResults, oldManifest);
      var ok;
      ghost var p;
      handlerFaults := 0;
      ok, sr, sm, rr, rm, staged, p, left :=
        TryPublish(resultsPayload, manifestPayload, replace, initialization, oldResults, oldManifest, was);
      outcome := Published;
      AfterAttempt(staged, p, sr, sm, rr, rm, resultsPayload, manifestPayload);
      if !ok {
        ghost var before := faults;
        ok := Handle(sr, sm, rr, rm, staged, p, resultsPayload, manifestPayload);
        outcome := if ok then RolledBack else RollbackFailed;
        handlerFaults := faults - before;
      }
    }

    /** What the two names show after each outcome. */
    ghost predicate Shown(outcome: Outcome, was: Pair, now: Pair)
      reads this`disk, this`stray
    {
      && (outcome.Published? ==> Visible() == now && !stray)
      && (outcome.RolledBack? && !stray ==> Visible() == was)
      && (outcome.RolledBack? && stray ==>
            || (was.results.None? && Visible() == Pair(now.results, was.manifest))
            || (was.manifest.None? && Visible() == Pair(was.results, now.manifest)))
    }

    /** How the outcome follows from what failed up to the end of the handler; `after` is the count of faults then. */
    ghost predicate Causes(outcome: Outcome, before: nat, handlerFaults: nat, left: Option<Entry>, plain: bool,
                           within: bool, after: nat)
      reads this`attempts, this`stray, this`books
    {
      && after >= before + handlerFaults + Charged()
      && (plain ==> !stray) && (outcome.Published? && !plain ==> attempts != {})
      && (outcome.Published? ==> within && after == before && left.None? && books.creations != {})
      && (within && !outcome.Published? ==> after > before)
    }

    /** The whole try statement, with its finally block. */
    method AttemptAndCleanUp(resultsPayload: Bytes, manifestPayload: Bytes, replace: bool, initialization: bool,
                             oldResults: Option<Bytes>, oldManifest: Option<Bytes>)
      returns (outcome: Outcome, cleaned: bool, ghost handlerFaults: nat, ghost left: Option<Entry>, ghost after: nat)
      requires Valid() && Proper() && Kept(books, draws) && Within() && !stray && !books.abandoned
      requires Visible() == Pair(oldResults, oldManifest)
      requires !replace ==> oldResults.None? && oldManifest.None?
      requires initialization ==> oldManifest.None?
      modifies this`clock, this`faults, this`disk, this`draws, this`crashes, this`books, this`attempts, this`stray
      ensures Kept(books, draws) && old(books).Later(books)
      ensures Valid() && !outcome.Refused?
      ensures Shown(outcome, Pair(oldResults, oldManifest), Pair(Some(resultsPayload), Some(manifestPayload)))
      ensures outcome.RollbackFailed? == (handlerFaults > 0)
      ensures replace && !initialization ==> attempts == old(attempts)
      ensures crashes <= old(crashes) + Mixed(Pair(oldResults, oldManifest), resultsPayload, manifestPayload)
      ensures Framed(old(disk), disk) && left.Some? == books.abandoned
      ensures Single(left) <= Others(disk) - Others(old(disk))
      ensures cleaned ==> Others(disk) == Others(old(disk)) + Single(left)
      ensures cleaned == (faults == after) && faults >= after
      ensures Causes(outcome, old(faults), handlerFaults, left, replace && !initialization,
                     WithinLimits(resultsPayload, manifestPayload), after)
    {
      var sr, sm, rr, rm;
      ghost var staged;
      outcome, sr, sm, rr, rm, handlerFaults, left, staged :=
        Attempt(resultsPayload, manifestPayload, replace, initialization, oldResults, oldManifest);
      after := faults;
      cleaned := FinallyCleanUp(sr, sm, rr, rm, old(disk), staged, left);
    }

    /** The finally block behind the try block and its handler, with the frame of all three. */
    method FinallyCleanUp(sr: Option<Staged>, sm: Option<Staged>, rr: Option<Staged>, rm: Option<Staged>,
                          ghost before: Disk, ghost staged: Disk, ghost left: Option<Entry>)
      returns (ok: bool)
      requires Valid() && Proper() && Kept(books, draws) && before.Consistent()
      requires AsideIfAny(sr) && AsideIfAny(sm) && AsideIfAny(rr) && AsideIfAny(rm)
      requires Gained(before, staged, Mine(sr, sm, rr, rm), left)
      requires SameOutside(staged, disk, Touched(sr, sm, rr, rm))
      modifies this`clock, this`faults, this`disk, this`crashes
      ensures Valid() && Visible() == old(Visible()) && crashes == old(crashes)
      ensures Framed(before, disk) && Single(left) <= Others(disk) - Others(before)
      ensures ok ==> Others(disk) == Others(before) + Single(left)
      ensures ok == (faults == old(faults)) && faults >= old(faults)
    {
      if left.Some? { OwnIsAside(books, draws, left.value); }
      ok := CleanUp(sr, sm, rr, rm);
      FrameOf(before, staged, old(disk), disk, Mine(sr, sm, rr, rm), left);
    }

    lemma OwnIsAside(b: Books, to: nat, e: Entry)
      requires Proper() && Kept(b, to) && e in b.own
      ensures Aside(e)
    {
      assert Drawn(e, b.since, to);
      assert IsStaging(e);
    }

    lemma AfterAttempt(staged: Disk, p: Progress,
                       sr: Option<Staged>, sm: Option<Staged>, rr: Option<Staged>, rm: Option<Staged>,
                       resultsPayload: Bytes, manifestPayload: Bytes)
      requires Attempted(staged, p, sr, sm, rr, rm, resultsPayload, manifestPayload)
      ensures SameOutside(staged, disk, Touched(sr, sm, rr, rm))
      ensures Visible() == Pair(if p.Nothing? then staged.Bytes(results) else Some(resultsPayload),
                                if p.ManifestStray? || p.BothMoved? then Some(manifestPayload)
                                  else staged.Bytes(manifest))
      ensures !p.Nothing? ==>
                && disk.Consistent() && Entries(rr) !! Entries(rm)
                && disk.StagedFor(rr, staged.Bytes(results)) && disk.StagedFor(rm, staged.Bytes(manifest))
    {
      if !p.Nothing? {
        AfterProgress(staged, p, sr.value.(published := false), sm.value.(published := false), rr, rm,
                      resultsPayload, manifestPayload);
        SameOutsideMore(staged, disk, {results, manifest, sr.value.entry, sm.value.entry}, Touched(sr, sm, rr, rm));
      }
    }

    /** The exception handler: it succeeds exactly when none of its steps fails, and then both names show their old
        bytes again, except for a link that was left behind. */
    method Handle(sr: Option<Staged>, sm: Option<Staged>, rr: Option<Staged>, rm: Option<Staged>,
                  ghost staged: Disk, ghost p: Progress, ghost resultsPayload: Bytes, ghost manifestPayload: Bytes)
      returns (ok: bool)
      requires Valid() && results != manifest && Attempted(staged, p, sr, sm, rr, rm, resultsPayload, manifestPayload)
      requires AsideIfAny(rr) && AsideIfAny(rm)
      requires (rr.Some? ==> !rr.value.published) && (rm.Some? ==> !rm.value.published)
      modifies this`clock, this`faults, this`disk, this`crashes, this`attempts, this`stray
      ensures Valid() && stray == old(stray) && attempts == old(attempts)
      ensures ok == (faults == old(faults)) && faults >= old(faults)
      ensures ok ==> Visible() == AfterRollback(p, View(staged), Pair(Some(resultsPayload), Some(manifestPayload)))
      ensures crashes <= old(crashes) + Mixed(View(staged), resultsPayload, manifestPayload)
      ensures SameOutside(staged, disk, Touched(sr, sm, rr, rm))
    {
      AfterAttempt(staged, p, sr, sm, rr, rm, resultsPayload, manifestPayload);
      ghost var d, mb, rb := disk, false, false;
      ok, mb, rb := RollBack(sr, sm, rr, rm);
      if !p.Nothing? {
        StillRestorable(d, mb, rm, rr, staged, p, sr, sm, resultsPayload, manifestPayload);
        PutBackView(d, rr, rm, View(staged), mb, false);
        PutBackView(d, rr, rm, View(staged), mb, rb);
        SameOutsideMore(d, disk, {results, manifest} + Entries(rr) + Entries(rm), Touched(sr, sm, rr, rm));
        SameOutsideTwice(staged, d, disk, Touched(sr, sm, rr, rm));
      }
    }

    /** What the two names show after a rollback without error. */
    function AfterRollback(p: Progress, was: Pair, now: Pair): Pair {
      match p
      case ResultsStray => Pair(now.results, was.manifest)
      case ManifestStray => Pair(was.results, now.manifest)
      case _ => was
    }

    /** In the state the handler finds, nothing but a failing step can stop it. */
    lemma StillRestorable(d: Disk, manifestBack: bool, rm: Option<Staged>, rr: Option<Staged>, staged: Disk,
                          p: Progress,
                          sr: Option<Staged>, sm: Option<Staged>, resultsPayload: Bytes, manifestPayload: Bytes)
      requires sr.Some? && sm.Some?
      requires Ready(staged, sr.value.(published := false), sm.value.(published := false), rr, rm, resultsPayload,
                     manifestPayload)
      requires d == DiskAfter(staged, p, sr.value.(published := false), sm.value.(published := false)) && !p.Nothing?
      ensures p.BothMoved? ==> Restorable(d, manifest, sm.value, rm)
      ensures p.ResultsMoved? || p.ManifestStray? || p.BothMoved? ==>
                Restorable(PutBack(d, manifestBack, rm, false, rr), results, sr.value, rr)
    {
      var r, m := sr.value.(published := false), sm.value.(published := false);
      AfterProgress(staged, p, r, m, rr, rm, resultsPayload, manifestPayload);
    }

    /** A link and the removal of the staging name behind it never come apart. */
    ghost predicate LinksAreOneStep() {
      forall t: nat :: !fails(t, AtUnlinkLinked)
    }

    /** What a call does with the disk, for every fault plan and every request. */
    twostate predicate Guarantees(outcome: Outcome, cleaned: bool, handlerFaults: nat, new left: Option<Entry>,
                                  resultsPayload: Bytes, manifestPayload: Bytes, replace: bool,
                                  initialization: Option<Initialization>)
      reads this
    {
      // All or nothing, exactly unless the plan fails the removal behind a link.
      && (outcome.Refused? ==>
            disk == old(disk) && crashes == old(crashes) && attempts == {} && books.creations == {})
      && (outcome.Published? ==> Visible() == Pair(Some(resultsPayload), Some(manifestPayload)))
      && (outcome.RolledBack? ==> (Visible() == old(Visible()) <==> !SomeFails(attempts)))
      && (outcome.RolledBack? && SomeFails(attempts) ==>
            || Visible() == Pair(Some(resultsPayload), old(Visible()).manifest)
            || Visible() == Pair(old(Visible()).results, Some(manifestPayload)))
      && (replace && initialization.None? ==> attempts == {})
      && (LinksAreOneStep() ==> !SomeFails(attempts))
      // The rollback fails only if one of its own steps does.
      && (outcome.RollbackFailed? <==> handlerFaults > 0)
      // Every crash state shows each file old or new.
      && crashes <= old(crashes) + Mixed(old(Visible()), resultsPayload, manifestPayload)
      // Nothing else is touched, and every new name is one that this call drew and created.
      && Framed(old(disk), disk) && AllDrawn(books.own, old(draws), draws)
      // A staging file is left over exactly when the plan abandons a creation.
      && (left.Some? <==> SomeAbandoned(books.creations))
      && Single(left) <= Others(disk) - Others(old(disk))
      && (cleaned ==> Others(disk) == Others(old(disk)) + Single(left))
      && (outcome.RolledBack? && cleaned && !stray ==> disk.names.Keys == old(disk).names.Keys + Single(left))
      // Only what fits is published, and without a fault everything that fits and is not refused.
      && (outcome.Published? ==> |resultsPayload| <= 8388608 && |manifestPayload| <= 8388608)
      && (faults == 0 ==> cleaned)
      && (faults == 0 && !outcome.Refused? ==>
            outcome == if |resultsPayload| <= 8388608 && |manifestPayload| <= 8388608 then Published else RolledBack)
      // Where faults come from.
      && (outcome.Published? ==> books.creations != {} && left.None? && !stray && (!replace ==> attempts != {}))
      && faults >= handlerFaults + Charged() + (if cleaned then 0 else 1)
      && books.statFailed == SomeStatFails(books.creations)
      && (books.exhausted ==> Repeats(old(disk).names.Keys, old(draws), draws))
    }

    /** `publish_evidence_pair`: the checks, the try block with its handler, and the finally
        block.  `cleaned` is false when a cleanup step raised; that exception then replaces
        the one of `outcome`.  The ghost fields speak of this call. */
    method PublishPair(resultsPayload: Bytes, manifestPayload: Bytes, replace: bool,
                       initialization: Option<Initialization>)
      returns (outcome: Outcome, cleaned: bool, ghost handlerFaults: nat, ghost left: Option<Entry>)
      requires Valid()
      modifies this
      ensures Valid()
      ensures Guarantees(outcome, cleaned, handlerFaults, left, resultsPayload, manifestPayload, replace,
                         initialization)
      // A request that is not refused is a linked pair: every row carries the manifest's run id, and the manifest
      // records the digest, the byte count and the row count of the results.
      ensures !outcome.Refused? ==> readers.runIds(resultsPayload).Some? && readers.recorded(manifestPayload).Some?
      ensures !outcome.Refused? ==>
                var ids, m := readers.runIds(resultsPayload).value, readers.recorded(manifestPayload).value;
                && ids != [] && (forall i | 0 <= i < |ids| :: ids[i] == m.runId)
                && m.sha256 == readers.sha256(resultsPayload) && m.size == |resultsPayload| && m.rows == |ids|
      // What else is refused, with or without faults: wrong names, an existing target that is not to be replaced, half
      // a pair, two names for one file, and an initialization that does not meet exactly the recorded results.
      ensures results == manifest || !EndsWith(results.file, ".jsonl") || !EndsWith(manifest.file, ".json") ==>
                outcome.Refused?
      ensures !replace && (old(disk).Inode(results).Some? || old(disk).Inode(manifest).Some?) ==> outcome.Refused?
      ensures initialization.None? && old(disk).Inode(results).Some? != old(disk).Inode(manifest).Some? ==>
                outcome.Refused?
      ensures old(disk).Inode(results).Some? && old(disk).Inode(results) == old(disk).Inode(manifest) ==>
                outcome.Refused?
      ensures initialization.Some? && !outcome.Refused? ==>
                && replace && old(disk).Inode(manifest).None?
                && old(disk).Inode(results) == Some(initialization.value.inode)
                && old(disk).Bytes(results) == Some(initialization.value.payload)
                && old(disk).OnlyName(results)
      ensures !outcome.Refused? ==> old(disk).AtMost(results, 8388608) && old(disk).AtMost(manifest, 8388608)
      // Without a fault there is no other reason to refuse.
      ensures faults == 0 && outcome.Refused? && results != manifest
              && EndsWith(results.file, ".jsonl") && EndsWith(manifest.file, ".json")
              && old(disk).AtMost(results, 8388608) && old(disk).AtMost(manifest, 8388608) ==>
                || readers.runIds(resultsPayload).None? || readers.recorded(manifestPayload).None?
                || readers.runIds(resultsPayload).value == []
                || (exists i | 0 <= i < |readers.runIds(resultsPayload).value| ::
                      readers.runIds(resultsPayload).value[i] != readers.recorded(manifestPayload).value.runId)
                || readers.recorded(manifestPayload).value.sha256 != readers.sha256(resultsPayload)
                || readers.recorded(manifestPayload).value.size != |resultsPayload|
                || readers.recorded(manifestPayload).value.rows != |readers.runIds(resultsPayload).value|
                || (!replace && (old(disk).Inode(results).Some? || old(disk).Inode(manifest).Some?))
                || (old(disk).Inode(results).Some? && old(disk).Inode(results) == old(disk).Inode(manifest))
                || (initialization.None? && old(disk).Inode(results).Some? != old(disk).Inode(manifest).Some?)
                || (initialization.Some?
                    && (|| !replace || old(disk).Inode(manifest).Some? || !old(disk).OnlyName(results)
                        || old(disk).Inode(results) != Some(initialization.value.inode)
                        || old(disk).Bytes(results) != Some(initialization.value.payload)))
    {
      outcome, cleaned, handlerFaults, left :=
        CheckAndPublish(resultsPayload, manifestPayload, replace, initialization);
      if old(disk).Inode(results).Some? { old(disk).OneLink(results); }
    }

    /** The same, with acceptance by the checks as they are written. */
    method CheckAndPublish(resultsPayload: Bytes, manifestPayload: Bytes, replace: bool,
                           initialization: Option<Initialization>)
      returns (outcome: Outcome, cleaned: bool, ghost handlerFaults: nat, ghost left: Option<Entry>)
      requires Valid()
      modifies this
      ensures Valid()
      ensures Guarantees(outcome, cleaned, handlerFaults, left, resultsPayload, manifestPayload, replace,
                         initialization)
      ensures !outcome.Refused? ==> Admits(old(disk), resultsPayload, manifestPayload, replace, initialization)
      ensures faults == 0 && outcome.Refused? ==>
                !Admits(old(disk), resultsPayload, manifestPayload, replace, initialization)
    {
      faults, attempts, stray, handlerFaults, left := 0, {}, false, 0, None;
      books := Books(disk.names.Keys, draws, {}, false, {}, false, false);
      var admitted, oldResults, oldManifest := Preflight(resultsPayload, manifestPayload, replace, initialization);
      outcome, cleaned, handlerFaults, left := PublishIf(admitted, resultsPayload, manifestPayload, replace,
                                                         initialization.Some?, oldResults, oldManifest);
    }

    /** The call behind the checks. */
    method PublishIf(admitted: bool, resultsPayload: Bytes, manifestPayload: Bytes, replace: bool,
                     initialization: bool, oldResults: Option<Bytes>, oldManifest: Option<Bytes>)
      returns (outcome: Outcome, cleaned: bool, ghost handlerFaults: nat, ghost left: Option<Entry>)
      requires Valid() && attempts == {} && !stray
      requires books == Books(disk.names.Keys, draws, {}, false, {}, false, false)
      requires admitted ==> Proper() && Visible() == Pair(oldResults, oldManifest) && faults == 0
      requires admitted && !replace ==> oldResults.None? && oldManifest.None?
      requires admitted && initialization ==> oldManifest.None?
      modifies this`clock, this`faults, this`disk, this`draws, this`crashes, this`books, this`attempts, this`stray
      ensures Kept(books, draws) && old(books).Later(books)
      ensures Valid() && outcome.Refused? == !admitted
      ensures !admitted ==> disk == old(disk) && crashes == old(crashes) && attempts == {} && books.creations == {}
      ensures !admitted ==> faults == old(faults)
      ensures outcome.Published? ==> Visible() == Pair(Some(resultsPayload), Some(manifestPayload))
      ensures outcome.Published? ==> !stray && WithinLimits(resultsPayload, manifestPayload)
      ensures outcome.RolledBack? ==> (Visible() == old(Visible()) <==> !stray)
      ensures outcome.RolledBack? && stray ==>
                || Visible() == Pair(Some(resultsPayload), old(Visible()).manifest)
                || Visible() == Pair(old(Visible()).results, Some(manifestPayload))
      ensures replace && !initialization ==> attempts == {}
      ensures outcome.RollbackFailed? <==> handlerFaults > 0
      ensures crashes <= old(crashes) + Mixed(old(Visible()), resultsPayload, manifestPayload)
      ensures Framed(old(disk), disk) && left.Some? == books.abandoned
      ensures Single(left) <= Others(disk) - Others(old(disk))
      ensures cleaned ==> Others(disk) == Others(old(disk)) + Single(left)
      ensures outcome.RolledBack? && cleaned && !stray ==> disk.names.Keys == old(disk).names.Keys + Single(left)
      ensures faults == 0 ==> cleaned
      ensures faults == 0 && admitted ==>
                outcome == if WithinLimits(resultsPayload, manifestPayload) then Published else RolledBack
      ensures outcome.Published? ==> books.creations != {} && left.None? && (!replace ==> attempts != {})
      ensures faults >= handlerFaults + Charged() + if cleaned then 0 else 1
    {
      if !admitted { return Refused, true, 0, None; }
      ghost var after;
      outcome, cleaned, handlerFaults, left, after :=
        AttemptAndCleanUp(resultsPayload, manifestPayload, replace, initialization, oldResults, oldManifest);
      if outcome.RolledBack? && cleaned && !stray { NamesByView(old(disk), disk, Single(left)); }
    }
  }

  /** Why all-or-nothing has an exception: creating a pair on an empty disk, under a plan that fails nothing but the
      removal behind a link.  The call reports a rollback, and one of the new files is visible without the other. */
  method FailedUnlinkLeavesLink(results: Entry, manifest: Entry, readers: Readers, resultsPayload: Bytes,
                                manifestPayload: Bytes)
    returns (outcome: Outcome, shown: Pair)
    requires EndsWith(results.file, ".jsonl") && EndsWith(manifest.file, ".json") && results != manifest
    requires readers.Linked(resultsPayload, manifestPayload)
    requires |resultsPayload| <= MAX_RESULTS_BYTES && |manifestPayload| <= MAX_MANIFEST_BYTES
    ensures outcome == RolledBack
    ensures shown == Pair(Some(resultsPayload), None) || shown == Pair(None, Some(manifestPayload))
  {
    var plan := (t: nat, c: Call) => c == AtUnlinkLinked;
    var p := new Publisher(results, manifest, readers, plan, Token, Disk(map[], map[], 0));
    var cleaned;
    ghost var handlerFaults, left;
    outcome, cleaned, handlerFaults, left := p.PublishPair(resultsPayload, manifestPayload, false, None);
    shown := p.Visible();
    NoRepeats(p, p.draws);
    OnlyTheUnlinkFails(p, outcome, handlerFaults);
  }

  /** Under such a plan a call that is not stopped by the removal would succeed, and every removal stops it. */
  lemma OnlyTheUnlinkFails(p: Publisher, outcome: Outcome, handlerFaults: nat)
    requires p.Accounted() && !p.books.exhausted && p.faults >= handlerFaults + p.Charged()
    requires forall t: nat, c: Call :: p.fails(t, c) == (c == AtUnlinkLinked)
    requires outcome.Published? ==> p.attempts != {} && !p.stray
    requires outcome.Refused? ==> p.attempts == {}
    requires outcome.RollbackFailed? <==> handlerFaults > 0
    requires p.faults == 0 ==> outcome == Published
    requires p.books.statFailed == p.SomeStatFails(p.books.creations)
    ensures outcome == RolledBack && p.SomeFails(p.attempts)
  {
    assert !p.OthersMayFail();
    if p.attempts != {} {
      var t :| t in p.attempts;
      assert p.fails(t, AtUnlinkLinked);
    }
  }

  /** One failed fstat is enough to leave a file behind: the same request, under a plan that fails nothing but these.
      The call reports a rollback, its cleanup finishes, and one staging file stays on the disk. */
  method FailedStatLeavesFile(results: Entry, manifest: Entry, readers: Readers, resultsPayload: Bytes,
                              manifestPayload: Bytes)
    returns (outcome: Outcome, cleaned: bool, names: set<Entry>)
    requires EndsWith(results.file, ".jsonl") && EndsWith(manifest.file, ".json") && results != manifest
    requires readers.Linked(resultsPayload, manifestPayload)
    requires |resultsPayload| <= MAX_RESULTS_BYTES && |manifestPayload| <= MAX_MANIFEST_BYTES
    ensures outcome == RolledBack && cleaned && |names| == 1 && forall e | e in names :: IsStaging(e)
  {
    var plan := (t: nat, c: Call) => c == AtStat;
    var p := new Publisher(results, manifest, readers, plan, Token, Disk(map[], map[], 0));
    ghost var handlerFaults, left;
    outcome, cleaned, handlerFaults, left := p.PublishPair(resultsPayload, manifestPayload, false, None);
    names := p.disk.names.Keys;
    NoRepeats(p, p.draws);
    OnlyTheStatFails(p, outcome, cleaned, handlerFaults, left);
    OnlyOneName(p, left.value, names, p.draws);
  }

  lemma OnlyOneName(p: Publisher, e: Entry, names: set<Entry>, to: nat)
    requires names == {} + p.Single(Some(e)) && names - {p.results, p.manifest} <= {} + p.books.own
    requires e != p.results && e != p.manifest && p.AllDrawn(p.books.own, 0, to)
    ensures |names| == 1 && forall x | x in names :: IsStaging(x)
  {
    assert names == {e} && p.Drawn(e, 0, to);
  }

  lemma OnlyTheStatFails(p: Publisher, outcome: Outcome, cleaned: bool, handlerFaults: nat, left: Option<Entry>)
    requires p.Accounted() && !p.books.exhausted && p.faults >= handlerFaults + p.Charged() + if cleaned then 0 else 1
    requires forall t: nat, c: Call :: p.fails(t, c) == (c == AtStat)
    requires outcome.Published? ==> p.books.creations != {} && left.None?
    requires outcome.Refused? ==> p.books.creations == {}
    requires outcome.RollbackFailed? <==> handlerFaults > 0
    requires p.faults == 0 ==> outcome == Published
    requires left.Some? <==> p.SomeAbandoned(p.books.creations)
    requires p.books.statFailed == p.SomeStatFails(p.books.creations)
    ensures outcome == RolledBack && cleaned && left.Some? && !p.stray
  {
    assert !p.OthersMayFail();
    if p.books.creations != {} {
      var t :| t in p.books.creations;
      assert p.Abandons(t);
    }
  }

  /** A fault-free call with a payload above the limit: the pair is moved into place, refused when it is read back, and
      removed again. */
  method OversizedIsRolledBack(results: Entry, manifest: Entry, readers: Readers, resultsPayload: Bytes,
                               manifestPayload: Bytes)
    returns (outcome: Outcome, cleaned: bool, after: Disk)
    requires EndsWith(results.file, ".jsonl") && EndsWith(manifest.file, ".json") && results != manifest
    requires readers.Linked(resultsPayload, manifestPayload)
    requires |resultsPayload| > MAX_RESULTS_BYTES || |manifestPayload| > MAX_MANIFEST_BYTES
    ensures outcome == RolledBack && cleaned && after.names == map[]
  {
    var plan := (t: nat, c: Call) => false;
    var p := new Publisher(results, manifest, readers, plan, Token, Disk(map[], map[], 0));
    ghost var handlerFaults, left;
    outcome, cleaned, handlerFaults, left := p.PublishPair(resultsPayload, manifestPayload, false, None);
    after := p.disk;
    NoRepeats(p, p.draws);
    assert !p.OthersMayFail();
    assert p.faults == 0 && !p.SomeAbandoned(p.books.creations);
    assert after.names.Keys == {};
  }

  function Token(n: nat): string {
    seq(n, i => 'x')
  }

  lemma NoRepeats(p: Publisher, to: nat)
    requires p.token == Token
    ensures !p.Repeats({}, 0, to)
  {
    forall dir: nat, k: nat | k < to ensures !p.Drawn(StagingEntry(dir, Token(k)), 0, k) {
      assert |StagingName(Token(k))| == 14 + k;
      forall j: nat | j < k ensures StagingName(Token(j)) != StagingName(Token(k)) {
        assert |StagingName(Token(j))| == 14 + j;
      }
    }
  }

  ghost predicate Injective(f: Bytes -> Bytes) {
    forall a, b :: f(a) == f(b) ==> a == b
  }

  /** A pair of files as a verifier meets it after a crash: readable and undrifted. */
  predicate Verifies(r: Readers, p: Pair) {
    p.results.Some? && p.manifest.Some? && r.DigestMatches(p.results.value, p.manifest.value)
  }

  /** Crash consistency: of all pairs a call can leave behind, only the complete old pair and the
      complete new pair verify, provided the new run id is new. */
  lemma OnlyWholePairsVerify(r: Readers, was: Pair, resultsPayload: Bytes, manifestPayload: Bytes, p: Pair)
    requires Injective(r.sha256) && r.Linked(resultsPayload, manifestPayload)
    requires was.results.Some? && was.manifest.Some? ==>
               && r.Linked(was.results.value, was.manifest.value)
               && r.recorded(was.manifest.value).value.runId != r.recorded(manifestPayload).value.runId
    requires was.manifest.Some? ==> was.results.Some?
    requires p in Mixed(was, resultsPayload, manifestPayload)
    requires was.manifest.None? && was.results.Some? ==>
               r.runIds(was.results.value).Some? ==>
                 r.recorded(manifestPayload).value.runId !in r.runIds(was.results.value).value
    ensures Verifies(r, p) <==>
            (p == was && was.manifest.Some?) || p == Pair(Some(resultsPayload), Some(manifestPayload))
  {
    if was.results.Some? && r.runIds(was.results.value).Some? {
      var ids := r.runIds(was.results.value).value;
      assert r.runIds(resultsPayload).value[0] == r.recorded(manifestPayload).value.runId;
      if was.manifest.Some? { assert ids[0] == r.recorded(was.manifest.value).value.runId; }
      assert was.results.value != resultsPayload;
    }
  }
}
