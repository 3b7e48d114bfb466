/** The candidate that Guard receives for a base and a head tree: the text blocks of `_candidate_blocks`
    and the directory-aware deletions of `_deleted_paths`, and what applying them to base gives. */
module Candidate {
  import opened Wrappers
  import opened Ordering
  import opened Paths
  import opened TreeDiff
  import Utf8

  const MAX_CANDIDATE_FILE_BYTES := 1024 * 1024

  datatype Error = TooManyPaths | NotRepresentable

  /** The object store: what `head.blob` returns, if the object can be read. */
  type Store = string -> Option<Text>

  /** A changed path that Guard can represent: same mode and type as before, a regular file, at most
      1 MiB, valid UTF-8. */
  predicate Representable(base: Tree, head: Tree, store: Store, p: Path)
    requires p in head
  {
    && (p in base ==> base[p].mode == head[p].mode && base[p].kind == head[p].kind)
    && head[p].Regular()
    && Size(head, store, p) <= MAX_CANDIDATE_FILE_BYTES
    && Decoded(head, store, p).Some?
  }

  function Size(head: Tree, store: Store, p: Path): nat
    requires p in head
  {
    if store(head[p].oid).Some? then |store(head[p].oid).value| else 0
  }

  ghost predicate InHead(head: Tree, paths: seq<Path>) {
    forall i | 0 <= i < |paths| :: paths[i] in head
  }

  /** How many of the paths differ, and how many bytes those have. */
  ghost function Count(base: Tree, head: Tree, paths: seq<Path>): nat
    requires InHead(head, paths)
  {
    if paths == [] then 0
    else Count(base, head, paths[..|paths| - 1]) + if Differs(base, head, paths[|paths| - 1]) then 1 else 0
  }

  ghost function Total(base: Tree, head: Tree, store: Store, paths: seq<Path>): nat
    requires InHead(head, paths)
  {
    if paths == [] then 0
    else
      var p := paths[|paths| - 1];
      Total(base, head, store, paths[..|paths| - 1]) + if Differs(base, head, p) then Size(head, store, p) else 0
  }

  predicate Within(n: nat, limit: Option<nat>) {
    limit.Some? ==> n <= limit.value
  }

  /** Everything `_candidate_blocks` demands of the paths it visits. */
  ghost predicate Admissible(base: Tree, head: Tree, store: Store, paths: seq<Path>, maxPaths: Option<nat>,
                             maxBytes: Option<nat>)
    requires InHead(head, paths)
  {
    && Within(Count(base, head, paths), maxPaths)
    && (forall i | 0 <= i < |paths| :: Differs(base, head, paths[i]) ==> Representable(base, head, store, paths[i]))
    && Within(Total(base, head, store, paths), maxBytes)
  }

  /** The text of a path, when its blob can be read and decoded. */
  function Decoded(tree: Tree, store: Store, p: Path): Option<Text>
    requires p in tree
  {
    match store(tree[p].oid)
    case None => None
    case Some(data) => Utf8.Decode(data)
  }

  /** The text of every changed path. */
  ghost function Blocks(base: Tree, head: Tree, store: Store): map<Path, Option<Text>> {
    map p | p in head && Differs(base, head, p) :: Decoded(head, store, p)
  }

  // ----- the loop, path by path

  /** No problem so far: each changed path was representable, and the running total within its limit. */
  ghost predicate Clean(base: Tree, head: Tree, store: Store, paths: seq<Path>, maxBytes: Option<nat>)
    requires InHead(head, paths)
  {
    paths == [] ||
    var p := paths[|paths| - 1];
    && Clean(base, head, store, paths[..|paths| - 1], maxBytes)
    && (Differs(base, head, p) ==>
          Representable(base, head, store, p) && Within(Total(base, head, store, paths), maxBytes))
  }

  ghost function Collected(base: Tree, head: Tree, store: Store, paths: seq<Path>): map<Path, Option<Text>>
    requires InHead(head, paths)
  {
    if paths == [] then map[]
    else
      var p, before := paths[|paths| - 1], Collected(base, head, store, paths[..|paths| - 1]);
      if Differs(base, head, p) then before[p := Decoded(head, store, p)] else before
  }

  /** One iteration. */
  lemma Advance(base: Tree, head: Tree, store: Store, order: seq<Path>, i: nat, maxBytes: Option<nat>)
    requires i < |order| && InHead(head, order)
    ensures InHead(head, order[..i]) && InHead(head, order[..i + 1])
    ensures var p, d := order[i], Differs(base, head, order[i]);
            && Count(base, head, order[..i + 1]) == Count(base, head, order[..i]) + (if d then 1 else 0)
            && Total(base, head, store, order[..i + 1])
               == Total(base, head, store, order[..i]) + (if d then Size(head, store, p) else 0)
            && Collected(base, head, store, order[..i + 1])
               == (if d then Collected(base, head, store, order[..i])[p := Decoded(head, store, p)]
                   else Collected(base, head, store, order[..i]))
            && (Clean(base, head, store, order[..i + 1], maxBytes) <==>
                  (&& Clean(base, head, store, order[..i], maxBytes)
                   && (d ==> && Representable(base, head, store, p)
                             && Within(Total(base, head, store, order[..i + 1]), maxBytes))))
  {
    assert order[..i + 1][..i] == order[..i] && order[..i + 1][i] == order[i];
  }

  lemma {:induction false} CountGrows(base: Tree, head: Tree, order: seq<Path>, i: nat)
    requires i <= |order| && InHead(head, order)
    ensures InHead(head, order[..i]) && Count(base, head, order[..i]) <= Count(base, head, order)
    decreases |order| - i
  {
    if i == |order| {
      assert order[..i] == order;
    } else {
      assert order[..i + 1][..i] == order[..i];
      CountGrows(base, head, order, i + 1);
    }
  }

  /** The running checks are the checks on the whole. */
  lemma {:induction false} CleanIs(base: Tree, head: Tree, store: Store, paths: seq<Path>, maxBytes: Option<nat>)
    requires InHead(head, paths)
    ensures Clean(base, head, store, paths, maxBytes) <==>
            (&& (forall i | 0 <= i < |paths| ::
                   Differs(base, head, paths[i]) ==> Representable(base, head, store, paths[i]))
             && Within(Total(base, head, store, paths), maxBytes))
  {
    if paths != [] {
      var init := paths[..|paths| - 1];
      CleanIs(base, head, store, init, maxBytes);
      assert forall i | 0 <= i < |init| :: init[i] == paths[i];
    }
  }

  lemma {:induction false} CollectedAt(base: Tree, head: Tree, store: Store, paths: seq<Path>, q: Path)
    requires InHead(head, paths)
    ensures q in Collected(base, head, store, paths) <==> q in paths && q in head && Differs(base, head, q)
    ensures q in Collected(base, head, store, paths) ==>
            Collected(base, head, store, paths)[q] == Decoded(head, store, q)
  {
    if paths != [] {
      CollectedAt(base, head, store, paths[..|paths| - 1], q);
      assert paths == paths[..|paths| - 1] + [paths[|paths| - 1]];
    }
  }

  lemma CollectedAll(base: Tree, head: Tree, store: Store, order: seq<Path>)
    requires InHead(head, order) && forall p | p in head :: p in order
    ensures Collected(base, head, store, order) == Blocks(base, head, store)
  {
    forall q ensures q in Collected(base, head, store, order) <==> q in Blocks(base, head, store) {
      CollectedAt(base, head, store, order, q);
    }
    forall q | q in Blocks(base, head, store)
      ensures Collected(base, head, store, order)[q] == Blocks(base, head, store)[q]
    {
      CollectedAt(base, head, store, order, q);
    }
  }

  /** `_GitReader.blob`: the bytes of an object, if it can be read and is within the bound. */
  function ReadBlob(store: Store, oid: string, maximum: nat): Option<Text> {
    match store(oid)
    case None => None
    case Some(data) => if |data| > maximum then None else Some(data)
  }

  /** A changed path, check by check: mode, type, regular file, bounded read, running total, text. */
  method Visit(base: Tree, head: Tree, store: Store, p: Path, maxBytes: Option<nat>, total: nat,
               blocks: map<Path, Option<Text>>)
    returns (ok: bool, sum: nat, more: map<Path, Option<Text>>)
    requires p in head
    ensures ok == (Representable(base, head, store, p) && Within(total + Size(head, store, p), maxBytes))
    ensures ok ==> sum == total + Size(head, store, p) && more == blocks[p := Decoded(head, store, p)]
  {
    ok, sum, more := false, total, blocks;
    var candidate := head[p];
    if p in base && base[p].mode != candidate.mode { return; }
    if p in base && base[p].kind != candidate.kind { return; }
    if !candidate.Regular() { return; }
    var data := ReadBlob(store, candidate.oid, MAX_CANDIDATE_FILE_BYTES);
    if data.None? { return; }
    sum := sum + |data.value|;
    if maxBytes.Some? && sum > maxBytes.value { return; }
    var text := Utf8.Decode(data.value);
    if text.None? { return; }
    ok, more := true, blocks[p := text];
  }

  /** `_candidate_blocks` over the kept trees, visiting the head paths in order: it succeeds exactly
      when every changed path is representable and the limits hold, and then returns the text of
      every changed path. */
  method CandidateBlocks(base: Tree, head: Tree, store: Store, order: seq<Path>, maxPaths: Option<nat>,
                         maxBytes: Option<nat>)
    returns (r: Result<map<Path, Option<Text>>, Error>)
    requires InHead(head, order) && forall p | p in head :: p in order
    ensures r.Ok? <==> Admissible(base, head, store, order, maxPaths, maxBytes)
    ensures r.Ok? ==> r.value == Blocks(base, head, store)
    // No path that was there before has another mode or type, and every path that is new or has another object is a
    // regular file of at most 1 MiB whose bytes are UTF-8; its block is their text.
    ensures r.Ok? ==> forall p | p in base && p in head :: base[p].mode == head[p].mode && base[p].kind == head[p].kind
    ensures r.Ok? ==> forall p | p in head && (p !in base || base[p].oid != head[p].oid) ::
              && (head[p].mode == "100644" || head[p].mode == "100755") && head[p].kind == "blob"
              && store(head[p].oid).Some? && |store(head[p].oid).value| <= 1048576
              && Utf8.Decode(store(head[p].oid).value).Some?
              && p in r.value && r.value[p] == Utf8.Decode(store(head[p].oid).value)
    ensures r.Ok? ==> forall p | p in r.value :: p in head && (p !in base || base[p].oid != head[p].oid)
    // Nothing else is refused: only a changed path that is none of these, or a limit.
    ensures r.Err? ==>
              || !Within(Count(base, head, order), maxPaths) || !Within(Total(base, head, store, order), maxBytes)
              || exists p | p in head ::
                   || (p in base && (base[p].mode != head[p].mode || base[p].kind != head[p].kind))
                   || ((p !in base || base[p].oid != head[p].oid)
                       && (|| (head[p].mode != "100644" && head[p].mode != "100755") || head[p].kind != "blob"
                           || store(head[p].oid).None? || |store(head[p].oid).value| > 1048576
                           || Utf8.Decode(store(head[p].oid).value).None?))
  {
    r := VisitAll(base, head, store, order, maxPaths, maxBytes);
    if r.Ok? {
      AdmittedPaths(base, head, store, order, maxPaths, maxBytes);
    } else {
      RefusedPath(base, head, store, order, maxPaths, maxBytes);
    }
  }

  lemma RefusedPath(base: Tree, head: Tree, store: Store, order: seq<Path>, maxPaths: Option<nat>,
                    maxBytes: Option<nat>)
    requires InHead(head, order) && !Admissible(base, head, store, order, maxPaths, maxBytes)
    ensures || !Within(Count(base, head, order), maxPaths) || !Within(Total(base, head, store, order), maxBytes)
            || exists p | p in head :: Differs(base, head, p) && !Representable(base, head, store, p)
  {
  }

  /** The loop itself. */
  method VisitAll(base: Tree, head: Tree, store: Store, order: seq<Path>, maxPaths: Option<nat>, maxBytes: Option<nat>)
    returns (r: Result<map<Path, Option<Text>>, Error>)
    requires InHead(head, order) && forall p | p in head :: p in order
    ensures r.Ok? <==> Admissible(base, head, store, order, maxPaths, maxBytes)
    ensures r.Ok? ==> r.value == Blocks(base, head, store)
  {
    var blocks: map<Path, Option<Text>> := map[];
    var problem := false;
    var changedCount, total: nat, i := 0, 0, 0;
    while i < |order|
      invariant 0 <= i <= |order| && InHead(head, order[..i])
      invariant changedCount == Count(base, head, order[..i]) && Within(changedCount, maxPaths)
      invariant problem == !Clean(base, head, store, order[..i], maxBytes)
      invariant !problem ==> total == Total(base, head, store, order[..i])
      invariant !problem ==> blocks == Collected(base, head, store, order[..i])
    {
      var p := order[i];
      Advance(base, head, store, order, i, maxBytes);
      i := i + 1;
      if Differs(base, head, p) {
        changedCount := changedCount + 1;
        if !Within(changedCount, maxPaths) {
          CountGrows(base, head, order, i);
          return Err(TooManyPaths);
        }
        var ok, sum, more := Visit(base, head, store, p, maxBytes, total, blocks);
        total := sum;
        if ok { blocks := more; } else { problem := true; }
      }
    }
    assert order[..i] == order;
    CleanIs(base, head, store, order, maxBytes);
    CollectedAll(base, head, store, order);
    r := if problem then Err(NotRepresentable) else Ok(blocks);
  }

  lemma AdmittedPaths(base: Tree, head: Tree, store: Store, order: seq<Path>, maxPaths: Option<nat>,
                      maxBytes: Option<nat>)
    requires InHead(head, order) && (forall p | p in head :: p in order)
    requires Admissible(base, head, store, order, maxPaths, maxBytes)
    ensures forall p | p in head && Differs(base, head, p) :: Representable(base, head, store, p)
  {
    forall p | p in head && Differs(base, head, p) ensures Representable(base, head, store, p) {
      assert p in order;
      var i :| 0 <= i < |order| && order[i] == p;
    }
  }

  // ----- deletions and reconstruction

  /** `_tree_paths_with_directories` over a kept tree: its paths and their parent directories. */
  ghost function TreePaths(t: Tree): set<Path> {
    t.Keys + set p, k | p in t && 0 <= k < |p| && p[k] == SLASH :: p[..k]
  }

  /** `_deleted_paths`. */
  ghost function DeletedPaths(base: Tree, head: Tree): seq<Path> {
    Sort(TreePaths(base) - TreePaths(head))
  }

  /** Parents of listed paths are listed. */
  lemma ParentListed(t: Tree, p: Path, k: nat)
    requires p in TreePaths(t) && k < |p| && p[k] == SLASH
    ensures p[..k] in TreePaths(t)
  {
    if p !in t {
      var q, j :| q in t && 0 <= j < |q| && q[j] == SLASH && p == q[..j];
      assert q[k] == SLASH && q[..k] == p[..k];
    }
  }

  /** Deleting a path removes it and everything below it. */
  ghost predicate Removed(deleted: set<Path>, p: Path) {
    p in deleted || exists k :: 0 <= k < |p| && p[k] == SLASH && p[..k] in deleted
  }

  ghost function Checkout(t: Tree, store: Store): map<Path, Option<Text>> {
    map p | p in t :: Decoded(t, store, p)
  }

  /** The judged copy: base, overlaid with the blocks, without what the deletions remove. */
  ghost function Applied(base: Tree, store: Store, blocks: map<Path, Option<Text>>, deleted: set<Path>)
    : map<Path, Option<Text>>
  {
    var overlaid := Checkout(base, store) + blocks;
    map p | p in overlaid && !Removed(deleted, p) :: overlaid[p]
  }

  /** A path of the overlay survives exactly when head still has it, as a file or as a directory. */
  lemma Survives(base: Tree, head: Tree, p: Path)
    requires p in base || p in head
    ensures Removed(TreePaths(base) - TreePaths(head), p) <==> p !in TreePaths(head)
  {
    var deleted := TreePaths(base) - TreePaths(head);
    if p in TreePaths(head) && Removed(deleted, p) {
      var k :| 0 <= k < |p| && p[k] == SLASH && p[..k] in deleted;
      ParentListed(head, p, k);
    }
  }

  /** The judged copy, path by path. */
  lemma JudgedAt(base: Tree, head: Tree, store: Store, blocks: map<Path, Option<Text>>, deleted: set<Path>, p: Path)
    requires deleted == TreePaths(base) - TreePaths(head)
    requires forall q :: q in blocks <==> q in head && Differs(base, head, q)
    requires forall q | q in blocks :: blocks[q] == Decoded(head, store, q)
    ensures var judged := Applied(base, store, blocks, deleted);
            && (p in head ==> p in judged && judged[p] == Decoded(head, store, p))
            && (p !in head ==> (p in judged <==> p in base && p in TreePaths(head)))
  {
    if p in base || p in head { Survives(base, head, p); }
  }

  /** Candidate reconstruction, with its exact condition: the judged copy has head's paths and contents
      if and only if no file of base has become a directory in head. */
  lemma Reconstruction(base: Tree, head: Tree, store: Store)
    ensures Applied(base, store, Blocks(base, head, store), Elements(DeletedPaths(base, head))) == Checkout(head, store)
            <==> forall p | p in base && p !in head :: p !in TreePaths(head)
  {
    var blocks, deleted := Blocks(base, head, store), TreePaths(base) - TreePaths(head);
    SortMembers(deleted, DeletedPaths(base, head));
    ReconstructionOf(base, head, store, blocks, deleted);
  }

  lemma ReconstructionOf(base: Tree, head: Tree, store: Store, blocks: map<Path, Option<Text>>, deleted: set<Path>)
    requires deleted == TreePaths(base) - TreePaths(head)
    requires forall q :: q in blocks <==> q in head && Differs(base, head, q)
    requires forall q | q in blocks :: blocks[q] == Decoded(head, store, q)
    ensures Applied(base, store, blocks, deleted) == Checkout(head, store)
            <==> forall p | p in base && p !in head :: p !in TreePaths(head)
  {
    var judged, expected := Applied(base, store, blocks, deleted), Checkout(head, store);
    if forall p | p in base && p !in head :: p !in TreePaths(head) {
      forall p ensures p in judged <==> p in expected { JudgedAt(base, head, store, blocks, deleted, p); }
      forall p | p in judged ensures judged[p] == expected[p] { JudgedAt(base, head, store, blocks, deleted, p); }
    }
    if judged == expected {
      forall p | p in base && p !in head ensures p !in TreePaths(head) {
        JudgedAt(base, head, store, blocks, deleted, p);
        assert p !in expected;
      }
    }
  }

  /** The failing case, concretely: base has only a file p, head only a file below p. */
  lemma FileBecomesDirectory(p: Path, rest: Path, e: GitEntry, store: Store)
    ensures var base: Tree, head: Tree, q := map[p := e], map[p + [SLASH] + rest := e], p + [SLASH] + rest;
            Applied(base, store, Blocks(base, head, store), Elements(DeletedPaths(base, head))) != Checkout(head, store)
  {
    var q := p + [SLASH] + rest;
    assert |q| > |p| && q[|p|] == SLASH && q[..|p|] == p;
    var base: Tree, head: Tree := map[p := e], map[q := e];
    Reconstruction(base, head, store);
    assert p in base && p !in head;
    ListedParent(head, q, p);
  }

  lemma ListedParent(t: Tree, q: Path, p: Path)
    requires q in t && |p| < |q| && q[|p|] == SLASH && q[..|p|] == p
    ensures p in TreePaths(t)
  {
  }
}
