/** Raw-Git derivation: the exact difference of two trees (`_derive_agent_change_bindings`) and its
    validator (`_validate_agent_change_path_relations`). */
module TreeDiff {
  import opened Wrappers
  import opened Ordering
  import opened Paths
  import Utf8

  type Path = Text

  const MAX_AGENT_CHANGE_PATHS := 10_000

  datatype GitEntry = GitEntry(mode: string, kind: string, oid: string) {
    predicate Regular() {
      (mode == "100644" || mode == "100755") && kind == "blob"
    }
  }

  type Tree = map<Path, GitEntry>

  // ----- the difference of two trees

  predicate Differs(base: Tree, head: Tree, p: Path)
    requires p in head
  {
    p !in base || base[p] != head[p]
  }

  ghost function ChangedSet(base: Tree, head: Tree): set<Path> {
    set p | p in head && Differs(base, head, p)
  }

  ghost function DeletedSet(base: Tree, head: Tree): set<Path> {
    base.Keys - head.Keys
  }

  datatype Bindings = Bindings(changed: seq<Path>, deleted: seq<Path>, touched: seq<Path>, fileCount: int)

  /** The path part of the bindings; `fileCount` counts the candidate blocks. */
  ghost function Derive(base: Tree, head: Tree, ignored: set<Text>): Option<Bindings> {
    var changed, deleted := Sort(ChangedSet(base, head)), Sort(DeletedSet(base, head));
    if |changed| + |deleted| > MAX_AGENT_CHANGE_PATHS then None
    else Some(Bindings(changed, deleted, Sort(Elements(changed) + Elements(deleted)),
                       |ChangedSet(Kept(base, ignored), Kept(head, ignored))|))
  }

  /** Where the trees disagree: one of them lacks the path, or the entries differ. */
  ghost predicate Disagree(base: Tree, head: Tree, p: Path) {
    At(base, p) != At(head, p)
  }

  function At(t: Tree, p: Path): Option<GitEntry> {
    if p in t then Some(t[p]) else None
  }

  /** Base with the derived paths applied: deletions removed, changed paths taken from head. */
  ghost function Rebuild(base: Tree, head: Tree, b: Bindings): Tree
    requires forall p | p in b.changed :: p in head
  {
    (base - Elements(b.deleted)) + map p | p in b.changed :: head[p]
  }

  lemma SortMembers(s: set<Text>, r: seq<Text>)
    requires r == Sort(s)
    ensures Sorted(r) && Elements(r) == s && |r| == |s| && forall p :: p in r <==> p in s
  {
    assert forall p :: p in r <==> p in Elements(r);
  }

  /** The derived lists are ordered, free of duplicates, disjoint, and together exactly the paths where
      the trees disagree; applying them to base gives head. */
  lemma ExactDifference(base: Tree, head: Tree, ignored: set<Text>)
    requires Derive(base, head, ignored).Some?
    ensures var b := Derive(base, head, ignored).value;
            && Sorted(b.changed) && Sorted(b.deleted) && Sorted(b.touched)
            && Elements(b.changed) !! Elements(b.deleted)
            && (forall p :: p in b.touched <==> Disagree(base, head, p))
            && (forall p | p in b.changed :: p in head)
            && Rebuild(base, head, b) == head
  {
    var b := Derive(base, head, ignored).value;
    DerivedLists(base, head, ignored);
    RebuildGivesHead(base, head, b);
  }

  lemma RebuildGivesHead(base: Tree, head: Tree, b: Bindings)
    requires forall p :: p in b.changed <==> p in head && Differs(base, head, p)
    requires forall p :: p in b.deleted <==> p in base && p !in head
    ensures Rebuild(base, head, b) == head && Elements(b.changed) !! Elements(b.deleted)
  {
    var r := Rebuild(base, head, b);
    forall p ensures At(r, p) == At(head, p) {
      assert p in Elements(b.deleted) <==> p in b.deleted;
    }
    SameTree(r, head);
  }

  lemma DerivedLists(base: Tree, head: Tree, ignored: set<Text>)
    requires Derive(base, head, ignored).Some?
    ensures var b := Derive(base, head, ignored).value;
            && (forall p :: p in b.changed <==> p in head && Differs(base, head, p))
            && (forall p :: p in b.deleted <==> p in base && p !in head)
            && (forall p :: p in b.touched <==> Disagree(base, head, p))
            && Sorted(b.changed) && Sorted(b.deleted) && Sorted(b.touched)
  {
    var b := Derive(base, head, ignored).value;
    SortMembers(ChangedSet(base, head), b.changed);
    SortMembers(DeletedSet(base, head), b.deleted);
    SortMembers(Elements(b.changed) + Elements(b.deleted), b.touched);
  }

  lemma SameTree(a: Tree, b: Tree)
    requires forall p :: At(a, p) == At(b, p)
    ensures a == b
  {
    forall p ensures p in a <==> p in b { assert At(a, p) == At(b, p); }
    forall p | p in a ensures a[p] == b[p] { assert At(a, p) == At(b, p); }
  }

  // ----- the validator

  /** `value == sorted(set(value))` and the length limit. */
  ghost predicate ValidPaths(value: seq<Path>, safe: Path -> bool) {
    && (forall i | 0 <= i < |value| :: safe(value[i]))
    && value == Sort(Elements(value))
    && |value| <= MAX_AGENT_CHANGE_PATHS
  }

  function Evaluable(paths: seq<Path>, ignored: set<Text>): nat {
    if paths == [] then 0 else (if Ignored(paths[0], ignored) then 0 else 1) + Evaluable(paths[1..], ignored)
  }

  /** `_validate_agent_change_path_relations`. */
  ghost predicate Accepts(b: Bindings, ignored: set<Text>, safe: Path -> bool) {
    && ValidPaths(b.changed, safe) && ValidPaths(b.deleted, safe) && ValidPaths(b.touched, safe)
    && b.fileCount == Evaluable(b.changed, ignored)
    && Elements(b.changed) !! Elements(b.deleted)
    && b.touched == Sort(Elements(b.changed) + Elements(b.deleted))
    && b.touched != []
  }

  // ----- ignored paths

  /** `any(part in ignored for part in path.split("/"))` */
  predicate Ignored(p: Path, ignored: set<Text>)
    decreases |p|
  {
    var k := FirstSlash(p);
    p[..k] in ignored || (k < |p| && Ignored(p[k + 1..], ignored))
  }

  ghost function Kept(t: Tree, ignored: set<Text>): Tree {
    map p | p in t && !Ignored(p, ignored) :: t[p]
  }

  ghost function EvaluableSet(paths: seq<Path>, ignored: set<Text>): set<Path> {
    set p | p in paths && !Ignored(p, ignored)
  }

  lemma {:induction false} EvaluableCount(paths: seq<Path>, ignored: set<Text>)
    requires Sorted(paths)
    ensures Evaluable(paths, ignored) == |EvaluableSet(paths, ignored)|
  {
    if paths != [] {
      var first, rest := paths[0], paths[1..];
      EvaluableCount(rest, ignored);
      LessIrreflexive(first);
      assert first !in rest && paths == [first] + rest;
      var r := EvaluableSet(rest, ignored);
      assert EvaluableSet(paths, ignored) == if Ignored(first, ignored) then r else r + {first};
    }
  }

  /** The validator accepts a derived payload exactly when the two trees differ at all. */
  lemma ValidatorAcceptsDerived(base: Tree, head: Tree, ignored: set<Text>, safe: Path -> bool)
    requires Derive(base, head, ignored).Some?
    requires forall p | p in base || p in head :: safe(p)
    ensures Accepts(Derive(base, head, ignored).value, ignored, safe) <==> base != head
  {
    var b := Derive(base, head, ignored).value;
    ExactDifference(base, head, ignored);
    DerivedLists(base, head, ignored);
    TouchedCount(b);
    FileCountAgrees(base, head, ignored);
    PathsAreValid(b.changed, base, head, safe);
    PathsAreValid(b.deleted, base, head, safe);
    PathsAreValid(b.touched, base, head, safe);
    if base != head {
      SomeDisagreement(base, head);
    } else {
      assert forall p :: !Disagree(base, head, p);
      assert |b.touched| == 0;
    }
  }

  lemma PathsAreValid(value: seq<Path>, base: Tree, head: Tree, safe: Path -> bool)
    requires Sorted(value) && |value| <= MAX_AGENT_CHANGE_PATHS
    requires forall p | p in value :: p in base || p in head
    requires forall p | p in base || p in head :: safe(p)
    ensures ValidPaths(value, safe)
  {
    SortOfSorted(value);
    forall i | 0 <= i < |value| ensures safe(value[i]) { assert value[i] in value; }
  }

  lemma FileCountAgrees(base: Tree, head: Tree, ignored: set<Text>)
    requires Derive(base, head, ignored).Some?
    ensures var b := Derive(base, head, ignored).value; b.fileCount == Evaluable(b.changed, ignored)
  {
    var b := Derive(base, head, ignored).value;
    DerivedLists(base, head, ignored);
    EvaluableCount(b.changed, ignored);
    KeptDifference(base, head, b.changed, ignored);
  }

  lemma KeptDifference(base: Tree, head: Tree, changed: seq<Path>, ignored: set<Text>)
    requires forall p :: p in changed <==> p in head && Differs(base, head, p)
    ensures EvaluableSet(changed, ignored) == ChangedSet(Kept(base, ignored), Kept(head, ignored))
  {
    var b, h := Kept(base, ignored), Kept(head, ignored);
    forall p ensures p in EvaluableSet(changed, ignored) <==> p in ChangedSet(b, h) {
      assert p in b <==> p in base && !Ignored(p, ignored);
      assert p in h <==> p in head && !Ignored(p, ignored);
    }
  }

  lemma TouchedCount(b: Bindings)
    requires b.touched == Sort(Elements(b.changed) + Elements(b.deleted))
    ensures |b.touched| <= |b.changed| + |b.deleted|
  {
    ElementsCount(b.changed);
    ElementsCount(b.deleted);
  }

  lemma {:induction false} ElementsCount(s: seq<Text>)
    ensures |Elements(s)| <= |s|
  {
    if s != [] {
      ElementsCount(s[1..]);
      assert Elements(s) == Elements(s[1..]) + {s[0]};
    }
  }

  lemma SomeDisagreement(base: Tree, head: Tree)
    requires base != head
    ensures exists p :: Disagree(base, head, p)
  {
    if forall p :: !Disagree(base, head, p) {
      forall p ensures At(base, p) == At(head, p) { assert !Disagree(base, head, p); }
      SameTree(base, head);
    }
  }

  /** Two trees with safe paths that differ, and whose derived bindings are `b`. */
  ghost predicate Produces(base: Tree, head: Tree, b: Bindings, ignored: set<Text>, safe: Path -> bool) {
    && (forall p | p in base || p in head :: safe(p))
    && base != head && Derive(base, head, ignored) == Some(b)
  }

  /** The validator accepts exactly the payloads that some pair of differing trees produces. */
  lemma AcceptedExactly(b: Bindings, ignored: set<Text>, safe: Path -> bool)
    ensures Accepts(b, ignored, safe) <==> exists base, head :: Produces(base, head, b, ignored, safe)
  {
    if Accepts(b, ignored, safe) { AcceptedIsProduced(b, ignored, safe); }
    forall base, head | Produces(base, head, b, ignored, safe) ensures Accepts(b, ignored, safe) {
      ValidatorAcceptsDerived(base, head, ignored, safe);
    }
  }

  ghost function Files(paths: seq<Path>): Tree {
    map p | p in paths :: GitEntry("100644", "blob", "")
  }

  /** The deleted paths are the base tree and the changed paths the head tree. */
  lemma AcceptedIsProduced(b: Bindings, ignored: set<Text>, safe: Path -> bool)
    requires Accepts(b, ignored, safe)
    ensures Produces(Files(b.deleted), Files(b.changed), b, ignored, safe)
  {
    var base, head := Files(b.deleted), Files(b.changed);
    SplitLists(b, base, head);
    ListSizes(b);
    DerivedOf(base, head, b, ignored);
    FilesAreSafe(b, safe);
    FilesDiffer(b);
  }

  lemma DerivedOf(base: Tree, head: Tree, b: Bindings, ignored: set<Text>)
    requires b.changed == Sort(ChangedSet(base, head)) && b.deleted == Sort(DeletedSet(base, head))
    requires b.touched == Sort(Elements(b.changed) + Elements(b.deleted))
    requires |b.changed| + |b.deleted| <= MAX_AGENT_CHANGE_PATHS && b.fileCount == Evaluable(b.changed, ignored)
    ensures Derive(base, head, ignored) == Some(b)
  {
    FileCountAgrees(base, head, ignored);
  }

  lemma FilesAreSafe(b: Bindings, safe: Path -> bool)
    requires forall i | 0 <= i < |b.changed| :: safe(b.changed[i])
    requires forall i | 0 <= i < |b.deleted| :: safe(b.deleted[i])
    ensures forall p | p in Files(b.deleted) || p in Files(b.changed) :: safe(p)
  {
    forall p | p in Files(b.deleted) || p in Files(b.changed) ensures safe(p) {
      assert p in b.changed || p in b.deleted;
    }
  }

  lemma FilesDiffer(b: Bindings)
    requires Elements(b.changed) !! Elements(b.deleted) && b.touched != []
    requires b.touched == Sort(Elements(b.changed) + Elements(b.deleted))
    ensures Files(b.deleted) != Files(b.changed)
  {
    var p := b.touched[0];
    assert p in Elements(b.touched);
    assert p in Files(b.changed) <==> p in Elements(b.changed);
    assert p in Files(b.deleted) <==> p in Elements(b.deleted);
  }

  lemma SplitLists(b: Bindings, base: Tree, head: Tree)
    requires base == Files(b.deleted) && head == Files(b.changed) && Elements(b.changed) !! Elements(b.deleted)
    ensures ChangedSet(base, head) == Elements(b.changed) && DeletedSet(base, head) == Elements(b.deleted)
  {
    forall p ensures p in head && Differs(base, head, p) <==> p in Elements(b.changed) {
      assert p in Elements(b.changed) <==> p in b.changed;
      assert p in Elements(b.deleted) <==> p in b.deleted;
    }
    forall p ensures p in base && p !in head <==> p in Elements(b.deleted) {
      assert p in Elements(b.changed) <==> p in b.changed;
      assert p in Elements(b.deleted) <==> p in b.deleted;
    }
  }

  lemma ListSizes(b: Bindings)
    requires b.changed == Sort(Elements(b.changed)) && b.deleted == Sort(Elements(b.deleted))
    requires b.touched == Sort(Elements(b.changed) + Elements(b.deleted)) && Elements(b.changed) !! Elements(b.deleted)
    ensures |b.changed| + |b.deleted| == |b.touched|
  {
    assert |Elements(b.changed) + Elements(b.deleted)| == |Elements(b.changed)| + |Elements(b.deleted)|;
  }

  /** The V2 order by UTF-8 bytes and the V1 order by code points accept the same lists. */
  lemma PathOrdersAgree(paths: seq<Path>)
    requires forall i | 0 <= i < |paths| :: Utf8.AllScalar(paths[i])
    ensures Sorted(paths) <==> forall i, j | 0 <= i < j < |paths| :: Less(Utf8.Encode(paths[i]), Utf8.Encode(paths[j]))
  {
    forall i, j | 0 <= i < j < |paths|
      ensures Less(Utf8.Encode(paths[i]), Utf8.Encode(paths[j])) <==> Less(paths[i], paths[j])
    {
      Utf8.EncodeMonotone(paths[i], paths[j]);
    }
  }
}
