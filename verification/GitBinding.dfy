/** The Git binding of a benchmark run: `collect_git_state`, its projection `_source_commit_record`, and
    the validators of both records. */
module GitBinding {
  import opened Wrappers

  type Bytes = seq<int>

  /** "after result assembly and before pair publication", or anything else. */
  datatype Point = BeforePairPublication | OtherPoint(text: string)

  datatype Binding = GitHead | GitCommit | ContentDigestsOnly | OtherBinding(text: string)

  datatype Reason =
    | GitStateUnavailable | RedirectedEnvironmentRefused
    | BoundPathsNotTracked | InventoryDiffersFromHead | BoundPathsDifferFromHead
    | SourcePathsNotTracked | InventoryDiffersFromCommit | SourcePathsDifferFromCommit
    | DirtyWorktree | CleanWorktreeAllTracked | CleanWorktreeSourceMatches
    | OtherReason(text: string)

  datatype Error =
    | ObservationPointInvalid | UnboundContradictory | UnboundReasonInvalid | CommitIdentityInvalid
    | BooleansInvalid | FlagsContradict | BindingContradicts | ReasonContradicts

  /** One bound path: its blob at HEAD, the bytes to be bound (None when they cannot be read), and whether
      the path is a symlink. */
  datatype BoundPath = BoundPath(blob: Option<Bytes>, payload: Option<Bytes>, symlink: bool)

  /** What Git and the file system answer. */
  datatype Observation = Observation(
    redirected: bool,                     // Git environment variables are redirected
    available: bool,                      // all three Git calls succeeded
    head: string, porcelainEmpty: bool,
    bound: seq<BoundPath>,
    sources: seq<Option<string>>,         // source paths below the root; None when outside
    headInventory: Option<set<string>>)

  datatype GitRecord = GitRecord(
    head: Option<string>, dirty: Option<bool>, porcelainDirty: Option<bool>,
    tracked: bool, pathsMatch: bool, inventoryMatch: bool,
    commitBound: bool, binding: Binding, reason: Reason, observationPoint: Point)

  function Unbound(reason: Reason): GitRecord {
    GitRecord(None, None, None, false, false, false, false, ContentDigestsOnly, reason, BeforePairPublication)
  }

  function HeadReason(porcelainDirty: bool, tracked: bool, pathsMatch: bool, inventoryMatch: bool): Reason {
    if !tracked then BoundPathsNotTracked
    else if !inventoryMatch then InventoryDiffersFromHead
    else if !pathsMatch then BoundPathsDifferFromHead
    else if porcelainDirty then DirtyWorktree
    else CleanWorktreeAllTracked
  }

  // ----- what the record should say

  predicate SamePath(p: BoundPath) {
    p.blob.Some? && p.payload == p.blob && !p.symlink
  }

  ghost predicate SameInventory(o: Observation) {
    o.sources == [] ||
    (&& (forall i | 0 <= i < |o.sources| :: o.sources[i].Some?)
     && o.headInventory == Some(set i | 0 <= i < |o.sources| :: o.sources[i].value))
  }

  /** Every bound path equals its blob at HEAD, the source inventories are the same set, and nothing else in
      the worktree differs. */
  ghost predicate MatchesHead(o: Observation) {
    && !o.redirected && o.available
    && (forall i | 0 <= i < |o.bound| :: SamePath(o.bound[i]))
    && SameInventory(o)
    && o.porcelainEmpty
  }

  // ----- collect_git_state

  method CompareBoundPaths(bound: seq<BoundPath>) returns (tracked: bool, pathsMatch: bool)
    ensures tracked <==> forall i | 0 <= i < |bound| :: bound[i].blob.Some?
    ensures pathsMatch <==> forall i | 0 <= i < |bound| :: SamePath(bound[i])
  {
    tracked, pathsMatch := true, true;
    var i := 0;
    while i < |bound|
      invariant 0 <= i <= |bound|
      invariant tracked <==> forall k | 0 <= k < i :: bound[k].blob.Some?
      invariant pathsMatch <==> forall k | 0 <= k < i :: SamePath(bound[k])
    {
      var p := bound[i];
      if p.blob.None? {
        tracked, pathsMatch := false, false;
      } else if p.payload.None? || p.symlink || p.payload.value != p.blob.value {
        pathsMatch := false;
      }
      i := i + 1;
    }
  }

  method CompareInventory(o: Observation) returns (ok: bool)
    ensures ok <==> SameInventory(o)
  {
    ok := true;
    if o.sources == [] { return; }
    var current: set<string> := {};
    var i := 0;
    while i < |o.sources|
      invariant 0 <= i <= |o.sources| && ok
      invariant forall k | 0 <= k < i :: o.sources[k].Some?
      invariant current == set k | 0 <= k < i :: o.sources[k].value
    {
      if o.sources[i].None? {
        ok := false;
        break;
      }
      current := current + {o.sources[i].value};
      i := i + 1;
    }
    if o.headInventory.None? || o.headInventory.value != current { ok := false; }
  }

  /** `collect_git_state`: the record says `git-head` exactly when everything matches HEAD. */
  method CollectGitState(o: Observation) returns (r: GitRecord)
    ensures r.binding == GitHead <==> MatchesHead(o)
    ensures r.commitBound <==> MatchesHead(o)
    ensures o.redirected ==> r == Unbound(RedirectedEnvironmentRefused)
    ensures !o.redirected && !o.available ==> r == Unbound(GitStateUnavailable)
    ensures !o.redirected && o.available ==> r.head == Some(o.head) && SelfConsistent(r) && Reflects(r, o)
    // The reason is the first of the observations that goes against the binding.
    ensures !o.redirected && o.available ==>
              var allTracked := forall i | 0 <= i < |o.bound| :: o.bound[i].blob.Some?;
              var allSame := forall i | 0 <= i < |o.bound| :: SamePath(o.bound[i]);
              && (r.reason == BoundPathsNotTracked <==> !allTracked)
              && (r.reason == InventoryDiffersFromHead <==> allTracked && !SameInventory(o))
              && (r.reason == BoundPathsDifferFromHead <==> allTracked && SameInventory(o) && !allSame)
              && (r.reason == DirtyWorktree <==> allSame && SameInventory(o) && !o.porcelainEmpty)
              && (r.reason == CleanWorktreeAllTracked <==> MatchesHead(o))
  {
    if o.redirected { return Unbound(RedirectedEnvironmentRefused); }
    if !o.available { return Unbound(GitStateUnavailable); }
    var tracked, pathsMatch := CompareBoundPaths(o.bound);
    var inventoryMatch := CompareInventory(o);
    var porcelainDirty := !o.porcelainEmpty;
    var dirty := porcelainDirty || !tracked || !pathsMatch || !inventoryMatch;
    assert pathsMatch ==> tracked;
    r := GitRecord(Some(o.head), Some(dirty), Some(porcelainDirty), tracked, pathsMatch, inventoryMatch,
                   !dirty, if dirty then ContentDigestsOnly else GitHead,
                   HeadReason(porcelainDirty, tracked, pathsMatch, inventoryMatch), BeforePairPublication);
  }

  /** Each flag of the record is the observation it stands for. */
  ghost predicate Reflects(r: GitRecord, o: Observation) {
    && (r.tracked <==> forall i | 0 <= i < |o.bound| :: o.bound[i].blob.Some?)
    && (r.pathsMatch <==> forall i | 0 <= i < |o.bound| :: SamePath(o.bound[i]))
    && (r.inventoryMatch <==> SameInventory(o))
    && r.porcelainDirty == Some(!o.porcelainEmpty)
  }

  /** A bound record is determined by its head and its four observed flags. */
  predicate SelfConsistent(r: GitRecord) {
    && r.head.Some? && r.porcelainDirty.Some?
    && var dirty := r.porcelainDirty.value || !r.tracked || !r.pathsMatch || !r.inventoryMatch;
       && r.dirty == Some(dirty)
       && r.commitBound == !dirty
       && r.binding == (if dirty then ContentDigestsOnly else GitHead)
       && r.reason == HeadReason(r.porcelainDirty.value, r.tracked, r.pathsMatch, r.inventoryMatch)
       && r.observationPoint == BeforePairPublication
  }

  // ----- the validator of the observation

  predicate IsHex(c: char) {
    '0' <= c <= '9' || 'a' <= c <= 'f'
  }

  predicate IsGitOid(s: string) {
    (|s| == 40 || |s| == 64) && forall i | 0 <= i < |s| :: IsHex(s[i])
  }

  function If(condition: bool, error: Error): seq<Error> {
    if condition then [error] else []
  }

  /** `_validate_historical_git_observation`: every contradiction it finds. */
  function ValidateObservation(r: GitRecord): seq<Error> {
    var point := If(r.observationPoint != BeforePairPublication, ObservationPointInvalid);
    if r.head.None? then
      point
      + If(r.dirty.Some? || r.porcelainDirty.Some? || r.tracked || r.pathsMatch || r.inventoryMatch || r.commitBound
           || r.binding != ContentDigestsOnly, UnboundContradictory)
      + If(r.reason !in {GitStateUnavailable, RedirectedEnvironmentRefused}, UnboundReasonInvalid)
    else
      var oid := If(!IsGitOid(r.head.value), CommitIdentityInvalid);
      if r.dirty.None? || r.porcelainDirty.None? then point + oid + [BooleansInvalid]
      else
        var dirty := r.porcelainDirty.value || !r.tracked || !r.pathsMatch || !r.inventoryMatch;
        point + oid
        + If(r.dirty.value != dirty || r.commitBound != !dirty, FlagsContradict)
        + If(r.binding != (if dirty then ContentDigestsOnly else GitHead), BindingContradicts)
        + If(r.reason != HeadReason(r.porcelainDirty.value, r.tracked, r.pathsMatch, r.inventoryMatch),
             ReasonContradicts)
  }

  /** The validator finds no error exactly in the records that agree with their own flags. */
  lemma ValidatorExact(r: GitRecord)
    ensures ValidateObservation(r) == [] <==>
            || r == Unbound(GitStateUnavailable) || r == Unbound(RedirectedEnvironmentRefused)
            || (SelfConsistent(r) && IsGitOid(r.head.value))
  {
  }

  // ----- the source-commit projection and its validator

  datatype SourceCommit = SourceCommit(
    commit: Option<string>, bound: bool, binding: Binding, worktreeDirty: Option<bool>,
    tracked: bool, pathsMatch: bool, inventoryMatch: bool, reason: Reason, observationPoint: Point)

  function SourceReason(worktreeDirty: bool, tracked: bool, pathsMatch: bool, inventoryMatch: bool): Reason {
    if !tracked then SourcePathsNotTracked
    else if !inventoryMatch then InventoryDiffersFromCommit
    else if !pathsMatch then SourcePathsDifferFromCommit
    else if worktreeDirty then DirtyWorktree
    else CleanWorktreeSourceMatches
  }

  /** `_source_commit_record`. */
  function Project(r: GitRecord): SourceCommit {
    SourceCommit(r.head, r.commitBound, if r.commitBound then GitCommit else ContentDigestsOnly,
                 r.porcelainDirty, r.tracked, r.pathsMatch, r.inventoryMatch,
                 if r.head.None? then r.reason
                 else SourceReason(r.porcelainDirty == Some(true), r.tracked, r.pathsMatch, r.inventoryMatch),
                 BeforePairPublication)
  }

  /** `_validate_source_commit_record`: the errors and the bound flag it derives. */
  function ValidateSourceCommit(c: SourceCommit): (seq<Error>, bool) {
    if c.observationPoint != BeforePairPublication then ([ObservationPointInvalid], false)
    else if c.commit.None? then
      (If(c.bound || c.binding != ContentDigestsOnly || c.worktreeDirty.Some?
          || c.tracked || c.pathsMatch || c.inventoryMatch
          || c.reason !in {GitStateUnavailable, RedirectedEnvironmentRefused},
          UnboundContradictory), false)
    else
      var oid := If(!IsGitOid(c.commit.value), CommitIdentityInvalid);
      if c.worktreeDirty.None? then (oid + [BooleansInvalid], false)
      else
        var derived := !c.worktreeDirty.value && c.tracked && c.pathsMatch && c.inventoryMatch;
        (oid
         + If(c.bound != derived, FlagsContradict)
         + If(c.binding != (if derived then GitCommit else ContentDigestsOnly), BindingContradicts)
         + If(c.reason != SourceReason(c.worktreeDirty.value, c.tracked, c.pathsMatch, c.inventoryMatch),
              ReasonContradicts),
         derived)
  }

  /** The three functions agree: what the first validator accepts, the projection keeps acceptable, with the
      same bound flag; and an accepted projection has an acceptable record behind it. */
  lemma ProjectionAgrees(r: GitRecord)
    requires ValidateObservation(r) == []
    ensures ValidateSourceCommit(Project(r)) == ([], r.commitBound)
  {
    ValidatorExact(r);
  }

  /** In an accepted projection the reason is the first flag that goes against the binding. */
  lemma AcceptedReason(c: SourceCommit)
    requires ValidateSourceCommit(c).0 == [] && c.commit.Some?
    ensures c.reason == SourcePathsNotTracked <==> !c.tracked
    ensures c.reason == InventoryDiffersFromCommit <==> c.tracked && !c.inventoryMatch
    ensures c.reason == SourcePathsDifferFromCommit <==> c.tracked && c.inventoryMatch && !c.pathsMatch
    ensures c.reason == DirtyWorktree <==>
            c.tracked && c.inventoryMatch && c.pathsMatch && c.worktreeDirty == Some(true)
    ensures c.reason == CleanWorktreeSourceMatches <==> c.bound
    ensures c.bound <==> c.tracked && c.inventoryMatch && c.pathsMatch && c.worktreeDirty == Some(false)
    ensures c.binding == if c.bound then GitCommit else ContentDigestsOnly
  {
  }

  lemma AcceptedHasRecord(c: SourceCommit) returns (r: GitRecord)
    requires ValidateSourceCommit(c).0 == []
    ensures ValidateObservation(r) == [] && Project(r) == c
  {
    if c.commit.None? {
      r := Unbound(c.reason);
    } else {
      var dirty := !(!c.worktreeDirty.value && c.tracked && c.pathsMatch && c.inventoryMatch);
      r := GitRecord(c.commit, Some(dirty), c.worktreeDirty, c.tracked, c.pathsMatch, c.inventoryMatch, c.bound,
                     if dirty then ContentDigestsOnly else GitHead,
                     HeadReason(c.worktreeDirty.value, c.tracked, c.pathsMatch, c.inventoryMatch),
                     BeforePairPublication);
    }
    ValidatorExact(r);
  }

  /** Every collected record passes both validators, with the bound flag that the observation deserves. */
  method CollectAndValidate(o: Observation) returns (r: GitRecord, errors: seq<Error>, verdict: (seq<Error>, bool))
    requires !o.redirected && o.available ==> IsGitOid(o.head)
    ensures errors == [] && verdict.0 == [] && (verdict.1 <==> MatchesHead(o))
    ensures r.binding == GitHead <==> MatchesHead(o)
  {
    r := CollectGitState(o);
    ValidatorExact(r);
    ProjectionAgrees(r);
    errors, verdict := ValidateObservation(r), ValidateSourceCommit(Project(r));
  }
}
