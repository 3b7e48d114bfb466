/** The `finally` chain of `_run_blackbox_impl` and the wrapper `run_blackbox`.

    Each stage of the chain may fail, and so may each look at the current exception; the model
    takes all of these outcomes as input.  An exception is an identity with a kind. */
module BlackboxCleanup {
  import opened Wrappers
  import opened BlackboxPack

  datatype Stage = Container | Recorder | CandidateWorkspace | PackWorkspace

  /** One secondary failure attached to the primary. */
  datatype Note = Note(onto: Exc, stage: Stage, failure: Exc)

  /** What the harness check after the run finds. */
  datatype Harness = NoBaseline | Unproven | Observed(changes: seq<string>)

  datatype Body =
    | Early(error: string)                              // a return before the pack was judged
    | Judged(raw: Verdict, harness: Harness)            // a return through project_pack_verdict
    | Raised(exc: Exc, pending: Option<Verdict>)

  /** Everything the chain does not decide itself.  A stage is `None` when it has nothing to do,
      `Some(None)` when it succeeds and `Some(Some(e))` when it raises e. */
  datatype Run = Run(
    body: Body,
    active: bool,                        // the pack lifecycle is still active
    ambient: Option<Exc>,                // an exception the caller is already handling
    excInfo: map<Stage, Exc>,            // looks at the current exception that fail
    stages: map<Stage, Option<Exc>>)     // the stages that apply

  datatype Outcome = Returned(verdict: Verdict) | Raises(raised: Exc)

  /** `enforce_harness_postcondition`. */
  function EnforceHarness(v: Verdict, h: Harness): (r: Verdict)
    ensures r.passed <==> v.passed && (h.NoBaseline? || h == Observed([]))
    ensures r == v || r == Failing("candidate harness input changed")
  {
    if h.NoBaseline? || h == Observed([]) then v
    else v.(passed := false, ran := false, error := Some("candidate harness input changed"))
  }

  /** The body of `_run_blackbox_impl`, up to its return or exception. */
  datatype Script =
    | EarlyReturn(error: string)     // a return before the pack is executed
    | Unprepared(exc: Exc)           // an exception before that
    | Packed(pack: PackRun, harness: Harness,
             projection: Option<Exc>,    // an exception while the verdict is projected
             interrupt: Option<Exc>)     // an exception right behind it, when the result is already pending

  function Projected(v: Verdict, s: Script): Body
    requires s.Packed?
  {
    if s.projection.Some? then Raised(s.projection.value, None)
    else if s.interrupt.Some? then Raised(s.interrupt.value, Some(EnforceHarness(v, s.harness)))
    else Judged(v, s.harness)
  }

  function BodyOf(s: Script): Body {
    match s
    case EarlyReturn(error) => Early(error)
    case Unprepared(e) => Raised(e, None)
    case Packed(pack, _, _, _) =>
      match Executed(pack)
      case Escapes(e) => Raised(e, None)
      case Terminal(v) => Projected(v, s)
      case Completed(code) =>
        if pack.report.ReportRaises? then Raised(pack.report.exc, None) else Projected(Interpret(code, pack.report), s)
  }

  function ActiveOf(s: Script): bool {
    s.Packed? && StaysActive(s.pack)
  }

  /** The body with its lifecycle object, from the execution of the pack on. */
  method RunBody(s: Script) returns (body: Body, active: bool)
    ensures body == BodyOf(s) && active == ActiveOf(s)
  {
    var lifecycle := new Lifecycle();
    match s {
      case EarlyReturn(error) => body := Early(error);
      case Unprepared(e) => body := Raised(e, None);
      case Packed(pack, _, _, _) =>
        var execution := lifecycle.Execute(pack);
        match execution {
          case Escapes(e) => body := Raised(e, None);
          case Terminal(v) => body := Projected(v, s);
          case Completed(code) =>
            if pack.report.ReportRaises? {
              body := Raised(pack.report.exc, None);
            } else {
              body := Projected(Interpret(code, pack.report), s);
            }
        }
    }
    active := lifecycle.active;
  }

  function Pending(b: Body): Option<Verdict> {
    match b
    case Early(_) => None
    case Judged(raw, harness) => Some(EnforceHarness(raw, harness))
    case Raised(_, pending) => pending
  }

  function BodyVerdict(b: Body): Verdict
    requires !b.Raised?
  {
    match b
    case Early(error) => Failing(error)
    case Judged(raw, harness) => EnforceHarness(raw, harness)
  }

  // ----- what the chain is meant to do

  /** A failure, in the order in which failures happen. */
  datatype Failure = InBody(exc: Exc) | InLook(exc: Exc) | InStage(stage: Stage, exc: Exc)

  function AfterBody(run: Run): seq<Failure> {
    if run.body.Raised? then [InBody(run.body.exc)] else []
  }

  /** The current exception is looked up only while no failure is known. */
  function AfterLook(fs: seq<Failure>, run: Run, stage: Stage): seq<Failure> {
    if fs == [] && stage in run.excInfo then [InLook(run.excInfo[stage])] else fs
  }

  function AfterStage(fs: seq<Failure>, run: Run, stage: Stage): seq<Failure> {
    if stage in run.stages && run.stages[stage].Some? then fs + [InStage(stage, run.stages[stage].value)] else fs
  }

  function AfterContainer(run: Run): seq<Failure> {
    AfterStage(AfterLook(AfterBody(run), run, Container), run, Container)
  }

  function AfterRecorder(run: Run): seq<Failure> {
    AfterStage(AfterLook(AfterContainer(run), run, Recorder), run, Recorder)
  }

  function BeforeWorkspaces(run: Run): seq<Failure> {
    AfterLook(AfterRecorder(run), run, CandidateWorkspace)
  }

  /** Every failure of the run, in order. */
  function Failures(run: Run): seq<Failure> {
    AfterStage(AfterStage(BeforeWorkspaces(run), run, CandidateWorkspace), run, PackWorkspace)
  }

  /** The stages that apply, in order. */
  function Applicable(run: Run): seq<Stage> {
    Present(run, Container) + Present(run, Recorder) + Present(run, CandidateWorkspace) + Present(run, PackWorkspace)
  }

  function Place(stage: Stage): nat {
    match stage case Container => 0 case Recorder => 1 case CandidateWorkspace => 2 case PackWorkspace => 3
  }

  function Present(run: Run, stage: Stage): seq<Stage> {
    if stage in run.stages then [stage] else []
  }

  function ContainerVerdict(run: Run): Verdict {
    if run.active && Pending(run.body).Some? then Pending(run.body).value
    else Failing("candidate container cleanup failed")
  }

  const WORKSPACE_VERDICT := Failing("black-box workspace cleanup failed")

  /** The exception that a first failure makes the chain raise: the failure itself, or a reportable
      cleanup failure in its place. */
  function Surfaced(run: Run, f: Failure): Exc {
    match f
    case InBody(e) => e
    case InLook(e) => e
    case InStage(Container, e) => if e.kind.ContainerError? then e.(kind := Reportable(ContainerVerdict(run))) else e
    case InStage(Recorder, e) => e
    case InStage(_, e) => if e.kind.Control? then e else e.(kind := Reportable(WORKSPACE_VERDICT))
  }

  predicate IsWorkspace(f: Failure) {
    f.InStage? && (f.stage == CandidateWorkspace || f.stage == PackWorkspace)
  }

  /** Later failures become notes; those of a workspace failure are attached before it is wrapped, after a
      note of its own. */
  function NotesFor(run: Run, fs: seq<Failure>): seq<Note> {
    if fs == [] then []
    else if IsWorkspace(fs[0]) then NotesOnto(fs[0].exc, fs)
    else NotesOnto(Surfaced(run, fs[0]), fs[1..])
  }

  function NotesOnto(primary: Exc, fs: seq<Failure>): seq<Note> {
    if fs == [] then []
    else (if fs[0].InStage? then [Note(primary, fs[0].stage, fs[0].exc)] else []) + NotesOnto(primary, fs[1..])
  }

  lemma {:induction false} NotesSnoc(primary: Exc, fs: seq<Failure>, f: Failure)
    requires f.InStage?
    ensures NotesOnto(primary, fs + [f]) == NotesOnto(primary, fs) + [Note(primary, f.stage, f.exc)]
  {
    if fs == [] {
      assert fs + [f] == [f];
    } else {
      assert (fs + [f])[1..] == fs[1..] + [f] && (fs + [f])[0] == fs[0];
      NotesSnoc(primary, fs[1..], f);
    }
  }

  /** The whole chain, as a function of what fails. */
  function Expected(run: Run): Outcome {
    if Failures(run) == [] then
      (if run.body.Raised? then Raises(run.body.exc) else Returned(BodyVerdict(run.body)))
    else Raises(Surfaced(run, Failures(run)[0]))
  }

  // ----- the chain

  class Chain {
    const run: Run
    var primary: Option<Exc>       // cleanup_primary
    var deferred: Option<Exc>      // deferred_primary
    var inFlight: Option<Exc>      // the exception now propagating
    var notes: seq<Note>
    var attempted: seq<Stage>
    ghost var failures: seq<Failure>

    constructor (run: Run)
      ensures this.run == run && primary.None? && deferred.None? && inFlight.None? && notes == [] && attempted == []
      ensures failures == []
    {
      this.run := run;
      primary, deferred, inFlight, notes, attempted, failures := None, None, None, [], [], [];
    }

    /** The tracked primary is the first failure, and everything later is a note on it. */
    ghost predicate Tracking()
      reads this
    {
      if failures == [] then primary.None? && deferred.None? && inFlight.None? && notes == []
      else
        && !IsWorkspace(failures[0])
        && primary == Some(Surfaced(run, failures[0])) && notes == NotesFor(run, failures)
        && (if failures[0].InLook? then deferred == primary && inFlight.None?
            else deferred.None? && inFlight == primary)
    }

    /** `observe_cleanup_primary`.  The look at the current exception returns the propagating one or, if
        there is none, the caller's; the caller's never counts. */
    method Observe(stage: Stage) returns (p: Option<Exc>)
      requires Tracking()
      modifies this`primary, this`deferred, this`failures
      ensures Tracking() && failures == AfterLook(old(failures), run, stage)
      ensures p == primary && (p.Some? <==> failures != [])
    {
      if primary.Some? { return primary; }
      if stage in run.excInfo {
        var e := run.excInfo[stage];
        primary, deferred := Some(e), Some(e);
        failures := [InLook(e)];
      } else {
        var observed := if inFlight.Some? then inFlight else run.ambient;
        primary := if observed == run.ambient then None else observed;
      }
      p := primary;
    }

    method Attach(onto: Exc, stage: Stage, failure: Exc)
      modifies this`notes
      ensures notes == old(notes) + [Note(onto, stage, failure)]
    {
      notes := notes + [Note(onto, stage, failure)];
    }

    /** The container and recorder stages: a failure is noted on a known primary, or becomes it. */
    method Guarded(stage: Stage)
      requires Tracking() && (stage == Container || stage == Recorder)
      modifies this
      ensures Tracking() && failures == AfterStage(AfterLook(old(failures), run, stage), run, stage)
      ensures attempted == old(attempted) + Present(run, stage)
    {
      var known := Observe(stage);
      if stage !in run.stages { return; }
      attempted := attempted + [stage];
      if run.stages[stage].None? { return; }
      var e := run.stages[stage].value;
      if known.Some? {
        Attach(known.value, stage, e);
        NotesSnoc(Surfaced(run, failures[0]), failures[1..], InStage(stage, e));
        assert (failures + [InStage(stage, e)])[1..] == failures[1..] + [InStage(stage, e)];
      } else {
        var raised :=
          if stage == Container && e.kind.ContainerError? then e.(kind := Reportable(ContainerVerdict(run))) else e;
        primary, inFlight := Some(raised), Some(raised);
      }
      failures := failures + [InStage(stage, e)];
    }

    /** The workspace stage: both roots are always attempted before any failure is raised. */
    method Workspaces()
      requires Tracking() && failures == AfterRecorder(run)
      modifies this
      ensures failures == Failures(run) && notes == NotesFor(run, failures)
      ensures attempted == old(attempted) + Present(run, CandidateWorkspace) + Present(run, PackWorkspace)
      ensures failures == [] ==> inFlight.None?
      ensures failures != [] ==> inFlight == Some(Surfaced(run, failures[0]))
    {
      var known := Observe(CandidateWorkspace);
      ghost var before := failures;
      var collected := RemoveBoth();
      failures := Failures(run);
      WorkspaceFailures(run);
      if collected == [] {
        assert failures == before;
      } else if known.Some? {
        NoteAll(known.value, collected);
        MoreNotes(run, known.value, before, AsFailures(collected));
      } else {
        var (stage, first) := collected[0];
        NoteAll(first, collected);
        assert failures == AsFailures(collected);
        var raised := if first.kind.Control? then first else first.(kind := Reportable(WORKSPACE_VERDICT));
        primary, inFlight := Some(raised), Some(raised);
        return;
      }
      if deferred.Some? { inFlight := deferred; }
    }

    /** The loop over the two workspace roots: a root that exists is removed, and a failure is caught. */
    method RemoveBoth() returns (collected: seq<(Stage, Exc)>)
      modifies this`attempted
      ensures collected == Collected(run, CandidateWorkspace) + Collected(run, PackWorkspace)
      ensures attempted == old(attempted) + Present(run, CandidateWorkspace) + Present(run, PackWorkspace)
    {
      collected := [];
      var roots := [CandidateWorkspace, PackWorkspace];
      var i := 0;
      while i < |roots|
        invariant 0 <= i <= 2
        invariant collected == (if i > 0 then Collected(run, roots[0]) else [])
                               + if i > 1 then Collected(run, roots[1]) else []
        invariant attempted == old(attempted) + (if i > 0 then Present(run, roots[0]) else [])
                               + if i > 1 then Present(run, roots[1]) else []
      {
        var root := roots[i];
        i := i + 1;
        if root !in run.stages { continue; }
        attempted := attempted + [root];
        var failure := run.stages[root];
        if failure.Some? { collected := collected + [(root, failure.value)]; }
      }
    }

    method NoteAll(onto: Exc, collected: seq<(Stage, Exc)>)
      modifies this`notes
      ensures notes == old(notes) + NotesOnto(onto, AsFailures(collected))
    {
      var i := 0;
      while i < |collected|
        invariant 0 <= i <= |collected|
        invariant notes == old(notes) + NotesOnto(onto, AsFailures(collected[..i]))
      {
        assert collected[..i + 1] == collected[..i] + [collected[i]];
        AsFailuresSnoc(collected[..i], collected[i]);
        NotesSnoc(onto, AsFailures(collected[..i]), InStage(collected[i].0, collected[i].1));
        Attach(onto, collected[i].0, collected[i].1);
        i := i + 1;
      }
      assert collected[..i] == collected;
    }

    /** The try statement of `_run_blackbox_impl`, from the end of its body. */
    method Finish() returns (outcome: Outcome)
      requires failures == [] && Tracking() && attempted == []
      modifies this
      ensures outcome == Expected(run)
      ensures attempted == Applicable(run)
      ensures notes == NotesFor(run, Failures(run))
    {
      if run.body.Raised? {
        primary, inFlight := Some(run.body.exc), Some(run.body.exc);
        failures := [InBody(run.body.exc)];
      }
      Guarded(Container);
      Guarded(Recorder);
      Workspaces();
      FailuresIncludeBody(run);
      outcome := if inFlight.Some? then Raises(inFlight.value) else Returned(BodyVerdict(run.body));
    }
  }

  function Collected(run: Run, stage: Stage): seq<(Stage, Exc)> {
    if stage in run.stages && run.stages[stage].Some? then [(stage, run.stages[stage].value)] else []
  }

  lemma WorkspaceFailures(run: Run)
    ensures Failures(run) ==
            BeforeWorkspaces(run) + AsFailures(Collected(run, CandidateWorkspace) + Collected(run, PackWorkspace))
  {
    var a, b := Collected(run, CandidateWorkspace), Collected(run, PackWorkspace);
    if a != [] && b != [] { AsFailuresSnoc(a, b[0]); }
    assert a + b == (if a == [] then b else if b == [] then a else a + [b[0]]);
  }

  function AsFailures(collected: seq<(Stage, Exc)>): (fs: seq<Failure>)
    ensures |fs| == |collected|
  {
    if collected == [] then [] else [InStage(collected[0].0, collected[0].1)] + AsFailures(collected[1..])
  }

  lemma {:induction false} AsFailuresSnoc(c: seq<(Stage, Exc)>, x: (Stage, Exc))
    ensures AsFailures(c + [x]) == AsFailures(c) + [InStage(x.0, x.1)]
  {
    if c == [] {
      assert c + [x] == [x];
    } else {
      assert (c + [x])[1..] == c[1..] + [x] && (c + [x])[0] == c[0];
      AsFailuresSnoc(c[1..], x);
    }
  }

  lemma {:induction false} NotesConcat(primary: Exc, a: seq<Failure>, b: seq<Failure>)
    ensures NotesOnto(primary, a + b) == NotesOnto(primary, a) + NotesOnto(primary, b)
  {
    if a == [] {
      assert a + b == b;
    } else {
      assert (a + b)[1..] == a[1..] + b && (a + b)[0] == a[0];
      NotesConcat(primary, a[1..], b);
    }
  }

  /** Failures behind a known primary add their notes to it. */
  lemma MoreNotes(run: Run, primary: Exc, before: seq<Failure>, later: seq<Failure>)
    requires before != [] && !IsWorkspace(before[0]) && primary == Surfaced(run, before[0])
    ensures NotesFor(run, before + later) == NotesFor(run, before) + NotesOnto(primary, later)
  {
    NotesConcat(primary, before[1..], later);
    assert (before + later)[1..] == before[1..] + later && (before + later)[0] == before[0];
  }

  /** A body that raised is the first failure, whatever else fails. */
  lemma FailuresIncludeBody(run: Run)
    ensures run.body.Raised? ==> Failures(run) != [] && Failures(run)[0] == InBody(run.body.exc)
  {
  }

  // ----- run_blackbox

  /** Reportable cleanup failures are made by the chain, never handed to it. */
  ghost predicate Genuine(run: Run) {
    && (run.body.Raised? ==> !run.body.exc.kind.Reportable?)
    && (forall s | s in run.excInfo :: !run.excInfo[s].kind.Reportable?)
    && (forall s | s in run.stages && run.stages[s].Some? :: !run.stages[s].value.kind.Reportable?)
  }

  function Reported(o: Outcome): Outcome {
    match o
    case Returned(v) => Returned(v)
    case Raises(e) => if e.kind.Reportable? then Returned(e.kind.result) else o
  }

  function RunOf(s: Script, ambient: Option<Exc>, excInfo: map<Stage, Exc>, stages: map<Stage, Option<Exc>>): Run {
    Run(BodyOf(s), ActiveOf(s), ambient, excInfo, stages)
  }

  /** `run_blackbox`: a reportable cleanup failure is returned, everything else propagates. */
  method RunBlackbox(s: Script, ambient: Option<Exc>, excInfo: map<Stage, Exc>, stages: map<Stage, Option<Exc>>)
    returns (outcome: Outcome, attempted: seq<Stage>, notes: seq<Note>)
    ensures var run := RunOf(s, ambient, excInfo, stages);
            && outcome == Reported(Expected(run)) && attempted == Applicable(run)
            && notes == NotesFor(run, Failures(run))
    // Every stage that applies is attempted, in order, whatever fails.
    ensures (forall x :: x in attempted <==> x in stages) && InPlace(attempted)
    // Without a failure the verdict of the body is returned; a control exception is never swallowed.
    ensures var run := RunOf(s, ambient, excInfo, stages);
            && (Failures(run) == [] ==> !run.body.Raised? && outcome == Returned(BodyVerdict(run.body)))
            && (Failures(run) != [] && Failures(run)[0].exc.kind.Control? ==>
                  outcome == Raises(Failures(run)[0].exc))
    // An exception of the body, of a look or of the recorder is raised as it is.
    ensures var run := RunOf(s, ambient, excInfo, stages);
            Failures(run) != [] && !Failures(run)[0].exc.kind.Reportable?
            && (Failures(run)[0].InBody? || Failures(run)[0].InLook? || Failures(run)[0].stage == Recorder) ==>
              outcome == Raises(Failures(run)[0].exc)
    // A failed container cleanup becomes a verdict, the pending one while the lifecycle is active; any other exception
    // of that stage is raised.
    ensures var run := RunOf(s, ambient, excInfo, stages);
            Failures(run) != [] && Failures(run)[0].InStage? && Failures(run)[0].stage == Container ==>
              && (Failures(run)[0].exc.kind.Ordinary? ==> outcome == Raises(Failures(run)[0].exc))
              && (Failures(run)[0].exc.kind.ContainerError? ==>
                    outcome == Returned(if run.active && Pending(run.body).Some? then Pending(run.body).value
                                        else Verdict(false, false, Some("candidate container cleanup failed"))))
    // An ordinary exception of a workspace removal becomes a verdict of its own.
    ensures var run := RunOf(s, ambient, excInfo, stages);
            Failures(run) != [] && Failures(run)[0].InStage? && !Failures(run)[0].exc.kind.Control?
            && (Failures(run)[0].stage == CandidateWorkspace || Failures(run)[0].stage == PackWorkspace) ==>
              outcome == Returned(Verdict(false, false, Some("black-box workspace cleanup failed")))
  {
    var body, active := RunBody(s);
    var chain := new Chain(Run(body, active, ambient, excInfo, stages));
    ghost var run := chain.run;
    outcome := chain.Finish();
    attempted, notes := chain.attempted, chain.notes;
    if outcome.Raises? && outcome.raised.kind.Reportable? {
      outcome := Returned(outcome.raised.kind.result);
    }
    ApplicableInOrder(run);
    RaisedCases(run);
    ReturnedCases(run);
  }

  /** The stages that apply, in the order of the finally blocks. */
  lemma ApplicableInOrder(run: Run)
    ensures forall x :: x in Applicable(run) <==> x in run.stages
    ensures InPlace(Applicable(run))
  {
    forall x ensures x in Applicable(run) <==> x in run.stages {
      assert x == Container || x == Recorder || x == CandidateWorkspace || x == PackWorkspace;
    }
    var a, b := Present(run, Container), Present(run, Recorder);
    var c, d := Present(run, CandidateWorkspace), Present(run, PackWorkspace);
    InPlaceAppend(a, b, 1);
    InPlaceAppend(a + b, c, 2);
    InPlaceAppend(a + b + c, d, 3);
  }

  ghost predicate InPlace(stages: seq<Stage>) {
    forall i, j | 0 <= i < j < |stages| :: Place(stages[i]) < Place(stages[j])
  }

  lemma InPlaceAppend(s: seq<Stage>, t: seq<Stage>, place: nat)
    requires InPlace(s) && (forall i | 0 <= i < |s| :: Place(s[i]) < place)
    requires |t| <= 1 && (forall i | 0 <= i < |t| :: Place(t[i]) == place)
    ensures InPlace(s + t) && forall i | 0 <= i < |s + t| :: Place((s + t)[i]) < place + 1
  {
  }

  lemma RaisedCases(run: Run)
    ensures Failures(run) == [] ==> !run.body.Raised? && Expected(run) == Returned(BodyVerdict(run.body))
    ensures Failures(run) != [] && Failures(run)[0].exc.kind.Control? ==> Expected(run) == Raises(Failures(run)[0].exc)
    ensures Failures(run) != []
            && (Failures(run)[0].InBody? || Failures(run)[0].InLook? || Failures(run)[0].stage == Recorder) ==>
              Expected(run) == Raises(Failures(run)[0].exc)
  {
  }

  lemma ReturnedCases(run: Run)
    ensures Failures(run) != [] && Failures(run)[0].InStage? && Failures(run)[0].stage == Container ==>
              && (Failures(run)[0].exc.kind.Ordinary? ==> Expected(run) == Raises(Failures(run)[0].exc))
              && (Failures(run)[0].exc.kind.ContainerError? ==>
                    Reported(Expected(run))
                    == Returned(if run.active && Pending(run.body).Some? then Pending(run.body).value
                                else Verdict(false, false, Some("candidate container cleanup failed"))))
    ensures Failures(run) != [] && Failures(run)[0].InStage? && !Failures(run)[0].exc.kind.Control?
            && (Failures(run)[0].stage == CandidateWorkspace || Failures(run)[0].stage == PackWorkspace) ==>
              Reported(Expected(run)) == Returned(Verdict(false, false, Some("black-box workspace cleanup failed")))
  {
  }

  /** Which failure is the first: the body, then for each stage in turn the look before it and the stage itself; the two
      workspaces share one look. */
  lemma FirstFailure(run: Run)
    ensures run.body.Raised? ==> Failures(run) != [] && Failures(run)[0] == InBody(run.body.exc)
    ensures !run.body.Raised? && Container in run.excInfo ==>
              Failures(run) != [] && Failures(run)[0] == InLook(run.excInfo[Container])
    ensures Silent(run, {Container}, {}) && Fails(run, Container) ==>
              Failures(run) != [] && Failures(run)[0] == InStage(Container, run.stages[Container].value)
    ensures Silent(run, {Container}, {Container}) && Recorder in run.excInfo ==>
              Failures(run) != [] && Failures(run)[0] == InLook(run.excInfo[Recorder])
    ensures Silent(run, {Container, Recorder}, {Container}) && Fails(run, Recorder) ==>
              Failures(run) != [] && Failures(run)[0] == InStage(Recorder, run.stages[Recorder].value)
    ensures Silent(run, {Container, Recorder}, {Container, Recorder}) && CandidateWorkspace in run.excInfo ==>
              Failures(run) != [] && Failures(run)[0] == InLook(run.excInfo[CandidateWorkspace])
    ensures Silent(run, {Container, Recorder, CandidateWorkspace}, {Container, Recorder})
            && Fails(run, CandidateWorkspace) ==>
              && Failures(run) != []
              && Failures(run)[0] == InStage(CandidateWorkspace, run.stages[CandidateWorkspace].value)
    ensures Silent(run, {Container, Recorder, CandidateWorkspace}, {Container, Recorder, CandidateWorkspace})
            && Fails(run, PackWorkspace) ==>
              Failures(run) == [InStage(PackWorkspace, run.stages[PackWorkspace].value)]
  {
  }

  ghost predicate Fails(run: Run, stage: Stage) {
    stage in run.stages && run.stages[stage].Some?
  }

  /** The body returned, none of these looks failed and none of these stages. */
  ghost predicate Silent(run: Run, looks: set<Stage>, stages: set<Stage>) {
    && !run.body.Raised? && (forall x | x in looks :: x !in run.excInfo)
    && forall x | x in stages :: !Fails(run, x)
  }

  /** Every failure of a stage is the one that was raised, or noted on it. */
  lemma EveryFailureIsKept(run: Run, stage: Stage)
    requires Fails(run, stage)
    ensures var fs, e := Failures(run), run.stages[stage].value;
            && fs != []
            && (fs[0] == InStage(stage, e)
                || exists n | n in NotesFor(run, fs) :: n.stage == stage && n.failure == e && n.onto.id == fs[0].exc.id)
  {
    var fs, e := Failures(run), run.stages[stage].value;
    StageIsListed(run, stage);
    if fs[0] != InStage(stage, e) {
      if IsWorkspace(fs[0]) {
        NotedOnto(fs[0].exc, fs, InStage(stage, e));
      } else {
        assert InStage(stage, e) in fs[1..];
        NotedOnto(Surfaced(run, fs[0]), fs[1..], InStage(stage, e));
      }
    }
  }

  lemma StageIsListed(run: Run, stage: Stage)
    requires Fails(run, stage)
    ensures InStage(stage, run.stages[stage].value) in Failures(run)
  {
    var f := InStage(stage, run.stages[stage].value);
    match stage
    case Container => assert f in AfterContainer(run) && f in AfterRecorder(run);
    case Recorder => assert f in AfterRecorder(run);
    case _ =>
  }

  lemma {:induction false} NotedOnto(primary: Exc, fs: seq<Failure>, f: Failure)
    requires f in fs && f.InStage?
    ensures Note(primary, f.stage, f.exc) in NotesOnto(primary, fs)
  {
    if fs[0] != f { NotedOnto(primary, fs[1..], f); }
  }

  ghost predicate Passes(o: Outcome) {
    o.Returned? && o.verdict.passed
  }

  /** The body judged a pack that passed, with its harness inputs unchanged. */
  ghost predicate BodyPasses(s: Script) {
    && s.Packed? && s.projection.None? && s.interrupt.None?
    && s.pack.before.Same? && s.pack.judge == Exited(0) && s.pack.after.Same? && AllPassed(s.pack.report)
    && (s.harness.NoBaseline? || s.harness == Observed([]))
  }

  /** Exactly when `run_blackbox` returns a passed verdict: the judge passed every test of an unchanged pack over
      unchanged harness inputs, and nothing failed afterwards. */
  lemma PassedExactly(s: Script, ambient: Option<Exc>, excInfo: map<Stage, Exc>, stages: map<Stage, Option<Exc>>)
    requires Genuine(RunOf(s, ambient, excInfo, stages))
    ensures var run := RunOf(s, ambient, excInfo, stages);
            Passes(Reported(Expected(run))) <==> BodyPasses(s) && Failures(run) == []
  {
    var run := RunOf(s, ambient, excInfo, stages);
    if ActiveOf(s) { PendingIsNotActive(s); }
    ChainPasses(run);
    BodyVerdictPasses(s);
  }

  /** The verdict that is pending under an active lifecycle has not passed. */
  lemma PendingIsNotActive(s: Script)
    requires ActiveOf(s)
    ensures Pending(BodyOf(s)).None? || !Pending(BodyOf(s)).value.passed
  {
    PackPasses(s.pack);
  }

  lemma BodyVerdictPasses(s: Script)
    ensures BodyPasses(s) <==> !BodyOf(s).Raised? && BodyVerdict(BodyOf(s)).passed
  {
    if s.Packed? { PackPasses(s.pack); }
  }

  /** What the chain returns, when an active lifecycle carries no passed verdict. */
  lemma ChainPasses(run: Run)
    requires Genuine(run) && (run.active ==> Pending(run.body).None? || !Pending(run.body).value.passed)
    ensures Passes(Reported(Expected(run))) <==>
            Failures(run) == [] && !run.body.Raised? && BodyVerdict(run.body).passed
  {
    FailuresIncludeBody(run);
    if Failures(run) != [] { FirstIsGiven(run); }
  }

  /** Passed means that every stage succeeded and every look at the current exception did. */
  lemma PassedMeansClean(s: Script, ambient: Option<Exc>, excInfo: map<Stage, Exc>, stages: map<Stage, Option<Exc>>)
    requires Genuine(RunOf(s, ambient, excInfo, stages))
    requires Passes(Reported(Expected(RunOf(s, ambient, excInfo, stages))))
    ensures excInfo.Keys !! {Container, Recorder, CandidateWorkspace}
    ensures forall x | x in stages :: stages[x].None?
  {
    PassedExactly(s, ambient, excInfo, stages);
    NoFailures(RunOf(s, ambient, excInfo, stages));
  }

  lemma NoFailures(run: Run)
    requires Failures(run) == []
    ensures run.excInfo.Keys !! {Container, Recorder, CandidateWorkspace}
    ensures forall s | s in run.stages :: run.stages[s].None?
  {
    assert BeforeWorkspaces(run) == [] && AfterRecorder(run) == [] && AfterContainer(run) == [];
    forall s | s in run.stages ensures run.stages[s].None? {
      match s
      case Container => assert AfterLook(AfterBody(run), run, Container) == [];
      case Recorder => assert AfterLook(AfterContainer(run), run, Recorder) == [];
      case CandidateWorkspace => assert AfterStage(BeforeWorkspaces(run), run, CandidateWorkspace) == [];
      case PackWorkspace =>
    }
  }

  /** The first failure is one of the exceptions the chain was given. */
  lemma FirstIsGiven(run: Run)
    requires Failures(run) != [] && Genuine(run)
    ensures !Failures(run)[0].exc.kind.Reportable?
  {
    var c := AfterLook(AfterBody(run), run, Container);
    var d := AfterLook(AfterContainer(run), run, Recorder);
    if c != [] {
      assert Failures(run)[0] == c[0];
    } else if AfterContainer(run) != [] {
      assert Failures(run)[0] == AfterContainer(run)[0];
    } else if d != [] {
      assert Failures(run)[0] == d[0];
    } else if AfterRecorder(run) != [] {
      assert Failures(run)[0] == AfterRecorder(run)[0];
    }
  }

  // ----- bounded diagnostics

  const MAX_DIAGNOSTICS := 2000

  /** `_truncate_blackbox_cleanup_text`. */
  function Truncate(s: string, limit: nat): (r: string)
    ensures |r| <= limit
    ensures |s| <= limit ==> r == s
    ensures |s| > limit > 3 ==> r == s[..limit - 3] + "..."
  {
    if |s| <= limit then s
    else if limit <= 3 then s[..limit]
    else s[..limit - 3] + "..."
  }

  function Joined(details: seq<string>, each: nat): string {
    if details == [] then ""
    else if |details| == 1 then Truncate(details[0], each)
    else Truncate(details[0], each) + "; " + Joined(details[1..], each)
  }

  function Share(budget: nat, n: nat): (each: nat)
    requires n > 0
    ensures n * each <= budget
  {
    budget / n
  }

  function Budget(prefix: string, n: nat): nat
    requires n > 0
  {
    var used := |prefix| + 2 + 2 * (n - 1);
    if used >= MAX_DIAGNOSTICS then 0 else MAX_DIAGNOSTICS - used
  }

  /** `_bounded_blackbox_cleanup_details`. */
  function BoundedDetails(prefix: string, details: seq<string>): string {
    if details == [] then Truncate(prefix, MAX_DIAGNOSTICS)
    else prefix + ": " + Joined(details, Share(Budget(prefix, |details|), |details|))
  }

  lemma {:induction false} JoinedLength(details: seq<string>, each: nat)
    requires details != []
    ensures |Joined(details, each)| <= |details| * each + 2 * (|details| - 1)
  {
    if |details| > 1 {
      JoinedLength(details[1..], each);
      OneMore(|details| - 1, each);
    }
  }

  lemma OneMore(n: nat, each: nat)
    ensures (n + 1) * each == n * each + each
  {
  }

  /** The diagnostics stay within 2000 characters exactly as long as the prefix and the separators do. */
  lemma DetailsBounded(prefix: string, details: seq<string>)
    ensures details == [] || |prefix| + 2 * |details| <= MAX_DIAGNOSTICS ==>
            |BoundedDetails(prefix, details)| <= MAX_DIAGNOSTICS
    ensures details != [] && |prefix| + 2 * |details| > MAX_DIAGNOSTICS ==>
            |BoundedDetails(prefix, details)| > MAX_DIAGNOSTICS
  {
    if details != [] {
      var budget := Budget(prefix, |details|);
      JoinedLength(details, Share(budget, |details|));
      if budget == 0 { JoinedZero(details); }
    }
  }

  lemma {:induction false} JoinedZero(details: seq<string>)
    requires details != []
    ensures |Joined(details, 0)| == 2 * (|details| - 1)
  {
    if |details| > 1 { JoinedZero(details[1..]); }
  }
}
