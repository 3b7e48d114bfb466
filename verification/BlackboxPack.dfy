/** One accepted black-box pack: `execute_blackbox_pack`, `interpret_blackbox_pack` and the lifecycle flags they share
    with the cleanup chain.  What the snapshot checks, the judge and the report do is input. */
module BlackboxPack {
  import opened Wrappers

  datatype Verdict = Verdict(passed: bool, ran: bool, error: Option<string>)

  datatype Kind =
    | ContainerError          // CandidateContainerCleanupError
    | Ordinary                // any other Exception
    | Control                 // a BaseException that is not an Exception
    | Reportable(result: Verdict)   // _BlackboxCleanupFailure

  datatype Exc = Exc(id: int, kind: Kind)

  function Failing(error: string): Verdict {
    Verdict(false, false, Some(error))
  }

  /** A look at the pack snapshot: unchanged, changed (a PackManifestError), or another exception. */
  datatype Check = Same | Changed | CheckRaises(exc: Exc)

  /** Building the command and running the judge: an exit code, one of the exceptions that become a verdict, or another
      one. */
  datatype Judge = Exited(code: int) | TimedOut | OutputLimit | CleanupFailed | ManifestProblem | JudgeRaises(exc: Exc)

  datatype JUnit = JUnit(passed: int, total: int, failures: int, errors: int)

  datatype Report = NoReport | Parsed(junit: JUnit) | ReportRaises(exc: Exc)

  datatype PackRun = PackRun(before: Check, judge: Judge, after: Check, report: Report)

  datatype Execution = Terminal(verdict: Verdict) | Completed(code: int) | Escapes(exc: Exc)

  class Lifecycle {
    var active: bool
    var started: bool

    constructor ()
      ensures !active && !started
    {
      active, started := false, false;
    }

    /** `execute_blackbox_pack`.  The flag stays set only when the judge did not return, and then no verdict has
        passed. */
    method Execute(p: PackRun) returns (e: Execution)
      requires !active
      modifies this
      ensures active <==> p.before.Same? && !p.judge.Exited?
      ensures started <==> old(started) || p.before.Same?
      ensures e.Completed? <==> p.before.Same? && p.judge.Exited? && p.after.Same?
      ensures e.Completed? ==> e.code == p.judge.code
      ensures e.Terminal? ==> !e.verdict.passed && !e.verdict.ran
      ensures p.before.CheckRaises? ==> e == Escapes(p.before.exc)
      ensures p.before.Same? && p.judge.JudgeRaises? ==> e == Escapes(p.judge.exc)
      ensures p.before.Same? && p.judge.Exited? && p.after.CheckRaises? ==> e == Escapes(p.after.exc)
      ensures e.Terminal? <==> || p.before.Changed?
                               || (p.before.Same? && p.judge.Exited? && p.after.Changed?)
                               || (p.before.Same? && !p.judge.Exited? && !p.judge.JudgeRaises?)
      ensures e == Executed(p)
    {
      if p.before.Changed? { return Terminal(Failing("verifier pack snapshot changed")); }
      if p.before.CheckRaises? { return Escapes(p.before.exc); }
      active, started := true, true;
      match p.judge {
        case TimedOut => return Terminal(Failing("timeout"));
        case OutputLimit => return Terminal(Failing("black-box output limit"));
        case CleanupFailed => return Terminal(Failing("judge process cleanup failed"));
        case ManifestProblem => return Terminal(Failing("verifier pack snapshot changed"));
        case JudgeRaises(x) => return Escapes(x);
        case Exited(_) =>
      }
      active := false;
      if p.after.Changed? { return Terminal(Failing("verifier pack changed while executing")); }
      if p.after.CheckRaises? { return Escapes(p.after.exc); }
      return Completed(p.judge.code);
    }
  }

  /** The same, as a function. */
  function Executed(p: PackRun): Execution {
    match p.before
    case Changed => Terminal(Failing("verifier pack snapshot changed"))
    case CheckRaises(x) => Escapes(x)
    case Same =>
      match p.judge
      case TimedOut => Terminal(Failing("timeout"))
      case OutputLimit => Terminal(Failing("black-box output limit"))
      case CleanupFailed => Terminal(Failing("judge process cleanup failed"))
      case ManifestProblem => Terminal(Failing("verifier pack snapshot changed"))
      case JudgeRaises(x) => Escapes(x)
      case Exited(code) =>
        match p.after
        case Changed => Terminal(Failing("verifier pack changed while executing"))
        case CheckRaises(x) => Escapes(x)
        case Same => Completed(code)
  }

  predicate StaysActive(p: PackRun) {
    p.before.Same? && !p.judge.Exited?
  }

  /** Every test of a report with at least one test passed. */
  predicate AllPassed(r: Report) {
    r.Parsed? && r.junit.total > 0 && r.junit.failures == 0 && r.junit.errors == 0 && r.junit.passed == r.junit.total
  }

  /** `interpret_blackbox_pack`: passed exactly when the judge exited with zero and its report says that every test
      passed. */
  function Interpret(code: int, r: Report): (v: Verdict)
    requires !r.ReportRaises?
    ensures v.passed <==> code == 0 && AllPassed(r)
    ensures v.passed ==> v.ran && v.error.None?
    ensures v.ran <==> r.Parsed? && r.junit.total > 0 && ((code == 0 && AllPassed(r)) || (code == 1 && !AllPassed(r)))
  {
    if r.NoReport? || r.junit.total <= 0 then Failing("black-box pack produced no judge-owned test results")
    else
      var all := r.junit.failures == 0 && r.junit.errors == 0 && r.junit.passed == r.junit.total;
      if (code == 0 && !all) || (code == 1 && all) then Failing("black-box JUnit/exit mismatch")
      else if code == 0 then Verdict(true, true, None)
      else if code == 1 then Verdict(false, true, None)
      else Failing("black-box pack did not run cleanly")
  }

  /** The verdict of a pack that was judged, if the body got that far. */
  function PackVerdict(p: PackRun): Option<Verdict> {
    match Executed(p)
    case Terminal(v) => Some(v)
    case Completed(code) => if p.report.ReportRaises? then None else Some(Interpret(code, p.report))
    case Escapes(_) => None
  }

  /** An active lifecycle never carries a passed verdict; a passed one needs an unchanged snapshot, exit code zero and a
      report in which every test passed. */
  lemma PackPasses(p: PackRun)
    ensures PackVerdict(p).Some? && PackVerdict(p).value.passed <==>
            p.before.Same? && p.judge == Exited(0) && p.after.Same? && AllPassed(p.report)
    ensures StaysActive(p) ==> PackVerdict(p).None? || !PackVerdict(p).value.passed
  {
  }
}
