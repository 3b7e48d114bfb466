/** Coverage of changed lines: `_classify_touched_lines` and the totals of `collect_diff_coverage`. */
module DiffCoverage {
  import opened Wrappers

  /** What the coverage report says about one file. */
  datatype Entry = Entry(executed: set<int>, excluded: set<int>)

  type Report = map<string, Entry>

  const NOTHING := Entry({}, {})

  ghost predicate Increasing(s: seq<int>) {
    forall i, j | 0 <= i < j < |s| :: s[i] < s[j]
  }

  ghost function Lines(s: seq<int>): set<int> {
    set x | x in s
  }

  /** Counted as executed: reported as executed and not excluded by a pragma. */
  predicate Counts(e: Entry, line: int) {
    line in e.executed && line !in e.excluded
  }

  function ExecutedIn(lines: seq<int>, e: Entry): seq<int> {
    if lines == [] then [] else
      ExecutedIn(lines[..|lines| - 1], e) + (if Counts(e, lines[|lines| - 1]) then [lines[|lines| - 1]] else [])
  }

  function MissedIn(lines: seq<int>, e: Entry): seq<int> {
    if lines == [] then [] else
      MissedIn(lines[..|lines| - 1], e) + (if Counts(e, lines[|lines| - 1]) then [] else [lines[|lines| - 1]])
  }

  /** The classification loop over the touched code lines of a file, in order. */
  method Classify(lines: seq<int>, e: Entry) returns (executed: seq<int>, missed: seq<int>, exclusionSeen: bool)
    ensures executed == ExecutedIn(lines, e) && missed == MissedIn(lines, e)
    ensures forall x :: x in executed <==> x in lines && x in e.executed && x !in e.excluded
    ensures forall x :: x in missed <==> x in lines && (x in e.excluded || x !in e.executed)
    ensures exclusionSeen <==> exists i :: 0 <= i < |lines| && lines[i] in e.excluded
  {
    executed, missed, exclusionSeen := [], [], false;
    var i := 0;
    while i < |lines|
      invariant 0 <= i <= |lines|
      invariant executed == ExecutedIn(lines[..i], e) && missed == MissedIn(lines[..i], e)
      invariant forall x :: x in executed <==> x in lines[..i] && x in e.executed && x !in e.excluded
      invariant forall x :: x in missed <==> x in lines[..i] && (x in e.excluded || x !in e.executed)
      invariant exclusionSeen <==> exists k :: 0 <= k < i && lines[k] in e.excluded
    {
      assert lines[..i + 1][..i] == lines[..i] && lines[..i + 1] == lines[..i] + [lines[i]];
      var line := lines[i];
      if line in e.excluded {
        missed := missed + [line];
        exclusionSeen := true;
      } else if line in e.executed {
        executed := executed + [line];
      } else {
        missed := missed + [line];
      }
      i := i + 1;
    }
    assert lines[..i] == lines;
  }

  /** For every report, executed and missed partition the touched code lines, both in order, and executed is
      exactly the part that is reported and not excluded. */
  lemma {:induction false} Partition(lines: seq<int>, e: Entry)
    requires Increasing(lines)
    ensures Increasing(ExecutedIn(lines, e)) && Increasing(MissedIn(lines, e))
    ensures |ExecutedIn(lines, e)| + |MissedIn(lines, e)| == |lines|
    ensures forall x :: x in ExecutedIn(lines, e) <==> x in lines && Counts(e, x)
    ensures forall x :: x in MissedIn(lines, e) <==> x in lines && !Counts(e, x)
  {
    if lines != [] {
      var front, last := lines[..|lines| - 1], lines[|lines| - 1];
      Partition(front, e);
      assert lines == front + [last];
      assert forall x | x in front :: x < last;
      var executed, missed := ExecutedIn(front, e), MissedIn(front, e);
      IncreasingSnoc(executed, last);
      IncreasingSnoc(missed, last);
      assert executed + [] == executed && missed + [] == missed;
    }
  }

  lemma IncreasingSnoc(s: seq<int>, x: int)
    requires Increasing(s) && forall y | y in s :: y < x
    ensures Increasing(s + [x])
  {
    var t := s + [x];
    forall i, j | 0 <= i < j < |t| ensures t[i] < t[j] { assert t[i] == s[i] && s[i] in s; }
  }

  /** `touched & code_lines`; a file without a source counts every touched line. */
  function TouchedCode(touched: set<int>, code: Option<set<int>>): set<int> {
    if code.Some? then touched * code.value else touched
  }

  // ----- totals

  /** One changed file, with its touched code lines in order. */
  datatype ChangedFile = ChangedFile(path: string, touched: set<int>, code: Option<set<int>>, lines: seq<int>)

  ghost predicate WellSorted(f: ChangedFile) {
    Increasing(f.lines) && Lines(f.lines) == TouchedCode(f.touched, f.code)
  }

  /** The lines that count are touched code lines, every one of them, and each once. */
  lemma {:induction false} LineCount(lines: seq<int>)
    requires Increasing(lines)
    ensures |Lines(lines)| == |lines|
  {
    if lines != [] {
      var front, last := lines[..|lines| - 1], lines[|lines| - 1];
      LineCount(front);
      assert lines == front + [last];
      LastIsNew(lines);
      LinesSnoc(front, last);
    }
  }

  lemma LastIsNew(lines: seq<int>)
    requires Increasing(lines) && lines != []
    ensures lines[|lines| - 1] !in Lines(lines[..|lines| - 1])
  {
  }

  lemma LinesSnoc(front: seq<int>, last: int)
    ensures Lines(front + [last]) == Lines(front) + {last}
  {
  }

  function EntryFor(report: Report, path: string): Entry {
    if path in report then report[path] else NOTHING
  }

  function ExecutedTotal(files: seq<ChangedFile>, report: Report): nat {
    if files == [] then 0
    else ExecutedTotal(files[..|files| - 1], report)
         + |ExecutedIn(files[|files| - 1].lines, EntryFor(report, files[|files| - 1].path))|
  }

  /** The number of touched code lines, whatever any report says. */
  ghost function Denominator(files: seq<ChangedFile>): nat {
    if files == [] then 0
    else Denominator(files[..|files| - 1]) + |TouchedCode(files[|files| - 1].touched, files[|files| - 1].code)|
  }

  lemma {:induction false} TouchedTotalIsDenominator(files: seq<ChangedFile>)
    requires forall i | 0 <= i < |files| :: WellSorted(files[i])
    ensures TouchedTotal(files) == Denominator(files)
  {
    if files != [] {
      TouchedTotalIsDenominator(files[..|files| - 1]);
      assert WellSorted(files[|files| - 1]);
      LineCount(files[|files| - 1].lines);
    }
  }

  /** The denominator as the loop sees it. */
  function TouchedTotal(files: seq<ChangedFile>): nat {
    if files == [] then 0 else TouchedTotal(files[..|files| - 1]) + |files[|files| - 1].lines|
  }

  lemma {:induction false} CountsAddUp(lines: seq<int>, e: Entry)
    ensures |ExecutedIn(lines, e)| + |MissedIn(lines, e)| == |lines|
  {
    if lines != [] { CountsAddUp(lines[..|lines| - 1], e); }
  }

  /** The totals loop: the executed total is the per-file sum, and the total does not depend on the
      report at all. */
  method Totals(files: seq<ChangedFile>, report: Report) returns (executedTotal: nat, measurableTotal: nat)
    requires forall i | 0 <= i < |files| :: WellSorted(files[i])
    ensures executedTotal == ExecutedTotal(files, report)
    ensures measurableTotal == Denominator(files)
    ensures executedTotal <= measurableTotal
  {
    executedTotal, measurableTotal := 0, 0;
    var i := 0;
    while i < |files|
      invariant 0 <= i <= |files|
      invariant executedTotal == ExecutedTotal(files[..i], report)
      invariant measurableTotal == TouchedTotal(files[..i])
      invariant executedTotal <= measurableTotal
    {
      assert files[..i + 1][..i] == files[..i];
      var executed, missed, seen := Classify(files[i].lines, EntryFor(report, files[i].path));
      CountsAddUp(files[i].lines, EntryFor(report, files[i].path));
      executedTotal := executedTotal + |executed|;
      measurableTotal := measurableTotal + |executed| + |missed|;
      i := i + 1;
    }
    assert files[..i] == files;
    TouchedTotalIsDenominator(files);
  }

  /** The touched code lines of file i that the report lists as executed and does not exclude. */
  ghost function Covered(f: ChangedFile, report: Report): set<int> {
    set x | x in f.touched && (f.code.None? || x in f.code.value) && f.path in report
            && x in report[f.path].executed && x !in report[f.path].excluded
  }

  ghost function CoveredIn(files: seq<ChangedFile>, report: Report): set<(int, int)> {
    set i, x | 0 <= i < |files| && x in Covered(files[i], report) :: (i, x)
  }

  /** The executed total counts exactly those lines, file by file. */
  lemma {:induction false} ExecutedTotalIsCovered(files: seq<ChangedFile>, report: Report)
    requires forall i | 0 <= i < |files| :: WellSorted(files[i])
    ensures ExecutedTotal(files, report) == |CoveredIn(files, report)|
  {
    if files != [] {
      var n := |files| - 1;
      ExecutedTotalIsCovered(files[..n], report);
      FileCovered(files[n], report);
      CoveredSnoc(files, report, ExecutedIn(files[n].lines, EntryFor(report, files[n].path)));
    } else {
      assert CoveredIn(files, report) == {};
    }
  }

  lemma FileCovered(f: ChangedFile, report: Report)
    requires WellSorted(f)
    ensures var executed := ExecutedIn(f.lines, EntryFor(report, f.path));
            Increasing(executed) && Lines(executed) == Covered(f, report)
  {
    var executed := ExecutedIn(f.lines, EntryFor(report, f.path));
    Partition(f.lines, EntryFor(report, f.path));
    forall x ensures x in Lines(executed) <==> x in Covered(f, report) {
      assert x in f.lines <==> x in Lines(f.lines);
    }
  }

  lemma CoveredSnoc(files: seq<ChangedFile>, report: Report, executed: seq<int>)
    requires files != [] && Increasing(executed) && Lines(executed) == Covered(files[|files| - 1], report)
    ensures |CoveredIn(files, report)| == |CoveredIn(files[..|files| - 1], report)| + |executed|
  {
    var n := |files| - 1;
    var last := Pairs(n, Lines(executed));
    PairCount(n, executed);
    assert CoveredIn(files, report) == CoveredIn(files[..n], report) + last;
    assert CoveredIn(files[..n], report) !! last;
  }

  ghost function Pairs(n: int, s: set<int>): set<(int, int)> {
    set x | x in s :: (n, x)
  }

  lemma {:induction false} PairCount(n: int, lines: seq<int>)
    requires Increasing(lines)
    ensures |Pairs(n, Lines(lines))| == |lines|
  {
    if lines == [] {
      assert Pairs(n, Lines(lines)) == {};
    } else {
      var front, last := lines[..|lines| - 1], lines[|lines| - 1];
      PairCount(n, front);
      assert lines == front + [last];
      LastIsNew(lines);
      LinesSnoc(front, last);
      assert Pairs(n, Lines(lines)) == Pairs(n, Lines(front)) + {(n, last)};
    }
  }

  /** A weaker report: files left out, lines no longer executed, or more lines excluded. */
  ghost predicate Weaker(a: Report, b: Report) {
    forall p :: EntryFor(a, p).executed <= EntryFor(b, p).executed &&
                (EntryFor(b, p).excluded * EntryFor(a, p).executed <= EntryFor(a, p).excluded)
  }

  lemma {:induction false} FewerCount(lines: seq<int>, a: Entry, b: Entry)
    requires a.executed <= b.executed && b.excluded * a.executed <= a.excluded
    ensures |ExecutedIn(lines, a)| <= |ExecutedIn(lines, b)|
  {
    if lines != [] { FewerCount(lines[..|lines| - 1], a, b); }
  }

  /** Shrinking the report or adding exclusions never raises the executed total. */
  lemma {:induction false} ExecutedMonotone(files: seq<ChangedFile>, a: Report, b: Report)
    requires Weaker(a, b)
    ensures ExecutedTotal(files, a) <= ExecutedTotal(files, b)
  {
    if files != [] {
      var f := files[|files| - 1];
      ExecutedMonotone(files[..|files| - 1], a, b);
      FewerCount(f.lines, EntryFor(a, f.path), EntryFor(b, f.path));
    }
  }

  /** Leaving files out of the report, or excluding more lines in one, gains nothing. */
  lemma TamperingGainsNothing(files: seq<ChangedFile>, report: Report, paths: set<string>, path: string, more: set<int>)
    requires path in report
    ensures ExecutedTotal(files, report - paths) <= ExecutedTotal(files, report)
    ensures ExecutedTotal(files, report[path := Entry(report[path].executed, report[path].excluded + more)])
            <= ExecutedTotal(files, report)
  {
    ExecutedMonotone(files, report - paths, report);
    ExecutedMonotone(files, report[path := Entry(report[path].executed, report[path].excluded + more)], report);
  }

  /** Rounding to a whole number, halves to even. */
  function RoundHalfEven(x: real): int {
    var n := x.Floor;
    var rest := x - n as real;
    if rest < 0.5 then n else if rest > 0.5 then n + 1 else if n % 2 == 0 then n else n + 1
  }

  /** `round(100.0 * executed / total, 1)`, in exact arithmetic; 100 when there is nothing to measure. */
  function Percent(executed: nat, total: nat): real {
    if total == 0 then 100.0 else RoundHalfEven(1000.0 * executed as real / total as real) as real / 10.0
  }

  lemma RoundMonotone(x: real, y: real)
    requires x <= y
    ensures RoundHalfEven(x) <= RoundHalfEven(y)
  {
    if x.Floor == y.Floor {
    } else {
      assert x.Floor + 1 <= y.Floor;
    }
  }

  lemma RoundIsClose(x: real)
    ensures -0.5 <= RoundHalfEven(x) as real - x <= 0.5
  {
  }

  /** The reported percentage is a number of tenths, and within half a tenth of the exact share. */
  lemma PercentIsClose(executed: nat, total: nat)
    requires total > 0
    ensures var exact := 100.0 * executed as real / total as real;
            -0.05 <= Percent(executed, total) - exact <= 0.05
    ensures (10.0 * Percent(executed, total)).Floor as real == 10.0 * Percent(executed, total)
  {
    var x, y := 1000.0 * executed as real / total as real, 100.0 * executed as real / total as real;
    TenTimes(100.0 * executed as real, total as real);
    RoundIsClose(x);
    assert Percent(executed, total) == RoundHalfEven(x) as real / 10.0;
  }

  lemma TenTimes(x: real, t: real)
    requires t > 0.0
    ensures 10.0 * x / t == 10.0 * (x / t)
  {
  }

  /** Tampering with the report never raises the reported percentage. */
  lemma PercentFalls(files: seq<ChangedFile>, a: Report, b: Report)
    requires Weaker(a, b)
    ensures Percent(ExecutedTotal(files, a), TouchedTotal(files))
            <= Percent(ExecutedTotal(files, b), TouchedTotal(files))
  {
    ExecutedMonotone(files, a, b);
    var t, x, y := TouchedTotal(files), ExecutedTotal(files, a), ExecutedTotal(files, b);
    if t > 0 {
      DivisionMonotone(1000.0 * x as real, 1000.0 * y as real, t as real);
      RoundMonotone(1000.0 * x as real / t as real, 1000.0 * y as real / t as real);
    }
  }

  /** The percentage lies between 0 and 100, and is 100 when every touched line counts as executed. */
  lemma PercentInRange(executed: nat, total: nat)
    requires executed <= total
    ensures 0.0 <= Percent(executed, total) <= 100.0 && Percent(total, total) == 100.0
  {
    if total > 0 {
      DivisionMonotone(0.0, 1000.0 * executed as real, total as real);
      DivisionMonotone(1000.0 * executed as real, 1000.0 * total as real, total as real);
      DivisionCancels(1000.0, total as real);
      RoundMonotone(0.0, 1000.0 * executed as real / total as real);
      RoundMonotone(1000.0 * executed as real / total as real, 1000.0);
    }
  }

  lemma DivisionCancels(x: real, t: real)
    requires t > 0.0
    ensures x * t / t == x
  {
  }

  lemma DivisionMonotone(x: real, y: real, t: real)
    requires x <= y && t > 0.0
    ensures x / t <= y / t
  {
    assert y / t - x / t == (y - x) / t;
    assert (y - x) / t >= 0.0;
  }
}
