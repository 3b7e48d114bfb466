/** What the metrics mean: every rate as a share of rows that can be read off the rows, and the Wilson bounds as the
    proportions that a score test would just accept. */
module MetricsMeaning {
  import opened Wrappers
  import opened Metrics

  // ----- rates as shares of rows

  /** How many rows satisfy a condition. */
  function Where(rows: seq<Row>, p: Row -> bool): nat {
    if rows == [] then 0 else Where(rows[..|rows| - 1], p) + if p(rows[|rows| - 1]) then 1 else 0
  }

  predicate Abstained(row: Row) { row.verdict == Error }
  predicate Decided(row: Row) { row.verdict != Error }
  predicate Blocking(row: Row) { row.verdict == Rejected || row.verdict == Fail || row.verdict == Tampered }

  predicate Harmful(row: Row) { row.truth == Block }
  predicate HarmfulDecided(row: Row) { row.truth == Block && row.verdict != Error }
  predicate HarmlessDecided(row: Row) { row.truth == Accept && row.verdict != Error }

  predicate Missed(row: Row) { row.truth == Block && row.verdict == Pass }
  predicate FalseAlarm(row: Row) { row.truth == Accept && Blocking(row) }
  predicate Right(row: Row) { (row.truth == Block && Blocking(row)) || (row.truth == Accept && row.verdict == Pass) }
  predicate NotAdmitted(row: Row) { row.truth == Block && row.verdict != Pass }

  lemma {:induction false} WhereOne(rows: seq<Row>, p: Row -> bool, a: Cell)
    requires AllValid(rows) && forall row | ValidRow(row) :: p(row) <==> Place(row) == a
    ensures Where(rows, p) == Number(a, rows)
  {
    if rows != [] { WhereOne(rows[..|rows| - 1], p, a); }
  }

  lemma {:induction false} WhereTwo(rows: seq<Row>, p: Row -> bool, a: Cell, b: Cell)
    requires AllValid(rows) && a != b && forall row | ValidRow(row) :: p(row) <==> Place(row) == a || Place(row) == b
    ensures Where(rows, p) == Number(a, rows) + Number(b, rows)
  {
    if rows != [] { WhereTwo(rows[..|rows| - 1], p, a, b); }
  }

  lemma {:induction false} WhereNot(rows: seq<Row>, p: Row -> bool, q: Row -> bool)
    requires AllValid(rows) && forall row | ValidRow(row) :: q(row) <==> !p(row)
    ensures Where(rows, p) + Where(rows, q) == |rows|
  {
    if rows != [] { WhereNot(rows[..|rows| - 1], p, q); }
  }

  lemma {:induction false} WhereEither(rows: seq<Row>, p: Row -> bool, q: Row -> bool, a: Cell)
    requires AllValid(rows)
    requires forall row | ValidRow(row) :: (p(row) <==> q(row) || Place(row) == a) && !(q(row) && Place(row) == a)
    ensures Where(rows, p) == Where(rows, q) + Number(a, rows)
  {
    if rows != [] { WhereEither(rows[..|rows| - 1], p, q, a); }
  }

  /** The cells that err, and those that do not decide. */
  lemma Errors(rows: seq<Row>)
    requires AllValid(rows)
    ensures Where(rows, Missed) == Tally(rows).fn && Where(rows, FalseAlarm) == Tally(rows).fp
    ensures Where(rows, Right) == Tally(rows).tp + Tally(rows).tn
    ensures Where(rows, Abstained) == Tally(rows).abstainAccept + Tally(rows).abstainBlock
    ensures Where(rows, Decided) == |rows| - Where(rows, Abstained)
  {
    WhereOne(rows, Missed, FN);
    WhereOne(rows, FalseAlarm, FP);
    WhereTwo(rows, Right, TP, TN);
    WhereTwo(rows, Abstained, AbstainAccept, AbstainBlock);
    WhereNot(rows, Abstained, Decided);
  }

  /** What the rates are taken of. */
  lemma Totals(rows: seq<Row>)
    requires AllValid(rows)
    ensures Where(rows, HarmfulDecided) == Tally(rows).tp + Tally(rows).fn
    ensures Where(rows, HarmlessDecided) == Tally(rows).tn + Tally(rows).fp
    ensures Where(rows, Harmful) == Tally(rows).tp + Tally(rows).fn + Tally(rows).abstainBlock
    ensures Where(rows, NotAdmitted) == Tally(rows).tp + Tally(rows).abstainBlock
  {
    WhereTwo(rows, HarmfulDecided, TP, FN);
    WhereTwo(rows, HarmlessDecided, TN, FP);
    WhereTwo(rows, NotAdmitted, TP, AbstainBlock);
    WhereEither(rows, Harmful, HarmfulDecided, AbstainBlock);
  }

  lemma ReportsRate(k: nat, n: nat, interval: Interval)
    ensures Reports(RateOf(k, n, interval), k, n, interval)
  {
    if n > 0 { Times(k as real, n as real); }
  }

  lemma Times(x: real, y: real)
    requires y > 0.0
    ensures x / y * y == x
  {
  }

  /** Every reported number is a share of rows, with the interval of the same two counts. */
  lemma RatesMean(rows: seq<Row>, interval: Interval)
    requires AllValid(rows) && rows != []
    ensures FinishMetrics(Tally(rows), interval).Ok?
    ensures var r := FinishMetrics(Tally(rows), interval).value;
            && r.total == |rows| && r.classified == Where(rows, Decided) && r.abstain == Where(rows, Abstained)
            && r.coverage == Ratio(Where(rows, Decided), |rows|)
            && r.accuracy == RateOf(Where(rows, Right), Where(rows, Decided), interval)
            && r.falseNegativeRate == RateOf(Where(rows, Missed), Where(rows, HarmfulDecided), interval)
            && r.falsePositiveRate == RateOf(Where(rows, FalseAlarm), Where(rows, HarmlessDecided), interval)
            && r.operationalBlockRate == RateOf(Where(rows, NotAdmitted), Where(rows, Harmful), interval)
  {
    TotalIsRowCount(rows);
    Errors(rows);
    Totals(rows);
    Reported(Tally(rows), interval, |rows|, Where(rows, Decided), Where(rows, Abstained), Where(rows, Right));
    ReportedRates(Tally(rows), interval, Where(rows, Missed), Where(rows, HarmfulDecided), Where(rows, FalseAlarm),
                  Where(rows, HarmlessDecided), Where(rows, NotAdmitted), Where(rows, Harmful));
  }

  lemma Reported(c: Counts, interval: Interval, total: nat, decided: nat, abstained: nat, right: nat)
    requires c.Total() == total > 0 && c.Classified() == decided && c.abstainAccept + c.abstainBlock == abstained
    requires c.tp + c.tn == right
    ensures FinishMetrics(c, interval).Ok?
    ensures var r := FinishMetrics(c, interval).value;
            && r.total == total && r.classified == decided && r.abstain == abstained
            && r.coverage == Ratio(decided, total) && r.accuracy == RateOf(right, decided, interval)
  {
  }

  lemma ReportedRates(c: Counts, interval: Interval, missed: nat, harmful: nat, alarms: nat, harmless: nat, kept: nat,
                      all: nat)
    requires c.Total() > 0 && c.fn == missed && c.tp + c.fn == harmful && c.fp == alarms && c.tn + c.fp == harmless
    requires c.tp + c.abstainBlock == kept && c.tp + c.fn + c.abstainBlock == all
    ensures FinishMetrics(c, interval).Ok?
    ensures var r := FinishMetrics(c, interval).value;
            && r.falseNegativeRate == RateOf(missed, harmful, interval)
            && r.falsePositiveRate == RateOf(alarms, harmless, interval)
            && r.operationalBlockRate == RateOf(kept, all, interval)
  {
  }

  /** The share k of n, with its interval; nothing out of nothing is reported as zero. */
  ghost predicate Reports(r: Rate, k: nat, n: nat, interval: Interval) {
    && (n == 0 ==> r.value == 0.0) && (n > 0 ==> r.value * n as real == k as real)
    && r.low == interval(k, n).0 && r.high == interval(k, n).1
  }

  // ----- the score equation

  /** The square completed: c - s and c + s are the two solutions. */
  lemma Completed(y: real, c: real, s: real, q: real)
    requires y == c - s || y == c + s
    requires s * s == c * c - q
    ensures y * y - 2.0 * c * y + q == 0.0
  {
    assert (y - c) * (y - c) == s * s;
    assert (y - c) * (y - c) == y * y - 2.0 * c * y + c * c;
  }

  lemma Expand(x: real, p: real, a: real, d: real, c: real)
    requires d == 1.0 + a && c == p + a / 2.0
    ensures (x * d) * (x * d) - 2.0 * c * (x * d) + p * p * d == d * ((x - p) * (x - p) - a * (x * (1.0 - x)))
  {
    var w := x * x;
    assert (x * d) * (x * d) == d * (w * d);
    assert 2.0 * c * (x * d) == d * (2.0 * c * x);
    assert w * d == w + a * w;
    assert 2.0 * c * x == 2.0 * (p * x) + a * x;
    assert (x - p) * (x - p) == w - 2.0 * (p * x) + p * p;
    assert a * (x * (1.0 - x)) == a * x - a * w;
    Distribute(d, w + a * w, 2.0 * (p * x) + a * x, p * p);
  }

  lemma Distribute(d: real, u: real, v: real, w: real)
    ensures d * u - d * v + w * d == d * (u - v + w)
  {
  }

  lemma NoFactor(d: real, z: real)
    requires d > 0.0 && d * z == 0.0
    ensures z == 0.0
  {
  }

  lemma SolvesScore(p: real, a: real, s: real, x: real)
    requires a >= 0.0 && s * s == a * (p * (1.0 - p)) + a * a / 4.0
    requires x == Centre(p, a) - Margin(s, a) || x == Centre(p, a) + Margin(s, a)
    ensures (x - p) * (x - p) == a * (x * (1.0 - x))
  {
    var d, c := 1.0 + a, p + a / 2.0;
    Fractions(c, s, d);
    assert x * d == c - s || x * d == c + s;
    assert c * c == p * p + a * p + a * a / 4.0;
    assert a * (p * (1.0 - p)) == a * p - a * (p * p);
    assert p * p * d == p * p + a * (p * p);
    Completed(x * d, c, s, p * p * d);
    Expand(x, p, a, d, c);
    NoFactor(d, (x - p) * (x - p) - a * (x * (1.0 - x)));
  }

  /** At x the distance from p is z standard errors of x, over n observations. */
  ghost predicate JustAccepted(x: real, p: real, z: real, n: real) {
    n * ((x - p) * (x - p)) == z * z * (x * (1.0 - x))
  }

  lemma FromScore(x: real, p: real, a: real, n: real)
    requires n > 0.0 && a == Weight(n) && (x - p) * (x - p) == a * (x * (1.0 - x))
    ensures JustAccepted(x, p, Z, n)
  {
    var y := x * (1.0 - x);
    Times(Z * Z, n);
    assert n * (a * y) == (a * n) * y;
  }

  /** The bounds of `_wilson_interval` are the two proportions whose distance from the observed one is exactly z of
      their own standard errors, at the 95% quantile. */
  lemma WilsonIsScoreInterval(k: int, n: int, sqrt: real -> real)
    requires 0 <= k <= n && n > 0 && IsSquareRoot(sqrt)
    ensures JustAccepted(Wilson(k, n, sqrt).0, k as real / n as real, Z, n as real)
    ensures JustAccepted(Wilson(k, n, sqrt).1, k as real / n as real, Z, n as real)
    ensures Z == 1.959963984540054
  {
    WilsonContains(k, n, sqrt);
    Proportion(k, n);
    BothSolve(k as real / n as real, n as real, sqrt, Wilson(k, n, sqrt).0, Wilson(k, n, sqrt).1);
  }

  lemma BothSolve(p: real, n: real, sqrt: real -> real, low: real, high: real)
    requires n > 0.0 && 0.0 <= p <= 1.0 && IsSquareRoot(sqrt)
    requires low == Centre(p, Weight(n)) - Margin(Spread(p, n, sqrt), Weight(n))
    requires high == Centre(p, Weight(n)) + Margin(Spread(p, n, sqrt), Weight(n))
    ensures JustAccepted(low, p, Z, n) && JustAccepted(high, p, Z, n)
  {
    var a, s := Weight(n), Spread(p, n, sqrt);
    SpreadSquared(p, n, sqrt);
    SolvesScore(p, a, s, low);
    SolvesScore(p, a, s, high);
    FromScore(low, p, a, n);
    FromScore(high, p, a, n);
  }
}
