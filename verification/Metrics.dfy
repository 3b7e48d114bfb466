/** Benchmark metrics: the Wilson interval, the confusion counts of `evaluate_rows`, baseline predictions and the
    evasion metrics.  Floating point is modelled by exact reals; the square root is a parameter. */
module Metrics {
  import opened Wrappers

  // ----- the Wilson interval

  const Z := 1.959963984540054

  ghost predicate IsSquareRoot(sqrt: real -> real) {
    forall x: real | x >= 0.0 :: sqrt(x) >= 0.0 && sqrt(x) * sqrt(x) == x
  }

  function Larger(a: real, b: real): real { if a < b then b else a }
  function Smaller(a: real, b: real): real { if a < b then a else b }

  /** Centre and margin, before the clamps. */
  function Centre(p: real, a: real): real
    requires a >= 0.0
  {
    (p + a / 2.0) / (1.0 + a)
  }

  function Margin(s: real, a: real): real
    requires a >= 0.0
  {
    s / (1.0 + a)
  }

  function Spread(p: real, n: real, sqrt: real -> real): real
    requires n > 0.0
  {
    Z * sqrt(p * (1.0 - p) / n + Z * Z / (4.0 * n * n))
  }

  /** z² / n */
  function Weight(n: real): (a: real)
    requires n > 0.0
    ensures a >= 0.0
  {
    Z * Z / n
  }

  /** `_wilson_interval`. */
  function Wilson(successes: int, observations: int, sqrt: real -> real): (real, real) {
    if observations <= 0 then (0.0, 0.0)
    else
      var n := observations as real;
      var p := successes as real / n;
      var a := Weight(n);
      var s := Spread(p, n, sqrt);
      (Larger(0.0, Centre(p, a) - Margin(s, a)), Smaller(1.0, Centre(p, a) + Margin(s, a)))
  }

  lemma ProductSign(x: real, y: real)
    ensures x >= 0.0 && y >= 0.0 ==> x * y >= 0.0
    ensures x > 0.0 && y > 0.0 ==> x * y > 0.0
  {
  }

  lemma PositiveProduct(x: real, y: real)
    requires x > 0.0 && y > 0.0
    ensures x * y > 0.0
  {
  }

  lemma DifferenceOfSquares(x: real, y: real, u: real, v: real)
    requires u == x - y && v == x + y
    ensures u * v == x * x - y * y
  {
  }

  lemma SquareOrder(x: real, y: real)
    requires y >= 0.0 && x * x <= y * y
    ensures x <= y
  {
    var u, v := x - y, x + y;
    DifferenceOfSquares(x, y, u, v);
    if x > y { PositiveProduct(u, v); }
  }

  lemma Variance(p: real)
    requires 0.0 <= p <= 1.0
    ensures p * (1.0 - p) >= 0.0
  {
    ProductSign(p, 1.0 - p);
  }

  /** The square of the spread, in terms of the proportion and the weight. */
  lemma SpreadSquared(p: real, n: real, sqrt: real -> real)
    requires n > 0.0 && 0.0 <= p <= 1.0 && IsSquareRoot(sqrt)
    ensures var s, a := Spread(p, n, sqrt), Weight(n); s >= 0.0 && s * s == a * (p * (1.0 - p)) + a * a / 4.0
  {
    var q := p * (1.0 - p);
    Variance(p);
    ProductSign(n, n);
    var x := q / n + Z * Z / (4.0 * n * n);
    assert q / n >= 0.0;
    assert 4.0 * n * n > 0.0;
    assert Z * Z / (4.0 * n * n) >= 0.0;
    var r := sqrt(x);
    assert r >= 0.0 && r * r == x;
    var s, a := Z * r, Z * Z / n;
    assert s * s == (Z * Z) * (r * r) by { assert (Z * r) * (Z * r) == (Z * Z) * (r * r); }
    assert (Z * Z) * (q / n) == a * q;
    QuarterSquare(Z * Z, n);
  }

  lemma QuarterSquare(c: real, n: real)
    requires n > 0.0
    ensures 4.0 * n * n > 0.0 && c * (c / (4.0 * n * n)) == (c / n) * (c / n) / 4.0
  {
    var f := 4.0 * n;
    PositiveProduct(f, n);
    var a, d := c / n, f * n;
    assert a * n == c;
    var e := c / d;
    assert e * d == c;
    // 4·e·n == a
    assert (4.0 * e * n) * n == e * d;
    Cancel(4.0 * e * n, a, n);
    assert c * e == (a * n) * e == a * (4.0 * e * n) / 4.0;
  }

  lemma ScaledOrder(x: real, y: real, n: real)
    requires n > 0.0 && x < y
    ensures x * n < y * n
  {
    var u := y - x;
    PositiveProduct(u, n);
    assert y * n == x * n + u * n;
  }

  lemma Cancel(x: real, y: real, n: real)
    requires n > 0.0 && x * n == y * n
    ensures x == y
  {
    if x > y { ScaledOrder(y, x, n); } else if x < y { ScaledOrder(x, y, n); }
  }

  /** The four inequalities behind the interval. */
  lemma SpreadBounds(p: real, a: real, s: real)
    requires 0.0 <= p <= 1.0 && a >= 0.0 && s >= 0.0 && s * s == a * (p * (1.0 - p)) + a * a / 4.0
    ensures s <= p + a / 2.0 && s <= (1.0 - p) + a / 2.0
    ensures a * (0.5 - p) <= s && a * (p - 0.5) <= s
  {
    UpperBound(p, a, s);
    UpperBound(1.0 - p, a, s);
    LowerBound(p, a, s);
    LowerBound(1.0 - p, a, s);
    assert a * (0.5 - (1.0 - p)) == a * (p - 0.5);
  }

  lemma UpperBound(p: real, a: real, s: real)
    requires 0.0 <= p <= 1.0 && a >= 0.0 && s >= 0.0 && s * s == a * (p * (1.0 - p)) + a * a / 4.0
    ensures s <= p + a / 2.0
  {
    var y := p + a / 2.0;
    assert y * y == p * p + a * p + a * a / 4.0;
    assert a * (p * (1.0 - p)) == a * p - a * (p * p);
    ProductSign(p, p);
    ProductSign(a, p * p);
    SquareOrder(s, y);
  }

  lemma LowerBound(p: real, a: real, s: real)
    requires 0.0 <= p <= 1.0 && a >= 0.0 && s >= 0.0 && s * s == a * (p * (1.0 - p)) + a * a / 4.0
    ensures a * (0.5 - p) <= s
  {
    var x, q := a * (0.5 - p), p * (1.0 - p);
    Variance(p);
    ProductSign(a, q);
    ProductSign(a, a);
    ProductSign(a * a, q);
    assert (0.5 - p) * (0.5 - p) == 0.25 - q;
    assert x * x == (a * a) * ((0.5 - p) * (0.5 - p));
    assert x * x == a * a / 4.0 - (a * a) * q;
    SquareOrder(x, s);
  }

  lemma DivideBounds(x: real, y: real, d: real)
    requires d > 0.0 && x <= y * d
    ensures x / d <= y
  {
    var q := x / d;
    assert q * d == x;
    if q > y { ScaledOrder(y, q, d); }
  }

  lemma DivideBelow(x: real, y: real, d: real)
    requires d > 0.0 && y * d <= x
    ensures y <= x / d
  {
    var q := x / d;
    assert q * d == x;
    if y > q { ScaledOrder(q, y, d); }
  }

  /** For every 0 ≤ k ≤ n with n > 0 the interval contains k/n, lies in [0, 1], and the clamps do nothing. */
  lemma WilsonContains(k: int, n: int, sqrt: real -> real)
    requires 0 <= k <= n && n > 0 && IsSquareRoot(sqrt)
    ensures var (low, high) := Wilson(k, n, sqrt);
            && 0.0 <= low <= k as real / n as real <= high <= 1.0
            && low == Centre(k as real / n as real, Weight(n as real))
                      - Margin(Spread(k as real / n as real, n as real, sqrt), Weight(n as real))
            && high == Centre(k as real / n as real, Weight(n as real))
                       + Margin(Spread(k as real / n as real, n as real, sqrt), Weight(n as real))
  {
    var m := n as real;
    Proportion(k, n);
    var p := k as real / m;
    SpreadSquared(p, m, sqrt);
    IntervalBounds(p, Weight(m), Spread(p, m, sqrt));
  }

  lemma IntervalBounds(p: real, a: real, s: real)
    requires 0.0 <= p <= 1.0 && a >= 0.0 && s >= 0.0 && s * s == a * (p * (1.0 - p)) + a * a / 4.0
    ensures 0.0 <= Centre(p, a) - Margin(s, a) <= p <= Centre(p, a) + Margin(s, a) <= 1.0
  {
    SpreadBounds(p, a, s);
    var d, c := 1.0 + a, p + a / 2.0;
    Fractions(c, s, d);
    assert p * d == p + a * p;
    assert a * (0.5 - p) == a / 2.0 - a * p;
    assert a * (p - 0.5) == a * p - a / 2.0;
    DivideBelow(c - s, 0.0, d);
    DivideBounds(c - s, p, d);
    DivideBelow(c + s, p, d);
    DivideBounds(c + s, 1.0, d);
  }

  lemma Fractions(c: real, s: real, d: real)
    requires d > 0.0
    ensures c / d - s / d == (c - s) / d && c / d + s / d == (c + s) / d
  {
  }

  lemma Proportion(k: int, n: int)
    requires 0 <= k <= n && n > 0
    ensures 0.0 <= k as real / n as real <= 1.0
  {
    DivideBounds(k as real, 1.0, n as real);
    DivideBelow(k as real, 0.0, n as real);
  }

  /** Swapping successes and failures mirrors the interval at one half. */
  lemma WilsonMirrored(k: int, n: int, sqrt: real -> real)
    requires 0 <= k <= n && n > 0 && IsSquareRoot(sqrt)
    ensures Wilson(n - k, n, sqrt).0 == 1.0 - Wilson(k, n, sqrt).1
    ensures Wilson(n - k, n, sqrt).1 == 1.0 - Wilson(k, n, sqrt).0
  {
    WilsonContains(k, n, sqrt);
    WilsonContains(n - k, n, sqrt);
    MirroredProportion(k, n);
    var m := n as real;
    MirroredSpread(k as real / m, m, sqrt);
    MirroredCentre(k as real / m, Weight(m));
  }

  lemma MirroredProportion(k: int, n: int)
    requires n > 0
    ensures (n - k) as real / n as real == 1.0 - k as real / n as real
  {
    var m := n as real;
    Fractions(m, k as real, m);
    assert m / m == 1.0;
    assert (n - k) as real == m - k as real;
  }

  lemma MirroredSpread(p: real, n: real, sqrt: real -> real)
    requires n > 0.0
    ensures Spread(1.0 - p, n, sqrt) == Spread(p, n, sqrt)
  {
    assert (1.0 - p) * (1.0 - (1.0 - p)) == p * (1.0 - p);
  }

  lemma MirroredCentre(p: real, a: real)
    requires a >= 0.0
    ensures Centre(1.0 - p, a) == 1.0 - Centre(p, a)
  {
    var d, c := 1.0 + a, p + a / 2.0;
    assert 1.0 - p + a / 2.0 == d - c;
    Fractions(d, c, d);
    assert d / d == 1.0;
  }

  // ----- rows and their tally

  datatype Truth = Accept | Block | OtherTruth
  datatype Verdict = Pass | Rejected | Fail | Tampered | Error | OtherVerdict

  /** The case kind matters only through the two evasion kinds; `baseline` is None when it is not an object. */
  datatype Kind = ViableEvasion | NonviableEvasion | OtherKind
  datatype Row = Row(truth: Truth, verdict: Verdict, kind: Kind, baseline: Option<map<string, Field>>)

  /** Where one row is counted. */
  datatype Cell = TP | TN | FP | FN | AbstainAccept | AbstainBlock

  predicate ClassifiedBlock(v: Verdict) { v.Rejected? || v.Fail? || v.Tampered? }

  predicate ValidRow(row: Row) { !row.truth.OtherTruth? && !row.verdict.OtherVerdict? }

  function CellOf(truth: Truth, verdict: Verdict): Cell {
    if verdict.Error? then (if truth.Block? then AbstainBlock else AbstainAccept)
    else if truth.Block? then (if ClassifiedBlock(verdict) then TP else FN)
    else if ClassifiedBlock(verdict) then FP else TN
  }

  datatype Counts = Counts(tp: nat, tn: nat, fp: nat, fn: nat, abstainAccept: nat, abstainBlock: nat)
  {
    function Classified(): nat { tp + tn + fp + fn }
    function Total(): nat { Classified() + abstainAccept + abstainBlock }
  }

  const NoCounts := Counts(0, 0, 0, 0, 0, 0)

  function Bump(c: Counts, cell: Cell): Counts {
    match cell
    case TP => c.(tp := c.tp + 1)
    case TN => c.(tn := c.tn + 1)
    case FP => c.(fp := c.fp + 1)
    case FN => c.(fn := c.fn + 1)
    case AbstainAccept => c.(abstainAccept := c.abstainAccept + 1)
    case AbstainBlock => c.(abstainBlock := c.abstainBlock + 1)
  }

  /** How many rows fall into one cell. */
  function Number(cell: Cell, rows: seq<Row>): nat {
    if rows == [] then 0
    else Number(cell, rows[..|rows| - 1]) + if Place(rows[|rows| - 1]) == cell then 1 else 0
  }

  function Place(row: Row): Cell { CellOf(row.truth, row.verdict) }

  function Tally(rows: seq<Row>): Counts {
    Counts(Number(TP, rows), Number(TN, rows), Number(FP, rows), Number(FN, rows),
           Number(AbstainAccept, rows), Number(AbstainBlock, rows))
  }

  lemma NumberStep(cell: Cell, rows: seq<Row>, i: nat)
    requires i < |rows|
    ensures Number(cell, rows[..i + 1]) == Number(cell, rows[..i]) + if Place(rows[i]) == cell then 1 else 0
  {
    assert rows[..i + 1][..i] == rows[..i];
  }

  lemma TallyStep(rows: seq<Row>, i: nat)
    requires i < |rows|
    ensures Tally(rows[..i + 1]) == Bump(Tally(rows[..i]), Place(rows[i]))
  {
    NumberStep(TP, rows, i);
    NumberStep(TN, rows, i);
    NumberStep(FP, rows, i);
    NumberStep(FN, rows, i);
    NumberStep(AbstainAccept, rows, i);
    NumberStep(AbstainBlock, rows, i);
  }

  lemma BumpTotal(c: Counts, cell: Cell)
    ensures Bump(c, cell).Total() == c.Total() + 1
  {
  }

  /** No row is dropped or counted twice: the six counts add up to the number of rows. */
  lemma {:induction false} TotalIsRowCount(rows: seq<Row>)
    ensures Tally(rows).Total() == |rows|
  {
    if rows != [] {
      var n := |rows| - 1;
      TotalIsRowCount(rows[..n]);
      assert rows[..n + 1] == rows;
      TallyStep(rows, n);
      BumpTotal(Tally(rows[..n]), Place(rows[n]));
    }
  }

  lemma {:induction false} NumberConcat(cell: Cell, a: seq<Row>, b: seq<Row>)
    ensures Number(cell, a + b) == Number(cell, a) + Number(cell, b)
  {
    if b == [] {
      assert a + b == a;
    } else {
      assert (a + b)[..|a + b| - 1] == a + b[..|b| - 1];
      NumberConcat(cell, a, b[..|b| - 1]);
    }
  }

  lemma NumberWithout(cell: Cell, rows: seq<Row>, i: nat)
    requires i < |rows|
    ensures Number(cell, rows) ==
            Number(cell, rows[..i] + rows[i + 1..]) + if Place(rows[i]) == cell then 1 else 0
  {
    assert rows == rows[..i + 1] + rows[i + 1..];
    NumberStep(cell, rows, i);
    NumberConcat(cell, rows[..i + 1], rows[i + 1..]);
    NumberConcat(cell, rows[..i], rows[i + 1..]);
  }

  lemma MultisetWithout(rows: seq<Row>, i: nat)
    requires i < |rows|
    ensures multiset(rows[..i] + rows[i + 1..]) == multiset(rows) - multiset{rows[i]}
  {
    assert rows == rows[..i] + [rows[i]] + rows[i + 1..];
  }

  lemma SameRest(a: seq<Row>, b: seq<Row>, i: nat)
    requires a != [] && i < |b| && a[0] == b[i] && multiset(a) == multiset(b)
    ensures multiset(a[1..]) == multiset(b[..i] + b[i + 1..])
  {
    MultisetWithout(a, 0);
    MultisetWithout(b, i);
    assert a[..0] + a[1..] == a[1..];
  }

  lemma NumberFirst(cell: Cell, rows: seq<Row>)
    requires rows != []
    ensures Number(cell, rows) == Number(cell, rows[1..]) + if Place(rows[0]) == cell then 1 else 0
  {
    assert rows[..0] + rows[1..] == rows[1..];
    NumberWithout(cell, rows, 0);
  }

  lemma {:induction false} NumberOfPermutation(cell: Cell, a: seq<Row>, b: seq<Row>)
    requires multiset(a) == multiset(b)
    ensures Number(cell, a) == Number(cell, b)
    decreases |a|
  {
    if a == [] {
      assert |multiset(b)| == 0;
    } else {
      assert a[0] in multiset(b);
      var i :| 0 <= i < |b| && b[i] == a[0];
      SameRest(a, b, i);
      NumberOfPermutation(cell, a[1..], b[..i] + b[i + 1..]);
      NumberFirst(cell, a);
      NumberWithout(cell, b, i);
    }
  }

  /** The order of the rows does not matter. */
  lemma TallyOfPermutation(a: seq<Row>, b: seq<Row>)
    requires multiset(a) == multiset(b)
    ensures Tally(a) == Tally(b)
  {
    NumberOfPermutation(TP, a, b);
    NumberOfPermutation(TN, a, b);
    NumberOfPermutation(FP, a, b);
    NumberOfPermutation(FN, a, b);
    NumberOfPermutation(AbstainAccept, a, b);
    NumberOfPermutation(AbstainBlock, a, b);
  }

  // ----- finished metrics

  /** A rate with its interval. */
  datatype Rate = Rate(value: real, low: real, high: real)

  datatype Report = Report(
    counts: Counts, classified: nat, abstain: nat, total: nat, coverage: real,
    accuracy: Rate, falseNegativeRate: Rate, falsePositiveRate: Rate, operationalBlockRate: Rate)

  datatype Problem = InvalidRow(number: nat) | EmptyCorpus

  /** An interval rule: successes and observations to a lower and an upper bound. */
  type Interval = (nat, nat) -> (real, real)

  function WilsonRule(sqrt: real -> real): Interval { (k: nat, n: nat) => Wilson(k, n, sqrt) }

  ghost predicate Containing(interval: Interval) {
    forall k: nat, n: nat | k <= n :: Contained(interval, k, n)
  }

  ghost predicate Contained(interval: Interval, k: nat, n: nat) {
    0.0 <= interval(k, n).0 <= Ratio(k, n) <= interval(k, n).1 <= 1.0
  }

  function Ratio(k: nat, n: nat): real { if n == 0 then 0.0 else k as real / n as real }

  lemma WilsonRuleContains(sqrt: real -> real)
    requires IsSquareRoot(sqrt)
    ensures Containing(WilsonRule(sqrt))
  {
    forall k: nat, n: nat | k <= n ensures Contained(WilsonRule(sqrt), k, n) {
      if n > 0 { WilsonContains(k, n, sqrt); }
    }
  }

  function RateOf(k: nat, n: nat, interval: Interval): Rate {
    Rate(Ratio(k, n), interval(k, n).0, interval(k, n).1)
  }

  /** `_finish_metrics`. */
  function FinishMetrics(c: Counts, interval: Interval): Result<Report, Problem> {
    var classified := c.Classified();
    var abstain := c.abstainAccept + c.abstainBlock;
    var total := classified + abstain;
    if total == 0 then Err(EmptyCorpus)
    else
      Ok(Report(c, classified, abstain, total, Ratio(classified, total),
                RateOf(c.tp + c.tn, classified, interval),
                RateOf(c.fn, c.tp + c.fn, interval),
                RateOf(c.fp, c.tn + c.fp, interval),
                RateOf(c.tp + c.abstainBlock, c.tp + c.fn + c.abstainBlock, interval)))
  }

  lemma FinishedTotal(c: Counts, interval: Interval)
    ensures FinishMetrics(c, interval).Ok? <==> c.Total() > 0
    ensures FinishMetrics(c, interval).Ok? ==> FinishMetrics(c, interval).value.total == c.Total()
  {
  }

  predicate Sound(r: Rate) { 0.0 <= r.low <= r.value <= r.high <= 1.0 }

  /** Every reported rate lies in its interval inside [0, 1], and blocking operationally never reports less than
      detection (the complement of the false-negative rate) does. */
  lemma ReportIsSound(c: Counts, sqrt: real -> real)
    requires IsSquareRoot(sqrt) && c.Total() > 0
    ensures var r := FinishMetrics(c, WilsonRule(sqrt));
            && r.Ok? && 0.0 <= r.value.coverage <= 1.0
            && Sound(r.value.accuracy) && Sound(r.value.falseNegativeRate)
            && Sound(r.value.falsePositiveRate) && Sound(r.value.operationalBlockRate)
            && (c.tp + c.fn > 0 ==> r.value.operationalBlockRate.value >= 1.0 - r.value.falseNegativeRate.value)
  {
    WilsonRuleContains(sqrt);
    ContainedReport(c, WilsonRule(sqrt));
    if c.tp + c.fn > 0 {
      MirroredProportion(c.fn, c.tp + c.fn);
      AddedSuccesses(c.tp, c.tp + c.fn, c.abstainBlock);
    }
  }

  lemma ContainedReport(c: Counts, interval: Interval)
    requires Containing(interval) && c.Total() > 0
    ensures var r := FinishMetrics(c, interval);
            && r.Ok? && 0.0 <= r.value.coverage <= 1.0
            && Sound(r.value.accuracy) && Sound(r.value.falseNegativeRate)
            && Sound(r.value.falsePositiveRate) && Sound(r.value.operationalBlockRate)
  {
    assert Contained(interval, c.Classified(), c.Total());
    assert Contained(interval, c.tp + c.tn, c.Classified());
    assert Contained(interval, c.fn, c.tp + c.fn);
    assert Contained(interval, c.fp, c.tn + c.fp);
    assert Contained(interval, c.tp + c.abstainBlock, c.tp + c.fn + c.abstainBlock);
  }

  lemma AddedSuccesses(k: nat, n: nat, extra: nat)
    requires k <= n && n > 0
    ensures k as real / n as real <= (k + extra) as real / (n + extra) as real
  {
    var x, m, e := k as real, n as real, extra as real;
    var q := x / m;
    assert q * m == x;
    Proportion(k, n);
    if e > 0.0 && q < 1.0 { ScaledOrder(q, 1.0, e); }
    assert q * (m + e) == q * m + q * e;
    DivideBelow(x + e, q, m + e);
  }

  // ----- evaluate_rows

  ghost predicate AllValid(rows: seq<Row>) { forall i | 0 <= i < |rows| :: ValidRow(rows[i]) }

  /** What a counting pass must return: the tally, or the number of the first invalid row. */
  ghost predicate Tallied(rows: seq<Row>, r: Result<Counts, Problem>) {
    if AllValid(rows) then r == Ok(Tally(rows))
    else r.Err? && r.error.InvalidRow? && FirstInvalid(rows, r.error.number)
  }

  ghost predicate FirstInvalid(rows: seq<Row>, number: nat) {
    1 <= number <= |rows| && AllValid(rows[..number - 1]) && !ValidRow(rows[number - 1])
  }

  /** The metrics of the tally, or the number of the first invalid row. */
  ghost predicate Evaluates(rows: seq<Row>, interval: Interval, r: Result<Report, Problem>) {
    exists c :: Tallied(rows, c) && r == Finished(c, interval)
  }

  function Finished(c: Result<Counts, Problem>, interval: Interval): Result<Report, Problem> {
    match c
    case Err(e) => Err(e)
    case Ok(counts) => FinishMetrics(counts, interval)
  }

  lemma ValidStep(rows: seq<Row>, i: nat)
    requires i < |rows| && AllValid(rows[..i]) && ValidRow(rows[i])
    ensures AllValid(rows[..i + 1])
  {
    assert rows[..i + 1] == rows[..i] + [rows[i]];
  }

  method TallyRows(rows: seq<Row>) returns (r: Result<Counts, Problem>)
    ensures Tallied(rows, r)
  {
    var counts := NoCounts;
    for i := 0 to |rows|
      invariant AllValid(rows[..i])
      invariant counts == Tally(rows[..i])
    {
      var row := rows[i];
      if !ValidRow(row) { return Err(InvalidRow(i + 1)); }
      counts := Bump(counts, CellOf(row.truth, row.verdict));
      TallyStep(rows, i);
      ValidStep(rows, i);
    }
    assert rows[..|rows|] == rows;
    r := Ok(counts);
  }

  /** `evaluate_rows`. */
  method EvaluateRows(rows: seq<Row>, interval: Interval) returns (r: Result<Report, Problem>)
    ensures Evaluates(rows, interval, r)
    ensures r.Ok? ==> r.value.total == |rows| > 0
    ensures r.Ok? <==> rows != [] && AllValid(rows)
  {
    var counts := TallyRows(rows);
    TotalIsRowCount(rows);
    if counts.Err? { return Err(counts.error); }
    FinishedTotal(counts.value, interval);
    r := FinishMetrics(counts.value, interval);
  }

  /** The metrics of a valid corpus do not depend on the order of its rows. */
  lemma EvaluationIgnoresOrder(a: seq<Row>, b: seq<Row>, interval: Interval, r: Result<Report, Problem>)
    requires multiset(a) == multiset(b) && AllValid(a)
    ensures Evaluates(a, interval, r) <==> Evaluates(b, interval, r)
  {
    TallyOfPermutation(a, b);
    forall i | 0 <= i < |b| ensures ValidRow(b[i]) {
      assert b[i] in multiset(b);
      assert b[i] in a;
    }
  }

  ghost function Decided(rows: seq<Row>): (kept: seq<Row>)
    ensures AllValid(rows) ==> AllValid(kept)
  {
    if rows == [] then []
    else
      var init, last := Decided(rows[..|rows| - 1]), rows[|rows| - 1];
      if last.verdict.Error? then init else init + [last]
  }

  lemma {:induction false} DecidedNumber(cell: Cell, rows: seq<Row>)
    ensures Number(cell, Decided(rows)) == if cell.AbstainAccept? || cell.AbstainBlock? then 0 else Number(cell, rows)
  {
    if rows != [] {
      var init, last := rows[..|rows| - 1], rows[|rows| - 1];
      DecidedNumber(cell, init);
      NumberConcat(cell, Decided(init), [last]);
    }
  }

  /** Abstentions are not credited: dropping every ERROR row leaves accuracy and both error rates, intervals included,
      as they were. */
  lemma AbstentionsEarnNothing(rows: seq<Row>, interval: Interval)
    requires Decided(rows) != []
    ensures var all, kept := FinishMetrics(Tally(rows), interval), FinishMetrics(Tally(Decided(rows)), interval);
            && all.Ok? && kept.Ok?
            && all.value.accuracy == kept.value.accuracy
            && all.value.falseNegativeRate == kept.value.falseNegativeRate
            && all.value.falsePositiveRate == kept.value.falsePositiveRate
  {
    DecidedTally(rows);
    TotalIsRowCount(Decided(rows));
    SameClassification(Tally(rows), interval);
  }

  lemma SameClassification(c: Counts, interval: Interval)
    requires c.Classified() > 0
    ensures var all := FinishMetrics(c, interval);
            var kept := FinishMetrics(c.(abstainAccept := 0, abstainBlock := 0), interval);
            && all.Ok? && kept.Ok?
            && all.value.accuracy == kept.value.accuracy
            && all.value.falseNegativeRate == kept.value.falseNegativeRate
            && all.value.falsePositiveRate == kept.value.falsePositiveRate
  {
  }

  lemma DecidedTally(rows: seq<Row>)
    ensures Tally(Decided(rows)) == Tally(rows).(abstainAccept := 0, abstainBlock := 0)
  {
    DecidedNumber(TP, rows);
    DecidedNumber(TN, rows);
    DecidedNumber(FP, rows);
    DecidedNumber(FN, rows);
    DecidedNumber(AbstainAccept, rows);
    DecidedNumber(AbstainBlock, rows);
  }

  // ----- baseline predictions

  datatype Field =
    Null | Flag(flag: bool) | Whole(whole: int) | Decimal(decimal: real) | NonFinite | Text(text: string) | Composite

  datatype Prediction = Accepts | Blocks | Abstains

  function Name(p: Prediction): (text: string) {
    match p case Accepts => "accept" case Blocks => "block" case Abstains => "abstain"
  }

  const BaselineKeys := {"applicable", "prediction", "exit_code", "elapsed_s", "reason"}
  const InapplicableReasons := {"baseline_delete_target_missing", "candidate_has_no_file_blocks",
                                "unsafe_candidate_path"}

  function PowerOfTwo(n: nat): nat { if n == 0 then 1 else 2 * PowerOfTwo(n - 1) }

  /** An integer from here on rounds to a float that is not finite; `float` raises on it. */
  function FloatOverflow(): int { PowerOfTwo(1024) - PowerOfTwo(970) }

  predicate FiniteNonnegative(f: Field) {
    (f.Whole? && 0 <= f.whole < FloatOverflow()) || (f.Decimal? && f.decimal >= 0.0)
  }

  /** `derive_baseline_prediction`; None stands for a refusal. */
  function DerivePrediction(o: map<string, Field>): (r: Option<Prediction>)
  {
    if o.Keys != BaselineKeys then None
    else if !FiniteNonnegative(o["elapsed_s"]) then None
    else if !o["applicable"].Flag? || !o["reason"].Text? || o["reason"].text == "" then None
    else if o["prediction"] !in {Text("accept"), Text("block"), Text("abstain")} then None
    else if !o["exit_code"].Null? && !o["exit_code"].Whole? then None
    else
      var derived :=
        if o["applicable"].flag then
          if o["exit_code"].Null? then (if o["reason"].text != "baseline_timeout" then None else Some(Abstains))
          else if o["reason"].text != "exit_code" then None
          else Some(if o["exit_code"].whole == 0 then Accepts else Blocks)
        else if !o["exit_code"].Null? || o["reason"].text !in InapplicableReasons then None
        else Some(Abstains);
      if derived.None? || o["prediction"] != Text(Name(derived.value)) then None else derived
  }

  /** The facts a label may depend on: everything but the label itself. */
  function Facts(o: map<string, Field>): map<string, Field> { o - {"prediction"} }

  /** The label is derived, not trusted: an accepted record names the label its exit code and applicability give, and
      no second label is ever accepted beside the same facts. */
  lemma LabelIsDerived(o: map<string, Field>, other: map<string, Field>)
    requires DerivePrediction(o).Some?
    ensures o["prediction"] == Text(Name(DerivePrediction(o).value))
    ensures DerivePrediction(o) == Some(Accepts) <==> o["exit_code"] == Whole(0)
    ensures DerivePrediction(o) == Some(Abstains) <==> o["exit_code"] == Null
    ensures DerivePrediction(other).Some? && Facts(o) == Facts(other) ==> other == o
  {
    if DerivePrediction(other).Some? && Facts(o) == Facts(other) {
      forall k | k in BaselineKeys && k != "prediction" ensures o[k] == other[k] {
        assert k in Facts(o) && Facts(o)[k] == o[k];
        assert Facts(other)[k] == other[k];
      }
      assert o["exit_code"] == other["exit_code"];
      assert DerivePrediction(o) == DerivePrediction(other);
      assert o["prediction"] == other["prediction"];
      assert other == o;
    }
  }

  /** The row `evaluate_rows` would need for the same outcome as the baseline's. */
  function AsGuardRow(row: Row): Row {
    row.(verdict :=
      if row.baseline.None? then OtherVerdict
      else match DerivePrediction(row.baseline.value)
           case None => OtherVerdict
           case Some(Accepts) => Pass
           case Some(Blocks) => Fail
           case Some(Abstains) => Error)
  }

  lemma GuardCell(row: Row)
    requires row.baseline.Some? && DerivePrediction(row.baseline.value).Some?
    ensures var p, guard := DerivePrediction(row.baseline.value).value, AsGuardRow(row);
            && guard.truth == row.truth && !guard.verdict.OtherVerdict?
            && (guard.verdict.Error? <==> p.Abstains?) && (ClassifiedBlock(guard.verdict) <==> p.Blocks?)
  {
  }

  ghost function AsGuardRows(rows: seq<Row>): (r: seq<Row>)
    ensures |r| == |rows| && forall i | 0 <= i < |rows| :: r[i] == AsGuardRow(rows[i])
  {
    seq(|rows|, i requires 0 <= i < |rows| => AsGuardRow(rows[i]))
  }

  method TallyBaseline(rows: seq<Row>) returns (r: Result<Counts, Problem>)
    ensures Tallied(AsGuardRows(rows), r)
  {
    ghost var guard := AsGuardRows(rows);
    var counts := NoCounts;
    for i := 0 to |rows|
      invariant AllValid(guard[..i])
      invariant counts == Tally(guard[..i])
    {
      var row := rows[i];
      if row.truth.OtherTruth? || row.baseline.None? { return Err(InvalidRow(i + 1)); }
      var prediction := DerivePrediction(row.baseline.value);
      if prediction.None? { return Err(InvalidRow(i + 1)); }
      var cell;
      if prediction.value.Abstains? {
        cell := if row.truth.Block? then AbstainBlock else AbstainAccept;
      } else {
        var blocks := prediction.value.Blocks?;
        cell := if row.truth.Block? && blocks then TP else if row.truth.Block? then FN else if blocks then FP else TN;
      }
      GuardCell(row);
      counts := Bump(counts, cell);
      TallyStep(guard, i);
      ValidStep(guard, i);
    }
    assert guard[..|rows|] == guard;
    r := Ok(counts);
  }

  /** `evaluate_baseline_rows` is `evaluate_rows` on the derived predictions. */
  method EvaluateBaselineRows(rows: seq<Row>, interval: Interval) returns (r: Result<Report, Problem>)
    ensures Evaluates(AsGuardRows(rows), interval, r)
  {
    var counts := TallyBaseline(rows);
    r := if counts.Err? then Err(counts.error) else FinishMetrics(counts.value, interval);
  }

  // ----- evasion metrics

  datatype EvasionReport = EvasionReport(
    total: nat, classified: nat, blocked: nat, missed: nat, abstain: nat, detection: Rate, operational: Rate)

  datatype EvasionProblem = BadLabel(number: nat) | NoViableCases | BadCase(number: nat)

  /** An evasion row whose label agrees with its derived baseline prediction. */
  predicate Labelled(row: Row) {
    row.kind.OtherKind?
    || (row.baseline.Some? && DerivePrediction(row.baseline.value).Some?
        && row.kind == if DerivePrediction(row.baseline.value).value.Accepts? then ViableEvasion else NonviableEvasion)
  }

  predicate Viable(row: Row) { row.kind.ViableEvasion? }

  ghost function Selected(rows: seq<Row>): (kept: seq<Row>)
    ensures forall row :: row in kept <==> row in rows && Viable(row)
  {
    if rows == [] then []
    else
      var last := rows[|rows| - 1];
      assert rows == rows[..|rows| - 1] + [last];
      Selected(rows[..|rows| - 1]) + if Viable(last) then [last] else []
  }

  ghost predicate AllLabelled(rows: seq<Row>) { forall i | 0 <= i < |rows| :: Labelled(rows[i]) }

  predicate Scorable(row: Row) { row.truth.Block? && !row.verdict.OtherVerdict? }

  ghost predicate AllScorable(rows: seq<Row>) { forall i | 0 <= i < |rows| :: Scorable(rows[i]) }

  lemma SelectedStep(rows: seq<Row>, i: nat)
    requires i < |rows|
    ensures Selected(rows[..i + 1]) == Selected(rows[..i]) + if Viable(rows[i]) then [rows[i]] else []
  {
    assert rows[..i + 1][..i] == rows[..i];
  }

  /** The evasion report is the part of the ordinary report for the same rows that speaks of blocked cases. */
  predicate Projects(e: EvasionReport, r: Report) {
    && e.total == r.total && e.classified == r.classified && e.abstain == r.abstain
    && e.blocked == r.counts.tp && e.missed == r.counts.fn
    && e.detection == r.accuracy && e.operational == r.operationalBlockRate
  }

  method SelectViable(rows: seq<Row>) returns (r: Result<seq<Row>, EvasionProblem>)
    ensures r.Ok? <==> AllLabelled(rows)
    ensures r.Ok? ==> r.value == Selected(rows)
    ensures r.Err? ==> r.error.BadLabel? && 1 <= r.error.number <= |rows|
                       && AllLabelled(rows[..r.error.number - 1]) && !Labelled(rows[r.error.number - 1])
  {
    var selected: seq<Row> := [];
    for i := 0 to |rows|
      invariant AllLabelled(rows[..i])
      invariant selected == Selected(rows[..i])
    {
      SelectedStep(rows, i);
      var row := rows[i];
      if row.kind.OtherKind? { continue; }
      if row.baseline.None? { return Err(BadLabel(i + 1)); }
      var prediction := DerivePrediction(row.baseline.value);
      if prediction.None? { return Err(BadLabel(i + 1)); }
      var derivedKind := if prediction.value.Accepts? then ViableEvasion else NonviableEvasion;
      if row.kind != derivedKind { return Err(BadLabel(i + 1)); }
      if prediction.value.Accepts? { selected := selected + [row]; }
    }
    assert rows[..|rows|] == rows;
    r := Ok(selected);
  }

  /** The tally of the selected rows: every truth is "block", so only three cells are in use. */
  method TallyEvasions(selected: seq<Row>) returns (r: Result<(nat, nat, nat), EvasionProblem>)
    ensures r.Ok? <==> AllScorable(selected)
    ensures r.Ok? ==> Tally(selected) == Counts(r.value.0, 0, 0, r.value.1, 0, r.value.2)
    ensures r.Err? ==> r.error.BadCase? && 1 <= r.error.number <= |selected|
                       && AllScorable(selected[..r.error.number - 1]) && !Scorable(selected[r.error.number - 1])
  {
    var blocked, missed, abstain := 0, 0, 0;
    for i := 0 to |selected|
      invariant AllScorable(selected[..i])
      invariant Tally(selected[..i]) == Counts(blocked, 0, 0, missed, 0, abstain)
    {
      TallyStep(selected, i);
      var row := selected[i];
      if row.truth != Block { return Err(BadCase(i + 1)); }
      if ClassifiedBlock(row.verdict) { blocked := blocked + 1; }
      else if row.verdict.Pass? { missed := missed + 1; }
      else if row.verdict.Error? { abstain := abstain + 1; }
      else { return Err(BadCase(i + 1)); }
      assert selected[..i + 1] == selected[..i] + [row];
    }
    assert selected[..|selected|] == selected;
    r := Ok((blocked, missed, abstain));
  }

  /** `evaluate_security_evasions_rows` agrees with `evaluate_rows` on the baseline-accepted evasions. */
  method EvaluateEvasions(rows: seq<Row>, interval: Interval) returns (r: Result<EvasionReport, EvasionProblem>)
    ensures r.Ok? <==> AllLabelled(rows) && Selected(rows) != [] && AllScorable(Selected(rows))
    ensures r.Ok? ==> forall m :: Evaluates(Selected(rows), interval, m) ==> m.Ok? && Projects(r.value, m.value)
    ensures r.Err? && r.error.NoViableCases? <==> AllLabelled(rows) && Selected(rows) == []
  {
    var selection := SelectViable(rows);
    if selection.Err? { return Err(selection.error); }
    var selected := selection.value;
    if selected == [] { return Err(NoViableCases); }
    var tally := TallyEvasions(selected);
    if tally.Err? { return Err(tally.error); }
    var (blocked, missed, abstain) := tally.value;
    var classified := blocked + missed;
    r := Ok(EvasionReport(|selected|, classified, blocked, missed, abstain,
                          RateOf(blocked, classified, interval), RateOf(blocked + abstain, |selected|, interval)));
    ReportAgrees(selected, blocked, missed, abstain, interval);
  }

  /** Whatever `evaluate_rows` returns on rows that are all scorable evasions, the report is its projection. */
  lemma ReportAgrees(rows: seq<Row>, blocked: nat, missed: nat, abstain: nat, interval: Interval)
    requires rows != [] && AllScorable(rows) && Tally(rows) == Counts(blocked, 0, 0, missed, 0, abstain)
    ensures var report := EvasionReport(|rows|, blocked + missed, blocked, missed, abstain,
                                        RateOf(blocked, blocked + missed, interval),
                                        RateOf(blocked + abstain, |rows|, interval));
            forall m :: Evaluates(rows, interval, m) ==> m.Ok? && Projects(report, m.value)
  {
    TotalIsRowCount(rows);
    forall i | 0 <= i < |rows| ensures ValidRow(rows[i]) { assert Scorable(rows[i]); }
    forall m | Evaluates(rows, interval, m) ensures m == FinishMetrics(Tally(rows), interval) {
      var c :| Tallied(rows, c) && m == Finished(c, interval);
    }
  }
}
