/** The two scripts that summarise client measurements, over exact reals: one client's requests, and
    the merge of several clients' summaries. */
module ClientStats {
  import opened Options

  /** The start values of the running minimum and maximum. */
  const HUGE: real := 1000000000000000000000000.0
  const BELOW: real := -1.0

  // ---------------------------------------------------------------- reference statistics

  function Sum(ts: seq<real>): real {
    if ts == [] then 0.0 else Sum(ts[..|ts| - 1]) + ts[|ts| - 1]
  }

  function Sq(x: real): real { x * x }

  function SumSquares(ts: seq<real>): real {
    if ts == [] then 0.0 else SumSquares(ts[..|ts| - 1]) + Sq(ts[|ts| - 1])
  }

  function MinOf(start: real, ts: seq<real>): real {
    if ts == [] then start
    else
      var m := MinOf(start, ts[..|ts| - 1]);
      if ts[|ts| - 1] < m then ts[|ts| - 1] else m
  }

  function MaxOf(start: real, ts: seq<real>): real {
    if ts == [] then start
    else
      var m := MaxOf(start, ts[..|ts| - 1]);
      if ts[|ts| - 1] > m then ts[|ts| - 1] else m
  }

  lemma Distribute(a: real, b: real, x: real)
    ensures (a + b) * x == a * x + b * x
  {}

  lemma Cancel(n: real, a: real, b: real)
    requires n > 0.0 && n * a <= n * b
    ensures a <= b
  {}

  lemma MeanBounds(n: real, s: real, m: real, lo: real, hi: real)
    requires n > 0.0 && s == n * m && n * lo <= s <= n * hi
    ensures lo <= m <= hi
  {
    Cancel(n, lo, m);
    Cancel(n, m, hi);
  }

  /** The sum of the squared distances from x. */
  function SquaredDistances(ts: seq<real>, x: real): real {
    if ts == [] then 0.0 else SquaredDistances(ts[..|ts| - 1], x) + Sq(ts[|ts| - 1] - x)
  }

  lemma {:induction false} SquaredDistancesNonNegative(ts: seq<real>, x: real)
    ensures SquaredDistances(ts, x) >= 0.0
  {
    hide Sq;
    if ts != [] {
      SquaredDistancesNonNegative(ts[..|ts| - 1], x);
      SqNonNegative(ts[|ts| - 1] - x);
    }
  }

  lemma SqNonNegative(d: real)
    ensures Sq(d) >= 0.0
  {
    if d < 0.0 {
      assert d * d == (-d) * (-d);
    }
  }

  /** d is the sum of the squared distances from x of n numbers with sum s and sum of squares q. */
  predicate Expanded(d: real, q: real, s: real, n: real, x: real) {
    d == q - 2.0 * (x * s) + n * (x * x)
  }

  lemma ExpandedStep(d: real, q: real, s: real, n: real, x: real, t: real)
    requires Expanded(d, q, s, n, x)
    ensures Expanded(d + Sq(t - x), q + Sq(t), s + t, n + 1.0, x)
  {
    assert (t - x) * (t - x) == t * t - 2.0 * (x * t) + x * x;
    assert x * (s + t) == x * s + x * t;
    Distribute(n, 1.0, x * x);
  }

  lemma {:induction false} SquaredDistancesExpand(ts: seq<real>, x: real)
    ensures Expanded(SquaredDistances(ts, x), SumSquares(ts), Sum(ts), |ts| as real, x)
  {
    if ts != [] {
      hide Expanded, Sq;
      var init, t := ts[..|ts| - 1], ts[|ts| - 1];
      SquaredDistancesExpand(init, x);
      ExpandedStep(SquaredDistances(init, x), SumSquares(init), Sum(init), |init| as real, x, t);
      assert |ts| as real == |init| as real + 1.0;
    }
  }

  function Ratio(a: real, n: nat): real
    requires n > 0
  {
    a / n as real
  }

  function Mean(ts: seq<real>): real
    requires ts != []
  {
    Ratio(Sum(ts), |ts|)
  }

  /** The argument of zero() and sqrt() in the summary. */
  function Variance(ts: seq<real>): real
    requires ts != []
  {
    Ratio(SumSquares(ts), |ts|) - Sq(Mean(ts))
  }

  /** It is the mean squared distance from the mean, and so never negative. */
  lemma VarianceIsMeanSquaredDistance(ts: seq<real>)
    requires ts != []
    ensures Variance(ts) == Ratio(SquaredDistances(ts, Mean(ts)), |ts|)
    ensures Variance(ts) >= 0.0
  {
    hide Ratio, Sq, Expanded, Mean;
    var m := Mean(ts);
    SquaredDistancesExpand(ts, m);
    SquaredDistancesNonNegative(ts, m);
    MeanTimes(ts);
    OverMean(SumSquares(ts), Sum(ts), |ts|, m, SquaredDistances(ts, m));
  }

  lemma MeanTimes(ts: seq<real>)
    requires ts != []
    ensures Sum(ts) == |ts| as real * Mean(ts)
  {}

  lemma OverMean(q: real, s: real, n: nat, m: real, d: real)
    requires n > 0 && s == n as real * m && d >= 0.0 && Expanded(d, q, s, n as real, m)
    ensures Ratio(d, n) == Ratio(q, n) - Sq(m) && Ratio(d, n) >= 0.0
  {
    var k := n as real;
    assert m * s == k * (m * m);
    assert d == q - k * (m * m);
    assert k * (q / k - m * m) == d;
  }

  lemma BoundStep(n: real, lo: real, s: real, t: real, hi: real)
    requires n * lo <= s <= n * hi && lo <= t <= hi
    ensures (n + 1.0) * lo <= s + t <= (n + 1.0) * hi
  {
    Distribute(n, 1.0, lo);
    Distribute(n, 1.0, hi);
  }

  lemma {:induction false} SumBetween(ts: seq<real>, lo: real, hi: real)
    requires forall t | t in ts :: lo <= t <= hi
    ensures |ts| as real * lo <= Sum(ts) <= |ts| as real * hi
  {
    if ts == [] {
      assert 0.0 * lo == 0.0 == 0.0 * hi;
    } else {
      var init, t := ts[..|ts| - 1], ts[|ts| - 1];
      assert forall u | u in init :: u in ts;
      assert t in ts;
      SumBetween(init, lo, hi);
      assert |ts| as real == |init| as real + 1.0;
      BoundStep(|init| as real, lo, Sum(init), t, hi);
    }
  }

  /** The running minimum and maximum are those of the list, unless all of it lies beyond the start
      values. */
  lemma {:induction false} MinMaxAreAttained(lo: real, hi: real, ts: seq<real>)
    ensures MinOf(lo, ts) <= lo && (MinOf(lo, ts) == lo || MinOf(lo, ts) in ts)
    ensures MaxOf(hi, ts) >= hi && (MaxOf(hi, ts) == hi || MaxOf(hi, ts) in ts)
    ensures forall t | t in ts :: MinOf(lo, ts) <= t <= MaxOf(hi, ts)
  {
    if ts != [] {
      MinMaxAreAttained(lo, hi, ts[..|ts| - 1]);
      assert ts == ts[..|ts| - 1] + [ts[|ts| - 1]];
    }
  }

  lemma MinMeanMax(lo: real, hi: real, ts: seq<real>)
    requires ts != []
    ensures MinOf(lo, ts) <= Mean(ts) <= MaxOf(hi, ts)
  {
    hide Mean, Sum, MinOf, MaxOf;
    MinMaxAreAttained(lo, hi, ts);
    SumBetween(ts, MinOf(lo, ts), MaxOf(hi, ts));
    MeanTimes(ts);
    MeanBounds(|ts| as real, Sum(ts), Mean(ts), MinOf(lo, ts), MaxOf(hi, ts));
  }

  // ---------------------------------------------------------------- zero()

  /** int(): truncation towards zero. */
  function Trunc(x: real): real { if x >= 0.0 then x.Floor as real else -((-x).Floor as real) }

  const EPSILON: real := 0.00000000000001

  function Zero(x: real): real {
    var ival := Trunc(x);
    if ival == x then ival
    else if x < 0.0 then
      var fraction := -x - Trunc(-x);
      if fraction >= EPSILON then Trunc(x) + fraction else Trunc(x)
    else
      var fraction := x - ival;
      if fraction >= EPSILON then ival + fraction else ival
  }

  /** On what the summary passes to it, zero() only drops a fraction below 1e-14. */
  lemma ZeroOfVariance(ts: seq<real>)
    requires ts != []
    ensures 0.0 <= Zero(Variance(ts)) <= Variance(ts) < Zero(Variance(ts)) + 0.00000000000001
  {
    VarianceIsMeanSquaredDistance(ts);
  }

  /** On negative numbers it would not: the fraction gets the wrong sign. It leaves a negative number
      alone exactly when that is whole. */
  lemma ZeroOfNegative(x: real)
    requires x < 0.0
    ensures Zero(x) == x <==> Trunc(x) == x
  {}

  // ---------------------------------------------------------------- durations as text

  datatype Unit = Seconds | Millis | Micros

  /** A number followed by its unit. */
  datatype Quantity = Quantity(value: real, unit: Unit)

  /** time_to_str. */
  method TimeToStr(t: real) returns (q: Quantity)
    ensures q == Str(t)
    ensures t < 0.001 ==> q == Quantity(1000000.0 * t, Micros)
    ensures 0.001 <= t < 1.0 ==> q == Quantity(1000.0 * t, Millis)
    ensures t >= 1.0 ==> q == Quantity(t, Seconds)
  {
    var secs, suffix := t, Seconds;
    if secs < 1.0 {
      secs := secs * 1000.0;
      suffix := Millis;
    }
    if secs < 1.0 {
      secs := secs * 1000.0;
      suffix := Micros;
    }
    q := Quantity(secs, suffix);
  }

  function Str(t: real): Quantity {
    if t < 0.001 then Quantity(1000000.0 * t, Micros)
    else if t < 1.0 then Quantity(1000.0 * t, Millis)
    else Quantity(t, Seconds)
  }

  /** str_to_millis. */
  function ToMillis(q: Quantity): real {
    match q.unit
    case Millis => q.value
    case Micros => q.value / 1000.0
    case Seconds => q.value * 1000.0
  }

  lemma StrRoundTrip(t: real)
    ensures ToMillis(Str(t)) == 1000.0 * t
  {}

  // ---------------------------------------------------------------- one client

  /** One line of measurements: did the request succeed, and how long did it take? */
  datatype Row = Row(ok: bool, time: real)

  datatype Summary = Summary(total: int, success: int, failed: int, min: real, max: real, mean: real, variance: real)

  function Times(rows: seq<Row>): seq<real> { seq(|rows|, i requires 0 <= i < |rows| => rows[i].time) }

  function Successes(rows: seq<Row>): nat {
    if rows == [] then 0 else Successes(rows[..|rows| - 1]) + if rows[|rows| - 1].ok then 1 else 0
  }

  lemma RowsSnoc(rows: seq<Row>, i: nat)
    requires i < |rows|
    ensures Times(rows[..i + 1]) == Times(rows[..i]) + [rows[i].time]
    ensures Times(rows[..i + 1])[..i] == Times(rows[..i])
    ensures Successes(rows[..i + 1]) == Successes(rows[..i]) + if rows[i].ok then 1 else 0
  {
    assert rows[..i + 1][..i] == rows[..i];
  }

  /** The numbers of the rows with this outcome. */
  function RowsWith(rows: seq<Row>, ok: bool): set<nat> { set i: nat | i < |rows| && rows[i].ok == ok }

  lemma {:induction false} CountRows(rows: seq<Row>)
    ensures |RowsWith(rows, true)| == Successes(rows)
    ensures |RowsWith(rows, false)| == |rows| - Successes(rows)
  {
    if rows != [] {
      var n := |rows| - 1;
      CountRows(rows[..n]);
      RowsWithSnoc(rows, true);
      RowsWithSnoc(rows, false);
    } else {
      assert RowsWith(rows, true) == {} && RowsWith(rows, false) == {};
    }
  }

  lemma RowsWithSnoc(rows: seq<Row>, ok: bool)
    requires rows != []
    ensures var n := |rows| - 1;
      |RowsWith(rows, ok)| == |RowsWith(rows[..n], ok)| + if rows[n].ok == ok then 1 else 0
  {
    var n := |rows| - 1;
    var before := RowsWith(rows[..n], ok);
    assert n !in before;
    assert RowsWith(rows, ok) == if rows[n].ok == ok then before + {n} else before;
  }

  /** The block that reads the rows. */
  method ReadRows(rows: seq<Row>, failed0: nat)
    returns (total: int, success: int, failed: int, reqMin: real, reqMax: real, req: real, reqSq: real, n: nat)
    ensures total == failed0 + Successes(rows) && success == Successes(rows)
    ensures failed == failed0 + |rows| - Successes(rows) && n == |rows|
    ensures reqMin == MinOf(HUGE, Times(rows)) && reqMax == MaxOf(BELOW, Times(rows))
    ensures req == Sum(Times(rows)) && reqSq == SumSquares(Times(rows))
  {
    hide Sq;
    total, success, failed := failed0, 0, failed0;
    reqMin, reqMax, req, reqSq, n := HUGE, BELOW, 0.0, 0.0, 0;
    for i := 0 to |rows|
      invariant total == failed0 + Successes(rows[..i]) && success == Successes(rows[..i])
      invariant failed == failed0 + i - Successes(rows[..i]) && n == i
      invariant reqMin == MinOf(HUGE, Times(rows[..i])) && reqMax == MaxOf(BELOW, Times(rows[..i]))
      invariant req == Sum(Times(rows[..i])) && reqSq == SumSquares(Times(rows[..i]))
    {
      RowsSnoc(rows, i);
      var ok, t := if rows[i].ok then 1 else 0, rows[i].time;
      total := total + ok;
      success := success + ok;
      failed := failed + (1 - ok);
      reqMin := if reqMin - t < 0.0 then reqMin else t;
      reqMax := if reqMax - t > 0.0 then reqMax else t;
      req := req + t;
      reqSq := reqSq + Sq(t);
      n := n + 1;
    }
    assert rows[..|rows|] == rows;
  }

  /** summarize-client-results.awk. `failed0` is passed in by the caller; total starts from it too. */
  method Summarize(rows: seq<Row>, failed0: nat) returns (s: Summary)
    requires rows != []
    ensures s == SummaryOf(rows, failed0)
    ensures s.success == |set i: nat | i < |rows| && rows[i].ok|
    ensures s.failed == failed0 + |set i: nat | i < |rows| && !rows[i].ok|
    ensures s.total == failed0 + s.success
    ensures forall i | 0 <= i < |rows| :: s.min <= rows[i].time <= s.max
    ensures s.min == 1000000000000000000000000.0 || exists i :: 0 <= i < |rows| && rows[i].time == s.min
    ensures s.max == -1.0 || exists i :: 0 <= i < |rows| && rows[i].time == s.max
    ensures s.min <= s.mean <= s.max && s.variance >= 0.0
    ensures s.mean == Ratio(Sum(Times(rows)), |rows|)
    ensures s.variance == Ratio(SquaredDistances(Times(rows), s.mean), |rows|)
  {
    hide Sq, Ratio, Sum, SumSquares, MinOf, MaxOf, SquaredDistances, Times, Successes;
    var total, success, failed, reqMin, reqMax, req, reqSq, n := ReadRows(rows, failed0);
    s := Summary(total, success, failed, reqMin, reqMax, Ratio(req, n), Ratio(reqSq, n) - Sq(Ratio(req, n)));
    assert |Times(rows)| == |rows| by { TimesOf(rows); }
    SummaryMeans(rows, failed0);
  }

  /** What the numbers of a summary are. */
  lemma SummaryMeans(rows: seq<Row>, failed0: nat)
    requires rows != []
    ensures var s := SummaryOf(rows, failed0);
      && s.success == |set i: nat | i < |rows| && rows[i].ok|
      && s.failed == failed0 + |set i: nat | i < |rows| && !rows[i].ok|
      && s.total == failed0 + s.success
      && (forall i | 0 <= i < |rows| :: s.min <= rows[i].time <= s.max)
      && (s.min == 1000000000000000000000000.0 || exists i :: 0 <= i < |rows| && rows[i].time == s.min)
      && (s.max == -1.0 || exists i :: 0 <= i < |rows| && rows[i].time == s.max)
      && s.min <= s.mean <= s.max && s.variance >= 0.0
      && s.mean == Ratio(Sum(Times(rows)), |rows|)
      && s.variance == Ratio(SquaredDistances(Times(rows), s.mean), |rows|)
  {
    hide *;
    SummaryParts(rows, failed0);
    CountsMean(rows);
    TimesOf(rows);
    ExtremesMean(rows, Times(rows));
    MeansMean(Times(rows));
  }

  lemma SummaryParts(rows: seq<Row>, failed0: nat)
    requires rows != []
    ensures var s, ts := SummaryOf(rows, failed0), Times(rows);
      && s.total == failed0 + s.success && s.success == Successes(rows)
      && s.failed == failed0 + |rows| - Successes(rows)
      && ts != [] && s.min == MinOf(HUGE, ts) && s.max == MaxOf(BELOW, ts) && s.mean == Mean(ts)
      && s.variance == Variance(ts)
  {}

  lemma CountsMean(rows: seq<Row>)
    ensures Successes(rows) == |set i: nat | i < |rows| && rows[i].ok|
    ensures |rows| - Successes(rows) == |set i: nat | i < |rows| && !rows[i].ok|
  {
    CountRows(rows);
    hide Successes;
    assert (set i: nat | i < |rows| && rows[i].ok) == RowsWith(rows, true);
    assert (set i: nat | i < |rows| && !rows[i].ok) == RowsWith(rows, false);
  }

  lemma ExtremesMean(rows: seq<Row>, ts: seq<real>)
    requires |ts| == |rows| && forall i | 0 <= i < |rows| :: ts[i] == rows[i].time
    ensures forall i | 0 <= i < |rows| :: MinOf(HUGE, ts) <= rows[i].time <= MaxOf(BELOW, ts)
    ensures MinOf(HUGE, ts) == 1000000000000000000000000.0
      || exists i :: 0 <= i < |rows| && rows[i].time == MinOf(HUGE, ts)
    ensures MaxOf(BELOW, ts) == -1.0 || exists i :: 0 <= i < |rows| && rows[i].time == MaxOf(BELOW, ts)
  {
    hide MinOf, MaxOf;
    MinMaxAreAttained(HUGE, BELOW, ts);
    assert forall i | 0 <= i < |rows| :: ts[i] in ts;
  }

  lemma MeansMean(ts: seq<real>)
    requires ts != []
    ensures MinOf(HUGE, ts) <= Mean(ts) <= MaxOf(BELOW, ts) && Variance(ts) >= 0.0
    ensures Mean(ts) == Ratio(Sum(ts), |ts|)
    ensures Variance(ts) == Ratio(SquaredDistances(ts, Mean(ts)), |ts|)
  {
    hide Sum, MinOf, MaxOf, SquaredDistances, Variance, Ratio;
    MinMeanMax(HUGE, BELOW, ts);
    VarianceIsMeanSquaredDistance(ts);
  }

  lemma TimesOf(rows: seq<Row>)
    ensures |Times(rows)| == |rows|
    ensures forall i | 0 <= i < |rows| :: Times(rows)[i] == rows[i].time && rows[i].time in Times(rows)
    ensures forall t | t in Times(rows) :: exists i :: 0 <= i < |rows| && rows[i].time == t
  {
    assert forall i | 0 <= i < |rows| :: Times(rows)[i] in Times(rows);
  }

  function SummaryOf(rows: seq<Row>, failed0: nat): Summary
    requires rows != []
  {
    var ts := Times(rows);
    Summary(failed0 + Successes(rows), Successes(rows), failed0 + |rows| - Successes(rows),
            MinOf(HUGE, ts), MaxOf(BELOW, ts), Mean(ts), Variance(ts))
  }

  // ---------------------------------------------------------------- all clients

  /** One line of client summaries, as printed. */
  datatype Client = Client(total: int, success: int, failed: int, min: Quantity, max: Quantity, mean: Quantity)

  datatype Merged = Merged(total: int, success: int, failed: int, min: real, max: real, weighted: real)

  function Printed(s: Summary): Client {
    Client(s.total, s.success, s.failed, Str(s.min), Str(s.max), Str(s.mean))
  }

  function Mins(cs: seq<Client>): seq<real> { seq(|cs|, i requires 0 <= i < |cs| => ToMillis(cs[i].min)) }
  function Maxs(cs: seq<Client>): seq<real> { seq(|cs|, i requires 0 <= i < |cs| => ToMillis(cs[i].max)) }
  function Contribution(c: Client): real { ToMillis(c.mean) * c.total as real }
  function Weighted(cs: seq<Client>): seq<real> {
    seq(|cs|, i requires 0 <= i < |cs| => Contribution(cs[i]))
  }

  function Total(cs: seq<Client>): int { if cs == [] then 0 else Total(cs[..|cs| - 1]) + cs[|cs| - 1].total }
  function Success(cs: seq<Client>): int { if cs == [] then 0 else Success(cs[..|cs| - 1]) + cs[|cs| - 1].success }
  function Failed(cs: seq<Client>): int { if cs == [] then 0 else Failed(cs[..|cs| - 1]) + cs[|cs| - 1].failed }

  /** summarize-client-totals.awk without its header lines; minimum, maximum and weighted sum in
      milliseconds. The printed mean is the weighted sum over the total; for a total of 0 there is none, because
      awk stops at a division by zero. */
  method Merge(cs: seq<Client>) returns (m: Merged, mean: Option<real>)
    ensures m == MergedOf(cs)
    ensures mean == PrintedMean(m)
  {
    hide Contribution, ToMillis;
    var total, success, failed := 0, 0, 0;
    var reqMin, reqMax, reqAvgTotal := HUGE, BELOW, 0.0;
    for i := 0 to |cs|
      invariant total == Total(cs[..i]) && success == Success(cs[..i]) && failed == Failed(cs[..i])
      invariant reqMin == MinOf(HUGE, Mins(cs[..i])) && reqMax == MaxOf(BELOW, Maxs(cs[..i]))
      invariant reqAvgTotal == Sum(Weighted(cs[..i]))
    {
      ClientsSnoc(cs, i);
      var min, max := ToMillis(cs[i].min), ToMillis(cs[i].max);
      total := total + cs[i].total;
      success := success + cs[i].success;
      failed := failed + cs[i].failed;
      reqMin := if reqMin - min < 0.0 then reqMin else min;
      reqMax := if reqMax - max > 0.0 then reqMax else max;
      reqAvgTotal := reqAvgTotal + Contribution(cs[i]);
    }
    assert cs[..|cs|] == cs;
    m := Merged(total, success, failed, reqMin, reqMax, reqAvgTotal);
    mean := if total == 0 then None else Some(reqAvgTotal / total as real);
  }

  function PrintedMean(m: Merged): Option<real> {
    if m.total == 0 then None else Some(m.weighted / m.total as real)
  }

  function MergedOf(cs: seq<Client>): Merged {
    Merged(Total(cs), Success(cs), Failed(cs), MinOf(HUGE, Mins(cs)), MaxOf(BELOW, Maxs(cs)), Sum(Weighted(cs)))
  }

  lemma ClientsSnoc(cs: seq<Client>, i: nat)
    requires i < |cs|
    ensures cs[..i + 1][..i] == cs[..i]
    ensures Mins(cs[..i + 1])[..i] == Mins(cs[..i]) && Mins(cs[..i + 1])[i] == ToMillis(cs[i].min)
    ensures Maxs(cs[..i + 1])[..i] == Maxs(cs[..i]) && Maxs(cs[..i + 1])[i] == ToMillis(cs[i].max)
    ensures Weighted(cs[..i + 1])[..i] == Weighted(cs[..i])
    ensures Weighted(cs[..i + 1])[i] == Contribution(cs[i])
  {
    forall k | 0 <= k < i
      ensures Weighted(cs[..i + 1])[k] == Weighted(cs[..i])[k]
    {}
  }

  // ---------------------------------------------------------------- the merge against all requests

  /** The measurements of one client. */
  datatype Run = Run(rows: seq<Row>, failed0: nat)

  predicate NonEmptyRuns(runs: seq<Run>) { forall r | r in runs :: r.rows != [] }

  function Clients(runs: seq<Run>): (cs: seq<Client>)
    requires NonEmptyRuns(runs)
  {
    seq(|runs|, i requires 0 <= i < |runs| => Printed(SummaryOf(runs[i].rows, runs[i].failed0)))
  }

  function AllTimes(runs: seq<Run>): seq<real> {
    if runs == [] then [] else AllTimes(runs[..|runs| - 1]) + Times(runs[|runs| - 1].rows)
  }

  function Min2(a: real, b: real): real { if b < a then b else a }
  function Max2(a: real, b: real): real { if b > a then b else a }

  lemma {:induction false} ConcatStats(a: seq<real>, b: seq<real>, lo: real, hi: real)
    ensures Sum(a + b) == Sum(a) + Sum(b)
    ensures MinOf(lo, a + b) == Min2(MinOf(lo, a), MinOf(lo, b))
    ensures MaxOf(hi, a + b) == Max2(MaxOf(hi, a), MaxOf(hi, b))
  {
    MinMaxAreAttained(lo, hi, a);
    if b == [] {
      assert a + b == a;
    } else {
      assert (a + b)[..|a + b| - 1] == a + b[..|b| - 1];
      ConcatStats(a, b[..|b| - 1], lo, hi);
    }
  }

  function Weight(mean: real, total: int): real { 1000.0 * mean * total as real }

  /** The effect of one more client on the merge. */
  function Extend(m: Merged, s: Summary): Merged {
    Merged(m.total + s.total, m.success + s.success, m.failed + s.failed,
           Min2(m.min, 1000.0 * s.min), Max2(m.max, 1000.0 * s.max), m.weighted + Weight(s.mean, s.total))
  }

  lemma MergedSnoc(cs: seq<Client>, s: Summary)
    ensures MergedOf(cs + [Printed(s)]) == Extend(MergedOf(cs), s)
  {
    var ds := cs + [Printed(s)];
    assert ds[..|cs|] == cs && ds[..|cs| + 1] == ds;
    hide Str, ToMillis;
    ClientsSnoc(ds, |cs|);
    StrRoundTrip(s.min);
    StrRoundTrip(s.max);
    StrRoundTrip(s.mean);
    assert Total(ds) == Total(cs) + s.total && Success(ds) == Success(cs) + s.success;
    assert Failed(ds) == Failed(cs) + s.failed;
    assert |Mins(ds)| == |Maxs(ds)| == |Weighted(ds)| == |cs| + 1;
    assert Weighted(ds)[|cs|] == Weight(s.mean, s.total);
    hide Mins, Maxs, Weighted, Weight, Total, Success, Failed, Sum, MinOf, MaxOf, Min2, Max2;
    LastOf(Mins(cs), Mins(ds));
    LastOf(Maxs(cs), Maxs(ds));
    LastOf(Weighted(cs), Weighted(ds));
  }

  lemma LastOf(a: seq<real>, b: seq<real>)
    requires |b| == |a| + 1 && b[..|a|] == a
    ensures MinOf(HUGE, b) == Min2(MinOf(HUGE, a), b[|a|])
    ensures MaxOf(BELOW, b) == Max2(MaxOf(BELOW, a), b[|a|])
    ensures Sum(b) == Sum(a) + b[|a|]
  {}

  lemma ClientsStep(runs: seq<Run>)
    requires runs != [] && NonEmptyRuns(runs)
    ensures NonEmptyRuns(runs[..|runs| - 1])
    ensures var last := runs[|runs| - 1];
      MergedOf(Clients(runs)) == Extend(MergedOf(Clients(runs[..|runs| - 1])), SummaryOf(last.rows, last.failed0))
  {
    var init, last := runs[..|runs| - 1], runs[|runs| - 1];
    var s := SummaryOf(last.rows, last.failed0);
    hide MergedOf, Printed, SummaryOf, Extend;
    assert Clients(runs) == Clients(init) + [Printed(s)];
    MergedSnoc(Clients(init), s);
  }

  lemma NoClients()
    ensures MergedOf(Clients([])) == Merged(0, 0, 0, HUGE, BELOW, 0.0)
    ensures Sum([]) == 0.0 && MinOf(HUGE, []) == HUGE && MaxOf(BELOW, []) == BELOW
  {}

  /** Seconds to milliseconds, up to the start values of the merge. */
  function LowMillis(t: real): real { Min2(HUGE, 1000.0 * t) }
  function HighMillis(t: real): real { Max2(BELOW, 1000.0 * t) }

  lemma AllTimesStep(runs: seq<Run>)
    requires runs != []
    ensures AllTimes(runs) == AllTimes(runs[..|runs| - 1]) + Times(runs[|runs| - 1].rows)
  {
    hide Times;
  }

  lemma RunsNonEmpty(runs: seq<Run>)
    requires NonEmptyRuns(runs)
    ensures forall r | r in runs :: r.rows != []
  {}

  lemma NoExtremes()
    ensures MergedOf(Clients([])).min == LowMillis(MinOf(HUGE, AllTimes([])))
    ensures MergedOf(Clients([])).max == HighMillis(MaxOf(BELOW, AllTimes([])))
  {
    NoClients();
  }

  /** Whatever failed, the merged minimum and maximum are those of all requests of all clients, in
      milliseconds, up to the start values of the script. */
  lemma {:induction false} MergedExtremes(runs: seq<Run>)
    requires NonEmptyRuns(runs)
    ensures MergedOf(Clients(runs)).min == LowMillis(MinOf(HUGE, AllTimes(runs)))
    ensures MergedOf(Clients(runs)).max == HighMillis(MaxOf(BELOW, AllTimes(runs)))
  {
    RunsNonEmpty(runs);
    hide *;
    if runs == [] {
      NoExtremes();
    } else {
      var init, last := runs[..|runs| - 1], runs[|runs| - 1];
      AllTimesStep(runs);
      assert last in runs;
      ClientsStep(runs);
      MergedExtremes(init);
      SummaryExtremes(last);
      ConcatStats(AllTimes(init), Times(last.rows), HUGE, BELOW);
      ExtendExtremes(MergedOf(Clients(init)), SummaryOf(last.rows, last.failed0),
                     MinOf(HUGE, AllTimes(init)), MaxOf(BELOW, AllTimes(init)));
    }
  }

  lemma ExtendExtremes(m: Merged, s: Summary, lo: real, hi: real)
    requires m.min == LowMillis(lo) && m.max == HighMillis(hi)
    ensures Extend(m, s).min == LowMillis(Min2(lo, s.min))
    ensures Extend(m, s).max == HighMillis(Max2(hi, s.max))
  {}

  lemma SummaryExtremes(r: Run)
    requires r.rows != []
    ensures SummaryOf(r.rows, r.failed0).min == MinOf(HUGE, Times(r.rows))
    ensures SummaryOf(r.rows, r.failed0).max == MaxOf(BELOW, Times(r.rows))
  {}

  // ---------------------------------------------------------------- the merged counts

  /** The rows of all clients with this outcome, by client and row. */
  function RowsOfAll(runs: seq<Run>, ok: bool): set<(nat, nat)> {
    set i: nat, j: nat | i < |runs| && j < |runs[i].rows| && runs[i].rows[j].ok == ok :: (i, j)
  }

  function GivenFailed(runs: seq<Run>): nat {
    if runs == [] then 0 else GivenFailed(runs[..|runs| - 1]) + runs[|runs| - 1].failed0
  }

  function Numbered(n: nat, js: set<nat>): set<(nat, nat)> { set j: nat | j in js :: (n, j) }

  lemma {:induction false} NumberedSize(n: nat, js: set<nat>)
    ensures |Numbered(n, js)| == |js|
    decreases js
  {
    if js == {} {
      assert Numbered(n, js) == {};
    } else {
      var j :| j in js;
      NumberedSize(n, js - {j});
      assert (n, j) !in Numbered(n, js - {j});
      assert Numbered(n, js) == Numbered(n, js - {j}) + {(n, j)};
    }
  }

  lemma AllSnoc(runs: seq<Run>, ok: bool)
    requires runs != []
    ensures var n := |runs| - 1;
      |RowsOfAll(runs, ok)| == |RowsOfAll(runs[..n], ok)| + |RowsWith(runs[n].rows, ok)|
  {
    var n := |runs| - 1;
    var a, b := RowsOfAll(runs[..n], ok), Numbered(n, RowsWith(runs[n].rows, ok));
    NumberedSize(n, RowsWith(runs[n].rows, ok));
    assert a !! b;
    assert RowsOfAll(runs, ok) == a + b;
  }

  lemma LastCounts(r: Run)
    requires r.rows != []
    ensures SummaryOf(r.rows, r.failed0).success == |RowsWith(r.rows, true)|
    ensures SummaryOf(r.rows, r.failed0).failed == r.failed0 + |RowsWith(r.rows, false)|
  {
    CountRows(r.rows);
    hide Successes, Mean, Variance, MinOf, MaxOf, RowsWith;
  }

  /** The merged counts are those of all rows of all clients, and what was given as failed. */
  lemma {:induction false} MergedCounts(runs: seq<Run>)
    requires NonEmptyRuns(runs)
    ensures var m := MergedOf(Clients(runs));
      && m.success == |RowsOfAll(runs, true)| && m.failed == GivenFailed(runs) + |RowsOfAll(runs, false)|
      && m.total == GivenFailed(runs) + m.success
  {
    if runs == [] {
      NoClients();
      assert RowsOfAll(runs, true) == {} && RowsOfAll(runs, false) == {};
    } else {
      hide SummaryOf, Clients, MergedOf, Weight, Min2, Max2, RowsOfAll, RowsWith;
      var init, last := runs[..|runs| - 1], runs[|runs| - 1];
      assert last in runs;
      ClientsStep(runs);
      MergedCounts(init);
      AllSnoc(runs, true);
      AllSnoc(runs, false);
      LastCounts(last);
      SummaryMeans(last.rows, last.failed0);
    }
  }

  /** Both scripts, one after the other: each client is summarised and printed, and the lines are merged. */
  method MergeAll(runs: seq<Run>) returns (m: Merged, mean: Option<real>)
    requires NonEmptyRuns(runs)
    ensures m.success == |set i: nat, j: nat | i < |runs| && j < |runs[i].rows| && runs[i].rows[j].ok :: (i, j)|
    ensures m.failed == GivenFailed(runs)
      + |set i: nat, j: nat | i < |runs| && j < |runs[i].rows| && !runs[i].rows[j].ok :: (i, j)|
    ensures m.total == GivenFailed(runs) + m.success
    ensures m == MergedOf(Clients(runs)) && mean == PrintedMean(m)
  {
    hide SummaryOf, MergedOf, Printed, PrintedMean, GivenFailed;
    var cs: seq<Client> := [];
    for i := 0 to |runs|
      invariant cs == Clients(runs)[..i]
    {
      assert runs[i] in runs;
      var s := Summarize(runs[i].rows, runs[i].failed0);
      var c := Line(s);
      cs := cs + [c];
    }
    assert cs == Clients(runs);
    m, mean := Merge(cs);
    MergedCounts(runs);
    assert (set i: nat, j: nat | i < |runs| && j < |runs[i].rows| && runs[i].rows[j].ok :: (i, j))
        == RowsOfAll(runs, true);
    assert (set i: nat, j: nat | i < |runs| && j < |runs[i].rows| && !runs[i].rows[j].ok :: (i, j))
        == RowsOfAll(runs, false);
  }

  /** The line printed for one client. */
  method Line(s: Summary) returns (c: Client)
    ensures c == Printed(s)
    ensures c.total == s.total && c.success == s.success && c.failed == s.failed
  {
    var min := TimeToStr(s.min);
    var max := TimeToStr(s.max);
    var mean := TimeToStr(s.mean);
    c := Client(s.total, s.success, s.failed, min, max, mean);
  }

  // ---------------------------------------------------------------- the merged mean

  /** How often the merge counts a client: failures given from outside, and rows that succeeded. */
  function Counted(r: Run): nat { r.failed0 + Successes(r.rows) }

  /** How far that is from the number of its requests. */
  function Excess(r: Run): int { Counted(r) - |r.rows| }

  function ClientMean(r: Run): real { if r.rows == [] then 0.0 else Mean(Times(r.rows)) }

  function CountedAll(runs: seq<Run>): nat {
    if runs == [] then 0 else CountedAll(runs[..|runs| - 1]) + Counted(runs[|runs| - 1])
  }

  function ExcessAll(runs: seq<Run>): int {
    if runs == [] then 0 else ExcessAll(runs[..|runs| - 1]) + Excess(runs[|runs| - 1])
  }

  function Times2(n: int, x: real): real { n as real * x }

  /** The clients' means, each as often as the merge counts it. */
  function CountedMeans(runs: seq<Run>): real {
    if runs == [] then 0.0
    else CountedMeans(runs[..|runs| - 1]) + Times2(Counted(runs[|runs| - 1]), ClientMean(runs[|runs| - 1]))
  }

  /** The clients' means, each as often as the merge counts it too much. */
  function ExcessMeans(runs: seq<Run>): real {
    if runs == [] then 0.0
    else ExcessMeans(runs[..|runs| - 1]) + Times2(Excess(runs[|runs| - 1]), ClientMean(runs[|runs| - 1]))
  }

  lemma SummaryCounts(r: Run)
    requires r.rows != []
    ensures SummaryOf(r.rows, r.failed0).total == Counted(r)
    ensures Weight(SummaryOf(r.rows, r.failed0).mean, Counted(r)) == 1000.0 * Times2(Counted(r), ClientMean(r))
  {
    hide Mean, Times, Successes, Variance, MinOf, MaxOf;
    WeightIs(ClientMean(r), Counted(r));
  }

  lemma WeightIs(mean: real, n: int)
    ensures Weight(mean, n) == 1000.0 * Times2(n, mean)
  {}

  lemma {:induction false} MergedSums(runs: seq<Run>)
    requires NonEmptyRuns(runs)
    ensures MergedOf(Clients(runs)).total == CountedAll(runs)
    ensures MergedOf(Clients(runs)).weighted == 1000.0 * CountedMeans(runs)
  {
    if runs == [] {
      NoClients();
    } else {
      hide SummaryOf, Counted, ClientMean, Clients, MergedOf, Weight, Times2, Min2, Max2;
      var init, last := runs[..|runs| - 1], runs[|runs| - 1];
      assert last in runs;
      ClientsStep(runs);
      MergedSums(init);
      SummaryCounts(last);
    }
  }

  lemma MeanOfClient(r: Run)
    requires r.rows != []
    ensures Times2(Counted(r), ClientMean(r)) == Sum(Times(r.rows)) + Times2(Excess(r), ClientMean(r))
  {
    hide Sum, Mean, Successes;
    MeanTimes(Times(r.rows));
    Distribute(|r.rows| as real, Excess(r) as real, ClientMean(r));
  }

  lemma {:induction false} SumsAndExcess(runs: seq<Run>)
    requires NonEmptyRuns(runs)
    ensures CountedAll(runs) == |AllTimes(runs)| + ExcessAll(runs)
    ensures CountedMeans(runs) == Sum(AllTimes(runs)) + ExcessMeans(runs)
    ensures runs != [] ==> AllTimes(runs) != []
  {
    if runs != [] {
      var init, last := runs[..|runs| - 1], runs[|runs| - 1];
      assert last in runs && forall r | r in init :: r in runs;
      SumsAndExcess(init);
      MeanOfClient(last);
      assert |Times(last.rows)| == |last.rows|;
      hide Sum, Times, Counted, ClientMean, Times2, MinOf, MaxOf, Min2, Max2;
      ConcatStats(AllTimes(init), Times(last.rows), HUGE, BELOW);
    }
  }

  lemma QuotientsAgree(s: real, k: real, n: nat, e: int)
    requires n > 0 && n + e > 0
    ensures (1000.0 * (s + k)) / (n + e) as real == 1000.0 * (s / n as real) <==> k == e as real * (s / n as real)
  {
    var m, a, t := s / n as real, n as real, (n + e) as real;
    var x := (s + k) / t;
    assert s == a * m && s + k == t * x;
    assert (1000.0 * (s + k)) / t == 1000.0 * x by { DivideBack(1000.0 * x, t, 1000.0 * (s + k)); }
    assert t == a + e as real;
    Distribute(a, e as real, m);
    assert t * m == s + e as real * m;
    if t * x == t * m {
      Cancel(t, x, m);
      Cancel(t, m, x);
    }
  }

  lemma DivideBack(x: real, t: real, y: real)
    requires t > 0.0 && y == x * t
    ensures y / t == x
  {}

  /** The printed mean is the mean of all requests of all clients, in milliseconds. */
  ghost predicate MeanIsExact(runs: seq<Run>)
    requires NonEmptyRuns(runs)
  {
    AllTimes(runs) != [] && PrintedMean(MergedOf(Clients(runs))) == Some(1000.0 * Mean(AllTimes(runs)))
  }

  /** Exactly when the merge is right, for all clients: the total, when the excesses add up to 0; the
      mean, when the means weighted with the excesses add up to what they would if all were equal. */
  lemma MergeIsExact(runs: seq<Run>)
    requires runs != [] && NonEmptyRuns(runs)
    ensures AllTimes(runs) != []
    ensures MergedOf(Clients(runs)).total == |AllTimes(runs)| <==> ExcessAll(runs) == 0
    ensures CountedAll(runs) > 0 ==>
      (MeanIsExact(runs) <==> ExcessMeans(runs) == Times2(ExcessAll(runs), Mean(AllTimes(runs))))
  {
    hide MergedOf, Clients, CountedAll, CountedMeans, ExcessAll, ExcessMeans, Sum, AllTimes, NonEmptyRuns;
    MergedSums(runs);
    SumsAndExcess(runs);
    if CountedAll(runs) > 0 {
      QuotientsAgree(Sum(AllTimes(runs)), ExcessMeans(runs), |AllTimes(runs)|, ExcessAll(runs));
    }
  }

  /** The script divides by zero exactly when no request of any client succeeded and none was given as
      failed. */
  lemma {:induction false} NoMeanPrinted(runs: seq<Run>)
    requires NonEmptyRuns(runs)
    ensures PrintedMean(MergedOf(Clients(runs))).None? <==>
      forall r | r in runs :: r.failed0 == 0 && Successes(r.rows) == 0
  {
    MergedSums(runs);
    NothingCounted(runs);
  }

  lemma {:induction false} NothingCounted(runs: seq<Run>)
    ensures CountedAll(runs) == 0 <==> forall r | r in runs :: Counted(r) == 0
  {
    if runs != [] {
      var init, last := runs[..|runs| - 1], runs[|runs| - 1];
      NothingCounted(init);
      assert runs == init + [last];
      assert last in runs;
      hide Counted;
    }
  }

  /** As many rows failed as were given as failed from outside; in particular nothing failed. */
  predicate Balanced(runs: seq<Run>) {
    forall r | r in runs :: r.rows != [] && r.failed0 == |r.rows| - Successes(r.rows)
  }

  lemma {:induction false} BalancedExcess(runs: seq<Run>)
    requires Balanced(runs)
    ensures NonEmptyRuns(runs) && ExcessAll(runs) == 0 && ExcessMeans(runs) == 0.0
  {
    if runs != [] {
      var last := runs[|runs| - 1];
      assert last in runs;
      BalancedExcess(runs[..|runs| - 1]);
      assert Excess(last) == 0;
      assert Times2(0, ClientMean(last)) == 0.0;
    }
  }

  /** When the failures balance for every client, and so when all requests succeed, the printed total and
      mean are those of all requests. */
  lemma BalancedIsExact(runs: seq<Run>)
    requires runs != [] && Balanced(runs)
    ensures NonEmptyRuns(runs) && MeanIsExact(runs)
    ensures MergedOf(Clients(runs)).total == |AllTimes(runs)|
  {
    BalancedExcess(runs);
    SumsAndExcess(runs);
    hide CountedAll, ExcessAll, ExcessMeans, MergedOf, MeanIsExact, AllTimes, Clients, Balanced, NonEmptyRuns, Mean;
    MergeIsExact(runs);
  }

  // ---------------------------------------------------------------- whatever the times

  /** The same requests with the same outcomes, measured differently. */
  ghost predicate SameShape(a: seq<Run>, b: seq<Run>) {
    |a| == |b| && forall i | 0 <= i < |a| :: SameOutcomes(a[i], b[i])
  }

  ghost predicate SameOutcomes(a: Run, b: Run) {
    && a.failed0 == b.failed0 && |a.rows| == |b.rows|
    && forall k | 0 <= k < |a.rows| :: a.rows[k].ok == b.rows[k].ok
  }

  lemma {:induction false} SameSuccesses(a: seq<Row>, b: seq<Row>)
    requires |a| == |b| && forall k | 0 <= k < |a| :: a[k].ok == b[k].ok
    ensures Successes(a) == Successes(b)
  {
    if a != [] {
      SameSuccesses(a[..|a| - 1], b[..|b| - 1]);
    }
  }

  /** Every client is counted in the same proportion to its requests. */
  ghost predicate Proportional(runs: seq<Run>) {
    forall i, j | 0 <= i < |runs| && 0 <= j < |runs| ::
      Counted(runs[i]) * |runs[j].rows| == Counted(runs[j]) * |runs[i].rows|
  }

  function Product(a: int, b: int): int { a * b }

  /** Counted against rows: that of client r as that of all the runs. */
  ghost predicate Typical(runs: seq<Run>, r: Run) {
    Product(Counted(r), |AllTimes(runs)|) == Product(CountedAll(runs), |r.rows|)
  }

  lemma {:induction false} ProportionalToAll(runs: seq<Run>, r: Run)
    requires forall i | 0 <= i < |runs| :: Product(Counted(r), |runs[i].rows|) == Product(Counted(runs[i]), |r.rows|)
    ensures Typical(runs, r)
  {
    if runs != [] {
      var init, last := runs[..|runs| - 1], runs[|runs| - 1];
      assert forall i | 0 <= i < |init| :: init[i] == runs[i];
      ProportionalToAll(init, r);
      hide Counted;
      assert |AllTimes(runs)| == |AllTimes(init)| + |last.rows|;
      assert last == runs[|runs| - 1];
      ProductSum(Counted(r), |AllTimes(init)|, |last.rows|);
      ProductSum2(CountedAll(init), Counted(last), |r.rows|);
    }
  }

  lemma ProductSum(a: int, b: int, c: int)
    ensures Product(a, b + c) == Product(a, b) + Product(a, c)
  {}

  lemma ProductSum2(a: int, b: int, c: int)
    ensures Product(a + b, c) == Product(a, c) + Product(b, c)
  {}

  lemma CrossCancel(a: int, b: int, x: int, y: int, t: int, n: int)
    requires n > 0 && Product(a, n) == Product(t, x) && Product(b, n) == Product(t, y)
    ensures Product(a, y) == Product(b, x)
  {
    assert (a * y) * n == (a * n) * y == (t * x) * y;
    assert (b * x) * n == (b * n) * x == (t * y) * x;
    assert (t * x) * y == (t * y) * x;
    SameFactor(a * y, b * x, n);
  }

  lemma SameFactor(x: int, y: int, n: int)
    requires n > 0 && x * n == y * n
    ensures x == y
  {
    assert (x - y) * n == 0;
  }

  /** If the first runs are typical of some list of runs, so is their weighted sum. */
  lemma {:induction false} TypicalMeans(runs: seq<Run>, all: seq<Run>)
    requires NonEmptyRuns(runs) && forall r | r in runs :: Typical(all, r)
    ensures Times2(|AllTimes(all)|, CountedMeans(runs)) == Times2(CountedAll(all), Sum(AllTimes(runs)))
  {
    hide Sum, Times, Counted, CountedAll, ClientMean, MinOf, MaxOf, Min2, Max2, Times2, Product;
    var n, t := |AllTimes(all)|, CountedAll(all);
    if runs == [] {
      NoClients();
      Times2Zero(n);
      Times2Zero(t);
    } else {
      var init, last := runs[..|runs| - 1], runs[|runs| - 1];
      assert last in runs && forall r | r in init :: r in runs;
      TypicalMeans(init, all);
      assert Typical(all, last);
      ClientSum(last);
      ConcatStats(AllTimes(init), Times(last.rows), HUGE, BELOW);
      TypicalMean(Counted(last), n, t, |last.rows|, ClientMean(last));
      Times2Sum(n, CountedMeans(init), Times2(Counted(last), ClientMean(last)));
      Times2Sum(t, Sum(AllTimes(init)), Sum(Times(last.rows)));
      hide Typical;
    }
  }

  lemma ClientSum(r: Run)
    requires r.rows != []
    ensures Sum(Times(r.rows)) == Times2(|r.rows|, ClientMean(r))
  {
    MeanTimes(Times(r.rows));
  }

  lemma Times2Zero(n: int)
    ensures Times2(n, 0.0) == 0.0
  {}

  lemma Times2Sum(n: int, x: real, y: real)
    ensures Times2(n, x + y) == Times2(n, x) + Times2(n, y)
  {}

  lemma TypicalMean(c: int, n: int, t: int, rows: int, m: real)
    requires Product(c, n) == Product(t, rows)
    ensures Times2(n, Times2(c, m)) == Times2(t, Times2(rows, m))
  {
    assert n as real * c as real == (n * c) as real;
    assert t as real * rows as real == (t * rows) as real;
  }

  lemma ExactMeansTypical(w: real, t: int, s: real, n: int)
    requires t > 0 && n > 0
    ensures (1000.0 * w) / t as real == 1000.0 * (s / n as real) <==> Times2(n, w) == Times2(t, s)
  {
    var a, b := t as real, n as real;
    var x, y := w / a, s / b;
    assert w == a * x && s == b * y;
    assert (1000.0 * w) / a == 1000.0 * x by { DivideBack(1000.0 * x, a, 1000.0 * w); }
    assert Times2(n, w) == (a * b) * x by { assert b * (a * x) == (a * b) * x; }
    assert Times2(t, s) == (a * b) * y by { assert a * (b * y) == (a * b) * y; }
    if (a * b) * x == (a * b) * y {
      assert a * b > 0.0;
      Cancel(a * b, x, y);
      Cancel(a * b, y, x);
    }
  }

  lemma MeanIsExactWhen(runs: seq<Run>)
    requires runs != [] && NonEmptyRuns(runs) && CountedAll(runs) > 0
    ensures MeanIsExact(runs) <==>
      Times2(|AllTimes(runs)|, CountedMeans(runs)) == Times2(CountedAll(runs), Sum(AllTimes(runs)))
  {
    hide MergedOf, Clients, CountedAll, CountedMeans, ExcessAll, ExcessMeans, Sum, AllTimes, NonEmptyRuns, Times2;
    MergedSums(runs);
    SumsAndExcess(runs);
    ExactMeansTypical(CountedMeans(runs), CountedAll(runs), Sum(AllTimes(runs)), |AllTimes(runs)|);
  }

  lemma {:induction false} SameCounts(a: seq<Run>, b: seq<Run>)
    requires SameShape(a, b)
    ensures CountedAll(a) == CountedAll(b) && |AllTimes(a)| == |AllTimes(b)|
    ensures NonEmptyRuns(b) ==> NonEmptyRuns(a)
    ensures forall i | 0 <= i < |a| :: Counted(a[i]) == Counted(b[i]) && |a[i].rows| == |b[i].rows|
  {
    forall i | 0 <= i < |a|
      ensures Counted(a[i]) == Counted(b[i]) && |a[i].rows| == |b[i].rows|
    {
      assert SameOutcomes(a[i], b[i]);
      SameSuccesses(a[i].rows, b[i].rows);
    }
    hide Counted, SameOutcomes;
    if NonEmptyRuns(b) {
      forall r | r in a ensures r.rows != [] {
        var i :| 0 <= i < |a| && a[i] == r;
        assert b[i] in b;
      }
    }
    if a != [] {
      SameCounts(a[..|a| - 1], b[..|b| - 1]);
    }
  }

  /** One client took a second for each request and the others no time at all. */
  function OnlySlow(runs: seq<Run>, i: nat): seq<Run> {
    seq(|runs|, k requires 0 <= k < |runs| => Constant(runs[k], if k == i then 1.0 else 0.0))
  }

  function Constant(r: Run, t: real): Run {
    Run(seq(|r.rows|, k requires 0 <= k < |r.rows| => Row(r.rows[k].ok, t)), r.failed0)
  }

  lemma {:induction false} ConstantSum(ts: seq<real>, t: real)
    requires forall u | u in ts :: u == t
    ensures Sum(ts) == Times2(|ts|, t)
  {
    if ts != [] {
      var init := ts[..|ts| - 1];
      assert ts[|ts| - 1] in ts && forall u | u in init :: u in ts;
      ConstantSum(init, t);
      Distribute(|init| as real, 1.0, t);
      assert |ts| as real == |init| as real + 1.0;
    }
  }

  lemma ConstantClient(r: Run, t: real)
    requires r.rows != []
    ensures ClientMean(Constant(r, t)) == t && Sum(Times(Constant(r, t).rows)) == Times2(|r.rows|, t)
    ensures SameOutcomes(Constant(r, t), r) && Counted(Constant(r, t)) == Counted(r)
  {
    var c := Constant(r, t);
    assert SameOutcomes(c, r);
    SameSuccesses(c.rows, r.rows);
    var ts := Times(c.rows);
    assert forall u | u in ts :: u == t;
    ConstantSum(ts, t);
    hide Sum;
    DivideBack(t, |ts| as real, Sum(ts));
  }

  lemma {:induction false} OnlySlowSums(runs: seq<Run>, i: nat)
    requires NonEmptyRuns(runs)
    ensures SameShape(OnlySlow(runs, i), runs)
    ensures CountedMeans(OnlySlow(runs, i)) == if i < |runs| then Counted(runs[i]) as real else 0.0
    ensures Sum(AllTimes(OnlySlow(runs, i))) == if i < |runs| then |runs[i].rows| as real else 0.0
  {
    hide Counted, SameOutcomes, Constant, Times, ClientMean, Sum, MinOf, MaxOf, Min2, Max2;
    forall k | 0 <= k < |runs| ensures SameOutcomes(OnlySlow(runs, i)[k], runs[k]) {
      assert runs[k] in runs;
      ConstantClient(runs[k], if k == i then 1.0 else 0.0);
    }
    if runs == [] {
      NoClients();
    } else {
      var n := |runs| - 1;
      var init, last := runs[..n], runs[n];
      var t := if n == i then 1.0 else 0.0;
      var slow := OnlySlow(runs, i);
      assert last in runs && forall r | r in init :: r in runs;
      OnlySlowSums(init, i);
      assert slow[..n] == OnlySlow(init, i) && slow[n] == Constant(last, t);
      ConstantClient(last, t);
      ConcatStats(AllTimes(slow[..n]), Times(slow[n].rows), HUGE, BELOW);
    }
  }

  /** The printed mean is right whatever the times are exactly when every client is counted in the
      same proportion to its requests. */
  lemma ExactForAllTimes(runs: seq<Run>)
    requires runs != [] && NonEmptyRuns(runs) && CountedAll(runs) > 0
    ensures (forall other | SameShape(other, runs) :: NonEmptyRuns(other) && MeanIsExact(other)) <==> Proportional(runs)
  {
    if Proportional(runs) {
      forall other | SameShape(other, runs) ensures NonEmptyRuns(other) && MeanIsExact(other) {
        ProportionalIsExact(other, runs);
      }
    }
    if forall other | SameShape(other, runs) :: NonEmptyRuns(other) && MeanIsExact(other) {
      forall i, j | 0 <= i < |runs| && 0 <= j < |runs|
        ensures Counted(runs[i]) * |runs[j].rows| == Counted(runs[j]) * |runs[i].rows|
      {
        ExactIsTypical(runs, i);
        ExactIsTypical(runs, j);
        SumsAndExcess(runs);
        CrossCancel(Counted(runs[i]), Counted(runs[j]), |runs[i].rows|, |runs[j].rows|,
                    CountedAll(runs), |AllTimes(runs)|);
      }
    }
  }

  lemma ProportionalIsExact(other: seq<Run>, runs: seq<Run>)
    requires runs != [] && NonEmptyRuns(runs) && CountedAll(runs) > 0
    requires Proportional(runs) && SameShape(other, runs)
    ensures NonEmptyRuns(other) && MeanIsExact(other)
  {
    SameCounts(other, runs);
    hide Counted, SameShape, CountedAll, AllTimes, MeanIsExact;
    forall r | r in other ensures Typical(other, r) {
      var i :| 0 <= i < |other| && other[i] == r;
      forall k | 0 <= k < |other|
        ensures Product(Counted(r), |other[k].rows|) == Product(Counted(other[k]), |r.rows|)
      {
        assert Counted(runs[i]) * |runs[k].rows| == Counted(runs[k]) * |runs[i].rows|;
      }
      ProportionalToAll(other, r);
    }
    hide Proportional, Typical;
    TypicalMeans(other, other);
    MeanIsExactWhen(other);
  }

  lemma ExactIsTypical(runs: seq<Run>, i: nat)
    requires runs != [] && NonEmptyRuns(runs) && CountedAll(runs) > 0 && i < |runs|
    requires forall other | SameShape(other, runs) :: NonEmptyRuns(other) && MeanIsExact(other)
    ensures Typical(runs, runs[i])
  {
    var slow := OnlySlow(runs, i);
    OnlySlowSums(runs, i);
    SameCounts(slow, runs);
    MeanIsExactWhen(slow);
    hide Counted, CountedAll, AllTimes, MeanIsExact, SameShape, OnlySlow, CountedMeans, Sum;
    WholeProducts(|AllTimes(runs)|, Counted(runs[i]), CountedAll(runs), |runs[i].rows|);
  }

  lemma WholeProducts(n: int, c: int, t: int, rows: int)
    requires Times2(n, c as real) == Times2(t, rows as real)
    ensures Product(c, n) == Product(t, rows)
  {
    assert n as real * c as real == (n * c) as real;
    assert t as real * rows as real == (t * rows) as real;
  }

  /** A case in which the mean is wrong: two requests of 1 s and 3 s, the second failed, and one request
      of 5 s on another client give 3500 ms, although the mean is 3 s. */
  lemma FailuresSkewTheMean()
    ensures var runs := [Run([Row(true, 1.0), Row(false, 3.0)], 0), Run([Row(true, 5.0)], 0)];
      && NonEmptyRuns(runs)
      && MergedOf(Clients(runs)).weighted == 7000.0 && MergedOf(Clients(runs)).total == 2
      && Sum(AllTimes(runs)) == 9.0 && |AllTimes(runs)| == 3
  {
    var a, b := Run([Row(true, 1.0), Row(false, 3.0)], 0), Run([Row(true, 5.0)], 0);
    var runs := [a, b];
    TwoRequests();
    OneRequest();
    hide Sum, Times, SummaryOf, MergedOf, Clients, Weight;
    assert runs[..1] == [a] && [a][..0] == [];
    assert AllTimes([a]) == Times(a.rows) by {
      assert [] + Times(a.rows) == Times(a.rows);
    }
    assert AllTimes(runs) == Times(a.rows) + Times(b.rows);
    ConcatStats(Times(a.rows), Times(b.rows), HUGE, BELOW);
    ClientsStep([a]);
    ClientsStep(runs);
    NoClients();
  }

  lemma TwoRequests()
    ensures var rows := [Row(true, 1.0), Row(false, 3.0)];
      && Sum(Times(rows)) == 4.0 && |Times(rows)| == 2
      && SummaryOf(rows, 0).total == 1 && Weight(SummaryOf(rows, 0).mean, 1) == 2000.0
  {
    var rows := [Row(true, 1.0), Row(false, 3.0)];
    assert rows[..1] == [Row(true, 1.0)];
    assert Times(rows)[..1] == [1.0] && [1.0][..0] == [];
    assert Sum([1.0]) == 1.0;
    assert Successes(rows[..1]) == 1;
  }

  lemma OneRequest()
    ensures var rows := [Row(true, 5.0)];
      && Sum(Times(rows)) == 5.0 && |Times(rows)| == 1
      && SummaryOf(rows, 0).total == 1 && Weight(SummaryOf(rows, 0).mean, 1) == 5000.0
  {
    assert [Row(true, 5.0)][..0] == [];
  }
}
