/**
 * Splitting a channel into periods: the period boundaries (`create_period_index`), the
 * window slicer (`slice_dataframe_by_index`), the circadian-time index
 * (`create_ct_based_index`) and their composition per channel and per table
 * (`split_dataframe_by_period`, `split_entire_dataframe`).
 *
 * Timestamps and durations are integer milliseconds.
 */
module Periods {
  import opened Wrappers
  import opened Frame
  import opened Arith

  const Hour: int := 3_600_000

  /** "24H 0T", the period used when none is given. */
  const DefaultPeriod: int := 24 * Hour

  /** "24H 0M", the circadian period used when none is given. */
  const DefaultCtPeriod: int := 24 * Hour

  /** An optional duration argument: absent, or a positive number of milliseconds. */
  predicate ValidDuration(d: Option<int>) {
    d.None? || d.value > 0
  }

  // ----- create_period_index -----

  /** `pd.date_range(start, end, freq=p)` for a fixed frequency: start, start + p, ... while <= end. */
  function DateRange(start: int, end: int, p: int): seq<int>
    requires p > 0
  {
    if end < start then [] else seq((end - start) / p + 1, (k: int) => start + k * p)
  }

  /**
   * `create_period_index`: boundaries a period apart from the first to the last timestamp.
   * The first boundary is the first timestamp, and the last lies within one period before the
   * last timestamp.
   */
  function PeriodIndex(index: seq<int>, period: Option<int>): (r: seq<int>)
    requires |index| > 0 && ValidDuration(period)
    ensures r == [] <==> index[0] > index[|index| - 1]
    ensures r != [] ==> r[0] == index[0]
    ensures r != [] ==> r[|r| - 1] <= index[|index| - 1] < r[|r| - 1] + DurationOr(period, DefaultPeriod)
  {
    var p := DurationOr(period, DefaultPeriod);
    var b := DateRange(index[0], index[|index| - 1], p);
    assert b != [] ==> b[|b| - 1] <= index[|index| - 1] < b[|b| - 1] + p by {
      if index[0] <= index[|index| - 1] {
        DateRangeLast(index[0], index[|index| - 1], p);
      }
    }
    b
  }

  /** The last element of a date range: the largest start + k p that does not pass `end`. */
  lemma DateRangeLast(start: int, end: int, p: int)
    requires p > 0 && start <= end
    ensures var b := DateRange(start, end, p);
      b[|b| - 1] <= end < b[|b| - 1] + p
  {
    var q := (end - start) / p;
    assert end - start == q * p + (end - start) % p;
    assert (q + 1) * p == q * p + p;
  }

  /**
   * A date range from `start` to `end >= start` starts at `start`, steps by exactly `p`, stays
   * within [start, end], and holds every step that fits: one more would pass `end`.
   */
  lemma DateRangeSpec(start: int, end: int, p: int)
    requires p > 0 && start <= end
    ensures var b := DateRange(start, end, p);
      && |b| >= 1
      && b[0] == start
      && (forall k :: 0 <= k < |b| - 1 ==> b[k + 1] == b[k] + p)
      && (forall k :: 0 <= k < |b| ==> start <= b[k] <= end)
      && b[|b| - 1] + p > end
      && StrictlyIncreasing(b)
  {
    var b := DateRange(start, end, p);
    DateRangeLast(start, end, p);
    forall k | 0 <= k < |b| - 1
      ensures b[k + 1] == b[k] + p
    {
      assert (k + 1) * p == k * p + p;
    }
    forall k | 0 <= k < |b|
      ensures start <= b[k] <= end
    {
      MulMonotone(0, k, p);
      MulMonotone(k, |b| - 1, p);
    }
    forall i, j | 0 <= i < j < |b|
      ensures b[i] < b[j]
    {
      MulStrict(i, j, p);
    }
  }

  /**
   * The boundaries start at the first timestamp, step by exactly the period (24 hours when none
   * is given), never pass the last timestamp, and are all the steps that fit: one more would.
   */
  lemma PeriodIndexSpec(index: seq<int>, period: Option<int>)
    requires |index| > 0 && StrictlyIncreasing(index) && ValidDuration(period)
    ensures var b := PeriodIndex(index, period);
      var p := DurationOr(period, DefaultPeriod);
      var end := index[|index| - 1];
      && |b| >= 1
      && b[0] == index[0]
      && (forall k :: 0 <= k < |b| - 1 ==> b[k + 1] == b[k] + p)
      && (forall k :: 0 <= k < |b| ==> index[0] <= b[k] <= end)
      && b[|b| - 1] + p > end
      && StrictlyIncreasing(b)
  {
    if |index| > 1 {
      assert index[0] < index[|index| - 1];
    }
    DateRangeSpec(index[0], index[|index| - 1], DurationOr(period, DefaultPeriod));
  }

  // ----- slice_dataframe_by_index -----

  /**
   * The rows column i of the sliced table takes: `.loc[b_i:b_(i+1)]`, the closed window between
   * two consecutive boundaries, or `.loc[b_last:]` for the last boundary.
   */
  function SegmentPositions(times: seq<int>, bounds: seq<int>, i: nat): seq<nat>
    requires i < |bounds|
  {
    if i + 1 < |bounds| then WindowPositions(times, bounds[i], bounds[i + 1])
    else TailPositions(times, bounds[i])
  }

  /**
   * Segment i holds, in time order, exactly the samples whose timestamp lies in the closed
   * interval [b_i, b_(i+1)]; the last segment exactly the samples at or after the last boundary.
   */
  lemma SegmentPositionsSpec(times: seq<int>, bounds: seq<int>, i: nat)
    requires i < |bounds|
    ensures var ps := SegmentPositions(times, bounds, i);
      && AscendingBelow(ps, |times|)
      && (forall k: nat :: k < |times| ==>
            (k in ps <==> bounds[i] <= times[k] && (i + 1 < |bounds| ==> times[k] <= bounds[i + 1])))
  {
    if i + 1 < |bounds| {
      WindowPositionsSpec(times, bounds[i], bounds[i + 1]);
    } else {
      TailPositionsSpec(times, bounds[i]);
    }
  }

  /** The samples of segment i, in time order. */
  function Segment(times: seq<int>, values: seq<Cell>, bounds: seq<int>, i: nat): seq<Cell>
    requires |times| == |values| && i < |bounds|
  {
    SegmentPositionsSpec(times, bounds, i);
    Pick(values, SegmentPositions(times, bounds, i))
  }

  /** The segments of the first `n` boundaries, in boundary order. */
  function SegmentsUpTo(times: seq<int>, values: seq<Cell>, bounds: seq<int>, n: nat): seq<seq<Cell>>
    requires |times| == |values| && n <= |bounds|
  {
    if n == 0 then [] else SegmentsUpTo(times, values, bounds, n - 1) + [Segment(times, values, bounds, n - 1)]
  }

  /** The list of segments `slice_dataframe_by_index` builds, one per boundary. */
  function Segments(times: seq<int>, values: seq<Cell>, bounds: seq<int>): seq<seq<Cell>>
    requires |times| == |values|
  {
    SegmentsUpTo(times, values, bounds, |bounds|)
  }

  /** The list holds one segment per boundary, segment i at place i. */
  lemma {:induction false} SegmentsUpToAt(times: seq<int>, values: seq<Cell>, bounds: seq<int>, n: nat)
    requires |times| == |values| && n <= |bounds|
    ensures |SegmentsUpTo(times, values, bounds, n)| == n
    ensures forall i :: 0 <= i < n ==> SegmentsUpTo(times, values, bounds, n)[i] == Segment(times, values, bounds, i)
  {
    if n > 0 {
      SegmentsUpToAt(times, values, bounds, n - 1);
      assert SegmentsUpTo(times, values, bounds, n)
        == SegmentsUpTo(times, values, bounds, n - 1) + [Segment(times, values, bounds, n - 1)];
    }
  }

  /** The length of the longest segment (0 when there are none). */
  function MaxLength(segs: seq<seq<Cell>>): (r: nat)
    ensures forall i :: 0 <= i < |segs| ==> |segs[i]| <= r
    ensures segs == [] ==> r == 0
    ensures segs != [] ==> exists i :: 0 <= i < |segs| && |segs[i]| == r
  {
    if segs == [] then 0
    else
      var m := MaxLength(segs[..|segs| - 1]);
      if |segs[|segs| - 1]| > m then |segs[|segs| - 1]| else m
  }

  /** `s` followed by missing markers up to length `n`. */
  function Pad(s: seq<Cell>, n: nat): seq<Cell>
    requires |s| <= n
  {
    s + seq(n - |s|, _ => Missing)
  }

  /**
   * `pd.DataFrame(segments).T`: one column per segment, every column as long as the longest
   * segment, holding its segment followed by NaN.
   */
  function AsColumns(segs: seq<seq<Cell>>): (cols: seq<seq<Cell>>)
    ensures |cols| == |segs|
    ensures forall i :: 0 <= i < |segs| ==> |cols[i]| == MaxLength(segs) && cols[i][..|segs[i]|] == segs[i]
    ensures forall i, r :: 0 <= i < |segs| && |segs[i]| <= r < |cols[i]| ==> cols[i][r] == Missing
  {
    seq(|segs|, (i: int) requires 0 <= i < |segs| => Pad(segs[i], MaxLength(segs)))
  }

  /**
   * `slice_dataframe_by_index`: appends the closed window of every pair of consecutive boundaries,
   * then everything from the last boundary on, and lays the list out as padded columns.
   */
  method SliceByIndex(times: seq<int>, values: seq<Cell>, bounds: seq<int>) returns (columns: seq<seq<Cell>>)
    requires |times| == |values| && |bounds| > 0
    ensures columns == AsColumns(Segments(times, values, bounds))
  {
    var byDay: seq<seq<Cell>> := [];
    for i := 0 to |bounds| - 1
      invariant byDay == SegmentsUpTo(times, values, bounds, i)
    {
      WindowPositionsSpec(times, bounds[i], bounds[i + 1]);
      var dayData := Pick(values, WindowPositions(times, bounds[i], bounds[i + 1]));
      byDay := byDay + [dayData];
    }
    TailPositionsSpec(times, bounds[|bounds| - 1]);
    var finalDayData := Pick(values, TailPositions(times, bounds[|bounds| - 1]));
    byDay := byDay + [finalDayData];
    columns := AsColumns(byDay);
  }

  /**
   * The sliced table has one column per boundary, all as long as the longest segment; each
   * column is its segment followed by missing markers.
   */
  lemma SliceShape(times: seq<int>, values: seq<Cell>, bounds: seq<int>)
    requires |times| == |values|
    ensures var segs := Segments(times, values, bounds);
      var cols := AsColumns(segs);
      && |cols| == |bounds|
      && (forall i :: 0 <= i < |cols| ==> |cols[i]| == MaxLength(segs))
      && (forall i :: 0 <= i < |cols| ==> cols[i][..|segs[i]|] == segs[i])
      && (forall i, r :: 0 <= i < |cols| && |segs[i]| <= r < |cols[i]| ==> cols[i][r] == Missing)
  {
    SegmentsUpToAt(times, values, bounds, |bounds|);
  }

  /**
   * Because the windows are closed, a sample lying exactly on an inner boundary b_(i+1) is
   * taken by both column i and column i + 1.
   */
  lemma BoundarySampleInTwoColumns(times: seq<int>, bounds: seq<int>, i: nat, k: nat)
    requires StrictlyIncreasing(bounds) && i + 1 < |bounds| && k < |times| && times[k] == bounds[i + 1]
    ensures k in SegmentPositions(times, bounds, i) && k in SegmentPositions(times, bounds, i + 1)
  {
    SegmentPositionsSpec(times, bounds, i);
    SegmentPositionsSpec(times, bounds, i + 1);
  }

  /** How many of 0, ..., n - 1 lie in [a, b). */
  function CountBelow(n: nat, a: nat, b: nat): nat
    requires a <= b
  {
    if n <= a then 0 else if n <= b then n - a else b - a
  }

  /** A filter that keeps exactly the positions of [a, b) keeps CountBelow(n, a, b) of the first n. */
  lemma {:induction false} CountInterval(f: Filter, n: nat, a: nat, b: nat)
    requires a <= b
    requires forall k: nat :: k < n ==> (Keeps(f, k) <==> a <= k < b)
    ensures |Positions(f, n)| == CountBelow(n, a, b)
  {
    if n > 0 {
      CountInterval(f, n - 1, a, b);
    }
  }

  /** On a regular series, comparing timestamps is comparing sample numbers. */
  lemma RegularCompare(t0: int, s: int, k: int, a: int)
    requires s > 0
    ensures t0 + a * s <= t0 + k * s <==> a <= k
  {
    MulLeCancel(a, k, s);
  }

  /** A date range over L samples spaced s apart, stepping m samples, falls on every m-th sample. */
  lemma RegularDateRange(t0: int, L: nat, s: int, m: int)
    requires L > 0 && s > 0 && m > 0
    ensures var b := DateRange(t0, t0 + (L - 1) * s, m * s);
      && |b| == (L - 1) / m + 1
      && (|b| - 1) * m <= L - 1
      && forall i :: 0 <= i < |b| ==> b[i] == t0 + (i * m) * s
  {
    MulMonotone(1, m, s);
    DivScale(L - 1, m, s);
    var q := (L - 1) / m;
    assert q * m <= L - 1 by {
      assert L - 1 == q * m + (L - 1) % m;
    }
    var b := DateRange(t0, t0 + (L - 1) * s, m * s);
    forall i | 0 <= i < |b|
      ensures b[i] == t0 + (i * m) * s
    {
      assert i * (m * s) == (i * m) * s;
    }
  }

  /** The boundaries of a regular series sliced every m samples fall on every m-th sample. */
  lemma RegularBounds(times: seq<int>, s: int, m: int)
    requires |times| > 0 && s > 0 && m > 0
    requires forall k :: 0 <= k < |times| ==> times[k] == times[0] + k * s
    ensures var bounds := PeriodIndex(times, Some(m * s));
      && |bounds| == (|times| - 1) / m + 1
      && (|bounds| - 1) * m <= |times| - 1
      && forall i :: 0 <= i < |bounds| ==> bounds[i] == times[0] + (i * m) * s
  {
    var L := |times|;
    assert times[L - 1] == times[0] + (L - 1) * s;
    assert PeriodIndex(times, Some(m * s)) == DateRange(times[0], times[0] + (L - 1) * s, m * s);
    RegularDateRange(times[0], L, s, m);
  }

  /** On a regular series, an inner window [b_i, b_(i+1)] holds the m + 1 samples from i m to (i + 1) m. */
  lemma RegularInnerSegment(times: seq<int>, values: seq<Cell>, s: int, m: int, i: nat)
    requires |times| == |values| > 0 && s > 0 && m > 0
    requires forall k :: 0 <= k < |times| ==> times[k] == times[0] + k * s
    requires i + 1 < |PeriodIndex(times, Some(m * s))|
    ensures |Segment(times, values, PeriodIndex(times, Some(m * s)), i)| == m + 1
  {
    var L := |times|;
    var t0 := times[0];
    RegularBounds(times, s, m);
    var bounds := PeriodIndex(times, Some(m * s));
    var n := |bounds|;
    MulMonotone(i + 1, n - 1, m);
    var f := Window(times, bounds[i], bounds[i + 1]);
    forall k: nat | k < L
      ensures Keeps(f, k) <==> i * m <= k < (i + 1) * m + 1
    {
      RegularCompare(t0, s, k, i * m);
      RegularCompare(t0, s, (i + 1) * m, k);
    }
    CountInterval(f, L, i * m, (i + 1) * m + 1);
  }

  /** On a regular series, the last segment holds the samples from (N - 1) m on. */
  lemma RegularLastSegment(times: seq<int>, values: seq<Cell>, s: int, m: int)
    requires |times| == |values| > 0 && s > 0 && m > 0
    requires forall k :: 0 <= k < |times| ==> times[k] == times[0] + k * s
    ensures var bounds := PeriodIndex(times, Some(m * s));
      |bounds| > 0 && |Segment(times, values, bounds, |bounds| - 1)| == |times| - (|bounds| - 1) * m
  {
    var L := |times|;
    var t0 := times[0];
    RegularBounds(times, s, m);
    var bounds := PeriodIndex(times, Some(m * s));
    var j := |bounds| - 1;
    var f := From(times, bounds[j]);
    forall k: nat | k < L
      ensures Keeps(f, k) <==> j * m <= k < L
    {
      RegularCompare(t0, s, k, j * m);
    }
    CountInterval(f, L, j * m, L);
  }

  /**
   * A regular series of L samples spaced s apart, sliced with a period of m samples, gives
   * (L - 1) / m + 1 columns; every column but the last holds m + 1 samples (both boundaries),
   * and the last holds the remaining L - (columns - 1) * m.
   */
  lemma RegularSeriesShape(times: seq<int>, values: seq<Cell>, s: int, m: int)
    requires |times| == |values| > 0 && s > 0 && m > 0
    requires forall k :: 0 <= k < |times| ==> times[k] == times[0] + k * s
    ensures var bounds := PeriodIndex(times, Some(m * s));
      && |bounds| == (|times| - 1) / m + 1
      && (forall i :: 0 <= i < |bounds| - 1 ==> |Segment(times, values, bounds, i)| == m + 1)
      && |Segment(times, values, bounds, |bounds| - 1)| == |times| - (|bounds| - 1) * m
  {
    RegularBounds(times, s, m);
    var bounds := PeriodIndex(times, Some(m * s));
    forall i | 0 <= i < |bounds| - 1
      ensures |Segment(times, values, bounds, i)| == m + 1
    {
      RegularInnerSegment(times, values, s, m, i);
    }
    RegularLastSegment(times, values, s, m);
  }

  /** Twelve hours of 10-second samples cut every six hours: two segments, the first one longer. */
  lemma SixHourSegments(times: seq<int>, values: seq<Cell>)
    requires |times| == |values| == 4320
    requires forall k :: 0 <= k < |times| ==> times[k] == times[0] + k * 10_000
    ensures var segs := Segments(times, values, PeriodIndex(times, Some(6 * Hour)));
      |segs| == 2 && |segs[0]| == 2161 && |segs[1]| == 2160
  {
    assert Some(6 * Hour) == Some(2160 * 10_000);
    RegularSeriesShape(times, values, 10_000, 2160);
    var bounds := PeriodIndex(times, Some(6 * Hour));
    SegmentsUpToAt(times, values, bounds, |bounds|);
  }

  /**
   * 4320 samples 10 seconds apart (12 hours) sliced with a 6-hour period give two columns,
   * but not of 2160 samples each: the sample at exactly 6 hours is in both, so the first
   * column has 2161 samples, the table has 2161 rows, and the second column ends in NaN.
   */
  lemma SixHourSlicesOfTwelveHours(times: seq<int>, values: seq<Cell>)
    requires |times| == |values| == 4320
    requires forall k :: 0 <= k < |times| ==> times[k] == times[0] + k * 10_000
    ensures var segs := Segments(times, values, PeriodIndex(times, Some(6 * Hour)));
      var cols := AsColumns(segs);
      && |cols| == 2
      && |segs[0]| == 2161 && |segs[1]| == 2160
      && MaxLength(segs) == 2161
      && |cols[0]| == |cols[1]| == 2161
      && cols[1][2160] == Missing
  {
    SixHourSegments(times, values);
    var segs := Segments(times, values, PeriodIndex(times, Some(6 * Hour)));
    assert MaxLength(segs) == 2161;
  }

  // ----- create_ct_based_index -----

  /** Python's `round` applied to the exact ratio num / den: nearest integer, ties to even. */
  function RoundHalfEven(num: nat, den: nat): nat
    requires den > 0
  {
    var q, r := num / den, num % den;
    if 2 * r < den then q
    else if 2 * r > den then q + 1
    else if q % 2 == 0 then q
    else q + 1
  }

  /** Rounding lands within half a unit of the exact ratio. */
  lemma RoundHalfEvenNearest(num: nat, den: nat)
    requires den > 0
    ensures -(den as int) <= 2 * (RoundHalfEven(num, den) * den - num) <= den
  {
    var q, r := num / den, num % den;
    assert num == q * den + r;
    assert (q + 1) * den == q * den + den;
  }

  /** The rounded ratio is positive exactly when the ratio exceeds one half. */
  lemma RoundHalfEvenPositive(num: nat, den: nat)
    requires den > 0
    ensures RoundHalfEven(num, den) > 0 <==> 2 * num > den
  {
    DivModNat(num, den);
    var q, r := num / den, num % den;
    assert num == q * den + r;
    if q > 0 {
      MulMonotone(1, q, den);
    }
  }

  /**
   * The tick of the circadian index in milliseconds: `int(CT / n)` whole seconds plus the
   * rounded millisecond remainder, computed exactly. The remainder in milliseconds is
   * (ct mod 1000 n) / n. Whole seconds carry no rounding, so the step is CT / rows rounded to
   * the nearest millisecond; it rounds to zero exactly when CT / rows is at most half a
   * millisecond.
   */
  function CtStep(ct: nat, rows: nat): (step: nat)
    requires rows > 0
    ensures -(rows as int) <= 2 * (step * rows - ct) <= rows
    ensures step > 0 <==> 2 * ct > rows
  {
    var unit := 1000 * rows;
    DivModNat(ct, unit);
    WholeSecondsPlusMillis(ct, rows);
    1000 * (ct / unit) + RoundHalfEven(ct % unit, rows)
  }

  /** The arithmetic behind `CtStep`: the split into whole seconds and milliseconds rounds only once. */
  lemma WholeSecondsPlusMillis(ct: nat, rows: nat)
    requires rows > 0
    ensures var unit := 1000 * rows;
      var step := 1000 * (ct / unit) + RoundHalfEven(ct % unit, rows);
      && -(rows as int) <= 2 * (step * rows - ct) <= rows
      && (step > 0 <==> 2 * ct > rows)
  {
    var unit := 1000 * rows;
    DivModNat(ct, unit);
    var wholeSeconds := ct / unit;
    var millis := RoundHalfEven(ct % unit, rows);
    var step := 1000 * wholeSeconds + millis;
    assert ct == wholeSeconds * unit + ct % unit;
    RoundHalfEvenNearest(ct % unit, rows);
    assert step * rows == wholeSeconds * unit + millis * rows by {
      assert (1000 * wholeSeconds + millis) * rows == (1000 * wholeSeconds) * rows + millis * rows;
      assert (1000 * wholeSeconds) * rows == wholeSeconds * (1000 * rows);
    }
    if wholeSeconds == 0 {
      assert ct % unit == ct;
      RoundHalfEvenPositive(ct, rows);
    } else {
      MulMonotone(1, wholeSeconds, unit);
    }
  }

  /**
   * Whether the step rounds to at least one millisecond. A zero step gives the frequency
   * "0S 0ms", from which `pd.timedelta_range` cannot build a range.
   */
  predicate CtStepFits(rows: nat, ct: Option<int>) {
    2 * DurationOr(ct, DefaultCtPeriod) > rows
  }

  /**
   * `create_ct_based_index`: one tick per row, starting at 0, evenly spaced by the step (24
   * hours by default for CT), so increasing.
   */
  function CtIndex(rows: nat, ct: Option<int>): (idx: seq<int>)
    requires rows > 0 && ValidDuration(ct) && CtStepFits(rows, ct)
    ensures |idx| == rows && idx[0] == 0
    ensures forall k :: 0 <= k < rows - 1 ==> idx[k + 1] - idx[k] == CtStep(DurationOr(ct, DefaultCtPeriod), rows)
    ensures StrictlyIncreasing(idx)
  {
    var step := CtStep(DurationOr(ct, DefaultCtPeriod), rows);
    var idx := seq(rows, (k: int) => k * step);
    assert forall k :: 0 <= k < rows - 1 ==> idx[k + 1] - idx[k] == step by {
      forall k | 0 <= k < rows - 1
        ensures idx[k + 1] - idx[k] == step
      {
        assert (k + 1) * step == k * step + step;
      }
    }
    assert StrictlyIncreasing(idx) by {
      forall i, j | 0 <= i < j < rows
        ensures idx[i] < idx[j]
      {
        MulStrict(i, j, step);
      }
    }
    idx
  }

  // ----- split_dataframe_by_period / split_entire_dataframe -----

  /** One channel cut into periods: circadian index, day-numbered columns, the channel's name. */
  datatype PeriodTable = PeriodTable(index: seq<int>, days: seq<int>, columns: seq<seq<Cell>>, name: Cell)

  /** The first segment always holds the first sample, so the sliced table has rows. */
  lemma FirstSegmentHoldsFirstSample(times: seq<int>, values: seq<Cell>, period: Option<int>)
    requires |times| == |values| > 0 && StrictlyIncreasing(times) && ValidDuration(period)
    ensures var segs := Segments(times, values, PeriodIndex(times, period));
      |segs| > 0 && MaxLength(segs) > 0
  {
    var bounds := PeriodIndex(times, period);
    PeriodIndexSpec(times, period);
    SegmentPositionsSpec(times, bounds, 0);
    assert 0 in SegmentPositions(times, bounds, 0);
    SegmentsUpToAt(times, values, bounds, |bounds|);
    var segs := Segments(times, values, bounds);
    assert |segs[0]| > 0;
  }

  /** The number of rows of channel `col` sliced into periods: the length of its longest segment. */
  function SlicedRows(data: Table, col: nat, period: Option<int>): nat
    requires WellFormed(data) && |data.index| > 0 && col < |data.columns| && ValidDuration(period)
  {
    assert data.columns[col] in data.columns;
    MaxLength(Segments(data.index, data.columns[col].cells, PeriodIndex(data.index, period)))
  }

  /** What `split_dataframe_by_period` returns for channel `col`. */
  function PeriodSplit(data: Table, col: nat, period: Option<int>, ct: Option<int>): PeriodTable
    requires WellFormed(data) && |data.index| > 0 && col < |data.columns|
    requires ValidDuration(period) && ValidDuration(ct) && CtStepFits(SlicedRows(data, col, period), ct)
  {
    assert data.columns[col] in data.columns;
    var segs := Segments(data.index, data.columns[col].cells, PeriodIndex(data.index, period));
    FirstSegmentHoldsFirstSample(data.index, data.columns[col].cells, period);
    var columns := AsColumns(segs);
    PeriodTable(CtIndex(MaxLength(segs), ct), Range(0, |columns|), columns, Text(data.columns[col].name))
  }

  /**
   * `split_dataframe_by_period`: boundaries from the table's index, the chosen channel sliced
   * by them, the circadian index assigned, columns renamed 0..N-1, the channel's name as tag.
   */
  method SplitByPeriod(data: Table, animalNumber: int, period: Option<int>, ct: Option<int>)
    returns (split: PeriodTable)
    requires WellFormed(data) && |data.index| > 0 && ValidColumnIndex(|data.columns|, animalNumber)
    requires ValidDuration(period) && ValidDuration(ct)
    requires CtStepFits(SlicedRows(data, ResolveColumn(|data.columns|, animalNumber), period), ct)
    ensures split == PeriodSplit(data, ResolveColumn(|data.columns|, animalNumber), period, ct)
    ensures split.name == Text(data.columns[ResolveColumn(|data.columns|, animalNumber)].name)
  {
    var col := ResolveColumn(|data.columns|, animalNumber);
    assert data.columns[col] in data.columns;
    var periodBasedIndex := PeriodIndex(data.index, period);
    var series := data.columns[col].cells;
    var sliced := SliceByIndex(data.index, series, periodBasedIndex);
    PeriodSplitOfSliced(data, col, period, ct, sliced);
    var rows := |sliced[0]|;
    var newIndex := CtIndex(rows, ct);
    var numberOfDays := |sliced|;
    split := PeriodTable(newIndex, Range(0, numberOfDays), sliced, Text(data.columns[col].name));
  }

  /** The split of a channel, in terms of the sliced columns: they are not empty, nor is the first. */
  lemma PeriodSplitOfSliced(data: Table, col: nat, period: Option<int>, ct: Option<int>, sliced: seq<seq<Cell>>)
    requires WellFormed(data) && |data.index| > 0 && col < |data.columns|
    requires ValidDuration(period) && ValidDuration(ct) && CtStepFits(SlicedRows(data, col, period), ct)
    requires |data.columns[col].cells| == |data.index|
    requires sliced == AsColumns(Segments(data.index, data.columns[col].cells, PeriodIndex(data.index, period)))
    ensures |sliced| > 0 && |sliced[0]| > 0
    ensures PeriodSplit(data, col, period, ct) == PeriodTable(CtIndex(|sliced[0]|, ct), Range(0, |sliced|), sliced, Text(data.columns[col].name))
  {
    var segs := Segments(data.index, data.columns[col].cells, PeriodIndex(data.index, period));
    FirstSegmentHoldsFirstSample(data.index, data.columns[col].cells, period);
  }

  /** `split_entire_dataframe`: every channel split in turn, each tagged with its column name. */
  method SplitEntireTable(data: Table, period: Option<int>, ct: Option<int>) returns (splits: seq<PeriodTable>)
    requires WellFormed(data) && (|data.columns| > 0 ==> |data.index| > 0)
    requires ValidDuration(period) && ValidDuration(ct)
    requires forall j :: 0 <= j < |data.columns| ==> CtStepFits(SlicedRows(data, j, period), ct)
    ensures |splits| == |data.columns|
    ensures forall j :: 0 <= j < |splits| ==> splits[j] == PeriodSplit(data, j, period, ct)
  {
    splits := [];
    for num := 0 to |data.columns|
      invariant |splits| == num
      invariant forall j :: 0 <= j < num ==> splits[j] == PeriodSplit(data, j, period, ct)
    {
      assert ResolveColumn(|data.columns|, num) == num;
      assert CtStepFits(SlicedRows(data, num, period), ct);
      var split := SplitByPeriod(data, num, period, ct);
      var renamed := split.(name := Text(data.columns[num].name));
      assert renamed == split == PeriodSplit(data, num, period, ct);
      splits := splits + [renamed];
    }
  }

  /**
   * A split channel has one column per boundary numbered 0..N-1, one circadian tick per row
   * (at least one row, ticks increasing), every column as long as the index, and the
   * channel's name.
   */
  lemma PeriodSplitShape(data: Table, col: nat, period: Option<int>, ct: Option<int>)
    requires WellFormed(data) && |data.index| > 0 && col < |data.columns|
    requires ValidDuration(period) && ValidDuration(ct) && CtStepFits(SlicedRows(data, col, period), ct)
    ensures var r := PeriodSplit(data, col, period, ct);
      && |r.columns| == |PeriodIndex(data.index, period)| == |r.days|
      && (forall d :: 0 <= d < |r.days| ==> r.days[d] == d)
      && |r.index| > 0
      && StrictlyIncreasing(r.index)
      && (forall i :: 0 <= i < |r.columns| ==> |r.columns[i]| == |r.index|)
      && r.name == Text(data.columns[col].name)
  {
    assert data.columns[col] in data.columns;
    FirstSegmentHoldsFirstSample(data.index, data.columns[col].cells, period);
    SliceShape(data.index, data.columns[col].cells, PeriodIndex(data.index, period));
  }
}
