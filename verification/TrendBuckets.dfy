/** The time series of the analytics service: a date range cut into hour, day, week or month
    buckets by a cursor that JavaScript's calendar setters move. */
module TrendBuckets {
  import opened Calendar
  import opened IsoText
  import opened Selections
  import opened Wrappers

  datatype Granularity = Hourly | Daily | Weekly | Monthly

  // ----- the cursor

  /** getNextPeriod: the hour, the day of the month (by one or seven) or the month is set anew. */
  function NextPeriod(t: int, g: Granularity): int {
    var d := Day(t);
    match g
    case Hourly => d * MS_PER_DAY + (HourOf(t) + 1) * MS_PER_HOUR + TimeWithinDay(t) % MS_PER_HOUR
    case Daily => MakeDay(MonthOf(d), DateOf(d) + 1) * MS_PER_DAY + TimeWithinDay(t)
    case Weekly => MakeDay(MonthOf(d), DateOf(d) + 7) * MS_PER_DAY + TimeWithinDay(t)
    case Monthly => MakeDay(MonthOf(d) + 1, DateOf(d)) * MS_PER_DAY + TimeWithinDay(t)
  }

  /** The length of the period the cursor leaves: for a month, the length of that month. */
  function PeriodLength(t: int, g: Granularity): (ms: int)
    ensures ms > 0
  {
    match g
    case Hourly => MS_PER_HOUR
    case Daily => MS_PER_DAY
    case Weekly => 7 * MS_PER_DAY
    case Monthly => MonthLength(MonthOf(Day(t))) * MS_PER_DAY
  }

  lemma NextPeriodAdvances(t: int, g: Granularity)
    ensures NextPeriod(t, g) == t + PeriodLength(t, g)
  {
    hide MonthStart;
    MonthsTile(MonthOf(Day(t)));
  }

  /** The k-th value of the cursor. */
  function Cursor(t: int, g: Granularity, k: nat): int {
    if k == 0 then t else NextPeriod(Cursor(t, g, k - 1), g)
  }

  lemma DayAdvances(t: int, days: int)
    ensures Day(t + days * MS_PER_DAY) == Day(t) + days
    ensures TimeWithinDay(t + days * MS_PER_DAY) == TimeWithinDay(t)
  {
    assert t + days * MS_PER_DAY == (Day(t) + days) * MS_PER_DAY + TimeWithinDay(t);
  }

  /** One setMonth(+1): the day of the month is kept when the next month is long enough; otherwise
      the overflow lands in the first three days of the month after it. */
  lemma MonthStep(t: int)
    ensures var m, date := MonthOf(Day(t)), DateOf(Day(t));
            var next := Day(NextPeriod(t, Monthly));
            if date <= MonthLength(m + 1) then MonthOf(next) == m + 1 && DateOf(next) == date
            else MonthOf(next) == m + 2 && DateOf(next) == date - MonthLength(m + 1) <= 3
  {
    hide MonthStart;
    var m, date := MonthOf(Day(t)), DateOf(Day(t));
    NextPeriodAdvances(t, Monthly);
    DayAdvances(t, MonthLength(m));
    var next := Day(NextPeriod(t, Monthly));
    MonthsTile(m);
    MonthsTile(m + 1);
    MonthsTile(m + 2);
    assert next == MonthStart(m + 1) + date - 1;
    if date <= MonthLength(m + 1) {
      MonthOfUnique(next, m + 1);
    } else {
      MonthOfUnique(next, m + 2);
    }
  }

  /** The day of the month does not fit into one of the k months after m. */
  ghost predicate Overflows(m: int, date: int, k: nat) {
    exists later :: m < later <= m + k && MonthLength(later) < date
  }

  /** Over a run of any length the cursor skips one calendar month if its first day of the month
      overflows somewhere on the way, and none otherwise; it never skips a second one. */
  lemma {:induction false} AtMostOneMonthSkipped(t: int, k: nat)
    ensures var m, date := MonthOf(Day(t)), DateOf(Day(t));
            var day := Day(Cursor(t, Monthly, k));
            if Overflows(m, date, k) then MonthOf(day) == m + k + 1 && DateOf(day) <= 3
            else MonthOf(day) == m + k && DateOf(day) == date
  {
    hide MonthStart;
    hide NextPeriod;
    if k == 0 {
    } else {
      AtMostOneMonthSkipped(t, k - 1);
      MonthStep(Cursor(t, Monthly, k - 1));
      var m, date := MonthOf(Day(t)), DateOf(Day(t));
      if Overflows(m, date, k - 1) {
        var later :| m < later <= m + k - 1 && MonthLength(later) < date;
        assert Overflows(m, date, k);
      } else {
        assert Overflows(m, date, k) <==> MonthLength(m + k) < date;
      }
    }
  }

  // ----- the cuts of a range

  /** All the values the cursor takes; the last one is the first beyond the end. */
  function Cuts(g: Granularity, start: int, end: int): (cuts: seq<int>)
    ensures |cuts| > 0 && cuts[0] == start
    decreases end - start + 1
  {
    NextPeriodAdvances(start, g);
    if start > end then [start] else [start] + Cuts(g, NextPeriod(start, g), end)
  }

  lemma PrependIncreasing(first: int, rest: seq<int>)
    requires |rest| > 0 && first < rest[0]
    requires forall i, j :: 0 <= i < j < |rest| ==> rest[i] < rest[j]
    ensures var all := [first] + rest; forall i, j :: 0 <= i < j < |all| ==> all[i] < all[j]
  {
    var all := [first] + rest;
    forall i, j | 0 <= i < j < |all|
      ensures all[i] < all[j]
    {
      assert all[j] == rest[j - 1] && rest[j - 1] >= rest[0];
      if i > 0 {
        assert all[i] == rest[i - 1];
      }
    }
  }

  lemma {:induction false} CursorFromNext(t: int, g: Granularity, k: nat)
    ensures Cursor(NextPeriod(t, g), g, k) == Cursor(t, g, k + 1)
  {
    hide NextPeriod;
    if k == 0 {
    } else {
      CursorFromNext(t, g, k - 1);
    }
  }

  /** The cuts after the first are those from the next value of the cursor on. */
  lemma CutsAfter(g: Granularity, start: int, end: int)
    requires start <= end
    ensures NextPeriod(start, g) > start
    ensures Cuts(g, start, end) == [start] + Cuts(g, NextPeriod(start, g), end)
  {
    hide NextPeriod;
    NextPeriodAdvances(start, g);
  }

  lemma {:induction false} CutsAreCursors(g: Granularity, start: int, end: int, i: nat)
    requires i < |Cuts(g, start, end)|
    ensures Cuts(g, start, end)[i] == Cursor(start, g, i)
    decreases i
  {
    hide NextPeriod;
    if i == 0 {
    } else {
      CutsAfter(g, start, end);
      CutsAreCursors(g, NextPeriod(start, g), end, i - 1);
      CursorFromNext(start, g, i - 1);
    }
  }

  lemma {:induction false} CutsIncrease(g: Granularity, start: int, end: int)
    ensures var cuts := Cuts(g, start, end);
            && (forall i, j :: 0 <= i < j < |cuts| ==> cuts[i] < cuts[j])
            && (forall i :: 0 <= i < |cuts| - 1 ==> cuts[i] <= end)
            && cuts[|cuts| - 1] > end
    decreases end - start + 1
  {
    hide NextPeriod;
    if start > end {
    } else {
      CutsAfter(g, start, end);
      var next := NextPeriod(start, g);
      CutsIncrease(g, next, end);
      var rest := Cuts(g, next, end);
      PrependIncreasing(start, rest);
    }
  }

  /** The buckets are contiguous, disjoint and cover the range. */
  lemma CutsPartition(g: Granularity, start: int, end: int)
    ensures var cuts := Cuts(g, start, end);
            && (forall i :: 0 <= i < |cuts| ==> cuts[i] == Cursor(start, g, i))
            && (forall i, j :: 0 <= i < j < |cuts| ==> cuts[i] < cuts[j])
            && (forall i :: 0 <= i < |cuts| - 1 ==> cuts[i] <= end)
            && cuts[|cuts| - 1] > end
  {
    hide Cuts;
    hide Cursor;
    CutsIncrease(g, start, end);
    forall i | 0 <= i < |Cuts(g, start, end)|
      ensures Cuts(g, start, end)[i] == Cursor(start, g, i)
    {
      CutsAreCursors(g, start, end, i);
    }
  }

  predicate InBucket(t: int, cuts: seq<int>, i: nat)
    requires i + 1 < |cuts|
  {
    cuts[i] <= t < cuts[i + 1]
  }

  lemma {:induction false} BucketExists(t: int, cuts: seq<int>) returns (i: nat)
    requires |cuts| >= 2 && cuts[0] <= t < cuts[|cuts| - 1]
    ensures i + 1 < |cuts| && InBucket(t, cuts, i)
  {
    if t < cuts[1] {
      i := 0;
    } else {
      var k := BucketExists(t, cuts[1..]);
      i := k + 1;
    }
  }

  lemma OnlyOneBucket(t: int, cuts: seq<int>, i: nat, j: nat)
    requires i + 1 < |cuts| && j + 1 < |cuts|
    requires forall k, l :: 0 <= k < l < |cuts| ==> cuts[k] < cuts[l]
    requires InBucket(t, cuts, i)
    ensures i < j ==> !InBucket(t, cuts, j)
  {
    assert i + 1 < j ==> cuts[i + 1] < cuts[j];
  }

  /** Every moment of the range lies in exactly one bucket. */
  lemma ExactlyOneBucket(t: int, g: Granularity, start: int, end: int)
    requires start <= t <= end
    ensures var cuts := Cuts(g, start, end);
            exists i: nat :: i + 1 < |cuts| && InBucket(t, cuts, i)
                        && forall j: nat :: j + 1 < |cuts| && InBucket(t, cuts, j) ==> j == i
  {
    CutsPartition(g, start, end);
    var cuts := Cuts(g, start, end);
    hide Cuts;
    hide NextPeriod;
    var i := BucketExists(t, cuts);
    forall j: nat | j + 1 < |cuts| && InBucket(t, cuts, j)
      ensures j == i
    {
      OnlyOneBucket(t, cuts, i, j);
      OnlyOneBucket(t, cuts, j, i);
    }
  }

  // ----- the aggregated series

  /** A stored row. Amounts are null-able as far as the aggregation is concerned. */
  datatype Row = Row(createdAt: int, amount: Option<real>, totalAmount: Option<real>)

  /** A payment always has an amount and has no column called totalAmount. */
  predicate IsPayment(row: Row) { row.amount.Some? && row.totalAmount.None? }

  datatype Measure = Count | Revenue

  datatype Point = Point(date: string, value: real)

  /** The amount, or else the total amount, or else nothing; an amount of zero counts as missing. */
  function RowRevenue(row: Row): real {
    if row.amount.GetOr(0.0) != 0.0 then row.amount.value else row.totalAmount.GetOr(0.0)
  }

  function RowValue(row: Row, measure: Measure): real {
    match measure
    case Count => 1.0
    case Revenue => RowRevenue(row)
  }

  function ValueOf(rows: seq<Row>, measure: Measure): real {
    if rows == [] then 0.0 else RowValue(rows[0], measure) + ValueOf(rows[1..], measure)
  }

  /** The rows created in [lo, hi), in their order. */
  function Within(rows: seq<Row>, lo: int, hi: int): seq<Row> {
    if rows == [] then []
    else (if lo <= rows[0].createdAt < hi then [rows[0]] else []) + Within(rows[1..], lo, hi)
  }

  lemma {:induction false} CountIsLength(rows: seq<Row>)
    ensures ValueOf(rows, Count) == |rows| as real
  {
    if rows == [] {
    } else {
      CountIsLength(rows[1..]);
    }
  }

  lemma WithinValue(rows: seq<Row>, lo: int, hi: int, measure: Measure)
    requires rows != []
    ensures ValueOf(Within(rows, lo, hi), measure)
            == (if lo <= rows[0].createdAt < hi then RowValue(rows[0], measure) else 0.0)
               + ValueOf(Within(rows[1..], lo, hi), measure)
  {
    var rest := Within(rows[1..], lo, hi);
    if lo <= rows[0].createdAt < hi {
      assert Within(rows, lo, hi)[1..] == rest;
    } else {
      assert Within(rows, lo, hi) == rest;
    }
  }

  /** Two adjacent intervals hold together what their union holds. */
  lemma {:induction false} AdjacentIntervals(rows: seq<Row>, lo: int, mid: int, hi: int, measure: Measure)
    requires lo <= mid <= hi
    ensures ValueOf(Within(rows, lo, hi), measure)
            == ValueOf(Within(rows, lo, mid), measure) + ValueOf(Within(rows, mid, hi), measure)
  {
    if rows == [] {
    } else {
      AdjacentIntervals(rows[1..], lo, mid, hi, measure);
      WithinValue(rows, lo, mid, measure);
      WithinValue(rows, mid, hi, measure);
      WithinValue(rows, lo, hi, measure);
    }
  }

  function SumOfPoints(points: seq<Point>): real {
    if points == [] then 0.0 else points[0].value + SumOfPoints(points[1..])
  }

  // ----- labels

  /** The moment a label is read from: for a week, the same time on the Sunday that starts it. */
  function LabelTime(t: int, g: Granularity): int {
    if g.Weekly? then t - WeekDay(Day(t)) * MS_PER_DAY else t
  }

  function LabelDay(t: int, g: Granularity): int { Day(LabelTime(t, g)) }

  /** formatDate: a prefix of the ISO text. */
  function LabelText(t: int, g: Granularity): string
    requires Printable(LabelDay(t, g))
  {
    hide MonthStart;
    var iso := ToIsoString(LabelTime(t, g));
    match g
    case Hourly => iso[..13] + ":00:00.000Z"
    case Monthly => iso[..7]
    case _ => iso[..10]
  }

  // ----- points

  /** The rows of a bucket. A bucket that ends beyond the range of time values has an invalid date
      for its end, and no row is before that. */
  function Bucket(rows: seq<Row>, lo: int, hi: int): seq<Row> {
    if IsTimeValue(hi) then Within(rows, lo, hi) else []
  }

  /** A point carries the label of its bucket's start and the value of the rows in the bucket. */
  predicate IsPoint(point: Point, rows: seq<Row>, g: Granularity, lo: int, hi: int, measure: Measure) {
    && Printable(LabelDay(lo, g))
    && point == Point(LabelText(lo, g), ValueOf(Bucket(rows, lo, hi), measure))
  }

  predicate IsSeries(points: seq<Point>, rows: seq<Row>, g: Granularity, cuts: seq<int>, measure: Measure) {
    && |points| + 1 == |cuts|
    && forall i :: 0 <= i < |points| ==> IsPoint(points[i], rows, g, cuts[i], cuts[i + 1], measure)
  }

  /** The value of the rows that lie in no bucket: those of the last one, if its end is an invalid
      date. */
  function Lost(rows: seq<Row>, cuts: seq<int>, measure: Measure): real {
    if |cuts| < 2 || IsTimeValue(cuts[|cuts| - 1]) then 0.0
    else ValueOf(Within(rows, cuts[|cuts| - 2], cuts[|cuts| - 1]), measure)
  }

  lemma PointValue(point: Point, rows: seq<Row>, g: Granularity, lo: int, hi: int, measure: Measure)
    requires IsPoint(point, rows, g, lo, hi, measure)
    ensures point.value == ValueOf(Bucket(rows, lo, hi), measure)
  {
    hide Bucket;
    hide LabelText;
    hide MonthStart;
  }

  lemma {:induction false} NothingWithin(rows: seq<Row>, at: int)
    ensures Within(rows, at, at) == []
  {
    if rows == [] {
    } else {
      NothingWithin(rows[1..], at);
    }
  }

  /** The buckets of a series together hold exactly the rows between its first and last cut, but
      for those of an invalid last bucket. */
  lemma {:induction false} SeriesConserves(
    points: seq<Point>, rows: seq<Row>, g: Granularity, cuts: seq<int>, measure: Measure)
    requires IsSeries(points, rows, g, cuts, measure)
    requires forall i, j :: 0 <= i < j < |cuts| ==> cuts[i] < cuts[j]
    requires forall i :: 0 <= i < |cuts| - 1 ==> IsTimeValue(cuts[i])
    ensures SumOfPoints(points) == ValueOf(Within(rows, cuts[0], cuts[|cuts| - 1]), measure) - Lost(rows, cuts, measure)
  {
    hide IsPoint;
    hide Within;
    if points == [] {
      NothingWithin(rows, cuts[0]);
    } else {
      PointValue(points[0], rows, g, cuts[0], cuts[1], measure);
      SeriesConserves(points[1..], rows, g, cuts[1..], measure);
      AdjacentIntervals(rows, cuts[0], cuts[1], cuts[|cuts| - 1], measure);
      if |points| == 1 {
        NothingWithin(rows, cuts[1]);
      } else {
        assert cuts[1..][|cuts| - 3] == cuts[|cuts| - 2];
      }
    }
  }

  lemma {:induction false} AllWithin(rows: seq<Row>, lo: int, hi: int)
    requires forall i :: 0 <= i < |rows| ==> lo <= rows[i].createdAt < hi
    ensures Within(rows, lo, hi) == rows
  {
    if rows == [] {
    } else {
      AllWithin(rows[1..], lo, hi);
    }
  }

  /** The label of the first bucket can lie before the range of time values, that of a later one
      cannot: it is at most six days before its bucket. */
  lemma LaterLabelsAreTimeValues(t: int, g: Granularity, start: int, end: int)
    requires IsTimeValue(start) && IsTimeValue(end) && start <= t <= end
    requires t > start && g.Weekly? ==> t >= start + 7 * MS_PER_DAY
    ensures t > start ==> IsTimeValue(LabelTime(t, g))
    ensures !g.Weekly? ==> IsTimeValue(LabelTime(t, g))
  {
    assert 0 <= WeekDay(Day(t)) <= 6;
  }

  lemma WeekLength(t: int)
    ensures PeriodLength(t, Weekly) == 7 * MS_PER_DAY
  {}

  lemma EmptySeries(rows: seq<Row>, g: Granularity, start: int, measure: Measure)
    ensures IsSeries([], rows, g, [] + [start], measure)
  {}

  lemma CutsStep(passed: seq<int>, g: Granularity, current: int, end: int)
    requires current <= end
    ensures passed + Cuts(g, current, end) == passed + [current] + Cuts(g, NextPeriod(current, g), end)
  {
    hide NextPeriod;
  }

  lemma CutsEnd(g: Granularity, current: int, end: int)
    requires current > end
    ensures Cuts(g, current, end) == [current]
  {}

  lemma ExtendSeries(points: seq<Point>, rows: seq<Row>, g: Granularity, passed: seq<int>, current: int, next: int,
                     measure: Measure, point: Point)
    requires IsSeries(points, rows, g, passed + [current], measure)
    requires IsPoint(point, rows, g, current, next, measure)
    ensures IsSeries(points + [point], rows, g, passed + [current] + [next], measure)
  {
    hide IsPoint;
    var all, cuts := points + [point], passed + [current] + [next];
    forall i | 0 <= i < |all|
      ensures IsPoint(all[i], rows, g, cuts[i], cuts[i + 1], measure)
    {
      if i < |points| {
        assert cuts[i] == (passed + [current])[i] && cuts[i + 1] == (passed + [current])[i + 1];
      }
    }
  }

  method PointOf(rows: seq<Row>, g: Granularity, lo: int, hi: int, measure: Measure) returns (point: Point)
    requires IsTimeValue(LabelTime(lo, g))
    ensures IsPoint(point, rows, g, lo, hi, measure)
  {
    hide MonthStart;
    TimeValuesArePrintable(LabelDay(lo, g));
    point := Point(LabelText(lo, g), ValueOf(Bucket(rows, lo, hi), measure));
  }

  /** aggregateDataByPeriod. It fails if the label of the first bucket is not a date. */
  method AggregateDataByPeriod(rows: seq<Row>, g: Granularity, start: int, end: int, measure: Measure)
    returns (answer: Option<seq<Point>>)
    requires IsTimeValue(start) && IsTimeValue(end)
    ensures answer.None? <==> start <= end && !IsTimeValue(LabelTime(start, g))
    ensures answer.Some? ==> IsSeries(answer.value, rows, g, Cuts(g, start, end), measure)
  {
    hide MonthStart;
    hide NextPeriod;
    hide IsPoint;
    hide PeriodLength;
    hide Cuts;
    hide IsSeries;
    hide LabelTime;
    var result := [];
    var current := start;
    ghost var passed: seq<int> := [];
    EmptySeries(rows, g, start, measure);
    while current <= end
      invariant start <= current
      invariant passed == [] ==> current == start
      invariant passed != [] ==> start <= end && IsTimeValue(LabelTime(start, g)) && current > start
      invariant passed != [] && g.Weekly? ==> current >= start + 7 * MS_PER_DAY
      invariant Cuts(g, start, end) == passed + Cuts(g, current, end)
      invariant IsSeries(result, rows, g, passed + [current], measure)
      decreases end - current
    {
      var periodEnd := NextPeriod(current, g);
      NextPeriodAdvances(current, g);
      WeekLength(current);
      LaterLabelsAreTimeValues(current, g, start, end);
      if !IsTimeValue(LabelTime(current, g)) {
        return None;
      }
      var point := PointOf(rows, g, current, periodEnd, measure);
      CutsStep(passed, g, current, end);
      ExtendSeries(result, rows, g, passed, current, periodEnd, measure, point);
      result := result + [point];
      passed := passed + [current];
      current := periodEnd;
    }
    CutsEnd(g, current, end);
    answer := Some(result);
  }

  // ----- a whole trend query

  /** Created at or after the start and at or before the end. */
  function CreatedWithin(start: int, end: int): Row -> bool {
    (row: Row) => start <= row.createdAt <= end
  }

  /** The rows a query finds in a table, which is listed here as the query sorts it. */
  function Selected(table: seq<Row>, start: int, end: int): seq<Row> {
    Select(table, CreatedWithin(start, end))
  }

  /** Exactly the rows of the range are found, in the order of the table and as often as they stand
      in it. */
  lemma SelectedExactly(table: seq<Row>, start: int, end: int, row: Row)
    ensures IsSelection(Selected(table, start, end), table, CreatedWithin(start, end))
    ensures multiset(Selected(table, start, end))[row]
            == if start <= row.createdAt <= end then multiset(table)[row] else 0
  {
    hide IsSelection;
    hide Select;
    SelectIsSelection(table, CreatedWithin(start, end));
    SelectKeeps(table, CreatedWithin(start, end), row);
  }

  lemma SelectedLie(table: seq<Row>, start: int, end: int, i: nat)
    requires i < |Selected(table, start, end)|
    ensures var row := Selected(table, start, end)[i]; row in table && start <= row.createdAt <= end
  {
    hide Select;
    var row := Selected(table, start, end)[i];
    SelectKeeps(table, CreatedWithin(start, end), row);
    assert row in multiset(Selected(table, start, end));
    assert row in multiset(table);
  }

  /** What the rows of the range count for: one each, or their amounts. */
  function TotalIn(table: seq<Row>, start: int, end: int, measure: Measure): real {
    if table == [] then 0.0
    else
      var last := table[|table| - 1];
      TotalIn(table[..|table| - 1], start, end, measure)
      + if start <= last.createdAt <= end then (if measure.Count? then 1.0 else last.amount.GetOr(0.0)) else 0.0
  }

  lemma {:induction false} ValueOfOneMore(rows: seq<Row>, row: Row, measure: Measure)
    ensures ValueOf(rows + [row], measure) == ValueOf(rows, measure) + RowValue(row, measure)
  {
    if rows == [] {
      assert [row][1..] == [];
    } else {
      ValueOfOneMore(rows[1..], row, measure);
      assert (rows + [row])[1..] == rows[1..] + [row];
    }
  }

  lemma {:induction false} SelectedTotal(table: seq<Row>, start: int, end: int, measure: Measure)
    requires measure.Revenue? ==> forall i :: 0 <= i < |table| ==> IsPayment(table[i])
    ensures ValueOf(Selected(table, start, end), measure) == TotalIn(table, start, end, measure)
  {
    if table == [] {
    } else {
      var last := |table| - 1;
      SelectedTotal(table[..last], start, end, measure);
      var before := Selected(table[..last], start, end);
      assert before + [] == before;
      ValueOfOneMore(before, table[last], measure);
      assert measure.Revenue? ==> IsPayment(table[last]);
    }
  }

  /** The total of the payments' amounts. */
  function SumOfAmounts(payments: seq<Row>): real
    requires forall i :: 0 <= i < |payments| ==> IsPayment(payments[i])
  {
    if payments == [] then 0.0 else
      assert IsPayment(payments[0]);
      payments[0].amount.value + SumOfAmounts(payments[1..])
  }

  lemma {:induction false} PaymentsAreWorthTheirAmounts(payments: seq<Row>)
    requires forall i :: 0 <= i < |payments| ==> IsPayment(payments[i])
    ensures ValueOf(payments, Revenue) == SumOfAmounts(payments)
  {
    if payments == [] {
    } else {
      PaymentsAreWorthTheirAmounts(payments[1..]);
    }
  }

  /** All the rows of a range land in the buckets of its series, but for those lost in the last. */
  lemma RangeIsConserved(points: seq<Point>, rows: seq<Row>, g: Granularity, start: int, end: int, measure: Measure)
    requires IsTimeValue(start) && IsTimeValue(end)
    requires IsSeries(points, rows, g, Cuts(g, start, end), measure)
    requires forall i :: 0 <= i < |rows| ==> start <= rows[i].createdAt <= end
    ensures SumOfPoints(points) == ValueOf(rows, measure) - Lost(rows, Cuts(g, start, end), measure)
  {
    hide IsPoint;
    hide NextPeriod;
    hide Lost;
    CutsPartition(g, start, end);
    var cuts := Cuts(g, start, end);
    hide Cuts;
    assert forall i :: 0 <= i < |cuts| - 1 ==> IsTimeValue(cuts[i]) by {
      assert forall i :: 0 < i < |cuts| ==> cuts[0] < cuts[i];
    }
    SeriesConserves(points, rows, g, cuts, measure);
    AllWithin(rows, start, cuts[|cuts| - 1]);
  }

  lemma LastCut(g: Granularity, start: int, end: int)
    ensures var cuts := Cuts(g, start, end);
            |cuts| >= 2 ==>
              && cuts[|cuts| - 2] <= end && start < cuts[|cuts| - 1]
              && cuts[|cuts| - 1] == cuts[|cuts| - 2] + PeriodLength(cuts[|cuts| - 2], g)
  {
    hide Cuts;
    hide NextPeriod;
    hide PeriodLength;
    CutsIncrease(g, start, end);
    var cuts := Cuts(g, start, end);
    var n := |cuts|;
    if n >= 2 {
      CutsAreCursors(g, start, end, n - 1);
      CutsAreCursors(g, start, end, n - 2);
      NextPeriodAdvances(cuts[n - 2], g);
      assert cuts[0] < cuts[n - 1];
    }
  }

  /** Nothing is lost if the range ends 31 days or more before the last time value. */
  lemma NothingIsLostBeforeTheEnd(rows: seq<Row>, g: Granularity, start: int, end: int, measure: Measure)
    requires IsTimeValue(start) && end + 31 * MS_PER_DAY <= 8640000000000000
    ensures Lost(rows, Cuts(g, start, end), measure) == 0.0
  {
    hide Cuts;
    LastCut(g, start, end);
  }

  /** Something can be: a row created at the very last time value is in no daily bucket. */
  lemma LastMomentIsLost()
    ensures var last := 8640000000000000;
            IsTimeValue(last) && Lost([Row(last, None, None)], Cuts(Daily, last, last), Count) == 1.0
  {
    hide NextPeriod;
    var last := 8640000000000000;
    NextPeriodAdvances(last, Daily);
    var next := NextPeriod(last, Daily);
    CutsEnd(Daily, next, last);
    assert Cuts(Daily, last, last) == [last] + Cuts(Daily, next, last);
    assert Within([Row(last, None, None)], last, next) == [Row(last, None, None)];
    CountIsLength([Row(last, None, None)]);
  }

  datatype Series = Series(data: seq<Point>, total: real, average: real)

  method Total(rows: seq<Row>, measure: Measure) returns (total: real)
    requires measure.Revenue? ==> forall i :: 0 <= i < |rows| ==> IsPayment(rows[i])
    ensures total == ValueOf(rows, measure)
    ensures measure.Count? ==> total == |rows| as real
    ensures measure.Revenue? ==> total == SumOfAmounts(rows)
  {
    if measure.Count? {
      CountIsLength(rows);
      total := |rows| as real;
    } else {
      PaymentsAreWorthTheirAmounts(rows);
      total := SumOfAmounts(rows);
    }
  }

  lemma SeriesIsEmpty(points: seq<Point>, rows: seq<Row>, g: Granularity, start: int, end: int, measure: Measure)
    requires IsSeries(points, rows, g, Cuts(g, start, end), measure)
    ensures points == [] <==> start > end
  {
    hide IsPoint;
    hide NextPeriod;
  }

  lemma AverageTimesCount(total: real, count: nat)
    requires count > 0
    ensures total / count as real * count as real == total
  {}

  /** getBookingTrends, getUserGrowth (Count) and getRevenueTrends (Revenue): whatever the table
      holds, the points of the series sum to the total reported beside them, except that a last
      bucket whose end is an invalid date counts for nothing. That total is the number of the rows
      of the table that lie in the range, or the sum of their amounts. */
  method Trend(table: seq<Row>, g: Granularity, start: int, end: int, measure: Measure)
    returns (answer: Option<Series>)
    requires IsTimeValue(start) && IsTimeValue(end)
    requires measure.Revenue? ==> forall i :: 0 <= i < |table| ==> IsPayment(table[i])
    ensures answer.None? <==> start <= end && !IsTimeValue(LabelTime(start, g))
    ensures answer.Some? ==>
              var rows, cuts, series := Selected(table, start, end), Cuts(g, start, end), answer.value;
              && IsSelection(rows, table, CreatedWithin(start, end))
              && series.total == TotalIn(table, start, end, measure)
              && IsSeries(series.data, rows, g, cuts, measure)
              && (measure.Count? ==> series.total == |rows| as real)
              && (measure.Revenue? ==> series.total == SumOfAmounts(rows))
              && SumOfPoints(series.data) == series.total - Lost(rows, cuts, measure)
              && (series.data == [] <==> start > end)
              && (series.data != [] ==> series.average * |series.data| as real == series.total)
              && (series.data == [] ==> series.average == 0.0)
  {
    hide IsSeries;
    hide Cuts;
    hide Select;
    hide Lost;
    hide LabelTime;
    hide IsSelection;
    hide TotalIn;
    var rows := Selected(table, start, end);
    SelectIsSelection(table, CreatedWithin(start, end));
    forall i | 0 <= i < |rows|
      ensures start <= rows[i].createdAt <= end && (measure.Revenue? ==> IsPayment(rows[i]))
    {
      SelectedLie(table, start, end, i);
    }
    SelectedTotal(table, start, end, measure);
    var points := AggregateDataByPeriod(rows, g, start, end, measure);
    if points.None? {
      return None;
    }
    var data := points.value;
    RangeIsConserved(data, rows, g, start, end, measure);
    SeriesIsEmpty(data, rows, g, start, end, measure);
    var total := Total(rows, measure);
    var average := if |data| > 0 then total / |data| as real else 0.0;
    if |data| > 0 {
      AverageTimesCount(total, |data|);
    }
    answer := Some(Series(data, total, average));
  }
}
