/** The keys under which the analytics service caches its four trend queries. */
module TrendCacheKeys {
  import opened Wrappers
  import opened IsoText
  import opened TrendBuckets

  datatype Family = BookingTrends | RevenueTrends | UserGrowth | SpaceUtilization

  datatype Period = DayPeriod | WeekPeriod | MonthPeriod | YearPeriod

  /** A query names a period or, when it does not, counts as custom. */
  datatype Query = Query(family: Family, period: Option<Period>, granularity: Granularity, start: int, end: int)

  function FamilyText(f: Family): string {
    match f
    case BookingTrends => "booking-trends"
    case RevenueTrends => "revenue-trends"
    case UserGrowth => "user-growth"
    case SpaceUtilization => "space-utilization"
  }

  function PeriodText(p: Option<Period>): string {
    match p
    case None => "custom"
    case Some(DayPeriod) => "day"
    case Some(WeekPeriod) => "week"
    case Some(MonthPeriod) => "month"
    case Some(YearPeriod) => "year"
  }

  function GranularityText(g: Granularity): string {
    match g
    case Hourly => "hour"
    case Daily => "day"
    case Weekly => "week"
    case Monthly => "month"
  }

  /** Number.prototype.toString for integers. */
  function Digits(n: nat): (s: string)
    ensures |s| > 0
    ensures forall i :: 0 <= i < |s| ==> IsDigit(s[i])
  {
    if n < 10 then [DigitChar(n)] else Digits(n / 10) + [DigitChar(n % 10)]
  }

  function Decimal(n: int): (s: string) {
    if n < 0 then "-" + Digits(-n) else Digits(n)
  }

  function Key(q: Query): string {
    FamilyText(q.family) + ("-" + (PeriodText(q.period) + ("-" + (GranularityText(q.granularity)
    + ("-" + (Decimal(q.start) + ("-" + Decimal(q.end))))))))
  }

  lemma {:induction false} DigitsInjective(m: nat, n: nat)
    ensures Digits(m) == Digits(n) <==> m == n
  {
    if m >= 10 && n >= 10 {
      DigitsInjective(m / 10, n / 10);
      DigitOrder(m % 10, n % 10);
      if Digits(m) == Digits(n) {
        assert Digits(m)[|Digits(m)| - 1] == Digits(n)[|Digits(n)| - 1];
        assert Digits(m / 10) == Digits(m)[..|Digits(m)| - 1] == Digits(n / 10);
      }
    } else if m < 10 && n < 10 {
      DigitOrder(m, n);
    }
  }

  lemma LeadingMinus(n: int)
    ensures Decimal(n) != "" && (Decimal(n)[0] == '-' <==> n < 0)
  {
    hide Digits;
  }

  lemma DecimalInjective(m: int, n: int)
    ensures Decimal(m) == Decimal(n) <==> m == n
  {
    hide Digits;
    if m < 0 && n < 0 {
      DigitsInjective(-m, -n);
      ConcatSplit("-", Digits(-m), "-", Digits(-n));
    } else if m >= 0 && n >= 0 {
      DigitsInjective(m, n);
    } else {
      LeadingMinus(m);
      LeadingMinus(n);
    }
  }

  lemma RunNotLonger(a: string, x: string, b: string, z: string)
    requires forall i :: 0 <= i < |b| ==> IsDigit(b[i])
    ensures a + ("-" + x) == b + z ==> |b| <= |a|
  {
    if |a| < |b| {
      assert (a + ("-" + x))[|a|] == '-' && (b + z)[|a|] == b[|a|];
    }
  }

  /** A run of digits ends where the hyphen after it stands. */
  lemma DigitRunEnds(a: string, x: string, b: string, y: string)
    requires forall i :: 0 <= i < |a| ==> IsDigit(a[i])
    requires forall i :: 0 <= i < |b| ==> IsDigit(b[i])
    requires a + ("-" + x) == b + ("-" + y)
    ensures a == b && x == y
  {
    RunNotLonger(a, x, b, "-" + y);
    RunNotLonger(b, y, a, "-" + x);
    ConcatSplit(a, "-" + x, b, "-" + y);
    ConcatSplit("-", x, "-", y);
  }

  /** A decimal number in front of a hyphen is uniquely readable, also when it is negative. */
  lemma DecimalEnds(m: int, x: string, n: int, y: string)
    requires Decimal(m) + ("-" + x) == Decimal(n) + ("-" + y)
    ensures m == n && x == y
  {
    var a, b := Decimal(m), Decimal(n);
    assert (a + ("-" + x))[0] == a[0] && (b + ("-" + y))[0] == b[0];
    LeadingMinus(m);
    LeadingMinus(n);
    hide Digits;
    if m < 0 {
      assert a + ("-" + x) == "-" + (Digits(-m) + ("-" + x));
      assert b + ("-" + y) == "-" + (Digits(-n) + ("-" + y));
      ConcatSplit("-", Digits(-m) + ("-" + x), "-", Digits(-n) + ("-" + y));
      DigitRunEnds(Digits(-m), x, Digits(-n), y);
      DigitsInjective(-m, -n);
    } else {
      DigitRunEnds(Digits(m), x, Digits(n), y);
      DigitsInjective(m, n);
    }
  }

  lemma WordReadable(a: string, x: string, b: string, y: string)
    requires a != "" && b != "" && (a[0] == b[0] ==> a == b)
    ensures a + x == b + y ==> a == b && x == y
  {
    if a + x == b + y {
      assert (a + x)[0] == a[0] && (b + y)[0] == b[0];
      ConcatSplit(a, x, b, y);
    }
  }

  /** The words of a key have distinct first letters. */
  lemma WordsReadable(q: Query, r: Query, x: string, y: string)
    ensures FamilyText(q.family) + x == FamilyText(r.family) + y ==> q.family == r.family && x == y
    ensures PeriodText(q.period) + x == PeriodText(r.period) + y ==> q.period == r.period && x == y
    ensures GranularityText(q.granularity) + x == GranularityText(r.granularity) + y
            ==> q.granularity == r.granularity && x == y
  {
    WordReadable(FamilyText(q.family), x, FamilyText(r.family), y);
    WordReadable(PeriodText(q.period), x, PeriodText(r.period), y);
    WordReadable(GranularityText(q.granularity), x, GranularityText(r.granularity), y);
  }

  /** Two queries share a cache key exactly when they ask for the same thing: family, period
      word, granularity, start and end, for all integer times. */
  lemma KeysAreInjective(q: Query, r: Query)
    ensures Key(q) == Key(r) <==> q == r
  {
    if Key(q) == Key(r) {
      var qEnd, rEnd := Decimal(q.start) + ("-" + Decimal(q.end)), Decimal(r.start) + ("-" + Decimal(r.end));
      var qGran, rGran := GranularityText(q.granularity) + ("-" + qEnd), GranularityText(r.granularity) + ("-" + rEnd);
      var qPer, rPer := PeriodText(q.period) + ("-" + qGran), PeriodText(r.period) + ("-" + rGran);
      WordsReadable(q, r, "-" + qPer, "-" + rPer);
      ConcatSplit("-", qPer, "-", rPer);
      WordsReadable(q, r, "-" + qGran, "-" + rGran);
      ConcatSplit("-", qGran, "-", rGran);
      WordsReadable(q, r, "-" + qEnd, "-" + rEnd);
      ConcatSplit("-", qEnd, "-", rEnd);
      DecimalEnds(q.start, Decimal(q.end), r.start, Decimal(r.end));
      DecimalInjective(q.end, r.end);
    }
  }

  lemma {:induction false} DigitsRead(n: nat)
    ensures ToNumber(Digits(n)) == Some(n)
  {
    if n < 10 {
      AppendDigit("", 0, n);
      assert "" + [DigitChar(n)] == [DigitChar(n)];
    } else {
      DigitsRead(n / 10);
      AppendDigit(Digits(n / 10), n / 10, n % 10);
    }
  }

  /** A decimal reads as its number, behind a minus if that is negative. */
  lemma DecimalReads(n: int)
    ensures if n < 0 then Decimal(n)[0] == '-' && ToNumber(Decimal(n)[1..]) == Some(-n)
            else ToNumber(Decimal(n)) == Some(n)
  {
    DigitsRead(if n < 0 then -n else n);
  }

  lemma Joined(family: string, period: string, granularity: string, times: string)
    ensures family + ("-" + (period + ("-" + (granularity + ("-" + times)))))
            == (family + "-" + period + "-" + granularity + "-") + times
  {}

  /** A key of each family, with each word of the other parts. */
  lemma KeyTexts(start: int, end: int)
    ensures var times := Decimal(start) + ("-" + Decimal(end));
            && Key(Query(BookingTrends, Some(DayPeriod), Hourly, start, end)) == "booking-trends-day-hour-" + times
            && Key(Query(RevenueTrends, Some(WeekPeriod), Daily, start, end)) == "revenue-trends-week-day-" + times
            && Key(Query(UserGrowth, Some(MonthPeriod), Weekly, start, end)) == "user-growth-month-week-" + times
            && Key(Query(SpaceUtilization, Some(YearPeriod), Monthly, start, end))
               == "space-utilization-year-month-" + times
            && Key(Query(BookingTrends, None, Hourly, start, end)) == "booking-trends-custom-hour-" + times
  {
    hide Decimal;
    var times := Decimal(start) + ("-" + Decimal(end));
    Joined("booking-trends", "day", "hour", times);
    Joined("revenue-trends", "week", "day", times);
    Joined("user-growth", "month", "week", times);
    Joined("space-utilization", "year", "month", times);
    Joined("booking-trends", "custom", "hour", times);
    assert "booking-trends" + "-" + "day" + "-" + "hour" + "-" == "booking-trends-day-hour-";
    assert "revenue-trends" + "-" + "week" + "-" + "day" + "-" == "revenue-trends-week-day-";
    assert "user-growth" + "-" + "month" + "-" + "week" + "-" == "user-growth-month-week-";
    assert "space-utilization" + "-" + "year" + "-" + "month" + "-" == "space-utilization-year-month-";
    assert "booking-trends" + "-" + "custom" + "-" + "hour" + "-" == "booking-trends-custom-hour-";
  }
}
