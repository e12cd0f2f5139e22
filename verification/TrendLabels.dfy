/** Which bucket labels of a time series can coincide. */
module TrendLabels {
  import opened Calendar
  import opened IsoText
  import opened TrendBuckets
  import opened Wrappers

  /** What a label is meant to identify: the hour, the day, the week's Sunday or the month. */
  function Unit(t: int, g: Granularity): int {
    match g
    case Hourly => t / MS_PER_HOUR
    case Monthly => MonthOf(Day(t))
    case _ => LabelDay(t, g)
  }

  /** The next larger unit: the day of an hour, the month of a day, the year of a month. */
  function CoarserUnit(t: int, g: Granularity): int {
    match g
    case Hourly => Day(t)
    case Monthly => YearOf(Day(t))
    case _ => MonthOf(LabelDay(t, g))
  }

  /** A week is labelled by the Sunday on or before its first day. */
  lemma WeekLabelIsSunday(t: int)
    ensures var sunday := LabelDay(t, Weekly);
            WeekDay(sunday) == 0 && sunday <= Day(t) < sunday + 7
  {
    DayAdvances(t, -WeekDay(Day(t)));
  }

  predicate SignedYear(t: int, g: Granularity) { !FourDigitYear(YearOf(LabelDay(t, g))) }

  // ----- units along the cursor

  /** Each step moves on by one hour, one day, seven days, or by one or two months. */
  lemma UnitAdvances(t: int, g: Granularity)
    ensures var step := Unit(NextPeriod(t, g), g) - Unit(t, g);
            match g
            case Weekly => step == 7
            case Monthly => step == if DateOf(Day(t)) > MonthLength(MonthOf(Day(t)) + 1) then 2 else 1
            case _ => step == 1
  {
    hide MonthStart;
    NextPeriodAdvances(t, g);
    hide NextPeriod;
    match g
    case Hourly =>
      assert t + MS_PER_HOUR == (t / MS_PER_HOUR + 1) * MS_PER_HOUR + t % MS_PER_HOUR;
    case Daily =>
      DayAdvances(t, 1);
    case Weekly =>
      DayAdvances(t, 7);
    case Monthly =>
      MonthStep(t);
  }

  lemma UnitGrows(t: int, g: Granularity)
    ensures Unit(NextPeriod(t, g), g) > Unit(t, g)
  {
    hide NextPeriod;
    hide Unit;
    hide MonthOf;
    hide DateOf;
    hide MonthLength;
    UnitAdvances(t, g);
  }

  lemma CursorStep(t: int, g: Granularity, k: nat)
    requires k > 0
    ensures Cursor(t, g, k) == NextPeriod(Cursor(t, g, k - 1), g)
  {
    hide NextPeriod;
  }

  lemma {:induction false} UnitsIncrease(t: int, g: Granularity, i: nat, j: nat)
    requires i < j
    ensures Unit(Cursor(t, g, i), g) < Unit(Cursor(t, g, j), g)
  {
    hide NextPeriod;
    hide Cursor;
    hide Unit;
    CursorStep(t, g, j);
    UnitGrows(Cursor(t, g, j - 1), g);
    if i < j - 1 {
      UnitsIncrease(t, g, i, j - 1);
    }
  }

  // ----- prefixes of the ISO text

  function MonthKey(day: int): string
    requires Printable(day)
  {
    YearText(YearOf(day)) + ("-" + MonthText(day))
  }

  lemma MonthKeyInjective(a: int, b: int)
    requires Printable(a) && Printable(b)
    ensures MonthKey(a) == MonthKey(b) <==> MonthOf(a) == MonthOf(b)
  {
    hide MonthStart;
    hide YearText;
    hide MonthText;
    assert |MonthKey(a)| == |YearText(YearOf(a))| + 3 && |MonthKey(b)| == |YearText(YearOf(b))| + 3;
    if MonthKey(a) == MonthKey(b) {
      ConcatSplit(YearText(YearOf(a)), "-" + MonthText(a), YearText(YearOf(b)), "-" + MonthText(b));
      ConcatSplit("-", MonthText(a), "-", MonthText(b));
      YearTextInjective(YearOf(a), YearOf(b));
      MonthTextInjective(a, b);
    } else if MonthOf(a) == MonthOf(b) {
      MonthTextInjective(a, b);
    }
  }

  /** The three prefixes formatDate takes. With a signed year each of them ends one unit early. */
  lemma IsoPrefixes(t: int)
    requires Printable(Day(t))
    ensures var iso, day := ToIsoString(t), Day(t);
            if FourDigitYear(YearOf(day)) then
              iso[..7] == MonthKey(day) && iso[..10] == DayText(day) && iso[..13] == DayText(day) + ("T" + HourText(t))
            else
              iso[..7] == YearText(YearOf(day)) && iso[..10] == MonthKey(day) && iso[..13] == DayText(day)
  {
    hide MonthStart;
    hide YearText;
    hide MonthText;
    hide DateText;
    hide HourText;
    hide Pad;
    hide ClockText;
    var day := Day(t);
    var year, key, rest := YearText(YearOf(day)), MonthKey(day), HourText(t) + ClockText(t);
    assert DayText(day) == key + ("-" + DateText(day));
    assert ToIsoString(t) == (DayText(day) + ("T" + HourText(t))) + ClockText(t);
    assert ToIsoString(t) == key + ("-" + DateText(day) + ("T" + rest));
    assert ToIsoString(t) == year + ("-" + MonthText(day) + ("-" + DateText(day) + ("T" + rest)));
  }

  lemma HoursOfDay(t: int)
    ensures t / MS_PER_HOUR == 24 * Day(t) + HourOf(t)
    ensures 0 <= HourOf(t) < 24
  {
    assert t == (24 * Day(t) + HourOf(t)) * MS_PER_HOUR + TimeWithinDay(t) % MS_PER_HOUR;
  }

  lemma SliceOfFront(a: string, n: nat, x: string, lo: nat, hi: nat)
    requires lo <= hi <= n <= |a|
    ensures (a[..n] + x)[lo..hi] == a[lo..hi]
  {}

  /** In the years 0 to 9999 a label reads as what it names: year and month; year, month and day; or
      these and the hour, at its start. */
  lemma LabelReads(t: int, g: Granularity)
    requires Printable(LabelDay(t, g)) && !SignedYear(t, g)
    ensures var text, day := LabelText(t, g), LabelDay(t, g);
            && |text| >= 7 && ToNumber(text[..4]) == Some(YearOf(day))
            && text[4] == '-' && ToNumber(text[5..7]) == Some(MonthOf(day) % 12 + 1)
            && match g
               case Monthly => |text| == 7
               case Hourly =>
                 && |text| == 24 && text[7] == '-' && ToNumber(text[8..10]) == Some(DateOf(day))
                 && text[10] == 'T' && ToNumber(text[11..13]) == Some(HourOf(t)) && text[13..] == ":00:00.000Z"
               case _ => |text| == 10 && text[7] == '-' && ToNumber(text[8..]) == Some(DateOf(day))
  {
    hide MonthStart;
    hide ToNumber;
    hide YearText;
    hide DayText;
    hide ToIsoString;
    var u := LabelTime(t, g);
    var day := Day(u);
    var iso, date := ToIsoString(u), DayText(day);
    YearReads(YearOf(day));
    DayTextReads(day);
    IsoReads(u);
    assert |date| == 10 && iso[..10] == date && date[8..] == date[8..10];
    var text := LabelText(t, g);
    hide LabelText;
    assert iso[..4] == date[..4] && iso[5..7] == date[5..7] && iso[8..10] == date[8..10];
    match g
    case Hourly =>
      var suffix := ":00:00.000Z";
      assert text == iso[..13] + suffix;
      SliceOfFront(iso, 13, suffix, 0, 4);
      SliceOfFront(iso, 13, suffix, 5, 7);
      SliceOfFront(iso, 13, suffix, 8, 10);
      SliceOfFront(iso, 13, suffix, 11, 13);
    case Monthly => assert text == iso[..7] && text[..4] == date[..4] && text[5..7] == date[5..7];
    case _ => assert text == date;
  }

  lemma DayAndHourInjective(t: int, u: int)
    requires Printable(Day(t)) && Printable(Day(u))
    requires |DayText(Day(t))| == |DayText(Day(u))|
    ensures DayText(Day(t)) + ("T" + HourText(t)) == DayText(Day(u)) + ("T" + HourText(u))
            <==> t / MS_PER_HOUR == u / MS_PER_HOUR
  {
    hide MonthStart;
    ConcatSplit(DayText(Day(t)), "T" + HourText(t), DayText(Day(u)), "T" + HourText(u));
    ConcatSplit("T", HourText(t), "T", HourText(u));
    DayTextInjective(Day(t), Day(u));
    hide DayText;
    assert Pow10(2) == 100;
    PadOrder(HourOf(t), HourOf(u), 2);
    HoursOfDay(t);
    HoursOfDay(u);
  }

  /** The first character of an ISO text is a sign exactly if its year is written with one. */
  lemma LeadingSign(t: int)
    requires Printable(Day(t))
    ensures IsDigit(ToIsoString(t)[0]) <==> FourDigitYear(YearOf(Day(t)))
  {
    hide MonthStart;
    var year := YearText(YearOf(Day(t)));
    assert IsDigit(year[0]) <==> FourDigitYear(YearOf(Day(t)));
    hide YearText;
    assert ToIsoString(t)[0] == year[0];
  }

  /** Equal units lie in equal larger units and in the same year. */
  lemma UnitsNest(t: int, u: int, g: Granularity)
    requires Unit(t, g) == Unit(u, g)
    ensures CoarserUnit(t, g) == CoarserUnit(u, g)
    ensures YearOf(LabelDay(t, g)) == YearOf(LabelDay(u, g))
  {
    hide MonthStart;
    if g.Hourly? {
      HoursOfDay(t);
      HoursOfDay(u);
    }
  }

  lemma LabelsAreSlices(t: int, u: int, g: Granularity)
    requires Printable(LabelDay(t, g)) && Printable(LabelDay(u, g))
    ensures var n := match g case Hourly => 13 case Monthly => 7 case _ => 10;
            LabelText(t, g) == LabelText(u, g)
            <==> ToIsoString(LabelTime(t, g))[..n] == ToIsoString(LabelTime(u, g))[..n]
  {
    hide MonthStart;
    hide ToIsoString;
    var a, b := ToIsoString(LabelTime(t, g)), ToIsoString(LabelTime(u, g));
    if g.Hourly? {
      ConcatSplit(a[..13], ":00:00.000Z", b[..13], ":00:00.000Z");
    }
  }

  lemma FourDigitLabels(t: int, u: int, g: Granularity)
    requires Printable(LabelDay(t, g)) && Printable(LabelDay(u, g))
    requires !SignedYear(t, g) && !SignedYear(u, g)
    ensures LabelText(t, g) == LabelText(u, g) <==> Unit(t, g) == Unit(u, g)
  {
    hide MonthStart;
    LabelsAreSlices(t, u, g);
    hide LabelText;
    var t', u' := LabelTime(t, g), LabelTime(u, g);
    IsoPrefixes(t');
    IsoPrefixes(u');
    hide ToIsoString;
    hide YearText;
    match g
    case Hourly => DayAndHourInjective(t', u');
    case Monthly => MonthKeyInjective(Day(t'), Day(u'));
    case _ => DayTextInjective(Day(t'), Day(u'));
  }

  lemma SignedLabels(t: int, u: int, g: Granularity)
    requires Printable(LabelDay(t, g)) && Printable(LabelDay(u, g))
    requires SignedYear(t, g) && SignedYear(u, g)
    ensures LabelText(t, g) == LabelText(u, g) <==> CoarserUnit(t, g) == CoarserUnit(u, g)
  {
    hide MonthStart;
    LabelsAreSlices(t, u, g);
    hide LabelText;
    var t', u' := LabelTime(t, g), LabelTime(u, g);
    IsoPrefixes(t');
    IsoPrefixes(u');
    hide ToIsoString;
    match g
    case Hourly => DayTextInjective(Day(t'), Day(u'));
    case Monthly => YearTextInjective(YearOf(Day(t')), YearOf(Day(u')));
    case _ => MonthKeyInjective(Day(t'), Day(u'));
  }

  lemma MixedLabels(t: int, u: int, g: Granularity)
    requires Printable(LabelDay(t, g)) && Printable(LabelDay(u, g))
    requires !SignedYear(t, g) && SignedYear(u, g)
    ensures LabelText(t, g) != LabelText(u, g)
  {
    hide MonthStart;
    LabelsAreSlices(t, u, g);
    hide LabelText;
    LeadingSign(LabelTime(t, g));
    LeadingSign(LabelTime(u, g));
    var a, b := ToIsoString(LabelTime(t, g)), ToIsoString(LabelTime(u, g));
    hide ToIsoString;
    assert forall n :: 7 <= n <= 13 ==> a[..n][0] == a[0] && b[..n][0] == b[0];
  }

  /** Two labels of one granularity are equal exactly when they stand for the same unit, or when
      both years are written with a sign and the next larger unit is the same: there the fixed
      slice of the ISO text cuts the unit itself off. */
  lemma LabelsCoincide(t: int, u: int, g: Granularity)
    requires Printable(LabelDay(t, g)) && Printable(LabelDay(u, g))
    ensures LabelText(t, g) == LabelText(u, g)
            <==> Unit(t, g) == Unit(u, g)
                 || (SignedYear(t, g) && SignedYear(u, g) && CoarserUnit(t, g) == CoarserUnit(u, g))
  {
    hide MonthStart;
    hide LabelText;
    hide Unit;
    hide CoarserUnit;
    if Unit(t, g) == Unit(u, g) {
      UnitsNest(t, u, g);
    }
    if SignedYear(t, g) && SignedYear(u, g) {
      SignedLabels(t, u, g);
    } else if SignedYear(t, g) {
      MixedLabels(u, t, g);
    } else if SignedYear(u, g) {
      MixedLabels(t, u, g);
    } else {
      FourDigitLabels(t, u, g);
    }
  }

  /** Within one series, two buckets share a label exactly when they start in the same larger
      unit of a year outside 0..9999; so all labels of a series within those years differ. */
  lemma SeriesLabels(g: Granularity, start: int, end: int, i: nat, j: nat)
    requires IsTimeValue(start) && IsTimeValue(end)
    requires i < j < |Cuts(g, start, end)| - 1
    ensures var t, u := Cuts(g, start, end)[i], Cuts(g, start, end)[j];
            && Printable(LabelDay(t, g)) && Printable(LabelDay(u, g))
            && Unit(t, g) < Unit(u, g)
            && (LabelText(t, g) == LabelText(u, g)
                <==> SignedYear(t, g) && SignedYear(u, g) && CoarserUnit(t, g) == CoarserUnit(u, g))
  {
    hide MonthStart;
    hide NextPeriod;
    hide LabelText;
    hide Unit;
    hide CoarserUnit;
    CutsPartition(g, start, end);
    var cuts := Cuts(g, start, end);
    var t, u := cuts[i], cuts[j];
    assert start <= t < u <= end by {
      assert i == 0 || cuts[0] < cuts[i];
    }
    UnitsIncrease(start, g, i, j);
    TimeValuesArePrintable(LabelDay(t, g));
    TimeValuesArePrintable(LabelDay(u, g));
    LabelsCoincide(t, u, g);
  }

  /** January and February of the year 10000 are both labelled "+010000". */
  lemma MonthLabelsCollide()
    ensures var january := 2932897 * MS_PER_DAY;
            var february := NextPeriod(january, Monthly);
            && IsTimeValue(january) && Printable(Day(january)) && Printable(Day(february))
            && MonthOf(Day(january)) == 12 * 10000 && MonthOf(Day(february)) == 12 * 10000 + 1
            && LabelText(january, Monthly) == LabelText(february, Monthly)
  {
    YearTenThousand();
    hide MonthStart;
    var january := 2932897 * MS_PER_DAY;
    MonthOfUnique(2932897, 120000);
    MonthsTile(120001);
    NextPeriodAdvances(january, Monthly);
    DayAdvances(january, 31);
    var february := NextPeriod(january, Monthly);
    hide NextPeriod;
    MonthOfUnique(2932928, 120001);
    hide MonthLength;
    LabelsCoincide(january, february, Monthly);
  }
}
