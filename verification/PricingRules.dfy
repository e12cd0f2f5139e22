/** Which pricing rules apply to a booking. Times are UTC milliseconds. */
module PricingRules {
  import opened Wrappers
  import opened Calendar
  import opened IsoText
  import opened DynamicPricing
  import opened Selections

  /** Both times are written HH:mm. */
  datatype PeakWindow = PeakWindow(startTime: string, endTime: string, daysOfWeek: seq<int>)

  /** Both dates are written YYYY-MM-DD. */
  datatype DateRange = DateRange(startDate: string, endDate: string)

  datatype DurationThreshold = DurationThreshold(minHours: real, maxHours: Option<real>)

  datatype Conditions = Conditions(
    peakHours: Option<seq<PeakWindow>>, dateRanges: Option<seq<DateRange>>,
    demandThresholds: Option<seq<real>>, durationThresholds: Option<seq<DurationThreshold>>)

  datatype Rule = Rule(
    priced: PricedRule, priority: int, createdAt: int, spaceId: Option<string>, conditions: Conditions)

  datatype Booking = Booking(start: int, end: int, hours: real)

  // ----- clock times

  function UntilColon(s: string): (prefix: string)
    ensures |prefix| <= |s|
  {
    if s == "" || s[0] == ':' then "" else [s[0]] + UntilColon(s[1..])
  }

  /** What follows the first colon, if there is one. */
  function AfterColon(s: string): Option<string> {
    var k := |UntilColon(s)|;
    if k == |s| then None else Some(s[k + 1..])
  }

  function Clock(hours: Option<nat>, minutes: Option<nat>): Option<int> {
    if hours.Some? && minutes.Some? then Some(hours.value * 60 + minutes.value) else None
  }

  /** parseTime: hours and minutes are the first two fields between colons; None is NaN. */
  function ParseTime(s: string): Option<int> {
    match AfterColon(s)
    case None => None
    case Some(rest) => Clock(ToNumber(UntilColon(s)), ToNumber(UntilColon(rest)))
  }

  lemma TwoDigitNumber(n: nat)
    requires n < 100
    ensures ToNumber(Pad(n, 2)) == Some(n) && ':' !in Pad(n, 2)
  {
    TwoDigits(n);
    AppendDigit("", 0, n / 10);
    hide DigitChar;
    assert "" + [DigitChar(n / 10)] == [DigitChar(n / 10)];
    AppendDigit([DigitChar(n / 10)], n / 10, n % 10);
    assert [DigitChar(n / 10)] + [DigitChar(n % 10)] == Pad(n, 2);
  }

  lemma {:induction false} ColonAfter(s: string, rest: string)
    requires ':' !in s
    ensures UntilColon(s + ":" + rest) == s && UntilColon(s) == s
  {
    if s == "" {
      assert s + ":" + rest == ":" + rest;
    } else {
      assert (s + ":" + rest)[1..] == s[1..] + ":" + rest;
      ColonAfter(s[1..], rest);
      assert s == [s[0]] + s[1..];
    }
  }

  lemma SplitClock(hours: string, minutes: string)
    requires ':' !in hours && ':' !in minutes
    ensures UntilColon(hours + ":" + minutes) == hours && UntilColon(minutes) == minutes
    ensures AfterColon(hours + ":" + minutes) == Some(minutes)
  {
    ColonAfter(hours, minutes);
    ColonAfter(minutes, "");
    hide UntilColon;
    assert (hours + ":" + minutes)[|hours| + 1..] == minutes;
  }

  lemma ReadClock(hours: string, minutes: string, h: nat, m: nat)
    requires ':' !in hours && ':' !in minutes
    requires ToNumber(hours) == Some(h) && ToNumber(minutes) == Some(m)
    ensures ParseTime(hours + ":" + minutes) == Some(h * 60 + m)
  {
    hide ToNumber;
    SplitClock(hours, minutes);
    hide UntilColon;
    hide AfterColon;
  }

  /** A clock time is read back as its minute of the day. */
  lemma ClockRoundTrip(h: nat, m: nat)
    requires h < 100 && m < 100
    ensures ParseTime(Pad(h, 2) + ":" + Pad(m, 2)) == Some(h * 60 + m)
  {
    TwoDigitNumber(h);
    TwoDigitNumber(m);
    hide Pad;
    hide ParseTime;
    hide ToNumber;
    ReadClock(Pad(h, 2), Pad(m, 2), h, m);
  }

  /** Of a text with two fields or more the first two count; without a colon there is no time, nor
      when one of the two is no number. */
  lemma ParsedFields(hours: string, minutes: string, more: string)
    requires ':' !in hours && ':' !in minutes
    ensures ParseTime(hours).None?
    ensures ParseTime(hours + ":" + minutes) == ParseTime(hours + ":" + (minutes + ":" + more))
    ensures ParseTime(hours + ":" + minutes)
            == if ToNumber(hours).Some? && ToNumber(minutes).Some?
               then Some(60 * ToNumber(hours).value + ToNumber(minutes).value) else None
  {
    hide ToNumber;
    SplitClock(hours, minutes);
    ColonAfter(hours, minutes + ":" + more);
    ColonAfter(minutes, more);
    hide UntilColon;
    assert (hours + ":" + (minutes + ":" + more))[|hours| + 1..] == minutes + ":" + more;
  }

  // ----- peak hours

  function MinuteOfDay(t: int): int { TimeWithinDay(t) / 60000 }

  predicate TimeRangesOverlap(start1: int, end1: int, start2: int, end2: int) {
    start1 < end2 && end1 > start2
  }

  predicate PeakHit(peak: PeakWindow, booking: Booking) {
    && WeekDay(Day(booking.start)) in peak.daysOfWeek
    && match (ParseTime(peak.startTime), ParseTime(peak.endTime))
       case (Some(from), Some(until)) =>
         TimeRangesOverlap(MinuteOfDay(booking.start), MinuteOfDay(booking.end), from, until)
       case _ => false  // every comparison with NaN is false
  }

  predicate IsPeakHoursApplicable(peakHours: Option<seq<PeakWindow>>, booking: Booking) {
    peakHours.Some? && exists i :: 0 <= i < |peakHours.value| && PeakHit(peakHours.value[i], booking)
  }

  /** The window opens at a time of the day and closes at one, or at midnight: on the same day if
      that is later, and on the next day if not. */
  predicate IsWindow(peak: PeakWindow) {
    && ParseTime(peak.startTime).Some? && ParseTime(peak.endTime).Some?
    && 0 <= ParseTime(peak.startTime).value < 1440 && 0 <= ParseTime(peak.endTime).value <= 1440
  }

  function Opens(peak: PeakWindow): int
    requires IsWindow(peak)
  {
    ParseTime(peak.startTime).value
  }

  function Closes(peak: PeakWindow): int
    requires IsWindow(peak)
  {
    ParseTime(peak.endTime).value
  }

  /** Two clock times, the second of which may be 24:00, are a window. */
  lemma ClocksAreAWindow(h: nat, m: nat, h': nat, m': nat, days: seq<int>)
    requires h < 24 && m < 60 && m' < 60 && h' * 60 + m' <= 1440
    ensures var peak := PeakWindow(Pad(h, 2) + ":" + Pad(m, 2), Pad(h', 2) + ":" + Pad(m', 2), days);
            IsWindow(peak) && Opens(peak) == h * 60 + m && Closes(peak) == h' * 60 + m'
  {
    hide Pad;
    hide ParseTime;
    ClockRoundTrip(h, m);
    ClockRoundTrip(h', m');
  }

  /** The minute of the day is in the window of this day, or in what is left of that of the day
      before. */
  predicate InWindow(peak: PeakWindow, day: int, minute: int)
    requires IsWindow(peak)
  {
    && 0 <= minute < 1440
    && if Opens(peak) < Closes(peak) then WeekDay(day) in peak.daysOfWeek && Opens(peak) <= minute < Closes(peak)
       else || (WeekDay(day) in peak.daysOfWeek && Opens(peak) <= minute)
            || (WeekDay(day - 1) in peak.daysOfWeek && minute < Closes(peak))
  }

  /** The minute of the time line, counted from the epoch. */
  function MinuteOf(t: int): int { t / 60000 }

  predicate InBooking(booking: Booking, day: int, minute: int) {
    MinuteOf(booking.start) <= 1440 * day + minute < MinuteOf(booking.end)
  }

  /** What a peak window is for: some minute of the booking, on any of its days, is in the window. */
  ghost predicate PeakMeets(peak: PeakWindow, booking: Booking)
    requires IsWindow(peak)
  {
    exists day, minute :: InBooking(booking, day, minute) && InWindow(peak, day, minute)
  }

  /** The booking ends at a later minute than it starts. */
  predicate IsInterval(booking: Booking) { MinuteOf(booking.start) < MinuteOf(booking.end) }

  lemma MinutesOf(t: int)
    ensures MinuteOf(t) == 1440 * Day(t) + MinuteOfDay(t)
    ensures 0 <= MinuteOfDay(t) < 1440
  {
    assert t == (1440 * Day(t) + MinuteOfDay(t)) * 60000 + TimeWithinDay(t) % 60000;
  }

  /** The part of a window that lies in one day, so many days after the window's weekday. */
  datatype Span = Span(from: int, until: int, shift: nat)

  function Spans(peak: PeakWindow): seq<Span>
    requires IsWindow(peak)
  {
    if Opens(peak) < Closes(peak) then [Span(Opens(peak), Closes(peak), 0)]
    else [Span(Opens(peak), 1440, 0), Span(0, Closes(peak), 1)]
  }

  predicate OnDay(span: Span, days: seq<int>, day: int) { WeekDay(day - span.shift) in days }

  predicate InSpan(span: Span, days: seq<int>, day: int, minute: int) {
    OnDay(span, days, day) && span.from <= minute < span.until
  }

  /** The days and the clock times at which the booking starts and ends show that it meets the span:
      within its one day, or on its first day, on its last, or on a day in between. */
  predicate Touches(span: Span, days: seq<int>, booking: Booking) {
    var first, last := Day(booking.start), Day(booking.end);
    && span.from < span.until
    && if first == last then
         && IsInterval(booking) && OnDay(span, days, first)
         && MinuteOfDay(booking.start) < span.until && MinuteOfDay(booking.end) > span.from
       else
         || (OnDay(span, days, first) && MinuteOfDay(booking.start) < span.until)
         || (OnDay(span, days, last) && MinuteOfDay(booking.end) > span.from)
         || exists day :: first < day < last && OnDay(span, days, day)
  }

  lemma TouchingMeets(span: Span, days: seq<int>, booking: Booking) returns (day: int, minute: int)
    requires booking.start <= booking.end && 0 <= span.from && span.until <= 1440
    requires Touches(span, days, booking)
    ensures InBooking(booking, day, minute) && InSpan(span, days, day, minute)
  {
    MinutesOf(booking.start);
    MinutesOf(booking.end);
    assert Day(booking.start) <= Day(booking.end);
    hide Day;
    hide MinuteOf;
    hide MinuteOfDay;
    hide OnDay;
    var first, last, start := Day(booking.start), Day(booking.end), MinuteOfDay(booking.start);
    if OnDay(span, days, first) && start < span.until
       && (first != last || MinuteOfDay(booking.end) > span.from) {
      day, minute := first, if start >= span.from then start else span.from;
    } else if OnDay(span, days, last) && MinuteOfDay(booking.end) > span.from {
      day, minute := last, span.from;
    } else {
      day :| first < day < last && OnDay(span, days, day);
      minute := span.from;
    }
  }

  lemma MeetingTouches(span: Span, days: seq<int>, booking: Booking, day: int, minute: int)
    requires booking.start <= booking.end && 0 <= span.from && span.until <= 1440
    requires InBooking(booking, day, minute) && InSpan(span, days, day, minute)
    ensures Touches(span, days, booking)
  {
    MinutesOf(booking.start);
    MinutesOf(booking.end);
    assert Day(booking.start) <= Day(booking.end);
    hide Day;
    hide MinuteOf;
    hide MinuteOfDay;
    hide OnDay;
    assert Day(booking.start) <= day <= Day(booking.end);
  }

  predicate TouchesNone(peak: PeakWindow, booking: Booking)
    requires IsWindow(peak)
  {
    forall k :: 0 <= k < |Spans(peak)| ==> !Touches(Spans(peak)[k], peak.daysOfWeek, booking)
  }

  lemma MeetsExactly(peak: PeakWindow, booking: Booking)
    requires booking.start <= booking.end && IsWindow(peak)
    ensures PeakMeets(peak, booking) <==> !TouchesNone(peak, booking)
  {
    hide ParseTime;
    hide Touches;
    hide InBooking;
    hide WeekDay;
    if k :| 0 <= k < |Spans(peak)| && Touches(Spans(peak)[k], peak.daysOfWeek, booking) {
      var day, minute := TouchingMeets(Spans(peak)[k], peak.daysOfWeek, booking);
      assert InWindow(peak, day, minute);
    }
    if day, minute :| InBooking(booking, day, minute) && InWindow(peak, day, minute) {
      var k := if InSpan(Spans(peak)[0], peak.daysOfWeek, day, minute) then 0 else 1;
      MeetingTouches(Spans(peak)[k], peak.daysOfWeek, booking, day, minute);
    }
  }

  /** The comparison of the test: the weekday of the first day, and the clock times. */
  predicate ClocksOverlap(peak: PeakWindow, booking: Booking)
    requires IsWindow(peak)
  {
    && WeekDay(Day(booking.start)) in peak.daysOfWeek
    && MinuteOfDay(booking.start) < Closes(peak) && MinuteOfDay(booking.end) > Opens(peak)
  }

  lemma OverlapTouches(peak: PeakWindow, booking: Booking)
    requires booking.start <= booking.end && IsWindow(peak) && IsInterval(booking)
    ensures ClocksOverlap(peak, booking) ==> !TouchesNone(peak, booking)
  {
    MinutesOf(booking.start);
    MinutesOf(booking.end);
    hide ParseTime;
    hide Day;
    hide MinuteOf;
    hide MinuteOfDay;
    hide WeekDay;
    assert ClocksOverlap(peak, booking) ==> Touches(Spans(peak)[0], peak.daysOfWeek, booking);
  }

  lemma NoMinutesTouchNone(peak: PeakWindow, booking: Booking)
    requires booking.start <= booking.end && IsWindow(peak) && !IsInterval(booking)
    ensures TouchesNone(peak, booking)
  {
    MinutesOf(booking.start);
    MinutesOf(booking.end);
    hide ParseTime;
    assert Day(booking.start) <= Day(booking.end) && MinuteOf(booking.start) <= MinuteOf(booking.end);
    hide Day;
    hide MinuteOf;
    hide MinuteOfDay;
    hide WeekDay;
  }

  /** For any booking and any window, also one that closes after midnight: where the test says yes
      it is right unless the booking has no whole minute, and where it says no it is right exactly
      when no part of the window is met at either end of the booking or on a day in between. */
  lemma PeakHitExactly(peak: PeakWindow, booking: Booking)
    requires booking.start <= booking.end && IsWindow(peak)
    ensures (PeakHit(peak, booking) <==> PeakMeets(peak, booking))
            <==> if ClocksOverlap(peak, booking) then IsInterval(booking) else TouchesNone(peak, booking)
  {
    hide ParseTime;
    hide Day;
    hide MinuteOfDay;
    hide WeekDay;
    hide PeakMeets;
    hide TouchesNone;
    hide IsInterval;
    MeetsExactly(peak, booking);
    if IsInterval(booking) {
      OverlapTouches(peak, booking);
    } else {
      NoMinutesTouchNone(peak, booking);
    }
  }

  /** A booking within one day and a window that closes on that day: the test is right. */
  lemma DayWindowIsSeen(peak: PeakWindow, booking: Booking)
    requires IsInterval(booking) && Day(booking.start) == Day(booking.end)
    requires IsWindow(peak) && Opens(peak) < Closes(peak)
    ensures PeakHit(peak, booking) <==> PeakMeets(peak, booking)
  {
    MinutesOf(booking.start);
    MinutesOf(booking.end);
    PeakHitExactly(peak, booking);
    hide ParseTime;
    hide Day;
    hide MinuteOfDay;
    hide WeekDay;
    hide PeakHit;
    hide PeakMeets;
  }

  /** A booking within one day and a window that closes after midnight: the test is right exactly
      when the booking is both late and early on a day of the window, or meets neither the window of
      its day nor that of the day before. */
  lemma NightWindowExactly(peak: PeakWindow, booking: Booking)
    requires IsInterval(booking) && Day(booking.start) == Day(booking.end)
    requires IsWindow(peak) && Closes(peak) <= Opens(peak)
    ensures var late, early := MinuteOfDay(booking.end) > Opens(peak), MinuteOfDay(booking.start) < Closes(peak);
            var today := WeekDay(Day(booking.start)) in peak.daysOfWeek;
            var yesterday := WeekDay(Day(booking.start) - 1) in peak.daysOfWeek;
            (PeakHit(peak, booking) <==> PeakMeets(peak, booking))
            <==> (today && late && early) || (!(today && late) && !(yesterday && early))
  {
    MinutesOf(booking.start);
    MinutesOf(booking.end);
    PeakHitExactly(peak, booking);
    hide ParseTime;
    hide Day;
    hide MinuteOfDay;
    hide WeekDay;
    hide PeakHit;
    hide PeakMeets;
    var head, tail := Spans(peak)[0], Spans(peak)[1];
    assert TouchesNone(peak, booking)
           <==> !Touches(head, peak.daysOfWeek, booking) && !Touches(tail, peak.daysOfWeek, booking);
    assert OnDay(head, peak.daysOfWeek, Day(booking.start)) <==> WeekDay(Day(booking.start)) in peak.daysOfWeek;
  }

  /** A peak rule as a whole, for any booking and any windows. For a booking within one day and
      windows that close on their day it applies exactly when some minute is in the booking and in
      a window; in general that is so if and only if the test says yes to a window and the booking
      has a whole minute, or the booking meets none of the windows. */
  lemma PeakRuleMeansOverlap(peakHours: seq<PeakWindow>, booking: Booking)
    requires booking.start <= booking.end
    requires forall i :: 0 <= i < |peakHours| ==> IsWindow(peakHours[i])
    ensures var meets := exists i :: 0 <= i < |peakHours| && PeakMeets(peakHours[i], booking);
            var yes := exists i :: 0 <= i < |peakHours| && ClocksOverlap(peakHours[i], booking);
            && ((IsPeakHoursApplicable(Some(peakHours), booking) <==> meets)
                <==> if yes then IsInterval(booking)
                     else forall i :: 0 <= i < |peakHours| ==> TouchesNone(peakHours[i], booking))
            && (IsInterval(booking) && Day(booking.start) == Day(booking.end)
                && (forall i :: 0 <= i < |peakHours| ==> Opens(peakHours[i]) < Closes(peakHours[i]))
                ==> (IsPeakHoursApplicable(Some(peakHours), booking) <==> meets))
  {
    hide PeakMeets;
    hide IsInterval;
    hide TouchesNone;
    hide ParseTime;
    hide Day;
    hide MinuteOfDay;
    hide WeekDay;
    forall i | 0 <= i < |peakHours|
      ensures PeakHit(peakHours[i], booking) <==> ClocksOverlap(peakHours[i], booking)
      ensures PeakMeets(peakHours[i], booking) <==> !TouchesNone(peakHours[i], booking)
      ensures ClocksOverlap(peakHours[i], booking) && IsInterval(booking) ==> !TouchesNone(peakHours[i], booking)
      ensures !IsInterval(booking) ==> TouchesNone(peakHours[i], booking)
    {
      MeetsExactly(peakHours[i], booking);
      if IsInterval(booking) {
        OverlapTouches(peakHours[i], booking);
      } else {
        NoMinutesTouchNone(peakHours[i], booking);
      }
    }
    forall i | 0 <= i < |peakHours| && IsInterval(booking) && Day(booking.start) == Day(booking.end)
               && Opens(peakHours[i]) < Closes(peakHours[i])
      ensures PeakHit(peakHours[i], booking) <==> PeakMeets(peakHours[i], booking)
    {
      DayWindowIsSeen(peakHours[i], booking);
    }
  }

  lemma ClockIs(h: nat, m: nat, text: string)
    requires h < 24 && m < 60
    requires text == [DigitChar(h / 10), DigitChar(h % 10)] + ":" + [DigitChar(m / 10), DigitChar(m % 10)]
    ensures ParseTime(text) == Some(h * 60 + m)
  {
    TwoDigits(h);
    TwoDigits(m);
    ClockRoundTrip(h, m);
  }

  lemma ClockTimes()
    ensures ParseTime("23:00") == Some(23 * 60) && ParseTime("23:30") == Some(23 * 60 + 30)
    ensures ParseTime("09:00") == Some(9 * 60) && ParseTime("11:00") == Some(11 * 60)
    ensures ParseTime("22:00") == Some(22 * 60) && ParseTime("02:00") == Some(2 * 60)
  {
    hide ParseTime;
    ClockIs(22, 0, "22:00");
    ClockIs(2, 0, "02:00");
    ClockIs(23, 0, "23:00");
    ClockIs(23, 30, "23:30");
    ClockIs(9, 0, "09:00");
    ClockIs(11, 0, "11:00");
  }

  /** Three bookings that meet a window to which the rule does not apply. The epoch was a Thursday:
      Thursday 22:00 to Friday 06:00 and a window 23:00-23:30 on Thursdays; Thursday 22:00 to
      Friday 10:00 and a window 09:00-11:00 on Thursdays and Fridays; Thursday 22:00 to Friday
      12:00 and a window 09:00-11:00 on Fridays alone. */
  lemma OvernightBookingsAreMissed()
    ensures var peak := PeakWindow("23:00", "23:30", [4]);
            var booking := Booking(22 * MS_PER_HOUR, 30 * MS_PER_HOUR, 8.0);
            IsWindow(peak) && IsInterval(booking) && PeakMeets(peak, booking) && !PeakHit(peak, booking)
    ensures var peak := PeakWindow("09:00", "11:00", [4, 5]);
            var booking := Booking(22 * MS_PER_HOUR, 34 * MS_PER_HOUR, 12.0);
            IsWindow(peak) && IsInterval(booking) && PeakMeets(peak, booking) && !PeakHit(peak, booking)
    ensures var peak := PeakWindow("09:00", "11:00", [5]);
            var booking := Booking(22 * MS_PER_HOUR, 36 * MS_PER_HOUR, 14.0);
            IsWindow(peak) && IsInterval(booking) && PeakMeets(peak, booking) && !PeakHit(peak, booking)
  {
    ClockTimes();
    hide ParseTime;
    assert WeekDay(0) == 4 && WeekDay(1) == 5;
    assert InBooking(Booking(22 * MS_PER_HOUR, 30 * MS_PER_HOUR, 8.0), 0, 23 * 60);
    assert InWindow(PeakWindow("23:00", "23:30", [4]), 0, 23 * 60);
    assert InBooking(Booking(22 * MS_PER_HOUR, 34 * MS_PER_HOUR, 12.0), 1, 9 * 60);
    assert InWindow(PeakWindow("09:00", "11:00", [4, 5]), 1, 9 * 60);
    assert InBooking(Booking(22 * MS_PER_HOUR, 36 * MS_PER_HOUR, 14.0), 1, 9 * 60);
    assert InWindow(PeakWindow("09:00", "11:00", [5]), 1, 9 * 60);
  }

  /** Thursday 23:00 to 23:30 lies in a window 22:00-02:00 of Thursdays, and the test says no. */
  lemma NightWindowIsMissed()
    ensures var peak := PeakWindow("22:00", "02:00", [4]);
            var booking := Booking(23 * MS_PER_HOUR, 23 * MS_PER_HOUR + 1800000, 0.5);
            IsWindow(peak) && IsInterval(booking) && PeakMeets(peak, booking) && !PeakHit(peak, booking)
  {
    ClockTimes();
    hide ParseTime;
    assert WeekDay(0) == 4;
    assert InBooking(Booking(23 * MS_PER_HOUR, 23 * MS_PER_HOUR + 1800000, 0.5), 0, 23 * 60);
    assert InWindow(PeakWindow("22:00", "02:00", [4]), 0, 23 * 60);
  }

  // ----- seasons

  predicate RangeHit(startDate: string, endDate: string, range: DateRange) {
    AtMost(startDate, range.endDate) && AtMost(range.startDate, endDate)
  }

  /** isSeasonalApplicable, which special events share. */
  predicate IsSeasonalApplicable(dateRanges: Option<seq<DateRange>>, booking: Booking)
    requires Printable(Day(booking.start)) && Printable(Day(booking.end))
  {
    && dateRanges.Some?
    && exists i :: 0 <= i < |dateRanges.value|
                   && RangeHit(DayText(Day(booking.start)), DayText(Day(booking.end)), dateRanges.value[i])
  }

  /** The range is written with the dates of these two days, years 0 to 9999. */
  predicate IsRange(range: DateRange, first: int, last: int) {
    && FourDigitYear(YearOf(first)) && FourDigitYear(YearOf(last))
    && range == DateRange(DayText(first), DayText(last))
  }

  predicate InBothRanges(day: int, booking: Booking, first: int, last: int) {
    Day(booking.start) <= day <= Day(booking.end) && first <= day <= last
  }

  lemma {:induction false} LessIsAsymmetric(a: string, b: string)
    requires Less(a, b)
    ensures !Less(b, a)
  {
    if a != "" && a[0] == b[0] {
      LessIsAsymmetric(a[1..], b[1..]);
    }
  }

  lemma DayNotAfter(a: int, b: int)
    requires Printable(a) && YearOf(a) <= 9999 && FourDigitYear(YearOf(b))
    ensures AtMost(DayText(a), DayText(b)) <==> a <= b
  {
    hide MonthStart;
    if FourDigitYear(YearOf(a)) {
      DayTextOrder(a, b);
    } else {
      SignedYearsSortFirst(a, b);
      MonthsOrderDays(a, b);
      LessIsAsymmetric(DayText(a), DayText(b));
    }
  }

  lemma DayNotBefore(a: int, b: int)
    requires FourDigitYear(YearOf(a)) && Printable(b) && YearOf(b) <= 9999
    ensures AtMost(DayText(a), DayText(b)) <==> a <= b
  {
    hide MonthStart;
    if FourDigitYear(YearOf(b)) {
      DayTextOrder(a, b);
    } else {
      SignedYearsSortFirst(b, a);
      MonthsOrderDays(b, a);
    }
  }

  /** On days the string comparisons decide the overlap of the booking's days with the range,
      unless the booking reaches into a year that is written with a plus sign. */
  lemma RangeHitMeansOverlap(booking: Booking, range: DateRange, first: int, last: int)
    requires Printable(Day(booking.start)) && Printable(Day(booking.end)) && booking.start <= booking.end
    requires IsRange(range, first, last) && YearOf(Day(booking.end)) <= 9999
    ensures RangeHit(DayText(Day(booking.start)), DayText(Day(booking.end)), range)
            <==> Day(booking.start) <= last && first <= Day(booking.end)
  {
    hide MonthStart;
    var from, until := Day(booking.start), Day(booking.end);
    MonthOfMonotone(from, until);
    DayNotAfter(from, last);
    DayNotBefore(first, until);
    hide DayText;
  }

  /** A booking that ends in the year 10000 or later meets no range at all. */
  lemma NoSeasonAfter9999(booking: Booking, range: DateRange, first: int, last: int)
    requires Printable(Day(booking.start)) && Printable(Day(booking.end))
    requires IsRange(range, first, last) && YearOf(Day(booking.end)) > 9999
    ensures !RangeHit(DayText(Day(booking.start)), DayText(Day(booking.end)), range)
  {
    hide MonthStart;
    SignedYearsSortFirst(Day(booking.end), first);
  }

  lemma RangeBefore(range: DateRange, first: int, last: int, day: int)
    requires IsRange(range, first, last) && YearOf(day) > 9999
    ensures first <= day
  {
    hide MonthStart;
    MonthsOrderDays(first, day);
  }

  ghost predicate SomeDayInBoth(booking: Booking, firsts: seq<int>, lasts: seq<int>)
    requires |firsts| == |lasts|
  {
    exists i, day :: 0 <= i < |firsts| && InBothRanges(day, booking, firsts[i], lasts[i])
  }

  predicate MissesAll(booking: Booking, firsts: seq<int>, lasts: seq<int>)
    requires |firsts| == |lasts|
  {
    forall i :: 0 <= i < |lasts| && firsts[i] <= Day(booking.end) ==> Day(booking.start) > lasts[i]
  }

  lemma SomeDayExactly(booking: Booking, firsts: seq<int>, lasts: seq<int>)
    requires |firsts| == |lasts| && Day(booking.start) <= Day(booking.end)
    requires forall i :: 0 <= i < |firsts| ==> firsts[i] <= lasts[i]
    ensures SomeDayInBoth(booking, firsts, lasts) <==> !MissesAll(booking, firsts, lasts)
  {
    forall i | 0 <= i < |firsts|
      ensures (exists day :: InBothRanges(day, booking, firsts[i], lasts[i]))
              <==> firsts[i] <= Day(booking.end) && Day(booking.start) <= lasts[i]
    {
      var day := if firsts[i] >= Day(booking.start) then firsts[i] else Day(booking.start);
      assert firsts[i] <= Day(booking.end) && Day(booking.start) <= lasts[i]
             ==> InBothRanges(day, booking, firsts[i], lasts[i]);
    }
  }

  /** A seasonal rule applies exactly when some UTC day lies both in the booking and in one of
      its ranges, if and only if the booking ends before the year 10000 or starts after every
      range. The ranges are those of the days firsts[i] to lasts[i]. */
  lemma SeasonalRuleMeansOverlap(ranges: seq<DateRange>, firsts: seq<int>, lasts: seq<int>, booking: Booking)
    requires Printable(Day(booking.start)) && Printable(Day(booking.end)) && booking.start <= booking.end
    requires |firsts| == |lasts| == |ranges|
    requires forall i :: 0 <= i < |ranges| ==> IsRange(ranges[i], firsts[i], lasts[i]) && firsts[i] <= lasts[i]
    ensures (IsSeasonalApplicable(Some(ranges), booking) <==> SomeDayInBoth(booking, firsts, lasts))
            <==> YearOf(Day(booking.end)) <= 9999 || forall i :: 0 <= i < |lasts| ==> Day(booking.start) > lasts[i]
  {
    hide MonthStart;
    hide RangeHit;
    hide DayText;
    hide IsRange;
    var from, until := Day(booking.start), Day(booking.end);
    forall i | 0 <= i < |ranges|
      ensures YearOf(until) <= 9999
              ==> (RangeHit(DayText(from), DayText(until), ranges[i]) <==> from <= lasts[i] && firsts[i] <= until)
      ensures YearOf(until) > 9999 ==> !RangeHit(DayText(from), DayText(until), ranges[i]) && firsts[i] <= until
    {
      if YearOf(until) <= 9999 {
        RangeHitMeansOverlap(booking, ranges[i], firsts[i], lasts[i]);
      } else {
        NoSeasonAfter9999(booking, ranges[i], firsts[i], lasts[i]);
        RangeBefore(ranges[i], firsts[i], lasts[i], until);
      }
    }
    SomeDayExactly(booking, firsts, lasts);
  }

  lemma LastDayOf9999()
    ensures FourDigitYear(YearOf(2932896)) && Printable(2932897) && YearOf(2932897) == 10000
    ensures DayText(2932896) == "9999-12-31"
  {
    YearTenThousand();
    hide MonthStart;
    MonthOfUnique(2932896, 119999);
    MonthOfUnique(2932897, 120000);
    TwoDigits(12);
    TwoDigits(31);
    assert Pad(9999, 4) == Pad(99, 2) + "9" + "9" && Pad(99, 2) == "99" by {
      TwoDigits(99);
      assert Pad(9999, 4) == Pad(999, 3) + "9" && Pad(999, 3) == Pad(99, 2) + "9";
    }
  }

  /** A booking of the 31st of December 9999 that runs on to the next day is not covered by a range
      of just that date, for its own last day is written "+010000-01-01". */
  lemma SeasonBefore10000IsMissed()
    ensures var booking := Booking(2932896 * MS_PER_DAY, 2932897 * MS_PER_DAY, 24.0);
            var range := DateRange("9999-12-31", "9999-12-31");
            && Printable(Day(booking.start)) && Printable(Day(booking.end))
            && IsRange(range, 2932896, 2932896) && InBothRanges(2932896, booking, 2932896, 2932896)
            && !IsSeasonalApplicable(Some([range]), booking)
  {
    LastDayOf9999();
    hide MonthStart;
    hide DayText;
    hide RangeHit;
    var booking := Booking(2932896 * MS_PER_DAY, 2932897 * MS_PER_DAY, 24.0);
    var range := DateRange("9999-12-31", "9999-12-31");
    assert Day(booking.start) == 2932896 && Day(booking.end) == 2932897;
    NoSeasonAfter9999(booking, range, 2932896, 2932896);
  }

  // ----- demand and duration

  /** Ten bookings count as full occupancy. */
  function OccupancyPercentage(bookingCount: nat): real {
    var percentage := bookingCount as real / 10.0 * 100.0;
    if percentage < 100.0 then percentage else 100.0
  }

  predicate IsDemandBasedApplicable(thresholds: Option<seq<real>>, bookingCount: nat) {
    && thresholds.Some?
    && exists i :: 0 <= i < |thresholds.value| && OccupancyPercentage(bookingCount) >= thresholds.value[i]
  }

  /** A maximum of zero counts as no maximum. */
  predicate IsBulkDiscountApplicable(thresholds: Option<seq<DurationThreshold>>, hours: real) {
    && thresholds.Some?
    && exists i :: 0 <= i < |thresholds.value|
                   && hours >= thresholds.value[i].minHours
                   && (thresholds.value[i].maxHours.GetOr(0.0) == 0.0 || hours <= thresholds.value[i].maxHours.value)
  }

  // ----- the applicable rules

  /** isRuleApplicable; counts gives the number of bookings that overlap for a rule's space. */
  predicate IsRuleApplicable(rule: Rule, booking: Booking, counts: Option<string> -> nat)
    requires Printable(Day(booking.start)) && Printable(Day(booking.end))
  {
    match rule.priced.ruleType
    case PeakHours => IsPeakHoursApplicable(rule.conditions.peakHours, booking)
    case Seasonal => IsSeasonalApplicable(rule.conditions.dateRanges, booking)
    case DemandBased => IsDemandBasedApplicable(rule.conditions.demandThresholds, counts(rule.spaceId))
    case BulkDiscount => IsBulkDiscountApplicable(rule.conditions.durationThresholds, booking.hours)
    case SpecialEvent => IsSeasonalApplicable(rule.conditions.dateRanges, booking)
  }

  lemma SomeThreshold(thresholds: Option<seq<real>>, bookingCount: nat)
    ensures IsDemandBasedApplicable(thresholds, bookingCount)
            <==> exists threshold :: threshold in thresholds.GetOr([])
                                     && threshold <= 100.0 && threshold <= 10.0 * bookingCount as real
  {
    if IsDemandBasedApplicable(thresholds, bookingCount) {
      var k :| 0 <= k < |thresholds.value| && OccupancyPercentage(bookingCount) >= thresholds.value[k];
      assert thresholds.value[k] in thresholds.GetOr([]);
    }
  }

  lemma DemandExactly(rule: Rule, booking: Booking, counts: Option<string> -> nat)
    requires Printable(Day(booking.start)) && Printable(Day(booking.end)) && rule.priced.ruleType.DemandBased?
    ensures IsRuleApplicable(rule, booking, counts)
            <==> exists threshold :: threshold in rule.conditions.demandThresholds.GetOr([])
                                     && threshold <= 100.0 && threshold <= 10.0 * counts(rule.spaceId) as real
  {
    hide IsDemandBasedApplicable;
    hide MonthStart;
    SomeThreshold(rule.conditions.demandThresholds, counts(rule.spaceId));
  }

  lemma SomeDuration(thresholds: Option<seq<DurationThreshold>>, hours: real)
    ensures IsBulkDiscountApplicable(thresholds, hours)
            <==> exists t :: t in thresholds.GetOr([]) && t.minHours <= hours
                             && (t.maxHours.None? || t.maxHours.value == 0.0 || hours <= t.maxHours.value)
  {
    if t :| t in thresholds.GetOr([]) && t.minHours <= hours
            && (t.maxHours.None? || t.maxHours.value == 0.0 || hours <= t.maxHours.value) {
      var k :| 0 <= k < |thresholds.value| && thresholds.value[k] == t;
    }
  }

  lemma BulkExactly(rule: Rule, booking: Booking, counts: Option<string> -> nat)
    requires Printable(Day(booking.start)) && Printable(Day(booking.end)) && rule.priced.ruleType.BulkDiscount?
    ensures IsRuleApplicable(rule, booking, counts)
            <==> exists t :: t in rule.conditions.durationThresholds.GetOr([]) && t.minHours <= booking.hours
                             && (t.maxHours.None? || t.maxHours.value == 0.0 || booking.hours <= t.maxHours.value)
  {
    hide IsBulkDiscountApplicable;
    hide MonthStart;
    SomeDuration(rule.conditions.durationThresholds, booking.hours);
  }

  lemma PeakExactly(rule: Rule, booking: Booking, counts: Option<string> -> nat)
    requires Printable(Day(booking.start)) && Printable(Day(booking.end)) && rule.priced.ruleType.PeakHours?
    ensures IsRuleApplicable(rule, booking, counts)
            <==> exists peak ::
                   && peak in rule.conditions.peakHours.GetOr([]) && WeekDay(Day(booking.start)) in peak.daysOfWeek
                   && ParseTime(peak.startTime).Some? && ParseTime(peak.endTime).Some?
                   && MinuteOfDay(booking.start) < ParseTime(peak.endTime).value
                   && ParseTime(peak.startTime).value < MinuteOfDay(booking.end)
  {
    hide ParseTime;
    hide WeekDay;
    hide MinuteOfDay;
    hide MonthStart;
    var peakHours := rule.conditions.peakHours.GetOr([]);
    forall k | 0 <= k < |peakHours|
      ensures peakHours[k] in peakHours
    {}
  }

  /** A season and a special event apply by the same comparison of dates as strings. */
  lemma SeasonExactly(rule: Rule, booking: Booking, counts: Option<string> -> nat)
    requires Printable(Day(booking.start)) && Printable(Day(booking.end))
    requires rule.priced.ruleType.Seasonal? || rule.priced.ruleType.SpecialEvent?
    ensures IsRuleApplicable(rule, booking, counts)
            <==> exists range :: range in rule.conditions.dateRanges.GetOr([])
                                 && !Less(range.endDate, DayText(Day(booking.start)))
                                 && !Less(DayText(Day(booking.end)), range.startDate)
  {
    hide MonthStart;
    hide DayText;
    hide Less;
    var dateRanges := rule.conditions.dateRanges.GetOr([]);
    forall k | 0 <= k < |dateRanges|
      ensures dateRanges[k] in dateRanges
    {}
  }

  /** By falling priority, and the older rule first. */
  predicate InPriorityOrder(rules: seq<Rule>) {
    forall i, j :: 0 <= i < j < |rules| ==>
      || rules[i].priority > rules[j].priority
      || (rules[i].priority == rules[j].priority && rules[i].createdAt <= rules[j].createdAt)
  }

  function Applies(booking: Booking, counts: Option<string> -> nat): Rule -> bool
    requires Printable(Day(booking.start)) && Printable(Day(booking.end))
  {
    (rule: Rule) => IsRuleApplicable(rule, booking, counts)
  }

  lemma SelectionKeepsOrder(kept: seq<Rule>, rules: seq<Rule>, passes: Rule -> bool)
    requires IsSelection(kept, rules, passes) && InPriorityOrder(rules)
    ensures InPriorityOrder(kept)
  {
    var at :| SelectsAt(kept, at, rules, passes);
  }

  /** The loop of getApplicablePricingRules over the rules the query returned: it keeps exactly the
      applicable ones, in their order, so they are still in priority order. */
  method GetApplicablePricingRules(allRules: seq<Rule>, booking: Booking, counts: Option<string> -> nat)
    returns (applicableRules: seq<Rule>)
    requires Printable(Day(booking.start)) && Printable(Day(booking.end))
    requires InPriorityOrder(allRules)
    ensures IsSelection(applicableRules, allRules, Applies(booking, counts))
    ensures forall i, j :: 0 <= i < j < |applicableRules| ==>
              || applicableRules[i].priority > applicableRules[j].priority
              || (applicableRules[i].priority == applicableRules[j].priority
                  && applicableRules[i].createdAt <= applicableRules[j].createdAt)
  {
    hide IsRuleApplicable;
    hide MonthStart;
    hide IsSelection;
    hide SelectsAt;
    applicableRules := [];
    SelectNothing(Applies(booking, counts));
    assert allRules[..0] == [];
    for i := 0 to |allRules|
      invariant IsSelection(applicableRules, allRules[..i], Applies(booking, counts))
    {
      SelectionGrows(applicableRules, allRules[..i], allRules[i], Applies(booking, counts));
      assert allRules[..i + 1] == allRules[..i] + [allRules[i]];
      if IsRuleApplicable(allRules[i], booking, counts) {
        applicableRules := applicableRules + [allRules[i]];
      }
    }
    assert allRules[..|allRules|] == allRules;
    SelectionKeepsOrder(applicableRules, allRules, Applies(booking, counts));
  }
}
