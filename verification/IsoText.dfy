/** Date.prototype.toISOString and the order JavaScript's `<` puts on strings
    (sections 21.4.4.36 and 7.2.13 of ECMA-262). */
module IsoText {
  import opened Calendar
  import opened Wrappers

  // ----- string order

  /** `a < b` on strings: the first differing code unit decides, and a proper prefix is smaller. */
  predicate Less(a: string, b: string) {
    if b == "" then false
    else if a == "" then true
    else if a[0] != b[0] then a[0] < b[0]
    else Less(a[1..], b[1..])
  }

  /** `a <= b` on strings. */
  predicate AtMost(a: string, b: string) { !Less(b, a) }

  /** One string is before another exactly if at some place, up to which they agree, it ends or has the
      smaller code unit. */
  lemma {:induction false} LessExactly(a: string, b: string)
    ensures Less(a, b) <==>
            exists k :: 0 <= k <= |a| && k < |b| && a[..k] == b[..k] && (k == |a| || a[k] < b[k])
  {
    if b == "" {
    } else if a == "" || a[0] != b[0] {
      assert a[..0] == b[..0];
    } else {
      LessExactly(a[1..], b[1..]);
      if k :| 0 <= k <= |a[1..]| && k < |b[1..]| && a[1..][..k] == b[1..][..k]
              && (k == |a[1..]| || a[1..][k] < b[1..][k]) {
        assert a[..k + 1] == [a[0]] + a[1..][..k] && b[..k + 1] == [b[0]] + b[1..][..k];
      }
      if k :| 0 <= k <= |a| && k < |b| && a[..k] == b[..k] && (k == |a| || a[k] < b[k]) {
        assert k > 0;
        assert a[1..][..k - 1] == a[..k][1..] && b[1..][..k - 1] == b[..k][1..];
      }
    }
  }

  lemma {:induction false} LessOfConcat(a: string, x: string, b: string, y: string)
    requires |a| == |b|
    ensures Less(a + x, b + y) <==> Less(a, b) || (a == b && Less(x, y))
  {
    if a == "" {
      assert a + x == x && b + y == y;
    } else {
      assert (a + x)[0] == a[0] && (b + y)[0] == b[0];
      assert (a + x)[1..] == a[1..] + x && (b + y)[1..] == b[1..] + y;
      assert a == [a[0]] + a[1..] && b == [b[0]] + b[1..];
      LessOfConcat(a[1..], x, b[1..], y);
    }
  }

  lemma {:induction false} LessIsIrreflexive(a: string)
    ensures !Less(a, a)
  {
    if a == "" {
    } else {
      LessIsIrreflexive(a[1..]);
    }
  }

  lemma ConcatSplit(a: string, x: string, b: string, y: string)
    requires |a| == |b|
    ensures a + x == b + y <==> a == b && x == y
  {
    if a + x == b + y {
      assert a == (a + x)[..|a|] == b;
      assert x == (a + x)[|a|..] == y;
    }
  }

  // ----- zero-padded numbers

  function Pow10(w: nat): (p: nat)
    ensures p > 0
  {
    if w == 0 then 1 else 10 * Pow10(w - 1)
  }

  function DigitChar(d: nat): char
    requires d < 10
  {
    "0123456789"[d]
  }

  predicate IsDigit(c: char) { '0' <= c <= '9' }

  /** The last w decimal digits of n, padded with zeros. */
  function Pad(n: nat, w: nat): (s: string)
    ensures |s| == w
    ensures forall i :: 0 <= i < w ==> IsDigit(s[i])
  {
    if w == 0 then "" else Pad(n / 10, w - 1) + [DigitChar(n % 10)]
  }

  lemma DigitOrder(d: nat, e: nat)
    requires d < 10 && e < 10
    ensures Less([DigitChar(d)], [DigitChar(e)]) <==> d < e
    ensures [DigitChar(d)] == [DigitChar(e)] <==> d == e
  {
    assert DigitChar(d) == '0' + d as char && DigitChar(e) == '0' + e as char;
  }

  /** Padded numbers compare, as strings, as the numbers do. */
  lemma {:induction false} PadOrder(a: nat, b: nat, w: nat)
    requires a < Pow10(w) && b < Pow10(w)
    ensures Less(Pad(a, w), Pad(b, w)) <==> a < b
    ensures Pad(a, w) == Pad(b, w) <==> a == b
  {
    if w == 0 {
    } else {
      PadOrder(a / 10, b / 10, w - 1);
      var x, y := [DigitChar(a % 10)], [DigitChar(b % 10)];
      LessOfConcat(Pad(a / 10, w - 1), x, Pad(b / 10, w - 1), y);
      ConcatSplit(Pad(a / 10, w - 1), x, Pad(b / 10, w - 1), y);
      DigitOrder(a % 10, b % 10);
    }
  }

  // ----- reading numbers

  /** Number(s) for texts made of digits; anything else counts as NaN. */
  function ToNumber(s: string): Option<nat> {
    if s == "" then Some(0)
    else
      var last := |s| - 1;
      match ToNumber(s[..last])
      case None => None
      case Some(n) => if IsDigit(s[last]) then Some(10 * n + (s[last] - '0') as nat) else None
  }

  lemma TwoDigits(n: nat)
    requires n < 100
    ensures Pad(n, 2) == [DigitChar(n / 10), DigitChar(n % 10)]
  {
    assert Pad(n, 2) == Pad(n / 10, 1) + [DigitChar(n % 10)];
    assert Pad(n / 10, 1) == Pad(n / 10 / 10, 0) + [DigitChar(n / 10 % 10)];
  }

  lemma DigitValue(d: nat)
    requires d < 10
    ensures IsDigit(DigitChar(d)) && (DigitChar(d) - '0') as int == d
  {}

  lemma AppendDigit(s: string, n: nat, d: nat)
    requires ToNumber(s) == Some(n) && d < 10
    ensures ToNumber(s + [DigitChar(d)]) == Some(10 * n + d)
  {
    DigitValue(d);
    hide DigitChar;
    assert (s + [DigitChar(d)])[..|s|] == s;
  }

  /** Only digits read as a number. */
  lemma {:induction false} NumbersAreDigits(s: string)
    ensures ToNumber(s).Some? <==> forall i :: 0 <= i < |s| ==> IsDigit(s[i])
  {
    if s == "" {
    } else {
      NumbersAreDigits(s[..|s| - 1]);
    }
  }

  /** A padded number reads as itself. */
  lemma {:induction false} PadReads(n: nat, w: nat)
    requires n < Pow10(w)
    ensures ToNumber(Pad(n, w)) == Some(n)
  {
    if w == 0 {
    } else {
      PadReads(n / 10, w - 1);
      AppendDigit(Pad(n / 10, w - 1), n / 10, n % 10);
    }
  }

  // ----- dates

  predicate FourDigitYear(year: int) { 0 <= year <= 9999 }

  /** Years outside 0..9999 are written with a sign and six digits. */
  function YearText(year: int): (s: string)
    requires -999999 <= year <= 999999
    ensures |s| == if FourDigitYear(year) then 4 else 7
  {
    if FourDigitYear(year) then Pad(year, 4)
    else if year < 0 then "-" + Pad(-year, 6)
    else "+" + Pad(year, 6)
  }

  predicate Printable(day: int) { -999999 <= YearOf(day) <= 999999 }

  /** The range of time values: 100,000,000 days either side of 1970 (section 21.4.1.1). */
  predicate IsTimeValue(t: int) { -8640000000000000 <= t <= 8640000000000000 }

  lemma EpochMonth()
    ensures MonthStart(12 * 1970) == 0
  {}

  lemma MonthBounds(day: int, month: int, epoch: int)
    requires MonthStart(month) <= day < MonthStart(month + 1) && MonthStart(epoch) == 0
    ensures month > epoch ==> 28 * (month - epoch) <= day
    ensures month + 1 < epoch ==> 28 * (epoch - month - 1) <= -day
  {
    hide MonthStart;
    if month > epoch {
      MonthStartsIncrease(epoch, month);
    } else if month + 1 < epoch {
      MonthStartsIncrease(month + 1, epoch);
    }
  }

  /** Every date JavaScript can hold, and any day within a month of one, has a year of at most
      six digits. */
  lemma TimeValuesArePrintable(day: int)
    requires -100000031 <= day <= 100000031
    ensures Printable(day)
  {
    hide MonthStart;
    EpochMonth();
    MonthBounds(day, MonthOf(day), 12 * 1970);
  }

  function MonthText(day: int): (s: string)
    ensures |s| == 2
  {
    Pad(MonthOf(day) % 12 + 1, 2)
  }

  function DateText(day: int): (s: string)
    ensures |s| == 2
  {
    Pad(DateOf(day), 2)
  }

  /** The date part of the ISO text. */
  function DayText(day: int): (s: string)
    requires Printable(day)
    ensures |s| == |YearText(YearOf(day))| + 6
  {
    YearText(YearOf(day)) + ("-" + (MonthText(day) + ("-" + DateText(day))))
  }

  function HourText(t: int): (s: string)
    ensures |s| == 2
  {
    Pad(HourOf(t), 2)
  }

  /** Minutes, seconds and milliseconds. */
  function ClockText(t: int): (s: string)
    ensures |s| == 11
  {
    var inHour := TimeWithinDay(t) % MS_PER_HOUR;
    ":" + Pad(inHour / 60000, 2) + ":" + Pad(inHour % 60000 / 1000, 2) + "." + Pad(inHour % 1000, 3) + "Z"
  }

  function ToIsoString(t: int): (s: string)
    requires Printable(Day(t))
    ensures |s| == |YearText(YearOf(Day(t)))| + 20
  {
    hide MonthStart;
    DayText(Day(t)) + ("T" + (HourText(t) + ClockText(t)))
  }

  // ----- what the texts identify

  lemma YearTextInjective(y: int, z: int)
    requires -999999 <= y <= 999999 && -999999 <= z <= 999999
    ensures YearText(y) == YearText(z) <==> y == z
  {
    assert Pow10(4) == 10000 && Pow10(6) == 1000000;
    if FourDigitYear(y) && FourDigitYear(z) {
      PadOrder(y, z, 4);
    } else if !FourDigitYear(y) && !FourDigitYear(z) {
      var m, n := if y < 0 then -y else y, if z < 0 then -z else z;
      PadOrder(m, n, 6);
      ConcatSplit(if y < 0 then "-" else "+", Pad(m, 6), if z < 0 then "-" else "+", Pad(n, 6));
    }
  }

  lemma MonthTextInjective(a: int, b: int)
    requires YearOf(a) == YearOf(b)
    ensures MonthText(a) == MonthText(b) <==> MonthOf(a) == MonthOf(b)
    ensures Less(MonthText(a), MonthText(b)) <==> MonthOf(a) < MonthOf(b)
  {
    hide MonthStart;
    assert Pow10(2) == 100;
    PadOrder(MonthOf(a) % 12 + 1, MonthOf(b) % 12 + 1, 2);
  }

  lemma DateTextInjective(a: int, b: int)
    requires MonthOf(a) == MonthOf(b)
    ensures DateText(a) == DateText(b) <==> a == b
    ensures Less(DateText(a), DateText(b)) <==> a < b
  {
    hide MonthStart;
    assert Pow10(2) == 100;
    PadOrder(DateOf(a), DateOf(b), 2);
  }

  /** Days of different months are ordered as their months are. */
  lemma MonthsOrderDays(a: int, b: int)
    requires MonthOf(a) != MonthOf(b)
    ensures a < b <==> MonthOf(a) < MonthOf(b)
  {
    hide MonthStart;
    if a <= b {
      MonthOfMonotone(a, b);
    } else {
      MonthOfMonotone(b, a);
    }
  }

  lemma DayTextLess(a: int, b: int)
    requires FourDigitYear(YearOf(a)) && FourDigitYear(YearOf(b))
    ensures Less(DayText(a), DayText(b)) <==> a < b
  {
    hide MonthStart;
    var ya, yb := YearText(YearOf(a)), YearText(YearOf(b));
    var ma, mb := MonthText(a), MonthText(b);
    var da, db := DateText(a), DateText(b);
    LessOfConcat(ya, "-" + (ma + ("-" + da)), yb, "-" + (mb + ("-" + db)));
    LessOfConcat("-", ma + ("-" + da), "-", mb + ("-" + db));
    LessOfConcat(ma, "-" + da, mb, "-" + db);
    LessOfConcat("-", da, "-", db);
    LessIsIrreflexive("-");
    assert Pow10(4) == 10000;
    PadOrder(YearOf(a), YearOf(b), 4);
    if YearOf(a) == YearOf(b) {
      MonthTextInjective(a, b);
      if MonthOf(a) == MonthOf(b) {
        DateTextInjective(a, b);
        LessIsIrreflexive(ma);
      } else {
        MonthsOrderDays(a, b);
      }
      LessIsIrreflexive(ya);
    } else {
      MonthsOrderDays(a, b);
    }
  }

  /** Days with four-digit years compare as strings exactly as they compare as days. */
  lemma DayTextOrder(a: int, b: int)
    requires FourDigitYear(YearOf(a)) && FourDigitYear(YearOf(b))
    ensures Less(DayText(a), DayText(b)) <==> a < b
    ensures AtMost(DayText(a), DayText(b)) <==> a <= b
  {
    DayTextLess(a, b);
    DayTextLess(b, a);
  }

  /** A signed year sorts before every four-digit year, whatever its sign. */
  lemma SignedYearsSortFirst(a: int, b: int)
    requires Printable(a) && !FourDigitYear(YearOf(a)) && FourDigitYear(YearOf(b))
    ensures Less(DayText(a), DayText(b))
  {
    hide MonthStart;
    var ya, yb := YearText(YearOf(a)), YearText(YearOf(b));
    assert DayText(a)[0] == ya[0] && DayText(b)[0] == yb[0];
    assert IsDigit(yb[0]) && ya[0] < '0';
  }

  lemma SameYearText(a: int, b: int)
    requires Printable(a) && Printable(b)
    requires DayText(a) == DayText(b)
    ensures |YearText(YearOf(a))| == |YearText(YearOf(b))|
  {
    hide MonthStart;
    assert |DayText(a)| == |YearText(YearOf(a))| + 6;
    assert |DayText(b)| == |YearText(YearOf(b))| + 6;
  }

  lemma DayTextInjective(a: int, b: int)
    requires Printable(a) && Printable(b)
    ensures DayText(a) == DayText(b) <==> a == b
  {
    hide MonthStart;
    if DayText(a) == DayText(b) {
      SameYearText(a, b);
      ConcatSplit(YearText(YearOf(a)), "-" + (MonthText(a) + ("-" + DateText(a))),
                  YearText(YearOf(b)), "-" + (MonthText(b) + ("-" + DateText(b))));
      YearTextInjective(YearOf(a), YearOf(b));
      ConcatSplit("-", MonthText(a) + ("-" + DateText(a)), "-", MonthText(b) + ("-" + DateText(b)));
      ConcatSplit(MonthText(a), "-" + DateText(a), MonthText(b), "-" + DateText(b));
      ConcatSplit("-", DateText(a), "-", DateText(b));
      MonthTextInjective(a, b);
      DateTextInjective(a, b);
    }
  }

  // ----- what the texts read

  lemma PowersOfTen()
    ensures Pow10(2) == 100 && Pow10(3) == 1000 && Pow10(4) == 10000 && Pow10(6) == 1000000
  {}

  /** The year is its first four characters, or a sign and six digits. */
  lemma YearReads(year: int)
    requires -999999 <= year <= 999999
    ensures var text := YearText(year);
            if 0 <= year <= 9999 then |text| == 4 && ToNumber(text) == Some(year)
            else |text| == 7 && text[0] == (if year < 0 then '-' else '+')
                 && ToNumber(text[1..]) == Some(if year < 0 then -year else year)
  {
    PowersOfTen();
    if FourDigitYear(year) {
      PadReads(year, 4);
    } else {
      var magnitude := if year < 0 then -year else year;
      PadReads(magnitude, 6);
      assert YearText(year)[1..] == Pad(magnitude, 6);
    }
  }

  lemma DateLayout(year: string, month: string, date: string)
    requires |month| == 2
    ensures var n, text := |year|, year + ("-" + (month + ("-" + date)));
            && text[..n] == year && text[n] == '-' && text[n + 1..n + 3] == month
            && text[n + 3] == '-' && text[n + 4..] == date
  {}

  /** The fields of a date stand behind its year at fixed places and read as they should. */
  lemma DayTextReads(day: int)
    requires Printable(day)
    ensures var n := |YearText(YearOf(day))|;
            var text := DayText(day);
            && text[..n] == YearText(YearOf(day))
            && text[n] == '-' && ToNumber(text[n + 1..n + 3]) == Some(MonthOf(day) % 12 + 1)
            && text[n + 3] == '-' && ToNumber(text[n + 4..]) == Some(DateOf(day))
  {
    hide MonthStart;
    hide ToNumber;
    hide Pad;
    hide Pow10;
    hide YearText;
    PowersOfTen();
    PadReads(MonthOf(day) % 12 + 1, 2);
    PadReads(DateOf(day), 2);
    DateLayout(YearText(YearOf(day)), MonthText(day), DateText(day));
  }

  lemma TimeLayout(day: string, hour: string, clock: string)
    requires |hour| == 2
    ensures var n, text := |day|, day + ("T" + (hour + clock));
            text[..n] == day && text[n] == 'T' && text[n + 1..n + 3] == hour && text[n + 3..] == clock
  {}

  lemma ClockLayout(minute: string, second: string, ms: string)
    requires |minute| == 2 && |second| == 2 && |ms| == 3
    ensures var text := ":" + minute + ":" + second + "." + ms + "Z";
            && |text| == 11 && text[0] == ':' && text[1..3] == minute && text[3] == ':' && text[4..6] == second
            && text[6] == '.' && text[7..10] == ms && text[10] == 'Z'
  {}

  lemma ClockTextReads(t: int)
    ensures var text, inHour := ClockText(t), TimeWithinDay(t) % MS_PER_HOUR;
            && text[0] == ':' && ToNumber(text[1..3]) == Some(inHour / 60000)
            && text[3] == ':' && ToNumber(text[4..6]) == Some(inHour % 60000 / 1000)
            && text[6] == '.' && ToNumber(text[7..10]) == Some(inHour % 1000) && text[10] == 'Z'
  {
    hide ToNumber;
    hide Pad;
    hide Pow10;
    PowersOfTen();
    var inHour := TimeWithinDay(t) % MS_PER_HOUR;
    PadReads(inHour / 60000, 2);
    PadReads(inHour % 60000 / 1000, 2);
    PadReads(inHour % 1000, 3);
    ClockLayout(Pad(inHour / 60000, 2), Pad(inHour % 60000 / 1000, 2), Pad(inHour % 1000, 3));
  }

  /** So do those of the time of day behind the date: the hour, then minute, second and millisecond
      within the hour. */
  lemma IsoReads(t: int)
    requires Printable(Day(t))
    ensures var n := |DayText(Day(t))|;
            var text, inHour := ToIsoString(t), TimeWithinDay(t) % MS_PER_HOUR;
            && |text| == n + 14 && text[..n] == DayText(Day(t))
            && text[n] == 'T' && ToNumber(text[n + 1..n + 3]) == Some(TimeWithinDay(t) / MS_PER_HOUR)
            && text[n + 3] == ':' && ToNumber(text[n + 3..][1..3]) == Some(inHour / 60000)
            && text[n + 6] == ':' && ToNumber(text[n + 3..][4..6]) == Some(inHour % 60000 / 1000)
            && text[n + 9] == '.' && ToNumber(text[n + 3..][7..10]) == Some(inHour % 1000)
            && text[n + 13] == 'Z'
  {
    hide MonthStart;
    hide ToNumber;
    hide Pad;
    hide Pow10;
    hide DayText;
    hide ClockText;
    PowersOfTen();
    PadReads(HourOf(t), 2);
    ClockTextReads(t);
    TimeLayout(DayText(Day(t)), HourText(t), ClockText(t));
    var text, n := ToIsoString(t), |DayText(Day(t))|;
    assert text[n + 3..] == ClockText(t);
    assert text[n + 3..][0] == text[n + 3] && text[n + 3..][3] == text[n + 6] && text[n + 3..][6] == text[n + 9]
           && text[n + 3..][10] == text[n + 13];
  }
}
