/** The proleptic Gregorian calendar that JavaScript dates use (section 21.4.1 of ECMA-262),
    in UTC. Times are integer milliseconds since 1970-01-01, days are floor(t / 86400000),
    and months are numbered 12 * year + monthInYear, so that month arithmetic carries into
    the year by itself, as it does in MakeDay. */
module Calendar {

  const MS_PER_HOUR := 3600000
  const MS_PER_DAY := 86400000

  function Day(t: int): int { t / MS_PER_DAY }

  function TimeWithinDay(t: int): int { t % MS_PER_DAY }

  function HourOf(t: int): int { TimeWithinDay(t) / MS_PER_HOUR }

  /** Sunday is 0, as in Date.prototype.getUTCDay. */
  function WeekDay(day: int): int { (day + 4) % 7 }

  predicate IsLeap(year: int) {
    year % 4 == 0 && (year % 100 != 0 || year % 400 == 0)
  }

  /** Day number of the first of January. */
  function DayFromYear(year: int): int {
    365 * (year - 1970) + (year - 1969) / 4 - (year - 1901) / 100 + (year - 1601) / 400
  }

  function YearOfMonth(month: int): int { month / 12 }

  function MonthLength(month: int): (n: int)
    ensures 28 <= n <= 31
  {
    match month % 12
    case 1 => if IsLeap(YearOfMonth(month)) then 29 else 28
    case 3 => 30
    case 5 => 30
    case 8 => 30
    case 10 => 30
    case _ => 31
  }

  /** Days of the year that lie before the given month, 0 being January. */
  function DaysBefore(monthInYear: int, leap: bool): int
    requires 0 <= monthInYear < 12
  {
    [0, 31, 59, 90, 120, 151, 181, 212, 243, 273, 304, 334][monthInYear]
    + if leap && monthInYear > 1 then 1 else 0
  }

  /** Day number of the first day of a month. */
  function MonthStart(month: int): int {
    DayFromYear(YearOfMonth(month)) + DaysBefore(month % 12, IsLeap(YearOfMonth(month)))
  }

  lemma CarryStep4(x: int)
    ensures (x + 1) / 4 == x / 4 + if (x + 1) % 4 == 0 then 1 else 0
  {}

  lemma CarryStep100(x: int)
    ensures (x + 1) / 100 == x / 100 + if (x + 1) % 100 == 0 then 1 else 0
  {}

  lemma CarryStep400(x: int)
    ensures (x + 1) / 400 == x / 400 + if (x + 1) % 400 == 0 then 1 else 0
  {}

  lemma Shift4(year: int)
    ensures (year - 1968) % 4 == year % 4
  {
    assert year - 1968 == 4 * (year / 4 - 492) + year % 4;
  }

  lemma Shift100(year: int)
    ensures (year - 1900) % 100 == year % 100
  {
    assert year - 1900 == 100 * (year / 100 - 19) + year % 100;
  }

  lemma Shift400(year: int)
    ensures (year - 1600) % 400 == year % 400
  {
    assert year - 1600 == 400 * (year / 400 - 4) + year % 400;
  }

  lemma CenturyOfEra(year: int)
    requires year % 400 == 0
    ensures year % 100 == 0
  {
    var eras := year / 400;
    assert year == 100 * (4 * eras);
  }

  lemma LeapOfCentury(year: int)
    requires year % 100 == 0
    ensures year % 4 == 0
  {
    var centuries := year / 100;
    assert year == 4 * (25 * centuries);
  }

  lemma YearStep(year: int)
    ensures DayFromYear(year + 1) == DayFromYear(year) + if IsLeap(year) then 366 else 365
  {
    Shift4(year);
    Shift100(year);
    Shift400(year);
    if year % 400 == 0 {
      CenturyOfEra(year);
    }
    if year % 100 == 0 {
      LeapOfCentury(year);
    }
    CarryStep4(year - 1969);
    CarryStep100(year - 1901);
    CarryStep400(year - 1601);
  }

  lemma NextMonthIs(month: int, year: int, monthInYear: int)
    requires 0 <= monthInYear < 12 && month == 12 * year + monthInYear
    ensures (month + 1) / 12 == if monthInYear == 11 then year + 1 else year
    ensures (month + 1) % 12 == if monthInYear == 11 then 0 else monthInYear + 1
  {}

  /** The months tile the day line: each one starts where the one before it ends. */
  lemma MonthsTile(month: int)
    ensures MonthStart(month + 1) == MonthStart(month) + MonthLength(month)
  {
    var year, monthInYear := month / 12, month % 12;
    if monthInYear == 11 {
      YearStep(year);
      NextMonthIs(month, year, 11);
    } else {
      NextMonthIs(month, year, monthInYear);
    }
    hide DayFromYear;
    hide IsLeap;
  }

  lemma {:induction false} MonthStartsIncrease(a: int, b: int)
    requires a <= b
    ensures MonthStart(a) + 28 * (b - a) <= MonthStart(b)
    decreases b - a
  {
    if a < b {
      MonthsTile(b - 1);
      MonthStartsIncrease(a, b - 1);
    }
  }

  function FindMonthBelow(day: int, guess: int): (month: int)
    requires day < MonthStart(guess + 1)
    ensures MonthStart(month) <= day < MonthStart(month + 1)
    decreases MonthStart(guess + 1) - day
  {
    hide MonthStart;
    MonthsTile(guess);
    if day < MonthStart(guess) then FindMonthBelow(day, guess - 1) else guess
  }

  /** Walks from a guess to the month that contains a day. */
  function FindMonth(day: int, guess: int): (month: int)
    ensures MonthStart(month) <= day < MonthStart(month + 1)
    decreases if day >= MonthStart(guess) then day - MonthStart(guess) else MonthStart(guess) - day
  {
    hide MonthStart;
    MonthsTile(guess);
    MonthsTile(guess - 1);
    if day < MonthStart(guess) then FindMonthBelow(day, guess - 1)
    else if day >= MonthStart(guess + 1) then FindMonth(day, guess + 1)
    else guess
  }

  /** Year and month of a day. */
  function MonthOf(day: int): (month: int)
    ensures MonthStart(month) <= day < MonthStart(month + 1)
  {
    hide MonthStart;
    FindMonth(day, 12 * 1970)
  }

  /** Day of the month, from 1. */
  function DateOf(day: int): (date: int)
    ensures 1 <= date <= MonthLength(MonthOf(day))
  {
    MonthsTile(MonthOf(day));
    day - MonthStart(MonthOf(day)) + 1
  }

  function YearOf(day: int): int { YearOfMonth(MonthOf(day)) }

  /** MakeDay: the day number of a month and a day of the month; neither needs to be in range. */
  function MakeDay(month: int, date: int): int {
    MonthStart(month) + date - 1
  }

  /** A day lies in one month only. */
  lemma MonthOfUnique(day: int, month: int)
    requires MonthStart(month) <= day < MonthStart(month + 1)
    ensures MonthOf(day) == month
  {
    hide MonthStart;
    var found := MonthOf(day);
    if found < month {
      MonthStartsIncrease(found + 1, month);
    } else if month < found {
      MonthStartsIncrease(month + 1, found);
    }
  }

  /** Reading a day as year, month and date and making a day of it again gives the same day,
      and every in-range date is read back. */
  lemma CivilRoundTrip(day: int, month: int, date: int)
    ensures MakeDay(MonthOf(day), DateOf(day)) == day
    ensures 1 <= date <= MonthLength(month) ==>
              MonthOf(MakeDay(month, date)) == month && DateOf(MakeDay(month, date)) == date
  {
    MonthsTile(month);
    if 1 <= date <= MonthLength(month) {
      MonthOfUnique(MakeDay(month, date), month);
    }
  }

  lemma MonthOfMonotone(a: int, b: int)
    requires a <= b
    ensures MonthOf(a) <= MonthOf(b)
  {
    if MonthOf(b) < MonthOf(a) {
      MonthStartsIncrease(MonthOf(b) + 1, MonthOf(a));
    }
  }

  /** The turn of the year 10000, the first that is not written with four digits. */
  lemma YearTenThousand()
    ensures MonthStart(119999) == 2932866 && MonthStart(120000) == 2932897 && MonthStart(120001) == 2932928
    ensures MonthLength(119999) == 31 && MonthLength(120000) == 31
  {
    assert DayFromYear(10000) == 2932897 && DayFromYear(9999) == 2932532;
    hide DayFromYear;
    hide IsLeap;
  }
}
