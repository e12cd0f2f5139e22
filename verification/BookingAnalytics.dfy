/** The group-by aggregations of the partner analytics and of the financial reports. */
module BookingAnalytics {
  import opened Wrappers
  import opened Calendar
  import opened IsoText
  import opened Grouping
  import opened Selections
  import TrendBuckets
  import TrendLabels

  datatype Booking = Booking(
    userId: string, partnerId: Option<string>, spaceType: Option<string>, status: string,
    createdAt: int, start: int, totalAmount: real)

  predicate AreBookings(bookings: seq<Booking>) {
    forall i :: 0 <= i < |bookings| ==> IsTimeValue(bookings[i].createdAt) && IsTimeValue(bookings[i].start)
  }

  /** The rows of a group-by: each booking under its key, with its amount. */
  function Keyed<K>(bookings: seq<Booking>, key: Booking --> K): (entries: seq<Entry<K>>)
    requires forall i :: 0 <= i < |bookings| ==> key.requires(bookings[i])
    ensures |entries| == |bookings|
    ensures forall i :: 0 <= i < |bookings| ==> entries[i] == Entry(key(bookings[i]), bookings[i].totalAmount)
  {
    seq(|bookings|, i requires 0 <= i < |bookings| => Entry(key(bookings[i]), bookings[i].totalAmount))
  }

  /** The total amount of the bookings. */
  function Revenue(bookings: seq<Booking>): real {
    if bookings == [] then 0.0 else Revenue(bookings[..|bookings| - 1]) + bookings[|bookings| - 1].totalAmount
  }

  lemma {:induction false} KeyedTotal<K>(bookings: seq<Booking>, key: Booking --> K)
    requires forall i :: 0 <= i < |bookings| ==> key.requires(bookings[i])
    ensures Total(Keyed(bookings, key)) == Revenue(bookings)
  {
    if bookings == [] {
    } else {
      var last := |bookings| - 1;
      KeyedTotal(bookings[..last], key);
      assert Keyed(bookings, key)[..last] == Keyed(bookings[..last], key);
    }
  }

  // ----- keys

  function MonthKey(b: Booking): string
    requires IsTimeValue(b.createdAt)
  {
    hide MonthStart;
    TimeValuesArePrintable(Day(b.createdAt));
    ToIsoString(b.createdAt)[..7]
  }

  function DateKey(b: Booking): string
    requires IsTimeValue(b.createdAt)
  {
    hide MonthStart;
    TimeValuesArePrintable(Day(b.createdAt));
    ToIsoString(b.createdAt)[..10]
  }

  predicate HasSignedYear(b: Booking) { TrendLabels.SignedYear(b.createdAt, TrendBuckets.Monthly) }

  /** Two bookings are counted in one month exactly when they are made in one calendar month, or in
      one year outside 0..9999, where the slice of the text cuts the month off. */
  lemma MonthGroupsAreMonths(a: Booking, b: Booking)
    requires IsTimeValue(a.createdAt) && IsTimeValue(b.createdAt)
    ensures MonthKey(a) == MonthKey(b)
            <==> || MonthOf(Day(a.createdAt)) == MonthOf(Day(b.createdAt))
                 || (HasSignedYear(a) && HasSignedYear(b)
                     && YearOf(Day(a.createdAt)) == YearOf(Day(b.createdAt)))
  {
    hide MonthStart;
    TimeValuesArePrintable(Day(a.createdAt));
    TimeValuesArePrintable(Day(b.createdAt));
    TrendLabels.LabelsCoincide(a.createdAt, b.createdAt, TrendBuckets.Monthly);
  }

  /** Two bookings are counted on one date exactly when they are made on one day, or in one month of
      a year outside 0..9999. */
  lemma DateGroupsAreDays(a: Booking, b: Booking)
    requires IsTimeValue(a.createdAt) && IsTimeValue(b.createdAt)
    ensures DateKey(a) == DateKey(b)
            <==> || Day(a.createdAt) == Day(b.createdAt)
                 || (HasSignedYear(a) && HasSignedYear(b)
                     && MonthOf(Day(a.createdAt)) == MonthOf(Day(b.createdAt)))
  {
    hide MonthStart;
    TimeValuesArePrintable(Day(a.createdAt));
    TimeValuesArePrintable(Day(b.createdAt));
    TrendLabels.LabelsCoincide(a.createdAt, b.createdAt, TrendBuckets.Daily);
  }

  /** In the years 0 to 9999 the keys read as the month and as the day on which the booking is made. */
  lemma KeysRead(b: Booking)
    requires IsTimeValue(b.createdAt) && !HasSignedYear(b)
    ensures var key, day := MonthKey(b), Day(b.createdAt);
            && |key| == 7 && ToNumber(key[..4]) == Some(YearOf(day))
            && key[4] == '-' && ToNumber(key[5..]) == Some(MonthOf(day) % 12 + 1)
    ensures var key, day := DateKey(b), Day(b.createdAt);
            && |key| == 10 && ToNumber(key[..4]) == Some(YearOf(day))
            && key[4] == '-' && ToNumber(key[5..7]) == Some(MonthOf(day) % 12 + 1)
            && key[7] == '-' && ToNumber(key[8..]) == Some(DateOf(day))
  {
    hide MonthStart;
    hide ToNumber;
    hide ToIsoString;
    TimeValuesArePrintable(Day(b.createdAt));
    TrendLabels.LabelReads(b.createdAt, TrendBuckets.Monthly);
    TrendLabels.LabelReads(b.createdAt, TrendBuckets.Daily);
    assert MonthKey(b)[5..] == MonthKey(b)[5..7];
  }

  function HourKey(b: Booking): int { HourOf(b.start) }

  function UserKey(b: Booking): string { b.userId }

  function StatusKey(b: Booking): string { b.status }

  /** A missing or empty space type counts as unknown. */
  function SpaceTypeKey(b: Booking): string {
    if b.spaceType.GetOr("") == "" then "unknown" else b.spaceType.value
  }

  /** The groups of the bookings under a key conserve their number and their revenue, and no key
      has two groups. */
  ghost predicate Conserves<K>(groups: seq<Group<K>>, bookings: seq<Booking>) {
    && (forall i, j :: 0 <= i < j < |groups| ==> groups[i].key != groups[j].key)
    && TotalCount(groups) == |bookings|
    && TotalSum(groups) == Revenue(bookings)
  }

  /** The bookings with a key. */
  ghost function WithKey<K>(key: Booking --> K, value: K): Booking -> bool {
    (b: Booking) => key.requires(b) && key(b) == value
  }

  /** Each group has the number of the bookings with its key, and their amounts. */
  ghost predicate HoldsBookings<K>(groups: seq<Group<K>>, bookings: seq<Booking>, with: K -> (Booking -> bool)) {
    forall i :: 0 <= i < |groups| ==>
      && groups[i].count == |Select(bookings, with(groups[i].key))|
      && groups[i].sum == Revenue(Select(bookings, with(groups[i].key)))
  }

  lemma {:induction false} KeyedSelection<K>(bookings: seq<Booking>, key: Booking --> K, value: K)
    requires forall i :: 0 <= i < |bookings| ==> key.requires(bookings[i])
    ensures Total(Select(Keyed(bookings, key), HasKey(value))) == Revenue(Select(bookings, WithKey(key, value)))
    ensures |Select(Keyed(bookings, key), HasKey(value))| == |Select(bookings, WithKey(key, value))|
  {
    if bookings == [] {
      assert Keyed(bookings, key) == [];
    } else {
      var last := |bookings| - 1;
      KeyedSelection(bookings[..last], key, value);
      var entries := Keyed(bookings, key);
      assert entries[..last] == Keyed(bookings[..last], key);
      var chosen, rows := Select(entries[..last], HasKey(value)), Select(bookings[..last], WithKey(key, value));
      if key(bookings[last]) == value {
        assert (chosen + [entries[last]])[..|chosen|] == chosen;
        assert (rows + [bookings[last]])[..|rows|] == rows;
      } else {
        assert chosen + [] == chosen && rows + [] == rows;
      }
    }
  }

  /** Any of the group-bys. */
  method GroupBookings<K(==)>(bookings: seq<Booking>, key: Booking --> K) returns (groups: seq<Group<K>>)
    requires forall i :: 0 <= i < |bookings| ==> key.requires(bookings[i])
    ensures groups == GroupsOf(Keyed(bookings, key), FirstSeen(Keyed(bookings, key)))
    ensures Conserves(groups, bookings)
  {
    var entries := Keyed(bookings, key);
    groups := GroupBy(entries);
    GroupByConserves(entries);
    KeyedTotal(bookings, key);
  }

  /** The groups of a group-by hold the bookings that the given tests choose, if these tests say
      which key a booking has. */
  lemma GroupsHold<K(!new)>(
    bookings: seq<Booking>, key: Booking --> K, groups: seq<Group<K>>, with: K -> (Booking -> bool))
    requires forall i :: 0 <= i < |bookings| ==> key.requires(bookings[i])
    requires groups == GroupsOf(Keyed(bookings, key), FirstSeen(Keyed(bookings, key)))
    requires forall value: K, i :: 0 <= i < |bookings| ==> (with(value)(bookings[i]) <==> key(bookings[i]) == value)
    ensures HoldsBookings(groups, bookings, with)
  {
    hide Select;
    hide Revenue;
    hide Total;
    hide Keyed;
    hide FirstSeen;
    var entries := Keyed(bookings, key);
    forall i | 0 <= i < |groups|
      ensures groups[i].count == |Select(bookings, with(groups[i].key))|
      ensures groups[i].sum == Revenue(Select(bookings, with(groups[i].key)))
    {
      var value := groups[i].key;
      GroupIsSelection(entries, value);
      KeyedSelection(bookings, key, value);
      SelectAgrees(bookings, WithKey(key, value), with(value));
    }
  }

  /** What a month and a date say of a booking: MonthGroupsAreMonths, DateGroupsAreDays, KeysRead. */
  ghost function InMonth(month: string): Booking -> bool { WithKey(MonthKey, month) }

  ghost function OnDate(date: string): Booking -> bool { WithKey(DateKey, date) }

  function InHour(hour: int): Booking -> bool { (b: Booking) => b.start / MS_PER_HOUR % 24 == hour }

  function OfUser(userId: string): Booking -> bool { (b: Booking) => b.userId == userId }

  function OfStatus(status: string): Booking -> bool { (b: Booking) => b.status == status }

  /** A booking without a partner, or a space type, goes under the word undefined. */
  function OfPartner(partnerId: string): Booking -> bool {
    (b: Booking) => b.partnerId == Some(partnerId) || (b.partnerId.None? && partnerId == "undefined")
  }

  function OfReportedType(spaceType: string): Booking -> bool {
    (b: Booking) => b.spaceType == Some(spaceType) || (b.spaceType.None? && spaceType == "undefined")
  }

  /** In the partner analytics a booking without a space type, or with an empty one, goes under the
      word unknown. */
  function OfSpaceType(spaceType: string): Booking -> bool {
    (b: Booking) =>
      if b.spaceType == None || b.spaceType == Some("") then spaceType == "unknown" else b.spaceType == Some(spaceType)
  }

  lemma HourIsHour(b: Booking)
    ensures HourKey(b) == b.start / MS_PER_HOUR % 24
  {
    TrendLabels.HoursOfDay(b.start);
  }

  // ----- partner analytics

  method CalculateMonthlyRevenue(bookings: seq<Booking>) returns (months: seq<Group<string>>)
    requires AreBookings(bookings)
    ensures Conserves(months, bookings)
    ensures var entries := Keyed(bookings, MonthKey); months == GroupsOf(entries, FirstSeen(entries))
    ensures HoldsBookings(months, bookings, InMonth)
  {
    months := GroupBookings(bookings, MonthKey);
    hide MonthKey;
    GroupsHold(bookings, MonthKey, months, InMonth);
  }

  method CalculateBookingTrends(bookings: seq<Booking>) returns (days: seq<Group<string>>)
    requires AreBookings(bookings)
    ensures Conserves(days, bookings)
    ensures var entries := Keyed(bookings, DateKey); days == GroupsOf(entries, FirstSeen(entries))
    ensures HoldsBookings(days, bookings, OnDate)
  {
    days := GroupBookings(bookings, DateKey);
    hide DateKey;
    GroupsHold(bookings, DateKey, days, OnDate);
  }

  method CalculatePeakHours(bookings: seq<Booking>) returns (hours: seq<Group<int>>)
    ensures Conserves(hours, bookings)
    ensures var entries := Keyed(bookings, HourKey); hours == GroupsOf(entries, FirstSeen(entries))
    ensures HoldsBookings(hours, bookings, InHour)
  {
    hours := GroupBookings(bookings, HourKey);
    forall i | 0 <= i < |bookings|
      ensures HourKey(bookings[i]) == bookings[i].start / MS_PER_HOUR % 24
    {
      HourIsHour(bookings[i]);
    }
    hide HourKey;
    GroupsHold(bookings, HourKey, hours, InHour);
  }

  datatype SpaceTypeRevenue = SpaceTypeRevenue(spaceType: string, revenue: real, percentage: real)

  function Percentage(revenue: real, total: real): real {
    if total > 0.0 then revenue / total * 100.0 else 0.0
  }

  function WithPercentages(groups: seq<Group<string>>, total: real): (shares: seq<SpaceTypeRevenue>)
    ensures |shares| == |groups|
    ensures forall i :: 0 <= i < |groups| ==>
              shares[i] == SpaceTypeRevenue(groups[i].key, groups[i].sum, Percentage(groups[i].sum, total))
  {
    seq(|groups|, i requires 0 <= i < |groups| =>
      SpaceTypeRevenue(groups[i].key, groups[i].sum, Percentage(groups[i].sum, total)))
  }

  function SumOfPercentages(shares: seq<SpaceTypeRevenue>): real {
    if shares == [] then 0.0 else shares[0].percentage + SumOfPercentages(shares[1..])
  }

  lemma {:induction false} PercentagesAddUp(groups: seq<Group<string>>, total: real)
    requires total > 0.0
    ensures SumOfPercentages(WithPercentages(groups, total)) == TotalSum(groups) / total * 100.0
  {
    if groups == [] {
    } else {
      PercentagesAddUp(groups[1..], total);
      assert WithPercentages(groups, total)[1..] == WithPercentages(groups[1..], total);
    }
  }

  lemma WholeIsHundred(total: real)
    requires total > 0.0
    ensures total / total * 100.0 == 100.0
  {}

  lemma PercentageMeans(revenue: real, total: real)
    ensures total > 0.0 ==> Percentage(revenue, total) * total == revenue * 100.0
    ensures total <= 0.0 ==> Percentage(revenue, total) == 0.0
  {}

  lemma SharesMean(bookings: seq<Booking>, groups: seq<Group<string>>, total: real)
    requires HoldsBookings(groups, bookings, OfSpaceType)
    ensures var shares := WithPercentages(groups, total);
            forall i :: 0 <= i < |shares| ==>
              && shares[i].revenue == Revenue(Select(bookings, OfSpaceType(shares[i].spaceType)))
              && (total > 0.0 ==> shares[i].percentage * total == shares[i].revenue * 100.0)
              && (total <= 0.0 ==> shares[i].percentage == 0.0)
  {
    hide Percentage;
    hide Revenue;
    hide Select;
    var shares := WithPercentages(groups, total);
    forall i | 0 <= i < |shares|
      ensures total > 0.0 ==> shares[i].percentage * total == shares[i].revenue * 100.0
      ensures total <= 0.0 ==> shares[i].percentage == 0.0
    {
      PercentageMeans(groups[i].sum, total);
    }
  }

  lemma SharesAddUp(groups: seq<Group<string>>, total: real)
    requires total > 0.0 && TotalSum(groups) == total
    ensures SumOfPercentages(WithPercentages(groups, total)) == 100.0
  {
    PercentagesAddUp(groups, total);
    WholeIsHundred(total);
  }

  /** Each space type has the revenue of its bookings and its share of the total in percent; if that
      is the revenue of the bookings, and not zero, the shares add up to 100 percent. */
  method CalculateRevenueBySpaceType(bookings: seq<Booking>, totalRevenue: real) returns (shares: seq<SpaceTypeRevenue>)
    ensures var entries := Keyed(bookings, SpaceTypeKey);
            shares == WithPercentages(GroupsOf(entries, FirstSeen(entries)), totalRevenue)
    ensures totalRevenue == Revenue(bookings) && totalRevenue > 0.0 ==> SumOfPercentages(shares) == 100.0
    ensures forall i :: 0 <= i < |shares| ==>
              && shares[i].revenue == Revenue(Select(bookings, OfSpaceType(shares[i].spaceType)))
              && (totalRevenue > 0.0 ==> shares[i].percentage * totalRevenue == shares[i].revenue * 100.0)
              && (totalRevenue <= 0.0 ==> shares[i].percentage == 0.0)
  {
    hide Revenue;
    hide Select;
    hide Keyed;
    hide FirstSeen;
    hide TotalSum;
    hide TotalCount;
    hide SumOfPercentages;
    hide Percentage;
    hide HoldsBookings;
    var groups := GroupBookings(bookings, SpaceTypeKey);
    GroupsHold(bookings, SpaceTypeKey, groups, OfSpaceType);
    SharesMean(bookings, groups, totalRevenue);
    if totalRevenue == Revenue(bookings) && totalRevenue > 0.0 {
      SharesAddUp(groups, totalRevenue);
    }
    shares := WithPercentages(groups, totalRevenue);
  }

  // ----- customers

  /** The distinct users of the bookings. */
  function UsersOf(bookings: seq<Booking>): set<string> {
    set b | b in bookings :: b.userId
  }

  /** The users with at least two bookings. */
  function RepeatUsers(bookings: seq<Booking>): set<string> {
    set u | u in UsersOf(bookings) && CountOf(Keyed(bookings, UserKey), u) >= 2
  }

  /** The groups of a single booking. */
  function NewOnes<K>(groups: seq<Group<K>>): seq<Group<K>> {
    if groups == [] then [] else (if groups[0].count == 1 then [groups[0]] else []) + NewOnes(groups[1..])
  }

  function OtherOnes<K>(groups: seq<Group<K>>): seq<Group<K>> {
    if groups == [] then [] else (if groups[0].count == 1 then [] else [groups[0]]) + OtherOnes(groups[1..])
  }

  lemma {:induction false} OthersAreTheRest<K>(groups: seq<Group<K>>)
    ensures |NewOnes(groups)| + |OtherOnes(groups)| == |groups|
    ensures forall g :: g in OtherOnes(groups) <==> g in groups && g.count != 1
    ensures forall i :: 0 <= i < |OtherOnes(groups)| ==> OtherOnes(groups)[i] in groups
  {
    if groups == [] {
    } else {
      OthersAreTheRest(groups[1..]);
    }
  }

  lemma {:induction false} OthersAreDistinct<K>(groups: seq<Group<K>>)
    requires forall i, j :: 0 <= i < j < |groups| ==> groups[i].key != groups[j].key
    ensures var others := OtherOnes(groups);
            forall i, j :: 0 <= i < j < |others| ==> others[i].key != others[j].key
  {
    if groups == [] {
    } else {
      OthersAreDistinct(groups[1..]);
      OthersAreTheRest(groups[1..]);
      var others := OtherOnes(groups[1..]);
      forall i | 0 <= i < |others|
        ensures others[i].key != groups[0].key
      {
        assert others[i] in groups[1..];
      }
    }
  }

  lemma RowsOfUsers(bookings: seq<Booking>)
    ensures (set e | e in Keyed(bookings, UserKey) :: e.key) == UsersOf(bookings)
  {
    var entries := Keyed(bookings, UserKey);
    forall b | b in bookings
      ensures exists e :: e in entries && e.key == b.userId
    {
      var i :| 0 <= i < |bookings| && bookings[i] == b;
      assert entries[i] in entries;
    }
  }

  lemma OtherKey(entries: seq<Entry<string>>, keys: seq<string>, u: string)
    requires forall key :: key in keys ==> CountOf(entries, key) >= 1
    ensures var customers := GroupsOf(entries, keys);
            (exists i :: 0 <= i < |OtherOnes(customers)| && OtherOnes(customers)[i].key == u)
            <==> u in keys && CountOf(entries, u) >= 2
  {
    var customers := GroupsOf(entries, keys);
    var others := OtherOnes(customers);
    OthersAreTheRest(customers);
    if i :| 0 <= i < |others| && others[i].key == u {
      assert others[i] in others;
      assert others[i] in customers;
    }
    if u in keys && CountOf(entries, u) >= 2 {
      var k :| 0 <= k < |keys| && keys[k] == u;
      assert customers[k] in customers;
      assert customers[k] in others;
    }
  }

  /** The groups by user have the distinct users as keys, and the groups of more than one booking
      have the repeat users. */
  lemma CustomersAreUsers(bookings: seq<Booking>)
    ensures var entries := Keyed(bookings, UserKey);
            var customers := GroupsOf(entries, FirstSeen(entries));
            && KeysOf(customers) == UsersOf(bookings)
            && KeysOf(OtherOnes(customers)) == RepeatUsers(bookings)
  {
    var entries := Keyed(bookings, UserKey);
    var keys := FirstSeen(entries);
    var customers := GroupsOf(entries, keys);
    SeenExactly(entries);
    RowsOfUsers(bookings);
    FirstSeenIsDistinct(entries);
    OthersAreTheRest(customers);
    forall u: string
      ensures u in KeysOf(customers) <==> u in keys
      ensures u in KeysOf(OtherOnes(customers)) <==> u in keys && CountOf(entries, u) >= 2
    {
      InKeysOf(customers, u);
      InKeysOf(OtherOnes(customers), u);
      OtherKey(entries, keys, u);
    }
    assert forall u: string :: u in keys <==> u in UsersOf(bookings);
  }

  lemma {:induction false} CountedOnce(bookings: seq<Booking>, u: string)
    ensures CountOf(Keyed(bookings, UserKey), u) >= 1 <==> exists i :: 0 <= i < |bookings| && bookings[i].userId == u
  {
    if bookings == [] {
    } else {
      var last := |bookings| - 1;
      CountedOnce(bookings[..last], u);
      assert Keyed(bookings, UserKey)[..last] == Keyed(bookings[..last], UserKey);
      if i :| 0 <= i < |bookings| && bookings[i].userId == u {
        assert i < last ==> bookings[..last][i].userId == u;
      }
    }
  }

  lemma {:induction false} CountedTwice(bookings: seq<Booking>, u: string)
    ensures CountOf(Keyed(bookings, UserKey), u) >= 2
            <==> exists i, j :: 0 <= i < j < |bookings| && bookings[i].userId == u && bookings[j].userId == u
  {
    if bookings == [] {
    } else {
      var last := |bookings| - 1;
      var before := bookings[..last];
      CountedTwice(before, u);
      CountedOnce(before, u);
      assert Keyed(bookings, UserKey)[..last] == Keyed(before, UserKey);
      if i, j :| 0 <= i < j < |bookings| && bookings[i].userId == u && bookings[j].userId == u {
        assert before[i].userId == u;
        assert j < last ==> before[j].userId == u;
      }
    }
  }

  /** The repeat users are those of two different bookings. */
  lemma RepeatUsersExactly(bookings: seq<Booking>, u: string)
    ensures u in RepeatUsers(bookings)
            <==> exists i, j :: 0 <= i < j < |bookings| && bookings[i].userId == u && bookings[j].userId == u
  {
    CountedTwice(bookings, u);
    hide CountOf;
    hide Keyed;
    if i, j :| 0 <= i < j < |bookings| && bookings[i].userId == u && bookings[j].userId == u {
      assert bookings[i] in bookings;
    }
  }

  datatype CustomerCounts = CustomerCounts(totalCustomers: nat, newCustomers: nat, returningCustomers: int)

  /** The customer figures: one entry per distinct user, and the customers that are not new are
      exactly those with two or more bookings. */
  method CustomerAnalytics(bookings: seq<Booking>) returns (counts: CustomerCounts, customers: seq<Group<string>>)
    ensures Conserves(customers, bookings)
    ensures |customers| == counts.totalCustomers == |UsersOf(bookings)|
    ensures KeysOf(customers) == UsersOf(bookings)
    ensures counts.returningCustomers == |RepeatUsers(bookings)|
    ensures counts.newCustomers + counts.returningCustomers == counts.totalCustomers
    ensures HoldsBookings(customers, bookings, OfUser)
  {
    hide Select;
    hide RepeatUsers;
    hide UsersOf;
    customers := GroupBookings(bookings, UserKey);
    GroupsHold(bookings, UserKey, customers, OfUser);
    CustomersAreUsers(bookings);
    KeysOfDistinct(customers);
    OthersAreTheRest(customers);
    OthersAreDistinct(customers);
    KeysOfDistinct(OtherOnes(customers));
    var newCustomers := |NewOnes(customers)|;
    var totalCustomers := |UsersOf(bookings)|;
    counts := CustomerCounts(totalCustomers, newCustomers, totalCustomers - newCustomers);
  }

  // ----- financial reports

  datatype RevenueReport = RevenueReport(
    totalBookings: nat, totalRevenue: real, averageBookingValue: real,
    revenueByPartner: seq<Group<string>>, revenueBySpaceType: seq<Group<string>>)

  /** A booking without a partner is recorded under the key "undefined". */
  function PartnerKey(b: Booking): string { b.partnerId.GetOr("undefined") }

  /** A booking without a space type is recorded under the key "undefined" here. */
  function ReportedSpaceType(b: Booking): string { b.spaceType.GetOr("undefined") }

  lemma NoBookingsNoRevenue(bookings: seq<Booking>)
    ensures |bookings| == 0 ==> Revenue(bookings) == 0.0
  {}

  /** The average, which is zero for no bookings. */
  method Average(total: real, count: nat) returns (average: real)
    requires count == 0 ==> total == 0.0
    ensures average * count as real == total && (count == 0 ==> average == 0.0)
  {
    average := if count == 0 then 0.0 else total / count as real;
  }

  /** generateRevenueReport: both breakdowns conserve the revenue of the summary. */
  method GenerateRevenueReport(bookings: seq<Booking>) returns (report: RevenueReport)
    ensures report.totalBookings == |bookings| && report.totalRevenue == Revenue(bookings)
    ensures Conserves(report.revenueByPartner, bookings) && Conserves(report.revenueBySpaceType, bookings)
    ensures TotalSum(report.revenueByPartner) == TotalSum(report.revenueBySpaceType) == report.totalRevenue
    ensures report.averageBookingValue * |bookings| as real == report.totalRevenue
    ensures bookings == [] ==> report.averageBookingValue == 0.0
    ensures HoldsBookings(report.revenueByPartner, bookings, OfPartner)
    ensures HoldsBookings(report.revenueBySpaceType, bookings, OfReportedType)
  {
    hide Revenue;
    hide TotalSum;
    hide TotalCount;
    hide Keyed;
    hide GroupsOf;
    hide FirstSeen;
    hide Select;
    hide HoldsBookings;
    NoBookingsNoRevenue(bookings);
    var byPartner := GroupBookings(bookings, PartnerKey);
    var bySpaceType := GroupBookings(bookings, ReportedSpaceType);
    GroupsHold(bookings, PartnerKey, byPartner, OfPartner);
    GroupsHold(bookings, ReportedSpaceType, bySpaceType, OfReportedType);
    var total := Revenue(bookings);
    var average := Average(total, |bookings|);
    report := RevenueReport(|bookings|, total, average, byPartner, bySpaceType);
  }

  datatype PartnerPerformance = PartnerPerformance(
    partnerId: string, totalBookings: nat, totalRevenue: real, averageBookingValue: real)

  datatype PerformanceReport = PerformanceReport(
    totalPartners: nat, totalBookings: nat, totalRevenue: real, partnerPerformance: seq<PartnerPerformance>)

  function PerformanceOf(g: Group<string>): PartnerPerformance {
    PartnerPerformance(g.key, g.count, g.sum, if g.count == 0 then 0.0 else g.sum / g.count as real)
  }

  /** The rows of the report have the number of their partners' bookings, their amounts and their
      average. */
  ghost predicate RowsMean(rows: seq<PartnerPerformance>, bookings: seq<Booking>) {
    forall i :: 0 <= i < |rows| ==>
      var chosen := Select(bookings, OfPartner(rows[i].partnerId));
      && rows[i].totalBookings == |chosen| > 0 && rows[i].totalRevenue == Revenue(chosen)
      && rows[i].averageBookingValue * |chosen| as real == Revenue(chosen)
  }

  lemma AverageOf(sum: real, count: nat)
    requires count > 0
    ensures sum / count as real * count as real == sum
  {}

  lemma PerformanceMeans(groups: seq<Group<string>>, rows: seq<PartnerPerformance>, bookings: seq<Booking>)
    requires HoldsBookings(groups, bookings, OfPartner) && |rows| == |groups|
    requires forall i :: 0 <= i < |groups| ==> groups[i].count > 0 && rows[i] == PerformanceOf(groups[i])
    ensures RowsMean(rows, bookings)
  {
    hide Select;
    hide Revenue;
    forall i | 0 <= i < |rows|
      ensures rows[i].averageBookingValue * groups[i].count as real == groups[i].sum
    {
      AverageOf(groups[i].sum, groups[i].count);
    }
  }

  /** generatePartnerPerformanceReport: one row per partner, and the rows conserve the summary. */
  method GeneratePartnerPerformanceReport(bookings: seq<Booking>) returns (report: PerformanceReport)
    ensures var entries := Keyed(bookings, PartnerKey);
            var groups := GroupsOf(entries, FirstSeen(entries));
            && Conserves(groups, bookings)
            && report.totalPartners == |report.partnerPerformance| == |groups|
            && (forall i :: 0 <= i < |groups| ==>
                  groups[i].count > 0 && report.partnerPerformance[i] == PerformanceOf(groups[i]))
    ensures report.totalBookings == |bookings| && report.totalRevenue == Revenue(bookings)
    ensures RowsMean(report.partnerPerformance, bookings)
  {
    hide Select;
    hide RowsMean;
    hide HoldsBookings;
    var groups := GroupBookings(bookings, PartnerKey);
    GroupByConserves(Keyed(bookings, PartnerKey));
    GroupsHold(bookings, PartnerKey, groups, OfPartner);
    var rows := seq(|groups|, i requires 0 <= i < |groups| => PerformanceOf(groups[i]));
    PerformanceMeans(groups, rows, bookings);
    report := PerformanceReport(|groups|, |bookings|, Revenue(bookings), rows);
  }

  /** The bookings-by-status counts of the booking analytics report. */
  method CountByStatus(bookings: seq<Booking>) returns (byStatus: seq<Group<string>>)
    ensures Conserves(byStatus, bookings)
    ensures var entries := Keyed(bookings, StatusKey); byStatus == GroupsOf(entries, FirstSeen(entries))
    ensures HoldsBookings(byStatus, bookings, OfStatus)
  {
    byStatus := GroupBookings(bookings, StatusKey);
    GroupsHold(bookings, StatusKey, byStatus, OfStatus);
  }
}
