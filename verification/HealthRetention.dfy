/** The retention procedure of the system_health table: two DELETE statements, the second one
    ranking the records of each service by age. */
module HealthRetention {

  const MAX_AGE_MS := 30 * 86400000
  const MAX_RECORDS := 1000

  datatype Record = Record(id: string, serviceName: string, serviceType: string, createdAt: int)

  /** The order ROW_NUMBER leaves open: any injective tie-break between records of one moment. */
  type TieBreak = Record -> int

  ghost predicate BreaksTies(tie: TieBreak, rows: set<Record>) {
    forall a, b :: a in rows && b in rows && a != b ==> tie(a) != tie(b)
  }

  predicate SameGroup(a: Record, b: Record) {
    a.serviceName == b.serviceName && a.serviceType == b.serviceType
  }

  /** The records of the same service and type. */
  function Group(rows: set<Record>, r: Record): set<Record> {
    set q | q in rows && SameGroup(q, r)
  }

  /** The newer record first, and the tie-break behind that. */
  predicate Ahead(a: Record, b: Record, tie: TieBreak) {
    a.createdAt > b.createdAt || (a.createdAt == b.createdAt && tie(a) < tie(b))
  }

  function AheadOf(rows: set<Record>, r: Record, tie: TieBreak): set<Record> {
    set q | q in rows && Ahead(q, r, tie)
  }

  /** The number of a record in its group, from one. */
  function RowNumber(rows: set<Record>, r: Record, tie: TieBreak): nat {
    1 + |AheadOf(Group(rows, r), r, tie)|
  }

  function Recent(rows: set<Record>, now: int): set<Record> {
    set r | r in rows && r.createdAt >= now - MAX_AGE_MS
  }

  function TopRanked(rows: set<Record>, tie: TieBreak): set<Record> {
    set r | r in rows && RowNumber(rows, r, tie) <= MAX_RECORDS
  }

  /** id is the primary key. */
  ghost predicate UniqueIds(rows: set<Record>) {
    forall a, b :: a in rows && b in rows && a.id == b.id ==> a == b
  }

  // ----- ranks count what they should

  /** The last record of a non-empty set in the order. */
  lemma {:induction false} LastRecord(rows: set<Record>, tie: TieBreak) returns (last: Record)
    requires rows != {} && BreaksTies(tie, rows)
    ensures last in rows && forall q :: q in rows && q != last ==> Ahead(q, last, tie)
  {
    var r :| r in rows;
    var rest := rows - {r};
    if rest == {} {
      last := r;
      assert rows == {r};
    } else {
      var l := LastRecord(rest, tie);
      last := if Ahead(r, l, tie) then l else r;
      assert tie(r) != tie(l);
      forall q | q in rows && q != last
        ensures Ahead(q, last, tie)
      {
        assert q == r || q in rest;
      }
    }
  }

  function Leading(rows: set<Record>, tie: TieBreak, k: nat): set<Record> {
    set q | q in rows && |AheadOf(rows, q, tie)| < k
  }

  lemma SubsetIsSmaller<T>(a: set<T>, b: set<T>)
    requires a <= b
    ensures |a| <= |b|
  {
    assert b == a + (b - a);
  }

  /** In a totally ordered set exactly k records have fewer than k records ahead of them. */
  lemma {:induction false} LeadingCount(rows: set<Record>, tie: TieBreak, k: nat)
    requires BreaksTies(tie, rows) && k <= |rows|
    ensures |Leading(rows, tie, k)| == k
    decreases |rows|
  {
    if k == |rows| {
      forall q | q in rows
        ensures |AheadOf(rows, q, tie)| < k
      {
        SubsetIsSmaller(AheadOf(rows, q, tie), rows - {q});
      }
      assert Leading(rows, tie, k) == rows;
    } else {
      var last := LastRecord(rows, tie);
      var rest := rows - {last};
      LeadingCount(rest, tie, k);
      assert AheadOf(rows, last, tie) == rest;
      forall q | q in rest
        ensures AheadOf(rows, q, tie) == AheadOf(rest, q, tie)
      {}
      assert Leading(rows, tie, k) == Leading(rest, tie, k);
    }
  }

  /** A record's group, after ranking, is the leading part of the group before. */
  lemma RankedGroup(rows: set<Record>, r: Record, tie: TieBreak)
    ensures Group(TopRanked(rows, tie), r) == Leading(Group(rows, r), tie, MAX_RECORDS)
  {
    forall q | q in Group(rows, r)
      ensures Group(rows, q) == Group(rows, r)
    {}
  }

  lemma SmallGroupIsKept(rows: set<Record>, r: Record, tie: TieBreak)
    requires |Group(rows, r)| <= MAX_RECORDS
    ensures Group(TopRanked(rows, tie), r) == Group(rows, r)
  {
    var group := Group(rows, r);
    RankedGroup(rows, r, tie);
    forall q | q in group
      ensures |AheadOf(group, q, tie)| < MAX_RECORDS
    {
      SubsetIsSmaller(AheadOf(group, q, tie), group - {q});
    }
    assert Leading(group, tie, MAX_RECORDS) == group;
  }

  lemma RankedGroupSize(rows: set<Record>, r: Record, tie: TieBreak)
    requires BreaksTies(tie, rows)
    ensures |Group(TopRanked(rows, tie), r)|
            == if |Group(rows, r)| <= MAX_RECORDS then |Group(rows, r)| else MAX_RECORDS
  {
    var group := Group(rows, r);
    RankedGroup(rows, r, tie);
    if |group| <= MAX_RECORDS {
      SmallGroupIsKept(rows, r, tie);
    } else {
      LeadingCount(group, tie, MAX_RECORDS);
    }
  }

  lemma NotAheadHasMoreAhead(rows: set<Record>, q: Record, r: Record, tie: TieBreak)
    requires BreaksTies(tie, rows) && q in rows && r in rows && !Ahead(q, r, tie)
    ensures |AheadOf(rows, r, tie)| <= |AheadOf(rows, q, tie)|
  {
    assert q != r ==> tie(q) != tie(r);
    SubsetIsSmaller(AheadOf(rows, r, tie), AheadOf(rows, q, tie));
  }

  /** A record that is ranked out leaves exactly the limit behind, none of them older than it. */
  lemma RankedOut(rows: set<Record>, r: Record, tie: TieBreak)
    requires BreaksTies(tie, rows)
    requires r in rows && r !in TopRanked(rows, tie)
    ensures |Group(TopRanked(rows, tie), r)| == MAX_RECORDS
    ensures forall q :: q in Group(TopRanked(rows, tie), r) ==> Ahead(q, r, tie)
  {
    var group := Group(rows, r);
    SubsetIsSmaller(AheadOf(group, r, tie), group);
    RankedGroupSize(rows, r, tie);
    RankedGroup(rows, r, tie);
    forall q | q in Leading(group, tie, MAX_RECORDS)
      ensures Ahead(q, r, tie)
    {
      if !Ahead(q, r, tie) {
        NotAheadHasMoreAhead(group, q, r, tie);
        assert false;
      }
    }
  }

  lemma WhatCleanupKeeps(rows: set<Record>, now: int, tie: TieBreak)
    requires BreaksTies(tie, rows)
    ensures var kept := TopRanked(Recent(rows, now), tie);
            && (forall r :: r in kept ==> now - r.createdAt <= MAX_AGE_MS && |Group(kept, r)| <= MAX_RECORDS)
            && (forall r :: r in rows && r !in kept ==>
                  now - r.createdAt > MAX_AGE_MS
                  || (|Group(kept, r)| == MAX_RECORDS
                      && forall q :: q in Group(kept, r) ==> q.createdAt >= r.createdAt))
  {
    var recent := Recent(rows, now);
    var kept := TopRanked(recent, tie);
    forall r | r in kept
      ensures |Group(kept, r)| <= MAX_RECORDS
    {
      RankedGroupSize(recent, r, tie);
    }
    forall r | r in recent && r !in kept
      ensures |Group(kept, r)| == MAX_RECORDS && forall q :: q in Group(kept, r) ==> Ahead(q, r, tie)
    {
      RankedOut(recent, r, tie);
    }
  }

  /** A second cleanup at the same moment deletes nothing, however it breaks the ties. */
  lemma SecondCleanupDeletesNothing(rows: set<Record>, now: int, tie: TieBreak, again: TieBreak)
    requires BreaksTies(tie, rows)
    ensures var kept := TopRanked(Recent(rows, now), tie);
            TopRanked(Recent(kept, now), again) == kept
  {
    var kept := TopRanked(Recent(rows, now), tie);
    assert Recent(kept, now) == kept;
    forall r | r in kept
      ensures r in TopRanked(kept, again)
    {
      RankedGroupSize(Recent(rows, now), r, tie);
      SmallGroupIsKept(kept, r, again);
      assert r in Group(kept, r);
    }
  }

  // ----- the table

  /** The records of a service of a type. */
  function Of(rows: set<Record>, serviceName: string, serviceType: string): set<Record> {
    set q | q in rows && q.serviceName == serviceName && q.serviceType == serviceType
  }

  class SystemHealth {
    var rows: set<Record>

    constructor ()
      ensures rows == {}
    {
      rows := {};
    }

    /** cleanup_old_system_health: what it keeps, group by group. */
    method Cleanup(now: int, tie: TieBreak)
      requires UniqueIds(rows) && BreaksTies(tie, rows)
      modifies this
      ensures UniqueIds(rows)
      ensures rows == TopRanked(Recent(old(rows), now), tie)
      ensures forall r :: r in rows ==>
                && r in old(rows) && now - r.createdAt <= 2592000000
                && |Of(rows, r.serviceName, r.serviceType)| <= 1000
      ensures forall r :: r in old(rows) && r !in rows ==>
                || now - r.createdAt > 2592000000
                || (|Of(rows, r.serviceName, r.serviceType)| == 1000
                    && forall q :: q in Of(rows, r.serviceName, r.serviceType) ==> q.createdAt >= r.createdAt)
    {
      var kept := set r | r in rows && !(r.createdAt < now - MAX_AGE_MS);
      assert kept == Recent(rows, now);
      var ranked := set r | r in kept && RowNumber(kept, r, tie) > MAX_RECORDS :: r.id;
      ghost var before := rows;
      rows := set r | r in kept && r.id !in ranked;
      assert rows == TopRanked(kept, tie);
      WhatCleanupKeeps(before, now, tie);
      forall r: Record
        ensures Group(rows, r) == Of(rows, r.serviceName, r.serviceType)
      {}
    }
  }
}
