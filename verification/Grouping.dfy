/** Group-by over a list, as the services do it with a Map or a record: one entry per key, in the
    order in which the keys first appear, holding a count and a sum. */
module Grouping {
  import opened Selections

  datatype Group<K> = Group(key: K, count: nat, sum: real)

  /** One row to be grouped: its key and what it contributes to the sum. */
  datatype Entry<K> = Entry(key: K, amount: real)

  function CountOf<K(==)>(entries: seq<Entry<K>>, key: K): nat {
    if entries == [] then 0
    else
      var last := |entries| - 1;
      CountOf(entries[..last], key) + if entries[last].key == key then 1 else 0
  }

  function SumOf<K(==)>(entries: seq<Entry<K>>, key: K): real {
    if entries == [] then 0.0
    else
      var last := |entries| - 1;
      SumOf(entries[..last], key) + if entries[last].key == key then entries[last].amount else 0.0
  }

  function Total<K>(entries: seq<Entry<K>>): real {
    if entries == [] then 0.0 else Total(entries[..|entries| - 1]) + entries[|entries| - 1].amount
  }

  /** The distinct keys in the order of their first appearance. */
  function FirstSeen<K(==)>(entries: seq<Entry<K>>): seq<K> {
    if entries == [] then []
    else
      var last := |entries| - 1;
      var seen := FirstSeen(entries[..last]);
      if entries[last].key in seen then seen else seen + [entries[last].key]
  }

  function GroupsOf<K(==)>(entries: seq<Entry<K>>, keys: seq<K>): (groups: seq<Group<K>>)
    ensures |groups| == |keys|
    ensures forall i :: 0 <= i < |keys| ==>
              groups[i] == Group(keys[i], CountOf(entries, keys[i]), SumOf(entries, keys[i]))
  {
    seq(|keys|, i requires 0 <= i < |keys| => Group(keys[i], CountOf(entries, keys[i]), SumOf(entries, keys[i])))
  }

  function TotalCount<K>(groups: seq<Group<K>>): nat {
    if groups == [] then 0 else groups[0].count + TotalCount(groups[1..])
  }

  function TotalSum<K>(groups: seq<Group<K>>): real {
    if groups == [] then 0.0 else groups[0].sum + TotalSum(groups[1..])
  }

  predicate Distinct<K(==)>(keys: seq<K>) {
    forall i, j :: 0 <= i < j < |keys| ==> keys[i] != keys[j]
  }

  // ----- the loop

  ghost predicate Holds<K>(table: map<K, Group<K>>, order: seq<K>, entries: seq<Entry<K>>) {
    && order == FirstSeen(entries)
    && table.Keys == (set key | key in order)
    && (forall key :: key in table ==> table[key] == Group(key, CountOf(entries, key), SumOf(entries, key)))
  }

  lemma HoldsNothing<K>()
    ensures Holds<K>(map[], [], [])
  {}

  lemma HoldsAll<K>(table: map<K, Group<K>>, order: seq<K>, entries: seq<Entry<K>>)
    requires Holds(table, order, entries)
    ensures order == FirstSeen(entries)
    ensures forall i :: 0 <= i < |order| ==>
              && order[i] in table
              && table[order[i]] == Group(order[i], CountOf(entries, order[i]), SumOf(entries, order[i]))
  {}

  lemma {:induction false} UnseenIsZero<K>(entries: seq<Entry<K>>, key: K)
    requires key !in FirstSeen(entries)
    ensures CountOf(entries, key) == 0 && SumOf(entries, key) == 0.0
  {
    if entries == [] {
    } else {
      UnseenIsZero(entries[..|entries| - 1], key);
    }
  }

  lemma HoldsStep<K>(table: map<K, Group<K>>, order: seq<K>, entries: seq<Entry<K>>, i: nat)
    requires i < |entries| && Holds(table, order, entries[..i])
    ensures var key := entries[i].key;
            var current := if key in table then table[key] else Group(key, 0, 0.0);
            Holds(table[key := Group(key, current.count + 1, current.sum + entries[i].amount)],
                  if key in table then order else order + [key], entries[..i + 1])
  {
    var now := entries[..i + 1];
    assert now[..i] == entries[..i] && now[i] == entries[i];
    if entries[i].key !in table {
      UnseenIsZero(entries[..i], entries[i].key);
    }
  }

  /** Reads and replaces the row's entry in the table, row by row. A JavaScript Map
      remembers the order of insertion. */
  method GroupBy<K(==)>(entries: seq<Entry<K>>) returns (groups: seq<Group<K>>)
    ensures groups == GroupsOf(entries, FirstSeen(entries))
  {
    hide Holds;
    var table: map<K, Group<K>> := map[];
    var order: seq<K> := [];
    HoldsNothing<K>();
    assert entries[..0] == [];
    for i := 0 to |entries|
      invariant Holds(table, order, entries[..i])
    {
      var key := entries[i].key;
      ghost var was, orderWas := table, order;
      var current := if key in table then table[key] else Group(key, 0, 0.0);
      if key !in table {
        order := order + [key];
      }
      table := table[key := Group(key, current.count + 1, current.sum + entries[i].amount)];
      HoldsStep(was, orderWas, entries, i);
    }
    assert entries[..|entries|] == entries;
    HoldsAll(table, order, entries);
    groups := seq(|order|, i requires 0 <= i < |order| && order[i] in table => table[order[i]]);
  }

  /** The keys of the groups are the keys of the rows. */
  lemma {:induction false} SeenExactly<K>(entries: seq<Entry<K>>)
    ensures (set key | key in FirstSeen(entries)) == (set e | e in entries :: e.key)
  {
    if entries == [] {
    } else {
      var last := |entries| - 1;
      var earlier, key := entries[..last], entries[last].key;
      SeenExactly(earlier);
      assert entries == earlier + [entries[last]];
      assert (set e | e in entries :: e.key) == (set e | e in earlier :: e.key) + {key};
      assert (set k | k in FirstSeen(entries)) == (set k | k in FirstSeen(earlier)) + {key};
    }
  }

  function KeysOf<K(==)>(groups: seq<Group<K>>): set<K> {
    if groups == [] then {} else {groups[0].key} + KeysOf(groups[1..])
  }

  lemma {:induction false} InKeysOf<K>(groups: seq<Group<K>>, key: K)
    ensures key in KeysOf(groups) <==> exists i :: 0 <= i < |groups| && groups[i].key == key
  {
    if groups == [] {
    } else {
      InKeysOf(groups[1..], key);
      if i :| 0 <= i < |groups| && groups[i].key == key {
        assert i > 0 ==> groups[1..][i - 1].key == key;
      }
      if i :| 0 <= i < |groups[1..]| && groups[1..][i].key == key {
        assert groups[i + 1].key == key;
      }
    }
  }

  lemma {:induction false} KeysOfDistinct<K>(groups: seq<Group<K>>)
    requires forall i, j :: 0 <= i < j < |groups| ==> groups[i].key != groups[j].key
    ensures |KeysOf(groups)| == |groups|
  {
    if groups == [] {
    } else {
      KeysOfDistinct(groups[1..]);
      InKeysOf(groups[1..], groups[0].key);
    }
  }

  // ----- conservation

  lemma {:induction false} FirstSeenDiffer<K>(entries: seq<Entry<K>>)
    ensures Distinct(FirstSeen(entries))
  {
    if entries == [] {
    } else {
      FirstSeenDiffer(entries[..|entries| - 1]);
    }
  }

  lemma {:induction false} SeenIsCounted<K>(entries: seq<Entry<K>>, key: K)
    ensures key in FirstSeen(entries) <==> CountOf(entries, key) >= 1
  {
    if entries == [] {
    } else {
      SeenIsCounted(entries[..|entries| - 1], key);
    }
  }

  lemma {:induction false} EachIsSeen<K>(entries: seq<Entry<K>>)
    ensures forall i :: 0 <= i < |entries| ==> entries[i].key in FirstSeen(entries)
  {
    if entries == [] {
    } else {
      EachIsSeen(entries[..|entries| - 1]);
    }
  }

  lemma FirstSeenIsDistinct<K>(entries: seq<Entry<K>>)
    ensures Distinct(FirstSeen(entries))
    ensures forall i :: 0 <= i < |entries| ==> entries[i].key in FirstSeen(entries)
    ensures forall key :: key in FirstSeen(entries) ==> CountOf(entries, key) >= 1
  {
    FirstSeenDiffer(entries);
    EachIsSeen(entries);
    forall key | key in FirstSeen(entries)
      ensures CountOf(entries, key) >= 1
    {
      SeenIsCounted(entries, key);
    }
  }

  lemma {:induction false} NothingGrouped<K>(keys: seq<K>)
    ensures TotalCount(GroupsOf<K>([], keys)) == 0 && TotalSum(GroupsOf<K>([], keys)) == 0.0
  {
    if keys == [] {
    } else {
      NothingGrouped(keys[1..]);
      assert GroupsOf<K>([], keys)[1..] == GroupsOf<K>([], keys[1..]);
    }
  }

  /** The last row adds to exactly one group, the one of its key if that is among the keys. */
  lemma {:induction false} OneMoreRow<K>(entries: seq<Entry<K>>, keys: seq<K>)
    requires entries != [] && Distinct(keys)
    ensures var last := entries[|entries| - 1];
            var before := GroupsOf(entries[..|entries| - 1], keys);
            && TotalCount(GroupsOf(entries, keys)) == TotalCount(before) + (if last.key in keys then 1 else 0)
            && TotalSum(GroupsOf(entries, keys)) == TotalSum(before) + (if last.key in keys then last.amount else 0.0)
  {
    if keys == [] {
    } else {
      OneMoreRow(entries, keys[1..]);
      assert GroupsOf(entries, keys)[1..] == GroupsOf(entries, keys[1..]);
      var earlier := entries[..|entries| - 1];
      assert GroupsOf(earlier, keys)[1..] == GroupsOf(earlier, keys[1..]);
    }
  }

  /** Over any distinct keys that cover the rows, the groups hold every row once. */
  lemma {:induction false} GroupsConserve<K>(entries: seq<Entry<K>>, keys: seq<K>)
    requires Distinct(keys) && forall i :: 0 <= i < |entries| ==> entries[i].key in keys
    ensures TotalCount(GroupsOf(entries, keys)) == |entries|
    ensures TotalSum(GroupsOf(entries, keys)) == Total(entries)
  {
    if entries == [] {
      NothingGrouped(keys);
    } else {
      var last := |entries| - 1;
      GroupsConserve(entries[..last], keys);
      OneMoreRow(entries, keys);
    }
  }

  /** A group-by has one entry per key, and its entries conserve the rows and their amounts. */
  lemma GroupByConserves<K>(entries: seq<Entry<K>>)
    ensures var groups := GroupsOf(entries, FirstSeen(entries));
            && (forall i, j :: 0 <= i < j < |groups| ==> groups[i].key != groups[j].key)
            && (forall i :: 0 <= i < |groups| ==> groups[i].count >= 1)
            && TotalCount(groups) == |entries|
            && TotalSum(groups) == Total(entries)
  {
    FirstSeenIsDistinct(entries);
    GroupsConserve(entries, FirstSeen(entries));
  }

  // ----- what a group holds

  function HasKey<K(==)>(key: K): Entry<K> -> bool { (e: Entry<K>) => e.key == key }

  /** The count and the sum of a key are those of the rows that have it. */
  lemma {:induction false} GroupIsSelection<K>(entries: seq<Entry<K>>, key: K)
    ensures CountOf(entries, key) == |Select(entries, HasKey(key))|
    ensures SumOf(entries, key) == Total(Select(entries, HasKey(key)))
  {
    if entries == [] {
    } else {
      var last := |entries| - 1;
      GroupIsSelection(entries[..last], key);
      var before := Select(entries[..last], HasKey(key));
      assert before + [] == before;
      assert (before + [entries[last]])[..|before|] == before;
    }
  }

  /** The keys stand in the order of their first rows. */
  ghost predicate AppearInOrder<K>(keys: seq<K>, at: seq<nat>, entries: seq<Entry<K>>) {
    && |at| == |keys|
    && (forall k :: 0 <= k < |keys| ==> at[k] < |entries| && entries[at[k]].key == keys[k])
    && (forall k, i :: 0 <= k < |keys| && 0 <= i < at[k] ==> entries[i].key != keys[k])
    && (forall k, l :: 0 <= k < l < |keys| ==> at[k] < at[l])
  }

  lemma {:induction false} FirstSeenInOrder<K>(entries: seq<Entry<K>>) returns (at: seq<nat>)
    ensures AppearInOrder(FirstSeen(entries), at, entries)
  {
    if entries == [] {
      at := [];
    } else {
      var last := |entries| - 1;
      at := FirstSeenInOrder(entries[..last]);
      EachIsSeen(entries[..last]);
      if entries[last].key !in FirstSeen(entries[..last]) {
        at := at + [last];
        forall i | 0 <= i < last
          ensures entries[i].key != entries[last].key
        {
          assert entries[..last][i] == entries[i];
        }
      }
    }
  }
}
