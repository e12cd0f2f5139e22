/** Stable sorting with a comparison function, as Array.prototype.sort promises it
    (section 23.1.3.30 of ECMA-262). A result is described by the list of the input positions in
    their new order. */
module StableSorting {

  type Comparison<!T> = (T, T) -> real

  /** The comparison orders the items: swapping its arguments swaps the sign, and "not greater" is
      transitive. It is then total. */
  ghost predicate OrdersAll<T>(compare: Comparison<T>, items: seq<T>) {
    && (forall i, j :: 0 <= i < |items| && 0 <= j < |items| ==>
          (compare(items[i], items[j]) <= 0.0 <==> compare(items[j], items[i]) >= 0.0))
    && (forall i, j, k :: 0 <= i < |items| && 0 <= j < |items| && 0 <= k < |items|
          && compare(items[i], items[j]) <= 0.0 && compare(items[j], items[k]) <= 0.0
          ==> compare(items[i], items[k]) <= 0.0)
  }

  /** Position i belongs before position j: smaller, or equal and earlier in the input. */
  predicate Before<T>(compare: Comparison<T>, items: seq<T>, i: nat, j: nat)
    requires i < |items| && j < |items|
  {
    var c := compare(items[i], items[j]);
    c < 0.0 || (c == 0.0 && i < j)
  }

  predicate Covers(order: seq<nat>, n: nat) {
    forall i: nat :: i < n ==> i in order
  }

  predicate IsPermutation(order: seq<nat>, n: nat) {
    && |order| == n
    && (forall k :: 0 <= k < n ==> order[k] < n)
    && (forall k, l :: 0 <= k < l < n ==> order[k] != order[l])
    && Covers(order, n)
  }

  predicate InOrder<T>(compare: Comparison<T>, items: seq<T>, order: seq<nat>)
    requires forall k :: 0 <= k < |order| ==> order[k] < |items|
  {
    forall k, l :: 0 <= k < l < |order| ==> Before(compare, items, order[k], order[l])
  }

  predicate IsStableSort<T>(compare: Comparison<T>, items: seq<T>, order: seq<nat>) {
    IsPermutation(order, |items|) && InOrder(compare, items, order)
  }

  function Apply<T>(items: seq<T>, order: seq<nat>): (result: seq<T>)
    requires forall k :: 0 <= k < |order| ==> order[k] < |items|
    ensures |result| == |order|
    ensures forall k :: 0 <= k < |order| ==> result[k] == items[order[k]]
  {
    seq(|order|, k requires 0 <= k < |order| => items[order[k]])
  }

  // ----- there is at most one stable sort

  lemma BeforeIsAsymmetric<T>(compare: Comparison<T>, items: seq<T>, i: nat, j: nat)
    requires OrdersAll(compare, items) && i < |items| && j < |items|
    requires Before(compare, items, i, j)
    ensures !Before(compare, items, j, i)
  {}

  lemma BeforeIsTransitive<T>(compare: Comparison<T>, items: seq<T>, i: nat, j: nat, k: nat)
    requires OrdersAll(compare, items) && i < |items| && j < |items| && k < |items|
    requires Before(compare, items, i, j) && Before(compare, items, j, k)
    ensures Before(compare, items, i, k)
  {
    assert compare(items[i], items[k]) <= 0.0;
    if compare(items[i], items[k]) == 0.0 {
      assert compare(items[k], items[i]) <= 0.0;
      assert compare(items[k], items[j]) <= 0.0;
      assert compare(items[j], items[i]) <= 0.0;
    }
  }

  /** The element at k of one permutation stands at k or later in another one with the same prefix. */
  lemma FindFrom(p: seq<nat>, q: seq<nat>, k: nat) returns (l: nat)
    requires IsPermutation(p, |p|) && IsPermutation(q, |p|) && k < |p| && p[..k] == q[..k]
    ensures k <= l < |q| && q[l] == p[k]
  {
    forall j | 0 <= j < k
      ensures q[j] == p[j]
    {
      assert p[..k][j] == q[..k][j];
    }
    assert p[k] in q;
    l :| 0 <= l < |q| && q[l] == p[k];
  }

  lemma {:induction false} PrefixesAgree<T>(compare: Comparison<T>, items: seq<T>, p: seq<nat>, q: seq<nat>, k: nat)
    requires OrdersAll(compare, items)
    requires IsStableSort(compare, items, p) && IsStableSort(compare, items, q)
    requires k <= |items|
    ensures p[..k] == q[..k]
  {
    if k == 0 {
    } else {
      PrefixesAgree(compare, items, p, q, k - 1);
      var l := FindFrom(p, q, k - 1);
      var m := FindFrom(q, p, k - 1);
      if p[k - 1] != q[k - 1] {
        BeforeIsAsymmetric(compare, items, p[k - 1], q[k - 1]);
        assert false;
      }
    }
  }

  /** Whatever algorithm sorts stably, its result is the same. */
  lemma StableSortIsUnique<T>(compare: Comparison<T>, items: seq<T>, p: seq<nat>, q: seq<nat>)
    requires OrdersAll(compare, items)
    requires IsStableSort(compare, items, p) && IsStableSort(compare, items, q)
    ensures p == q
  {
    PrefixesAgree(compare, items, p, q, |items|);
    assert p[..|items|] == p && q[..|items|] == q;
  }

  // ----- there is one: insertion sort

  /** Where position i goes: after every position of the order whose item is not greater. */
  function Place<T>(compare: Comparison<T>, items: seq<T>, order: seq<nat>, i: nat): (at: nat)
    requires i < |items| && forall k :: 0 <= k < |order| ==> order[k] < |items|
    ensures at <= |order|
  {
    if order == [] then 0
    else if compare(items[order[|order| - 1]], items[i]) <= 0.0 then |order|
    else Place(compare, items, order[..|order| - 1], i)
  }

  function InsertAt(order: seq<nat>, at: nat, i: nat): seq<nat>
    requires at <= |order|
  {
    order[..at] + [i] + order[at..]
  }

  lemma InsertedPermutation(order: seq<nat>, at: nat, n: nat)
    requires IsPermutation(order, n) && at <= n
    ensures IsPermutation(InsertAt(order, at, n), n + 1)
  {
    var all := InsertAt(order, at, n);
    assert forall k :: 0 <= k < n + 1 ==> all[k] == if k < at then order[k] else if k == at then n else order[k - 1];
    forall i: nat | i < n + 1
      ensures i in all
    {
      if i < n {
        assert i in order;
        var k :| 0 <= k < |order| && order[k] == i;
        assert all[if k < at then k else k + 1] == i;
      } else {
        assert all[at] == n;
      }
    }
  }

  function SortPositions<T>(compare: Comparison<T>, items: seq<T>, n: nat): (order: seq<nat>)
    requires n <= |items|
    ensures IsPermutation(order, n)
  {
    if n == 0 then []
    else
      var rest := SortPositions(compare, items, n - 1);
      var at := Place(compare, items, rest, n - 1);
      InsertedPermutation(rest, at, n - 1);
      InsertAt(rest, at, n - 1)
  }

  lemma LastOrNot<T>(compare: Comparison<T>, items: seq<T>, order: seq<nat>, i: nat)
    requires OrdersAll(compare, items) && i < |items| && order != []
    requires forall k :: 0 <= k < |order| ==> order[k] < i
    requires InOrder(compare, items, order)
    ensures var last := order[|order| - 1];
            if compare(items[last], items[i]) <= 0.0
            then forall k :: 0 <= k < |order| ==> Before(compare, items, order[k], i)
            else Before(compare, items, i, last)
  {
    var last := order[|order| - 1];
    if compare(items[last], items[i]) <= 0.0 {
      assert Before(compare, items, last, i);
      forall k | 0 <= k < |order|
        ensures Before(compare, items, order[k], i)
      {
        if k < |order| - 1 {
          BeforeIsTransitive(compare, items, order[k], last, i);
        }
      }
    }
  }

  lemma {:induction false} PlaceSeparates<T>(compare: Comparison<T>, items: seq<T>, order: seq<nat>, i: nat)
    requires OrdersAll(compare, items) && i < |items|
    requires forall k :: 0 <= k < |order| ==> order[k] < i
    requires InOrder(compare, items, order)
    ensures var at := Place(compare, items, order, i);
            && (forall k :: 0 <= k < at ==> Before(compare, items, order[k], i))
            && (forall k :: at <= k < |order| ==> Before(compare, items, i, order[k]))
  {
    hide OrdersAll;
    hide Before;
    if order == [] {
    } else {
      var last := |order| - 1;
      LastOrNot(compare, items, order, i);
      if compare(items[order[last]], items[i]) > 0.0 {
        assert InOrder(compare, items, order[..last]);
        PlaceSeparates(compare, items, order[..last], i);
      }
    }
  }

  lemma SortStep<T>(compare: Comparison<T>, items: seq<T>, n: nat)
    requires 0 < n <= |items|
    ensures var rest := SortPositions(compare, items, n - 1);
            && IsPermutation(rest, n - 1)
            && SortPositions(compare, items, n) == InsertAt(rest, Place(compare, items, rest, n - 1), n - 1)
  {
    hide InsertAt;
    hide IsPermutation;
    hide Place;
  }

  lemma InsertionKeepsOrder<T>(compare: Comparison<T>, items: seq<T>, order: seq<nat>, at: nat, i: nat)
    requires i < |items| && at <= |order|
    requires forall k :: 0 <= k < |order| ==> order[k] < |items|
    requires InOrder(compare, items, order)
    requires forall k :: 0 <= k < at ==> Before(compare, items, order[k], i)
    requires forall k :: at <= k < |order| ==> Before(compare, items, i, order[k])
    ensures forall k :: 0 <= k <= |order| ==> InsertAt(order, at, i)[k] < |items|
    ensures InOrder(compare, items, InsertAt(order, at, i))
  {
    hide Before;
    var all := InsertAt(order, at, i);
    assert forall k :: 0 <= k < |all| ==> all[k] == if k < at then order[k] else if k == at then i else order[k - 1];
    forall k, l | 0 <= k < l < |all|
      ensures Before(compare, items, all[k], all[l])
    {}
  }

  lemma InsertOneMore<T>(compare: Comparison<T>, items: seq<T>, order: seq<nat>, i: nat)
    requires OrdersAll(compare, items) && i < |items|
    requires forall k :: 0 <= k < |order| ==> order[k] < i
    requires InOrder(compare, items, order)
    ensures var all := InsertAt(order, Place(compare, items, order, i), i);
            && (forall k :: 0 <= k < |all| ==> all[k] < |items|)
            && InOrder(compare, items, all)
  {
    hide OrdersAll;
    hide Place;
    hide InOrder;
    hide Before;
    PlaceSeparates(compare, items, order, i);
    InsertionKeepsOrder(compare, items, order, Place(compare, items, order, i), i);
  }

  lemma NothingSorted<T>(compare: Comparison<T>, items: seq<T>)
    ensures SortPositions(compare, items, 0) == []
    ensures Apply(items, []) == [] == items[..0]
  {}

  lemma {:induction false} InsertionSortSorts<T>(compare: Comparison<T>, items: seq<T>, n: nat)
    requires OrdersAll(compare, items) && n <= |items|
    ensures InOrder(compare, items, SortPositions(compare, items, n))
  {
    hide SortPositions;
    hide Covers;
    hide OrdersAll;
    hide Place;
    hide InsertAt;
    hide Before;
    if n == 0 {
      NothingSorted(compare, items);
    } else {
      SortStep(compare, items, n);
      InsertionSortSorts(compare, items, n - 1);
      InsertOneMore(compare, items, SortPositions(compare, items, n - 1), n - 1);
    }
  }

  lemma StableSortExists<T>(compare: Comparison<T>, items: seq<T>)
    requires OrdersAll(compare, items)
    ensures IsStableSort(compare, items, SortPositions(compare, items, |items|))
  {
    InsertionSortSorts(compare, items, |items|);
  }

  lemma PrefixGrows<T>(items: seq<T>, n: nat)
    requires 0 < n <= |items|
    ensures multiset(items[..n]) == multiset(items[..n - 1]) + multiset{items[n - 1]}
  {
    assert items[..n] == items[..n - 1] + [items[n - 1]];
  }

  lemma MultisetOfInsertion<T>(s: seq<T>, at: nat, x: T)
    requires at <= |s|
    ensures multiset(s[..at] + [x] + s[at..]) == multiset(s) + multiset{x}
  {
    assert s == s[..at] + s[at..];
  }

  lemma InsertionAddsItem<T>(items: seq<T>, order: seq<nat>, at: nat, i: nat)
    requires i < |items| && at <= |order|
    requires forall k :: 0 <= k < |order| ==> order[k] < |items|
    ensures forall k :: 0 <= k <= |order| ==> InsertAt(order, at, i)[k] < |items|
    ensures multiset(Apply(items, InsertAt(order, at, i))) == multiset(Apply(items, order)) + multiset{items[i]}
  {
    var all, sorted := InsertAt(order, at, i), Apply(items, order);
    assert forall k :: 0 <= k < |all| ==> all[k] == if k < at then order[k] else if k == at then i else order[k - 1];
    assert Apply(items, all) == sorted[..at] + [items[i]] + sorted[at..];
    MultisetOfInsertion(sorted, at, items[i]);
  }

  /** The result of sorting holds each item as often as the input does. */
  lemma {:induction false} SortKeepsItems<T>(compare: Comparison<T>, items: seq<T>, n: nat)
    requires n <= |items|
    ensures multiset(Apply(items, SortPositions(compare, items, n))) == multiset(items[..n])
  {
    hide SortPositions;
    hide Covers;
    hide Apply;
    hide Place;
    hide InsertAt;
    if n == 0 {
      NothingSorted(compare, items);
    } else {
      SortStep(compare, items, n);
      SortKeepsItems(compare, items, n - 1);
      var rest := SortPositions(compare, items, n - 1);
      InsertionAddsItem(items, rest, Place(compare, items, rest, n - 1), n - 1);
      PrefixGrows(items, n);
    }
  }
}
