/** What filtering a list must give: its passing elements, each once for each time it stands in the
    list, in the order of the list. */
module Selections {

  /** at lists the positions of the passing elements in increasing order, and kept what stands there. */
  ghost predicate SelectsAt<T>(kept: seq<T>, at: seq<nat>, all: seq<T>, passes: T -> bool) {
    && |at| == |kept|
    && (forall k :: 0 <= k < |at| ==> at[k] < |all| && kept[k] == all[at[k]])
    && (forall k, l :: 0 <= k < l < |at| ==> at[k] < at[l])
    && (forall i: nat :: i < |all| ==> (i in at <==> passes(all[i])))
  }

  ghost predicate IsSelection<T(!new)>(kept: seq<T>, all: seq<T>, passes: T -> bool) {
    exists at :: SelectsAt(kept, at, all, passes)
  }

  lemma SelectNothing<T(!new)>(passes: T -> bool)
    ensures IsSelection([], [], passes)
  {
    assert SelectsAt([], [], [], passes);
  }

  /** The positions in a list with one more element at the end. */
  lemma SelectsAtEnd<T(!new)>(kept: seq<T>, at: seq<nat>, all: seq<T>, x: T, passes: T -> bool)
    requires SelectsAt(kept, at, all, passes)
    ensures if passes(x) then SelectsAt(kept + [x], at + [|all|], all + [x], passes)
            else SelectsAt(kept, at, all + [x], passes)
  {
    assert |all| !in at;
    if passes(x) {
      assert forall i :: i in at + [|all|] <==> i in at || i == |all|;
    }
  }

  lemma SelectionGrows<T(!new)>(kept: seq<T>, all: seq<T>, x: T, passes: T -> bool)
    requires IsSelection(kept, all, passes)
    ensures IsSelection(if passes(x) then kept + [x] else kept, all + [x], passes)
  {
    var at :| SelectsAt(kept, at, all, passes);
    SelectsAtEnd(kept, at, all, x, passes);
  }

  function Select<T>(all: seq<T>, passes: T -> bool): seq<T> {
    if all == [] then []
    else
      var last := |all| - 1;
      Select(all[..last], passes) + if passes(all[last]) then [all[last]] else []
  }

  lemma {:induction false} SelectIsSelection<T(!new)>(all: seq<T>, passes: T -> bool)
    ensures IsSelection(Select(all, passes), all, passes)
  {
    hide IsSelection;
    hide SelectsAt;
    if all == [] {
      SelectNothing(passes);
    } else {
      var last := |all| - 1;
      SelectIsSelection(all[..last], passes);
      SelectionGrows(Select(all[..last], passes), all[..last], all[last], passes);
      assert all[..last] + [all[last]] == all;
      assert Select(all[..last], passes) + [] == Select(all[..last], passes);
    }
  }

  /** A selection keeps the number of times each element stands in the list. */
  lemma {:induction false} SelectKeeps<T>(all: seq<T>, passes: T -> bool, x: T)
    ensures multiset(Select(all, passes))[x] == if passes(x) then multiset(all)[x] else 0
  {
    if all == [] {
    } else {
      var last := |all| - 1;
      SelectKeeps(all[..last], passes, x);
      assert all == all[..last] + [all[last]];
    }
  }

  /** The same, taken off from the front. */
  lemma {:induction false} SelectFromFront<T>(x: T, rest: seq<T>, passes: T -> bool)
    ensures Select([x] + rest, passes) == (if passes(x) then [x] else []) + Select(rest, passes)
  {
    var all := [x] + rest;
    if rest == [] {
      assert all[..0] == [];
    } else {
      var last := |rest| - 1;
      SelectFromFront(x, rest[..last], passes);
      assert all[..|all| - 1] == [x] + rest[..last];
    }
  }

  lemma SelectedFromSome<T>(kept: seq<T>, at: seq<nat>, all: seq<T>, passes: T -> bool)
    requires SelectsAt(kept, at, all, passes) && at != []
    ensures all != []
  {
    assert at[0] < |all|;
  }

  lemma NothingToSelect<T(!new)>(kept: seq<T>, passes: T -> bool)
    requires IsSelection(kept, [], passes)
    ensures kept == []
  {
    var at :| SelectsAt(kept, at, [], passes);
    if at != [] {
      SelectedFromSome(kept, at, [], passes);
    }
  }

  lemma LastIsSelected<T(!new)>(kept: seq<T>, at: seq<nat>, all: seq<T>, passes: T -> bool)
    requires all != [] && passes(all[|all| - 1]) && SelectsAt(kept, at, all, passes)
    ensures kept != [] && kept[|kept| - 1] == all[|all| - 1]
    ensures IsSelection(kept[..|kept| - 1], all[..|all| - 1], passes)
  {
    var last := |all| - 1;
    assert last in at;
    var n := |at| - 1;
    assert at[n] == last;
    forall i: nat | i < last
      ensures i in at[..n] <==> passes(all[i])
    {
      if i in at {
        var k :| 0 <= k < |at| && at[k] == i;
        assert at[..n][k] == i;
      }
    }
    assert SelectsAt(kept[..n], at[..n], all[..last], passes);
  }

  lemma LastIsNotSelected<T(!new)>(kept: seq<T>, at: seq<nat>, all: seq<T>, passes: T -> bool)
    requires all != [] && !passes(all[|all| - 1]) && SelectsAt(kept, at, all, passes)
    ensures IsSelection(kept, all[..|all| - 1], passes)
  {
    var last := |all| - 1;
    assert last !in at;
    forall k | 0 <= k < |at|
      ensures at[k] < last
    {
      assert at[k] in at;
    }
    assert SelectsAt(kept, at, all[..last], passes);
  }

  /** There is only one selection. */
  lemma {:induction false} SelectionIsUnique<T(!new)>(kept: seq<T>, all: seq<T>, passes: T -> bool)
    requires IsSelection(kept, all, passes)
    ensures kept == Select(all, passes)
  {
    hide SelectsAt;
    if all == [] {
      NothingToSelect(kept, passes);
    } else {
      var at :| SelectsAt(kept, at, all, passes);
      var last := |all| - 1;
      if passes(all[last]) {
        LastIsSelected(kept, at, all, passes);
        SelectionIsUnique(kept[..|kept| - 1], all[..last], passes);
        assert kept == kept[..|kept| - 1] + [all[last]];
      } else {
        LastIsNotSelected(kept, at, all, passes);
        SelectionIsUnique(kept, all[..last], passes);
      }
    }
  }

  /** Tests that agree on the list select the same. */
  lemma {:induction false} SelectAgrees<T>(all: seq<T>, passes: T -> bool, other: T -> bool)
    requires forall i :: 0 <= i < |all| ==> (passes(all[i]) <==> other(all[i]))
    ensures Select(all, passes) == Select(all, other)
  {
    if all == [] {
    } else {
      SelectAgrees(all[..|all| - 1], passes, other);
    }
  }
}
