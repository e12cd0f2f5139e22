/** The rule sets of a partner category and the versions kept of the ones they replace. */
module RuleVersions {
  import opened Wrappers

  datatype Kind = Pricing | Feature | Validation

  /** An accepted rule set is an object, so it never counts as missing. */
  datatype Rules = Rules(json: string)

  datatype Version = Version(kind: Kind, rules: Rules)

  /** The rule columns of a category (absent when null) and its version history. */
  datatype Store = Store(rules: map<Kind, Rules>, history: seq<Version>)

  /** What saving the loaded category writes: the changed rule column alone, or also the metadata
      column as it was loaded, which is where the version history is kept. */
  datatype Saving = OwnColumn | WholeRow

  /** An update of one rule set, where steps counts the awaited calls that succeed before one fails:
      find, validate, back up, save, track, invalidate. Or an update of the category itself, which
      may give rule sets or null for them, and metadata with a history of its own. */
  datatype UpdateRequest =
    | RuleUpdate(kind: Kind, rules: Rules, isValid: bool, steps: nat)
    | CategoryUpdate(given: map<Kind, Option<Rules>>, history: Option<seq<Version>>)

  datatype Answer = Done | Rejected | Failed

  predicate IsAccepted(u: UpdateRequest) { u.RuleUpdate? && u.isValid && u.steps >= 4 }

  function Stored(s: Store, kind: Kind): seq<Rules> {
    if kind in s.rules then [s.rules[kind]] else []
  }

  function Backup(s: Store, kind: Kind): Store {
    if kind in s.rules then s.(history := s.history + [Version(kind, s.rules[kind])]) else s
  }

  function Save(loaded: Store, current: Store, kind: Kind, rules: Rules, saving: Saving): Store {
    Store(current.rules[kind := rules], if saving.WholeRow? then loaded.history else current.history)
  }

  /** The rule columns once the given ones are assigned; null empties a column. */
  function Assigned(rules: map<Kind, Rules>, given: map<Kind, Option<Rules>>): map<Kind, Rules> {
    map kind | kind in rules.Keys + given.Keys && (kind in given ==> given[kind].Some?)
      :: if kind in given then given[kind].value else rules[kind]
  }

  /** The store after an update; one of rules gets as far as its number of steps says. */
  function Updated(s: Store, u: UpdateRequest, saving: Saving): Store {
    match u
    case RuleUpdate(kind, rules, isValid, steps) =>
      if steps < 2 || !isValid then s
      else
        var backedUp := if steps >= 3 then Backup(s, kind) else s;
        if steps >= 4 then Save(s, backedUp, kind, rules, saving) else backedUp
    case CategoryUpdate(given, history) => Store(Assigned(s.rules, given), history.GetOr(s.history))
  }

  /** updatePricingRules, updateFeatureRules and updateValidationRules, and update for these columns. */
  class PartnerCategoryRules {
    var store: Store
    const saving: Saving

    constructor (saving: Saving)
      ensures store == Store(map[], []) && this.saving == saving
    {
      store := Store(map[], []);
      this.saving := saving;
    }

    method UpdateRules(u: UpdateRequest) returns (answer: Answer)
      requires u.RuleUpdate?
      modifies this
      ensures store == Updated(old(store), u, saving)
      ensures answer == Done <==> u.isValid && u.steps >= 6
      ensures answer == Rejected <==> !u.isValid && u.steps >= 2
    {
      if u.steps < 1 {
        return Failed;
      }
      var loaded := store;
      if u.steps < 2 {
        return Failed;
      }
      if !u.isValid {
        return Rejected;
      }
      if u.steps < 3 {
        return Failed;
      }
      if u.kind in loaded.rules {
        store := store.(history := store.history + [Version(u.kind, loaded.rules[u.kind])]);
      }
      if u.steps < 4 {
        return Failed;
      }
      var changed := loaded.(rules := loaded.rules[u.kind := u.rules]);
      store := if saving.WholeRow? then changed else changed.(history := store.history);
      answer := if u.steps < 6 then Failed else Done;
    }

    method UpdateCategory(given: map<Kind, Option<Rules>>, history: Option<seq<Version>>)
      modifies this
      ensures store == Updated(old(store), CategoryUpdate(given, history), saving)
      ensures forall kind :: kind !in given ==> Stored(store, kind) == Stored(old(store), kind)
    {
      var partnerCategory := store.(rules := Assigned(store.rules, given));
      if history.Some? {
        partnerCategory := partnerCategory.(history := history.value);
      }
      store := partnerCategory;
    }
  }

  function UpdatedAll(s: Store, updates: seq<UpdateRequest>, saving: Saving): Store {
    if updates == [] then s
    else Updated(UpdatedAll(s, updates[..|updates| - 1], saving), updates[|updates| - 1], saving)
  }

  predicate OnlyRuleUpdates(updates: seq<UpdateRequest>) {
    forall i :: 0 <= i < |updates| ==> updates[i].RuleUpdate?
  }

  // ----- nothing is lost

  /** The rule set is the stored one of its kind, or in the history. */
  predicate IsKnown(s: Store, kind: Kind, rules: Rules) {
    (kind in s.rules && s.rules[kind] == rules) || Version(kind, rules) in s.history
  }

  /** The run accepts the rule set for the kind. */
  predicate Accepts(updates: seq<UpdateRequest>, kind: Kind, rules: Rules) {
    exists i :: 0 <= i < |updates| && IsAccepted(updates[i]) && updates[i].kind == kind && updates[i].rules == rules
  }

  lemma AcceptsStep(updates: seq<UpdateRequest>, kind: Kind, rules: Rules)
    requires updates != []
    ensures var last := updates[|updates| - 1];
            Accepts(updates, kind, rules)
            <==> Accepts(updates[..|updates| - 1], kind, rules)
                 || (IsAccepted(last) && last.kind == kind && last.rules == rules)
  {
    var before := updates[..|updates| - 1];
    if i :| 0 <= i < |before| && IsAccepted(before[i]) && before[i].kind == kind && before[i].rules == rules {
      assert updates[i] == before[i];
    }
    if i :| 0 <= i < |updates| && IsAccepted(updates[i]) && updates[i].kind == kind && updates[i].rules == rules {
      assert i < |before| ==> before[i] == updates[i];
    }
  }

  /** While rule sets are replaced by updates of rules alone, and saving leaves the history alone, no
      rule set is ever lost, wherever updates fail, and none comes from nowhere: known after a run
      are exactly those known before it and those it accepted. */
  lemma {:induction false} NothingIsLost(s: Store, updates: seq<UpdateRequest>, kind: Kind, rules: Rules)
    requires OnlyRuleUpdates(updates)
    ensures IsKnown(UpdatedAll(s, updates, OwnColumn), kind, rules)
            <==> IsKnown(s, kind, rules) || Accepts(updates, kind, rules)
  {
    if updates == [] {
    } else {
      NothingIsLost(s, updates[..|updates| - 1], kind, rules);
      AcceptsStep(updates, kind, rules);
      assert updates[|updates| - 1].RuleUpdate?;
    }
  }

  // ----- the history without failures

  function HistoryOf(history: seq<Version>, kind: Kind): seq<Rules> {
    if history == [] then []
    else
      var last := history[|history| - 1];
      HistoryOf(history[..|history| - 1], kind) + if last.kind == kind then [last.rules] else []
  }

  /** The rule sets of a kind that a run accepts, in order. */
  function AcceptedOf(updates: seq<UpdateRequest>, kind: Kind): seq<Rules> {
    if updates == [] then []
    else
      var last := updates[|updates| - 1];
      AcceptedOf(updates[..|updates| - 1], kind) + if IsAccepted(last) && last.kind == kind then [last.rules] else []
  }

  lemma HistoryOfAppend(history: seq<Version>, v: Version, kind: Kind)
    ensures HistoryOf(history + [v], kind) == HistoryOf(history, kind) + if v.kind == kind then [v.rules] else []
  {
    assert (history + [v])[..|history|] == history;
  }

  /** There are only updates of rules, and none fails between two of its steps. */
  predicate NoFailures(updates: seq<UpdateRequest>) {
    forall i :: 0 <= i < |updates| ==> updates[i].RuleUpdate? && updates[i].steps >= 6
  }

  lemma OneMoreAccepted(s: Store, u: UpdateRequest, kind: Kind)
    requires u.RuleUpdate? && u.steps >= 6
    ensures var after := Updated(s, u, OwnColumn);
            HistoryOf(after.history, kind) + Stored(after, kind)
            == HistoryOf(s.history, kind) + Stored(s, kind) + if IsAccepted(u) && u.kind == kind then [u.rules] else []
  {
    if u.kind in s.rules {
      HistoryOfAppend(s.history, Version(u.kind, s.rules[u.kind]), kind);
    }
  }

  /** Without failures the history of a kind followed by its stored rule set is exactly what it
      was at first followed by the accepted sequence. */
  lemma {:induction false} HistoryIsTheAcceptedSequence(s: Store, updates: seq<UpdateRequest>, kind: Kind)
    requires NoFailures(updates)
    ensures var after := UpdatedAll(s, updates, OwnColumn);
            HistoryOf(after.history, kind) + Stored(after, kind)
            == HistoryOf(s.history, kind) + Stored(s, kind) + AcceptedOf(updates, kind)
  {
    hide HistoryOf;
    hide Stored;
    hide Updated;
    hide IsAccepted;
    var start := HistoryOf(s.history, kind) + Stored(s, kind);
    if updates == [] {
      assert start + [] == start;
    } else {
      var last := |updates| - 1;
      HistoryIsTheAcceptedSequence(s, updates[..last], kind);
      OneMoreAccepted(UpdatedAll(s, updates[..last], OwnColumn), updates[last], kind);
      var accepted := AcceptedOf(updates[..last], kind);
      var more := if IsAccepted(updates[last]) && updates[last].kind == kind then [updates[last].rules] else [];
      assert start + accepted + more == start + (accepted + more);
    }
  }

  /** An update of one kind, however far it gets and whatever saving writes, leaves the stored rules
      and the history of the other kinds as they were, and keeps the history as a prefix. */
  lemma {:induction false} KindsAreIndependent(s: Store, u: UpdateRequest, saving: Saving, kind: Kind)
    requires u.RuleUpdate? && kind != u.kind
    ensures var after := Updated(s, u, saving);
            && Stored(after, kind) == Stored(s, kind)
            && HistoryOf(after.history, kind) == HistoryOf(s.history, kind)
            && s.history <= after.history
  {
    if u.kind in s.rules {
      HistoryOfAppend(s.history, Version(u.kind, s.rules[u.kind]), kind);
    }
  }

  // ----- what any run keeps

  /** What an update leaves stored for the kind, if it stores anything or empties the column. */
  function Stores(u: UpdateRequest, kind: Kind): Option<seq<Rules>> {
    match u
    case RuleUpdate(k, rules, _, _) => if IsAccepted(u) && k == kind then Some([rules]) else None
    case CategoryUpdate(given, _) =>
      if kind !in given then None else Some(if given[kind].Some? then [given[kind].value] else [])
  }

  /** What a run leaves stored: what the last update to store something for the kind stored, or else
      what was stored at first. */
  function LastOf(s: Store, updates: seq<UpdateRequest>, kind: Kind): seq<Rules> {
    if updates == [] then Stored(s, kind)
    else
      var last := |updates| - 1;
      Stores(updates[last], kind).GetOr(LastOf(s, updates[..last], kind))
  }

  lemma StoredAfter(s: Store, u: UpdateRequest, saving: Saving, kind: Kind)
    ensures Stored(Updated(s, u, saving), kind) == Stores(u, kind).GetOr(Stored(s, kind))
  {}

  lemma {:induction false} StoredIsLast(s: Store, updates: seq<UpdateRequest>, saving: Saving, kind: Kind)
    ensures Stored(UpdatedAll(s, updates, saving), kind) == LastOf(s, updates, kind)
  {
    hide Stored;
    hide Updated;
    hide Stores;
    if updates == [] {
    } else {
      var last := |updates| - 1;
      StoredIsLast(s, updates[..last], saving, kind);
      StoredAfter(UpdatedAll(s, updates[..last], saving), updates[last], saving, kind);
    }
  }

  /** The update gives metadata, and with it a history. */
  predicate Replaces(u: UpdateRequest) { u.CategoryUpdate? && u.history.Some? }

  /** The history of the metadata that was given last, or else the first one. */
  function GivenHistory(s: Store, updates: seq<UpdateRequest>): seq<Version> {
    if updates == [] then s.history
    else
      var last := updates[|updates| - 1];
      if Replaces(last) then last.history.value else GivenHistory(s, updates[..|updates| - 1])
  }

  /** An update of the kind whose backup lasts: saving does not write the older history back, either
      because it never does or because the update fails before it saves. */
  predicate BacksUp(u: UpdateRequest, kind: Kind, saving: Saving) {
    u.RuleUpdate? && u.kind == kind && u.isValid && (if saving.OwnColumn? then u.steps >= 3 else u.steps == 3)
  }

  /** The i-th update backs the rule set up for good, and no later one gives another history. */
  predicate IsBackedUpAt(s: Store, updates: seq<UpdateRequest>, saving: Saving, kind: Kind, rules: Rules, i: nat)
    requires i < |updates|
  {
    && BacksUp(updates[i], kind, saving) && LastOf(s, updates[..i], kind) == [rules]
    && forall j :: i < j < |updates| ==> !Replaces(updates[j])
  }

  predicate IsBackedUp(s: Store, updates: seq<UpdateRequest>, saving: Saving, kind: Kind, rules: Rules) {
    exists i :: 0 <= i < |updates| && IsBackedUpAt(s, updates, saving, kind, rules, i)
  }

  lemma BackedUpBefore(s: Store, updates: seq<UpdateRequest>, saving: Saving, kind: Kind, rules: Rules, i: nat)
    requires i < |updates| - 1
    ensures var last := |updates| - 1;
            IsBackedUpAt(s, updates, saving, kind, rules, i)
            <==> !Replaces(updates[last]) && IsBackedUpAt(s, updates[..last], saving, kind, rules, i)
  {
    hide BacksUp;
    hide LastOf;
    hide Replaces;
    var last := |updates| - 1;
    assert updates[..last][..i] == updates[..i];
  }

  lemma BackedUpLast(s: Store, updates: seq<UpdateRequest>, saving: Saving, kind: Kind, rules: Rules)
    requires updates != []
    ensures var last := |updates| - 1;
            IsBackedUpAt(s, updates, saving, kind, rules, last)
            <==> BacksUp(updates[last], kind, saving) && LastOf(s, updates[..last], kind) == [rules]
  {}

  lemma IsBackedUpStep(s: Store, updates: seq<UpdateRequest>, saving: Saving, kind: Kind, rules: Rules)
    requires updates != []
    ensures var last := |updates| - 1;
            IsBackedUp(s, updates, saving, kind, rules)
            <==> || (!Replaces(updates[last]) && IsBackedUp(s, updates[..last], saving, kind, rules))
                 || (BacksUp(updates[last], kind, saving) && LastOf(s, updates[..last], kind) == [rules])
  {
    hide IsBackedUpAt;
    hide BacksUp;
    hide LastOf;
    hide Replaces;
    var last := |updates| - 1;
    forall i | 0 <= i < last
      ensures IsBackedUpAt(s, updates, saving, kind, rules, i)
              <==> !Replaces(updates[last]) && IsBackedUpAt(s, updates[..last], saving, kind, rules, i)
    {
      BackedUpBefore(s, updates, saving, kind, rules, i);
    }
    BackedUpLast(s, updates, saving, kind, rules);
  }

  lemma HistoryAfter(s: Store, u: UpdateRequest, saving: Saving, kind: Kind, rules: Rules)
    ensures Version(kind, rules) in Updated(s, u, saving).history
            <==> if Replaces(u) then Version(kind, rules) in u.history.value
                 else Version(kind, rules) in s.history || (BacksUp(u, kind, saving) && Stored(s, kind) == [rules])
  {}

  lemma {:induction false} HistoryExactly(
    s: Store, updates: seq<UpdateRequest>, saving: Saving, kind: Kind, rules: Rules)
    ensures Version(kind, rules) in UpdatedAll(s, updates, saving).history
            <==> Version(kind, rules) in GivenHistory(s, updates) || IsBackedUp(s, updates, saving, kind, rules)
  {
    hide Updated;
    hide LastOf;
    hide IsBackedUpAt;
    if updates == [] {
    } else {
      var last := |updates| - 1;
      HistoryExactly(s, updates[..last], saving, kind, rules);
      IsBackedUpStep(s, updates, saving, kind, rules);
      StoredIsLast(s, updates[..last], saving, kind);
      HistoryAfter(UpdatedAll(s, updates[..last], saving), updates[last], saving, kind, rules);
    }
  }

  /** What any run keeps, whichever way saving works, wherever updates fail, and with updates of the
      category among them: a rule set is known afterwards if and only if it is the last one stored,
      or in the history given last, or was backed up for good since. */
  lemma KnownExactly(s: Store, updates: seq<UpdateRequest>, saving: Saving, kind: Kind, rules: Rules)
    ensures IsKnown(UpdatedAll(s, updates, saving), kind, rules)
            <==> || LastOf(s, updates, kind) == [rules]
                 || Version(kind, rules) in GivenHistory(s, updates)
                 || IsBackedUp(s, updates, saving, kind, rules)
  {
    hide IsBackedUp;
    hide LastOf;
    hide GivenHistory;
    HistoryExactly(s, updates, saving, kind, rules);
    StoredIsLast(s, updates, saving, kind);
  }

  /** Two complete updates of a new category whose saving writes the metadata back: the first rule
      set is gone. */
  lemma FirstRulesAreLost(kind: Kind, first: Rules, second: Rules)
    requires first != second
    ensures var updates := [RuleUpdate(kind, first, true, 6), RuleUpdate(kind, second, true, 6)];
            && UpdatedAll(Store(map[], []), updates, WholeRow) == Store(map[kind := second], [])
            && !IsKnown(UpdatedAll(Store(map[], []), updates, WholeRow), kind, first)
  {
    var one, two := RuleUpdate(kind, first, true, 6), RuleUpdate(kind, second, true, 6);
    var updates := [one, two];
    assert updates[..1] == [one] && [one][..0] == [];
    assert UpdatedAll(Store(map[], []), [one], WholeRow) == Store(map[kind := first], []);
  }

  /** So it is, either way of saving, when an update of the category gives the second rule set. */
  lemma RulesAreOverwritten(kind: Kind, first: Rules, second: Rules, saving: Saving)
    requires first != second
    ensures var updates := [RuleUpdate(kind, first, true, 6), CategoryUpdate(map[kind := Some(second)], None)];
            !IsKnown(UpdatedAll(Store(map[], []), updates, saving), kind, first)
  {
    var one, two := RuleUpdate(kind, first, true, 6), CategoryUpdate(map[kind := Some(second)], None);
    var updates := [one, two];
    assert updates[..1] == [one] && [one][..0] == [];
    assert UpdatedAll(Store(map[], []), [one], saving) == Updated(Store(map[], []), one, saving);
    assert Updated(Store(map[], []), one, saving).rules == map[kind := first];
    assert Updated(Store(map[], []), one, saving).history == [];
  }

  // ----- the history when saving writes the loaded metadata back

  lemma {:induction false} HistoryStays(s: Store, updates: seq<UpdateRequest>)
    requires NoFailures(updates)
    ensures UpdatedAll(s, updates, WholeRow).history == s.history
  {
    if updates == [] {
    } else {
      HistoryStays(s, updates[..|updates| - 1]);
      assert updates[|updates| - 1].steps >= 6;
    }
  }

  lemma {:induction false} LastIsAccepted(s: Store, updates: seq<UpdateRequest>, kind: Kind)
    requires OnlyRuleUpdates(updates)
    ensures var accepted := AcceptedOf(updates, kind);
            LastOf(s, updates, kind) == if accepted == [] then Stored(s, kind) else [accepted[|accepted| - 1]]
  {
    hide Stored;
    hide IsAccepted;
    if updates == [] {
    } else {
      var before := updates[..|updates| - 1];
      LastIsAccepted(s, before, kind);
      assert updates[|updates| - 1].RuleUpdate?;
      assert AcceptedOf(before, kind) + [] == AcceptedOf(before, kind);
    }
  }

  /** Without failures the history stays as it was, so it holds the replaced rule sets exactly when
      none was replaced: at most one is stored at first or accepted in the run. */
  lemma {:induction false} WholeRowHistoryExactly(s: Store, updates: seq<UpdateRequest>, kind: Kind)
    requires NoFailures(updates)
    ensures var after := UpdatedAll(s, updates, WholeRow);
            && after.history == s.history
            && (HistoryOf(after.history, kind) + Stored(after, kind)
                == HistoryOf(s.history, kind) + Stored(s, kind) + AcceptedOf(updates, kind)
                <==> |Stored(s, kind)| + |AcceptedOf(updates, kind)| <= 1)
  {
    hide HistoryOf;
    hide AcceptedOf;
    hide LastOf;
    HistoryStays(s, updates);
    StoredIsLast(s, updates, WholeRow, kind);
    LastIsAccepted(s, updates, kind);
    var history, stored, accepted := HistoryOf(s.history, kind), Stored(s, kind), AcceptedOf(updates, kind);
    assert |history + LastOf(s, updates, kind)| == |history| + |LastOf(s, updates, kind)|;
    assert |history + stored + accepted| == |history| + |stored| + |accepted|;
    if |stored| + |accepted| <= 1 {
      assert LastOf(s, updates, kind) == stored + accepted;
      assert history + (stored + accepted) == history + stored + accepted;
    }
  }
}
