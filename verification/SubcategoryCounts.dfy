/** The category screen's local lists: categories carry a count of their subcategories, which
    every action on subcategories keeps up to date by hand. */
module SubcategoryCounts {
  import opened Selections
  import opened Wrappers

  datatype Category = Category(id: string, name: string, subcategoriesCount: int)

  datatype Subcategory = Subcategory(id: string, name: string, categoryId: string)

  datatype Lists = Lists(
    categories: seq<Category>, subcategories: seq<Subcategory>, totalCategories: int, totalSubcategories: int)

  /** An action whose request the server has answered; new and updated entries are its answers. */
  datatype Action =
    | CreateCategory(created: Category)
    | UpdateCategory(updated: Category)
    | DeleteCategory(id: string)
    | CreateSubcategory(categoryId: string, newSub: Subcategory)
    | UpdateSubcategory(updatedSub: Subcategory)
    | DeleteSubcategory(id: string)

  function Max(a: int, b: int): int { if a < b then b else a }

  // ----- list operations

  function MapCategories(cs: seq<Category>, id: string, change: Category -> Category): (r: seq<Category>)
    ensures |r| == |cs|
    ensures forall i :: 0 <= i < |cs| ==> r[i] == if cs[i].id == id then change(cs[i]) else cs[i]
  {
    if cs == [] then [] else [if cs[0].id == id then change(cs[0]) else cs[0]] + MapCategories(cs[1..], id, change)
  }

  function WithoutCategory(cs: seq<Category>, id: string): seq<Category> {
    if cs == [] then [] else (if cs[0].id == id then [] else [cs[0]]) + WithoutCategory(cs[1..], id)
  }

  function WithoutSubcategory(subs: seq<Subcategory>, id: string): seq<Subcategory> {
    if subs == [] then [] else (if subs[0].id == id then [] else [subs[0]]) + WithoutSubcategory(subs[1..], id)
  }

  function ReplaceSubcategory(subs: seq<Subcategory>, updated: Subcategory): seq<Subcategory> {
    if subs == [] then []
    else [if subs[0].id == updated.id then updated else subs[0]] + ReplaceSubcategory(subs[1..], updated)
  }

  /** The first subcategory with the id. */
  function Find(subs: seq<Subcategory>, id: string): Option<Subcategory> {
    if subs == [] then None else if subs[0].id == id then Some(subs[0]) else Find(subs[1..], id)
  }

  // ----- actions

  function CountUp(c: Category): Category { c.(subcategoriesCount := c.subcategoriesCount + 1) }

  function CountDown(c: Category): Category { c.(subcategoriesCount := Max(0, c.subcategoriesCount - 1)) }

  function Act(s: Lists, a: Action): Lists {
    match a
    case CreateCategory(created) =>
      s.(categories := [created] + s.categories, totalCategories := s.totalCategories + 1)
    case UpdateCategory(updated) =>
      s.(categories := MapCategories(s.categories, updated.id, (c: Category) => updated))
    case DeleteCategory(id) =>
      s.(categories := WithoutCategory(s.categories, id), totalCategories := s.totalCategories - 1)
    case CreateSubcategory(categoryId, newSub) =>
      Lists(MapCategories(s.categories, categoryId, CountUp), [newSub] + s.subcategories,
            s.totalCategories, s.totalSubcategories + 1)
    case UpdateSubcategory(updatedSub) =>
      s.(subcategories := ReplaceSubcategory(s.subcategories, updatedSub))
    case DeleteSubcategory(id) =>
      var toDelete := Find(s.subcategories, id);
      var counted :=
        if toDelete.Some? then MapCategories(s.categories, toDelete.value.categoryId, CountDown) else s.categories;
      Lists(counted, WithoutSubcategory(s.subcategories, id), s.totalCategories, s.totalSubcategories - 1)
  }

  // ----- the counts

  function Listed(subs: seq<Subcategory>, categoryId: string): nat {
    if subs == [] then 0 else (if subs[0].categoryId == categoryId then 1 else 0) + Listed(subs[1..], categoryId)
  }

  function PointsAt(categoryId: string): Subcategory -> bool { (sub: Subcategory) => sub.categoryId == categoryId }

  lemma {:induction false} ListedExactly(subs: seq<Subcategory>, categoryId: string)
    ensures Listed(subs, categoryId) == |Select(subs, PointsAt(categoryId))|
  {
    if subs == [] {
    } else {
      ListedExactly(subs[1..], categoryId);
      SelectFromFront(subs[0], subs[1..], PointsAt(categoryId));
      assert subs == [subs[0]] + subs[1..];
    }
  }

  /** Every category's count is the number of listed subcategories that point at it. */
  predicate CountsAgree(s: Lists) {
    forall i :: 0 <= i < |s.categories| ==>
      s.categories[i].subcategoriesCount == Listed(s.subcategories, s.categories[i].id)
  }

  predicate UniqueSubcategories(subs: seq<Subcategory>) {
    forall i, j :: 0 <= i < j < |subs| ==> subs[i].id != subs[j].id
  }

  lemma {:induction false} AbsentStays(subs: seq<Subcategory>, id: string)
    requires Find(subs, id).None?
    ensures WithoutSubcategory(subs, id) == subs
    ensures forall i :: 0 <= i < |subs| ==> subs[i].id != id
  {
    if subs == [] {
    } else {
      AbsentStays(subs[1..], id);
    }
  }

  lemma {:induction false} NotFound(subs: seq<Subcategory>, id: string)
    requires forall i :: 0 <= i < |subs| ==> subs[i].id != id
    ensures Find(subs, id).None?
  {
    if subs == [] {
    } else {
      NotFound(subs[1..], id);
    }
  }

  lemma NotListedAgain(subs: seq<Subcategory>, id: string)
    requires subs != [] && subs[0].id == id && UniqueSubcategories(subs)
    ensures WithoutSubcategory(subs, id) == subs[1..]
  {
    NotFound(subs[1..], id);
    AbsentStays(subs[1..], id);
  }

  /** With unique ids, deleting a subcategory takes exactly one off the number of its category. */
  lemma {:induction false} DeletionCounts(subs: seq<Subcategory>, id: string, categoryId: string)
    requires UniqueSubcategories(subs)
    ensures var found := Find(subs, id);
            Listed(WithoutSubcategory(subs, id), categoryId)
            == Listed(subs, categoryId) - if found.Some? && found.value.categoryId == categoryId then 1 else 0
  {
    if subs == [] {
    } else {
      if subs[0].id == id {
        NotListedAgain(subs, id);
      } else {
        DeletionCounts(subs[1..], id, categoryId);
        var rest := WithoutSubcategory(subs[1..], id);
        assert ([subs[0]] + rest)[1..] == rest;
      }
    }
  }

  lemma {:induction false} WithoutIsSubsequence(subs: seq<Subcategory>, id: string)
    ensures forall sub :: sub in WithoutSubcategory(subs, id) ==> sub in subs && sub.id != id
    ensures UniqueSubcategories(subs) ==> UniqueSubcategories(WithoutSubcategory(subs, id))
  {
    if subs == [] {
    } else {
      WithoutIsSubsequence(subs[1..], id);
      var rest := WithoutSubcategory(subs[1..], id);
      if UniqueSubcategories(subs) {
        forall i | 0 <= i < |rest|
          ensures rest[i].id != subs[0].id
        {
          assert rest[i] in subs[1..];
        }
      }
    }
  }

  lemma {:induction false} WithoutCategoryIsSubset(cs: seq<Category>, id: string)
    ensures forall c :: c in WithoutCategory(cs, id) ==> c in cs
  {
    if cs == [] {
    } else {
      WithoutCategoryIsSubset(cs[1..], id);
    }
  }

  lemma {:induction false} ReplacementCounts(subs: seq<Subcategory>, updated: Subcategory, categoryId: string)
    requires forall i :: 0 <= i < |subs| && subs[i].id == updated.id ==> subs[i].categoryId == updated.categoryId
    ensures Listed(ReplaceSubcategory(subs, updated), categoryId) == Listed(subs, categoryId)
    ensures |ReplaceSubcategory(subs, updated)| == |subs|
    ensures forall i :: 0 <= i < |subs| ==> ReplaceSubcategory(subs, updated)[i].id == subs[i].id
  {
    if subs == [] {
    } else {
      ReplacementCounts(subs[1..], updated, categoryId);
    }
  }

  /** What the server's answers guarantee: new ids are new, a new category has no subcategories and
      none was listed for it, the created subcategory is in the category it was created for, and
      updates change neither the count of a category nor the category of a subcategory. */
  predicate IsAnswer(s: Lists, a: Action) {
    match a
    case CreateCategory(created) => created.subcategoriesCount == 0 && Listed(s.subcategories, created.id) == 0
    case UpdateCategory(updated) =>
      forall i :: 0 <= i < |s.categories| && s.categories[i].id == updated.id
        ==> s.categories[i].subcategoriesCount == updated.subcategoriesCount
    case CreateSubcategory(categoryId, newSub) =>
      newSub.categoryId == categoryId && forall i :: 0 <= i < |s.subcategories| ==> s.subcategories[i].id != newSub.id
    case UpdateSubcategory(updatedSub) =>
      forall i :: 0 <= i < |s.subcategories| && s.subcategories[i].id == updatedSub.id
        ==> s.subcategories[i].categoryId == updatedSub.categoryId
    case _ => true
  }

  predicate Inv(s: Lists) { CountsAgree(s) && UniqueSubcategories(s.subcategories) }

  /** No category whose count goes down has a count of zero: the clamp changes nothing. */
  predicate ClampIdle(s: Lists, a: Action) {
    a.DeleteSubcategory? && Find(s.subcategories, a.id).Some? ==>
      forall i :: 0 <= i < |s.categories| && s.categories[i].id == Find(s.subcategories, a.id).value.categoryId
        ==> s.categories[i].subcategoriesCount >= 1
  }

  lemma {:induction false} FoundIsListed(subs: seq<Subcategory>, id: string)
    requires Find(subs, id).Some?
    ensures Listed(subs, Find(subs, id).value.categoryId) >= 1
  {
    if subs[0].id != id {
      FoundIsListed(subs[1..], id);
    }
  }

  lemma CategoryActionKeepsCounts(s: Lists, a: Action)
    requires Inv(s) && IsAnswer(s, a) && (a.CreateCategory? || a.UpdateCategory? || a.DeleteCategory?)
    ensures Inv(Act(s, a))
  {
    hide Listed;
    hide UniqueSubcategories;
    var after := Act(s, a);
    if a.CreateCategory? {
      assert forall i :: 0 < i < |after.categories| ==> after.categories[i] == s.categories[i - 1];
    } else if a.DeleteCategory? {
      WithoutCategoryIsSubset(s.categories, a.id);
      forall i | 0 <= i < |after.categories|
        ensures after.categories[i].subcategoriesCount == Listed(s.subcategories, after.categories[i].id)
      {
        assert after.categories[i] in s.categories;
      }
    }
  }

  lemma CreatingKeepsCounts(s: Lists, categoryId: string, newSub: Subcategory)
    requires Inv(s) && IsAnswer(s, CreateSubcategory(categoryId, newSub))
    ensures Inv(Act(s, CreateSubcategory(categoryId, newSub)))
  {
    assert ([newSub] + s.subcategories)[1..] == s.subcategories;
  }

  lemma UpdatingKeepsCounts(s: Lists, updatedSub: Subcategory)
    requires Inv(s) && IsAnswer(s, UpdateSubcategory(updatedSub))
    ensures Inv(Act(s, UpdateSubcategory(updatedSub)))
  {
    hide Listed;
    hide ReplaceSubcategory;
    ReplacementCounts(s.subcategories, updatedSub, "");
    forall i | 0 <= i < |s.categories|
      ensures Listed(ReplaceSubcategory(s.subcategories, updatedSub), s.categories[i].id)
              == Listed(s.subcategories, s.categories[i].id)
    {
      ReplacementCounts(s.subcategories, updatedSub, s.categories[i].id);
    }
  }

  lemma DeletingKeepsCounts(s: Lists, id: string)
    requires Inv(s)
    ensures Inv(Act(s, DeleteSubcategory(id))) && ClampIdle(s, DeleteSubcategory(id))
  {
    hide Listed;
    hide Find;
    hide WithoutSubcategory;
    hide UniqueSubcategories;
    var found := Find(s.subcategories, id);
    WithoutIsSubsequence(s.subcategories, id);
    if found.Some? {
      FoundIsListed(s.subcategories, id);
    }
    forall i | 0 <= i < |s.categories|
      ensures Listed(WithoutSubcategory(s.subcategories, id), s.categories[i].id)
              == s.categories[i].subcategoriesCount
                 - if found.Some? && found.value.categoryId == s.categories[i].id then 1 else 0
    {
      DeletionCounts(s.subcategories, id, s.categories[i].id);
    }
  }

  lemma ActionKeepsCounts(s: Lists, a: Action)
    requires Inv(s) && IsAnswer(s, a)
    ensures Inv(Act(s, a)) && ClampIdle(s, a)
  {
    hide Inv;
    hide IsAnswer;
    hide Act;
    match a
    case CreateSubcategory(categoryId, newSub) => CreatingKeepsCounts(s, categoryId, newSub);
    case UpdateSubcategory(updatedSub) => UpdatingKeepsCounts(s, updatedSub);
    case DeleteSubcategory(id) => DeletingKeepsCounts(s, id);
    case _ => CategoryActionKeepsCounts(s, a);
  }

  lemma {:induction false} ReplaceAbsent(subs: seq<Subcategory>, moved: Subcategory)
    requires forall i :: 0 <= i < |subs| ==> subs[i].id != moved.id
    ensures ReplaceSubcategory(subs, moved) == subs
  {
    if subs == [] {
    } else {
      ReplaceAbsent(subs[1..], moved);
    }
  }

  lemma {:induction false} MoveCounts(subs: seq<Subcategory>, moved: Subcategory, categoryId: string)
    requires UniqueSubcategories(subs) && Find(subs, moved.id).Some?
    ensures Listed(ReplaceSubcategory(subs, moved), categoryId)
            == Listed(subs, categoryId) + (if categoryId == moved.categoryId then 1 else 0)
               - (if categoryId == Find(subs, moved.id).value.categoryId then 1 else 0)
  {
    if subs[0].id == moved.id {
      ReplaceAbsent(subs[1..], moved);
    } else {
      MoveCounts(subs[1..], moved, categoryId);
    }
  }

  /** An update that moves a subcategory to another category leaves the counts right only if
      neither of the two categories is listed. */
  lemma MovingBreaksCounts(s: Lists, moved: Subcategory)
    requires Inv(s) && Find(s.subcategories, moved.id).Some?
    requires Find(s.subcategories, moved.id).value.categoryId != moved.categoryId
    ensures CountsAgree(Act(s, UpdateSubcategory(moved)))
            <==> forall i :: 0 <= i < |s.categories| ==>
                   s.categories[i].id != moved.categoryId
                   && s.categories[i].id != Find(s.subcategories, moved.id).value.categoryId
  {
    hide Listed;
    hide Find;
    hide ReplaceSubcategory;
    hide UniqueSubcategories;
    var from := Find(s.subcategories, moved.id).value.categoryId;
    forall i | 0 <= i < |s.categories|
      ensures Listed(ReplaceSubcategory(s.subcategories, moved), s.categories[i].id)
              == s.categories[i].subcategoriesCount + (if s.categories[i].id == moved.categoryId then 1 else 0)
                 - (if s.categories[i].id == from then 1 else 0)
    {
      MoveCounts(s.subcategories, moved, s.categories[i].id);
    }
  }

  function ActAll(s: Lists, actions: seq<Action>): Lists
    decreases |actions|
  {
    if actions == [] then s else ActAll(Act(s, actions[0]), actions[1..])
  }

  predicate AllAnswers(s: Lists, actions: seq<Action>)
    decreases |actions|
  {
    actions == [] || (IsAnswer(s, actions[0]) && AllAnswers(Act(s, actions[0]), actions[1..]))
  }

  predicate ClampsIdle(s: Lists, actions: seq<Action>)
    decreases |actions|
  {
    actions == [] || (ClampIdle(s, actions[0]) && ClampsIdle(Act(s, actions[0]), actions[1..]))
  }

  /** From a load in which the counts are right, every sequential run of actions keeps them right,
      and the clamp at zero never does anything. */
  lemma {:induction false} RunKeepsCounts(s: Lists, actions: seq<Action>)
    requires Inv(s) && AllAnswers(s, actions)
    ensures Inv(ActAll(s, actions)) && ClampsIdle(s, actions)
    decreases |actions|
  {
    if actions == [] {
    } else {
      ActionKeepsCounts(s, actions[0]);
      RunKeepsCounts(Act(s, actions[0]), actions[1..]);
    }
  }

  /** Creating a subcategory and deleting it again leaves the screen as it was. */
  lemma CreateThenDelete(s: Lists, categoryId: string, newSub: Subcategory)
    requires Inv(s) && IsAnswer(s, CreateSubcategory(categoryId, newSub))
    ensures Act(Act(s, CreateSubcategory(categoryId, newSub)), DeleteSubcategory(newSub.id)) == s
  {
    var created := Act(s, CreateSubcategory(categoryId, newSub));
    assert created.subcategories[1..] == s.subcategories;
    ActionKeepsCounts(s, CreateSubcategory(categoryId, newSub));
    NotListedAgain(created.subcategories, newSub.id);
    var deleted := Act(created, DeleteSubcategory(newSub.id));
    forall i | 0 <= i < |s.categories|
      ensures deleted.categories[i] == s.categories[i]
    {}
    assert deleted.categories == s.categories;
  }

  // ----- what each action does

  function OtherCategory(id: string): Category -> bool { (c: Category) => c.id != id }

  function OtherSubcategory(id: string): Subcategory -> bool { (sub: Subcategory) => sub.id != id }

  lemma {:induction false} WithoutCategoryIsSelect(cs: seq<Category>, id: string)
    ensures WithoutCategory(cs, id) == Select(cs, OtherCategory(id))
  {
    if cs == [] {
    } else {
      WithoutCategoryIsSelect(cs[1..], id);
      SelectFromFront(cs[0], cs[1..], OtherCategory(id));
      assert [cs[0]] + cs[1..] == cs;
      hide Select;
    }
  }

  lemma {:induction false} WithoutSubcategoryIsSelect(subs: seq<Subcategory>, id: string)
    ensures WithoutSubcategory(subs, id) == Select(subs, OtherSubcategory(id))
  {
    if subs == [] {
    } else {
      WithoutSubcategoryIsSelect(subs[1..], id);
      SelectFromFront(subs[0], subs[1..], OtherSubcategory(id));
      assert [subs[0]] + subs[1..] == subs;
      hide Select;
    }
  }

  lemma {:induction false} Replaced(subs: seq<Subcategory>, updated: Subcategory)
    ensures var r := ReplaceSubcategory(subs, updated);
            && |r| == |subs|
            && forall i :: 0 <= i < |subs| ==> r[i] == if subs[i].id == updated.id then updated else subs[i]
  {
    if subs == [] {
    } else {
      Replaced(subs[1..], updated);
    }
  }

  lemma {:induction false} FoundExactly(subs: seq<Subcategory>, id: string)
    ensures match Find(subs, id)
            case None => forall i :: 0 <= i < |subs| ==> subs[i].id != id
            case Some(sub) => exists i :: 0 <= i < |subs| && subs[i] == sub && sub.id == id
                                          && forall j :: 0 <= j < i ==> subs[j].id != id
  {
    if subs == [] {
    } else if subs[0].id == id {
      assert subs[0] == Find(subs, id).value;
    } else {
      FoundExactly(subs[1..], id);
      if Find(subs, id).Some? {
        var i :| 0 <= i < |subs[1..]| && subs[1..][i] == Find(subs, id).value && subs[1..][i].id == id
                 && forall j :: 0 <= j < i ==> subs[1..][j].id != id;
        forall j | 0 <= j < i + 1
          ensures subs[j].id != id
        {
          assert j > 0 ==> subs[j] == subs[1..][j - 1];
        }
        assert subs[i + 1] == subs[1..][i];
      }
    }
  }

  /** The counts of the categories with the id go up or down by so many; everything else about all
      categories stays. */
  predicate CountsChange(before: seq<Category>, after: seq<Category>, id: string, change: int) {
    && |after| == |before|
    && forall i :: 0 <= i < |before| ==>
         && after[i].id == before[i].id && after[i].name == before[i].name
         && after[i].subcategoriesCount
            == if before[i].id != id then before[i].subcategoriesCount
               else if before[i].subcategoriesCount + change < 0 then 0
               else before[i].subcategoriesCount + change
  }

  /** What each action leaves on the screen, entry by entry. */
  lemma ActDoes(s: Lists, a: Action)
    requires forall i :: 0 <= i < |s.categories| ==> s.categories[i].subcategoriesCount >= 0
    ensures var t := Act(s, a);
            match a
            case CreateCategory(created) =>
              && t.categories == [created] + s.categories && t.subcategories == s.subcategories
              && t.totalCategories == s.totalCategories + 1 && t.totalSubcategories == s.totalSubcategories
            case UpdateCategory(updated) =>
              && |t.categories| == |s.categories|
              && (forall i :: 0 <= i < |s.categories| ==>
                    t.categories[i] == if s.categories[i].id == updated.id then updated else s.categories[i])
              && t == s.(categories := t.categories)
            case DeleteCategory(id) =>
              && IsSelection(t.categories, s.categories, OtherCategory(id)) && t.subcategories == s.subcategories
              && t.totalCategories == s.totalCategories - 1 && t.totalSubcategories == s.totalSubcategories
            case CreateSubcategory(categoryId, newSub) =>
              && t.subcategories == [newSub] + s.subcategories
              && CountsChange(s.categories, t.categories, categoryId, 1)
              && t.totalCategories == s.totalCategories && t.totalSubcategories == s.totalSubcategories + 1
            case UpdateSubcategory(updated) =>
              && |t.subcategories| == |s.subcategories|
              && (forall i :: 0 <= i < |s.subcategories| ==>
                    t.subcategories[i] == if s.subcategories[i].id == updated.id then updated else s.subcategories[i])
              && t == s.(subcategories := t.subcategories)
            case DeleteSubcategory(id) =>
              && IsSelection(t.subcategories, s.subcategories, OtherSubcategory(id))
              && ((forall i :: 0 <= i < |s.subcategories| ==> s.subcategories[i].id != id) ==>
                    t.categories == s.categories)
              && (UniqueSubcategories(s.subcategories) ==>
                    forall i :: 0 <= i < |s.subcategories| && s.subcategories[i].id == id ==>
                      CountsChange(s.categories, t.categories, s.subcategories[i].categoryId, -1))
              && t.totalCategories == s.totalCategories && t.totalSubcategories == s.totalSubcategories - 1
  {
    hide IsSelection;
    hide Select;
    hide Find;
    hide WithoutCategory;
    hide WithoutSubcategory;
    hide ReplaceSubcategory;
    match a
    case DeleteCategory(id) =>
      WithoutCategoryIsSelect(s.categories, id);
      SelectIsSelection(s.categories, OtherCategory(id));
    case UpdateSubcategory(updated) => Replaced(s.subcategories, updated);
    case DeleteSubcategory(id) =>
      WithoutSubcategoryIsSelect(s.subcategories, id);
      SelectIsSelection(s.subcategories, OtherSubcategory(id));
      FoundExactly(s.subcategories, id);
    case _ =>
  }

  // ----- the screen

  lemma KeepsInv(s: Lists, a: Action)
    ensures Inv(s) && IsAnswer(s, a) ==> Inv(Act(s, a))
  {
    if Inv(s) && IsAnswer(s, a) {
      ActionKeepsCounts(s, a);
    }
  }

  /** The hook's state; each action sets the fields it concerns. */
  class CategoryScreen {
    var categories: seq<Category>
    var subcategories: seq<Subcategory>
    var totalCategories: int
    var totalSubcategories: int

    constructor (categories: seq<Category>, subcategories: seq<Subcategory>)
      ensures this.categories == categories && this.subcategories == subcategories
      ensures totalCategories == 0 && totalSubcategories == 0
    {
      this.categories, this.subcategories := categories, subcategories;
      totalCategories, totalSubcategories := 0, 0;
    }

    function State(): Lists
      reads this
    {
      Lists(categories, subcategories, totalCategories, totalSubcategories)
    }

    method CreateNewCategory(created: Category)
      modifies this
      ensures State() == Act(old(State()), CreateCategory(created))
      ensures old(Inv(State()) && IsAnswer(State(), CreateCategory(created))) ==> Inv(State())
    {
      KeepsInv(State(), CreateCategory(created));
      categories := [created] + categories;
      totalCategories := totalCategories + 1;
    }

    method ReplaceCategory(updated: Category)
      modifies this
      ensures State() == Act(old(State()), UpdateCategory(updated))
      ensures old(Inv(State()) && IsAnswer(State(), UpdateCategory(updated))) ==> Inv(State())
    {
      KeepsInv(State(), UpdateCategory(updated));
      categories := MapCategories(categories, updated.id, (c: Category) => updated);
    }

    method ReplaceListedSubcategory(updatedSub: Subcategory)
      modifies this
      ensures State() == Act(old(State()), UpdateSubcategory(updatedSub))
      ensures old(Inv(State()) && IsAnswer(State(), UpdateSubcategory(updatedSub))) ==> Inv(State())
    {
      KeepsInv(State(), UpdateSubcategory(updatedSub));
      subcategories := ReplaceSubcategory(subcategories, updatedSub);
    }

    method DeleteCategoryById(id: string)
      modifies this
      ensures State() == Act(old(State()), DeleteCategory(id))
      ensures old(Inv(State()) && IsAnswer(State(), DeleteCategory(id))) ==> Inv(State())
    {
      KeepsInv(State(), DeleteCategory(id));
      categories := WithoutCategory(categories, id);
      totalCategories := totalCategories - 1;
    }

    method CreateNewSubcategory(categoryId: string, newSub: Subcategory)
      modifies this
      ensures State() == Act(old(State()), CreateSubcategory(categoryId, newSub))
      ensures old(Inv(State()) && IsAnswer(State(), CreateSubcategory(categoryId, newSub))) ==> Inv(State())
    {
      KeepsInv(State(), CreateSubcategory(categoryId, newSub));
      subcategories := [newSub] + subcategories;
      totalSubcategories := totalSubcategories + 1;
      categories := MapCategories(categories, categoryId, CountUp);
    }

    method DeleteSubcategoryById(id: string)
      modifies this
      ensures State() == Act(old(State()), DeleteSubcategory(id))
      ensures old(Inv(State()) && IsAnswer(State(), DeleteSubcategory(id))) ==> Inv(State())
    {
      KeepsInv(State(), DeleteSubcategory(id));
      var subcategoryToDelete := Find(subcategories, id);
      subcategories := WithoutSubcategory(subcategories, id);
      totalSubcategories := totalSubcategories - 1;
      if subcategoryToDelete.Some? {
        categories := MapCategories(categories, subcategoryToDelete.value.categoryId, CountDown);
      }
    }
  }
}
