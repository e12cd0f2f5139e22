/** Partner categories together with their subcategories, which are rows of the same shape (the
    parent of a subcategory is its category), and the offerings placed in both. */
module CategoryTree {
  import opened Wrappers
  import opened CategoryRegistry

  /** Where an offering is placed. */
  datatype Offering = Offering(categoryId: string, subcategoryId: Option<string>)

  datatype Tree = Tree(categories: Rows, subcategories: Rows, offerings: map<string, Offering>)

  /** A request to one of the three services; a subcategory's missing slug is empty. A removal finds
      the numbers of subcategories and offerings in the tree. An offering comes with the error that
      the checks on its other data end in, if any; an update of it gives no subcategory, none, or a
      new one. */
  datatype TreeRequest =
    | OnCategory(request: Request)
    | OnSubcategory(request: Request)
    | CreateOffering(offeringId: string, offering: Offering, other: Option<Error>)
    | UpdateOffering(offeringId: string, given: Option<Option<string>>, other: Option<Error>)
    | RemoveOffering(offeringId: string)

  datatype TreeOutcome = TreeOutcome(tree: Tree, error: Option<Error>)

  // ----- what each request does

  function LiveIds(rows: Rows): set<string> {
    set id | id in rows && !rows[id].deleted
  }

  /** The live subcategories of a category. */
  function LiveUnder(subcategories: Rows, categoryId: string): set<string> {
    set id | id in subcategories && !subcategories[id].deleted && subcategories[id].parentId == categoryId
  }

  function OfferingsIn(offerings: map<string, Offering>, categoryId: string): set<string> {
    set id | id in offerings && offerings[id].categoryId == categoryId
  }

  /** A missing slug is made from the name. */
  function WithNewSlug(data: CreateDto, generateSlug: string -> string): CreateDto {
    if data.slug == "" then data.(slug := generateSlug(data.name)) else data
  }

  /** A new name without a slug gives a new slug, unless that is empty. */
  function WithSlug(changes: UpdateDto, generateSlug: string -> string): UpdateDto {
    if changes.name.GetOr("") != "" && changes.slug.GetOr("") == "" && generateSlug(changes.name.value) != ""
    then changes.(slug := Some(generateSlug(changes.name.value)))
    else changes
  }

  /** The request as its service carries it out. Subcategories have nothing attached to them. */
  function Prepared(t: Tree, generateSlug: string -> string, r: TreeRequest): Request
    requires r.OnCategory? || r.OnSubcategory?
  {
    match r
    case OnCategory(Remove(id, _, _)) => Remove(id, |LiveUnder(t.subcategories, id)|, |OfferingsIn(t.offerings, id)|)
    case OnSubcategory(Create(newId, data)) => Create(newId, WithNewSlug(data, generateSlug))
    case OnSubcategory(Update(id, changes)) => Update(id, WithSlug(changes, generateSlug))
    case OnSubcategory(Remove(id, _, _)) => Remove(id, 0, 0)
    case _ => r.request
  }

  /** The subcategory, if one is given, is a live one of the category. */
  predicate FitsInto(t: Tree, subcategoryId: Option<string>, categoryId: string) {
    subcategoryId.Some? ==>
      IsLive(t.subcategories, subcategoryId.value) && t.subcategories[subcategoryId.value].parentId == categoryId
  }

  function CreateOfferingOutcome(t: Tree, id: string, offering: Offering, other: Option<Error>): TreeOutcome {
    if !IsLive(t.categories, offering.categoryId) then TreeOutcome(t, Some(NotFound))
    else if !FitsInto(t, offering.subcategoryId, offering.categoryId) then TreeOutcome(t, Some(NotFound))
    else if other.Some? then TreeOutcome(t, other)
    else TreeOutcome(t.(offerings := t.offerings[id := offering]), None)
  }

  function UpdateOfferingOutcome(
    t: Tree, id: string, given: Option<Option<string>>, other: Option<Error>): TreeOutcome
  {
    if id !in t.offerings then TreeOutcome(t, Some(NotFound))
    else if given.Some? && !FitsInto(t, given.value, t.offerings[id].categoryId) then TreeOutcome(t, Some(NotFound))
    else if other.Some? then TreeOutcome(t, other)
    else
      var offering := t.offerings[id].(subcategoryId := given.GetOr(t.offerings[id].subcategoryId));
      TreeOutcome(t.(offerings := t.offerings[id := offering]), None)
  }

  function RemoveOfferingOutcome(t: Tree, id: string): TreeOutcome {
    if id !in t.offerings then TreeOutcome(t, Some(NotFound))
    else TreeOutcome(t.(offerings := t.offerings - {id}), None)
  }

  /** The parent of a new subcategory must be a live category. */
  function ServeTree(t: Tree, partnerTypes: set<string>, generateSlug: string -> string, r: TreeRequest): TreeOutcome {
    match r
    case OnCategory(_) =>
      var outcome := Serve(t.categories, partnerTypes, Prepared(t, generateSlug, r));
      TreeOutcome(t.(categories := outcome.rows), outcome.error)
    case OnSubcategory(_) =>
      var outcome := Serve(t.subcategories, LiveIds(t.categories), Prepared(t, generateSlug, r));
      TreeOutcome(t.(subcategories := outcome.rows), outcome.error)
    case CreateOffering(id, offering, other) => CreateOfferingOutcome(t, id, offering, other)
    case UpdateOffering(id, given, other) => UpdateOfferingOutcome(t, id, given, other)
    case RemoveOffering(id) => RemoveOfferingOutcome(t, id)
  }

  // ----- no orphans

  /** Every live subcategory and every offering belongs to a live category. */
  ghost predicate NoOrphans(t: Tree) {
    && (forall id :: IsLive(t.subcategories, id) ==> IsLive(t.categories, t.subcategories[id].parentId))
    && (forall id :: id in t.offerings ==> IsLive(t.categories, t.offerings[id].categoryId))
  }

  /** Nothing live is placed in the category. */
  predicate IsEmpty(t: Tree, categoryId: string) {
    LiveUnder(t.subcategories, categoryId) == {} && OfferingsIn(t.offerings, categoryId) == {}
  }

  lemma NothingPlaced(t: Tree, categoryId: string)
    ensures IsEmpty(t, categoryId)
            <==> && (forall id :: IsLive(t.subcategories, id) ==> t.subcategories[id].parentId != categoryId)
                 && (forall id :: id in t.offerings ==> t.offerings[id].categoryId != categoryId)
  {
    forall id | IsLive(t.subcategories, id) && t.subcategories[id].parentId == categoryId
      ensures id in LiveUnder(t.subcategories, categoryId)
    {}
    forall id | id in t.offerings && t.offerings[id].categoryId == categoryId
      ensures id in OfferingsIn(t.offerings, categoryId)
    {}
    if id :| id in LiveUnder(t.subcategories, categoryId) {
      assert IsLive(t.subcategories, id);
    }
    if id :| id in OfferingsIn(t.offerings, categoryId) {
      assert id in t.offerings;
    }
  }

  /** A removal is accepted exactly when the category is live and can go without leaving an orphan. */
  lemma RemovalAcceptedExactly(t: Tree, partnerTypes: set<string>, generateSlug: string -> string, request: Request)
    requires NoOrphans(t) && request.Remove?
    ensures var id := request.id;
            ServeTree(t, partnerTypes, generateSlug, OnCategory(request)).error.None?
            <==> IsLive(t.categories, id)
                 && NoOrphans(t.(categories := t.categories[id := t.categories[id].(deleted := true)]))
  {
    NothingPlaced(t, request.id);
    assert |LiveUnder(t.subcategories, request.id)| == 0 && |OfferingsIn(t.offerings, request.id)| == 0
           <==> IsEmpty(t, request.id);
    hide LiveUnder;
    hide OfferingsIn;
  }

  /** The request removes a category in which nothing live is placed. */
  predicate RemovesEmpty(t: Tree, r: TreeRequest, id: string) {
    r.OnCategory? && r.request.Remove? && r.request.id == id && IsEmpty(t, id)
  }

  /** A live category stays live under a request, unless it is removed with nothing placed in it. */
  lemma CategoryStays(t: Tree, partnerTypes: set<string>, generateSlug: string -> string, r: TreeRequest, id: string)
    requires IsLive(t.categories, id)
    ensures IsLive(ServeTree(t, partnerTypes, generateSlug, r).tree.categories, id) || RemovesEmpty(t, r, id)
  {
    if r.OnCategory? && r.request.Reorder? {
      ReorderKeepsIdentity(t.categories, r.request.rankings);
    }
  }

  /** A live subcategory after a request was one of the same category before, or is created under
      a live category. */
  lemma SubcategoryStays(t: Tree, partnerTypes: set<string>, generateSlug: string -> string, r: TreeRequest, id: string)
    requires IsLive(ServeTree(t, partnerTypes, generateSlug, r).tree.subcategories, id)
    ensures var parent := ServeTree(t, partnerTypes, generateSlug, r).tree.subcategories[id].parentId;
            || (IsLive(t.subcategories, id) && t.subcategories[id].parentId == parent)
            || (r.OnSubcategory? && IsLive(t.categories, parent))
  {
    if r.OnSubcategory? && r.request.Reorder? {
      ReorderKeepsIdentity(t.subcategories, r.request.rankings);
    }
  }

  /** An offering after a request was in the same category before, or is created in a live one. */
  lemma OfferingStays(t: Tree, partnerTypes: set<string>, generateSlug: string -> string, r: TreeRequest, id: string)
    requires id in ServeTree(t, partnerTypes, generateSlug, r).tree.offerings
    ensures var category := ServeTree(t, partnerTypes, generateSlug, r).tree.offerings[id].categoryId;
            || (id in t.offerings && t.offerings[id].categoryId == category)
            || (r.CreateOffering? && IsLive(t.categories, category))
  {
    hide Serve;
  }

  lemma RequestKeepsNoOrphans(t: Tree, partnerTypes: set<string>, generateSlug: string -> string, r: TreeRequest)
    requires NoOrphans(t)
    ensures NoOrphans(ServeTree(t, partnerTypes, generateSlug, r).tree)
  {
    hide ServeTree;
    hide IsEmpty;
    var after := ServeTree(t, partnerTypes, generateSlug, r).tree;
    forall id | IsLive(after.subcategories, id)
      ensures IsLive(after.categories, after.subcategories[id].parentId)
    {
      var parent := after.subcategories[id].parentId;
      SubcategoryStays(t, partnerTypes, generateSlug, r, id);
      CategoryStays(t, partnerTypes, generateSlug, r, parent);
      NothingPlaced(t, parent);
    }
    forall id | id in after.offerings
      ensures IsLive(after.categories, after.offerings[id].categoryId)
    {
      var category := after.offerings[id].categoryId;
      OfferingStays(t, partnerTypes, generateSlug, r, id);
      CategoryStays(t, partnerTypes, generateSlug, r, category);
      NothingPlaced(t, category);
    }
  }

  // ----- runs

  function ServeTreeAll(
    t: Tree, partnerTypes: set<string>, generateSlug: string -> string, rs: seq<TreeRequest>): Tree
  {
    if rs == [] then t
    else
      var last := |rs| - 1;
      ServeTree(ServeTreeAll(t, partnerTypes, generateSlug, rs[..last]), partnerTypes, generateSlug, rs[last]).tree
  }

  /** Over every sequential run of requests to the three services no live subcategory and no offering
      ever points at a deleted category. */
  lemma {:induction false} RunKeepsNoOrphans(
    t: Tree, partnerTypes: set<string>, generateSlug: string -> string, rs: seq<TreeRequest>)
    requires NoOrphans(t)
    ensures NoOrphans(ServeTreeAll(t, partnerTypes, generateSlug, rs))
  {
    hide ServeTree;
    hide NoOrphans;
    if rs == [] {
    } else {
      var last := |rs| - 1;
      RunKeepsNoOrphans(t, partnerTypes, generateSlug, rs[..last]);
      var before := ServeTreeAll(t, partnerTypes, generateSlug, rs[..last]);
      RequestKeepsNoOrphans(before, partnerTypes, generateSlug, rs[last]);
    }
  }

  /** A category that is live before a run and not after it was removed by a request at whose time
      no offering and no live subcategory was placed in it. */
  lemma {:induction false} OnlyEmptyCategoriesAreRemoved(
    t: Tree, partnerTypes: set<string>, generateSlug: string -> string, rs: seq<TreeRequest>, id: string)
    requires IsLive(t.categories, id) && !IsLive(ServeTreeAll(t, partnerTypes, generateSlug, rs).categories, id)
    ensures exists i :: 0 <= i < |rs|
                        && RemovesEmpty(ServeTreeAll(t, partnerTypes, generateSlug, rs[..i]), rs[i], id)
  {
    hide ServeTree;
    var last := |rs| - 1;
    var before := ServeTreeAll(t, partnerTypes, generateSlug, rs[..last]);
    if IsLive(before.categories, id) {
      CategoryStays(before, partnerTypes, generateSlug, rs[last], id);
      assert RemovesEmpty(before, rs[last], id);
    } else {
      OnlyEmptyCategoriesAreRemoved(t, partnerTypes, generateSlug, rs[..last], id);
      var i :| 0 <= i < last
               && RemovesEmpty(ServeTreeAll(t, partnerTypes, generateSlug, rs[..last][..i]), rs[..last][i], id);
      assert rs[..last][..i] == rs[..i];
    }
  }

  predicate IsValidInTree(t: Tree, r: TreeRequest) {
    match r
    case OnCategory(request) => IsValid(t.categories, request)
    case OnSubcategory(request) => IsValid(t.subcategories, request)
    case _ => true
  }

  /** What the DTOs guarantee of the requests of a run. */
  predicate AllValidInTree(t: Tree, partnerTypes: set<string>, generateSlug: string -> string, rs: seq<TreeRequest>) {
    forall i :: 0 <= i < |rs| ==>
      IsValidInTree(ServeTreeAll(t, partnerTypes, generateSlug, rs[..i]), rs[i])
  }

  lemma PreparedIsValid(t: Tree, generateSlug: string -> string, r: TreeRequest)
    requires (r.OnCategory? || r.OnSubcategory?) && IsValidInTree(t, r)
    ensures IsValid(if r.OnCategory? then t.categories else t.subcategories, Prepared(t, generateSlug, r))
  {}

  lemma RequestKeepsTreeUnique(
    t: Tree, partnerTypes: set<string>, generateSlug: string -> string, r: TreeRequest)
    requires Unique(t.categories) && Unique(t.subcategories) && IsValidInTree(t, r)
    ensures var after := ServeTree(t, partnerTypes, generateSlug, r).tree;
            Unique(after.categories) && Unique(after.subcategories)
  {
    hide Unique;
    hide Serve;
    hide IsValid;
    if r.OnCategory? {
      PreparedIsValid(t, generateSlug, r);
      RequestKeepsUnique(t.categories, partnerTypes, Prepared(t, generateSlug, r));
    } else if r.OnSubcategory? {
      PreparedIsValid(t, generateSlug, r);
      RequestKeepsUnique(t.subcategories, LiveIds(t.categories), Prepared(t, generateSlug, r));
    }
  }

  /** The subcategories of one category have different names and slugs, as the categories of one
      partner type have, over every sequential run of valid requests. */
  lemma {:induction false} RunKeepsTreeUnique(
    t: Tree, partnerTypes: set<string>, generateSlug: string -> string, rs: seq<TreeRequest>)
    requires Unique(t.categories) && Unique(t.subcategories)
    requires AllValidInTree(t, partnerTypes, generateSlug, rs)
    ensures var after := ServeTreeAll(t, partnerTypes, generateSlug, rs);
            Unique(after.categories) && Unique(after.subcategories)
  {
    hide Unique;
    hide ServeTree;
    hide IsValidInTree;
    if rs == [] {
    } else {
      var last := |rs| - 1;
      var before := ServeTreeAll(t, partnerTypes, generateSlug, rs[..last]);
      forall i | 0 <= i < last
        ensures rs[..last][..i] == rs[..i]
      {}
      RunKeepsTreeUnique(t, partnerTypes, generateSlug, rs[..last]);
      RequestKeepsTreeUnique(before, partnerTypes, generateSlug, rs[last]);
    }
  }

  // ----- the subcategories of offerings

  /** Every offering that names a subcategory names a live one of its category. */
  ghost predicate NoneDangles(t: Tree) {
    forall id :: id in t.offerings ==> FitsInto(t, t.offerings[id].subcategoryId, t.offerings[id].categoryId)
  }

  /** Removing this subcategory leaves an offering behind that names it. */
  ghost predicate LeavesDangling(t: Tree, r: TreeRequest) {
    && r.OnSubcategory? && r.request.Remove? && IsLive(t.subcategories, r.request.id)
    && exists id :: id in t.offerings && t.offerings[id].subcategoryId == Some(r.request.id)
  }

  /** A live subcategory stays live, and in its category, under every valid request but its removal. */
  lemma PlaceStays(t: Tree, partnerTypes: set<string>, generateSlug: string -> string, r: TreeRequest, id: string)
    requires IsLive(t.subcategories, id) && IsValidInTree(t, r)
    ensures var after := ServeTree(t, partnerTypes, generateSlug, r).tree.subcategories;
            if r.OnSubcategory? && r.request.Remove? && r.request.id == id then !IsLive(after, id)
            else IsLive(after, id) && after[id].parentId == t.subcategories[id].parentId
  {
    if r.OnSubcategory? && r.request.Reorder? {
      ReorderKeepsIdentity(t.subcategories, r.request.rankings);
    }
  }

  /** A request keeps all offerings in live subcategories exactly unless it removes one that an
      offering names: removals of subcategories do not look at offerings. */
  lemma DanglesExactly(t: Tree, partnerTypes: set<string>, generateSlug: string -> string, r: TreeRequest)
    requires NoneDangles(t) && IsValidInTree(t, r)
    ensures NoneDangles(ServeTree(t, partnerTypes, generateSlug, r).tree) <==> !LeavesDangling(t, r)
  {
    hide Serve;
    hide Prepared;
    hide IsValidInTree;
    var after := ServeTree(t, partnerTypes, generateSlug, r).tree;
    forall id | IsLive(t.subcategories, id)
      ensures if r.OnSubcategory? && r.request.Remove? && r.request.id == id then !IsLive(after.subcategories, id)
              else IsLive(after.subcategories, id)
                   && after.subcategories[id].parentId == t.subcategories[id].parentId
    {
      PlaceStays(t, partnerTypes, generateSlug, r, id);
    }
  }

  /** An offering in the only subcategory of its category, which is then removed. */
  lemma OfferingIsLeftBehind(partnerTypes: set<string>, generateSlug: string -> string)
    ensures var desks := Category("Desks", "desks", "t", true, 0, false);
            var hot := Category("Hot", "hot", "c", true, 0, false);
            var t := Tree(map["c" := desks], map["s" := hot], map["o" := Offering("c", Some("s"))]);
            var outcome := ServeTree(t, partnerTypes, generateSlug, OnSubcategory(Remove("s", 0, 0)));
            NoneDangles(t) && outcome.error.None? && !NoneDangles(outcome.tree)
  {
    var desks, hot := Category("Desks", "desks", "t", true, 0, false), Category("Hot", "hot", "c", true, 0, false);
    var t := Tree(map["c" := desks], map["s" := hot], map["o" := Offering("c", Some("s"))]);
    assert t.offerings["o"].subcategoryId == Some("s");
    DanglesExactly(t, partnerTypes, generateSlug, OnSubcategory(Remove("s", 0, 0)));
  }

  // ----- what each request does

  /** A new subcategory is accepted exactly under a live category none of whose live subcategories
      has its name or slug, which is the given slug or else one made of the name; it is stored so. */
  lemma SubcategoryCreationDoes(t: Tree, partnerTypes: set<string>, generateSlug: string -> string, newId: string,
                                data: CreateDto)
    ensures var outcome := ServeTree(t, partnerTypes, generateSlug, OnSubcategory(Create(newId, data)));
            var slug := if data.slug == "" then generateSlug(data.name) else data.slug;
            var after := outcome.tree.subcategories;
            && outcome.tree == t.(subcategories := after)
            && (outcome.error == Some(NotFound) <==> !IsLive(t.categories, data.parentId))
            && (outcome.error == Some(Conflict) <==>
                  && IsLive(t.categories, data.parentId)
                  && IsTaken(t.subcategories, data.parentId, Some(data.name), Some(slug), newId))
            && (outcome.error.None? || outcome.error == Some(NotFound) || outcome.error == Some(Conflict))
            && (if outcome.error.Some? then after == t.subcategories
                else OnlyRow(t.subcategories, after, newId,
                             Category(data.name, slug, data.parentId, data.isActive, data.sortOrder, false)))
  {
    hide Serve;
    hide OnlyRow;
    hide IsTaken;
    CreationDoes(t.subcategories, LiveIds(t.categories), newId, WithNewSlug(data, generateSlug));
    assert data.parentId in LiveIds(t.categories) <==> IsLive(t.categories, data.parentId);
  }

  /** The slug an updated subcategory ends up with: the given one; without one, a slug made of the
      new name if there is a name and that slug is not empty; and else what was given or stored. */
  function NewSlug(changes: UpdateDto, generateSlug: string -> string, current: string): string {
    if changes.slug.Some? && changes.slug.value != "" then changes.slug.value
    else if changes.name.Some? && changes.name.value != "" && generateSlug(changes.name.value) != ""
    then generateSlug(changes.name.value)
    else if changes.slug.Some? then "" else current
  }

  lemma SubcategoryUpdateDoes(t: Tree, partnerTypes: set<string>, generateSlug: string -> string, id: string,
                              changes: UpdateDto)
    ensures var outcome := ServeTree(t, partnerTypes, generateSlug, OnSubcategory(Update(id, changes)));
            if !IsLive(t.subcategories, id) then outcome == TreeOutcome(t, Some(NotFound))
            else
              var c := t.subcategories[id];
              var slug := NewSlug(changes, generateSlug, c.slug);
              if IsTaken(t.subcategories, c.parentId, Checked(changes.name, c.name), Checked(Some(slug), c.slug), id)
              then outcome == TreeOutcome(t, Some(Conflict))
              else
                && outcome.error.None?
                && outcome.tree == t.(subcategories := outcome.tree.subcategories)
                && OnlyRow(t.subcategories, outcome.tree.subcategories, id, Category(
                             if changes.name.Some? then changes.name.value else c.name, slug, c.parentId,
                             if changes.isActive.Some? then changes.isActive.value else c.isActive,
                             if changes.sortOrder.Some? then changes.sortOrder.value else c.sortOrder, false))
  {
    hide Serve;
    hide OnlyRow;
    hide IsTaken;
    UpdateDoes(t.subcategories, LiveIds(t.categories), id, WithSlug(changes, generateSlug));
  }

  /** Removals delete the row they are about and nothing else; one of a category is refused while
      something is placed in it. */
  lemma RemovalsDo(t: Tree, partnerTypes: set<string>, generateSlug: string -> string, id: string)
    ensures var outcome := ServeTree(t, partnerTypes, generateSlug, OnCategory(Remove(id, 0, 0)));
            if !IsLive(t.categories, id) then outcome == TreeOutcome(t, Some(NotFound))
            else if !IsEmpty(t, id) then outcome == TreeOutcome(t, Some(BadRequest))
            else && outcome.error.None? && outcome.tree == t.(categories := outcome.tree.categories)
                 && OnlyRow(t.categories, outcome.tree.categories, id, t.categories[id].(deleted := true))
    ensures var outcome := ServeTree(t, partnerTypes, generateSlug, OnSubcategory(Remove(id, 0, 0)));
            if !IsLive(t.subcategories, id) then outcome == TreeOutcome(t, Some(NotFound))
            else && outcome.error.None? && outcome.tree == t.(subcategories := outcome.tree.subcategories)
                 && OnlyRow(t.subcategories, outcome.tree.subcategories, id, t.subcategories[id].(deleted := true))
    ensures var outcome := ServeTree(t, partnerTypes, generateSlug, RemoveOffering(id));
            if id !in t.offerings then outcome == TreeOutcome(t, Some(NotFound))
            else && outcome.error.None? && outcome.tree == t.(offerings := outcome.tree.offerings)
                 && id !in outcome.tree.offerings
                 && forall other :: other in t.offerings && other != id
                                    ==> && other in outcome.tree.offerings
                                        && outcome.tree.offerings[other] == t.offerings[other]
  {
    hide Serve;
    hide OnlyRow;
    var under, offered := LiveUnder(t.subcategories, id), OfferingsIn(t.offerings, id);
    assert |under| == 0 && |offered| == 0 <==> IsEmpty(t, id);
    RemovalDoes(t.categories, partnerTypes, id, |under|, |offered|);
    RemovalDoes(t.subcategories, LiveIds(t.categories), id, 0, 0);
  }

  predicate IsPlace(t: Tree, subcategoryId: Option<string>, categoryId: string) {
    match subcategoryId
    case None => true
    case Some(id) =>
      id in t.subcategories && !t.subcategories[id].deleted && t.subcategories[id].parentId == categoryId
  }

  /** An offering is placed exactly in a live category, in a live subcategory of it if it names one,
      and if the checks on its other data pass; then it is stored as it is. */
  lemma OfferingsDo(t: Tree, partnerTypes: set<string>, generateSlug: string -> string, id: string,
                    offering: Offering, given: Option<Option<string>>, other: Option<Error>)
    ensures var outcome := ServeTree(t, partnerTypes, generateSlug, CreateOffering(id, offering, other));
            var fits := && offering.categoryId in t.categories && !t.categories[offering.categoryId].deleted
                        && IsPlace(t, offering.subcategoryId, offering.categoryId);
            && outcome.error == (if !fits then Some(NotFound) else other)
            && outcome.tree == if outcome.error.Some? then t else t.(offerings := t.offerings[id := offering])
    ensures var outcome := ServeTree(t, partnerTypes, generateSlug, UpdateOffering(id, given, other));
            if id !in t.offerings then outcome == TreeOutcome(t, Some(NotFound))
            else
              var before := t.offerings[id];
              var fits := given.Some? ==> IsPlace(t, given.value, before.categoryId);
              && outcome.error == (if !fits then Some(NotFound) else other)
              && outcome.tree
                 == if outcome.error.Some? then t
                    else t.(offerings := t.offerings[id := Offering(
                              before.categoryId, if given.Some? then given.value else before.subcategoryId)])
  {}

  // ----- the services

  /** The services of subcategories and offerings, beside that of categories. */
  class PartnerServices {
    var subcategories: Rows
    var offerings: map<string, Offering>
    const categories: PartnerCategoryService
    const generateSlug: string -> string

    function State(): Tree
      reads this, categories
    {
      Tree(categories.rows, subcategories, offerings)
    }

    constructor (categories: PartnerCategoryService, generateSlug: string -> string)
      ensures subcategories == map[] && offerings == map[]
      ensures this.categories == categories && this.generateSlug == generateSlug
    {
      subcategories, offerings := map[], map[];
      this.categories := categories;
      this.generateSlug := generateSlug;
    }

    method CreateSubcategory(newId: string, data: CreateDto) returns (error: Option<Error>)
      modifies this
      ensures TreeOutcome(State(), error)
              == ServeTree(old(State()), categories.partnerTypes, generateSlug, OnSubcategory(Create(newId, data)))
      ensures old(NoOrphans(State())) ==> NoOrphans(State())
    {
      if !IsLive(categories.rows, data.parentId) {
        return Some(NotFound);
      }
      var slug := if data.slug != "" then data.slug else generateSlug(data.name);
      if NameTaken(subcategories, data.parentId, data.name, newId) {
        return Some(Conflict);
      }
      if SlugTaken(subcategories, data.parentId, slug, newId) {
        return Some(Conflict);
      }
      subcategories := subcategories[newId := NewCategory(data.(slug := slug))];
      error := None;
    }

    method UpdateSubcategory(id: string, changes: UpdateDto) returns (error: Option<Error>)
      modifies this
      ensures TreeOutcome(State(), error)
              == ServeTree(old(State()), categories.partnerTypes, generateSlug, OnSubcategory(Update(id, changes)))
      ensures old(NoOrphans(State())) ==> NoOrphans(State())
    {
      if !IsLive(subcategories, id) {
        return Some(NotFound);
      }
      var subcategory := subcategories[id];
      var slug := changes.slug.GetOr("");
      if changes.name.GetOr("") != "" && slug == "" {
        slug := generateSlug(changes.name.value);
      }
      if changes.name.GetOr("") != "" && changes.name.value != subcategory.name {
        if NameTaken(subcategories, subcategory.parentId, changes.name.value, id) {
          return Some(Conflict);
        }
      }
      if slug != "" && slug != subcategory.slug {
        if SlugTaken(subcategories, subcategory.parentId, slug, id) {
          return Some(Conflict);
        }
      }
      var changed := Changed(subcategory, changes);
      if slug != "" {
        changed := changed.(slug := slug);
      }
      subcategories := subcategories[id := changed];
      error := None;
    }

    method RemoveSubcategory(id: string) returns (error: Option<Error>)
      modifies this
      ensures TreeOutcome(State(), error)
              == ServeTree(old(State()), categories.partnerTypes, generateSlug, OnSubcategory(Remove(id, 0, 0)))
      ensures old(NoOrphans(State())) ==> NoOrphans(State())
    {
      if !IsLive(subcategories, id) {
        return Some(NotFound);
      }
      subcategories := subcategories[id := subcategories[id].(deleted := true)];
      error := None;
    }

    /** The removal of a category, which loads its subcategories and offerings first. */
    method RemoveCategory(id: string) returns (error: Option<Error>)
      modifies categories
      ensures TreeOutcome(State(), error)
              == ServeTree(old(State()), categories.partnerTypes, generateSlug, OnCategory(Remove(id, 0, 0)))
      ensures old(NoOrphans(State())) ==> NoOrphans(State())
    {
      if NoOrphans(State()) {
        RequestKeepsNoOrphans(State(), categories.partnerTypes, generateSlug, OnCategory(Remove(id, 0, 0)));
      }
      error := categories.RemoveCategory(id, |LiveUnder(subcategories, id)|, |OfferingsIn(offerings, id)|);
    }

    method AddOffering(id: string, offering: Offering, other: Option<Error>) returns (error: Option<Error>)
      modifies this
      ensures TreeOutcome(State(), error)
              == ServeTree(old(State()), categories.partnerTypes, generateSlug, CreateOffering(id, offering, other))
      ensures old(NoOrphans(State())) ==> NoOrphans(State())
      ensures old(NoneDangles(State())) ==> NoneDangles(State())
    {
      if !IsLive(categories.rows, offering.categoryId) {
        return Some(NotFound);
      }
      if offering.subcategoryId.Some? {
        var subcategoryId := offering.subcategoryId.value;
        if !IsLive(subcategories, subcategoryId) || subcategories[subcategoryId].parentId != offering.categoryId {
          return Some(NotFound);
        }
      }
      if other.Some? {
        return other;
      }
      offerings := offerings[id := offering];
      error := None;
    }

    method ChangeOffering(id: string, given: Option<Option<string>>, other: Option<Error>)
      returns (error: Option<Error>)
      modifies this
      ensures TreeOutcome(State(), error)
              == ServeTree(old(State()), categories.partnerTypes, generateSlug, UpdateOffering(id, given, other))
      ensures old(NoOrphans(State())) ==> NoOrphans(State())
      ensures old(NoneDangles(State())) ==> NoneDangles(State())
    {
      if id !in offerings {
        return Some(NotFound);
      }
      var offering := offerings[id];
      if given.Some? && given.value.Some? {
        var subcategoryId := given.value.value;
        if !IsLive(subcategories, subcategoryId) || subcategories[subcategoryId].parentId != offering.categoryId {
          return Some(NotFound);
        }
      }
      if other.Some? {
        return other;
      }
      if given.Some? {
        offering := offering.(subcategoryId := given.value);
      }
      offerings := offerings[id := offering];
      error := None;
    }

    method DropOffering(id: string) returns (error: Option<Error>)
      modifies this
      ensures TreeOutcome(State(), error)
              == ServeTree(old(State()), categories.partnerTypes, generateSlug, RemoveOffering(id))
      ensures old(NoOrphans(State())) ==> NoOrphans(State())
      ensures old(NoneDangles(State())) ==> NoneDangles(State())
    {
      if id !in offerings {
        return Some(NotFound);
      }
      offerings := offerings - {id};
      error := None;
    }
  }
}
