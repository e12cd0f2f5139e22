/** The registry of partner categories: creation, update, soft deletion, activation, reordering. */
module CategoryRegistry {
  import opened Wrappers

  /** A row; the parent of a category is its partner type. A removed category keeps its row with its
      deletion date set. */
  datatype Category = Category(
    name: string, slug: string, parentId: string, isActive: bool, sortOrder: int, deleted: bool)

  type Rows = map<string, Category>

  datatype Error = NotFound | Conflict | BadRequest

  datatype CreateDto = CreateDto(name: string, slug: string, parentId: string, isActive: bool, sortOrder: int)

  /** Absent fields are left alone; the parent cannot be changed. */
  datatype UpdateDto = UpdateDto(
    name: Option<string>, slug: Option<string>, isActive: Option<bool>, sortOrder: Option<int>)

  datatype Ranking = Ranking(id: string, sortOrder: int)

  /** A request. The numbers of subcategories and offerings are those found when it is served. */
  datatype Request =
    | Create(newId: string, data: CreateDto)
    | Update(id: string, changes: UpdateDto)
    | Remove(id: string, subcategories: nat, offerings: nat)
    | ToggleActive(id: string)
    | Reorder(rankings: seq<Ranking>)

  /** The rows after a request, and the error it is answered with, if any. */
  datatype Outcome = Outcome(rows: Rows, error: Option<Error>)

  predicate IsLive(rows: Rows, id: string) { id in rows && !rows[id].deleted }

  /** Some live category of the parent, other than the given one, has the name. */
  predicate NameTaken(rows: Rows, parentId: string, name: string, except: string) {
    exists id :: id in rows && id != except && !rows[id].deleted
                 && rows[id].parentId == parentId && rows[id].name == name
  }

  predicate SlugTaken(rows: Rows, parentId: string, slug: string, except: string) {
    exists id :: id in rows && id != except && !rows[id].deleted
                 && rows[id].parentId == parentId && rows[id].slug == slug
  }

  // ----- what each request does

  function NewCategory(data: CreateDto): Category {
    Category(data.name, data.slug, data.parentId, data.isActive, data.sortOrder, false)
  }

  function CreateOutcome(rows: Rows, parents: set<string>, newId: string, data: CreateDto): Outcome {
    if data.parentId !in parents then Outcome(rows, Some(NotFound))
    else if NameTaken(rows, data.parentId, data.name, newId) then Outcome(rows, Some(Conflict))
    else if SlugTaken(rows, data.parentId, data.slug, newId) then Outcome(rows, Some(Conflict))
    else Outcome(rows[newId := NewCategory(data)], None)
  }

  /** A new value is checked only if it is given, not empty and different. */
  predicate IsChecked(given: Option<string>, current: string) {
    given.Some? && given.value != "" && given.value != current
  }

  function Changed(c: Category, changes: UpdateDto): Category {
    c.(name := changes.name.GetOr(c.name), slug := changes.slug.GetOr(c.slug),
       isActive := changes.isActive.GetOr(c.isActive), sortOrder := changes.sortOrder.GetOr(c.sortOrder))
  }

  function UpdateOutcome(rows: Rows, id: string, changes: UpdateDto): Outcome {
    if !IsLive(rows, id) then Outcome(rows, Some(NotFound))
    else
      var c := rows[id];
      if IsChecked(changes.name, c.name) && NameTaken(rows, c.parentId, changes.name.value, id)
      then Outcome(rows, Some(Conflict))
      else if IsChecked(changes.slug, c.slug) && SlugTaken(rows, c.parentId, changes.slug.value, id)
      then Outcome(rows, Some(Conflict))
      else Outcome(rows[id := Changed(c, changes)], None)
  }

  function RemoveOutcome(rows: Rows, id: string, subcategories: nat, offerings: nat): Outcome {
    if !IsLive(rows, id) then Outcome(rows, Some(NotFound))
    else if subcategories > 0 || offerings > 0 then Outcome(rows, Some(BadRequest))
    else Outcome(rows[id := rows[id].(deleted := true)], None)
  }

  function ToggleOutcome(rows: Rows, id: string): Outcome {
    if !IsLive(rows, id) then Outcome(rows, Some(NotFound))
    else Outcome(rows[id := rows[id].(isActive := !rows[id].isActive)], None)
  }

  /** A missing category fails the request but does not stop the others from being saved. */
  function ReorderOutcome(rows: Rows, rankings: seq<Ranking>): Outcome {
    if rankings == [] then Outcome(rows, None)
    else
      var last := rankings[|rankings| - 1];
      var before := ReorderOutcome(rows, rankings[..|rankings| - 1]);
      if IsLive(before.rows, last.id)
      then before.(rows := before.rows[last.id := before.rows[last.id].(sortOrder := last.sortOrder)])
      else before.(error := Some(NotFound))
  }

  function Serve(rows: Rows, parents: set<string>, request: Request): Outcome {
    match request
    case Create(newId, data) => CreateOutcome(rows, parents, newId, data)
    case Update(id, changes) => UpdateOutcome(rows, id, changes)
    case Remove(id, subcategories, offerings) => RemoveOutcome(rows, id, subcategories, offerings)
    case ToggleActive(id) => ToggleOutcome(rows, id)
    case Reorder(rankings) => ReorderOutcome(rows, rankings)
  }

  // ----- uniqueness

  predicate Differ(a: Category, b: Category) {
    a.deleted || b.deleted || a.parentId != b.parentId || (a.name != b.name && a.slug != b.slug)
  }

  /** Live categories of one parent have different names and different slugs. */
  predicate Unique(rows: Rows) {
    forall a, b :: a in rows && b in rows && a != b ==> Differ(rows[a], rows[b])
  }

  lemma TakenBreaksUnique(rows: Rows, id: string, c: Category)
    requires !c.deleted && (NameTaken(rows, c.parentId, c.name, id) || SlugTaken(rows, c.parentId, c.slug, id))
    ensures !Unique(rows[id := c])
  {
    var other :| other in rows && other != id && !rows[other].deleted && rows[other].parentId == c.parentId
                 && (rows[other].name == c.name || rows[other].slug == c.slug);
    assert !Differ(rows[id := c][id], rows[id := c][other]);
  }

  lemma FreeKeepsUnique(rows: Rows, id: string, c: Category)
    requires forall a, b :: a in rows && b in rows && a != b && a != id && b != id ==> Differ(rows[a], rows[b])
    requires !NameTaken(rows, c.parentId, c.name, id) && !SlugTaken(rows, c.parentId, c.slug, id)
    ensures Unique(rows[id := c])
  {
    forall other | other in rows && other != id
      ensures Differ(c, rows[other]) && Differ(rows[other], c)
    {}
  }

  /** A creation is accepted exactly when its parent exists and the new category can be added
      without breaking uniqueness; then it is what is added. */
  lemma CreateAcceptedExactly(rows: Rows, parents: set<string>, newId: string, data: CreateDto)
    requires Unique(rows) && newId !in rows
    ensures var outcome := CreateOutcome(rows, parents, newId, data);
            && (outcome.error == Some(NotFound) <==> data.parentId !in parents)
            && (outcome.error.None? <==> data.parentId in parents && Unique(rows[newId := NewCategory(data)]))
            && outcome.rows == (if outcome.error.None? then rows[newId := NewCategory(data)] else rows)
  {
    var after := rows[newId := NewCategory(data)];
    if NameTaken(rows, data.parentId, data.name, newId) {
      TakenBreaksUnique(rows, newId, NewCategory(data));
    } else if SlugTaken(rows, data.parentId, data.slug, newId) {
      TakenBreaksUnique(rows, newId, NewCategory(data));
    } else {
      FreeKeepsUnique(rows, newId, NewCategory(data));
    }
  }

  /** An empty name or slug escapes the check. */
  predicate EmptyClash(rows: Rows, id: string, changes: UpdateDto)
    requires id in rows
  {
    || (changes.name == Some("") && NameTaken(rows, rows[id].parentId, "", id))
    || (changes.slug == Some("") && SlugTaken(rows, rows[id].parentId, "", id))
  }

  lemma OwnValuesAreFree(rows: Rows, id: string)
    requires Unique(rows) && IsLive(rows, id)
    ensures !NameTaken(rows, rows[id].parentId, rows[id].name, id)
    ensures !SlugTaken(rows, rows[id].parentId, rows[id].slug, id)
  {
    forall other | other in rows && other != id
      ensures Differ(rows[id], rows[other])
    {}
  }

  /** An accepted update keeps the categories unique exactly when it does not set a name or slug
      to the empty text while another live category of the type has that already. */
  lemma UpdateKeepsUniqueExactly(rows: Rows, id: string, changes: UpdateDto)
    requires Unique(rows) && UpdateOutcome(rows, id, changes).error.None?
    ensures Unique(UpdateOutcome(rows, id, changes).rows) <==> !EmptyClash(rows, id, changes)
  {
    var c := Changed(rows[id], changes);
    OwnValuesAreFree(rows, id);
    if EmptyClash(rows, id, changes) {
      TakenBreaksUnique(rows, id, c);
    } else {
      FreeKeepsUnique(rows, id, c);
    }
  }

  /** An update that gives no empty name or slug is accepted exactly when the category is live and
      the changed category keeps the categories unique. */
  lemma UpdateAcceptedExactly(rows: Rows, id: string, changes: UpdateDto)
    requires Unique(rows) && changes.name != Some("") && changes.slug != Some("")
    ensures var outcome := UpdateOutcome(rows, id, changes);
            && (outcome.error == Some(NotFound) <==> !IsLive(rows, id))
            && (outcome.error.None? <==> IsLive(rows, id) && Unique(rows[id := Changed(rows[id], changes)]))
            && outcome.rows == (if outcome.error.None? then rows[id := Changed(rows[id], changes)] else rows)
  {
    if IsLive(rows, id) {
      OwnValuesAreFree(rows, id);
      var c := Changed(rows[id], changes);
      if NameTaken(rows, c.parentId, c.name, id) || SlugTaken(rows, c.parentId, c.slug, id) {
        TakenBreaksUnique(rows, id, c);
      } else {
        FreeKeepsUnique(rows, id, c);
      }
    }
  }

  lemma {:induction false} ReorderKeepsIdentity(rows: Rows, rankings: seq<Ranking>)
    ensures var after := ReorderOutcome(rows, rankings).rows;
            && after.Keys == rows.Keys
            && forall id :: id in rows ==> after[id] == rows[id].(sortOrder := after[id].sortOrder)
  {
    if rankings == [] {
    } else {
      ReorderKeepsIdentity(rows, rankings[..|rankings| - 1]);
    }
  }

  /** What the DTOs guarantee: new ids are new, and given names and slugs are not empty. */
  predicate IsValid(rows: Rows, request: Request) {
    match request
    case Create(newId, _) => newId !in rows
    case Update(_, changes) => changes.name != Some("") && changes.slug != Some("")
    case _ => true
  }

  lemma RequestKeepsUnique(rows: Rows, parents: set<string>, request: Request)
    requires Unique(rows) && IsValid(rows, request)
    ensures Unique(Serve(rows, parents, request).rows)
  {
    match request
    case Create(newId, data) => CreateAcceptedExactly(rows, parents, newId, data);
    case Update(id, changes) =>
      if UpdateOutcome(rows, id, changes).error.None? {
        UpdateKeepsUniqueExactly(rows, id, changes);
      }
    case Remove(_, _, _) =>
    case ToggleActive(_) =>
    case Reorder(rankings) => ReorderKeepsIdentity(rows, rankings);
  }

  // ----- what a request leaves alone

  /** The category a request is about; a reordering is about several. */
  function Subject(request: Request): Option<string> {
    match request
    case Create(newId, _) => Some(newId)
    case Update(id, _) => Some(id)
    case Remove(id, _, _) => Some(id)
    case ToggleActive(id) => Some(id)
    case Reorder(_) => None
  }

  /** A request about one category leaves all other rows alone, and changes nothing if it fails;
      activating twice is as good as not at all. */
  lemma RequestIsLocal(rows: Rows, parents: set<string>, request: Request)
    requires Subject(request).Some?
    ensures var outcome := Serve(rows, parents, request);
            var id := Subject(request).value;
            && (outcome.error.Some? ==> outcome.rows == rows)
            && outcome.rows - {id} == rows - {id}
            && (request.ToggleActive? && outcome.error.None? ==>
                  Serve(outcome.rows, parents, request) == Outcome(rows, None))
  {}

  /** The position a list of rankings gives a category: the last one wins. */
  function RankOf(rankings: seq<Ranking>, id: string, current: int): int {
    if rankings == [] then current
    else if rankings[|rankings| - 1].id == id then rankings[|rankings| - 1].sortOrder
    else RankOf(rankings[..|rankings| - 1], id, current)
  }

  function Reranked(c: Category, id: string, rankings: seq<Ranking>): Category {
    if c.deleted then c else c.(sortOrder := RankOf(rankings, id, c.sortOrder))
  }

  /** A reordering gives every live category its last ranking and changes nothing else; it fails
      exactly when one of the rankings names no live category. */
  lemma {:induction false} ReorderExactly(rows: Rows, rankings: seq<Ranking>)
    ensures var outcome := ReorderOutcome(rows, rankings);
            && outcome.rows.Keys == rows.Keys
            && (forall id :: id in rows ==> outcome.rows[id] == Reranked(rows[id], id, rankings))
            && (outcome.error.Some? <==> exists i :: 0 <= i < |rankings| && !IsLive(rows, rankings[i].id))
  {
    if rankings == [] {
    } else {
      var last := |rankings| - 1;
      ReorderExactly(rows, rankings[..last]);
      if i :| 0 <= i < |rankings| && !IsLive(rows, rankings[i].id) {
        assert i < last ==> rankings[..last][i] == rankings[i];
      }
    }
  }

  // ----- what each request does, column by column

  /** The row with the id is changed to the second one, and no other row. */
  predicate OnlyRow(rows: Rows, after: Rows, id: string, c: Category) {
    id in after && after[id] == c && after - {id} == rows - {id}
  }

  /** Some live row of the parent other than the given one has the name, or the slug. */
  predicate IsTaken(rows: Rows, parentId: string, name: Option<string>, slug: Option<string>, except: string) {
    exists other :: other in rows && other != except && !rows[other].deleted && rows[other].parentId == parentId
                    && (name == Some(rows[other].name) || slug == Some(rows[other].slug))
  }

  lemma OnlyRowOf(rows: Rows, id: string, c: Category)
    ensures OnlyRow(rows, rows[id := c], id, c)
  {}

  lemma TakenExactly(rows: Rows, parentId: string, name: string, slug: string, except: string)
    ensures IsTaken(rows, parentId, Some(name), Some(slug), except)
            <==> NameTaken(rows, parentId, name, except) || SlugTaken(rows, parentId, slug, except)
    ensures IsTaken(rows, parentId, Some(name), None, except) <==> NameTaken(rows, parentId, name, except)
    ensures IsTaken(rows, parentId, None, Some(slug), except) <==> SlugTaken(rows, parentId, slug, except)
  {}

  lemma CreationDoes(rows: Rows, parents: set<string>, newId: string, data: CreateDto)
    ensures var outcome := Serve(rows, parents, Create(newId, data));
            match outcome.error
            case None =>
              && data.parentId in parents && !IsTaken(rows, data.parentId, Some(data.name), Some(data.slug), newId)
              && OnlyRow(rows, outcome.rows, newId,
                         Category(data.name, data.slug, data.parentId, data.isActive, data.sortOrder, false))
            case Some(error) =>
              && outcome.rows == rows
              && (error == NotFound <==> data.parentId !in parents)
              && (error == Conflict
                  <==> && data.parentId in parents
                       && IsTaken(rows, data.parentId, Some(data.name), Some(data.slug), newId))
              && (error == NotFound || error == Conflict)
  {
    hide OnlyRow;
    TakenExactly(rows, data.parentId, data.name, data.slug, newId);
    if data.parentId in parents && !IsTaken(rows, data.parentId, Some(data.name), Some(data.slug), newId) {
      OnlyRowOf(rows, newId, NewCategory(data));
    }
  }

  /** A value that is checked for conflicts: given, not empty, and not what the row has already. */
  function Checked(given: Option<string>, current: string): Option<string> {
    match given
    case Some(text) => if text == "" || text == current then None else given
    case None => None
  }

  lemma TakenByEither(rows: Rows, parentId: string, name: Option<string>, slug: Option<string>, except: string)
    ensures IsTaken(rows, parentId, name, slug, except)
            <==> IsTaken(rows, parentId, name, None, except) || IsTaken(rows, parentId, None, slug, except)
    ensures !IsTaken(rows, parentId, None, None, except)
  {}

  lemma UpdateDoes(rows: Rows, parents: set<string>, id: string, changes: UpdateDto)
    ensures var outcome := Serve(rows, parents, Update(id, changes));
            if id !in rows || rows[id].deleted then outcome == Outcome(rows, Some(NotFound))
            else
              var c := rows[id];
              if IsTaken(rows, c.parentId, Checked(changes.name, c.name), Checked(changes.slug, c.slug), id)
              then outcome == Outcome(rows, Some(Conflict))
              else
                && outcome.error.None?
                && OnlyRow(rows, outcome.rows, id, Category(
                             if changes.name.Some? then changes.name.value else c.name,
                             if changes.slug.Some? then changes.slug.value else c.slug,
                             c.parentId,
                             if changes.isActive.Some? then changes.isActive.value else c.isActive,
                             if changes.sortOrder.Some? then changes.sortOrder.value else c.sortOrder,
                             false))
  {
    hide OnlyRow;
    if id in rows && !rows[id].deleted {
      var c := rows[id];
      if changes.name.Some? {
        TakenExactly(rows, c.parentId, changes.name.value, "", id);
      }
      if changes.slug.Some? {
        TakenExactly(rows, c.parentId, "", changes.slug.value, id);
      }
      TakenByEither(rows, c.parentId, Checked(changes.name, c.name), Checked(changes.slug, c.slug), id);
      hide IsTaken;
      hide NameTaken;
      hide SlugTaken;
      OnlyRowOf(rows, id, Changed(c, changes));
    }
  }

  lemma RemovalDoes(rows: Rows, parents: set<string>, id: string, subcategories: nat, offerings: nat)
    ensures var outcome := Serve(rows, parents, Remove(id, subcategories, offerings));
            if id !in rows || rows[id].deleted then outcome == Outcome(rows, Some(NotFound))
            else if subcategories != 0 || offerings != 0 then outcome == Outcome(rows, Some(BadRequest))
            else outcome.error.None? && OnlyRow(rows, outcome.rows, id, rows[id].(deleted := true))
  {}

  lemma ToggleDoes(rows: Rows, parents: set<string>, id: string)
    ensures var outcome := Serve(rows, parents, ToggleActive(id));
            if id !in rows || rows[id].deleted then outcome == Outcome(rows, Some(NotFound))
            else outcome.error.None? && OnlyRow(rows, outcome.rows, id, rows[id].(isActive := !rows[id].isActive))
  {}

  /** The last ranking of a live category is its position afterwards; one that is not ranked, or not
      live, keeps its own. */
  lemma {:induction false} LastRankingWins(rows: Rows, rankings: seq<Ranking>, id: string)
    requires id in rows
    ensures id in ReorderOutcome(rows, rankings).rows
    ensures var after := ReorderOutcome(rows, rankings).rows[id];
            && after == rows[id].(sortOrder := after.sortOrder)
            && (forall i :: 0 <= i < |rankings| && rankings[i].id == id && !rows[id].deleted
                            && (forall j :: i < j < |rankings| ==> rankings[j].id != id)
                  ==> after.sortOrder == rankings[i].sortOrder)
            && ((rows[id].deleted || forall i :: 0 <= i < |rankings| ==> rankings[i].id != id)
                ==> after.sortOrder == rows[id].sortOrder)
  {
    if rankings == [] {
    } else {
      var last := |rankings| - 1;
      var before := rankings[..last];
      LastRankingWins(rows, before, id);
      ReorderKeepsIdentity(rows, before);
      forall i | 0 <= i < last && rankings[i].id == id && forall j :: i < j < |rankings| ==> rankings[j].id != id
        ensures rankings[last].id != id && before[i] == rankings[i]
        ensures forall j :: i < j < last ==> before[j].id != id
      {}
    }
  }

  // ----- runs

  /** The rows after a sequence of requests. */
  function ServeAll(rows: Rows, parents: set<string>, requests: seq<Request>): Rows
    decreases |requests|
  {
    if requests == [] then rows
    else ServeAll(Serve(rows, parents, requests[0]).rows, parents, requests[1..])
  }

  predicate AllValid(rows: Rows, parents: set<string>, requests: seq<Request>)
    decreases |requests|
  {
    requests == []
    || (IsValid(rows, requests[0]) && AllValid(Serve(rows, parents, requests[0]).rows, parents, requests[1..]))
  }

  /** Over every sequential run of valid requests the live categories stay unique by partner type
      and name and by partner type and slug. */
  lemma {:induction false} RunKeepsUnique(rows: Rows, parents: set<string>, requests: seq<Request>)
    requires Unique(rows) && AllValid(rows, parents, requests)
    ensures Unique(ServeAll(rows, parents, requests))
    decreases |requests|
  {
    if requests == [] {
    } else {
      RequestKeepsUnique(rows, parents, requests[0]);
      RunKeepsUnique(Serve(rows, parents, requests[0]).rows, parents, requests[1..]);
    }
  }

  /** Two live categories are both given the empty name: the second update is accepted too. */
  lemma EmptyNamesClash(parent: string)
    ensures var a := Category("Desks", "desks", parent, true, 0, false);
            var b := Category("Rooms", "rooms", parent, true, 1, false);
            var rows: Rows := map["a" := a, "b" := b];
            var empty := UpdateDto(Some(""), None, None, None);
            var once := UpdateOutcome(rows, "a", empty);
            var twice := UpdateOutcome(once.rows, "b", empty);
            Unique(rows) && once.error.None? && Unique(once.rows) && twice.error.None? && !Unique(twice.rows)
  {
    var a, b := Category("Desks", "desks", parent, true, 0, false), Category("Rooms", "rooms", parent, true, 1, false);
    var rows: Rows := map["a" := a, "b" := b];
    var once := UpdateOutcome(rows, "a", UpdateDto(Some(""), None, None, None));
    var twice := UpdateOutcome(once.rows, "b", UpdateDto(Some(""), None, None, None));
    assert !Differ(twice.rows["a"], twice.rows["b"]);
  }

  // ----- the service

  class PartnerCategoryService {
    var rows: Rows
    const partnerTypes: set<string>

    /** Holds as long as ids are new and no name or slug is set to the empty text; the methods can
        be called without it. */
    ghost predicate Valid()
      reads this
    {
      Unique(rows)
    }

    constructor (partnerTypes: set<string>)
      ensures Valid() && rows == map[] && this.partnerTypes == partnerTypes
    {
      rows := map[];
      this.partnerTypes := partnerTypes;
    }

    method CreateCategory(newId: string, data: CreateDto) returns (error: Option<Error>)
      modifies this
      ensures Outcome(rows, error) == Serve(old(rows), partnerTypes, Create(newId, data))
      ensures old(Valid()) && newId !in old(rows) ==> Valid()
    {
      if Valid() && newId !in rows {
        CreateAcceptedExactly(rows, partnerTypes, newId, data);
      }
      if data.parentId !in partnerTypes {
        return Some(NotFound);
      }
      if NameTaken(rows, data.parentId, data.name, newId) {
        return Some(Conflict);
      }
      if SlugTaken(rows, data.parentId, data.slug, newId) {
        return Some(Conflict);
      }
      rows := rows[newId := NewCategory(data)];
      error := None;
    }

    method UpdateCategory(id: string, changes: UpdateDto) returns (error: Option<Error>)
      modifies this
      ensures Outcome(rows, error) == Serve(old(rows), partnerTypes, Update(id, changes))
      ensures old(Valid()) ==> (Valid() <==> error.Some? || !EmptyClash(old(rows), id, changes))
    {
      if Valid() && UpdateOutcome(rows, id, changes).error.None? {
        UpdateKeepsUniqueExactly(rows, id, changes);
      }
      if !IsLive(rows, id) {
        return Some(NotFound);
      }
      var category := rows[id];
      if changes.name.Some? && changes.name.value != "" && changes.name.value != category.name {
        if NameTaken(rows, category.parentId, changes.name.value, id) {
          return Some(Conflict);
        }
      }
      if changes.slug.Some? && changes.slug.value != "" && changes.slug.value != category.slug {
        if SlugTaken(rows, category.parentId, changes.slug.value, id) {
          return Some(Conflict);
        }
      }
      rows := rows[id := Changed(category, changes)];
      error := None;
    }

    method RemoveCategory(id: string, subcategories: nat, offerings: nat) returns (error: Option<Error>)
      modifies this
      ensures Outcome(rows, error) == Serve(old(rows), partnerTypes, Remove(id, subcategories, offerings))
      ensures old(Valid()) ==> Valid()
    {
      if !IsLive(rows, id) {
        return Some(NotFound);
      }
      if subcategories > 0 {
        return Some(BadRequest);
      }
      if offerings > 0 {
        return Some(BadRequest);
      }
      rows := rows[id := rows[id].(deleted := true)];
      error := None;
    }

    method ToggleCategory(id: string) returns (error: Option<Error>)
      modifies this
      ensures Outcome(rows, error) == Serve(old(rows), partnerTypes, ToggleActive(id))
      ensures old(Valid()) ==> Valid()
    {
      if !IsLive(rows, id) {
        return Some(NotFound);
      }
      rows := rows[id := rows[id].(isActive := !rows[id].isActive)];
      error := None;
    }

    method ReorderCategories(rankings: seq<Ranking>) returns (error: Option<Error>)
      modifies this
      ensures Outcome(rows, error) == Serve(old(rows), partnerTypes, Reorder(rankings))
      ensures old(Valid()) ==> Valid()
    {
      ReorderKeepsIdentity(rows, rankings);
      error := None;
      for i := 0 to |rankings|
        invariant Outcome(rows, error) == ReorderOutcome(old(rows), rankings[..i])
      {
        var ranking := rankings[i];
        assert rankings[..i + 1][..i] == rankings[..i];
        if IsLive(rows, ranking.id) {
          rows := rows[ranking.id := rows[ranking.id].(sortOrder := ranking.sortOrder)];
        } else {
          error := Some(NotFound);
        }
      }
      assert rankings[..|rankings|] == rankings;
    }
  }
}
