/** The list screens of the admin front end: filter, search, stable sort, then pages. */
module ListPipeline {
  import opened Wrappers
  import opened Selections
  import opened StableSorting
  import opened WhiteSpace

  /** A JavaScript value. null and undefined are both Null; dates and other objects carry the
      identity that `===` compares. */
  datatype Value =
    | Null
    | Str(text: string)
    | Num(number: real)
    | Date(ms: int, ref: nat)
    | Bool(flag: bool)
    | Object(ref: nat)

  type Item = map<string, Value>

  datatype Direction = Asc | Desc

  datatype SortBy = SortBy(field: string, direction: Direction)

  /** What the language supplies: lower-casing, localeCompare and String(value). */
  datatype Language = Language(lower: string -> string, compare: (string, string) -> int, show: Value -> string)

  function FieldOf(item: Item, key: string): Value {
    if key in item then item[key] else Null
  }

  // ----- search and filters

  /** Nothing is left of the text when it is trimmed. */
  predicate IsBlank(s: string) { forall i :: 0 <= i < |s| ==> IsSpace(s[i]) }

  predicate Includes(s: string, part: string) {
    part <= s || (s != "" && Includes(s[1..], part))
  }

  predicate IsTruthy(v: Value) {
    match v
    case Null => false
    case Str(text) => text != ""
    case Num(number) => number != 0.0
    case Bool(flag) => flag
    case _ => true
  }

  predicate ValueContains(v: Value, term: string, language: Language) {
    match v
    case Str(text) => Includes(language.lower(text), language.lower(term))
    case Num(_) => Includes(language.show(v), term)
    case _ => false
  }

  predicate DefaultSearch(item: Item, term: string, language: Language) {
    IsBlank(term) || exists key :: key in item && ValueContains(item[key], term, language)
  }

  predicate ValueMatches(v: Value, wanted: Value, language: Language) {
    if v.Str? && wanted.Str? then Includes(language.lower(v.text), language.lower(wanted.text))
    else v == wanted
  }

  predicate DefaultFilter(item: Item, filters: map<string, Value>, language: Language) {
    forall key :: key in filters && IsTruthy(filters[key])
      ==> ValueMatches(FieldOf(item, key), filters[key], language)
  }

  predicate HasActiveFilters(filters: map<string, Value>) {
    exists key :: key in filters && IsTruthy(filters[key])
  }

  function Filtered(data: seq<Item>, filters: map<string, Value>, language: Language): seq<Item> {
    if data == [] then []
    else (if DefaultFilter(data[0], filters, language) then [data[0]] else []) + Filtered(data[1..], filters, language)
  }

  function Searched(data: seq<Item>, term: string, language: Language): seq<Item> {
    if data == [] then []
    else (if DefaultSearch(data[0], term, language) then [data[0]] else []) + Searched(data[1..], term, language)
  }

  /** The items that pass both tests, in the order of the data. */
  function Passing(data: seq<Item>, filters: map<string, Value>, term: string, language: Language): (items: seq<Item>)
    ensures forall i :: 0 <= i < |items| ==>
              items[i] in data && DefaultFilter(items[i], filters, language) && DefaultSearch(items[i], term, language)
  {
    if data == [] then []
    else (if DefaultFilter(data[0], filters, language) && DefaultSearch(data[0], term, language) then [data[0]] else [])
         + Passing(data[1..], filters, term, language)
  }

  /** Passing drops an item only if it fails one of the tests: it keeps the multiplicities. */
  lemma {:induction false} PassingKeeps(
    data: seq<Item>, filters: map<string, Value>, term: string, language: Language, item: Item)
    ensures multiset(Passing(data, filters, term, language))[item]
            == if DefaultFilter(item, filters, language) && DefaultSearch(item, term, language)
               then multiset(data)[item] else 0
  {
    hide DefaultFilter;
    hide DefaultSearch;
    if data == [] {
    } else {
      PassingKeeps(data[1..], filters, term, language, item);
      assert data == [data[0]] + data[1..];
    }
  }

  lemma {:induction false} SearchAfterFilter(
    data: seq<Item>, filters: map<string, Value>, term: string, language: Language)
    ensures Searched(Filtered(data, filters, language), term, language) == Passing(data, filters, term, language)
  {
    hide DefaultFilter;
    hide DefaultSearch;
    if data == [] {
    } else {
      SearchAfterFilter(data[1..], filters, term, language);
      var rest := Filtered(data[1..], filters, language);
      if DefaultFilter(data[0], filters, language) {
        assert ([data[0]] + rest)[1..] == rest;
      } else {
        assert [] + rest == rest;
      }
    }
  }

  /** Skipping an inactive pass gives what running it would give. */
  lemma {:induction false} InactivePassesChangeNothing(
    data: seq<Item>, filters: map<string, Value>, term: string, language: Language)
    ensures !HasActiveFilters(filters) ==> Filtered(data, filters, language) == data
    ensures IsBlank(term) ==> Searched(data, term, language) == data
  {
    if data == [] {
    } else {
      InactivePassesChangeNothing(data[1..], filters, term, language);
    }
  }

  // ----- what the tests mean

  predicate StandsAt(part: string, s: string, i: nat) {
    i + |part| <= |s| && s[i..i + |part|] == part
  }

  /** The part stands somewhere in the text. */
  ghost predicate StandsIn(part: string, s: string) {
    exists i: nat :: StandsAt(part, s, i)
  }

  lemma {:induction false} IncludesExactly(s: string, part: string)
    ensures Includes(s, part) <==> StandsIn(part, s)
  {
    if part <= s {
      assert StandsAt(part, s, 0);
    } else if s == "" {
    } else {
      IncludesExactly(s[1..], part);
      if i: nat :| StandsAt(part, s, i) {
        assert i > 0;
        assert s[1..][i - 1..i - 1 + |part|] == s[i..i + |part|];
        assert StandsAt(part, s[1..], i - 1);
      }
      if i: nat :| StandsAt(part, s[1..], i) {
        assert s[1..][i..i + |part|] == s[i + 1..i + 1 + |part|];
        assert StandsAt(part, s, i + 1);
      }
    }
  }

  /** null, the empty text, zero and false ask for nothing. */
  predicate IsEmptyFilter(v: Value) { v in {Null, Str(""), Num(0.0), Bool(false)} }

  /** An item passes the search if the term is blank, or some text of it contains the term whatever
      the case, or some number of it contains the term as it is written. */
  lemma SearchMeans(item: Item, term: string, language: Language)
    ensures DefaultSearch(item, term, language) <==>
            || (forall i :: 0 <= i < |term| ==> IsSpace(term[i]))
            || (exists key :: key in item && item[key].Str?
                              && StandsIn(language.lower(term), language.lower(item[key].text)))
            || (exists key :: key in item && item[key].Num? && StandsIn(term, language.show(item[key])))
  {
    hide Includes;
    hide StandsIn;
    forall key | key in item
      ensures ValueContains(item[key], term, language)
              <==> || (item[key].Str? && StandsIn(language.lower(term), language.lower(item[key].text)))
                   || (item[key].Num? && StandsIn(term, language.show(item[key])))
    {
      if item[key].Str? {
        IncludesExactly(language.lower(item[key].text), language.lower(term));
      } else if item[key].Num? {
        IncludesExactly(language.show(item[key]), term);
      }
    }
  }

  /** An item passes the filters if, for each that asks for something, its value of that name, or
      null, is the one asked for, or contains it whatever the case if both are texts. */
  lemma FilterMeans(item: Item, filters: map<string, Value>, language: Language)
    ensures DefaultFilter(item, filters, language) <==>
            forall key :: key in filters && !IsEmptyFilter(filters[key]) ==>
              var v, wanted := if key in item then item[key] else Null, filters[key];
              if v.Str? && wanted.Str? then StandsIn(language.lower(wanted.text), language.lower(v.text))
              else v == wanted
  {
    hide Includes;
    hide StandsIn;
    forall key | key in filters
      ensures IsTruthy(filters[key]) <==> !IsEmptyFilter(filters[key])
      ensures var v, wanted := FieldOf(item, key), filters[key];
              ValueMatches(v, wanted, language)
              <==> if v.Str? && wanted.Str? then StandsIn(language.lower(wanted.text), language.lower(v.text))
                   else v == wanted
    {
      var v, wanted := FieldOf(item, key), filters[key];
      if v.Str? && wanted.Str? {
        IncludesExactly(language.lower(v.text), language.lower(wanted.text));
      }
    }
  }

  lemma ActiveMeans(filters: map<string, Value>)
    ensures HasActiveFilters(filters) <==> exists key :: key in filters && !IsEmptyFilter(filters[key])
  {}

  function PassesBoth(filters: map<string, Value>, term: string, language: Language): Item -> bool {
    (item: Item) => DefaultFilter(item, filters, language) && DefaultSearch(item, term, language)
  }

  /** The passing items are selected from the data: each that passes, in the order of the data. */
  lemma {:induction false} PassingIsSelect(
    data: seq<Item>, filters: map<string, Value>, term: string, language: Language)
    ensures Passing(data, filters, term, language) == Select(data, PassesBoth(filters, term, language))
  {
    hide DefaultFilter;
    hide DefaultSearch;
    if data == [] {
    } else {
      PassingIsSelect(data[1..], filters, term, language);
      SelectFromFront(data[0], data[1..], PassesBoth(filters, term, language));
      assert [data[0]] + data[1..] == data;
      hide Select;
    }
  }

  lemma PassingIsSelection(data: seq<Item>, filters: map<string, Value>, term: string, language: Language)
    ensures IsSelection(Passing(data, filters, term, language), data, PassesBoth(filters, term, language))
  {
    hide IsSelection;
    PassingIsSelect(data, filters, term, language);
    SelectIsSelection(data, PassesBoth(filters, term, language));
  }

  // ----- sorting

  function CompareValues(v: Value, w: Value, language: Language): real {
    if v.Str? && w.Str? then language.compare(v.text, w.text) as real
    else if v.Num? && w.Num? then v.number - w.number
    else if v.Date? && w.Date? then (v.ms - w.ms) as real
    else language.compare(language.show(v), language.show(w)) as real
  }

  /** defaultSortFunction */
  function DefaultSort(a: Item, b: Item, key: SortBy, language: Language): real {
    var v, w := FieldOf(a, key.field), FieldOf(b, key.field);
    if v.Null? && w.Null? then 0.0
    else if v.Null? then (if key.direction.Asc? then -1.0 else 1.0)
    else if w.Null? then (if key.direction.Asc? then 1.0 else -1.0)
    else
      var comparison := CompareValues(v, w, language);
      if key.direction.Asc? then comparison else -comparison
  }

  /** localeCompare orders all strings, and String(s) is s for a string. */
  ghost predicate IsLanguage(language: Language) {
    && (forall a, b :: language.compare(a, b) <= 0 <==> language.compare(b, a) >= 0)
    && (forall a, b, c :: language.compare(a, b) <= 0 && language.compare(b, c) <= 0 ==> language.compare(a, c) <= 0)
    && (forall text: string :: language.show(Str(text)) == text)
  }

  /** Two values that are compared in one way: two numbers, two dates, or two values neither of
      which is one. */
  predicate SameKind(v: Value, w: Value) {
    v.Null? || w.Null? || ((v.Num? <==> w.Num?) && (v.Date? <==> w.Date?))
  }

  predicate UniformColumn(items: seq<Item>, field: string) {
    forall i, j :: 0 <= i < |items| && 0 <= j < |items| ==> SameKind(FieldOf(items[i], field), FieldOf(items[j], field))
  }

  lemma DescendingReverses(a: Item, b: Item, field: string, language: Language)
    ensures DefaultSort(a, b, SortBy(field, Desc), language) == -DefaultSort(a, b, SortBy(field, Asc), language)
  {}

  function Comparator(key: SortBy, language: Language): Comparison<Item> {
    (a: Item, b: Item) => DefaultSort(a, b, key, language)
  }

  lemma ComparesBothWays(a: Item, b: Item, key: SortBy, language: Language)
    requires IsLanguage(language)
    ensures DefaultSort(a, b, key, language) <= 0.0 <==> DefaultSort(b, a, key, language) >= 0.0
  {}

  /** Two numbers or two dates: they are compared by what they are worth, and not as strings. */
  predicate SameMeasure(v: Value, w: Value) { (v.Num? && w.Num?) || (v.Date? && w.Date?) }

  /** A value of another kind stands, as a string, somewhere in the order of two numbers or dates:
      it is above the smaller one or below the larger one, and on one side of two equal ones. */
  predicate FitsBetween(u: Value, v: Value, other: Value, language: Language)
    requires SameMeasure(u, v)
  {
    var left := language.compare(language.show(u), language.show(other));
    var right := language.compare(language.show(v), language.show(other));
    var comparison := CompareValues(u, v, language);
    && (comparison < 0.0 ==> left < 0 || right > 0)
    && (comparison == 0.0 ==> (left <= 0 <==> right <= 0) && (left >= 0 <==> right >= 0))
  }

  predicate MixedTriple(u: Value, v: Value, w: Value, language: Language) {
    SameMeasure(u, v) && !SameMeasure(u, w) && !w.Null? ==> FitsBetween(u, v, w, language)
  }

  /** Every value of the column fits in between the numbers, and in between the dates. */
  predicate MixesWell(items: seq<Item>, field: string, language: Language) {
    forall i, j, k :: 0 <= i < |items| && 0 <= j < |items| && 0 <= k < |items| ==>
      MixedTriple(FieldOf(items[i], field), FieldOf(items[j], field), FieldOf(items[k], field), language)
  }

  /** Three values are compared transitively, in each direction. */
  predicate Transitive(a: Item, b: Item, c: Item, key: SortBy, language: Language) {
    DefaultSort(a, b, key, language) <= 0.0 && DefaultSort(b, c, key, language) <= 0.0
    ==> DefaultSort(a, c, key, language) <= 0.0
  }

  /** The kinds aside, the comparison of two non-null values is that of their strings. */
  lemma ComparesAsStrings(v: Value, w: Value, language: Language)
    requires IsLanguage(language) && !v.Null? && !w.Null? && !SameMeasure(v, w)
    ensures CompareValues(v, w, language) == language.compare(language.show(v), language.show(w)) as real
  {}

  lemma MixedIsTransitive(a: Item, b: Item, c: Item, key: SortBy, language: Language)
    requires IsLanguage(language)
    requires var u, v, w := FieldOf(a, key.field), FieldOf(b, key.field), FieldOf(c, key.field);
             && MixedTriple(u, v, w, language) && MixedTriple(v, u, w, language)
             && MixedTriple(u, w, v, language) && MixedTriple(w, u, v, language)
             && MixedTriple(v, w, u, language) && MixedTriple(w, v, u, language)
    ensures Transitive(a, b, c, key, language)
  {
    var u, v, w := FieldOf(a, key.field), FieldOf(b, key.field), FieldOf(c, key.field);
    if u.Null? || v.Null? || w.Null? {
    } else if SameMeasure(u, v) && SameMeasure(v, w) {
    } else {
      if !SameMeasure(u, v) {
        ComparesAsStrings(u, v, language);
      }
      if !SameMeasure(v, w) {
        ComparesAsStrings(v, w, language);
      }
      if !SameMeasure(u, w) {
        ComparesAsStrings(u, w, language);
      }
    }
  }

  lemma TransitiveFits(a: Item, b: Item, c: Item, key: SortBy, language: Language)
    requires IsLanguage(language)
    requires Transitive(a, b, c, key, language) && Transitive(b, a, c, key, language)
    requires Transitive(c, a, b, key, language) && Transitive(c, b, a, key, language)
    requires Transitive(a, c, b, key, language) && Transitive(b, c, a, key, language)
    ensures MixedTriple(FieldOf(a, key.field), FieldOf(b, key.field), FieldOf(c, key.field), language)
  {
    var u, v, w := FieldOf(a, key.field), FieldOf(b, key.field), FieldOf(c, key.field);
    if SameMeasure(u, v) && !SameMeasure(u, w) && !w.Null? {
      ComparesAsStrings(u, w, language);
      ComparesAsStrings(v, w, language);
      ComparesAsStrings(w, u, language);
      ComparesAsStrings(w, v, language);
    }
  }

  predicate AllTransitive(items: seq<Item>, key: SortBy, language: Language) {
    forall i, j, k :: 0 <= i < |items| && 0 <= j < |items| && 0 <= k < |items| ==>
      Transitive(items[i], items[j], items[k], key, language)
  }

  lemma OrdersIfTransitive(items: seq<Item>, key: SortBy, language: Language)
    requires IsLanguage(language)
    ensures OrdersAll(Comparator(key, language), items) <==> AllTransitive(items, key, language)
  {
    hide IsLanguage;
    hide DefaultSort;
    forall i, j | 0 <= i < |items| && 0 <= j < |items|
      ensures DefaultSort(items[i], items[j], key, language) <= 0.0
              <==> DefaultSort(items[j], items[i], key, language) >= 0.0
    {
      ComparesBothWays(items[i], items[j], key, language);
    }
    if AllTransitive(items, key, language) {
      forall i, j, k | 0 <= i < |items| && 0 <= j < |items| && 0 <= k < |items|
                       && DefaultSort(items[i], items[j], key, language) <= 0.0
                       && DefaultSort(items[j], items[k], key, language) <= 0.0
        ensures DefaultSort(items[i], items[k], key, language) <= 0.0
      {
        assert Transitive(items[i], items[j], items[k], key, language);
      }
    }
  }

  /** Whatever kinds a column mixes, its comparison is a total preorder if and only if every value
      fits, as a string, in between any two numbers and any two dates of the column. */
  lemma OrderedExactly(items: seq<Item>, key: SortBy, language: Language)
    requires IsLanguage(language)
    ensures OrdersAll(Comparator(key, language), items) <==> MixesWell(items, key.field, language)
  {
    OrdersIfTransitive(items, key, language);
    hide IsLanguage;
    hide MixedTriple;
    hide Transitive;
    hide OrdersAll;
    if MixesWell(items, key.field, language) {
      forall i, j, k | 0 <= i < |items| && 0 <= j < |items| && 0 <= k < |items|
        ensures Transitive(items[i], items[j], items[k], key, language)
      {
        MixedIsTransitive(items[i], items[j], items[k], key, language);
      }
    }
    if AllTransitive(items, key, language) {
      forall i, j, k | 0 <= i < |items| && 0 <= j < |items| && 0 <= k < |items|
        ensures MixedTriple(
                  FieldOf(items[i], key.field), FieldOf(items[j], key.field), FieldOf(items[k], key.field), language)
      {
        TransitiveFits(items[i], items[j], items[k], key, language);
      }
    }
  }

  /** A column of one kind plus nulls is ordered, either way round. */
  lemma UniformColumnIsOrdered(items: seq<Item>, key: SortBy, language: Language)
    requires IsLanguage(language) && UniformColumn(items, key.field)
    ensures MixesWell(items, key.field, language) && OrdersAll(Comparator(key, language), items)
  {
    hide IsLanguage;
    hide FieldOf;
    hide OrdersAll;
    hide FitsBetween;
    OrderedExactly(items, key, language);
  }

  /** In a column that mixes numbers and strings it need not be: 9 < 10 as numbers, but as strings
      10 < 5 and 5 < 9. */
  lemma MixedColumnHasACycle(field: string, language: Language)
    requires IsLanguage(language)
    requires language.show(Num(10.0)) == "10" && language.show(Num(9.0)) == "9" && language.show(Str("5")) == "5"
    requires language.compare("10", "5") < 0 && language.compare("5", "9") < 0
    ensures var nine, ten, five: Item := map[field := Num(9.0)], map[field := Num(10.0)], map[field := Str("5")];
            var key := SortBy(field, Asc);
            && DefaultSort(nine, ten, key, language) < 0.0
            && DefaultSort(ten, five, key, language) < 0.0
            && DefaultSort(five, nine, key, language) < 0.0
            && !MixesWell([nine, ten, five], field, language)
  {
    var nine, ten, five: Item := map[field := Num(9.0)], map[field := Num(10.0)], map[field := Str("5")];
    var items := [nine, ten, five];
    assert !MixedTriple(FieldOf(items[0], field), FieldOf(items[1], field), FieldOf(items[2], field), language);
  }

  // ----- the order of a column

  /** What may stand first in an ascending column: null before everything, numbers by value, dates by
      time, texts as localeCompare orders them, and any two other values as their texts. */
  predicate MayPrecede(v: Value, w: Value, language: Language) {
    || v.Null?
    || (!w.Null?
        && if v.Num? && w.Num? then v.number <= w.number
           else if v.Date? && w.Date? then v.ms <= w.ms
           else if v.Str? && w.Str? then language.compare(v.text, w.text) <= 0
           else language.compare(language.show(v), language.show(w)) <= 0)
  }

  lemma SortMeans(a: Item, b: Item, key: SortBy, language: Language)
    requires IsLanguage(language)
    ensures var v, w := FieldOf(a, key.field), FieldOf(b, key.field);
            && (DefaultSort(a, b, key, language) <= 0.0
                <==> if key.direction.Asc? then MayPrecede(v, w, language) else MayPrecede(w, v, language))
            && (DefaultSort(a, b, key, language) == 0.0
                <==> MayPrecede(v, w, language) && MayPrecede(w, v, language))
  {}

  /** The items stand in the order of the column, ascending or descending, and items that may stand
      either way in the order of the list they come from. */
  ghost predicate InColumnOrder(sorted: seq<Item>, order: seq<nat>, key: SortBy, language: Language)
    requires |order| == |sorted|
  {
    forall k, l :: 0 <= k < l < |sorted| ==>
      var v, w := FieldOf(sorted[k], key.field), FieldOf(sorted[l], key.field);
      && (if key.direction.Asc? then MayPrecede(v, w, language) else MayPrecede(w, v, language))
      && (MayPrecede(v, w, language) && MayPrecede(w, v, language) ==> order[k] < order[l])
  }

  lemma StableSortOrdersColumn(items: seq<Item>, order: seq<nat>, key: SortBy, language: Language)
    requires IsLanguage(language) && IsStableSort(Comparator(key, language), items, order)
    ensures InColumnOrder(Apply(items, order), order, key, language)
  {
    hide IsLanguage;
    hide DefaultSort;
    hide MayPrecede;
    hide FieldOf;
    hide Covers;
    var sorted := Apply(items, order);
    forall k, l | 0 <= k < l < |sorted|
      ensures var v, w := FieldOf(sorted[k], key.field), FieldOf(sorted[l], key.field);
              && (if key.direction.Asc? then MayPrecede(v, w, language) else MayPrecede(w, v, language))
              && (MayPrecede(v, w, language) && MayPrecede(w, v, language) ==> order[k] < order[l])
    {
      assert Before(Comparator(key, language), items, order[k], order[l]);
      SortMeans(sorted[k], sorted[l], key, language);
    }
  }

  /** In particular nulls, and items without the field, stand first in an ascending column and last
      in a descending one. */
  lemma NullsStandAtOneEnd(sorted: seq<Item>, order: seq<nat>, key: SortBy, language: Language, k: nat, l: nat)
    requires |order| == |sorted| && InColumnOrder(sorted, order, key, language) && k < l < |sorted|
    ensures key.direction.Asc? && FieldOf(sorted[l], key.field).Null? ==> FieldOf(sorted[k], key.field).Null?
    ensures key.direction.Desc? && FieldOf(sorted[k], key.field).Null? ==> FieldOf(sorted[l], key.field).Null?
  {}

  // ----- the hook

  datatype Listing = Listing(filteredData: seq<Item>, filteredCount: nat, hasActiveFilters: bool, hasActiveSearch: bool)

  /** order lists the positions of items in the order of the sorted result. */
  predicate IsSorted(sorted: seq<Item>, items: seq<Item>, order: seq<nat>, key: Option<SortBy>, language: Language) {
    match key
    case None => sorted == items
    case Some(sort) => IsPermutation(order, |items|) && sorted == Apply(items, order)
  }

  /** Sorts a fresh copy. */
  method SortItems(items: seq<Item>, key: SortBy, language: Language) returns (sorted: seq<Item>, ghost order: seq<nat>)
    requires IsLanguage(language)
    ensures IsSorted(sorted, items, order, Some(key), language)
    ensures multiset(sorted) == multiset(items)
    ensures MixesWell(items, key.field, language) ==>
              IsStableSort(Comparator(key, language), items, order) && InColumnOrder(sorted, order, key, language)
  {
    hide IsLanguage;
    hide Covers;
    hide Comparator;
    hide InOrder;
    hide MixesWell;
    hide InColumnOrder;
    var compare := Comparator(key, language);
    var positions := SortPositions(compare, items, |items|);
    SortKeepsItems(compare, items, |items|);
    assert items[..|items|] == items;
    OrderedExactly(items, key, language);
    if MixesWell(items, key.field, language) {
      StableSortExists(compare, items);
      StableSortOrdersColumn(items, positions, key, language);
    }
    order := positions;
    sorted := Apply(items, positions);
  }

  lemma NoFiltersAreInactive()
    ensures !HasActiveFilters(map[])
  {}

  /** useListFiltering. With a sort field the result is a rearrangement of the passing items, and
      where the column's kinds mix well it is their one stable sort. */
  method UseListFiltering(data: seq<Item>, filters: Option<map<string, Value>>, term: string, sort: Option<SortBy>,
                          language: Language)
    returns (listing: Listing, ghost order: seq<nat>)
    requires IsLanguage(language)
    ensures var items := Passing(data, filters.GetOr(map[]), term, language);
            && IsSorted(listing.filteredData, items, order, sort, language)
            && multiset(listing.filteredData) == multiset(items)
            && (sort.Some? && MixesWell(items, sort.value.field, language)
                ==> && IsStableSort(Comparator(sort.value, language), items, order)
                    && InColumnOrder(listing.filteredData, order, sort.value, language))
    ensures IsSelection(Passing(data, filters.GetOr(map[]), term, language), data,
                        PassesBoth(filters.GetOr(map[]), term, language))
    ensures listing.filteredCount == |listing.filteredData|
    ensures listing.hasActiveFilters
            <==> filters.Some? && exists key :: key in filters.value && !IsEmptyFilter(filters.value[key])
    ensures listing.hasActiveSearch == !IsBlank(term)
  {
    hide IsLanguage;
    hide IsStableSort;
    hide IsPermutation;
    hide Apply;
    hide HasActiveFilters;
    hide IsBlank;
    hide Comparator;
    hide MixesWell;
    hide InColumnOrder;
    hide IsSelection;
    hide IsEmptyFilter;
    PassingIsSelection(data, filters.GetOr(map[]), term, language);
    ActiveMeans(filters.GetOr(map[]));
    var result := data;
    var active := filters.GetOr(map[]);
    NoFiltersAreInactive();
    var hasActiveFilters := HasActiveFilters(active);
    InactivePassesChangeNothing(data, active, term, language);
    if hasActiveFilters && filters.Some? {
      result := Filtered(result, active, language);
    }
    var hasActiveSearch := !IsBlank(term);
    InactivePassesChangeNothing(result, active, term, language);
    SearchAfterFilter(data, active, term, language);
    if hasActiveSearch {
      result := Searched(result, term, language);
    }
    order := [];
    if sort.Some? {
      result, order := SortItems(result, sort.value, language);
    }
    listing := Listing(result, |result|, hasActiveFilters, hasActiveSearch);
  }
}
