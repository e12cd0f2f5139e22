/** A list screen: the filtering hook feeds the pagination hook. */
module ListScreen {
  import opened Wrappers
  import opened StableSorting
  import opened ListPipeline
  import opened Pagination

  /** Going through the pages 1 to totalPages shows every item that passes filter and search, as
      often as the data holds it and nothing else, in the order of the one stable sort. */
  method ShowPage(data: seq<Item>, filters: Option<map<string, Value>>, term: string, sort: Option<SortBy>,
                  language: Language, currentPage: int, rowsPerPage: nat)
    returns (page: Page<Item>, ghost sorted: seq<Item>, ghost order: seq<nat>)
    requires IsLanguage(language) && rowsPerPage > 0
    ensures page == UsePagination(sorted, currentPage, rowsPerPage, |sorted|)
    ensures PagesUpTo(sorted, rowsPerPage, page.totalPages) == sorted
    ensures var items := Passing(data, filters.GetOr(map[]), term, language);
            && IsSorted(sorted, items, order, sort, language)
            && multiset(PagesUpTo(sorted, rowsPerPage, page.totalPages)) == multiset(items)
            && (sort.Some? && MixesWell(items, sort.value.field, language)
                ==> && IsStableSort(Comparator(sort.value, language), items, order)
                    && InColumnOrder(sorted, order, sort.value, language))
  {
    hide IsLanguage;
    hide IsStableSort;
    hide InColumnOrder;
    hide IsSorted;
    hide PagesUpTo;
    hide PageCount;
    hide MixesWell;
    hide Passing;
    var listing;
    listing, order := UseListFiltering(data, filters, term, sort, language);
    sorted := listing.filteredData;
    PagesCoverTheList(sorted, rowsPerPage);
    page := UsePagination(listing.filteredData, currentPage, rowsPerPage, listing.filteredCount);
  }
}
