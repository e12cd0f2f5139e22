/** Page slicing and page numbers. */
module Pagination {

  datatype Page<T> = Page(
    paginatedData: seq<T>, totalPages: nat, startIndex: int, endIndex: int,
    hasPreviousPage: bool, hasNextPage: bool, firstItem: int, lastItem: int)

  function Min(a: int, b: int): int { if a < b then a else b }

  function Clamp(position: int, length: nat): (n: nat)
    ensures n <= length
  {
    if position < 0 then (if length + position < 0 then 0 else length + position)
    else Min(position, length)
  }

  /** Array.prototype.slice: negative positions count from the end, and both are clamped. */
  function Slice<T>(s: seq<T>, from: int, to: int): seq<T> {
    var lo, hi := Clamp(from, |s|), Clamp(to, |s|);
    if lo < hi then s[lo..hi] else []
  }

  /** The number of pages, the last of which may not be full. */
  function PageCount(total: nat, rows: nat): (pages: nat)
    requires rows > 0
    ensures (pages - 1) * rows < total <= pages * rows || pages == total == 0
  {
    assert (total + rows - 1) / rows * rows + (total + rows - 1) % rows == total + rows - 1;
    (total + rows - 1) / rows
  }

  /** usePagination */
  function UsePagination<T>(data: seq<T>, currentPage: int, rowsPerPage: nat, totalItems: nat): Page<T>
    requires rowsPerPage > 0
  {
    var totalPages := PageCount(totalItems, rowsPerPage);
    var startIndex := (currentPage - 1) * rowsPerPage;
    Page(Slice(data, startIndex, startIndex + rowsPerPage), totalPages, startIndex,
         Min(startIndex + rowsPerPage - 1, totalItems - 1), currentPage > 1, currentPage < totalPages,
         if totalItems > 0 then startIndex + 1 else 0,
         if totalItems > 0 then Min(startIndex + rowsPerPage, totalItems) else 0)
  }

  /** The pages 1 to n, one after the other. */
  function PagesUpTo<T>(data: seq<T>, rows: nat, n: nat): seq<T>
    requires rows > 0
  {
    if n == 0 then [] else PagesUpTo(data, rows, n - 1) + UsePagination(data, n, rows, |data|).paginatedData
  }

  lemma PageIsSlice<T>(data: seq<T>, rows: nat, page: nat, start: nat)
    requires rows > 0 && start == (page - 1) * rows <= |data|
    ensures UsePagination(data, page, rows, |data|).paginatedData == data[start..Min(start + rows, |data|)]
  {
    hide PageCount;
  }

  lemma JoinSlices<T>(data: seq<T>, lo: nat, hi: nat)
    requires lo <= hi <= |data|
    ensures data[..lo] + data[lo..hi] == data[..hi]
  {}

  lemma Steps(a: int, b: int, rows: nat)
    requires a <= b
    ensures a * rows <= b * rows
  {}

  /** Every page up to the last one starts inside the data. */
  lemma FullBefore(total: nat, rows: nat, page: nat)
    requires rows > 0 && 1 <= page <= PageCount(total, rows)
    ensures (page - 1) * rows < total
    ensures page < PageCount(total, rows) ==> page * rows < total
  {
    hide PageCount;
    var pages := PageCount(total, rows);
    Steps(page - 1, pages - 1, rows);
    if page < pages {
      Steps(page, pages - 1, rows);
    }
  }

  lemma {:induction false} PagesArePrefix<T>(data: seq<T>, rows: nat, n: nat)
    requires rows > 0 && n <= PageCount(|data|, rows)
    ensures PagesUpTo(data, rows, n) == data[..Min(n * rows, |data|)]
  {
    hide UsePagination;
    hide PageCount;
    if n == 0 {
    } else {
      PagesArePrefix(data, rows, n - 1);
      FullBefore(|data|, rows, n);
      Steps(0, n - 1, rows);
      PageIsSlice(data, rows, n, (n - 1) * rows);
      JoinSlices(data, (n - 1) * rows, Min((n - 1) * rows + rows, |data|));
      assert n * rows == (n - 1) * rows + rows;
    }
  }

  /** The pages 1 to totalPages, put one after the other, are the whole list. */
  lemma PagesCoverTheList<T>(data: seq<T>, rows: nat)
    requires rows > 0
    ensures PagesUpTo(data, rows, PageCount(|data|, rows)) == data
  {
    hide PageCount;
    PagesArePrefix(data, rows, PageCount(|data|, rows));
    assert data[..|data|] == data;
  }

  /** Every page but the last is full, the last is not empty, and the item numbers of the pages
      run through 1 to the number of items without a gap. */
  lemma PageNumbersAreConsecutive<T>(data: seq<T>, rows: nat, n: nat)
    requires rows > 0 && 1 <= n <= PageCount(|data|, rows)
    ensures var page := UsePagination(data, n, rows, |data|);
            && 1 <= page.firstItem <= page.lastItem <= |data|
            && page.paginatedData == data[page.firstItem - 1..page.lastItem]
            && page.endIndex == page.lastItem - 1 && page.startIndex == page.firstItem - 1
            && (n == 1 <==> page.firstItem == 1)
            && (n == 1 <==> !page.hasPreviousPage)
            && (if n < page.totalPages then
                  && page.hasNextPage && |page.paginatedData| == rows
                  && UsePagination(data, n + 1, rows, |data|).firstItem == page.lastItem + 1
                else !page.hasNextPage && page.lastItem == |data|)
  {
    hide PageCount;
    FullBefore(|data|, rows, n);
    Steps(0, n - 1, rows);
    PageIsSlice(data, rows, n, (n - 1) * rows);
    assert n * rows == (n - 1) * rows + rows;
    if n > 1 {
      Steps(1, n - 1, rows);
    }
  }

  /** Other page numbers: one beyond the last shows nothing, and so does zero; a negative one counts
      its slice from the end of the list. Without items there are no pages and no item numbers. */
  lemma PagesOutside<T>(data: seq<T>, rows: nat, n: int)
    requires rows > 0
    ensures var page := UsePagination(data, n, rows, |data|);
            && (n > page.totalPages || n == 0 ==> page.paginatedData == [])
            && (n < 0 ==> var from, to := |data| + (n - 1) * rows, |data| + n * rows;
                          page.paginatedData == if to <= 0 then [] else data[if from < 0 then 0 else from..to])
            && (data == [] ==> page.totalPages == 0 && page.firstItem == 0 && page.lastItem == 0)
  {
    var pages := PageCount(|data|, rows);
    hide PageCount;
    assert n * rows == (n - 1) * rows + rows;
    if n > pages {
      Steps(pages, n - 1, rows);
    } else if n < 0 {
      Steps(n, -1, rows);
    }
  }
}
