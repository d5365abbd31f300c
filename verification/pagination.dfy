/** The pagination arithmetic of the results view
    (src/components/shared/search-results-with-pagination.tsx): the list
    of page links with ellipses, the page count, the Previous/Next guards
    and the search parameters a page link navigates to. */
module Pagination {
  import opened Wrappers
  import opened Numerals

  /** A pagination slot: a page link or one of the two ellipses. */
  datatype Item = Page(n: int) | EllipsisStart | EllipsisEnd

  /** Up to this many pages are listed without ellipses. */
  const MaxVisiblePages := 5
  /** Results per page of the search. */
  const ResultsPerPage := 20

  /** The page links `lo, lo + 1, ..., hi`, empty when `hi < lo`. */
  function Range(lo: int, hi: int): (r: seq<Item>)
    ensures |r| == if hi < lo then 0 else hi - lo + 1
    ensures forall k :: 0 <= k < |r| ==> r[k] == Page(lo + k)
  {
    seq(if hi < lo then 0 else hi - lo + 1, k => Page(lo + k))
  }

  /** Append the link to page `i` unless the list already has it
      (`if (!items.includes(i)) items.push(i)`). */
  function PushNew(items: seq<Item>, i: int): seq<Item>
  {
    if Page(i) in items then items else items + [Page(i)]
  }

  /** The loop `for (i = lo; i <= hi; i++)` over `PushNew`. */
  function PushRange(items: seq<Item>, lo: int, hi: int): seq<Item>
    decreases hi - lo + 1
  {
    if hi < lo then items else PushRange(PushNew(items, lo), lo + 1, hi)
  }

  function Max(a: int, b: int): int { if a < b then b else a }
  function Min(a: int, b: int): int { if a < b then a else b }

  /** `generatePaginationItems(currentPage, totalPages)`. With more than
      five pages the list is exactly the reference layout: the `includes`
      checks of the source never drop an item. */
  function GeneratePaginationItems(current: int, total: int): (items: seq<Item>)
    ensures total > MaxVisiblePages ==> items == Layout(current, total)
  {
    if total <= MaxVisiblePages then Range(1, total)
    else
      var head := [Page(1)] + (if current > 3 then [EllipsisStart] else []);
      var lo, hi := Max(2, current - 1), Min(total - 1, current + 1);
      var middle := PushRange(head, lo, hi);
      PushRangeAppends(head, lo, hi);
      var tail := if current < total - 2 then middle + [EllipsisEnd] else middle;
      assert PagesBelow(tail, total);
      assert Page(total) !in tail by {
        forall k | 0 <= k < |tail| ensures tail[k] != Page(total) {
        }
      }
      PushNew(tail, total)
  }

  /** The reference layout: the first page, an ellipsis when the current
      page is beyond 3, the pages adjacent to the current one that are
      neither first nor last, an ellipsis when the current page is more
      than two before the last, and the last page. */
  function Layout(current: int, total: int): seq<Item>
  {
    [Page(1)]
    + (if current > 3 then [EllipsisStart] else [])
    + Range(Max(2, current - 1), Min(total - 1, current + 1))
    + (if current < total - 2 then [EllipsisEnd] else [])
    + [Page(total)]
  }

  /** Page numbers listed, in list order, strictly increase. */
  predicate PagesIncreasing(items: seq<Item>)
  {
    forall i, j :: 0 <= i < j < |items| && items[i].Page? && items[j].Page? ==> items[i].n < items[j].n
  }

  /** Every page link of `items` is below `bound`. */
  predicate PagesBelow(items: seq<Item>, bound: int)
  {
    forall k :: 0 <= k < |items| && items[k].Page? ==> items[k].n < bound
  }

  /** While every page already listed is below `lo`, the duplicate check
      never fires and the loop appends exactly the range. */
  lemma {:induction false} PushRangeAppends(items: seq<Item>, lo: int, hi: int)
    requires PagesBelow(items, lo)
    ensures PushRange(items, lo, hi) == items + Range(lo, hi)
    decreases hi - lo + 1
  {
    if hi >= lo {
      assert Page(lo) !in items by {
        forall k | 0 <= k < |items| ensures items[k] != Page(lo) {
        }
      }
      var next := items + [Page(lo)];
      assert PagesBelow(next, lo + 1);
      PushRangeAppends(next, lo + 1, hi);
      assert Range(lo, hi) == [Page(lo)] + Range(lo + 1, hi);
    }
  }

  /** Where each item of the reference layout sits: the first page, the
      optional start ellipsis, the range of middle pages, the optional end
      ellipsis and the last page. */
  lemma LayoutAt(current: int, total: int, k: int)
    requires 0 <= k < |Layout(current, total)|
    ensures var items := Layout(current, total);
      var a := if current > 3 then 1 else 0;
      var lo, hi := Max(2, current - 1), Min(total - 1, current + 1);
      var b := a + |Range(lo, hi)|;
      && |items| == b + 2 + (if current < total - 2 then 1 else 0)
      && (k == 0 ==> items[k] == Page(1))
      && (1 <= k <= a ==> items[k] == EllipsisStart)
      && (a + 1 <= k <= b ==> items[k] == Page(lo + k - a - 1))
      && (b + 1 <= k < |items| - 1 ==> items[k] == EllipsisEnd)
      && (k == |items| - 1 ==> items[k] == Page(total))
  {
    var s := if current > 3 then [EllipsisStart] else [];
    var e := if current < total - 2 then [EllipsisEnd] else [];
    var lo, hi := Max(2, current - 1), Min(total - 1, current + 1);
    var mid := Range(lo, hi);
    var items := Layout(current, total);
    assert items == [Page(1)] + s + mid + e + [Page(total)];
    var a := |s|;
    if a + 1 <= k <= a + |mid| {
      assert items[k] == mid[k - a - 1];
    }
  }

  /** In the reference layout the pages increase strictly and stay within
      `[1, total]`, and there are at most seven items. */
  lemma LayoutPages(current: int, total: int)
    requires total > MaxVisiblePages
    ensures var items := Layout(current, total);
      && |items| <= 7
      && PagesIncreasing(items)
      && (forall k :: 0 <= k < |items| && items[k].Page? ==> 1 <= items[k].n <= total)
  {
    var items := Layout(current, total);
    LayoutAt(current, total, 0);
    forall k | 0 <= k < |items| && items[k].Page?
      ensures 1 <= items[k].n <= total
    {
      LayoutAt(current, total, k);
    }
    forall i, j | 0 <= i < j < |items| && items[i].Page? && items[j].Page?
      ensures items[i].n < items[j].n
    {
      LayoutAt(current, total, i);
      LayoutAt(current, total, j);
    }
  }

  /** In the reference layout each ellipsis is present exactly when the
      current page is far enough from that end, and a valid current page
      is listed. */
  lemma LayoutMarks(current: int, total: int)
    requires total > MaxVisiblePages
    ensures var items := Layout(current, total);
      && items[0] == Page(1) && items[|items| - 1] == Page(total)
      && (EllipsisStart in items <==> current > 3)
      && (EllipsisEnd in items <==> current < total - 2)
      && (1 <= current <= total ==> Page(current) in items)
  {
    var items := Layout(current, total);
    var a := if current > 3 then 1 else 0;
    var lo := Max(2, current - 1);
    LayoutAt(current, total, 0);
    LayoutAt(current, total, |items| - 1);
    forall k | 0 <= k < |items|
      ensures items[k] == EllipsisStart ==> current > 3
      ensures items[k] == EllipsisEnd ==> current < total - 2
    {
      LayoutAt(current, total, k);
    }
    if current > 3 {
      LayoutAt(current, total, 1);
    }
    if current < total - 2 {
      LayoutAt(current, total, |items| - 2);
    }
    if 1 < current < total {
      LayoutAt(current, total, a + 1 + (current - lo));
    }
  }

  /** The properties of the list: all pages when there are at most five;
      otherwise first and last page at the ends, each ellipsis exactly when
      the current page is far enough from that end, pages strictly
      increasing within `[1, total]`, at most seven items, and the current
      page listed whenever it is a valid page. */
  lemma PaginationItemsShape(current: int, total: int)
    ensures var items := GeneratePaginationItems(current, total);
      && PagesIncreasing(items)
      && (forall k :: 0 <= k < |items| && items[k].Page? ==> 1 <= items[k].n <= total)
      && (1 <= current <= total ==> Page(current) in items)
    ensures total <= MaxVisiblePages ==>
      GeneratePaginationItems(current, total) == Range(1, total)
    ensures total > MaxVisiblePages ==>
      var items := GeneratePaginationItems(current, total);
      && |items| <= 7
      && items[0] == Page(1) && items[|items| - 1] == Page(total)
      && (EllipsisStart in items <==> current > 3)
      && (EllipsisEnd in items <==> current < total - 2)
  {
    var items := GeneratePaginationItems(current, total);
    if total > MaxVisiblePages {
      LayoutPages(current, total);
      LayoutMarks(current, total);
    } else if 1 <= current <= total {
      assert items[current - 1] == Page(current);
    }
  }

  /** `Math.ceil(total_count / 20)`. */
  function TotalPages(totalCount: nat): (pages: nat)
    ensures (pages - 1) * ResultsPerPage < totalCount <= pages * ResultsPerPage || (pages == 0 && totalCount == 0)
  {
    (totalCount + ResultsPerPage - 1) / ResultsPerPage
  }

  /** The page count is the least whole number of pages holding all results. */
  lemma TotalPagesIsLeast(totalCount: nat, pages: nat)
    requires totalCount <= pages * ResultsPerPage
    ensures TotalPages(totalCount) <= pages
  {
  }

  /** Whether the pagination bar is rendered at all: exactly when the
      results do not fit on one page. */
  function ShowPagination(totalCount: nat): (r: bool)
    ensures r <==> totalCount > ResultsPerPage
  {
    TotalPages(totalCount) > 1
  }

  /** Previous is disabled on the first page (and before it); an enabled
      Previous link never leads below page 1. */
  function PreviousDisabled(page: int): (r: bool)
    ensures !r ==> page - 1 >= 1
    ensures page >= 2 ==> !r
  {
    page <= 1
  }

  /** Next is disabled on the last page (and after it); an enabled Next
      link never leads past the last page. */
  function NextDisabled(page: int, totalPages: int): (r: bool)
    ensures !r ==> page + 1 <= totalPages
    ensures page < totalPages ==> !r
  {
    page >= totalPages
  }

  /** An enabled Previous or Next link from a valid page leads to a valid
      page; on a valid page at least one of them is enabled when there is
      more than one page. */
  lemma NavigationStaysInRange(page: int, totalPages: int)
    requires 1 <= page <= totalPages
    ensures !PreviousDisabled(page) ==> 1 <= page - 1 <= totalPages
    ensures !NextDisabled(page, totalPages) ==> 1 <= page + 1 <= totalPages
    ensures totalPages > 1 ==> !PreviousDisabled(page) || !NextDisabled(page, totalPages)
  {
  }

  /** The search parameters of the results route. */
  datatype RouteSearch = RouteSearch(version: string, search: string, activeTab: string,
                                     mainRepoPage: string, ecosystemPage: string)

  /** `createPaginationSearch(page, isEcosystem)` in a view showing
      `version` and `activeTab` at the two given pages. */
  function CreatePaginationSearch(version: string, activeTab: string, mainRepoPage: int, ecosystemPage: int,
                                  page: int, isEcosystem: bool): (r: RouteSearch)
    ensures r.version == version && r.activeTab == activeTab && r.search == "true"
    ensures ParseIntPrefix(r.mainRepoPage) == Some(if isEcosystem then mainRepoPage else page)
    ensures ParseIntPrefix(r.ecosystemPage) == Some(if isEcosystem then page else ecosystemPage)
    ensures r.mainRepoPage == IntToString(if isEcosystem then mainRepoPage else page)
    ensures r.ecosystemPage == IntToString(if isEcosystem then page else ecosystemPage)
  {
    ParseIntOfIntToString(page);
    ParseIntOfIntToString(mainRepoPage);
    ParseIntOfIntToString(ecosystemPage);
    RouteSearch(version, "true", activeTab,
                IntToString(if isEcosystem then mainRepoPage else page),
                IntToString(if isEcosystem then page else ecosystemPage))
  }

  /** Following a page link of one tab leaves the other tab's page as it
      was: navigating there and back with the same page is the identity. */
  lemma PaginationLeavesOtherScope(version: string, activeTab: string, mainRepoPage: int, ecosystemPage: int,
                                   page: int, isEcosystem: bool)
    ensures var r := CreatePaginationSearch(version, activeTab, mainRepoPage, ecosystemPage, page, isEcosystem);
      if isEcosystem then r.mainRepoPage == IntToString(mainRepoPage)
      else r.ecosystemPage == IntToString(ecosystemPage)
    ensures CreatePaginationSearch(version, activeTab, mainRepoPage, ecosystemPage, mainRepoPage, false)
         == CreatePaginationSearch(version, activeTab, mainRepoPage, ecosystemPage, ecosystemPage, true)
  {
  }
}
