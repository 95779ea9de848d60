/** The table component's state and its event handlers. The records and
    the page-size options are the component's inputs; the search query,
    the AND/OR switch, the current page, the page size and the sort column
    and direction are its state. What the table shows (sorted, filtered and
    paged rows, and the footer) is computed from these. */
module Table {
  import opened Records
  import opened Sorting
  import opened Search
  import opened Paging

  /** The sort column and direction. */
  datatype SortState = SortState(column: string, direction: Direction)

  /** `handleSort`: a click on the column already sorted descending clears
      the sort column (leaving the direction descending), a click on the
      column sorted ascending turns it descending, and a click on any other
      column sorts by it ascending. */
  function NextSort(s: SortState, column: string): SortState
  {
    if s.column == column && s.direction == Desc then SortState("", s.direction)
    else if s.column == column then SortState(s.column, Desc)
    else SortState(column, Asc)
  }

  /** Three clicks on a header cycle ascending, descending, cleared and back
      to ascending. */
  lemma SortCycle(c: string)
    requires c != ""
    ensures NextSort(SortState(c, Asc), c) == SortState(c, Desc)
    ensures NextSort(SortState(c, Desc), c) == SortState("", Desc)
    ensures NextSort(SortState("", Desc), c) == SortState(c, Asc)
    ensures NextSort(NextSort(NextSort(SortState(c, Asc), c), c), c) == SortState(c, Asc)
  {
  }

  /** A click on a column other than the sorted one always sorts by it
      ascending, whatever the direction was. */
  lemma OtherColumnSortsAscending(s: SortState, c: string)
    requires s.column != c
    ensures NextSort(s, c) == SortState(c, Asc)
  {
  }

  /** Once the sort is cleared the rows come in their original order, as no
      record has a field named by the empty string. */
  lemma ClearedSortKeepsOrder(c: string, values: seq<Record>)
    requires c != "" && forall e :: e in values ==> "" !in e
    ensures var s := NextSort(SortState(c, Desc), c);
      SortedValues(s.column, s.direction, values) == values
  {
    SortedValuesWithoutField("", Desc, values);
  }

  class SuperTable {
    /** The `values` prop: the parent replaces it while the table stays
        mounted, and the current page is kept. */
    var values: seq<Record>
    var searchQuery: string
    var doIncludeAll: bool
    var currentPage: int
    var usersPerPage: int
    var sortColumn: string
    var sortDirection: Direction

    /** The page size is positive. The current page need not be a real
        one: a new, shorter `values` prop leaves it where it was. */
    predicate Valid()
      reads this
    {
      usersPerPage > 0
    }

    /** The current page is one of the pages the records fill. */
    predicate OnRealPage()
      reads this
      requires usersPerPage > 0
    {
      1 <= currentPage <= PageCount()
    }

    /** `totalPages`, counted from all the records. */
    function PageCount(): nat
      reads this
      requires usersPerPage > 0
    {
      TotalPages(|values|, usersPerPage)
    }

    /** `sortedValues`. */
    function Sorted(): seq<Record>
      reads this
    {
      SortedValues(sortColumn, sortDirection, values)
    }

    /** `filteredUsers`. */
    function Filtered(): seq<Record>
      reads this
    {
      FilteredUsers(Sorted(), searchQuery, doIncludeAll)
    }

    /** `displayedUsers`. */
    function Shown(): seq<Record>
      reads this
    {
      Displayed(Filtered(), currentPage, usersPerPage)
    }

    /** The footer for the current page. */
    function Footer(): Controls
      reads this
      requires usersPerPage > 0
    {
      PageControls(currentPage, PageCount())
    }

    /** The initial state: no search, OR mode, page 1, the first page-size
        option, sorted by "id" ascending. */
    constructor(values: seq<Record>, options: seq<int>)
      requires |options| > 0 && options[0] > 0
      ensures this.values == values
      ensures searchQuery == "" && !doIncludeAll && currentPage == 1
      ensures usersPerPage == options[0] && sortColumn == "id" && sortDirection == Asc
      ensures Valid() && (|values| > 0 ==> OnRealPage())
    {
      this.values := values;
      searchQuery := "";
      doIncludeAll := false;
      currentPage := 1;
      usersPerPage := options[0];
      sortColumn := "id";
      sortDirection := Asc;
    }

    /** A new `values` prop from the parent: every piece of state stays,
        the current page included. More records keep a real page real;
        fewer can leave the current page past the page count. */
    method ReceiveValues(v: seq<Record>)
      requires Valid()
      modifies this
      ensures values == v
      ensures searchQuery == old(searchQuery) && doIncludeAll == old(doIncludeAll)
      ensures currentPage == old(currentPage) && usersPerPage == old(usersPerPage)
      ensures sortColumn == old(sortColumn) && sortDirection == old(sortDirection)
      ensures Valid()
      ensures old(OnRealPage()) && |v| >= |old(values)| ==> OnRealPage()
    {
      if |v| >= |values| {
        TotalPagesMonotone(|values|, |v|, usersPerPage);
      }
      values := v;
    }

    /** `handleUsersPerPageChange`: the new page size, back to page 1. */
    method HandleUsersPerPageChange(value: int)
      requires Valid() && value > 0
      modifies this
      ensures usersPerPage == value && currentPage == 1
      ensures values == old(values)
      ensures searchQuery == old(searchQuery) && doIncludeAll == old(doIncludeAll)
      ensures sortColumn == old(sortColumn) && sortDirection == old(sortDirection)
      ensures Valid() && (|values| > 0 ==> OnRealPage())
    {
      usersPerPage := value;
      currentPage := 1;
    }

    /** `handleToggleIncludeAll`: flips between OR and AND; the page and the
        sort stay. */
    method HandleToggleIncludeAll()
      requires Valid()
      modifies this
      ensures doIncludeAll == !old(doIncludeAll) && values == old(values)
      ensures searchQuery == old(searchQuery) && currentPage == old(currentPage) && usersPerPage == old(usersPerPage)
      ensures sortColumn == old(sortColumn) && sortDirection == old(sortDirection)
      ensures Valid()
    {
      doIncludeAll := !doIncludeAll;
    }

    /** `handleSearchChange`: the new query; the page and the sort stay. */
    method HandleSearchChange(query: string)
      requires Valid()
      modifies this
      ensures searchQuery == query && values == old(values)
      ensures doIncludeAll == old(doIncludeAll) && currentPage == old(currentPage) && usersPerPage == old(usersPerPage)
      ensures sortColumn == old(sortColumn) && sortDirection == old(sortDirection)
      ensures Valid()
    {
      searchQuery := query;
    }

    /** `handleSort`: the next sort state; the page and the search stay. */
    method HandleSort(column: string)
      requires Valid()
      modifies this
      ensures SortState(sortColumn, sortDirection) == NextSort(old(SortState(sortColumn, sortDirection)), column)
      ensures values == old(values)
      ensures searchQuery == old(searchQuery) && doIncludeAll == old(doIncludeAll)
      ensures currentPage == old(currentPage) && usersPerPage == old(usersPerPage)
      ensures Valid()
    {
      if sortColumn == column && sortDirection == Desc {
        sortColumn := "";
      } else if sortColumn == column {
        sortDirection := Desc;
      } else {
        sortColumn := column;
        sortDirection := Asc;
      }
    }

    /** The "Previous" button, enabled except on page 1, also on a page
        past the page count. A real page stays real. */
    method ClickPrevious()
      requires Valid() && currentPage != 1
      modifies this
      ensures currentPage == old(currentPage) - 1
      ensures values == old(values)
      ensures searchQuery == old(searchQuery) && doIncludeAll == old(doIncludeAll) && usersPerPage == old(usersPerPage)
      ensures sortColumn == old(sortColumn) && sortDirection == old(sortDirection)
      ensures Valid()
      ensures old(OnRealPage()) ==> OnRealPage()
    {
      currentPage := currentPage - 1;
    }

    /** The "Next" button, enabled except on the last page. Past the page
        count it stays enabled and moves further out; a real page stays
        real. */
    method ClickNext()
      requires Valid() && currentPage != PageCount()
      modifies this
      ensures currentPage == old(currentPage) + 1
      ensures values == old(values)
      ensures searchQuery == old(searchQuery) && doIncludeAll == old(doIncludeAll) && usersPerPage == old(usersPerPage)
      ensures sortColumn == old(sortColumn) && sortDirection == old(sortDirection)
      ensures Valid()
      ensures old(OnRealPage()) ==> OnRealPage()
      ensures old(currentPage) > old(PageCount()) ==> currentPage > PageCount()
    {
      currentPage := currentPage + 1;
    }

    /** A page button of the window, the first-page button or the last-page
        button: only pages the footer offers can be chosen, also from a page
        past the page count, and while there are records each is real. */
    method ClickPage(page: int)
      requires Valid()
      requires page in Footer().pages || (Footer().first && page == 1) || (Footer().last && page == PageCount())
      modifies this
      ensures currentPage == page
      ensures values == old(values)
      ensures searchQuery == old(searchQuery) && doIncludeAll == old(doIncludeAll) && usersPerPage == old(usersPerPage)
      ensures sortColumn == old(sortColumn) && sortDirection == old(sortDirection)
      ensures Valid()
      ensures |values| > 0 ==> OnRealPage()
    {
      WindowMembers(currentPage, PageCount(), 5);
      currentPage := page;
    }
  }

  /** Every row the search keeps can be reached: row `i` of the filtered
      rows is on a page the footer can go to, since the page count comes
      from all the records and the filter never adds any. */
  lemma FilteredRowReachable(t: SuperTable, i: int)
    requires t.usersPerPage > 0 && 0 <= i < |t.Filtered()|
    ensures var page := i / t.usersPerPage + 1;
      1 <= page <= t.PageCount() &&
      i % t.usersPerPage < |Displayed(t.Filtered(), page, t.usersPerPage)| &&
      Displayed(t.Filtered(), page, t.usersPerPage)[i % t.usersPerPage] == t.Filtered()[i]
  {
    RowOnItsPage(t.Filtered(), t.usersPerPage, i);
    TotalPagesMonotone(|t.Filtered()|, |t.values|, t.usersPerPage);
  }
}
