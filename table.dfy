/**
  The Table component's state and the events that change it. The props are
  fixed for the life of the object, except `data`, whose change is an event of
  its own. The state is the five `useState` values; everything shown is derived
  from them by the functions of `TableView`, `TableSort` and `TableData`.
*/
module TableComponent {
  import opened Js
  import opened TableData
  import opened TableSort
  import opened TableView

  class Table {
    const columns: Option<seq<Column>>
    const pageSize: nat
    const searchable: bool
    const sortable: bool

    var tableData: seq<Row>
    var currentPage: int
    var searchTerm: string
    var sortColumn: string
    var sortDirection: Direction

    /** A positive page size, and a page number that never drops below 1. */
    ghost predicate Valid()
      reads this
    {
      pageSize > 0 && currentPage >= 1
    }

    /** The first render: the rows are the `data` prop, on page 1, unsearched and unsorted. */
    constructor (columns: Option<seq<Column>>, data: seq<Row>, pageSize: nat, searchable: bool, sortable: bool)
      requires pageSize > 0
      ensures Valid()
      ensures this.columns == columns && this.pageSize == pageSize
      ensures this.searchable == searchable && this.sortable == sortable
      ensures tableData == data && currentPage == 1 && searchTerm == ""
      ensures sortColumn == "" && sortDirection == Asc
    {
      this.columns := columns;
      this.pageSize := pageSize;
      this.searchable := searchable;
      this.sortable := sortable;
      tableData := data;
      currentPage := 1;
      searchTerm := "";
      sortColumn := "";
      sortDirection := Asc;
    }

    /** `filteredData` */
    function Filtered(): seq<Row>
      reads this
    {
      FilteredData(tableData, searchable, searchTerm)
    }

    /** `totalPages` */
    function PageCount(): nat
      reads this
      requires Valid()
    {
      TotalPages(|Filtered()|, pageSize)
    }

    /** `paginatedData`: the rows shown. */
    function Shown(): (r: seq<Row>)
      reads this
      requires Valid()
      ensures r == PageRows(Filtered(), currentPage, pageSize)
      ensures |r| <= pageSize
      ensures currentPage > PageCount() ==> r == []
    {
      if currentPage > PageCount() then PageBeyondLastEmpty(Filtered(), currentPage, pageSize); []
      else PageRows(Filtered(), currentPage, pageSize)
    }

    /** `actualColumns` */
    function HeaderColumns(): seq<Column>
      reads this
    {
      ActualColumns(columns, tableData)
    }

    /** The arrow a header shows: the direction, on the sorted column of a sortable table only. */
    function Arrow(columnKey: string): (r: Option<Direction>)
      reads this
      ensures r.Some? <==> sortable && sortColumn == columnKey
      ensures r.Some? ==> r.value == sortDirection
    {
      if sortable && sortColumn == columnKey then Some(sortDirection) else None
    }

    /** A header click, `sortable && handleSort(column.key)`. On a sortable table it moves the
        indicator and re-sorts the current rows (already sorted by any earlier click) by the
        column in the new direction; page and search term stay. */
    method HandleSort(columnKey: string)
      requires Valid()
      modifies this
      ensures Valid()
      ensures !sortable ==> unchanged(this)
      ensures sortable ==>
        && SortIndicator(sortColumn, sortDirection) == Click(SortIndicator(old(sortColumn), old(sortDirection)), columnKey)
        && tableData == SortRows(columnKey, sortDirection, old(tableData))
      ensures currentPage == old(currentPage) && searchTerm == old(searchTerm)
    {
      if !sortable {
        return;
      }
      var newDirection := if sortColumn == columnKey && sortDirection == Asc then Desc else Asc;
      sortColumn := columnKey;
      sortDirection := newDirection;
      tableData := SortRows(columnKey, newDirection, tableData);
    }

    /** Typing in the search box, which exists only on a searchable table. The page is kept,
        even when it no longer exists among the matching rows. */
    method SetSearchTerm(term: string)
      requires Valid() && searchable
      modifies this
      ensures Valid()
      ensures searchTerm == term
      ensures tableData == old(tableData) && currentPage == old(currentPage)
      ensures sortColumn == old(sortColumn) && sortDirection == old(sortDirection)
    {
      searchTerm := term;
    }

    /** A new `data` prop replaces the rows as given; the page and the sort indicator stay,
        so the indicator may show a column the new rows are not sorted by. */
    method ReceiveData(data: seq<Row>)
      requires Valid()
      modifies this
      ensures Valid()
      ensures tableData == data
      ensures currentPage == old(currentPage) && searchTerm == old(searchTerm)
      ensures sortColumn == old(sortColumn) && sortDirection == old(sortDirection)
    {
      tableData := data;
    }

    /** A click on "이전". The pager exists only with more than one page, and a disabled button
        ignores clicks; either way the page becomes `max(1, p - 1)` when the pager is shown. */
    method ClickPrev()
      requires Valid()
      modifies this
      ensures Valid()
      ensures currentPage == if PagerShown(old(PageCount())) then PrevPage(old(currentPage)) else old(currentPage)
      ensures tableData == old(tableData) && searchTerm == old(searchTerm)
      ensures sortColumn == old(sortColumn) && sortDirection == old(sortDirection)
    {
      var totalPages := PageCount();
      if PagerShown(totalPages) && !PrevDisabled(currentPage) {
        currentPage := if currentPage - 1 >= 1 then currentPage - 1 else 1;
      }
    }

    /** A click on "다음": the page becomes `min(totalPages, p + 1)` when the pager is shown. */
    method ClickNext()
      requires Valid()
      modifies this
      ensures Valid()
      ensures currentPage ==
        if PagerShown(old(PageCount())) then NextPage(old(currentPage), old(PageCount())) else old(currentPage)
      ensures tableData == old(tableData) && searchTerm == old(searchTerm)
      ensures sortColumn == old(sortColumn) && sortDirection == old(sortDirection)
    {
      var totalPages := PageCount();
      if PagerShown(totalPages) && !NextDisabled(currentPage, totalPages) {
        currentPage := if totalPages <= currentPage + 1 then totalPages else currentPage + 1;
      }
    }
  }

  /** From any existing page, "다음" never leaves the existing pages. */
  method NextKeepsPageInRange(t: Table)
    requires t.Valid() && 1 <= t.currentPage <= t.PageCount()
    modifies t
    ensures t.Valid() && 1 <= t.currentPage <= t.PageCount()
  {
    t.ClickNext();
  }

  /** The same for "이전". */
  method PrevKeepsPageInRange(t: Table)
    requires t.Valid() && 1 <= t.currentPage <= t.PageCount()
    modifies t
    ensures t.Valid() && 1 <= t.currentPage <= t.PageCount()
  {
    t.ClickPrev();
  }
}
