/**
  What the Table derives from its state on every render: the rows that match the
  search term, the rows of the current page, the number of pages, and the state
  of the pager's "previous" and "next" buttons.
*/
module TableView {
  import opened Js
  import opened TableData

  // ---------------------------------------------------------------------
  // Search
  // ---------------------------------------------------------------------

  /** `String(val).toLowerCase().includes(searchTerm.toLowerCase())` */
  predicate ValueMatches(v: Value, term: string) {
    Contains(Lower(ToJsString(v)), Lower(term))
  }

  /** `Object.values(row).some(...)`: some value of the row matches. */
  predicate RowMatches(row: Row, term: string) {
    exists i | 0 <= i < |row| :: ValueMatches(row[i].value, term)
  }

  /** `rows.filter(row => RowMatches(row, term))`, visiting the rows from the left. */
  function FilterRows(rows: seq<Row>, term: string): (r: seq<Row>)
    ensures |r| <= |rows|
    decreases |rows|
  {
    if rows == [] then []
    else
      var n := |rows| - 1;
      FilterRows(rows[..n], term) + (if RowMatches(rows[n], term) then [rows[n]] else [])
  }

  /** A row is in the result exactly when it is one of the rows and it matches. */
  lemma {:induction false} FilterMembership(rows: seq<Row>, term: string, x: Row)
    ensures x in FilterRows(rows, term) <==> x in rows && RowMatches(x, term)
    decreases |rows|
  {
    if rows != [] {
      var n := |rows| - 1;
      FilterMembership(rows[..n], term, x);
      assert rows == rows[..n] + [rows[n]];
      assert x in rows <==> x in rows[..n] || x == rows[n];
    }
  }

  /** `searchable && searchTerm ? tableData.filter(...) : tableData` */
  function FilteredData(tableData: seq<Row>, searchable: bool, searchTerm: string): (r: seq<Row>)
    ensures !searchable || searchTerm == "" ==> r == tableData
    ensures |r| <= |tableData|
  {
    if searchable && searchTerm != "" then FilterRows(tableData, searchTerm) else tableData
  }

  /** Filtering works row by row: the result for two blocks of rows is the two results
      joined, so the matching rows keep their order. */
  lemma {:induction false} FilterAppend(a: seq<Row>, b: seq<Row>, term: string)
    ensures FilterRows(a + b, term) == FilterRows(a, term) + FilterRows(b, term)
    decreases |b|
  {
    if b == [] {
      assert a + b == a;
    } else {
      var n := |b| - 1;
      assert (a + b)[..|a + b| - 1] == a + b[..n];
      assert (a + b)[|a + b| - 1] == b[n];
      FilterAppend(a, b[..n], term);
    }
  }

  /** Filtering one more row at the end adds that row when it matches, and nothing otherwise. */
  lemma FilterSnoc(front: seq<Row>, x: Row, term: string)
    ensures FilterRows(front + [x], term) == FilterRows(front, term) + (if RowMatches(x, term) then [x] else [])
  {
    assert (front + [x])[..|front|] == front;
  }

  /** When every row matches, the filter returns the rows unchanged, in order. */
  lemma {:induction false} FilterKeepsAllMatching(rows: seq<Row>, term: string)
    requires forall i :: 0 <= i < |rows| ==> RowMatches(rows[i], term)
    ensures FilterRows(rows, term) == rows
    decreases |rows|
  {
    if rows != [] {
      var n := |rows| - 1;
      var front := rows[..n];
      var last := rows[n];
      assert rows == front + [last];
      FilterKeepsAllMatching(front, term);
      FilterSnoc(front, last, term);
    }
  }

  /** Without search, or with an empty term, the table shows all its rows. */
  lemma NoSearchShowsAll(tableData: seq<Row>, searchable: bool, searchTerm: string)
    requires !searchable || searchTerm == ""
    ensures FilteredData(tableData, searchable, searchTerm) == tableData
  {
  }

  lemma {:induction false} LowerIdempotent(s: string)
    ensures Lower(Lower(s)) == Lower(s)
  {
    assert forall i :: 0 <= i < |s| ==> AsciiLower(AsciiLower(s[i])) == AsciiLower(s[i]);
  }

  /** The case of the search term does not matter. */
  lemma {:induction false} SearchIgnoresTermCase(rows: seq<Row>, term: string)
    ensures FilterRows(rows, term) == FilterRows(rows, Lower(term))
    decreases |rows|
  {
    LowerIdempotent(term);
    if rows != [] {
      var n := |rows| - 1;
      SearchIgnoresTermCase(rows[..n], term);
      assert RowMatches(rows[n], term) == RowMatches(rows[n], Lower(term));
    }
  }

  /** Numbers are searched through their decimal form: "30" finds a row whose age is 30. */
  lemma SearchFindsNumbers()
    ensures FilterRows([[Field("name", Str("John")), Field("age", Num(30))]], "30") ==
            [[Field("name", Str("John")), Field("age", Num(30))]]
  {
    var row := [Field("name", Str("John")), Field("age", Num(30))];
    assert IntToString(30) == "30";
    assert Lower("30") == "30";
    assert StartsWith("30", "30");
    assert ValueMatches(row[1].value, "30");
    FilterKeepsAllMatching([row], "30");
  }

  // ---------------------------------------------------------------------
  // Pages
  // ---------------------------------------------------------------------

  /** Multiplying by a natural number keeps the order. */
  lemma {:induction false} MulMonotone(a: int, b: int, c: nat)
    ensures a <= b ==> a * c <= b * c
    decreases c
  {
    if c > 0 {
      MulMonotone(a, b, c - 1);
      assert a * c == a * (c - 1) + a && b * c == b * (c - 1) + b;
    }
  }

  /** `Math.ceil(count / pageSize)` */
  function TotalPages(count: nat, pageSize: nat): (t: nat)
    requires pageSize > 0
    ensures count <= t * pageSize
    ensures t > 0 ==> (t - 1) * pageSize < count
    ensures t == 0 <==> count == 0
  {
    var t := (count + pageSize - 1) / pageSize;
    assert t * pageSize + (count + pageSize - 1) % pageSize == count + pageSize - 1;
    t
  }

  function Min(a: int, b: int): int {
    if a <= b then a else b
  }

  /** Where a page starts: at 0 or later, one page size before the next page's start, and at
      or after the end of the rows once the page number passes the page count. */
  lemma PageStart(count: nat, page: int, pageSize: nat)
    requires page >= 1 && pageSize > 0
    ensures (page - 1) * pageSize >= 0
    ensures page * pageSize == (page - 1) * pageSize + pageSize
    ensures page > TotalPages(count, pageSize) ==> (page - 1) * pageSize >= count
  {
    MulMonotone(0, page - 1, pageSize);
    MulMonotone(TotalPages(count, pageSize), page - 1, pageSize);
  }

  /** `rows.slice(start, end)` for `0 <= start <= end`: empty from a start past the end of the rows. */
  function Slice(rows: seq<Row>, start: nat, end: int): (r: seq<Row>)
    requires start <= end
    ensures |r| == if start >= |rows| then 0 else Min(end - start, |rows| - start)
    ensures forall i :: 0 <= i < |r| ==> r[i] == rows[start + i]
  {
    if start >= |rows| then [] else rows[start..start + Min(end - start, |rows| - start)]
  }

  /** `rows.slice((page - 1) * pageSize, page * pageSize)` for a page number of at least 1. */
  function PageRows(rows: seq<Row>, page: int, pageSize: nat): (r: seq<Row>)
    requires page >= 1 && pageSize > 0
    ensures |r| <= pageSize
    ensures |r| == if (page - 1) * pageSize >= |rows| then 0 else Min(pageSize, |rows| - (page - 1) * pageSize)
    ensures forall i :: 0 <= i < |r| ==> r[i] == rows[(page - 1) * pageSize + i]
  {
    MulMonotone(0, page - 1, pageSize);
    var start: nat := (page - 1) * pageSize;
    Slice(rows, start, start + pageSize)
  }

  /** A page number past the page count shows no rows. */
  lemma PageBeyondLastEmpty(rows: seq<Row>, page: int, pageSize: nat)
    requires pageSize > 0 && page > TotalPages(|rows|, pageSize)
    ensures PageRows(rows, page, pageSize) == []
  {
    PageStart(|rows|, page, pageSize);
  }

  /** Every row is shown on exactly one page: row `k` is at position `k % pageSize`
      of page `k / pageSize + 1`, which is one of the `TotalPages` pages. */
  lemma RowOnItsPage(rows: seq<Row>, pageSize: nat, k: int)
    requires pageSize > 0 && 0 <= k < |rows|
    ensures 1 <= k / pageSize + 1 <= TotalPages(|rows|, pageSize)
    ensures var page := PageRows(rows, k / pageSize + 1, pageSize);
      k % pageSize < |page| && page[k % pageSize] == rows[k]
  {
    var p := k / pageSize;
    assert k == p * pageSize + k % pageSize;
    var t := TotalPages(|rows|, pageSize);
    MulMonotone(t, p, pageSize);
    assert p * pageSize < t * pageSize;
  }

  /** The first `n` pages laid end to end. */
  function Pages(rows: seq<Row>, pageSize: nat, n: nat): seq<Row>
    requires pageSize > 0
    decreases n
  {
    if n == 0 then [] else Pages(rows, pageSize, n - 1) + PageRows(rows, n, pageSize)
  }

  /** A page is the slice of the rows between its start and the next page's start, both cut
      at the end of the rows. */
  lemma PageIsSlice(rows: seq<Row>, page: int, pageSize: nat)
    requires page >= 1 && pageSize > 0
    ensures PageRows(rows, page, pageSize) ==
      rows[Min((page - 1) * pageSize, |rows|)..Min(page * pageSize, |rows|)]
  {
    PageStart(|rows|, page, pageSize);
    var start := (page - 1) * pageSize;
    var end := page * pageSize;
    assert end == start + pageSize;
    var r := PageRows(rows, page, pageSize);
    var lo := Min(start, |rows|);
    var hi := Min(end, |rows|);
    assert |r| == hi - lo;
    assert forall i :: 0 <= i < |r| ==> r[i] == rows[lo..hi][i];
  }

  lemma {:induction false} PagesArePrefix(rows: seq<Row>, pageSize: nat, n: nat)
    requires pageSize > 0
    ensures Pages(rows, pageSize, n) == rows[..Min(n * pageSize, |rows|)]
    decreases n
  {
    if n > 0 {
      PagesArePrefix(rows, pageSize, n - 1);
      PageIsSlice(rows, n, pageSize);
      PageStart(|rows|, n, pageSize);
      var lo := Min((n - 1) * pageSize, |rows|);
      var hi := Min(n * pageSize, |rows|);
      assert 0 <= lo <= hi <= |rows|;
      assert Pages(rows, pageSize, n) == rows[..lo] + rows[lo..hi];
      assert rows[..lo] + rows[lo..hi] == rows[..hi];
    }
  }

  /** Read page by page, the pages give back every row, in order, and nothing else. */
  lemma AllPagesGiveAllRows(rows: seq<Row>, pageSize: nat)
    requires pageSize > 0
    ensures Pages(rows, pageSize, TotalPages(|rows|, pageSize)) == rows
  {
    PagesArePrefix(rows, pageSize, TotalPages(|rows|, pageSize));
  }

  /** Twenty-five rows at ten per page make three pages; the last holds five rows. */
  lemma ThreePagesExample(rows: seq<Row>)
    requires |rows| == 25
    ensures TotalPages(|rows|, 10) == 3
    ensures PageRows(rows, 1, 10) == rows[..10]
    ensures PageRows(rows, 3, 10) == rows[20..]
  {
  }

  // ---------------------------------------------------------------------
  // Pager
  // ---------------------------------------------------------------------

  /** `totalPages > 1 && <pager>` */
  predicate PagerShown(totalPages: int) {
    totalPages > 1
  }

  /** `disabled={currentPage === 1}` */
  predicate PrevDisabled(currentPage: int) {
    currentPage == 1
  }

  /** `disabled={currentPage === totalPages}` */
  predicate NextDisabled(currentPage: int, totalPages: int) {
    currentPage == totalPages
  }

  /** `Math.max(1, p - 1)` */
  function PrevPage(p: int): (q: int)
    ensures q >= 1
  {
    if p - 1 >= 1 then p - 1 else 1
  }

  /** `Math.min(totalPages, p + 1)` */
  function NextPage(p: int, totalPages: int): (q: int)
    ensures q <= totalPages
  {
    if totalPages <= p + 1 then totalPages else p + 1
  }

  /** Starting inside `1..totalPages`, both buttons keep the page inside it. */
  lemma PagerKeepsRange(p: int, totalPages: int)
    requires 1 <= p <= totalPages
    ensures 1 <= PrevPage(p) <= totalPages
    ensures 1 <= NextPage(p, totalPages) <= totalPages
  {
  }

  /** Previous moves back one page, and leaves the page alone exactly when it is disabled. */
  lemma PrevMovesBack(p: int)
    requires p >= 1
    ensures PrevPage(p) == p <==> PrevDisabled(p)
    ensures !PrevDisabled(p) ==> PrevPage(p) == p - 1
  {
  }

  /** Next moves forward one page, and leaves the page alone exactly when it is disabled. */
  lemma NextMovesForward(p: int, totalPages: int)
    requires p <= totalPages
    ensures NextPage(p, totalPages) == p <==> NextDisabled(p, totalPages)
    ensures !NextDisabled(p, totalPages) ==> NextPage(p, totalPages) == p + 1
  {
  }

  /** Next and then previous return to the page one started from, unless it was the last. */
  lemma NextThenPrev(p: int, totalPages: int)
    requires 1 <= p < totalPages
    ensures PrevPage(NextPage(p, totalPages)) == p
  {
  }

  /** With three pages, "이전" is disabled only on page 1 and "다음" only on page 3. */
  lemma ThreePagesButtons(p: int)
    requires 1 <= p <= 3 && PagerShown(3)
    ensures PrevDisabled(p) <==> p == 1
    ensures NextDisabled(p, 3) <==> p == 3
  {
  }

  /** From a page beyond the last one, Next is enabled and jumps back to the last page. */
  lemma NextFromBeyondLast(p: int, totalPages: int)
    requires p > totalPages
    ensures !NextDisabled(p, totalPages)
    ensures NextPage(p, totalPages) == totalPages
  {
  }

  /** The page is not reset when the search narrows the rows: a reader on page 2 or later
      whose search leaves one page of rows or fewer sees no rows and no pager to leave by. */
  lemma SearchCanStrandPage(rows: seq<Row>, currentPage: int, pageSize: nat)
    requires pageSize > 0 && currentPage >= 2 && |rows| <= pageSize
    ensures PageRows(rows, currentPage, pageSize) == []
    ensures !PagerShown(TotalPages(|rows|, pageSize))
  {
    var t: int := TotalPages(|rows|, pageSize);
    MulMonotone(1, t - 1, pageSize);
    assert t <= 1;
    PageBeyondLastEmpty(rows, currentPage, pageSize);
  }
}
