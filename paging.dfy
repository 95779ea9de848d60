/** The table's pagination: the page count, the rows of the current page
    as JavaScript's `slice` picks them, the window of page buttons around
    the current page, and the first/last buttons and gaps around it. */
module Paging {

  function Max(a: int, b: int): int { if a >= b then a else b }
  function Min(a: int, b: int): int { if a <= b then a else b }

  /** `Math.ceil(count / perPage)`: the fewest pages of `perPage` rows that
      hold `count` rows. */
  function TotalPages(count: nat, perPage: int): (r: nat)
    requires perPage > 0
    ensures count <= r * perPage
    ensures r == 0 || (r - 1) * perPage < count
  {
    (count + perPage - 1) / perPage
  }

  /** Fewer rows never need more pages. */
  lemma TotalPagesMonotone(m: nat, n: nat, perPage: int)
    requires perPage > 0 && m <= n
    ensures TotalPages(m, perPage) <= TotalPages(n, perPage)
  {
    var a, b := TotalPages(m, perPage), TotalPages(n, perPage);
    if a > b {
      MulMonotone(b, a - 1, perPage);
    }
  }

  lemma MulMonotone(x: int, y: int, k: int)
    requires x <= y && k > 0
    ensures x * k <= y * k
  {
    assert y * k - x * k == (y - x) * k;
  }

  /** 23 rows at 10 per page need 3 pages; no rows need none. */
  lemma TotalPagesExamples()
    ensures TotalPages(23, 10) == 3 && TotalPages(20, 10) == 2 && TotalPages(0, 10) == 0
  {
  }

  /** How `slice` reads one of its bounds: a negative bound counts from the
      end, and either kind is clamped to the sequence. */
  function SliceIndex(len: nat, x: int): (r: nat)
    ensures r <= len
    ensures 0 <= x <= len ==> r == x
  {
    if x < 0 then (if len + x < 0 then 0 else len + x)
    else if x > len then len else x
  }

  /** `s.slice(start, end)`. */
  function JsSlice<T>(s: seq<T>, start: int, end: int): seq<T>
  {
    var from, to := SliceIndex(|s|, start), SliceIndex(|s|, end);
    if from < to then s[from..to] else []
  }

  /** The first position shown on `page`: `(currentPage - 1) * usersPerPage`. */
  function StartIndex(page: int, perPage: int): int
  {
    (page - 1) * perPage
  }

  /** `displayedUsers`: the slice of the filtered rows from the start index,
      `usersPerPage` long. */
  function Displayed<T>(filtered: seq<T>, page: int, perPage: int): seq<T>
  {
    JsSlice(filtered, StartIndex(page, perPage), StartIndex(page, perPage) + perPage)
  }

  /** On a page numbered from 1, the rows shown are the filtered rows from
      the start index on, at most `perPage` of them, and none exactly when
      the start index is past the last row. */
  lemma DisplayedRows<T>(filtered: seq<T>, page: int, perPage: int)
    requires page >= 1 && perPage > 0
    ensures var r, start := Displayed(filtered, page, perPage), StartIndex(page, perPage);
      |r| == (if start >= |filtered| then 0 else Min(perPage, |filtered| - start)) &&
      (forall k :: 0 <= k < |r| ==> start + k < |filtered| && r[k] == filtered[start + k])
  {
    var start := StartIndex(page, perPage);
    MulMonotone(0, page - 1, perPage);
    SliceFrom(filtered, start, perPage);
  }

  /** A slice from a non-negative start, `len` long. */
  lemma SliceFrom<T>(s: seq<T>, start: int, len: int)
    requires start >= 0 && len > 0
    ensures var r := JsSlice(s, start, start + len);
      |r| == (if start >= |s| then 0 else Min(len, |s| - start)) &&
      (forall k :: 0 <= k < |r| ==> start + k < |s| && r[k] == s[start + k])
  {
  }

  /** Every row is on some page the controls can reach: row `i` is at
      position `i % perPage` of page `i / perPage + 1`, which is at most the
      page count. */
  lemma RowOnItsPage<T>(filtered: seq<T>, perPage: int, i: int)
    requires perPage > 0 && 0 <= i < |filtered|
    ensures var page := i / perPage + 1;
      1 <= page <= TotalPages(|filtered|, perPage) &&
      i % perPage < |Displayed(filtered, page, perPage)| &&
      Displayed(filtered, page, perPage)[i % perPage] == filtered[i]
  {
    var q, page := i / perPage, i / perPage + 1;
    var t := TotalPages(|filtered|, perPage);
    var k := i % perPage;
    assert i == q * perPage + k;
    if q >= t {
      MulMonotone(t, q, perPage);
      assert false;
    }
    assert StartIndex(page, perPage) == q * perPage;
    DisplayedRows(filtered, page, perPage);
    assert q * perPage + k < |filtered|;
  }

  /** Pages past the filtered rows' own page count are empty. The count the
      buttons use comes from all the records, so after a search narrows the
      rows such pages can be reached. */
  lemma PagesPastTheRowsAreEmpty<T>(filtered: seq<T>, page: int, perPage: int)
    requires perPage > 0 && page > TotalPages(|filtered|, perPage)
    ensures Displayed(filtered, page, perPage) == []
  {
    var t := TotalPages(|filtered|, perPage);
    MulMonotone(t, page - 1, perPage);
  }

  /** 23 rows at 10 per page: three pages, the third showing the last
      three rows, and a fourth page showing nothing. */
  lemma PagingExample<T>(filtered: seq<T>)
    requires |filtered| == 23
    ensures TotalPages(|filtered|, 10) == 3
    ensures Displayed(filtered, 3, 10) == filtered[20..]
    ensures Displayed(filtered, 4, 10) == []
  {
    TotalPagesExamples();
  }

  /** A negative page, reachable with no records through the "0" button
      and then "Previous": both bounds count from the end, so once enough
      records arrive it shows rows from the end of the list. */
  lemma NegativePageCountsFromEnd<T>(filtered: seq<T>, page: int, perPage: int)
    requires page < 0 && perPage > 0 && |filtered| + StartIndex(page, perPage) >= 0
    ensures var start := |filtered| + StartIndex(page, perPage);
      start + perPage <= |filtered| &&
      Displayed(filtered, page, perPage) == filtered[start..start + perPage]
  {
    MulMonotone(page - 1, -1, perPage);
  }

  /** 25 rows at 10 a page: page -1 shows rows 5 to 14. */
  lemma NegativePageExample<T>(filtered: seq<T>)
    requires |filtered| == 25
    ensures Displayed(filtered, -1, 10) == filtered[5..15]
  {
    NegativePageCountsFromEnd(filtered, -1, 10);
  }

  /** Page 0, reachable through the last-page button when there are no
      records, shows nothing. */
  lemma PageZeroIsEmpty<T>(filtered: seq<T>, perPage: int)
    requires perPage > 0
    ensures Displayed(filtered, 0, perPage) == []
  {
  }

  /** The page numbers from `lo` to `hi`, pushed one by one: they are the
      consecutive integers between the two. */
  function PageRange(lo: int, hi: int): (r: seq<int>)
    ensures |r| == (if lo <= hi then hi - lo + 1 else 0)
    ensures forall k :: 0 <= k < |r| ==> r[k] == lo + k
    decreases hi - lo
  {
    if lo > hi then [] else PageRange(lo, hi - 1) + [hi]
  }

  /** The pages `generatePageNumbers` lists: from `cur - maxPages/2` (at
      least 1) to `cur + maxPages/2` (at most `total`). Dafny's `/` rounds
      down for a positive divisor, as `Math.floor` does. */
  function Window(cur: int, total: int, maxPages: int): seq<int>
  {
    var half := maxPages / 2;
    PageRange(Max(cur - half, 1), Min(cur + half, total))
  }

  /** `generatePageNumbers`: pushes the page numbers from the start page to
      the end page. */
  method GeneratePageNumbers(currentPage: int, totalPages: int, maxPages: int) returns (pageNumbers: seq<int>)
    ensures pageNumbers == Window(currentPage, totalPages, maxPages)
  {
    var halfMaxPages := maxPages / 2;
    var startPage := Max(currentPage - halfMaxPages, 1);
    var endPage := Min(currentPage + halfMaxPages, totalPages);
    pageNumbers := [];
    var i := startPage;
    while i <= endPage
      invariant startPage <= i <= Max(endPage + 1, startPage)
      invariant pageNumbers == PageRange(startPage, i - 1)
      decreases endPage - i
    {
      pageNumbers := pageNumbers + [i];
      i := i + 1;
    }
  }

  /** A page is listed exactly when it lies within `maxPages/2` of the
      current page and between 1 and the page count; the list ascends in
      steps of one. */
  lemma WindowMembers(cur: int, total: int, maxPages: int)
    ensures var w, half := Window(cur, total, maxPages), maxPages / 2;
      (forall p :: p in w <==> 1 <= p <= total && cur - half <= p <= cur + half) &&
      (forall k :: 0 < k < |w| ==> w[k] == w[k - 1] + 1)
  {
    var w, half := Window(cur, total, maxPages), maxPages / 2;
    var lo := Max(cur - half, 1);
    forall p ensures p in w <==> 1 <= p <= total && cur - half <= p <= cur + half {
      if 1 <= p <= total && cur - half <= p <= cur + half {
        assert w[p - lo] == p;
      }
    }
  }

  /** At most `maxPages` buttons for an odd `maxPages` (five for the table),
      and the current page among them whenever it is a real page. */
  lemma WindowSize(cur: int, total: int, maxPages: int)
    requires maxPages >= 0
    ensures |Window(cur, total, maxPages)| <= 2 * (maxPages / 2) + 1
    ensures 1 <= cur <= total ==> cur in Window(cur, total, maxPages)
  {
    WindowMembers(cur, total, maxPages);
  }

  /** Page 7 of 20 lists pages 5 to 9; page 1 of 3 lists all three; with
      no pages nothing is listed. */
  lemma WindowExamples()
    ensures Window(7, 20, 5) == [5, 6, 7, 8, 9]
    ensures Window(1, 3, 5) == [1, 2, 3]
    ensures Window(1, 0, 5) == []
  {
  }

  /** What the footer shows around the page buttons: a button for page 1
      and a gap after it, the page buttons, and a gap and a button for the
      last page. */
  datatype Controls = Controls(first: bool, leadingGap: bool, pages: seq<int>, trailingGap: bool, last: bool)

  /** The footer for the current page and page count, with five page
      buttons: page 1 is offered when the window lacks it, a gap follows it
      when the window lacks page 2 too; symmetrically at the end. */
  function PageControls(cur: int, total: int): Controls
  {
    var w := Window(cur, total, 5);
    Controls(1 !in w, 1 !in w && 2 !in w, w, total !in w && total - 1 !in w, total !in w)
  }

  /** On a real page, the first-page button appears beyond page 3 and its
      gap beyond page 4; the last-page button appears more than two pages
      before the end and its gap more than three pages before. */
  lemma ControlsOnARealPage(cur: int, total: int)
    requires 1 <= cur <= total
    ensures var c := PageControls(cur, total);
      (c.first <==> cur > 3) && (c.leadingGap <==> cur > 4) &&
      (c.last <==> cur < total - 2) && (c.trailingGap <==> cur < total - 3)
  {
    WindowMembers(cur, total, 5);
  }

  /** On a page more than two past the page count, which a shorter list of
      records can leave current, no page button is listed and the footer
      shows only the "1" and last-page buttons with both gaps. */
  lemma ControlsOnAStalePage(cur: int, total: int)
    requires cur > total + 2
    ensures PageControls(cur, total) == Controls(true, true, [], true, true)
  {
    assert Window(cur, total, 5) == [];
  }

  /** With no records there are no page buttons, and the footer still
      shows "1 … … 0". */
  lemma ControlsWithoutPages(cur: int)
    ensures PageControls(cur, 0) == Controls(true, true, [], true, true)
  {
  }
}
