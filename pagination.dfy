/**
 * Pagination of the filtered records: the page count, the rows of one page,
 * and the page-index arithmetic of the Previous and Next buttons and of the
 * effect that pulls an overshooting page back.
 */
module Pagination {
  import opened ArrayOps

  /** The page sizes the rows-per-page selector offers, and the initial one. */
  const RowsPerPageOptions: seq<nat> := [5, 10, 25, 50]
  const DefaultRowsPerPage: nat := 10

  /** A page size the selector offers; every one of them is positive, so the page count is always defined. */
  predicate AllowedRowsPerPage(n: nat): (allowed: bool)
    ensures allowed ==> n > 0
  {
    n in RowsPerPageOptions
  }

  /** `Math.ceil(count / rowsPerPage)`: the fewest pages of `rowsPerPage` rows that hold `count` rows (0 for none). */
  function TotalPages(count: nat, rowsPerPage: nat): (pages: nat)
    requires rowsPerPage > 0
    ensures pages * rowsPerPage >= count
    ensures (pages - 1) * rowsPerPage < count
  {
    var q := (count + rowsPerPage - 1) / rowsPerPage;
    var m := (count + rowsPerPage - 1) % rowsPerPage;
    assert q * rowsPerPage == count + rowsPerPage - 1 - m;
    assert (q - 1) * rowsPerPage == q * rowsPerPage - rowsPerPage;
    q
  }

  /** The ceiling is the only number of pages that both holds every row and has no spare page. */
  lemma TotalPagesUnique(count: nat, rowsPerPage: nat, pages: nat)
    requires rowsPerPage > 0
    requires pages * rowsPerPage >= count && (pages - 1) * rowsPerPage < count
    ensures pages == TotalPages(count, rowsPerPage)
  {
    var t: int := TotalPages(count, rowsPerPage);
    MulMonotone(pages, t - 1, rowsPerPage);
    MulMonotone(t, pages - 1, rowsPerPage);
  }

  /** One page fewer is `rowsPerPage` rows fewer. */
  lemma MulPred(n: int, k: int)
    ensures (n - 1) * k == n * k - k
  {
  }

  /** Multiplying by a natural number keeps the order. */
  lemma MulMonotone(a: int, b: int, k: nat)
    ensures a <= b ==> a * k <= b * k
  {
  }

  /** The rows page `page` shows: `s.slice((page - 1) * rowsPerPage, page * rowsPerPage)`. */
  function Page<T>(s: seq<T>, page: nat, rowsPerPage: nat): (r: seq<T>)
    requires rowsPerPage > 0
    ensures |r| <= rowsPerPage
  {
    MulPred(page, rowsPerPage);
    Slice(s, (page - 1) * rowsPerPage, page * rowsPerPage)
  }

  /** The smaller of `i` and `len`: where a block ending at `i` stops in a list of `len` rows. */
  function Cap(i: nat, len: nat): nat {
    if i < len then i else len
  }

  /** Page `page` (from 1 on) is the block of rows from `(page - 1) * rowsPerPage` to `page * rowsPerPage`, cut at the end. */
  lemma PageBlock<T>(s: seq<T>, page: nat, rowsPerPage: nat)
    requires rowsPerPage > 0 && page >= 1
    ensures (page - 1) * rowsPerPage >= 0
    ensures Page(s, page, rowsPerPage) == s[Cap((page - 1) * rowsPerPage, |s|)..Cap(page * rowsPerPage, |s|)]
  {
    MulMonotone(0, page - 1, rowsPerPage);
    MulPred(page, rowsPerPage);
    SliceInBounds(s, (page - 1) * rowsPerPage, page * rowsPerPage);
  }

  /** A page in range is the contiguous block of rows starting at `(page - 1) * rowsPerPage`, and it is never empty. */
  lemma PageInRange<T>(s: seq<T>, page: nat, rowsPerPage: nat)
    requires rowsPerPage > 0
    requires 1 <= page <= TotalPages(|s|, rowsPerPage)
    ensures 0 <= (page - 1) * rowsPerPage < |s|
    ensures Page(s, page, rowsPerPage) == s[(page - 1) * rowsPerPage..Cap(page * rowsPerPage, |s|)]
    ensures Page(s, page, rowsPerPage) != []
  {
    var t := TotalPages(|s|, rowsPerPage);
    MulMonotone(page - 1, t - 1, rowsPerPage);
    MulPred(page, rowsPerPage);
    PageBlock(s, page, rowsPerPage);
  }

  /** Page 0 and every page past the last show nothing. */
  lemma PageOutOfRange<T>(s: seq<T>, page: nat, rowsPerPage: nat)
    requires rowsPerPage > 0
    requires page == 0 || page > TotalPages(|s|, rowsPerPage)
    ensures Page(s, page, rowsPerPage) == []
  {
    if page > 0 {
      MulMonotone(TotalPages(|s|, rowsPerPage), page - 1, rowsPerPage);
    }
  }

  /** Pages 1 to `n`, one after another. */
  function Pages<T>(s: seq<T>, rowsPerPage: nat, n: nat): seq<T>
    requires rowsPerPage > 0
  {
    if n == 0 then [] else Pages(s, rowsPerPage, n - 1) + Page(s, n, rowsPerPage)
  }

  /** Two adjacent blocks of a list join into the longer prefix. */
  lemma JoinBlocks<T>(s: seq<T>, a: nat, b: nat)
    requires a <= b <= |s|
    ensures s[..a] + s[a..b] == s[..b]
  {
  }

  /** The first `n` pages together are the first `n * rowsPerPage` rows (or all of them). */
  lemma {:induction false} PagesArePrefix<T>(s: seq<T>, rowsPerPage: nat, n: nat)
    requires rowsPerPage > 0
    ensures Pages(s, rowsPerPage, n) == s[..Cap(n * rowsPerPage, |s|)]
  {
    if n > 0 {
      PagesArePrefix(s, rowsPerPage, n - 1);
      PageBlock(s, n, rowsPerPage);
      JoinBlocks(s, Cap((n - 1) * rowsPerPage, |s|), Cap(n * rowsPerPage, |s|));
    }
  }

  /** Pages 1 to TotalPages together reproduce the rows exactly: nothing lost, nothing repeated, order kept. */
  lemma PagesCoverAll<T>(s: seq<T>, rowsPerPage: nat)
    requires rowsPerPage > 0
    ensures Pages(s, rowsPerPage, TotalPages(|s|, rowsPerPage)) == s
  {
    PagesArePrefix(s, rowsPerPage, TotalPages(|s|, rowsPerPage));
  }

  /** The Previous handler: `Math.max(prev - 1, 1)`. */
  function PreviousPage(page: nat): (p: nat)
    ensures p >= 1
    ensures page > 1 ==> p == page - 1
    ensures page <= 1 ==> p == 1
  {
    if page - 1 > 1 then page - 1 else 1
  }

  /** The Next handler: `Math.min(prev + 1, totalPages)`. */
  function NextPage(page: nat, totalPages: nat): (p: nat)
    ensures p <= totalPages
    ensures page < totalPages ==> p == page + 1
    ensures page >= totalPages ==> p == totalPages
  {
    if page + 1 < totalPages then page + 1 else totalPages
  }

  /** The bounds effect: a page past the last is pulled down to the last; any other page is left alone. */
  function ClampPage(page: nat, totalPages: nat): (p: nat)
    ensures p <= page && p <= totalPages
    ensures page <= totalPages ==> p == page
    ensures page > totalPages ==> p == totalPages
  {
    if page > totalPages then totalPages else page
  }

  /** Where the page index rests once the effects have run: 0 with no pages, otherwise a real page. */
  predicate InRange(page: nat, totalPages: nat) {
    if totalPages == 0 then page == 0 else 1 <= page <= totalPages
  }

  /** The page at rest shows rows exactly when there are rows to show. */
  lemma VisibleIffRows<T>(s: seq<T>, page: nat, rowsPerPage: nat)
    requires rowsPerPage > 0
    requires InRange(page, TotalPages(|s|, rowsPerPage))
    ensures Page(s, page, rowsPerPage) == [] <==> s == []
  {
    if s == [] {
      PageOutOfRange(s, page, rowsPerPage);
    } else {
      PageInRange(s, page, rowsPerPage);
    }
  }

  /** 23 rows at 10 per page: 3 pages; a request for page 4 is pulled back to page 3, which shows rows 21 to 23. */
  lemma TwentyThreeRows<T>(s: seq<T>)
    requires |s| == 23
    ensures TotalPages(|s|, 10) == 3
    ensures ClampPage(4, TotalPages(|s|, 10)) == 3
    ensures Page(s, 3, 10) == s[20..23]
  {
    TotalPagesUnique(23, 10, 3);
    PageInRange(s, 3, 10);
  }

  /** Previous followed by the bounds effect keeps the page at rest: one page back, never below 1, and 0 with no pages. */
  lemma PreviousThenClamp(page: nat, totalPages: nat)
    requires InRange(page, totalPages)
    ensures InRange(ClampPage(PreviousPage(page), totalPages), totalPages)
    ensures totalPages > 0 ==> ClampPage(PreviousPage(page), totalPages) == if page > 1 then page - 1 else 1
    ensures totalPages == 0 ==> ClampPage(PreviousPage(page), totalPages) == 0
  {
  }

  /** Next followed by the bounds effect keeps the page at rest: one page on, never past the last. */
  lemma NextThenClamp(page: nat, totalPages: nat)
    requires InRange(page, totalPages)
    ensures ClampPage(NextPage(page, totalPages), totalPages) == NextPage(page, totalPages)
    ensures InRange(NextPage(page, totalPages), totalPages)
  {
  }

  /** After a reset to page 1, the bounds effect leaves page 1, or 0 when there are no pages. */
  lemma ResetThenClamp(totalPages: nat)
    ensures InRange(ClampPage(1, totalPages), totalPages)
    ensures ClampPage(1, totalPages) == if totalPages == 0 then 0 else 1
  {
  }

  /** The page count depends only on whether there are rows, as far as being zero goes. */
  lemma NoPagesIffNoRows(count: nat, rowsPerPage: nat)
    requires rowsPerPage > 0
    ensures TotalPages(count, rowsPerPage) == 0 <==> count == 0
  {
  }

  /** After a change of page size, the bounds effect brings a resting page to rest again under the new count. */
  lemma ResizeThenClamp(count: nat, oldSize: nat, newSize: nat, page: nat)
    requires oldSize > 0 && newSize > 0
    requires InRange(page, TotalPages(count, oldSize))
    ensures InRange(ClampPage(page, TotalPages(count, newSize)), TotalPages(count, newSize))
  {
    NoPagesIffNoRows(count, oldSize);
    NoPagesIffNoRows(count, newSize);
  }
}
