/**
 * The state of the DataReviewTable component and its transitions. Each
 * `useState` cell is a field; each effect is a method; each user event is a
 * method that updates state as its handler does and then runs the effects
 * that the update triggers, in order, until the component is at rest.
 */
module ReviewTable {
  import opened Wrappers
  import opened Records
  import opened Filtering
  import opened Pagination

  class Table {
    var data: seq<Record>
    var statusFilter: Option<string>
    var nameFilter: string
    var currentPage: nat
    var rowsPerPage: nat
    var filteredData: seq<Record>

    ghost predicate Valid()
      reads this
    {
      AllowedRowsPerPage(rowsPerPage)
    }

    /** At rest: the filtered list is up to date and the page index is 0 with no pages, otherwise a real page. */
    ghost predicate Settled()
      reads this
    {
      Valid() &&
      filteredData == Filter(data, statusFilter, nameFilter) &&
      InRange(currentPage, TotalPages(|filteredData|, rowsPerPage))
    }

    /** `totalPages`, as rendered and as used by Next. */
    function PageCount(): (n: nat)
      reads this
      requires Valid()
      ensures n == 0 <==> filteredData == []
    {
      NoPagesIffNoRows(|filteredData|, rowsPerPage);
      TotalPages(|filteredData|, rowsPerPage)
    }

    /** `paginatedData`: at most one page of rows, and some rows exactly when the filtered list has any. */
    function Visible(): (rows: seq<Record>)
      reads this
      requires Valid()
      ensures |rows| <= rowsPerPage
      ensures Settled() ==> (rows == [] <==> filteredData == [])
    {
      var rows := Page(filteredData, currentPage, rowsPerPage);
      assert Settled() ==> (rows == [] <==> filteredData == []) by {
        if Settled() {
          VisibleIffRows(filteredData, currentPage, rowsPerPage);
        }
      }
      rows
    }

    /**
     * The Previous button is disabled on page 1, where its handler would change
     * nothing. On page 0 of 0 it is enabled, and a click is undone by the bounds
     * effect; on any other page it goes one page back.
     */
    predicate PreviousDisabled(): (disabled: bool)
      reads this
      ensures Settled() && disabled ==> ClampPage(PreviousPage(currentPage), PageCount()) == currentPage
      ensures Settled() && !disabled && PageCount() == 0 ==> ClampPage(PreviousPage(currentPage), PageCount()) == currentPage
      ensures Settled() && !disabled && PageCount() > 0 ==> ClampPage(PreviousPage(currentPage), PageCount()) == currentPage - 1
    {
      currentPage == 1
    }

    /**
     * The Next button is disabled on the last page (and on page 0 of 0): exactly
     * where its handler would change nothing. Enabled, it goes one page on.
     */
    predicate NextDisabled(): (disabled: bool)
      reads this
      requires Valid()
      ensures Settled() ==> (disabled <==> ClampPage(NextPage(currentPage, PageCount()), PageCount()) == currentPage)
      ensures Settled() && !disabled ==> NextPage(currentPage, PageCount()) == currentPage + 1
    {
      currentPage == PageCount()
    }

    /**
     * The component as first rendered: no data, no filters, 10 rows per page,
     * page 1; the mount-time filter effect then resets to page 1 and the bounds
     * effect pulls the page down to 0, since there are no pages yet.
     */
    constructor ()
      ensures Settled()
      ensures data == [] && filteredData == []
      ensures statusFilter == None && nameFilter == ""
      ensures rowsPerPage == DefaultRowsPerPage && currentPage == 0
    {
      data := [];
      statusFilter := None;
      nameFilter := "";
      currentPage := 1;
      rowsPerPage := DefaultRowsPerPage;
      filteredData := data;
      new;
      FilterEffect();
      ClampEffect();
    }

    /** The filter effect: recompute the filtered list from data and both filters, then go to page 1. */
    method FilterEffect()
      modifies this`filteredData, this`currentPage
      ensures filteredData == Filter(data, statusFilter, nameFilter)
      ensures currentPage == 1
    {
      var updatedData := data;
      if StatusActive(statusFilter) {
        updatedData := KeepStatus(updatedData, statusFilter.value);
      }
      if nameFilter != "" {
        updatedData := KeepName(updatedData, nameFilter);
      }
      filteredData := updatedData;
      currentPage := 1;
    }

    /** The bounds effect: a page past the last drops to the last page; otherwise nothing changes. */
    method ClampEffect()
      requires Valid()
      modifies this`currentPage
      ensures currentPage == ClampPage(old(currentPage), PageCount())
    {
      if currentPage > PageCount() {
        currentPage := PageCount();
      }
    }

    /**
     * The fetch completing: data and filteredData take the records, and the
     * filter effect runs on the new data. The fetch runs once, on mount, so it
     * lands on the freshly mounted table, whose data is still empty.
     */
    method Load(records: seq<Record>)
      requires Settled() && data == []
      modifies this
      ensures Settled()
      ensures data == records && filteredData == Filter(records, statusFilter, nameFilter)
      ensures statusFilter == old(statusFilter) && nameFilter == old(nameFilter) && rowsPerPage == old(rowsPerPage)
      ensures currentPage == if filteredData == [] then 0 else 1
    {
      data := records;
      filteredData := records;
      FilterEffect();
      ClampEffect();
      ResetThenClamp(PageCount());
    }

    /**
     * Choosing a status (null for "All"). Setting the value the filter already
     * has re-renders nothing, so the page is not reset in that case.
     */
    method SetStatusFilter(status: Option<string>)
      requires Settled()
      modifies this
      ensures Settled()
      ensures statusFilter == status
      ensures data == old(data) && nameFilter == old(nameFilter) && rowsPerPage == old(rowsPerPage)
      ensures status == old(statusFilter) ==> currentPage == old(currentPage)
      ensures status != old(statusFilter) ==> currentPage == if filteredData == [] then 0 else 1
    {
      if status != statusFilter {
        statusFilter := status;
        FilterEffect();
        ClampEffect();
        ResetThenClamp(PageCount());
      }
    }

    /** Typing in the name box; as for the status, an unchanged value changes nothing. */
    method SetNameFilter(name: string)
      requires Settled()
      modifies this
      ensures Settled()
      ensures nameFilter == name
      ensures data == old(data) && statusFilter == old(statusFilter) && rowsPerPage == old(rowsPerPage)
      ensures name == old(nameFilter) ==> currentPage == old(currentPage)
      ensures name != old(nameFilter) ==> currentPage == if filteredData == [] then 0 else 1
    {
      if name != nameFilter {
        nameFilter := name;
        FilterEffect();
        ClampEffect();
        ResetThenClamp(PageCount());
      }
    }

    /** Picking a page size: the filtered list stays, and the bounds effect pulls the page into the new count. */
    method SetRowsPerPage(size: nat)
      requires Settled() && AllowedRowsPerPage(size)
      modifies this`rowsPerPage, this`currentPage
      ensures Settled()
      ensures rowsPerPage == size
      ensures currentPage == ClampPage(old(currentPage), TotalPages(|filteredData|, size))
    {
      ResizeThenClamp(|filteredData|, rowsPerPage, size, currentPage);
      ghost var page := currentPage;
      rowsPerPage := size;
      ClampEffect();
      assert Valid();
      assert filteredData == Filter(data, statusFilter, nameFilter);
      assert InRange(ClampPage(page, TotalPages(|filteredData|, size)), TotalPages(|filteredData|, size));
      assert currentPage == ClampPage(page, TotalPages(|filteredData|, size));
    }

    /** The Previous button: one page back but not below 1, then the bounds effect. */
    method Previous()
      requires Settled()
      modifies this`currentPage
      ensures Settled()
      ensures currentPage == ClampPage(PreviousPage(old(currentPage)), PageCount())
      ensures PageCount() > 0 ==> currentPage == if old(currentPage) > 1 then old(currentPage) - 1 else 1
      ensures PageCount() == 0 ==> currentPage == 0
    {
      PreviousThenClamp(currentPage, PageCount());
      currentPage := PreviousPage(currentPage);
      ClampEffect();
    }

    /** The Next button: one page on but not past the last, then the bounds effect (which then has nothing to do). */
    method Next()
      requires Settled()
      modifies this`currentPage
      ensures Settled()
      ensures currentPage == NextPage(old(currentPage), PageCount())
    {
      NextThenClamp(currentPage, PageCount());
      currentPage := NextPage(currentPage, PageCount());
      ClampEffect();
    }
  }
}
