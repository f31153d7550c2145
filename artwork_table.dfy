/** The state of the artwork table component and its event handlers. React's state cells
    become fields; each handler is a method that says exactly what its new state is. */
module ArtworkTable {
  import opened Wrappers
  import opened Selection
  import opened Paging
  import opened BulkSelect

  class SelectionAccumulator {
    /** The visible 1-based page. */
    var page: int
    /** The ids of the artworks of the visible page, in row order. */
    var artworks: seq<Id>
    /** The selected-rows map, kept across pages. */
    var selectedRows: SelectedRows
    /** The number typed into the bulk-selection popover. */
    var rowsToSelect: int

    /** The component on mount: page 1, nothing loaded, nothing selected, no rows requested. */
    constructor ()
      ensures page == 1 && artworks == [] && selectedRows == map[] && rowsToSelect == 0
    {
      page := 1;
      artworks := [];
      selectedRows := map[];
      rowsToSelect := 0;
    }

    /** The result of fetching the visible page: its rows on success, the old rows on failure. */
    method ReceiveArtworks(response: Option<seq<Id>>)
      modifies this
      ensures artworks == (if response.Some? then response.value else old(artworks))
      ensures page == old(page) && selectedRows == old(selectedRows)
      ensures rowsToSelect == old(rowsToSelect)
    {
      if response.Some? {
        artworks := response.value;
      }
    }

    /** The checkbox of one row changed by hand. */
    method HandleRowSelect(id: Id, selected: bool)
      modifies this
      ensures selectedRows == Toggle(old(selectedRows), id, selected)
      ensures page == old(page) && artworks == old(artworks) && rowsToSelect == old(rowsToSelect)
    {
      selectedRows := Toggle(selectedRows, id, selected);
    }

    /** The table reported a selection change. */
    method OnSelectionChange(change: SelectedRows)
      modifies this
      ensures selectedRows == Merge(old(selectedRows), change)
      ensures page == old(page) && artworks == old(artworks) && rowsToSelect == old(rowsToSelect)
    {
      selectedRows := Merge(selectedRows, change);
    }

    /** The table moved to another page; the selection is not touched. */
    method OnPageChange(eventPage: Option<int>)
      modifies this
      ensures page == PageAfterChange(eventPage)
      ensures FirstOffset(page) == eventPage.GetOr(0) * RowsPerPage
      ensures selectedRows == old(selectedRows) && artworks == old(artworks)
      ensures rowsToSelect == old(rowsToSelect)
    {
      PageChangeOffset(eventPage);
      page := PageAfterChange(eventPage);
    }

    /** The number input of the popover changed; an empty input counts as 0. */
    method SetRowsToSelect(value: Option<int>)
      modifies this
      ensures rowsToSelect == value.GetOr(0)
      ensures page == old(page) && artworks == old(artworks) && selectedRows == old(selectedRows)
    {
      rowsToSelect := value.GetOr(0);
    }

    /** Bulk selection of `rowsToSelect` rows from the visible page on. `later[k]` answers the
        request for page `page + 1 + k`; any later request fails. `requested` lists the pages
        asked for, in order. The map is committed only when the budget is used up; after a
        failed fetch it is exactly as before. The visible page never changes. */
    method HandleSelectRows(later: seq<seq<Id>>) returns (committed: bool, requested: seq<int>)
      modifies this
      ensures var o := Bulk(old(selectedRows), old(rowsToSelect), old(artworks), later);
              && committed == o.Committed?
              && selectedRows == (if committed then o.selection else old(selectedRows))
              && |requested| == o.fetches
      ensures forall i :: 0 <= i < |requested| ==> requested[i] == old(page) + 1 + i
      ensures page == old(page) && artworks == old(artworks) && rowsToSelect == old(rowsToSelect)
    {
      var remaining := rowsToSelect;
      var newSelections := selectedRows;
      newSelections, remaining := ScanRows(newSelections, remaining, artworks);
      ghost var start := Walk(newSelections, remaining);

      var currentPage := page;
      requested := [];
      while remaining > 0
        invariant unchanged(this)
        invariant page <= currentPage <= page + |later|
        invariant Continue(Walk(newSelections, remaining), later, currentPage - page) == Continue(start, later, 0)
        invariant |requested| == currentPage - page
        invariant forall i :: 0 <= i < |requested| ==> requested[i] == page + 1 + i
        decreases |later| - (currentPage - page)
      {
        currentPage := currentPage + 1;
        requested := requested + [currentPage];
        var response := FetchPage(later, page, currentPage);
        if response.None? {
          committed := false;
          return;
        }
        newSelections, remaining := ScanRows(newSelections, remaining, response.value);
      }

      selectedRows := newSelections;
      committed := true;
    }
  }
}
