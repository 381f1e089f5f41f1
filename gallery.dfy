/** The app component's state and its event handlers: the current page, its rows,
    the persistent selection sets and the bulk-selection input. Each handler works
    on copies of the two sets and commits both at the end, so it is one atomic
    transition here. */
module Gallery {
  import opened Wrappers
  import opened Paging
  import opened Selection

  class App {
    var artworks: seq<Artwork>
    var page: int
    var selectedIds: set<int>
    var deselectedIds: set<int>
    var inputCount: Option<int>

    /** The initial state: no rows, page 1, nothing selected, no count entered. */
    constructor ()
      ensures artworks == [] && page == 1
      ensures selectedIds == {} && deselectedIds == {}
      ensures inputCount == None
    {
      artworks := [];
      page := 1;
      selectedIds := {};
      deselectedIds := {};
      inputCount := None;
    }

    function CurrentMarks(): Marks
      reads this
    {
      Marks(selectedIds, deselectedIds)
    }

    /** The rows the table shows as checked on the current page. */
    function SelectedRowsOnPage(): seq<Artwork>
      reads this
    {
      EffectiveSelection(artworks, CurrentMarks())
    }

    /** The offset of the current page's first row. */
    function First(): int
      reads this
    {
      FirstRowOffset(page)
    }

    /** The widget reports a page change with its 0-based page index. */
    method OnPage(index: Option<int>)
      modifies this`page
      ensures page == PageOfIndex(index)
      ensures index.Some? && index.value >= 0 ==> First() == index.value * RowsPerPage
    {
      page := (if index.Some? then index.value else 0) + 1;
    }

    /** The table reports `value` as the chosen rows of the current page. */
    method OnSelectionChange(value: seq<Artwork>)
      modifies this`selectedIds, this`deselectedIds
      ensures CurrentMarks() == SelectionChange(old(CurrentMarks()), artworks, value)
      ensures SelectedRowsOnPage() == EffectiveSelection(artworks, Marks(Ids(value), {}))
    {
      var selected, deselected := selectedIds, deselectedIds;
      var newSelected := selected;
      var newDeselected := deselected;

      // add the chosen rows
      var i := 0;
      while i < |value|
        invariant 0 <= i <= |value|
        invariant newSelected == selected + Ids(value[..i])
        invariant newDeselected == deselected - Ids(value[..i])
      {
        IdsOfPrefix(value, i);
        newSelected := newSelected + {value[i].id};
        newDeselected := newDeselected - {value[i].id};
        i := i + 1;
      }
      IdsOfWhole(value);

      // record opt-outs of page rows that were selected and are no longer chosen
      var j := 0;
      while j < |artworks|
        invariant 0 <= j <= |artworks|
        invariant newSelected == selected + Ids(value)
        invariant newDeselected == (deselected - Ids(value)) + Dropped(artworks[..j], selected, value)
      {
        DroppedOfPrefix(artworks, selected, value, j);
        var row := artworks[j];
        var stillSelected := row.id in Ids(value);
        if !stillSelected && row.id in selected {
          newDeselected := newDeselected + {row.id};
        }
        j := j + 1;
      }
      DroppedOfWhole(artworks, selected, value);

      selectedIds := newSelected;
      deselectedIds := newDeselected;
      SelectionChangeShowsChoice(old(CurrentMarks()), artworks, value);
    }

    /** Replaces the current page's selection with its first `inputCount` rows. */
    method HandleCustomSelection()
      modifies this`selectedIds, this`deselectedIds, this`inputCount
      // an absent, zero or negative count changes nothing
      ensures old(inputCount).None? || old(inputCount).value <= 0 ==>
                CurrentMarks() == old(CurrentMarks()) && inputCount == old(inputCount)
      // otherwise the page's marks are replaced and the input is cleared
      ensures old(inputCount).Some? && old(inputCount).value > 0 ==>
                CurrentMarks() == BulkSelect(old(CurrentMarks()), artworks, ClampedLimit(old(inputCount).value, |artworks|))
                && inputCount == None
      ensures old(inputCount).Some? && old(inputCount).value > 0 && UniqueIds(artworks) ==>
                SelectedRowsOnPage() == artworks[..ClampedLimit(old(inputCount).value, |artworks|)]
    {
      if inputCount.None? || inputCount.value <= 0 {
        return;
      }

      var limit := ClampedLimit(inputCount.value, |artworks|);
      var selected, deselected := selectedIds, deselectedIds;
      var newSelected := selected;
      var newDeselected := deselected;

      // clear the current page from both sets
      var j := 0;
      while j < |artworks|
        invariant 0 <= j <= |artworks|
        invariant newSelected == selected - Ids(artworks[..j])
        invariant newDeselected == deselected - Ids(artworks[..j])
      {
        IdsOfPrefix(artworks, j);
        newSelected := newSelected - {artworks[j].id};
        newDeselected := newDeselected - {artworks[j].id};
        j := j + 1;
      }
      IdsOfWhole(artworks);

      // select the first `limit` rows
      var i := 0;
      while i < limit
        invariant 0 <= i <= limit
        invariant newSelected == (selected - Ids(artworks)) + Ids(artworks[..limit][..i])
        invariant newDeselected == deselected - Ids(artworks)
      {
        IdsOfPrefix(artworks[..limit], i);
        newSelected := newSelected + {artworks[i].id};
        i := i + 1;
      }
      IdsOfWhole(artworks[..limit]);

      selectedIds := newSelected;
      deselectedIds := newDeselected;
      inputCount := None;
      if UniqueIds(artworks) {
        BulkSelectShowsPrefix(old(CurrentMarks()), artworks, limit);
      }
    }
  }
}
