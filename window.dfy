/** The part of the main window (`App`) that drives the table adapter: it
    builds a fresh adapter over the cleaned table each time the table is
    shown, and forwards header clicks and search-box edits to it. */
module Window {
  import opened Frames
  import opened TableModel

  class App {
    /** The cleaned table, loaded once at start-up. */
    const data: Frame
    /** The adapter the table view is attached to. */
    var model: PandasModel

    ghost predicate Valid()
      reads this, model
    {
      model.Valid() && model.original == data
    }

    /** The window shows the table as soon as it is built. */
    constructor(data: Frame)
      requires WellFormed(data)
      ensures Valid()
      ensures this.data == data && model.view == data.rows && model.notices == []
    {
      this.data := data;
      model := new PandasModel(data);
    }

    /** Showing the table (again) attaches a new adapter: whatever searches
        and sorts were applied before, the whole cleaned table is shown in
        its order. */
    method ViewDataframe()
      requires Valid()
      modifies this
      ensures Valid()
      ensures fresh(model) && model.view == data.rows && model.notices == []
    {
      model := new PandasModel(data);
    }

    /** A click on a column header sorts the adapter by that column. */
    method HandleColumnClick(index: int, order: SortOrder) returns (status: Status)
      requires Valid()
      modifies model
      ensures Valid()
      ensures status == RaisedIndexError <==> PyIndex(index, |data.columns|).None?
      ensures status == Done ==>
        model.view == Sorting.SortRows(old(model.view), PyIndex(index, |data.columns|).value, order == AscendingOrder)
      ensures status == RaisedIndexError ==> model.view == old(model.view)
      ensures status == Done ==>
        model.notices == old(model.notices) + [LayoutAboutToBeChanged(old(model.view)), LayoutChanged(model.view)]
      ensures status == RaisedIndexError ==>
        model.notices == old(model.notices) + [LayoutAboutToBeChanged(old(model.view))]
    {
      status := model.Sort(index, order);
    }

    /** An edit of the search box under column `column` searches that column
        for the box's text. The boxes are made one per column, numbered from
        0, so a search from a box never raises. */
    method HandleSearch(text: string, column: int) returns (status: Status)
      requires Valid()
      modifies model
      ensures Valid()
      ensures status == Done <==> text == [] || PyIndex(column, |data.columns|).Some?
      ensures 0 <= column < |data.columns| ==> status == Done
      ensures text == [] ==> model.view == data.rows
      ensures status == Done && text != [] ==>
        model.view == Selection.FilterRows(data.rows, PyIndex(column, |data.columns|).value, text)
      ensures status == RaisedIndexError ==> model.view == old(model.view)
      ensures status == Done ==>
        model.notices == old(model.notices) + [LayoutAboutToBeChanged(old(model.view)), LayoutChanged(model.view)]
      ensures status == RaisedIndexError ==>
        model.notices == old(model.notices) + [LayoutAboutToBeChanged(old(model.view))]
    {
      status := model.Filter(column, text);
    }
  }
}
