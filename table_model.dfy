/** The table-view adapter (`PandasModel`) that the movies, movies_uncolored
    and full_page programs each define, identically: it keeps the cleaned
    table it was built with, shows a current view of its rows, reorders the
    view by a column and rebuilds it from the whole table by a search. */
module TableModel {
  import opened Values
  import opened Frames
  import opened Selection
  import opened Sorting

  /** Qt's SortOrder. */
  datatype SortOrder = AscendingOrder | DescendingOrder

  /** A change notification the adapter emits to the attached views, with
      the rows shown at the moment it is emitted. */
  datatype Notice = LayoutAboutToBeChanged(shown: seq<Row>) | LayoutChanged(shown: seq<Row>)

  /** How a mutator call ended: normally, or by raising IndexError. */
  datatype Status = Done | RaisedIndexError

  class PandasModel {
    /** `_original_data`: the table the model was built with. */
    const original: Frame
    /** `_data`: the rows currently shown, top to bottom. */
    var view: seq<Row>
    /** Every notification emitted so far, oldest first. */
    var notices: seq<Notice>

    /** The view only ever holds rows of the original table (each at most as
        often as there), and the last notification describes the view. */
    ghost predicate Valid()
      reads this
    {
      && WellFormed(original)
      && multiset(view) <= multiset(original.rows)
      && (forall r :: r in view ==> r in original.rows)
      && (notices != [] ==> notices[|notices| - 1].shown == view)
    }

    /** A fresh model shows the whole table, in its order, and has emitted nothing. */
    constructor(data: Frame)
      requires WellFormed(data)
      ensures Valid()
      ensures original == data && view == data.rows && notices == []
    {
      original := data;
      view := data.rows;
      notices := [];
    }

    /** The table as the views see it: all columns, the rows of the view. */
    function Current(): Frame
      reads this
    {
      Frame(original.columns, view)
    }

    lemma CurrentWellFormed()
      requires Valid()
      ensures WellFormed(Current())
    {
    }

    /** `rowCount`: the number of rows shown, never more than the table has. */
    function RowCount(): (r: nat)
      reads this
      requires Valid()
      ensures r == |view|
      ensures r <= |original.rows|
    {
      assert |multiset(view)| <= |multiset(original.rows)| by {
        MultisetSubsetSize(multiset(view), multiset(original.rows));
      }
      Frames.RowCount(Current())
    }

    /** `columnCount`: the number of columns of the table; searches and sorts
        never change it. */
    function ColumnCount(): (r: nat)
      reads this
      ensures r == |original.columns|
    {
      Frames.ColumnCount(Current())
    }

    /** `data`: the string form of the cell at (row, column) of the view for
        the display role, nothing for other roles, IndexError out of range. */
    function Data(row: int, column: int, role: int): (r: Outcome<Option<string>>)
      reads this
      requires Valid()
      ensures role != DisplayRole ==> r == Returned(None)
      ensures role == DisplayRole ==>
        (r.IndexError? <==> PyIndex(row, |view|).None? || PyIndex(column, |original.columns|).None?)
      ensures role == DisplayRole && PyIndex(row, |view|).Some? && PyIndex(column, |original.columns|).Some? ==>
        var k, c := PyIndex(row, |view|).value, PyIndex(column, |original.columns|).value;
        |view[k].cells| == |original.columns| && r == Returned(Some(CellText(view[k].cells[c])))
    {
      CurrentWellFormed();
      assert PyIndex(row, |view|).Some? ==> view[PyIndex(row, |view|).value] in original.rows;
      Frames.Data(Current(), row, column, role)
    }

    /** `headerData`: the column name across the top; down the side, the
        original label of the row shown at that position, not the position. */
    function HeaderData(section: int, orientation: Orientation, role: int): (r: Outcome<Option<string>>)
      reads this
      ensures role != DisplayRole ==> r == Returned(None)
      ensures role == DisplayRole && orientation == Horizontal ==>
        (r.IndexError? <==> PyIndex(section, |original.columns|).None?)
      ensures role == DisplayRole && orientation == Vertical ==>
        (r.IndexError? <==> PyIndex(section, |view|).None?)
      ensures role == DisplayRole && orientation == Horizontal && PyIndex(section, |original.columns|).Some? ==>
        r == Returned(Some(original.columns[PyIndex(section, |original.columns|).value]))
      ensures role == DisplayRole && orientation == Vertical && PyIndex(section, |view|).Some? ==>
        r == Returned(Some(NatDecimal(view[PyIndex(section, |view|).value].index)))
    {
      Frames.HeaderData(Current(), section, orientation, role)
    }

    /** `sort`: announce the change, look the column up by position (Python
        indexing; an IndexError leaves the view as it was, with the
        announcement unanswered), reorder the view by it and announce the
        end of the change. The rows are the same, and ordered. */
    method Sort(column: int, order: SortOrder) returns (status: Status)
      requires Valid()
      modifies this
      ensures Valid()
      ensures PyIndex(column, |original.columns|).None? ==>
        && status == RaisedIndexError
        && view == old(view)
        && notices == old(notices) + [LayoutAboutToBeChanged(old(view))]
      ensures PyIndex(column, |original.columns|).Some? ==>
        var c := PyIndex(column, |original.columns|).value;
        && status == Done
        && view == SortRows(old(view), c, order == AscendingOrder)
        && multiset(view) == multiset(old(view))
        && SortedOn(view, c, order == AscendingOrder)
        && notices == old(notices) + [LayoutAboutToBeChanged(old(view)), LayoutChanged(view)]
    {
      notices := notices + [LayoutAboutToBeChanged(view)];
      var c := PyIndex(column, |original.columns|);
      if c.None? {
        return RaisedIndexError;
      }
      var before := view;
      view := SortRows(view, c.value, order == AscendingOrder);
      forall r | r in view ensures r in original.rows {
        assert r in multiset(before);
      }
      notices := notices + [LayoutChanged(view)];
      status := Done;
    }

    /** `filter`: announce the change; an empty query shows the whole table
        again; otherwise look the column up by position (an IndexError leaves
        the view as it was) and show the rows of the whole table, in table
        order, whose text in that column contains the query regardless of
        case; announce the end of the change. The view before the call plays
        no part in the result. */
    method Filter(column: int, query: string) returns (status: Status)
      requires Valid()
      modifies this
      ensures Valid()
      ensures query == [] ==>
        && status == Done
        && view == original.rows
        && notices == old(notices) + [LayoutAboutToBeChanged(old(view)), LayoutChanged(view)]
      ensures query != [] && PyIndex(column, |original.columns|).None? ==>
        && status == RaisedIndexError
        && view == old(view)
        && notices == old(notices) + [LayoutAboutToBeChanged(old(view))]
      ensures query != [] && PyIndex(column, |original.columns|).Some? ==>
        && status == Done
        && view == FilterRows(original.rows, PyIndex(column, |original.columns|).value, query)
        && notices == old(notices) + [LayoutAboutToBeChanged(old(view)), LayoutChanged(view)]
    {
      notices := notices + [LayoutAboutToBeChanged(view)];
      if query == [] {
        view := original.rows;
      } else {
        var c := PyIndex(column, |original.columns|);
        if c.None? {
          return RaisedIndexError;
        }
        view := FilterRows(original.rows, c.value, query);
      }
      notices := notices + [LayoutChanged(view)];
      status := Done;
    }
  }

  lemma MultisetSubsetSize<T>(a: multiset<T>, b: multiset<T>)
    requires a <= b
    ensures |a| <= |b|
  {
    assert b == a + (b - a);
  }

  /** The view a search leaves in a fresh model. */
  function SearchResult(data: Frame, column: nat, query: string): seq<Row>
  {
    if query == [] then data.rows else FilterRows(data.rows, column, query)
  }

  /** A search forgets what came before: searching one column, sorting, then
      searching again shows the same rows, in the same order, as that last
      search on a model that was just built. Holds whenever the last search
      does not raise, i.e. its query is empty or its column exists. */
  method SearchIgnoresHistory(data: Frame, firstColumn: int, firstQuery: string,
                              sortColumn: int, order: SortOrder, column: int, query: string)
    returns (afterHistory: seq<Row>, afterFresh: seq<Row>)
    requires WellFormed(data)
    requires query == [] || PyIndex(column, |data.columns|).Some?
    ensures afterHistory == afterFresh
    ensures query == [] ==> afterHistory == data.rows
    ensures query != [] ==> afterHistory == FilterRows(data.rows, PyIndex(column, |data.columns|).value, query)
  {
    var m := new PandasModel(data);
    var s1 := m.Filter(firstColumn, firstQuery);
    var s2 := m.Sort(sortColumn, order);
    var s3 := m.Filter(column, query);
    afterHistory := m.view;
    var n := new PandasModel(data);
    var s4 := n.Filter(column, query);
    afterFresh := n.view;
  }

  /** Sorting keeps a search: after a search and a sort, the view holds
      exactly the rows the search found, ordered by the sort column. */
  method SortKeepsSearch(data: Frame, column: nat, query: string, sortColumn: nat, order: SortOrder)
    returns (shown: seq<Row>)
    requires WellFormed(data)
    requires column < |data.columns| && sortColumn < |data.columns|
    ensures multiset(shown) == multiset(SearchResult(data, column, query))
    ensures SortedOn(shown, sortColumn, order == AscendingOrder)
  {
    var m := new PandasModel(data);
    var s1 := m.Filter(column, query);
    var s2 := m.Sort(sortColumn, order);
    shown := m.view;
  }
}
