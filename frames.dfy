/** The in-memory table (a pandas DataFrame with its row labels) and the
    read accessors a Qt table view calls on it: the numbers of rows and
    columns, the text of a cell and the header labels. */
module Frames {
  import opened Values

  datatype Option<T> = None | Some(value: T)

  /** The result of an accessor: a value, or Python's IndexError. */
  datatype Outcome<T> = Returned(value: T) | IndexError

  /** A row keeps the label it had in the file (its index label) next to its cells. */
  datatype Row = Row(index: nat, cells: seq<Cell>)

  /** A table: named columns and labelled rows. */
  datatype Frame = Frame(columns: seq<string>, rows: seq<Row>)

  /** Every row has one cell per column and the column names are distinct
      (the file reader renames repeated header names). */
  ghost predicate WellFormed(f: Frame)
  {
    && (forall r :: r in f.rows ==> |r.cells| == |f.columns|)
    && (forall i, j :: 0 <= i < j < |f.columns| ==> f.columns[i] != f.columns[j])
  }

  /** Row labels strictly increase down the table, as the file reader numbers them. */
  ghost predicate LabelsIncreasing(rows: seq<Row>)
  {
    forall i, j :: 0 <= i < j < |rows| ==> rows[i].index < rows[j].index
  }

  /** Python's position lookup in a sequence of length n: a negative position
      counts from the end, anything else out of range is an IndexError (None). */
  function PyIndex(i: int, n: nat): (r: Option<nat>)
    ensures r.Some? <==> 0 <= i + n && i < n
    ensures r.Some? ==> r.value < n && (if i < 0 then r.value == i + n else r.value == i)
  {
    if 0 <= i < n then Some(i) else if 0 <= i + n && i < 0 then Some(i + n) else None
  }

  /** Qt's ItemDataRole.DisplayRole; every other role gets no data. */
  const DisplayRole: int := 0

  datatype Orientation = Horizontal | Vertical

  /** The number of rows: a view may ask for the header of exactly the
      positions below it (or, Python style, that far back from the end). */
  function RowCount(f: Frame): (r: nat)
    ensures forall i: int :: HeaderData(f, i, Vertical, DisplayRole).Returned? <==> 0 <= i + r && i < r
  {
    |f.rows|
  }

  /** The number of columns, with the same reading across the top. */
  function ColumnCount(f: Frame): (r: nat)
    ensures forall i: int :: HeaderData(f, i, Horizontal, DisplayRole).Returned? <==> 0 <= i + r && i < r
  {
    |f.columns|
  }

  /** The text shown at (row, column): the string form of that cell for the
      display role, nothing for any other role, IndexError when a position
      is out of range. */
  function Data(f: Frame, row: int, column: int, role: int): (r: Outcome<Option<string>>)
    requires WellFormed(f)
    ensures role != DisplayRole ==> r == Returned(None)
    ensures role == DisplayRole ==>
      (r.IndexError? <==> PyIndex(row, |f.rows|).None? || PyIndex(column, |f.columns|).None?)
    ensures role == DisplayRole && PyIndex(row, |f.rows|).Some? && PyIndex(column, |f.columns|).Some? ==>
      r == Returned(Some(CellText(f.rows[PyIndex(row, |f.rows|).value].cells[PyIndex(column, |f.columns|).value])))
    ensures role == DisplayRole && r.Returned? ==>
      exists k, c :: 0 <= k < |f.rows| && 0 <= c < |f.columns| && r.value == Some(CellText(f.rows[k].cells[c]))
  {
    if role != DisplayRole then Returned(None)
    else
      match (PyIndex(row, |f.rows|), PyIndex(column, |f.columns|))
      case (Some(k), Some(c)) =>
        assert f.rows[k] in f.rows;
        Returned(Some(CellText(f.rows[k].cells[c])))
      case _ => IndexError
  }

  /** Header labels for the display role: the column name across the top, and
      down the side the original label of the row shown there (not its
      position); nothing for any other role; IndexError out of range. */
  function HeaderData(f: Frame, section: int, orientation: Orientation, role: int): (r: Outcome<Option<string>>)
    ensures role != DisplayRole ==> r == Returned(None)
    ensures role == DisplayRole && orientation == Horizontal ==>
      (r.IndexError? <==> PyIndex(section, |f.columns|).None?)
    ensures role == DisplayRole && orientation == Vertical ==>
      (r.IndexError? <==> PyIndex(section, |f.rows|).None?)
    ensures role == DisplayRole && orientation == Horizontal && PyIndex(section, |f.columns|).Some? ==>
      r == Returned(Some(f.columns[PyIndex(section, |f.columns|).value]))
    ensures role == DisplayRole && orientation == Vertical && PyIndex(section, |f.rows|).Some? ==>
      r == Returned(Some(NatDecimal(f.rows[PyIndex(section, |f.rows|).value].index)))
  {
    if role != DisplayRole then Returned(None)
    else if orientation == Horizontal then
      match PyIndex(section, |f.columns|)
      case Some(c) => Returned(Some(f.columns[c]))
      case None => IndexError
    else
      match PyIndex(section, |f.rows|)
      case Some(k) => Returned(Some(NatDecimal(f.rows[k].index)))
      case None => IndexError
  }

  /** Two display rows with different labels get different vertical headers,
      so a header always identifies the original row. */
  lemma VerticalHeadersDistinct(f: Frame, i: nat, j: nat)
    requires i < |f.rows| && j < |f.rows| && f.rows[i].index != f.rows[j].index
    ensures HeaderData(f, i, Vertical, DisplayRole) != HeaderData(f, j, Vertical, DisplayRole)
  {
    if NatDecimal(f.rows[i].index) == NatDecimal(f.rows[j].index) {
      NatDecimalInjective(f.rows[i].index, f.rows[j].index);
    }
  }

  /** Down the side, the header at any valid position reads, as a decimal
      number, as the label of the row shown there. */
  lemma VerticalHeaderReadsAsLabel(f: Frame, section: int)
    requires PyIndex(section, |f.rows|).Some?
    ensures var h := HeaderData(f, section, Vertical, DisplayRole);
      && h.Returned? && h.value.Some?
      && (forall k :: 0 <= k < |h.value.value| ==> '0' <= h.value.value[k] <= '9')
      && DecimalValue(h.value.value) == f.rows[PyIndex(section, |f.rows|).value].index
  {
    NatDecimalValue(f.rows[PyIndex(section, |f.rows|).value].index);
  }
}
