/** The old_movies program: it only removes repeats and rows with a missing
    cell (no column is dropped), and its table adapter is read-only, so the
    table it shows is always the cleaned table, read through the accessors
    of Frames. */
module OldMovies {
  import opened Values
  import opened Frames
  import opened Cleaning

  /** The table old_movies works on, from the table read from the file. */
  function LoadData(raw: Frame): (g: Frame)
    ensures g.columns == raw.columns
    ensures forall x :: x in g.rows ==> Missing !in x.cells
    ensures multiset(g.rows) <= multiset(raw.rows)
  {
    SurvivorsProperties(raw.rows);
    Frame(raw.columns, Survivors(raw.rows))
  }

  /** The cleaned table has the same columns, stays well formed, has no
      missing cell and no two rows with the same cells, and holds exactly the
      first occurrences of the complete records, labels still increasing. */
  lemma LoadDataProperties(raw: Frame)
    requires WellFormed(raw)
    ensures var g := LoadData(raw);
      && WellFormed(g)
      && g.columns == raw.columns
      && (forall x :: x in g.rows ==> Missing !in x.cells)
      && DistinctRecords(g.rows)
      && (forall x :: x in g.rows <==> exists i :: 0 <= i < |raw.rows| && raw.rows[i] == x && Survives(raw.rows, i))
      && (LabelsIncreasing(raw.rows) ==> LabelsIncreasing(g.rows))
  {
    SurvivorsProperties(raw.rows);
  }

  /** What the read-only adapter shows: one row per surviving record, one
      column per column of the file, the text of each cell of the cleaned
      table for the display role, the column names across the top and the
      records' original labels down the side. */
  lemma ReadOnlyModelShowsCleanTable(raw: Frame)
    requires WellFormed(raw)
    ensures var g := LoadData(raw);
      && RowCount(g) == |Survivors(raw.rows)|
      && ColumnCount(g) == |raw.columns|
      && WellFormed(g)
      && (forall i, c :: 0 <= i < |g.rows| && 0 <= c < |raw.columns| ==>
            Data(g, i, c, DisplayRole) == Returned(Some(CellText(Survivors(raw.rows)[i].cells[c]))))
      && (forall c :: 0 <= c < |raw.columns| ==>
            HeaderData(g, c, Horizontal, DisplayRole) == Returned(Some(raw.columns[c])))
      && (forall i :: 0 <= i < |g.rows| ==>
            HeaderData(g, i, Vertical, DisplayRole) == Returned(Some(NatDecimal(Survivors(raw.rows)[i].index))))
  {
    LoadDataProperties(raw);
  }
}
