/** The movies program's start-up cleaning: repeats and rows with a missing
    cell go, then four columns it never shows. */
module Movies {
  import opened Values
  import opened Frames
  import opened Cleaning

  /** The columns the movies program drops after loading. */
  const DroppedColumns: seq<string> := ["votes", "released", "writer", "star"]

  /** The table the movies program works on, from the table read from the file. */
  function LoadData(raw: Frame): (r: Dropped)
    requires WellFormed(raw)
    ensures r.Dropped? <==> forall n :: n in DroppedColumns ==> n in raw.columns
    ensures r.KeyError? ==> forall n :: n in r.missing <==> n in DroppedColumns && n !in raw.columns
  {
    Clean(raw, DroppedColumns)
  }

  /** Loading fails (KeyError) unless the file has all four dropped columns;
      otherwise none of them is left, and the rest is as CleanedFrom
      describes: the kept columns in file order, and the rows that survive the
      removal of repeats and incomplete rows, in file order, each under its
      label and narrowed to the kept columns. */
  lemma LoadDataProperties(raw: Frame)
    requires WellFormed(raw)
    ensures var r := LoadData(raw);
      && (r.Dropped? <==> "votes" in raw.columns && "released" in raw.columns && "writer" in raw.columns && "star" in raw.columns)
      && (r.Dropped? ==>
        var g := r.frame;
        && CleanedFrom(g, raw, DroppedColumns)
        && "votes" !in g.columns && "released" !in g.columns && "writer" !in g.columns && "star" !in g.columns)
  {
    CleanDroppingFour(raw, "votes", "released", "writer", "star");
  }
}
