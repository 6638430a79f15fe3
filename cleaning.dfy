/** The cleaning each program runs once on the loaded table, before any view
    exists: drop repeated rows (keeping the first), drop rows with a missing
    cell, then drop the named columns. Row labels are kept as they were. */
module Cleaning {
  import opened Values
  import opened Frames
  import opened Selection

  /** No earlier row has the same cells: the occurrence `drop_duplicates` keeps. */
  predicate FirstOfItsKind(rows: seq<Row>, i: nat)
    requires i < |rows|
  {
    forall j :: 0 <= j < i ==> rows[j].cells != rows[i].cells
  }

  /** `drop_duplicates()`: the rows whose cells did not occur earlier. */
  function DropDuplicates(rows: seq<Row>): (r: seq<Row>)
    ensures |r| <= |rows|
    decreases |rows|
  {
    if rows == [] then []
    else
      var n := |rows| - 1;
      var kept := DropDuplicates(rows[..n]);
      if exists k :: 0 <= k < n && rows[k].cells == rows[n].cells then kept else kept + [rows[n]]
  }

  lemma FirstOfItsKindFront(rows: seq<Row>, i: nat)
    requires i < |rows| - 1
    ensures FirstOfItsKind(rows[..|rows| - 1], i) <==> FirstOfItsKind(rows, i)
  {
    var front := rows[..|rows| - 1];
    assert forall j :: 0 <= j <= i ==> front[j] == rows[j];
  }

  /** One step of `DropDuplicates`: the last row is kept exactly when it is
      the first of its kind. */
  lemma DropDuplicatesLast(rows: seq<Row>)
    requires rows != []
    ensures var n := |rows| - 1;
      DropDuplicates(rows) ==
        if FirstOfItsKind(rows, n) then DropDuplicates(rows[..n]) + [rows[n]] else DropDuplicates(rows[..n])
  {
  }

  /** Every row kept is the first occurrence of its record. */
  lemma {:induction false} DropDuplicatesSound(rows: seq<Row>)
    ensures forall x :: x in DropDuplicates(rows) ==>
      exists i :: 0 <= i < |rows| && rows[i] == x && FirstOfItsKind(rows, i)
    decreases |rows|
  {
    if rows != [] {
      var n := |rows| - 1;
      var front := rows[..n];
      DropDuplicatesSound(front);
      DropDuplicatesLast(rows);
      forall x | x in DropDuplicates(front)
        ensures exists i :: 0 <= i < |rows| && rows[i] == x && FirstOfItsKind(rows, i)
      {
        var i :| 0 <= i < n && front[i] == x && FirstOfItsKind(front, i);
        FirstOfItsKindFront(rows, i);
        assert rows[i] == x && FirstOfItsKind(rows, i);
      }
    }
  }

  /** Every first occurrence of a record is kept. */
  lemma {:induction false} DropDuplicatesComplete(rows: seq<Row>)
    ensures forall i :: 0 <= i < |rows| && FirstOfItsKind(rows, i) ==> rows[i] in DropDuplicates(rows)
    decreases |rows|
  {
    if rows != [] {
      var n := |rows| - 1;
      var front := rows[..n];
      var kept := DropDuplicates(front);
      DropDuplicatesComplete(front);
      DropDuplicatesLast(rows);
      assert forall x :: x in kept ==> x in DropDuplicates(rows);
      if FirstOfItsKind(rows, n) {
        assert DropDuplicates(rows) == kept + [rows[n]];
      }
      forall i | 0 <= i < n && FirstOfItsKind(rows, i) ensures rows[i] in DropDuplicates(rows) {
        FirstOfItsKindFront(rows, i);
        assert front[i] == rows[i] && FirstOfItsKind(front, i);
        assert rows[i] in kept;
      }
    }
  }

  /** The rows kept are exactly the first occurrences of each record. */
  lemma {:induction false} DropDuplicatesMembers(rows: seq<Row>)
    ensures forall x :: x in DropDuplicates(rows) <==>
      exists i :: 0 <= i < |rows| && rows[i] == x && FirstOfItsKind(rows, i)
  {
    DropDuplicatesSound(rows);
    DropDuplicatesComplete(rows);
  }

  /** No two rows have the same cells. */
  ghost predicate DistinctRecords(rows: seq<Row>)
  {
    forall i, j :: 0 <= i < j < |rows| ==> rows[i].cells != rows[j].cells
  }

  /** No two kept rows have the same cells. */
  lemma {:induction false} DropDuplicatesDistinct(rows: seq<Row>)
    ensures DistinctRecords(DropDuplicates(rows))
    decreases |rows|
  {
    if rows != [] {
      var n := |rows| - 1;
      var front := rows[..n];
      DropDuplicatesDistinct(front);
      DropDuplicatesMembers(front);
      var kept := DropDuplicates(front);
      if !exists k :: 0 <= k < n && rows[k].cells == rows[n].cells {
        var r := kept + [rows[n]];
        forall i | 0 <= i < |kept| ensures kept[i].cells != rows[n].cells {
          assert kept[i] in kept;
          var m :| 0 <= m < n && front[m] == kept[i] && FirstOfItsKind(front, m);
          assert rows[m] == kept[i];
        }
        forall i, j | 0 <= i < j < |r| ensures r[i].cells != r[j].cells {
          assert r[i] == kept[i];
          if j < |kept| {
            assert r[j] == kept[j] && kept[i].cells != kept[j].cells;
          } else {
            assert r[j] == rows[n];
          }
        }
        assert DropDuplicates(rows) == r;
      } else {
        assert DropDuplicates(rows) == kept;
      }
    }
  }

  /** Removing repeats only removes rows. */
  lemma {:induction false} DropDuplicatesSubMultiset(rows: seq<Row>)
    ensures multiset(DropDuplicates(rows)) <= multiset(rows)
    decreases |rows|
  {
    if rows != [] {
      var n := |rows| - 1;
      DropDuplicatesSubMultiset(rows[..n]);
      assert rows == rows[..n] + [rows[n]];
    }
  }

  /** Removing repeats keeps the labels in increasing order. */
  lemma {:induction false} DropDuplicatesLabelsIncreasing(rows: seq<Row>)
    requires LabelsIncreasing(rows)
    ensures LabelsIncreasing(DropDuplicates(rows))
    decreases |rows|
  {
    if rows != [] {
      var n := |rows| - 1;
      var front := rows[..n];
      DropDuplicatesLabelsIncreasing(front);
      DropDuplicatesMembers(front);
      forall x | x in DropDuplicates(front) ensures x.index < rows[n].index {
        var i :| 0 <= i < |front| && front[i] == x && FirstOfItsKind(front, i);
        assert rows[i] == x;
      }
    }
  }

  /** Every record of the table is still represented after removing repeats:
      only later copies go. */
  lemma {:induction false} DropDuplicatesKeepsEveryRecord(rows: seq<Row>, i: nat)
    requires i < |rows|
    ensures exists x :: x in DropDuplicates(rows) && x.cells == rows[i].cells
    decreases i
  {
    DropDuplicatesMembers(rows);
    if FirstOfItsKind(rows, i) {
      assert rows[i] in DropDuplicates(rows);
    } else {
      var j :| 0 <= j < i && rows[j].cells == rows[i].cells;
      DropDuplicatesKeepsEveryRecord(rows, j);
    }
  }

  /** A row with no missing cell. */
  predicate Complete(r: Row)
  {
    Missing !in r.cells
  }

  /** `dropna()`: the rows with no missing cell, in order. */
  function DropMissing(rows: seq<Row>): (r: seq<Row>)
    ensures forall x :: x in r <==> x in rows && Missing !in x.cells
    ensures multiset(r) <= multiset(rows)
  {
    Keep(rows, Complete)
  }

  /** Putting a row in front of rows whose cells all differ from its own
      keeps the records distinct. */
  lemma DistinctCons(x: Row, rows: seq<Row>)
    requires DistinctRecords(rows)
    requires forall y :: y in rows ==> y.cells != x.cells
    ensures DistinctRecords([x] + rows)
  {
    var r := [x] + rows;
    forall i, j | 0 <= i < j < |r| ensures r[i].cells != r[j].cells {
      assert r[j] == rows[j - 1];
      if i > 0 { assert r[i] == rows[i - 1]; }
    }
  }

  /** Selection keeps rows with pairwise distinct cells distinct. */
  lemma {:induction false} KeepDistinctCells(rows: seq<Row>, p: Row -> bool)
    requires DistinctRecords(rows)
    ensures DistinctRecords(Keep(rows, p))
  {
    if rows != [] {
      var tail := rows[1..];
      assert DistinctRecords(tail) by {
        forall i, j | 0 <= i < j < |tail| ensures tail[i].cells != tail[j].cells {
          assert tail[i] == rows[i + 1] && tail[j] == rows[j + 1];
        }
      }
      KeepDistinctCells(tail, p);
      var kt := Keep(tail, p);
      if p(rows[0]) {
        forall y | y in kt ensures y.cells != rows[0].cells {
          var m :| 0 <= m < |tail| && tail[m] == y;
          assert rows[m + 1] == y;
        }
        DistinctCons(rows[0], kt);
        assert Keep(rows, p) == [rows[0]] + kt;
      } else {
        assert Keep(rows, p) == kt;
      }
    }
  }

  /** The row at position i of the loaded table survives both row-dropping steps. */
  predicate Survives(rows: seq<Row>, i: nat)
    requires i < |rows|
  {
    FirstOfItsKind(rows, i) && Complete(rows[i])
  }

  /** The rows left after `drop_duplicates()` and then `dropna()`. */
  function Survivors(rows: seq<Row>): seq<Row>
  {
    DropMissing(DropDuplicates(rows))
  }

  /** The row labels present in a sequence of rows. */
  function Labels(rows: seq<Row>): set<nat>
  {
    set x | x in rows :: x.index
  }

  /** The labels of the rows of the table that survive. */
  function SurvivingLabels(rows: seq<Row>): set<nat>
  {
    set i | 0 <= i < |rows| && Survives(rows, i) :: rows[i].index
  }

  /** The surviving rows: exactly the first occurrences that have no missing
      cell, pairwise different, taken from the table, labels still increasing. */
  lemma SurvivorsProperties(rows: seq<Row>)
    ensures var s := Survivors(rows);
      && (forall x :: x in s <==> exists i :: 0 <= i < |rows| && rows[i] == x && Survives(rows, i))
      && DistinctRecords(s)
      && (forall x :: x in s ==> Missing !in x.cells)
      && multiset(s) <= multiset(rows)
      && (LabelsIncreasing(rows) ==> LabelsIncreasing(s))
  {
    var d := DropDuplicates(rows);
    DropDuplicatesMembers(rows);
    DropDuplicatesDistinct(rows);
    DropDuplicatesSubMultiset(rows);
    KeepDistinctCells(d, Complete);
    assert Survivors(rows) == Keep(d, Complete);
    if LabelsIncreasing(rows) {
      DropDuplicatesLabelsIncreasing(rows);
      KeepLabelsIncreasing(d, Complete);
    }
  }

  // ---------------------------------------------------------------------
  // Dropping named columns

  /** Positions of the columns whose names are not dropped, left to right. */
  function KeptPositions(columns: seq<string>, names: seq<string>): (p: seq<nat>)
    ensures forall k :: 0 <= k < |p| ==> p[k] < |columns| && columns[p[k]] !in names
    ensures forall i :: 0 <= i < |columns| && columns[i] !in names ==> i in p
    ensures forall k, l :: 0 <= k < l < |p| ==> p[k] < p[l]
    decreases |columns|
  {
    if columns == [] then []
    else
      var n := |columns| - 1;
      var front := KeptPositions(columns[..n], names);
      KeptPositionsExtend(columns, names, front);
      front + (if columns[n] in names then [] else [n])
  }

  /** The positions kept among all but the last column, extended by the last
      one unless it is named, are the positions kept among all columns. */
  lemma KeptPositionsExtend(columns: seq<string>, names: seq<string>, front: seq<nat>)
    requires columns != []
    requires var n := |columns| - 1;
      && (forall k :: 0 <= k < |front| ==> front[k] < n && columns[..n][front[k]] !in names)
      && (forall i :: 0 <= i < n && columns[..n][i] !in names ==> i in front)
      && (forall k, l :: 0 <= k < l < |front| ==> front[k] < front[l])
    ensures var n := |columns| - 1;
      var p := front + (if columns[n] in names then [] else [n]);
      && (forall k :: 0 <= k < |p| ==> p[k] < |columns| && columns[p[k]] !in names)
      && (forall i :: 0 <= i < |columns| && columns[i] !in names ==> i in p)
      && (forall k, l :: 0 <= k < l < |p| ==> p[k] < p[l])
  {
    var n := |columns| - 1;
    assert forall i :: 0 <= i < n ==> columns[..n][i] == columns[i];
  }

  function Project<T>(s: seq<T>, p: seq<nat>): seq<T>
    requires forall k :: 0 <= k < |p| ==> p[k] < |s|
  {
    seq(|p|, k requires 0 <= k < |p| => s[p[k]])
  }

  /** A projection only holds elements of the projected sequence. */
  lemma ProjectMembers<T>(s: seq<T>, p: seq<nat>)
    requires forall k :: 0 <= k < |p| ==> p[k] < |s|
    ensures forall x :: x in Project(s, p) ==> x in s
  {
    forall x | x in Project(s, p) ensures x in s {
      var k :| 0 <= k < |p| && Project(s, p)[k] == x;
      assert s[p[k]] == x;
    }
  }

  /** Projecting distinct elements at increasing positions keeps them distinct. */
  lemma ProjectDistinct<T>(s: seq<T>, p: seq<nat>)
    requires forall k :: 0 <= k < |p| ==> p[k] < |s|
    requires forall k, l :: 0 <= k < l < |p| ==> p[k] < p[l]
    requires forall i, j :: 0 <= i < j < |s| ==> s[i] != s[j]
    ensures var t := Project(s, p); forall k, l :: 0 <= k < l < |t| ==> t[k] != t[l]
  {
  }

  /** The kept columns are the columns not named. */
  lemma KeptColumns(columns: seq<string>, names: seq<string>)
    ensures var p := KeptPositions(columns, names);
      forall c :: c in Project(columns, p) <==> c in columns && c !in names
  {
    var p := KeptPositions(columns, names);
    var t := Project(columns, p);
    forall c | c in columns && c !in names ensures c in t {
      var i :| 0 <= i < |columns| && columns[i] == c;
      var k :| 0 <= k < |p| && p[k] == i;
      assert t[k] == c;
    }
    forall c | c in t ensures c in columns && c !in names {
      var k :| 0 <= k < |t| && t[k] == c;
    }
  }

  /** A row narrowed to the cells at the given positions, under its own label. */
  function NarrowRow(r: Row, p: seq<nat>): Row
    requires forall k :: 0 <= k < |p| ==> p[k] < |r.cells|
  {
    Row(r.index, Project(r.cells, p))
  }

  /** The outcome of `drop(names, axis=1)`: the narrowed table, or the
      KeyError pandas raises, listing the names the table does not have. */
  datatype Dropped = Dropped(frame: Frame) | KeyError(missing: seq<string>)

  /** The dropped names the table has no column for. */
  function Absent(f: Frame, names: seq<string>): seq<string>
  {
    Keep(names, n => n !in f.columns)
  }

  /** `drop(names, axis=1)`: remove the named columns from the header and
      from every row; fails when a name is not a column. */
  function DropColumns(f: Frame, names: seq<string>): (r: Dropped)
    requires WellFormed(f)
    ensures r.KeyError? ==> r.missing != [] && forall n :: n in r.missing <==> n in names && n !in f.columns
    ensures r.Dropped? ==> |r.frame.rows| == |f.rows|
  {
    if Absent(f, names) != [] then KeyError(Absent(f, names))
    else
      var p := KeptPositions(f.columns, names);
      Dropped(Frame(Project(f.columns, p),
        seq(|f.rows|, k requires 0 <= k < |f.rows| =>
          assert f.rows[k] in f.rows; NarrowRow(f.rows[k], p))))
  }

  /** Dropping columns fails exactly when a name is not a column, and the
      error lists exactly those names. */
  lemma DropColumnsFails(f: Frame, names: seq<string>)
    requires WellFormed(f)
    ensures var r := DropColumns(f, names);
      && (r.KeyError? <==> exists n :: n in names && n !in f.columns)
      && (r.KeyError? ==> forall n :: n in r.missing <==> n in names && n !in f.columns)
  {
    var missing := Absent(f, names);
    if missing != [] {
      assert missing[0] in missing;
    }
  }

  /** When every name is a column, dropping keeps every row under its label,
      keeps the columns not named (in order) and, in each row, the cells
      under them; the result is again a well-formed table. */
  lemma DropColumnsKeeps(f: Frame, names: seq<string>)
    requires WellFormed(f)
    requires forall n :: n in names ==> n in f.columns
    ensures var r := DropColumns(f, names);
      r.Dropped? &&
      var g := r.frame;
      var p := KeptPositions(f.columns, names);
      && WellFormed(g)
      && (forall c :: c in g.columns <==> c in f.columns && c !in names)
      && g.columns == Project(f.columns, p)
      && |g.rows| == |f.rows|
      && (forall k :: 0 <= k < |f.rows| ==> g.rows[k].index == f.rows[k].index)
      && (forall k :: 0 <= k < |f.rows| ==> g.rows[k].cells == Project(f.rows[k].cells, p))
      && (forall k, c :: 0 <= k < |f.rows| && c in g.rows[k].cells ==> c in f.rows[k].cells)
  {
    DropColumnsFails(f, names);
    var g := DropColumns(f, names).frame;
    var p := KeptPositions(f.columns, names);
    assert g.columns == Project(f.columns, p) && |g.rows| == |f.rows|;
    assert forall k :: 0 <= k < |f.rows| ==> g.rows[k] == NarrowRow(f.rows[k], p);
    KeptColumns(f.columns, names);
    ProjectDistinct(f.columns, p);
    forall x | x in g.rows ensures |x.cells| == |g.columns| {
      var k :| 0 <= k < |g.rows| && g.rows[k] == x;
    }
    forall k | 0 <= k < |f.rows|
      ensures forall c :: c in g.rows[k].cells ==> c in f.rows[k].cells
    {
      assert f.rows[k] in f.rows;
      ProjectMembers(f.rows[k].cells, p);
    }
  }

  /** The surviving rows, under the columns of the table, form a well-formed table. */
  lemma SurvivorsWellFormed(f: Frame)
    requires WellFormed(f)
    ensures WellFormed(Frame(f.columns, Survivors(f.rows)))
  {
    SurvivorsComplete(f.rows);
  }

  /** The whole cleaning step: duplicates, then rows with missing cells, then
      the named columns. */
  function Clean(f: Frame, names: seq<string>): (r: Dropped)
    requires WellFormed(f)
    ensures r.Dropped? <==> forall n :: n in names ==> n in f.columns
    ensures r.KeyError? ==> forall n :: n in r.missing <==> n in names && n !in f.columns
  {
    SurvivorsWellFormed(f);
    DropColumnsFails(Frame(f.columns, Survivors(f.rows)), names);
    DropColumns(Frame(f.columns, Survivors(f.rows)), names)
  }

  /** g is what cleaning f leaves when the names are dropped: a well-formed
      table whose columns are those of f not named, in their order, and whose
      rows are the surviving rows of f, in their order, each under its
      original label and holding its cells under the kept columns. So no cell
      is missing, the surviving labels are exactly those shown, and increasing
      labels stay increasing. */
  ghost predicate CleanedFrom(g: Frame, f: Frame, names: seq<string>)
    requires WellFormed(f)
  {
    var s := Survivors(f.rows);
    var p := KeptPositions(f.columns, names);
    SurvivorsProperties(f.rows);
    && WellFormed(g)
    && g.columns == Project(f.columns, p)
    && (forall c :: c in g.columns <==> c in f.columns && c !in names)
    && |g.rows| == |s|
    && (forall k :: 0 <= k < |s| ==> assert s[k] in s; g.rows[k] == NarrowRow(s[k], p))
    && (forall x :: x in g.rows ==> Missing !in x.cells)
    && Labels(g.rows) == SurvivingLabels(f.rows)
    && (LabelsIncreasing(f.rows) ==> LabelsIncreasing(g.rows))
  }

  /** When every dropped name is a column, cleaning narrows each surviving
      row, in order, to the columns not named. */
  lemma CleanShape(f: Frame, names: seq<string>)
    requires WellFormed(f)
    requires forall n :: n in names ==> n in f.columns
    ensures var r := Clean(f, names);
      var s := Survivors(f.rows);
      var p := KeptPositions(f.columns, names);
      && r.Dropped?
      && WellFormed(r.frame)
      && r.frame.columns == Project(f.columns, p)
      && (forall c :: c in r.frame.columns <==> c in f.columns && c !in names)
      && |r.frame.rows| == |s|
      && (forall k :: 0 <= k < |s| ==> |s[k].cells| == |f.columns|)
      && (forall k :: 0 <= k < |s| ==> r.frame.rows[k] == NarrowRow(s[k], p))
      && (forall k, c :: 0 <= k < |s| && c in r.frame.rows[k].cells ==> c in s[k].cells)
  {
    var s := Survivors(f.rows);
    SurvivorsProperties(f.rows);
    forall k | 0 <= k < |s| ensures |s[k].cells| == |f.columns| {
      assert s[k] in s;
    }
    DropColumnsKeeps(Frame(f.columns, s), names);
  }

  /** Each surviving row is complete and is a row of the table that survives. */
  lemma SurvivorsComplete(rows: seq<Row>)
    ensures forall x :: x in Survivors(rows) ==>
      Missing !in x.cells && exists i :: 0 <= i < |rows| && rows[i] == x && Survives(rows, i)
  {
    SurvivorsProperties(rows);
  }

  /** Each row of the table that survives is among the surviving rows. */
  lemma SurvivorsAll(rows: seq<Row>)
    ensures forall i :: 0 <= i < |rows| && Survives(rows, i) ==> rows[i] in Survivors(rows)
  {
    SurvivorsProperties(rows);
  }

  /** Rows that narrow the surviving rows position by position, under their
      labels, have no missing cell and only surviving labels. */
  lemma NarrowedComplete(narrowed: seq<Row>, rows: seq<Row>)
    requires |narrowed| == |Survivors(rows)|
    requires forall k :: 0 <= k < |narrowed| ==> narrowed[k].index == Survivors(rows)[k].index
    requires forall k, c :: 0 <= k < |narrowed| && c in narrowed[k].cells ==> c in Survivors(rows)[k].cells
    ensures forall x :: x in narrowed ==> Missing !in x.cells
    ensures Labels(narrowed) <= SurvivingLabels(rows)
  {
    var s := Survivors(rows);
    SurvivorsComplete(rows);
    forall x | x in narrowed
      ensures Missing !in x.cells && x.index in SurvivingLabels(rows)
    {
      var k :| 0 <= k < |narrowed| && narrowed[k] == x;
      assert s[k] in s;
      forall c | c in x.cells ensures c != Missing {
        assert c in s[k].cells;
      }
      var i :| 0 <= i < |rows| && rows[i] == s[k] && Survives(rows, i);
    }
  }

  /** Rows that narrow the surviving rows position by position, under their
      labels, carry every surviving label. */
  lemma NarrowedCovers(narrowed: seq<Row>, rows: seq<Row>)
    requires |narrowed| == |Survivors(rows)|
    requires forall k :: 0 <= k < |narrowed| ==> narrowed[k].index == Survivors(rows)[k].index
    ensures SurvivingLabels(rows) <= Labels(narrowed)
  {
    var s := Survivors(rows);
    SurvivorsAll(rows);
    forall y | y in SurvivingLabels(rows) ensures y in Labels(narrowed) {
      var i :| 0 <= i < |rows| && Survives(rows, i) && rows[i].index == y;
      var k :| 0 <= k < |s| && s[k] == rows[i];
      assert narrowed[k] in narrowed;
    }
  }

  /** A table with the kept columns and the surviving rows, each narrowed to
      them under its label, is the table CleanedFrom describes. */
  lemma CleanedFromShape(g: Frame, f: Frame, names: seq<string>)
    requires WellFormed(f) && WellFormed(g)
    requires g.columns == Project(f.columns, KeptPositions(f.columns, names))
    requires forall c :: c in g.columns <==> c in f.columns && c !in names
    requires |g.rows| == |Survivors(f.rows)|
    requires forall k :: 0 <= k < |g.rows| ==> |Survivors(f.rows)[k].cells| == |f.columns|
    requires forall k :: 0 <= k < |g.rows| ==>
      g.rows[k] == NarrowRow(Survivors(f.rows)[k], KeptPositions(f.columns, names))
    requires forall k, c :: 0 <= k < |g.rows| && c in g.rows[k].cells ==> c in Survivors(f.rows)[k].cells
    ensures CleanedFrom(g, f, names)
  {
    NarrowedComplete(g.rows, f.rows);
    NarrowedCovers(g.rows, f.rows);
    if LabelsIncreasing(f.rows) {
      SurvivorsProperties(f.rows);
    }
  }

  /** When every dropped name is a column, cleaning succeeds and leaves the
      table CleanedFrom describes. */
  lemma CleanKeeps(f: Frame, names: seq<string>)
    requires WellFormed(f)
    requires forall n :: n in names ==> n in f.columns
    ensures Clean(f, names).Dropped? && CleanedFrom(Clean(f, names).frame, f, names)
  {
    CleanShape(f, names);
    CleanedFromShape(Clean(f, names).frame, f, names);
  }

  /** Cleaning succeeds exactly when every dropped name is a column, and then
      leaves the table CleanedFrom describes. */
  lemma CleanProperties(f: Frame, names: seq<string>)
    requires WellFormed(f)
    ensures var r := Clean(f, names);
      && (r.Dropped? <==> forall n :: n in names ==> n in f.columns)
      && (r.Dropped? ==> CleanedFrom(r.frame, f, names))
  {
    SurvivorsProperties(f.rows);
    DropColumnsFails(Frame(f.columns, Survivors(f.rows)), names);
    if forall n :: n in names ==> n in f.columns {
      CleanKeeps(f, names);
    }
  }

  /** Cleaning that drops three named columns, name by name. */
  lemma CleanDroppingThree(f: Frame, a: string, b: string, c: string)
    requires WellFormed(f)
    ensures var r := Clean(f, [a, b, c]);
      && (r.Dropped? <==> a in f.columns && b in f.columns && c in f.columns)
      && (r.Dropped? ==>
        && CleanedFrom(r.frame, f, [a, b, c])
        && a !in r.frame.columns && b !in r.frame.columns && c !in r.frame.columns
        && (forall x :: x in f.columns && x != a && x != b && x != c ==> x in r.frame.columns))
  {
    var names := [a, b, c];
    assert forall n :: n in names <==> n == a || n == b || n == c;
    CleanProperties(f, names);
  }

  /** Cleaning that drops four named columns, name by name. */
  lemma CleanDroppingFour(f: Frame, a: string, b: string, c: string, d: string)
    requires WellFormed(f)
    ensures var r := Clean(f, [a, b, c, d]);
      && (r.Dropped? <==> a in f.columns && b in f.columns && c in f.columns && d in f.columns)
      && (r.Dropped? ==>
        && CleanedFrom(r.frame, f, [a, b, c, d])
        && a !in r.frame.columns && b !in r.frame.columns && c !in r.frame.columns && d !in r.frame.columns
        && (forall x :: x in f.columns && x != a && x != b && x != c && x != d ==> x in r.frame.columns))
  {
    var names := [a, b, c, d];
    assert forall n :: n in names <==> n == a || n == b || n == c || n == d;
    CleanProperties(f, names);
  }

  /** Two complete records that differ in their second cell both survive the
      row-dropping steps. */
  lemma TwoRecordsSurvive(rows: seq<Row>)
    requires |rows| == 2 && |rows[0].cells| == |rows[1].cells| == 2
    requires rows[0].cells[1] != rows[1].cells[1]
    requires Complete(rows[0]) && Complete(rows[1])
    ensures Survivors(rows) == rows
  {
    assert rows[..1] == [rows[0]] && [rows[0]][..0] == [];
    assert DropDuplicates([rows[0]]) == [rows[0]];
    assert DropDuplicates(rows) == rows;
    KeepAll(rows, Complete);
  }

  /** Dropping the second of two columns keeps the first. */
  lemma KeepFirstOnly(columns: seq<string>)
    requires |columns| == 2 && columns[0] != columns[1]
    ensures KeptPositions(columns, [columns[1]]) == [0]
  {
    var front := columns[..1];
    assert front[..0] == [];
    assert KeptPositions(front[..0], [columns[1]]) == [];
    assert front[0] == columns[0] && columns[0] !in [columns[1]];
    assert KeptPositions(front, [columns[1]]) == [0];
  }

  /** Keeping only the first column of two rows that agree there leaves two
      rows with the same cells. */
  lemma FirstColumnOnly(f: Frame, names: seq<string>)
    requires WellFormed(f) && |f.columns| > 0
    requires forall n :: n in names ==> n in f.columns
    requires KeptPositions(f.columns, names) == [0]
    requires |f.rows| == 2 && f.rows[0].cells[0] == f.rows[1].cells[0]
    ensures var r := DropColumns(f, names);
      r.Dropped? && |r.frame.rows| == 2 && r.frame.rows[0].cells == r.frame.rows[1].cells
  {
    DropColumnsKeeps(f, names);
    var g := DropColumns(f, names).frame;
    assert f.rows[0] in f.rows && f.rows[1] in f.rows;
    assert g.rows[0].cells == [f.rows[0].cells[0]];
    assert g.rows[1].cells == [f.rows[1].cells[0]];
  }

  /** On a table with no repeats and no missing cell, cleaning only drops columns. */
  lemma CleanWithoutRepeats(f: Frame, names: seq<string>)
    requires WellFormed(f) && Survivors(f.rows) == f.rows
    ensures Clean(f, names) == DropColumns(f, names)
  {
  }

  /** Repeats are removed before columns are: two complete records that agree
      on a title and differ only in a column that is then dropped (two entries
      for "Alien" with different vote counts, say) both stay, and afterwards
      show the same cells. */
  lemma RepeatsCanReappearAfterDroppingColumns(f: Frame)
    requires WellFormed(f) && |f.columns| == 2 && |f.rows| == 2
    requires f.rows[0].cells[0] == f.rows[1].cells[0]
    requires f.rows[0].cells[1] != f.rows[1].cells[1]
    requires Complete(f.rows[0]) && Complete(f.rows[1])
    ensures var r := Clean(f, [f.columns[1]]);
      r.Dropped? && |r.frame.rows| == 2 && r.frame.rows[0].cells == r.frame.rows[1].cells
  {
    assert f.rows[0] in f.rows && f.rows[1] in f.rows;
    TwoRecordsSurvive(f.rows);
    KeepFirstOnly(f.columns);
    FirstColumnOnly(f, [f.columns[1]]);
    CleanWithoutRepeats(f, [f.columns[1]]);
  }
}
