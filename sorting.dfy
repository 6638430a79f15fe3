/** Reordering the displayed rows by one column (`sort_values(by=...)`). */
module Sorting {
  import opened Values
  import opened Frames

  /** The cell of a row that it is sorted by. */
  function Key(r: Row, column: nat): Cell
  {
    if column < |r.cells| then r.cells[column] else Missing
  }

  /** Every row may stand before every later row by the column's order. */
  ghost predicate SortedOn(rows: seq<Row>, column: nat, ascending: bool)
  {
    forall i, j :: 0 <= i < j < |rows| ==> Precedes(Key(rows[i], column), Key(rows[j], column), ascending)
  }

  function Insert(x: Row, rows: seq<Row>, column: nat, ascending: bool): seq<Row>
  {
    if rows == [] then [x]
    else if Precedes(Key(x, column), Key(rows[0], column), ascending) then [x] + rows
    else [rows[0]] + Insert(x, rows[1..], column, ascending)
  }

  lemma {:induction false} InsertPermutes(x: Row, rows: seq<Row>, column: nat, ascending: bool)
    ensures multiset(Insert(x, rows, column, ascending)) == multiset(rows) + multiset{x}
  {
    if rows != [] && !Precedes(Key(x, column), Key(rows[0], column), ascending) {
      InsertPermutes(x, rows[1..], column, ascending);
      assert rows == [rows[0]] + rows[1..];
    }
  }

  /** A suffix of a sorted view is sorted. */
  lemma SortedTail(rows: seq<Row>, column: nat, ascending: bool)
    requires rows != [] && SortedOn(rows, column, ascending)
    ensures SortedOn(rows[1..], column, ascending)
  {
    var tail := rows[1..];
    forall i, j | 0 <= i < j < |tail|
      ensures Precedes(Key(tail[i], column), Key(tail[j], column), ascending)
    {
      assert tail[i] == rows[i + 1] && tail[j] == rows[j + 1];
    }
  }

  /** A row that may stand before the first row of a sorted view may stand
      before all of it. */
  lemma SortedCons(x: Row, rows: seq<Row>, column: nat, ascending: bool)
    requires SortedOn(rows, column, ascending)
    requires forall k :: 0 <= k < |rows| ==> Precedes(Key(x, column), Key(rows[k], column), ascending)
    ensures SortedOn([x] + rows, column, ascending)
  {
    var r := [x] + rows;
    forall i, j | 0 <= i < j < |r|
      ensures Precedes(Key(r[i], column), Key(r[j], column), ascending)
    {
      assert r[j] == rows[j - 1];
      if i > 0 { assert r[i] == rows[i - 1]; }
    }
  }

  lemma SortedFirstPrecedesAll(x: Row, rows: seq<Row>, column: nat, ascending: bool)
    requires rows != [] && SortedOn(rows, column, ascending)
    requires Precedes(Key(x, column), Key(rows[0], column), ascending)
    ensures forall k :: 0 <= k < |rows| ==> Precedes(Key(x, column), Key(rows[k], column), ascending)
  {
    forall k | 0 < k < |rows|
      ensures Precedes(Key(x, column), Key(rows[k], column), ascending)
    {
      PrecedesTransitive(Key(x, column), Key(rows[0], column), Key(rows[k], column), ascending);
    }
  }

  lemma {:induction false} InsertSorted(x: Row, rows: seq<Row>, column: nat, ascending: bool)
    requires SortedOn(rows, column, ascending)
    ensures SortedOn(Insert(x, rows, column, ascending), column, ascending)
  {
    if rows == [] {
    } else if Precedes(Key(x, column), Key(rows[0], column), ascending) {
      SortedFirstPrecedesAll(x, rows, column, ascending);
      SortedCons(x, rows, column, ascending);
    } else {
      var tail := rows[1..];
      SortedTail(rows, column, ascending);
      var rest := Insert(x, tail, column, ascending);
      InsertSorted(x, tail, column, ascending);
      InsertPermutes(x, tail, column, ascending);
      PrecedesTotal(Key(x, column), Key(rows[0], column), ascending);
      forall k | 0 <= k < |rest|
        ensures Precedes(Key(rows[0], column), Key(rest[k], column), ascending)
      {
        assert rest[k] in multiset(rest);
        if rest[k] != x {
          assert rest[k] in tail;
          var m :| 0 <= m < |tail| && tail[m] == rest[k];
          assert rows[m + 1] == rest[k];
        }
      }
      SortedCons(rows[0], rest, column, ascending);
    }
  }

  /** The view after sorting: the same rows (a permutation) ordered by the
      column, ascending or descending. The order of rows with equal keys is
      this model's own choice; pandas' default sort does not fix it. */
  function SortRows(rows: seq<Row>, column: nat, ascending: bool): (r: seq<Row>)
    ensures multiset(r) == multiset(rows)
    ensures SortedOn(r, column, ascending)
  {
    if rows == [] then []
    else
      var rest := SortRows(rows[1..], column, ascending);
      InsertPermutes(rows[0], rest, column, ascending);
      InsertSorted(rows[0], rest, column, ascending);
      assert rows == [rows[0]] + rows[1..];
      Insert(rows[0], rest, column, ascending)
  }

  /** The column a view is sorted by, top to bottom. */
  function Keys(rows: seq<Row>, column: nat): seq<Cell>
  {
    seq(|rows|, k requires 0 <= k < |rows| => Key(rows[k], column))
  }

  ghost predicate CellsSorted(ks: seq<Cell>, ascending: bool)
  {
    forall i, j :: 0 <= i < j < |ks| ==> Precedes(ks[i], ks[j], ascending)
  }

  lemma MultisetRemoveAt<T>(s: seq<T>, p: nat)
    requires p < |s|
    ensures multiset(s[..p] + s[p + 1..]) == multiset(s) - multiset{s[p]}
  {
    assert s == s[..p] + [s[p]] + s[p + 1..];
  }

  function Apply<T, U>(s: seq<T>, f: T -> U): seq<U>
  {
    seq(|s|, k requires 0 <= k < |s| => f(s[k]))
  }

  lemma ApplyRemoveAt<T, U>(s: seq<T>, p: nat, f: T -> U)
    requires p < |s|
    ensures Apply(s[..p] + s[p + 1..], f) == Apply(s, f)[..p] + Apply(s, f)[p + 1..]
  {
  }

  lemma ApplyCons<T, U>(s: seq<T>, f: T -> U)
    requires s != []
    ensures Apply(s, f) == [f(s[0])] + Apply(s[1..], f)
  {
  }

  /** Mapping a function over two orderings of the same elements gives two
      orderings of the same images. */
  lemma {:induction false} ApplyMultiset<T, U>(a: seq<T>, b: seq<T>, f: T -> U)
    requires multiset(a) == multiset(b)
    ensures multiset(Apply(a, f)) == multiset(Apply(b, f))
    decreases |a|
  {
    if a == [] {
      assert |multiset(b)| == 0;
    } else {
      assert a[0] in multiset(b);
      var p :| 0 <= p < |b| && b[p] == a[0];
      var rest := b[..p] + b[p + 1..];
      MultisetRemoveAt(b, p);
      assert a == [a[0]] + a[1..];
      assert multiset(a[1..]) == multiset(a) - multiset{a[0]};
      ApplyMultiset(a[1..], rest, f);
      var fb := Apply(b, f);
      ApplyRemoveAt(b, p, f);
      MultisetRemoveAt(fb, p);
      ApplyCons(a, f);
      assert fb[p] in multiset(fb);
      calc {
        multiset(Apply(a, f));
        multiset{f(a[0])} + multiset(Apply(a[1..], f));
        multiset{fb[p]} + multiset(Apply(rest, f));
        multiset{fb[p]} + (multiset(fb) - multiset{fb[p]});
        multiset(fb);
      }
    }
  }

  lemma KeysMultiset(a: seq<Row>, b: seq<Row>, column: nat)
    requires multiset(a) == multiset(b)
    ensures multiset(Keys(a, column)) == multiset(Keys(b, column))
  {
    var f := (r: Row) => Key(r, column);
    ApplyMultiset(a, b, f);
    assert Keys(a, column) == Apply(a, f);
    assert Keys(b, column) == Apply(b, f);
  }

  lemma CellsSortedTail(ks: seq<Cell>, ascending: bool)
    requires ks != [] && CellsSorted(ks, ascending)
    ensures CellsSorted(ks[1..], ascending)
  {
    var tail := ks[1..];
    forall i, j | 0 <= i < j < |tail| ensures Precedes(tail[i], tail[j], ascending) {
      assert tail[i] == ks[i + 1] && tail[j] == ks[j + 1];
    }
  }

  /** The first cell of a sorted column may stand before every cell of it. */
  lemma CellsSortedHead(ks: seq<Cell>, c: Cell, ascending: bool)
    requires CellsSorted(ks, ascending) && c in ks
    ensures Precedes(ks[0], c, ascending)
  {
    var j :| 0 <= j < |ks| && ks[j] == c;
    if j == 0 { PrecedesTotal(c, c, ascending); }
  }

  lemma {:induction false} SortedCellsUnique(ka: seq<Cell>, kb: seq<Cell>, ascending: bool)
    requires CellsSorted(ka, ascending) && CellsSorted(kb, ascending)
    requires multiset(ka) == multiset(kb)
    ensures ka == kb
    decreases |ka|
  {
    if ka == [] {
      assert |multiset(kb)| == 0;
    } else {
      assert ka[0] in multiset(kb) && kb[0] in multiset(ka);
      CellsSortedHead(kb, ka[0], ascending);
      CellsSortedHead(ka, kb[0], ascending);
      PrecedesAntisymmetric(ka[0], kb[0], ascending);
      assert ka == [ka[0]] + ka[1..] && kb == [kb[0]] + kb[1..];
      assert multiset(ka[1..]) == multiset(kb[1..]) by {
        assert multiset(ka) == multiset{ka[0]} + multiset(ka[1..]);
        assert multiset(kb) == multiset{ka[0]} + multiset(kb[1..]);
        assert multiset(ka[1..]) == multiset(ka) - multiset{ka[0]};
        assert multiset(kb[1..]) == multiset(kb) - multiset{ka[0]};
      }
      CellsSortedTail(ka, ascending);
      CellsSortedTail(kb, ascending);
      SortedCellsUnique(ka[1..], kb[1..], ascending);
    }
  }

  /** Any two orderings of the same rows that are both sorted by the column show
      the same column top to bottom: whichever order pandas gives rows with
      equal keys, the sorted column is the one this model computes. */
  lemma SortedKeysUnique(a: seq<Row>, b: seq<Row>, column: nat, ascending: bool)
    requires multiset(a) == multiset(b)
    requires SortedOn(a, column, ascending) && SortedOn(b, column, ascending)
    ensures Keys(a, column) == Keys(b, column)
  {
    KeysMultiset(a, b, column);
    SortedCellsUnique(Keys(a, column), Keys(b, column), ascending);
  }

  /** Sorting a view that is already sorted by the column changes nothing in
      this model. */
  lemma {:induction false} SortRowsOfSorted(rows: seq<Row>, column: nat, ascending: bool)
    requires SortedOn(rows, column, ascending)
    ensures SortRows(rows, column, ascending) == rows
  {
    if rows != [] {
      SortedTail(rows, column, ascending);
      SortRowsOfSorted(rows[1..], column, ascending);
      if |rows| > 1 {
        assert Precedes(Key(rows[0], column), Key(rows[1], column), ascending);
        assert rows[1..][0] == rows[1];
      }
      assert [rows[0]] + rows[1..] == rows;
    }
  }

  /** Sorting twice by the same column and direction gives what sorting once
      gives, in this model (of pandas' default sort only the key column is
      fixed, see SortedKeysUnique). */
  lemma SortRowsIdempotent(rows: seq<Row>, column: nat, ascending: bool)
    ensures SortRows(SortRows(rows, column, ascending), column, ascending) == SortRows(rows, column, ascending)
  {
    SortRowsOfSorted(SortRows(rows, column, ascending), column, ascending);
  }
}
