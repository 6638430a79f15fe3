/** Row selection by a boolean mask (`frame[mask]`), and the search filter
    built on it. */
module Selection {
  import opened Values
  import opened Frames

  /** The elements of s that satisfy p, in their order in s: what indexing a
      table with a boolean mask keeps. */
  function Keep<T(!new)>(s: seq<T>, p: T -> bool): (r: seq<T>)
    ensures |r| <= |s|
    ensures multiset(r) <= multiset(s)
    ensures forall x :: x in r <==> x in s && p(x)
  {
    if s == [] then []
    else
      assert s == [s[0]] + s[1..];
      (if p(s[0]) then [s[0]] else []) + Keep(s[1..], p)
  }

  /** Selection distributes over concatenation: each element keeps its place
      relative to the others. */
  lemma {:induction false} KeepAppend<T(!new)>(a: seq<T>, b: seq<T>, p: T -> bool)
    ensures Keep(a + b, p) == Keep(a, p) + Keep(b, p)
  {
    if a != [] {
      assert (a + b)[0] == a[0] && (a + b)[1..] == a[1..] + b;
      KeepAppend(a[1..], b, p);
    } else {
      assert a + b == b;
    }
  }

  /** Nothing is dropped when every element satisfies the predicate. */
  lemma {:induction false} KeepAll<T(!new)>(s: seq<T>, p: T -> bool)
    requires forall x :: x in s ==> p(x)
    ensures Keep(s, p) == s
  {
    if s != [] {
      KeepAll(s[1..], p);
    }
  }

  /** Selecting twice with the same mask predicate selects nothing more. */
  lemma KeepIdempotent<T(!new)>(s: seq<T>, p: T -> bool)
    ensures Keep(Keep(s, p), p) == Keep(s, p)
  {
    KeepAll(Keep(s, p), p);
  }

  /** Selection keeps the row labels in increasing order. */
  lemma {:induction false} KeepLabelsIncreasing(rows: seq<Row>, p: Row -> bool)
    requires LabelsIncreasing(rows)
    ensures LabelsIncreasing(Keep(rows, p))
  {
    if rows != [] {
      KeepLabelsIncreasing(rows[1..], p);
      var tail := Keep(rows[1..], p);
      forall x | x in tail ensures rows[0].index < x.index {
        var k :| 0 <= k < |rows[1..]| && rows[1..][k] == x;
        assert rows[k + 1] == x;
      }
    }
  }

  /** The mask of the search: the row's cell in the given column, in string
      form, contains the query regardless of case. */
  predicate RowMatches(r: Row, column: nat, query: string)
  {
    column < |r.cells| && CellMatches(r.cells[column], query)
  }

  /** The rows a search keeps: exactly those whose text in the column has the
      lower-cased query as a substring of its lower-cased form, in table order. */
  function FilterRows(rows: seq<Row>, column: nat, query: string): (r: seq<Row>)
    ensures multiset(r) <= multiset(rows)
    ensures forall x :: x in r <==>
      x in rows && column < |x.cells| &&
      exists i :: OccursAt(Lower(query), Lower(CellText(x.cells[column])), i)
  {
    var r := Keep(rows, x => RowMatches(x, column, query));
    assert forall x: Row :: column < |x.cells| ==>
      (RowMatches(x, column, query) <==>
       exists i :: OccursAt(Lower(query), Lower(CellText(x.cells[column])), i)) by {
      forall x: Row | column < |x.cells| {
        ContainsIffOccurs(Lower(CellText(x.cells[column])), Lower(query));
      }
    }
    r
  }

  /** A search keeps rows in table order: searching a table made of two parts
      is searching each part. */
  lemma FilterRowsAppend(a: seq<Row>, b: seq<Row>, column: nat, query: string)
    ensures FilterRows(a + b, column, query) == FilterRows(a, column, query) + FilterRows(b, column, query)
  {
    KeepAppend(a, b, x => RowMatches(x, column, query));
  }

  /** A search keeps the original labels in their original order. */
  lemma FilterRowsLabelsIncreasing(rows: seq<Row>, column: nat, query: string)
    requires LabelsIncreasing(rows)
    ensures LabelsIncreasing(FilterRows(rows, column, query))
  {
    KeepLabelsIncreasing(rows, x => RowMatches(x, column, query));
  }

  /** Repeating a search on its own result changes nothing. */
  lemma FilterRowsIdempotent(rows: seq<Row>, column: nat, query: string)
    ensures FilterRows(FilterRows(rows, column, query), column, query) == FilterRows(rows, column, query)
  {
    KeepIdempotent(rows, x => RowMatches(x, column, query));
  }
}
