# Movies analysis: the table adapter and the start-up cleaning

The movies analysis programs (`movies.py`, `movies_uncolored.py`,
`full_page.py` and the older `old_movies.py`) load a movies table from a CSV
file, clean it once, and show it in a Qt table view next to a set of charts.
This project models the logic under that table view:

- **The start-up cleaning** (modules `Cleaning`, `Movies`, `MoviesUncolored`,
  `FullPage` and `OldMovies`). Repeated rows are removed and the first
  occurrence kept. Rows with a missing cell are removed. Then each program
  drops its own list of columns: movies drops votes, released, writer and
  star; movies_uncolored and full_page drop votes, released and writer;
  old_movies drops none. Row labels (the pandas index) are kept, since nothing
  renumbers them. Dropping a name the table does not have is pandas' KeyError,
  modelled as an outcome.
- **The `PandasModel` adapter** (module `TableModel`). It is identical in
  movies, movies_uncolored and full_page, so one class models all three. It
  keeps the cleaned table (`original`), the rows it currently shows (`view`)
  and the log of the change notifications it has emitted (`notices`). Its
  read accessors give the row and column counts, the cell text and the header
  labels. `Sort` reorders the view by one column. `Filter` rebuilds the view
  from the whole table: a row is kept when its cell in the column, in string
  form, contains the query regardless of case; an empty query brings back the
  whole table.
- **The read-only adapter of old_movies.** It only reads a fixed table,
  through the accessors of module `Frames` (`RowCount`, `ColumnCount`, `Data`,
  `HeaderData`). `OldMovies.ReadOnlyModelShowsCleanTable` states what it shows.
- **The window's use of the adapter** (module `Window`). Showing the table
  builds a fresh adapter. A header click forwards to `Sort`; a search-box edit
  forwards to `Filter`.

Modules `Values` (cell values, their text, the substring test, the sort
order), `Frames` (tables and accessors), `Selection` (boolean-mask selection
and the search) and `Sorting` (sorting by one column) hold the shared
definitions.

Python semantics kept in the model:

- Positions follow Python indexing. A negative column, row or header position
  counts from the end. Anything else out of range raises IndexError.
- `sort` and `filter` emit `layoutAboutToBeChanged` before they look the
  column up. When that lookup raises, the view is unchanged and the log ends
  with an unanswered `LayoutAboutToBeChanged`.
- `filter` with an empty query never looks at the column.
- The search converts the column with `astype(str)` before matching. A
  missing value therefore becomes the text "nan", and a query such as "na"
  matches it, although a missing value is meant never to match. The model
  follows the code. Cleaning removes every missing cell first, so in the
  programs as written this never shows.
- pandas' default sort (quicksort) is not stable, so the code does not
  promise a stable or idempotent sort. The model sorts by insertion
  (`Sorting.SortRows`). Its contract states what every correct sort gives:
  the same rows, ordered by the column, missing values last in both
  directions. `Sorting.SortedKeysUnique` shows that any ordering with those
  two properties shows the same column top to bottom, so that much holds for
  pandas too. The order of rows with equal keys is the model's own choice:
  `Sorting.SortRowsOfSorted` and `Sorting.SortRowsIdempotent` are facts about
  the model's insertion sort, and pandas' quicksort may reorder ties where
  they hold.
- Repeats are removed before the columns are dropped. Two records that differ
  only in a dropped column both stay, and the displayed table can therefore
  contain two identical rows (`Cleaning.RepeatsCanReappearAfterDroppingColumns`),
  although removing repeats is meant to leave no two rows alike. The model
  follows the code.

## Model

| member | source | states |
|---|---|---|
| Values.NatDecimal | movies.py:47 | the decimal text of a row label is non-empty, all digits, without a leading zero except for 0 itself, one digit exactly for labels below 10 |
| Values.NatDecimalValue | movies.py:47 | the decimal text of a label, read back as a decimal number, is that label |
| Values.NatDecimalInjective | movies.py:47 | distinct row labels have distinct header texts (a consequence of NatDecimalValue) |
| Values.IntDecimalValue | movies.py:38 | the text of an integer starts with a minus sign exactly when it is negative, and the digits after the sign read back as its magnitude |
| Values.CellText | movies.py:38 | a missing cell shows as nan, a text cell as its text, a number as an optional minus sign followed by the decimal digits of its magnitude (read back by IntDecimalValue) |
| Values.Contains | movies.py:60 | a pattern is only found in a text at least as long, and the empty pattern is found in every text; ContainsIffOccurs states exactly when it is found |
| Values.CellMatches | movies.py:60 | a cell matches a query exactly when the lower-cased query occurs at some position of the lower-cased cell text |
| Values.ContainsIffOccurs | movies.py:60 | the substring scan succeeds exactly when the query occurs at some position of the text |
| Values.QueryExamples | movies.py:60 | the case-insensitive search "ac" finds Action, action and Fracas and does not find Comedy |
| Values.TextLeTotal | movies.py:54 | any two strings are comparable in the sort order of a text column |
| Values.TextLeTransitive | movies.py:54 | string order is transitive |
| Values.TextLeAntisymmetric | movies.py:54 | strings that sort before each other are equal |
| Values.PrecedesTotal | movies.py:54 | any two cells are ordered one way or the other, in either direction |
| Values.PrecedesTransitive | movies.py:54 | the cell order is transitive, in either direction |
| Values.PrecedesAntisymmetric | movies.py:54 | cells that may stand before each other are equal |
| Frames.RowCount | old_movies.py:18-19 | a view may ask for the vertical header of exactly the positions below the row count, or that far back from the end |
| Frames.ColumnCount | old_movies.py:21-22 | a view may ask for the horizontal header of exactly the positions below the column count, or that far back from the end |
| Frames.PyIndex | movies.py:45 | a position is valid exactly when it lies in [-n, n); a negative position counts from the end |
| Frames.Data | old_movies.py:24-27 | for the display role the text of the cell at the Python positions (row, column), IndexError exactly when a position is out of range; nothing for other roles |
| Frames.HeaderData | old_movies.py:29-35 | the column name across the top and the row's own label down the side, at Python positions, IndexError exactly out of range, nothing for other roles |
| Frames.VerticalHeadersDistinct | old_movies.py:35 | rows with different labels get different vertical headers |
| Frames.VerticalHeaderReadsAsLabel | old_movies.py:33-34 | at every valid position the vertical header is all digits and reads, as a decimal number, as the label of the row shown there |
| Selection.Keep | movies.py:61 | mask selection keeps exactly the elements satisfying the mask, each at most as often as before |
| Selection.KeepAppend | movies.py:61 | mask selection keeps the original order |
| Selection.KeepAll | movies.py:61 | a mask that keeps every row gives back all of them |
| Selection.KeepIdempotent | movies.py:61 | selecting again with the same mask changes nothing |
| Selection.KeepLabelsIncreasing | movies.py:61 | selection keeps increasing row labels increasing |
| Selection.FilterRows | movies.py:60-61 | the search keeps exactly the rows of the table whose lower-cased cell text has the lower-cased query at some position |
| Selection.FilterRowsAppend | movies.py:60-61 | the search keeps rows in table order |
| Selection.FilterRowsLabelsIncreasing | movies.py:60-61 | the found rows keep their original labels in increasing order |
| Selection.FilterRowsIdempotent | movies.py:60-61 | searching the found rows again finds the same rows |
| Sorting.InsertPermutes | movies.py:54 | putting a row into a view adds exactly that row |
| Sorting.InsertSorted | movies.py:54 | putting a row into a sorted view keeps it sorted |
| Sorting.SortRows | movies.py:53-54 | sorting gives the same rows (a permutation), ordered by the column in the chosen direction, missing values last |
| Sorting.SortedKeysUnique | movies.py:54 | two sorted orderings of the same rows show the same column top to bottom, whichever way ties are broken |
| Sorting.SortRowsOfSorted | movies.py:54 | in the model, sorting a view already sorted by that column leaves it as is (pandas' quicksort may reorder ties; only the key column is fixed) |
| Sorting.SortRowsIdempotent | movies.py:54 | in the model, sorting twice by the same column and direction is sorting once (pandas' quicksort may reorder ties; only the key column is fixed) |
| Cleaning.DropDuplicates | movies.py:13 | removing repeats never adds rows; DropDuplicatesMembers, DropDuplicatesDistinct and DropDuplicatesLabelsIncreasing state which rows stay and in what order |
| Cleaning.DropDuplicatesSound | movies.py:13 | every row kept is the first occurrence of its record |
| Cleaning.DropDuplicatesComplete | movies.py:13 | every first occurrence of a record is kept |
| Cleaning.DropDuplicatesMembers | movies.py:13 | the rows kept are exactly the first occurrences of each record |
| Cleaning.DropDuplicatesDistinct | movies.py:13 | no two kept rows have the same cells |
| Cleaning.DropDuplicatesSubMultiset | movies.py:13 | removing repeats only removes rows |
| Cleaning.DropDuplicatesLabelsIncreasing | movies.py:13 | removing repeats keeps labels in increasing order |
| Cleaning.DropDuplicatesKeepsEveryRecord | movies.py:13 | every record of the table is still present after removing repeats |
| Cleaning.DropMissing | movies.py:14 | the rows kept are exactly the rows of the table with no missing cell, each at most as often as before (the order is kept, by Selection.KeepAppend) |
| Cleaning.KeepDistinctCells | movies.py:14 | removing incomplete rows keeps records distinct |
| Cleaning.SurvivorsProperties | movies.py:13-14 | after both row steps: exactly the complete first occurrences, distinct, none missing, taken from the table, labels still increasing |
| Cleaning.KeptPositions | movies.py:15 | the positions kept are exactly those of the columns not named, in increasing order |
| Cleaning.KeptColumns | movies.py:15 | a column is kept exactly when it is not named |
| Cleaning.DropColumns | movies.py:15 | a KeyError reports a non-empty list holding exactly the names that are not columns; otherwise the table keeps its number of rows (DropColumnsFails and DropColumnsKeeps give the rest) |
| Cleaning.DropColumnsFails | movies.py:15 | dropping fails exactly when a name is not a column, and reports exactly those names |
| Cleaning.DropColumnsKeeps | movies.py:15 | otherwise every row stays under its label with the cells of the columns not named, in order, and the table stays well formed |
| Cleaning.SurvivorsWellFormed | movies.py:13-14 | the rows left after both row steps still fit the table's columns |
| Cleaning.Clean | movies.py:12-15 | cleaning succeeds exactly when every dropped name is a column, and a KeyError reports exactly the names that are not; CleanProperties gives the cleaned table |
| Cleaning.CleanShape | movies.py:12-15 | when every dropped name is a column, the cleaned table has the columns not named, in file order, and exactly the surviving rows, in order, each under its label and narrowed to those columns |
| Cleaning.CleanedFromShape | movies.py:12-15 | a table with the kept columns in order and the surviving rows in order, narrowed to them under their labels, has no missing cell, exactly the surviving labels and increasing labels when the file's are |
| Cleaning.CleanKeeps | movies.py:12-15 | when every dropped name is a column, the cleaned table is as CleanedFrom describes: the kept columns in order, the surviving rows in order narrowed to them under their labels, no missing cell, labels still increasing |
| Cleaning.CleanProperties | movies.py:12-15 | cleaning succeeds exactly when every dropped name is a column, and then leaves the table CleanedFrom describes (the kept columns in order, the surviving rows in order narrowed to them under their labels) |
| Cleaning.CleanDroppingThree | movies_uncolored.py:12-16 | dropping three named columns succeeds exactly when all three are columns; then none is left, every other column stays, and the table is as CleanedFrom describes |
| Cleaning.CleanDroppingFour | movies.py:12-15 | dropping four named columns succeeds exactly when all four are columns; then none is left, every other column stays, and the table is as CleanedFrom describes |
| Cleaning.RepeatsCanReappearAfterDroppingColumns | movies.py:13-15 | two complete records differing only in a dropped column both stay and end up with the same cells |
| Movies.LoadData | movies.py:12-15 | loading succeeds exactly when votes, released, writer and star are all columns, and otherwise reports exactly those of them that are missing |
| MoviesUncolored.LoadData | movies_uncolored.py:12-16 | loading succeeds exactly when votes, released and writer are all columns, and otherwise reports exactly those of them that are missing |
| FullPage.LoadData | full_page.py:12-16 | loading succeeds exactly when votes, released and writer are all columns, and otherwise reports exactly those of them that are missing |
| OldMovies.LoadData | old_movies.py:9-11 | the cleaned table keeps the columns, keeps no row with a missing cell and only rows of the file, each at most as often (LoadDataProperties gives the rest) |
| Movies.LoadDataProperties | movies.py:12-15 | loading succeeds exactly when votes, released, writer and star are columns; then none of them is left and the table is as CleanedFrom describes: the other columns in order, the surviving rows in order narrowed to them under their labels |
| MoviesUncolored.LoadDataProperties | movies_uncolored.py:12-16 | loading succeeds exactly when votes, released and writer are columns; then they are gone, star stays, and the table is as CleanedFrom describes |
| FullPage.LoadDataProperties | full_page.py:12-16 | loading succeeds exactly when votes, released and writer are columns; then they are gone, star stays, and the table is as CleanedFrom describes |
| OldMovies.LoadDataProperties | old_movies.py:9-11 | the cleaned table keeps every column, has no missing cell, no two rows alike, exactly the complete first occurrences, labels still increasing |
| OldMovies.ReadOnlyModelShowsCleanTable | old_movies.py:13-35 | the read-only adapter shows each surviving record's cells, one row each, the column names and the records' original labels |
| TableModel.PandasModel.constructor | movies.py:22-25 | a new adapter shows the whole table in order and has emitted nothing |
| TableModel.PandasModel.RowCount | movies.py:27-29 | the row count is the number of rows shown, never more than the table has |
| TableModel.PandasModel.ColumnCount | movies.py:31-33 | the column count is the number of columns of the table, whatever was searched or sorted |
| TableModel.PandasModel.Data | movies.py:35-39 | the text of the cell of the shown row at the Python position (negative counts from the end), IndexError exactly out of range, nothing for other roles |
| TableModel.PandasModel.HeaderData | movies.py:41-48 | column names across the top; down the side the original label of the row shown there, not its position; Python positions, IndexError exactly out of range |
| TableModel.PandasModel.Sort | movies.py:50-55 | one notice before and one after; the view becomes the same rows ordered by the column; IndexError leaves the view and an unanswered notice |
| TableModel.PandasModel.Filter | movies.py:57-64 | one notice before and one after; the view becomes the matching rows of the whole table in table order, or the whole table for an empty query, whatever was shown before |
| TableModel.SearchIgnoresHistory | movies_uncolored.py:52-59 | after a search and a sort, a search shows exactly what the same search shows on a new adapter |
| TableModel.SortKeepsSearch | full_page.py:46-50 | after a search, a sort keeps exactly the found rows and orders them |
| Window.App.constructor | movies.py:150 | the window shows the whole table as soon as it is built |
| Window.App.ViewDataframe | full_page.py:122-127 | showing the table again attaches a new adapter showing the whole table |
| Window.App.HandleColumnClick | movies.py:199-201 | a header click sorts the view by that column, with a notice before and one after; IndexError leaves the view and an unanswered notice |
| Window.App.HandleSearch | movies.py:203-205 | a search-box edit searches that box's column, with a notice before and one after; a box's column always exists, so it never raises |

## Left out

- Reading the CSV file: the model starts from the table already read (a `Frame`).
- The Qt widgets: layouts, buttons, stylesheets, the stacked widget, creating
  and removing search boxes (`clear_search_boxes`), and the repeated
  `sortIndicatorChanged.connect` on every showing of the table.
- Every chart method and the missing-column guard before a chart: they are
  plotting calls over floating-point group-by aggregates and random colours.
- Values.CellText: every number is an integer and renders as its decimal
  digits. A numeric column that pandas reads as floats renders with a
  fractional part ("6000000.0"), which the model does not reproduce, because
  floating point is not modelled. For such a column this also changes which
  cells a query matches.
- Values.CellMatches: lower-casing is ASCII only. Python's Unicode case
  folding is not modelled.
- TableModel.PandasModel.Filter: the query is matched as a literal string.
  `str.contains` treats it as a regular expression, so the model is faithful
  only for queries without regular-expression metacharacters. The re.error
  an invalid pattern raises is not modelled.
- Sorting.SortRows: the order of rows with equal keys is the model's choice.
  pandas' quicksort leaves it unspecified, so no stability is claimed for the
  programs.
- Values.ValueLe: a column mixing numbers and text makes pandas raise
  TypeError. The model orders numbers first instead; a column read from the
  file never mixes the two.
- What happens to the application after a mutator raises, which is up to
  PyQt's handling of exceptions in slots: the model only records the state
  the adapter is left in.
- The bugs outside the core: old_movies changes the global table inside its
  chart methods, and full_page uses `self.ax` before it may be assigned.
