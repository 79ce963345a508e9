# datatable in Dafny

A model of the Go package `datatable`, an in-memory relational table of
strings. A `DataTable` holds its rows (each a slice of strings), a row
count and a column count, and is updated in place. Around it the package
offers projection, slicing, merging and three joins: a nested-loop join, a
left-outer join and a hash join.

The model has four modules:

- `DataTables` (`datatable.dfy`): the `DataTable` class with fields `rows`,
  `nrow` and `ncol` and the invariant `Valid()` (`nrow` counts the rows and
  every row is `ncol` wide). Every operation that changes a table is a
  method with a `modifies` clause, and every one of them keeps `Valid()`.
  - The index checks Go makes at run time (a panic on an index out of
    range) become `requires` clauses, stated exactly. For example,
    `GetColumn(y)` reads column `y` only when the table has rows, so it
    requires `y` in range only then. `RemoveColumn(y)` checks for a single
    column before it reads any cell, so it requires `y` in range only for
    a table with rows and more than one column. `Slice(x, n)` computes
    its end `x + n` in Go's 64-bit `int`, and a sum past `MaxInt` wraps
    to a negative end that makes the slice expression panic, so it
    requires that sum to fit.
  - `NumRow`, `NumCol` and `Get` are the field and cell accessors. Their
    contracts say what the counts and the cell mean on a valid table.
    `GetRow` and `GetColumn` are proved to agree with `Get` cell by cell.
  - The two panics `"Row data corrupted"` in `Project` and `Merge` are
    proved unreachable: each is an `assert false` in a branch the verifier
    shows is never taken.
- `JoinSpec` (`join_spec.dfy`): the rows each join emits, as functions
  over row sequences, and the lemmas that relate them.
  - `JoinRows` is left-major and `JoinRowsByRight` right-major.
  - `LeftJoinRows` adds padded rows for left rows without a match.
  - `Index` is the hash table of the hash join and `Probe` its probe
    phase.
- `Joins` (`joins.dfy`): the three joins. In Go each join runs a producer
  goroutine that sends the joined rows over a channel. A consumer appends
  them to a fresh table and ignores `AppendRow`'s error.
  - Here the producer is a method that returns the emitted rows in order,
    and `Collect` is the consumer.
  - `FittingAll` proves that the ignored error never occurs.
- `Scenarios` (`scenarios.dfy`): the package's examples, its unit tests of
  creating, slicing and removing rows and columns, and the single-column
  refusal, replayed against the model with the results they expect.

Some edge behaviour of the code is easy to miss, and the model keeps it
as written:

- Decoding an empty JSON array gives a table with `ncol == 0`
  (datatable.go:194-203), whatever the encoded table's column count was. Encoding and then decoding an
  empty table therefore does not give back the same table.
- `RemoveColumn(y)` on a table without rows accepts any `y`, because no
  row is touched, and still decrements `ncol` (datatable.go:115-118). On
  a one-column table it accepts any `y` and returns `errSingleCol`
  (datatable.go:112-114).
- `Slice(x, n)` accepts `x == nrow` and then gives an empty table
  (datatable.go:150-154).
- `FromCSV` does not check the widths of the records after the first
  itself (datatable.go:239-244). The model states that the table it builds is valid exactly when
  the records are rectangular.

## Model

| member | source | states |
|---|---|---|
| DataTables.DataTable.constructor | datatable.go:28-35 | a new table has no rows, zero row count, the given column count, and is valid |
| DataTables.DataTable.AppendRow | datatable.go:48-55 | a row of the wrong width gives `errNumCol` and leaves rows, row count and column count unchanged; otherwise the row is added at the end, the row count grows by one, earlier rows and the column count stay, and the table stays valid |
| DataTables.DataTable.NumRow | datatable.go:38-40 | on a valid table, the row count is the number of rows |
| DataTables.DataTable.NumCol | datatable.go:43-45 | on a valid table, the column count is the width of every row |
| DataTables.DataTable.Get | datatable.go:58-60 | for row `x` and column `y` in range, the cell at row `x`, column `y` |
| DataTables.DataTable.GetRow | datatable.go:63-67 | the returned row is row `x`, `ncol` cells wide, and its cell `y` is `Get(x, y)` |
| DataTables.DataTable.GetColumn | datatable.go:70-76 | the result has one cell per row, and cell `x` is row `x`'s cell `y`, that is `Get(x, y)` |
| DataTables.DataTable.ApplyColumn | datatable.go:83-90 | no error exactly when the callback succeeds on every `(x, rows[x][y])`; otherwise the error is the callback's on the first row where it fails, and every earlier row succeeded |
| DataTables.DataTable.ApplyColumns | datatable.go:97-108 | as ApplyColumn, with each row projected on `ys` in the caller's order |
| DataTables.PickColumns | datatable.go:99-102 | the projected row has one cell per index, and cell `i` is the row's cell `ys[i]` |
| DataTables.RemoveAt | datatable.go:116 | removing cell `y` keeps the cells before `y`, shifts the cells after it down by one, and loses exactly that one cell (as a multiset) |
| DataTables.DataTable.RemoveColumn | datatable.go:111-120 | with one column it returns `errSingleCol` and changes nothing, whatever `y` is; otherwise the column count drops by one, the row count stays, every row loses cell `y`, and the table stays valid |
| DataTables.DataTable.RemoveRow | datatable.go:123-126 | the rows become the rows before `x` followed by those after it, the row count drops by one, and the column count stays |
| DataTables.DataTable.Project | datatable.go:130-142 | a fresh valid table with `|ys|` columns and the same row count, whose cell `(x, i)` is the source cell `(x, ys[i])`; the internal AppendRow never fails |
| DataTables.DataTable.Slice | datatable.go:149-160 | a fresh valid table with the same column count holding rows `x` to `x + n`, cut off at the end of the table, for an `x + n` that fits Go's 64-bit `int` |
| DataTables.AlignRow | datatable.go:168-173 | the new row is `width` wide; a mapped column takes the source cell its mapping names, and an unmapped one is empty |
| DataTables.DataTable.Merge | datatable.go:165-178 | exactly `dt2.nrow` rows are appended after the untouched existing rows; appended row `k` is `dt2`'s row `k` aligned through the column map; the column count stays, the table stays valid, and the internal AppendRow never fails |
| DataTables.DataTable.UnmarshalRows | datatable.go:194-209 | rectangular decoded rows replace the table, with the first row's width as column count (0 when there are no rows); rows of unequal width give `errNumCol` and leave the table unchanged |
| DataTables.FromCSV | datatable.go:230-245 | no records gives `errEmptyCSVFile`; otherwise a fresh table of the records, with the first record's width as column count, which is valid exactly when the records are rectangular |
| JoinSpec.Pad | datatable.go:294 | `n` empty cells |
| JoinSpec.MatchesMembers | datatable.go:259-264 | a row is emitted for left row `l` exactly when it is `l ++ r` for a right row `r` with `fn(l, r)`; nothing is emitted exactly when no right row matches; at most one row per right row |
| JoinSpec.JoinRowsMembers | datatable.go:257-265 | the join's rows are exactly the `l ++ r` for the pairs that satisfy the predicate |
| JoinSpec.JoinRowsWidth | datatable.go:262 | every joined row is `left.ncol + right.ncol` wide |
| JoinSpec.LeftJoinRowsLength | datatable.go:283-297 | the left join emits at least one row per left row: the inner join's rows plus one padded row per unmatched left row |
| JoinSpec.LeftJoinRowsSplit | datatable.go:283-297 | as a multiset, the left join's rows are the inner join's plus the padded unmatched left rows |
| JoinSpec.UnmatchedMembers | datatable.go:293-296 | every left row that matches nothing appears padded with `right.ncol` empty cells, and every padded row comes from such a left row |
| JoinSpec.LeftJoinAllMatched | datatable.go:293-296 | when every left row has a match, the left join equals the inner join |
| JoinSpec.LeftJoinRowsWidth | datatable.go:286-296 | every left-join row is `left.ncol + right.ncol` wide |
| JoinSpec.IndexBuckets | datatable.go:335-343 | the bucket of each key holds the rows of the hashed table with that key, in row order, and a key has a bucket exactly when some row has it |
| JoinSpec.EmitLeft | datatable.go:327-351 | probing with a left row when the right table is hashed emits exactly that row's matches under `fnLeft(l) == fnRight(r)`, in right-row order |
| JoinSpec.EmitRight | datatable.go:321-351 | probing with a right row when the left table is hashed emits `l ++ r` for its matching left rows, in left-row order |
| JoinSpec.ProbeLeft | datatable.go:345-353 | probing the hashed right table with every left row gives the nested-loop join's sequence |
| JoinSpec.ProbeRight | datatable.go:345-353 | probing the hashed left table with every right row gives the join's rows in right-major order |
| JoinSpec.ByRightPermutes | datatable.go:345-353 | the right-major enumeration of the join is a permutation of the left-major one |
| JoinSpec.HashJoinInOrder | datatable.go:327-353 | when the left table is not the larger, the right one is hashed and the hash join's rows are the nested-loop join's under `fnLeft(l) == fnRight(r)`, in the same order |
| JoinSpec.HashJoinByRight | datatable.go:321-353 | when the left table is the larger, it is hashed and the hash join's rows are the same join's in right-major order |
| JoinSpec.HashJoinIsJoin | datatable.go:321-353 | whichever table is hashed, the hash join's rows are a permutation of the nested-loop join's under `fnLeft(l) == fnRight(r)` |
| JoinSpec.HashJoinRowsWidth | datatable.go:324-332 | every hash-join row is `left.ncol + right.ncol` wide, whichever table is hashed |
| Joins.FittingAll | datatable.go:269-271 | when every emitted row has the result's width, appending them all keeps every row, so the ignored AppendRow error never occurs |
| Joins.Collect | datatable.go:268-272 | the consumer's table is fresh and valid, has the given width, and keeps the emitted rows of that width in order |
| Joins.JoinProducer | datatable.go:256-267 | the nested loops emit the join's rows in left-major, right-minor order |
| Joins.LeftJoinProducer | datatable.go:282-299 | the nested loops with the `rowsJoined` counter emit the left join's rows, each unmatched left row padded right after its (empty) matches |
| Joins.BuildIndex | datatable.go:335-343 | the loop builds the hash table whose bucket for each key is the larger table's rows with that key, in order |
| Joins.ProbeIndex | datatable.go:345-353 | the probe loop emits `fnJoin(rowSmall, b)` for every bucket entry `b` of every smaller-table row's key, in order |
| Joins.HashJoinProducer | datatable.go:314-354 | the producer hashes the table with more rows (the right one on a tie) and emits the hash join's rows |
| Joins.Join | datatable.go:254-273 | a fresh valid table `left.ncol + right.ncol` wide whose rows are the join's rows in left-major order |
| Joins.LeftJoin | datatable.go:280-305 | a fresh valid table `left.ncol + right.ncol` wide whose rows are the left join's rows |
| Joins.HashJoin | datatable.go:313-360 | a fresh valid table `left.ncol + right.ncol` wide whose rows are the nested-loop join's under key equality: the same sequence when the left table is not the larger, right-major otherwise, and the same multiset always |
| Scenarios.AppendRowScenario | datatable_test.go:16-38 | a two-cell row is refused by a three-column table of two rows; the counts, cell `(0, 2)`, row 1 and column 1 read back as the test expects |
| Scenarios.ProjectSliceScenario | example_test.go:47-79 | projecting the four-row table on columns 0 and 2 and slicing two rows from row 1 give the documented tables |
| Scenarios.SliceScenario | datatable_test.go:40-71 | slicing ten rows from row 0 keeps all four rows and three columns; two rows from row 2 are the last two; no rows from row 1 gives an empty table that then accepts one three-cell row |
| Scenarios.RemoveRowScenario | datatable_test.go:89-119 | removing row 1 and then row 0 leaves the last two rows; removing row 3 of a fresh table leaves the first three |
| Scenarios.RemoveColumnScenario | datatable_test.go:121-144 | removing column 1 and then column 0 succeeds both times and leaves the third column, one column wide |
| Scenarios.RemoveLastIndexScenario | datatable_test.go:146-156 | removing column 2 succeeds and leaves the first two columns |
| Scenarios.RemoveLastColumnScenario | datatable.go:112-114 | removing the only column, here with index 5, returns `errSingleCol` and leaves the table as it was |
| Scenarios.JoinRowsScenario | example_test.go:81-102 | joining the documented tables on their first cells gives `a,b,c,a,1` and `f,k,x,f,2` |
| Scenarios.ByRightScenario | example_test.go:104-128 | the hash join of the documented tables, which hashes the larger left table, gives the same two rows in the same order |
| Scenarios.JoinScenario | example_test.go:81-128 | the nested-loop join and the hash join of the documented tables both give the two documented rows, five columns wide |

## Left out

- JSON and CSV encoding and decoding (`MarshalJSON`, the parsing in
  `UnmarshalJSON`, `ToCSV`, the reader in `FromCSV`): these call the
  standard library's codecs. The model takes the already decoded rows as
  input and models only the shape checks applied to them.
- The goroutine and unbuffered channel in each join: there is one
  producer and one consumer, so the hand-off is modelled as a sequence
  returned by the producer and appended in order by the consumer.
- Go slice aliasing: rows are immutable sequences. The model does not
  capture that `Slice` shares its parent's backing array, that
  `AppendRow` stores the caller's slice without copying, or that
  `RemoveColumn` rewrites rows in place.
- The nil-receiver error of `UnmarshalJSON`: Dafny references in the
  model are never null.
- Side effects of callbacks: the callbacks of `ApplyColumn` and
  `ApplyColumns`, the join predicate of `Join` and `LeftJoin`, and the key
  functions of `HashJoin` are pure Dafny functions.
  - The documented examples that accumulate a string or a set through
    an `ApplyColumn` or `ApplyColumns` callback are therefore not
    replayed.
  - In Go, `Join` and `LeftJoin` pass the same left-row slice to the
    predicate for every right row (datatable.go:258-261, 284-288), and
    `HashJoin` passes each row to `fnLarge` or `fnSmall` before it stores
    or joins it (datatable.go:337-350). A callback that writes into its
    argument changes the rows emitted later. The model cannot express
    that.
- Go's 64-bit `int` elsewhere: row and column counts are unbounded
  integers. The row count cannot wrap in practice, because it would need
  more rows than memory can hold. The column count is chosen by the caller
  (`NewDataTable` accepts any `int`), so two column computations can wrap
  in Go and do not in the model; they are named on the next two lines.
  `Slice`'s `x + n` is bounded by a `requires` instead.
- Joins.Join, Joins.LeftJoin, Joins.HashJoin: the result width
  `left.NumCol() + right.NumCol()` (datatable.go:268, 300, 355) is an
  unbounded sum here. In Go a sum past `MaxInt` wraps to a negative width;
  the model gives `left.ncol + right.ncol` as is.
- DataTables.DataTable.RemoveColumn: the decrement `dt.ncol--`
  (datatable.go:118) runs even on a table without rows. In Go, on a
  column count of the smallest `int` it wraps to `MaxInt`; the model gives
  one less than the old count.
- DataTables.DataTable.Merge: requires `dt2 != this` unless the table is
  empty. Merging a non-empty table into itself never terminates in Go,
  because the loop bound re-reads the growing row count.
- Error values other than the three sentinels (I/O errors from a reader)
  are not modelled.
