/** The table store: a DataTable holds a grid of strings, row-major, with
    its row and column counts, and is updated in place. */
module DataTables {

  datatype Option<+T> = None | Some(value: T)

  datatype Result<+T, +E> = Success(value: T) | Failure(error: E)

  /** The package's sentinel errors. */
  datatype Error =
    | ErrNumCol        // a row of the wrong width
    | ErrSingleCol     // refusing to remove the last column
    | ErrEmptyCSVFile  // a CSV source without a single record

  type Row = seq<string>

  /** The largest value of Go's 64-bit `int`. */
  const MaxInt: int := 0x7fff_ffff_ffff_ffff

  /** Every row has exactly `width` cells. */
  predicate AllWidth(rows: seq<Row>, width: int) {
    forall x :: 0 <= x < |rows| ==> |rows[x]| == width
  }

  /** Every index of `ys` names a cell of a row `width` wide. */
  predicate InRange(ys: seq<int>, width: int) {
    forall i :: 0 <= i < |ys| ==> 0 <= ys[i] < width
  }

  /** Every row as wide as the first one. */
  predicate Rectangular(rows: seq<Row>) {
    forall x :: 0 <= x < |rows| ==> |rows[x]| == |rows[0]|
  }

  /** The cells of `row` at the columns `ys`, in the order of `ys`. */
  function Projected(row: Row, ys: seq<int>): Row
    requires InRange(ys, |row|)
  {
    seq(|ys|, i requires 0 <= i < |ys| => row[ys[i]])
  }

  /** The row that Merge builds out of `row2`: destination column `y1` takes
      `row2[matches[y1]]` when `y1` is mapped and the empty string otherwise. */
  function Aligned(row2: Row, matches: map<int, int>, width: nat): Row
    requires forall y1 :: 0 <= y1 < width && y1 in matches ==> 0 <= matches[y1] < |row2|
  {
    seq(width, y1 requires 0 <= y1 < width => if y1 in matches then row2[matches[y1]] else "")
  }

  /** `row` without its cell `y`; the later cells move one place left. */
  function RemoveAt(row: Row, y: int): (r: Row)
    requires 0 <= y < |row|
    ensures |r| == |row| - 1
    ensures forall i :: 0 <= i < y ==> r[i] == row[i]
    ensures forall i :: y <= i < |r| ==> r[i] == row[i + 1]
    ensures multiset(r) + multiset{row[y]} == multiset(row)
  {
    assert row == row[..y] + [row[y]] + row[y + 1..];
    row[..y] + row[y + 1..]
  }

  /** Copies the cells of `row` at the columns `ys` into a freshly made row,
      in the order the caller gives them (repetitions allowed). */
  method PickColumns(row: Row, ys: seq<int>) returns (row2: Row)
    requires InRange(ys, |row|)
    ensures |row2| == |ys|
    ensures forall i :: 0 <= i < |ys| ==> row2[i] == row[ys[i]]
  {
    var a := new string[|ys|](_ => "");
    for y2 := 0 to |ys|
      invariant forall i :: 0 <= i < y2 ==> a[i] == row[ys[i]]
    {
      a[y2] := row[ys[y2]];
    }
    row2 := a[..];
  }

  /** Builds a row `width` wide out of `row2` through the partial column map
      `matches`; unmapped columns keep the empty string. */
  method AlignRow(row2: Row, matches: map<int, int>, width: int) returns (row1: Row)
    requires width >= 0
    requires forall y1 :: 0 <= y1 < width && y1 in matches ==> 0 <= matches[y1] < |row2|
    ensures |row1| == width
    ensures forall y1 :: 0 <= y1 < width && y1 in matches ==> row1[y1] == row2[matches[y1]]
    ensures forall y1 :: 0 <= y1 < width && y1 !in matches ==> row1[y1] == ""
  {
    var a := new string[width](_ => "");
    for y1 := 0 to width
      invariant forall i :: 0 <= i < y1 && i in matches ==> a[i] == row2[matches[i]]
      invariant forall i :: 0 <= i < width && (y1 <= i || i !in matches) ==> a[i] == ""
    {
      if y1 in matches {
        a[y1] := row2[matches[y1]];
      }
    }
    row1 := a[..];
  }

  class DataTable {
    var rows: seq<Row>
    var nrow: int
    var ncol: int

    /** The table invariant: `nrow` counts the rows and every row is `ncol` wide. */
    predicate Valid()
      reads this
    {
      nrow == |rows| && AllWidth(rows, ncol)
    }

    /** A new, empty table with `ncol` columns. */
    constructor (ncol: int)
      ensures Valid()
      ensures rows == [] && nrow == 0 && this.ncol == ncol
    {
      rows := [];
      nrow := 0;
      this.ncol := ncol;
    }

    /** A table built directly from its three fields, as a struct literal does. */
    constructor Of(rows: seq<Row>, nrow: int, ncol: int)
      ensures this.rows == rows && this.nrow == nrow && this.ncol == ncol
    {
      this.rows := rows;
      this.nrow := nrow;
      this.ncol := ncol;
    }

    /** The row count: on a valid table, the number of rows. */
    function NumRow(): (n: int)
      reads this
      ensures Valid() ==> n == |rows|
    {
      nrow
    }

    /** The column count: on a valid table, the width of every row. */
    function NumCol(): (c: int)
      reads this
      ensures Valid() ==> forall x :: 0 <= x < |rows| ==> |rows[x]| == c
    {
      ncol
    }

    /** The cell at row `x`, column `y`. */
    function Get(x: int, y: int): (cell: string)
      reads this
      requires Valid()
      requires 0 <= x < nrow && 0 <= y < ncol
      ensures cell == rows[x][y]
    {
      rows[x][y]
    }

    /** Appends `row` at the bottom, or refuses a row of the wrong width. */
    method AppendRow(row: Row) returns (err: Option<Error>)
      requires Valid()
      modifies this
      ensures Valid()
      ensures ncol == old(ncol)
      ensures |row| != ncol ==> err == Some(ErrNumCol) && rows == old(rows) && nrow == old(nrow)
      ensures |row| == ncol ==> err == None && rows == old(rows) + [row] && nrow == old(nrow) + 1
    {
      if |row| != ncol {
        return Some(ErrNumCol);
      }
      rows := rows + [row];
      nrow := nrow + 1;
      return None;
    }

    /** A copy of row `x`. */
    method GetRow(x: int) returns (row: Row)
      requires Valid()
      requires 0 <= x < nrow
      ensures |row| == ncol
      ensures row == rows[x]
      ensures forall y :: 0 <= y < ncol ==> row[y] == Get(x, y)
    {
      row := rows[x];
    }

    /** A copy of column `y`, top to bottom. Column `y` is only read when
        there is a row, so an empty table accepts any `y`. */
    method GetColumn(y: int) returns (col: seq<string>)
      requires Valid()
      requires |rows| > 0 ==> 0 <= y < ncol
      ensures |col| == nrow
      ensures forall x :: 0 <= x < nrow ==> col[x] == rows[x][y]
      ensures forall x :: 0 <= x < nrow ==> col[x] == Get(x, y)
    {
      var a := new string[nrow](_ => "");
      for x := 0 to |rows|
        invariant forall x' :: 0 <= x' < x ==> a[x'] == rows[x'][y]
      {
        a[x] := rows[x][y];
      }
      col := a[..];
    }

    /** Calls `fn` on (x, rows[x][y]) for x = 0, 1, ... and returns the first
        error it gives: None exactly when no row gives one, and otherwise the
        error of the least row that does, every row before it giving none. */
    method ApplyColumn<E(==)>(fn: (int, string) -> Option<E>, y: int) returns (err: Option<E>)
      requires Valid()
      requires |rows| > 0 ==> 0 <= y < ncol
      ensures err.None? <==> forall x :: 0 <= x < |rows| ==> fn(x, rows[x][y]).None?
      ensures err.Some? ==> exists x :: (0 <= x < |rows| && err == fn(x, rows[x][y]) &&
        forall x' :: 0 <= x' < x ==> fn(x', rows[x'][y]).None?)
    {
      var x := 0;
      while x < |rows|
        invariant 0 <= x <= |rows|
        invariant forall x' :: 0 <= x' < x ==> fn(x', rows[x'][y]).None?
      {
        var e := fn(x, rows[x][y]);
        if e.Some? {
          return e;
        }
        x := x + 1;
      }
      return None;
    }

    /** As ApplyColumn, but `fn` receives the cells of row x at the columns
        `ys`, in the order of `ys`. */
    method ApplyColumns<E(==)>(fn: (int, Row) -> Option<E>, ys: seq<int>) returns (err: Option<E>)
      requires Valid()
      requires |rows| > 0 ==> InRange(ys, ncol)
      ensures err.None? <==> forall x :: 0 <= x < |rows| ==> fn(x, Projected(rows[x], ys)).None?
      ensures err.Some? ==> exists x :: (0 <= x < |rows| && err == fn(x, Projected(rows[x], ys)) &&
        forall x' :: 0 <= x' < x ==> fn(x', Projected(rows[x'], ys)).None?)
    {
      var x := 0;
      while x < |rows|
        invariant 0 <= x <= |rows|
        invariant forall x' :: 0 <= x' < x ==> fn(x', Projected(rows[x'], ys)).None?
      {
        var row2 := PickColumns(rows[x], ys);
        assert row2 == Projected(rows[x], ys);
        var e := fn(x, row2);
        if e.Some? {
          return e;
        }
        x := x + 1;
      }
      return None;
    }

    /** Deletes column `y` from every row, or refuses to remove the only
        column. The one-column check comes first and cells are only read
        when there is a row, so a one-column table and an empty table
        accept any `y`; an empty table still loses one from `ncol`. */
    method RemoveColumn(y: int) returns (err: Option<Error>)
      requires Valid()
      requires |rows| > 0 && ncol != 1 ==> 0 <= y < ncol
      modifies this
      ensures Valid() && nrow == old(nrow)
      ensures old(ncol) == 1 ==> err == Some(ErrSingleCol) && rows == old(rows) && ncol == old(ncol)
      ensures old(ncol) != 1 ==> err == None && ncol == old(ncol) - 1 && |rows| == |old(rows)|
      ensures old(ncol) != 1 ==> forall x :: 0 <= x < |rows| ==> rows[x] == RemoveAt(old(rows)[x], y)
    {
      if ncol == 1 {
        return Some(ErrSingleCol);
      }
      var x := 0;
      while x < |rows|
        invariant 0 <= x <= |rows| == |old(rows)|
        invariant nrow == old(nrow) && ncol == old(ncol)
        invariant forall x' :: 0 <= x' < x ==> rows[x'] == RemoveAt(old(rows)[x'], y)
        invariant forall x' :: x <= x' < |rows| ==> rows[x'] == old(rows)[x']
      {
        rows := rows[x := RemoveAt(rows[x], y)];
        x := x + 1;
      }
      ncol := ncol - 1;
      return None;
    }

    /** Deletes row `x`; the rows below it move up by one. */
    method RemoveRow(x: int)
      requires Valid()
      requires 0 <= x < nrow
      modifies this
      ensures Valid() && ncol == old(ncol)
      ensures rows == old(rows)[..x] + old(rows)[x + 1..]
      ensures nrow == old(nrow) - 1
    {
      rows := rows[..x] + rows[x + 1..];
      nrow := nrow - 1;
    }

    /** A new table holding, for every row, the cells at the columns `ys` in
        that order; the internal AppendRow cannot fail, so the panic on a
        corrupted row is unreachable. */
    method Project(ys: seq<int>) returns (dt2: DataTable)
      requires Valid()
      requires |rows| > 0 ==> InRange(ys, ncol)
      ensures fresh(dt2) && dt2.Valid()
      ensures dt2.ncol == |ys| && dt2.nrow == nrow
      ensures forall x, i :: 0 <= x < |rows| && 0 <= i < |ys| ==> dt2.rows[x][i] == rows[x][ys[i]]
    {
      dt2 := new DataTable(|ys|);
      var x := 0;
      while x < |rows|
        invariant 0 <= x <= |rows|
        invariant fresh(dt2) && dt2.Valid() && dt2.ncol == |ys| && dt2.nrow == x
        invariant forall x', i :: 0 <= x' < x && 0 <= i < |ys| ==> dt2.rows[x'][i] == rows[x'][ys[i]]
      {
        var row2 := PickColumns(rows[x], ys);
        var err := dt2.AppendRow(row2);
        if err.Some? {
          assert false;  // "Row data corrupted"
        }
        x := x + 1;
      }
    }

    /** A table over at most `n` rows starting at row `x`, truncated at the
        end of this table. The end `x + n` is a 64-bit signed sum: past
        MaxInt it wraps to a negative end and the slice expression panics,
        so the sum must fit. */
    method Slice(x: int, n: int) returns (dt2: DataTable)
      requires Valid()
      requires 0 <= x <= nrow && n >= 0
      requires x + n <= MaxInt
      ensures fresh(dt2) && dt2.Valid()
      ensures dt2.ncol == ncol
      ensures x + n <= nrow ==> dt2.rows == rows[x..x + n]
      ensures x + n > nrow ==> dt2.rows == rows[x..]
    {
      var end := x + n;
      if end >= nrow {
        end := nrow;
      }
      var rows2 := rows[x..end];
      dt2 := new DataTable.Of(rows2, |rows2|, ncol);
    }

    /** Appends one row per row of `dt2`, built through the column map
        `matches` (destination column to `dt2` column); destination columns
        without an entry get the empty string. Merging a non-empty table
        into itself never terminates in the source, hence the requires. */
    method Merge(dt2: DataTable, matches: map<int, int>)
      requires Valid() && dt2.Valid()
      requires dt2 != this || |rows| == 0
      requires |dt2.rows| > 0 ==> ncol >= 0
      requires |dt2.rows| > 0 ==>
        forall y1 :: 0 <= y1 < ncol && y1 in matches ==> 0 <= matches[y1] < dt2.ncol
      modifies this
      ensures Valid() && ncol == old(ncol)
      ensures nrow == old(nrow) + old(dt2.nrow)
      ensures rows[..old(nrow)] == old(rows)
      ensures forall k :: 0 <= k < old(dt2.nrow) ==>
        rows[old(nrow) + k] == Aligned(old(dt2.rows)[k], matches, ncol)
    {
      ghost var src := dt2.rows;
      var x2 := 0;
      while x2 < dt2.NumRow()
        invariant Valid() && ncol == old(ncol)
        invariant dt2 != this ==> dt2.rows == src && dt2.nrow == |src| && dt2.ncol == old(dt2.ncol)
        invariant dt2 == this ==> x2 == 0 && rows == old(rows)
        invariant 0 <= x2 <= |src|
        invariant nrow == old(nrow) + x2 && rows[..old(nrow)] == old(rows)
        invariant forall k :: 0 <= k < x2 ==> rows[old(nrow) + k] == Aligned(src[k], matches, ncol)
        decreases |src| - x2
      {
        var row2 := dt2.GetRow(x2);
        var row1 := AlignRow(row2, matches, NumCol());
        ghost var before := rows;
        var err := AppendRow(row1);
        if err.Some? {
          assert false;  // "Row data corrupted"
        }
        assert rows[..old(nrow)] == before[..old(nrow)];
        assert row1 == Aligned(src[x2], matches, ncol);
        x2 := x2 + 1;
      }
    }

    /** Replaces the table by rows decoded from JSON: rows of unequal width
        are refused and leave the table as it was; an empty input gives an
        empty table with zero columns. */
    method UnmarshalRows(decoded: seq<Row>) returns (err: Option<Error>)
      modifies this
      ensures Rectangular(decoded) ==> (err == None && Valid() && rows == decoded &&
        nrow == |decoded| && ncol == (if decoded == [] then 0 else |decoded[0]|))
      ensures !Rectangular(decoded) ==> (err == Some(ErrNumCol) &&
        rows == old(rows) && nrow == old(nrow) && ncol == old(ncol))
    {
      var n, width := |decoded|, 0;
      if n > 0 {
        width := |decoded[0]|;
        var x := 0;
        while x < n
          invariant 0 <= x <= n
          invariant forall x' :: 0 <= x' < x ==> |decoded[x']| == width
        {
          if |decoded[x]| != width {
            return Some(ErrNumCol);
          }
          x := x + 1;
        }
      }
      rows, nrow, ncol := decoded, n, width;
      return None;
    }
  }

  /** A table from the records a CSV reader returned: no records is an
      error; otherwise the first record fixes the width. The width of the
      later records is not checked here, so the table is valid exactly when
      the records are rectangular. */
  method FromCSV(records: seq<Row>) returns (r: Result<DataTable, Error>)
    ensures records == [] ==> r == Failure(ErrEmptyCSVFile)
    ensures records != [] ==> (r.Success? && fresh(r.value) &&
      r.value.rows == records && r.value.nrow == |records| && r.value.ncol == |records[0]| &&
      (r.value.Valid() <==> Rectangular(records)))
  {
    var nrow := |records|;
    if nrow == 0 {
      return Failure(ErrEmptyCSVFile);
    }
    var ncol := |records[0]|;
    var dt := new DataTable.Of(records, nrow, ncol);
    return Success(dt);
  }
}
