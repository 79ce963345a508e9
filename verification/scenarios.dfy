/** The package's documented examples, replayed against the model: the
    four-row table and the three-row table they share, and what projecting,
    slicing, removing a column from and joining them gives. */
module Scenarios {
  import opened DataTables
  import opened JoinSpec
  import opened Joins

  const LettersRows: seq<Row> := [["a", "b", "c"], ["e", "f", "g"], ["f", "k", "x"], ["g", "h", "l"]]
  const NumbersRows: seq<Row> := [["a", "1"], ["f", "2"], ["k", "3"]]

  /** The four-row table of the examples. */
  method Letters() returns (dt: DataTable)
    ensures fresh(dt) && dt.Valid() && dt.ncol == 3
    ensures dt.rows == LettersRows
  {
    dt := new DataTable(3);
    var _ := dt.AppendRow(["a", "b", "c"]);
    var _ := dt.AppendRow(["e", "f", "g"]);
    var _ := dt.AppendRow(["f", "k", "x"]);
    var _ := dt.AppendRow(["g", "h", "l"]);
  }

  /** The three-row table of the join examples. */
  method Numbers() returns (dt: DataTable)
    ensures fresh(dt) && dt.Valid() && dt.ncol == 2
    ensures dt.rows == NumbersRows
  {
    dt := new DataTable(2);
    var _ := dt.AppendRow(["a", "1"]);
    var _ := dt.AppendRow(["f", "2"]);
    var _ := dt.AppendRow(["k", "3"]);
  }

  /** The key both join examples use: a row's first cell. */
  function FirstCell(r: Row): string
  {
    if r == [] then "" else r[0]
  }

  /** A three-column table of two rows: appending a two-cell row fails, and
      the counts, a cell, a row and a column read back as documented. */
  method AppendRowScenario() returns (err: Option<Error>, nrow: int, ncol: int, cell: string, row: Row, col: seq<string>)
    ensures err == Some(ErrNumCol)
    ensures nrow == 2 && ncol == 3
    ensures cell == "c" && row == ["e", "f", "g"] && col == ["b", "f"]
  {
    var dt := new DataTable(3);
    var _ := dt.AppendRow(["a", "b", "c"]);
    var _ := dt.AppendRow(["e", "f", "g"]);
    err := dt.AppendRow(["1", "2"]);
    nrow, ncol := dt.NumRow(), dt.NumCol();
    cell := dt.Get(0, 2);
    row := dt.GetRow(1);
    col := dt.GetColumn(1);
  }

  /** Projecting the four-row table on columns 0 and 2 and slicing two rows
      from row 1 give the documented tables. */
  method ProjectSliceScenario() returns (projected: seq<Row>, sliced: seq<Row>)
    ensures projected == [["a", "c"], ["e", "g"], ["f", "x"], ["g", "l"]]
    ensures sliced == [["e", "f", "g"], ["f", "k", "x"]]
  {
    var dt := Letters();
    var dt2 := dt.Project([0, 2]);
    projected := dt2.rows;
    forall x | 0 <= x < 4 ensures |projected[x]| == 2 && projected[x] == [dt.rows[x][0], dt.rows[x][2]] {
      assert [0, 2][0] == 0 && [0, 2][1] == 2;
      assert projected[x][0] == dt.rows[x][[0, 2][0]] && projected[x][1] == dt.rows[x][[0, 2][1]];
    }
    var dt3 := dt.Slice(1, 2);
    sliced := dt3.rows;
  }

  /** Slicing ten rows from row 0 keeps all four; two rows from row 2 are
      the last two; no rows from row 1 gives an empty table that still
      accepts a three-cell row. */
  method SliceScenario() returns (all: seq<Row>, ncol: int, tail: seq<Row>, empty: seq<Row>, appended: seq<Row>)
    ensures all == LettersRows && ncol == 3
    ensures tail == [["f", "k", "x"], ["g", "h", "l"]]
    ensures empty == [] && appended == [["x", "y", "z"]]
  {
    var dt := Letters();
    var dt2 := dt.Slice(0, 10);
    all, ncol := dt2.rows, dt2.ncol;
    var dt3 := dt.Slice(2, 2);
    tail := dt3.rows;
    var dt4 := dt.Slice(1, 0);
    empty := dt4.rows;
    var _ := dt4.AppendRow(["x", "y", "z"]);
    appended := dt4.rows;
  }

  /** Removing row 1 and then row 0 of the four-row table leaves its last
      two rows; removing row 3 of a fresh copy leaves its first three. */
  method RemoveRowScenario() returns (twice: seq<Row>, last: seq<Row>)
    ensures twice == [["f", "k", "x"], ["g", "h", "l"]]
    ensures last == [["a", "b", "c"], ["e", "f", "g"], ["f", "k", "x"]]
  {
    var dt := Letters();
    dt.RemoveRow(1);
    dt.RemoveRow(0);
    twice := dt.rows;
    var dt2 := Letters();
    dt2.RemoveRow(3);
    last := dt2.rows;
  }

  /** Removing column 1 and then column 0 of the four-row table succeeds
      twice and leaves its third column. */
  method RemoveColumnScenario() returns (err1: Option<Error>, err2: Option<Error>, rows: seq<Row>, ncol: int)
    ensures err1 == None && err2 == None
    ensures rows == [["c"], ["g"], ["x"], ["l"]] && ncol == 1
  {
    var dt := Letters();
    err1 := dt.RemoveColumn(1);
    RemoveFromThree("a", "b", "c");
    RemoveFromThree("e", "f", "g");
    RemoveFromThree("f", "k", "x");
    RemoveFromThree("g", "h", "l");
    FourRows(dt.rows, ["a", "c"], ["e", "g"], ["f", "x"], ["g", "l"]);
    err2 := dt.RemoveColumn(0);
    RemoveFromTwo("a", "c");
    RemoveFromTwo("e", "g");
    RemoveFromTwo("f", "x");
    RemoveFromTwo("g", "l");
    FourRows(dt.rows, ["c"], ["g"], ["x"], ["l"]);
    rows, ncol := dt.rows, dt.ncol;
  }

  /** Removing the last column of the four-row table leaves its first two. */
  method RemoveLastIndexScenario() returns (err: Option<Error>, rows: seq<Row>)
    ensures err == None
    ensures rows == [["a", "b"], ["e", "f"], ["f", "k"], ["g", "h"]]
  {
    var dt := Letters();
    err := dt.RemoveColumn(2);
    RemoveFromThree("a", "b", "c");
    RemoveFromThree("e", "f", "g");
    RemoveFromThree("f", "k", "x");
    RemoveFromThree("g", "h", "l");
    FourRows(dt.rows, ["a", "b"], ["e", "f"], ["f", "k"], ["g", "h"]);
    rows := dt.rows;
  }

  /** Four rows known one by one make up the whole table. */
  lemma FourRows(rows: seq<Row>, r0: Row, r1: Row, r2: Row, r3: Row)
    requires |rows| == 4
    requires rows[0] == r0 && rows[1] == r1 && rows[2] == r2 && rows[3] == r3
    ensures rows == [r0, r1, r2, r3]
  {
  }

  /** Each cell removed from a three-cell row. */
  lemma RemoveFromThree(a: string, b: string, c: string)
    ensures RemoveAt([a, b, c], 0) == [b, c]
    ensures RemoveAt([a, b, c], 1) == [a, c]
    ensures RemoveAt([a, b, c], 2) == [a, b]
  {
    RemoveFromThreeAt(a, b, c, 0);
    RemoveFromThreeAt(a, b, c, 1);
    RemoveFromThreeAt(a, b, c, 2);
  }

  /** Cell `y` removed from a three-cell row. */
  lemma RemoveFromThreeAt(a: string, b: string, c: string, y: int)
    requires 0 <= y < 3
    ensures RemoveAt([a, b, c], y) == if y == 0 then [b, c] else if y == 1 then [a, c] else [a, b]
  {
    var r := RemoveAt([a, b, c], y);
    assert |r| == 2 && r[0] == (if y == 0 then b else a) && r[1] == (if y == 2 then b else c);
  }

  /** Each cell removed from a two-cell row. */
  lemma RemoveFromTwo(a: string, b: string)
    ensures RemoveAt([a, b], 0) == [b]
    ensures RemoveAt([a, b], 1) == [a]
  {
    var row := [a, b];
    assert row[..0] == [] && row[1..] == [b];
    assert row[..1] == [a] && row[2..] == [];
  }

  /** Removing the only column of a table is refused and leaves it as it
      was, whatever column index is asked for. */
  method RemoveLastColumnScenario() returns (err: Option<Error>, rows: seq<Row>, ncol: int)
    ensures err == Some(ErrSingleCol)
    ensures rows == [["a"], ["e"]] && ncol == 1
  {
    var dt := new DataTable(1);
    var _ := dt.AppendRow(["a"]);
    var _ := dt.AppendRow(["e"]);
    err := dt.RemoveColumn(5);
    rows, ncol := dt.rows, dt.ncol;
  }

  /** Joining the two tables on their first cells gives the two documented
      five-cell rows; the hash join gives the same rows. */
  method JoinScenario() returns (nested: seq<Row>, hashed: seq<Row>, width: int)
    ensures nested == [["a", "b", "c", "a", "1"], ["f", "k", "x", "f", "2"]]
    ensures hashed == nested
    ensures width == 5
  {
    var dt := Letters();
    var dt2 := Numbers();
    var dt3 := Join(dt, dt2, KeyEq(FirstCell, FirstCell));
    var dt4 := HashJoin(dt, dt2, FirstCell, FirstCell);
    nested, hashed, width := dt3.rows, dt4.rows, dt3.ncol;
    JoinRowsScenario();
    ByRightScenario();
  }

  /** Left row `i` of the join examples matches exactly the right rows with
      its first cell. */
  lemma {:induction false} MatchesScenario(i: int)
    requires 0 <= i < 4
    ensures Matches(LettersRows[i], NumbersRows, KeyEq(FirstCell, FirstCell)) ==
      if i == 0 then [LettersRows[0] + NumbersRows[0]]
      else if i == 2 then [LettersRows[2] + NumbersRows[1]]
      else []
  {
    var l, R, p := LettersRows[i], NumbersRows, KeyEq(FirstCell, FirstCell);
    assert FirstCell(l) == l[0] && FirstCell(R[0]) == "a" && FirstCell(R[1]) == "f" && FirstCell(R[2]) == "k";
    assert R[..1][..0] == R[..0];
    assert R[..2][..1] == R[..1];
    assert R[..3][..2] == R[..2];
    assert Matches(l, R[..1], p) == if i == 0 then [l + R[0]] else [];
    assert Matches(l, R[..2], p) == if i == 0 then [l + R[0]] else if i == 2 then [l + R[1]] else [];
    assert R[..3] == R;
  }

  /** The right-major join of the examples, in terms of the tables' rows. */
  lemma ByRightScenarioRows()
    ensures JoinRowsByRight(LettersRows, NumbersRows, KeyEq(FirstCell, FirstCell)) ==
      [LettersRows[0] + NumbersRows[0], LettersRows[2] + NumbersRows[1]]
  {
    CoMatchesScenario(0);
    CoMatchesScenario(1);
    CoMatchesScenario(2);
    ByRightThree(LettersRows, NumbersRows, KeyEq(FirstCell, FirstCell),
      LettersRows[0] + NumbersRows[0], LettersRows[2] + NumbersRows[1]);
  }

  /** The hash join of the examples hashes the left table, which is the
      larger, and so emits right-major. */
  lemma ByRightScenario()
    ensures JoinRowsByRight(LettersRows, NumbersRows, KeyEq(FirstCell, FirstCell)) ==
      [["a", "b", "c", "a", "1"], ["f", "k", "x", "f", "2"]]
  {
    ByRightScenarioRows();
    assert LettersRows[0] + NumbersRows[0] == ["a", "b", "c", "a", "1"];
    assert LettersRows[2] + NumbersRows[1] == ["f", "k", "x", "f", "2"];
  }

  /** A four-row left side whose rows 0 and 2 each match one right row and
      whose rows 1 and 3 match none joins into those two rows. */
  lemma JoinRowsFour(L: seq<Row>, R: seq<Row>, p: (Row, Row) -> bool, x: Row, y: Row)
    requires |L| == 4
    requires Matches(L[0], R, p) == [x] && Matches(L[1], R, p) == []
    requires Matches(L[2], R, p) == [y] && Matches(L[3], R, p) == []
    ensures JoinRows(L, R, p) == [x, y]
  {
    assert L[..1][..0] == [] && L[..2][..1] == L[..1] && L[..3][..2] == L[..2] && L[..3] == L[..|L| - 1];
    assert JoinRows(L[..1], R, p) == [x];
    assert JoinRows(L[..2], R, p) == [x];
    assert JoinRows(L[..3], R, p) == [x, y];
  }

  /** The nested-loop join of the examples, in terms of the tables' rows. */
  lemma JoinRowsScenarioRows()
    ensures JoinRows(LettersRows, NumbersRows, KeyEq(FirstCell, FirstCell)) ==
      [LettersRows[0] + NumbersRows[0], LettersRows[2] + NumbersRows[1]]
  {
    MatchesScenario(0);
    MatchesScenario(1);
    MatchesScenario(2);
    MatchesScenario(3);
    JoinRowsFour(LettersRows, NumbersRows, KeyEq(FirstCell, FirstCell),
      LettersRows[0] + NumbersRows[0], LettersRows[2] + NumbersRows[1]);
  }

  /** The nested-loop join of the examples. */
  lemma JoinRowsScenario()
    ensures JoinRows(LettersRows, NumbersRows, KeyEq(FirstCell, FirstCell)) ==
      [["a", "b", "c", "a", "1"], ["f", "k", "x", "f", "2"]]
  {
    JoinRowsScenarioRows();
    assert LettersRows[0] + NumbersRows[0] == ["a", "b", "c", "a", "1"];
    assert LettersRows[2] + NumbersRows[1] == ["f", "k", "x", "f", "2"];
  }

  /** Right row `j` of the join examples matches exactly the left rows with
      its first cell. */
  lemma {:induction false} CoMatchesScenario(j: int)
    requires 0 <= j < 3
    ensures CoMatches(LettersRows, NumbersRows[j], KeyEq(FirstCell, FirstCell)) ==
      if j == 0 then [LettersRows[0] + NumbersRows[0]]
      else if j == 1 then [LettersRows[2] + NumbersRows[1]]
      else []
  {
    var L, r, p := LettersRows, NumbersRows[j], KeyEq(FirstCell, FirstCell);
    assert FirstCell(r) == r[0] && FirstCell(L[0]) == "a" && FirstCell(L[1]) == "e" && FirstCell(L[2]) == "f" && FirstCell(L[3]) == "g";
    assert L[..1][..0] == L[..0];
    assert L[..2][..1] == L[..1];
    assert L[..3][..2] == L[..2];
    assert L[..4][..3] == L[..3];
    assert CoMatches(L[..1], r, p) == if j == 0 then [L[0] + r] else [];
    assert CoMatches(L[..2], r, p) == if j == 0 then [L[0] + r] else [];
    assert CoMatches(L[..3], r, p) == if j == 0 then [L[0] + r] else if j == 1 then [L[2] + r] else [];
    assert L[..4] == L;
  }

  /** A three-row right side whose rows 0 and 1 each match one left row and
      whose row 2 matches none joins, right-major, into those two rows. */
  lemma ByRightThree(L: seq<Row>, R: seq<Row>, p: (Row, Row) -> bool, x: Row, y: Row)
    requires |R| == 3
    requires CoMatches(L, R[0], p) == [x] && CoMatches(L, R[1], p) == [y] && CoMatches(L, R[2], p) == []
    ensures JoinRowsByRight(L, R, p) == [x, y]
  {
    assert R[..1][..0] == [] && R[..2][..1] == R[..1] && R[..2] == R[..|R| - 1];
    assert JoinRowsByRight(L, R[..1], p) == [x];
    assert JoinRowsByRight(L, R[..2], p) == [x, y];
  }
}
