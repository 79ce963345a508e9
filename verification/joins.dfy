/** The join engine. Each join is a producer that emits joined rows one at
    a time, in order, and a consumer that appends every row it receives to a
    fresh result table; the producer and the consumer run one after the
    other here, which preserves the order and the completeness of the
    hand-off. */
module Joins {
  import opened DataTables
  import opened JoinSpec

  /** The rows of `out` exactly `width` wide, in order: what a table keeps
      when it appends every row of `out` and ignores AppendRow's error. */
  function Fitting(out: seq<Row>, width: int): seq<Row>
  {
    if out == [] then []
    else Fitting(out[..|out| - 1], width) + (if |out[|out| - 1]| == width then [out[|out| - 1]] else [])
  }

  /** When every row fits, the ignored AppendRow error never occurs. */
  lemma {:induction false} FittingAll(out: seq<Row>, width: int)
    requires AllWidth(out, width)
    ensures Fitting(out, width) == out
  {
    if out != [] {
      var out' := out[..|out| - 1];
      assert AllWidth(out', width) by {
        forall x | 0 <= x < |out'| ensures |out'[x]| == width {
          assert out'[x] == out[x];
        }
      }
      FittingAll(out', width);
    }
  }

  /** The consumer: a new table `width` columns wide, with every row of
      `out` appended in order (AppendRow's error is ignored). */
  method Collect(width: int, out: seq<Row>) returns (joined: DataTable)
    ensures fresh(joined) && joined.Valid()
    ensures joined.ncol == width
    ensures joined.rows == Fitting(out, width)
  {
    joined := new DataTable(width);
    for k := 0 to |out|
      invariant fresh(joined) && joined.Valid() && joined.ncol == width
      invariant joined.rows == Fitting(out[..k], width)
    {
      var _ := joined.AppendRow(out[k]);
      assert out[..k + 1][..k] == out[..k];
    }
    assert out[..|out|] == out;
  }

  /** The nested-loop join's producer: for every left row in order, for
      every right row in order, `l ++ r` when `fn(l, r)` holds. */
  method JoinProducer(left: DataTable, right: DataTable, fn: (Row, Row) -> bool) returns (out: seq<Row>)
    requires left.Valid() && right.Valid()
    ensures out == JoinRows(left.rows, right.rows, fn)
  {
    out := [];
    for i := 0 to left.NumRow()
      invariant out == JoinRows(left.rows[..i], right.rows, fn)
    {
      var l := left.GetRow(i);
      for j := 0 to right.NumRow()
        invariant out == JoinRows(left.rows[..i], right.rows, fn) + Matches(l, right.rows[..j], fn)
      {
        var r := right.GetRow(j);
        if fn(l, r) {
          out := out + [l + r];
        }
        assert right.rows[..j + 1][..j] == right.rows[..j];
      }
      assert right.rows[..|right.rows|] == right.rows;
      assert left.rows[..i + 1][..i] == left.rows[..i];
    }
    assert left.rows[..|left.rows|] == left.rows;
  }

  /** The left-outer join's producer: as JoinProducer, plus `l` padded with
      empty cells for every left row that joined with no right row. */
  method LeftJoinProducer(left: DataTable, right: DataTable, fn: (Row, Row) -> bool) returns (out: seq<Row>)
    requires left.Valid() && right.Valid()
    requires |left.rows| > 0 ==> right.ncol >= 0
    ensures right.ncol >= 0 ==> out == LeftJoinRows(left.rows, right.rows, fn, right.ncol)
    ensures right.ncol < 0 ==> out == []
  {
    out := [];
    for i := 0 to left.NumRow()
      invariant out == LeftJoinRows(left.rows[..i], right.rows, fn, if right.ncol < 0 then 0 else right.ncol)
    {
      var l := left.GetRow(i);
      var rowsJoined := 0;
      ghost var before := out;
      for j := 0 to right.NumRow()
        invariant out == before + Matches(l, right.rows[..j], fn)
        invariant rowsJoined == |Matches(l, right.rows[..j], fn)|
      {
        var r := right.GetRow(j);
        if fn(l, r) {
          out := out + [l + r];
          rowsJoined := rowsJoined + 1;
        }
        assert right.rows[..j + 1][..j] == right.rows[..j];
      }
      if rowsJoined == 0 {
        var r := Pad(right.NumCol());
        out := out + [l + r];
      }
      assert right.rows[..|right.rows|] == right.rows;
      assert left.rows[..i + 1][..i] == left.rows[..i];
    }
    assert left.rows[..|left.rows|] == left.rows;
  }

  /** Builds the hash table over `larger`: each key maps to the rows with
      that key, in row order. */
  method BuildIndex(larger: DataTable, fnLarge: Row -> string) returns (ht: map<string, seq<Row>>)
    requires larger.Valid()
    ensures ht == Index(larger.rows, fnLarge)
    ensures forall k :: Bucket(ht, k) == Having(larger.rows, fnLarge, k)
    ensures forall k :: k in ht <==> Having(larger.rows, fnLarge, k) != []
  {
    ht := map[];
    for i := 0 to larger.NumRow()
      invariant ht == Index(larger.rows[..i], fnLarge)
    {
      var row := larger.GetRow(i);
      var key := fnLarge(row);
      if key !in ht {
        ht := ht[key := []];
      }
      ht := ht[key := ht[key] + [row]];
      assert larger.rows[..i + 1][..i] == larger.rows[..i];
    }
    assert larger.rows[..|larger.rows|] == larger.rows;
    IndexBuckets(larger.rows, fnLarge);
  }

  /** The hash join's producer: hashes the table with more rows (the right
      one on a tie), probes it with every row of the other table in order,
      and emits one row per bucket entry, always left cells first. */
  method HashJoinProducer(left: DataTable, right: DataTable, fnLeft: Row -> string, fnRight: Row -> string)
    returns (out: seq<Row>)
    requires left.Valid() && right.Valid()
    ensures out == HashJoinRows(left.rows, right.rows, fnLeft, fnRight)
  {
    var smaller, larger: DataTable;
    var fnSmall, fnLarge: Row -> string;
    var fnJoin: (Row, Row) -> Row;
    if left.NumRow() > right.NumRow() {
      smaller, larger := right, left;
      fnSmall, fnLarge := fnRight, fnLeft;
      fnJoin := JoinLargeFirst;
    } else {
      smaller, larger := left, right;
      fnSmall, fnLarge := fnLeft, fnRight;
      fnJoin := JoinSmallFirst;
    }
    var ht := BuildIndex(larger, fnLarge);
    out := ProbeIndex(smaller, fnSmall, ht, fnJoin);
  }

  /** Probes `ht` with every row of `smaller` in order and emits
      `fnJoin(rowSmall, b)` for every entry `b` of the row's bucket, in
      bucket order; a row whose key has no bucket emits nothing. */
  method ProbeIndex(smaller: DataTable, fnSmall: Row -> string, ht: map<string, seq<Row>>, fnJoin: (Row, Row) -> Row)
    returns (out: seq<Row>)
    requires smaller.Valid()
    ensures out == Probe(smaller.rows, fnSmall, ht, fnJoin)
  {
    out := [];
    for i := 0 to smaller.NumRow()
      invariant out == Probe(smaller.rows[..i], fnSmall, ht, fnJoin)
    {
      var rowSmall := smaller.GetRow(i);
      var key := fnSmall(rowSmall);
      ghost var before := out;
      if key in ht {
        var bucket := ht[key];
        for k := 0 to |bucket|
          invariant out == before + Emit(rowSmall, bucket[..k], fnJoin)
        {
          EmitStep(rowSmall, bucket, fnJoin, k);
          out := out + [fnJoin(rowSmall, bucket[k])];
        }
        assert bucket[..|bucket|] == bucket;
      }
      ProbeStep(smaller.rows, fnSmall, ht, fnJoin, i);
    }
    assert smaller.rows[..|smaller.rows|] == smaller.rows;
  }

  /** The nested-loop join: a new table with the left columns followed by
      the right ones, holding `l ++ r` for every pair with `fn(l, r)`,
      left-major. */
  method Join(left: DataTable, right: DataTable, fn: (Row, Row) -> bool) returns (joined: DataTable)
    requires left.Valid() && right.Valid()
    ensures fresh(joined) && joined.Valid()
    ensures joined.ncol == left.ncol + right.ncol
    ensures joined.rows == JoinRows(left.rows, right.rows, fn)
  {
    var out := JoinProducer(left, right, fn);
    joined := Collect(left.NumCol() + right.NumCol(), out);
    JoinRowsWidth(left.rows, right.rows, fn, left.ncol, right.ncol);
    FittingAll(out, left.ncol + right.ncol);
  }

  /** The left-outer join: the inner join's rows, plus every left row
      without a match padded with empty cells, in left-row order. */
  method LeftJoin(left: DataTable, right: DataTable, fn: (Row, Row) -> bool) returns (joined: DataTable)
    requires left.Valid() && right.Valid()
    requires |left.rows| > 0 ==> right.ncol >= 0
    ensures fresh(joined) && joined.Valid()
    ensures joined.ncol == left.ncol + right.ncol
    ensures right.ncol >= 0 ==> joined.rows == LeftJoinRows(left.rows, right.rows, fn, right.ncol)
    ensures right.ncol < 0 ==> joined.rows == []
  {
    var out := LeftJoinProducer(left, right, fn);
    joined := Collect(left.NumCol() + right.NumCol(), out);
    if right.ncol >= 0 {
      LeftJoinRowsWidth(left.rows, right.rows, fn, left.ncol, right.ncol);
      FittingAll(out, left.ncol + right.ncol);
    }
  }

  /** The hash join on `fnLeft(l) == fnRight(r)`: a new table with the left
      columns followed by the right ones; its rows are the nested-loop
      join's under that predicate, in the same order when the left table is
      not the larger one and right-major otherwise. */
  method HashJoin(left: DataTable, right: DataTable, fnLeft: Row -> string, fnRight: Row -> string)
    returns (joined: DataTable)
    requires left.Valid() && right.Valid()
    ensures fresh(joined) && joined.Valid()
    ensures joined.ncol == left.ncol + right.ncol
    ensures joined.rows == HashJoinRows(left.rows, right.rows, fnLeft, fnRight)
    ensures left.nrow <= right.nrow ==> joined.rows == JoinRows(left.rows, right.rows, KeyEq(fnLeft, fnRight))
    ensures left.nrow > right.nrow ==> joined.rows == JoinRowsByRight(left.rows, right.rows, KeyEq(fnLeft, fnRight))
    ensures multiset(joined.rows) == multiset(JoinRows(left.rows, right.rows, KeyEq(fnLeft, fnRight)))
  {
    var out := HashJoinProducer(left, right, fnLeft, fnRight);
    HashJoinRowsWidth(left.rows, right.rows, fnLeft, fnRight, left.ncol, right.ncol);
    FittingAll(out, left.ncol + right.ncol);
    joined := Collect(left.NumCol() + right.NumCol(), out);
    assert joined.rows == out;
    HashJoinIsJoin(left.rows, right.rows, fnLeft, fnRight);
    if left.nrow <= right.nrow {
      HashJoinInOrder(left.rows, right.rows, fnLeft, fnRight);
    } else {
      HashJoinByRight(left.rows, right.rows, fnLeft, fnRight);
    }
  }
}
