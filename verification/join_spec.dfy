/** The rows each join emits, as functions of the input rows, and what is
    proved about them: the nested-loop join's left-major order, the
    left-outer join's padding, and the hash join's agreement with the
    nested-loop join under the key-equality predicate. */
module JoinSpec {
  import opened DataTables

  /** `l ++ r` for every `r` of `R` with `p(l, r)`, in the order of `R`. */
  function Matches(l: Row, R: seq<Row>, p: (Row, Row) -> bool): seq<Row>
  {
    if R == [] then []
    else Matches(l, R[..|R| - 1], p) + (if p(l, R[|R| - 1]) then [l + R[|R| - 1]] else [])
  }

  /** The rows the nested-loop join emits: left-major, right-minor. */
  function JoinRows(L: seq<Row>, R: seq<Row>, p: (Row, Row) -> bool): seq<Row>
  {
    if L == [] then []
    else JoinRows(L[..|L| - 1], R, p) + Matches(L[|L| - 1], R, p)
  }

  /** `n` empty cells. */
  function Pad(n: nat): (r: Row)
    ensures |r| == n && forall i :: 0 <= i < n ==> r[i] == ""
  {
    seq(n, _ => "")
  }

  /** What the left-outer join emits for one left row: its matches, or the
      row padded with `n` empty cells when there are none. */
  function LeftGroup(l: Row, R: seq<Row>, p: (Row, Row) -> bool, n: nat): seq<Row>
  {
    var m := Matches(l, R, p);
    if m == [] then [l + Pad(n)] else m
  }

  /** The rows the left-outer join emits. */
  function LeftJoinRows(L: seq<Row>, R: seq<Row>, p: (Row, Row) -> bool, n: nat): seq<Row>
  {
    if L == [] then []
    else LeftJoinRows(L[..|L| - 1], R, p, n) + LeftGroup(L[|L| - 1], R, p, n)
  }

  /** The left rows without a match, each padded with `n` empty cells. */
  function Unmatched(L: seq<Row>, R: seq<Row>, p: (Row, Row) -> bool, n: nat): seq<Row>
  {
    if L == [] then []
    else
      var l := L[|L| - 1];
      Unmatched(L[..|L| - 1], R, p, n) + (if Matches(l, R, p) == [] then [l + Pad(n)] else [])
  }

  /** `l ++ r` for every `l` of `L` with `p(l, r)`, in the order of `L`. */
  function CoMatches(L: seq<Row>, r: Row, p: (Row, Row) -> bool): seq<Row>
  {
    if L == [] then []
    else CoMatches(L[..|L| - 1], r, p) + (if p(L[|L| - 1], r) then [L[|L| - 1] + r] else [])
  }

  /** The same joined rows as JoinRows, enumerated right-major. */
  function JoinRowsByRight(L: seq<Row>, R: seq<Row>, p: (Row, Row) -> bool): seq<Row>
  {
    if R == [] then []
    else JoinRowsByRight(L, R[..|R| - 1], p) + CoMatches(L, R[|R| - 1], p)
  }

  /** The join predicate an equi-join on two key functions stands for. */
  function KeyEq(fnLeft: Row -> string, fnRight: Row -> string): (Row, Row) -> bool
  {
    (l: Row, r: Row) => fnLeft(l) == fnRight(r)
  }

  // ---------------------------------------------------------------------
  // The hash join

  /** The hash table built over `S`: each key maps to the rows of `S` with
      that key, in the order of `S`. */
  function Index(S: seq<Row>, key: Row -> string): map<string, seq<Row>>
  {
    if S == [] then map[]
    else
      var ht := Index(S[..|S| - 1], key);
      var k := key(S[|S| - 1]);
      ht[k := (if k in ht then ht[k] else []) + [S[|S| - 1]]]
  }

  /** The bucket of `k`, empty when `k` has none. */
  function Bucket(ht: map<string, seq<Row>>, k: string): seq<Row>
  {
    if k in ht then ht[k] else []
  }

  /** The rows of `S` whose key is `k`, in order. */
  function Having(S: seq<Row>, key: Row -> string, k: string): seq<Row>
  {
    if S == [] then []
    else Having(S[..|S| - 1], key, k) + (if key(S[|S| - 1]) == k then [S[|S| - 1]] else [])
  }

  /** The hash join's `fnJoin` when the left table is the smaller one. */
  function JoinSmallFirst(s: Row, l: Row): Row
  {
    s + l
  }

  /** The hash join's `fnJoin` when the left table is the larger one. */
  function JoinLargeFirst(s: Row, l: Row): Row
  {
    l + s
  }

  /** `join(s, b)` for every row `b` of a bucket, in bucket order. */
  function Emit(s: Row, bucket: seq<Row>, join: (Row, Row) -> Row): seq<Row>
  {
    if bucket == [] then []
    else Emit(s, bucket[..|bucket| - 1], join) + [join(s, bucket[|bucket| - 1])]
  }

  /** The rows emitted by probing `ht` with every row of the smaller table. */
  function Probe(S: seq<Row>, key: Row -> string, ht: map<string, seq<Row>>, join: (Row, Row) -> Row): seq<Row>
  {
    if S == [] then []
    else
      var s := S[|S| - 1];
      Probe(S[..|S| - 1], key, ht, join) + (if key(s) in ht then Emit(s, ht[key(s)], join) else [])
  }

  /** The rows the hash join emits: the table with more rows (the right one
      on a tie) is hashed and the other one probes it. */
  function HashJoinRows(L: seq<Row>, R: seq<Row>, fnLeft: Row -> string, fnRight: Row -> string): seq<Row>
  {
    if |L| > |R| then Probe(R, fnRight, Index(L, fnLeft), JoinLargeFirst)
    else Probe(L, fnLeft, Index(R, fnRight), JoinSmallFirst)
  }

  // ---------------------------------------------------------------------
  // The nested-loop join

  lemma {:induction false} MatchesMembers(l: Row, R: seq<Row>, p: (Row, Row) -> bool)
    ensures forall row :: row in Matches(l, R, p) <==>
      exists j :: 0 <= j < |R| && p(l, R[j]) && row == l + R[j]
    ensures Matches(l, R, p) == [] <==> forall j :: 0 <= j < |R| ==> !p(l, R[j])
    ensures |Matches(l, R, p)| <= |R|
  {
    if R != [] {
      var R' := R[..|R| - 1];
      MatchesMembers(l, R', p);
      forall row
        ensures row in Matches(l, R, p) <==> exists j :: 0 <= j < |R| && p(l, R[j]) && row == l + R[j]
      {
        if row in Matches(l, R, p) && row !in Matches(l, R', p) {
          assert p(l, R[|R| - 1]) && row == l + R[|R| - 1];
        }
        if exists j :: 0 <= j < |R| && p(l, R[j]) && row == l + R[j] {
          var j :| 0 <= j < |R| && p(l, R[j]) && row == l + R[j];
          if j < |R| - 1 {
            assert R'[j] == R[j];
          }
        }
      }
      if Matches(l, R, p) == [] {
        forall j | 0 <= j < |R| ensures !p(l, R[j]) {
          if j < |R| - 1 {
            assert R'[j] == R[j];
          }
        }
      }
    }
  }

  /** A row is in the join result exactly when it is `L[i] ++ R[j]` for a
      pair that satisfies the predicate. */
  lemma {:induction false} JoinRowsMembers(L: seq<Row>, R: seq<Row>, p: (Row, Row) -> bool)
    ensures forall row :: row in JoinRows(L, R, p) <==>
      exists i, j :: 0 <= i < |L| && 0 <= j < |R| && p(L[i], R[j]) && row == L[i] + R[j]
  {
    if L != [] {
      var L' := L[..|L| - 1];
      JoinRowsMembers(L', R, p);
      MatchesMembers(L[|L| - 1], R, p);
      forall row
        ensures row in JoinRows(L, R, p) <==>
          exists i, j :: 0 <= i < |L| && 0 <= j < |R| && p(L[i], R[j]) && row == L[i] + R[j]
      {
        var last := L[|L| - 1];
        assert JoinRows(L, R, p) == JoinRows(L', R, p) + Matches(last, R, p);
        if row in JoinRows(L', R, p) {
          var i, j :| 0 <= i < |L'| && 0 <= j < |R| && p(L'[i], R[j]) && row == L'[i] + R[j];
          assert L'[i] == L[i];
        } else if row in Matches(last, R, p) {
          var j :| 0 <= j < |R| && p(last, R[j]) && row == last + R[j];
          assert p(L[|L| - 1], R[j]) && row == L[|L| - 1] + R[j];
        }
        if exists i, j :: 0 <= i < |L| && 0 <= j < |R| && p(L[i], R[j]) && row == L[i] + R[j] {
          var i, j :| 0 <= i < |L| && 0 <= j < |R| && p(L[i], R[j]) && row == L[i] + R[j];
          if i < |L| - 1 {
            assert L'[i] == L[i];
            assert row in JoinRows(L', R, p);
          } else {
            assert row in Matches(last, R, p);
          }
        }
      }
    }
  }

  /** Inputs `a` and `b` cells wide give joined rows `a + b` cells wide, so
      every row the join emits fits the result table. */
  lemma {:induction false} JoinRowsWidth(L: seq<Row>, R: seq<Row>, p: (Row, Row) -> bool, a: int, b: int)
    requires AllWidth(L, a) && AllWidth(R, b)
    ensures AllWidth(JoinRows(L, R, p), a + b)
  {
    JoinRowsMembers(L, R, p);
    var out := JoinRows(L, R, p);
    forall x | 0 <= x < |out| ensures |out[x]| == a + b {
      assert out[x] in out;
    }
  }

  // ---------------------------------------------------------------------
  // The left-outer join

  /** Every left row contributes one row or more. */
  lemma {:induction false} LeftJoinRowsLength(L: seq<Row>, R: seq<Row>, p: (Row, Row) -> bool, n: nat)
    ensures |LeftJoinRows(L, R, p, n)| >= |L|
    ensures |LeftJoinRows(L, R, p, n)| == |JoinRows(L, R, p)| + |Unmatched(L, R, p, n)|
  {
    if L != [] {
      LeftJoinRowsLength(L[..|L| - 1], R, p, n);
    }
  }

  /** The left-outer join emits the inner join's rows plus one padded row per
      left row without a match. */
  lemma {:induction false} LeftJoinRowsSplit(L: seq<Row>, R: seq<Row>, p: (Row, Row) -> bool, n: nat)
    ensures multiset(LeftJoinRows(L, R, p, n)) == multiset(JoinRows(L, R, p)) + multiset(Unmatched(L, R, p, n))
  {
    if L != [] {
      LeftJoinRowsSplit(L[..|L| - 1], R, p, n);
    }
  }

  /** A left row gets a padded row exactly when no right row matches it. */
  lemma {:induction false} UnmatchedMembers(L: seq<Row>, R: seq<Row>, p: (Row, Row) -> bool, n: nat)
    ensures forall i :: 0 <= i < |L| && (forall j :: 0 <= j < |R| ==> !p(L[i], R[j])) ==>
      L[i] + Pad(n) in Unmatched(L, R, p, n)
    ensures forall row :: row in Unmatched(L, R, p, n) ==>
      exists i :: 0 <= i < |L| && row == L[i] + Pad(n) && forall j :: 0 <= j < |R| ==> !p(L[i], R[j])
  {
    if L != [] {
      var L' := L[..|L| - 1];
      var l := L[|L| - 1];
      UnmatchedMembers(L', R, p, n);
      MatchesMembers(l, R, p);
      forall i | 0 <= i < |L| && (forall j :: 0 <= j < |R| ==> !p(L[i], R[j]))
        ensures L[i] + Pad(n) in Unmatched(L, R, p, n)
      {
        if i < |L| - 1 {
          assert L'[i] == L[i];
        }
      }
      forall row | row in Unmatched(L, R, p, n)
        ensures exists i :: 0 <= i < |L| && row == L[i] + Pad(n) && forall j :: 0 <= j < |R| ==> !p(L[i], R[j])
      {
        if row in Unmatched(L', R, p, n) {
          var i :| 0 <= i < |L'| && row == L'[i] + Pad(n) && forall j :: 0 <= j < |R| ==> !p(L'[i], R[j]);
          assert L[i] == L'[i];
        } else {
          assert row == l + Pad(n);
        }
      }
    }
  }

  /** Some right row satisfies the predicate with `l`. */
  predicate HasMatch(l: Row, R: seq<Row>, p: (Row, Row) -> bool) {
    exists j :: 0 <= j < |R| && p(l, R[j])
  }

  /** When every left row has a match, the left-outer join is the inner join. */
  lemma {:induction false} LeftJoinAllMatched(L: seq<Row>, R: seq<Row>, p: (Row, Row) -> bool, n: nat)
    requires forall i :: 0 <= i < |L| ==> HasMatch(L[i], R, p)
    ensures LeftJoinRows(L, R, p, n) == JoinRows(L, R, p)
  {
    if L != [] {
      var L' := L[..|L| - 1];
      assert forall i :: 0 <= i < |L'| ==> L'[i] == L[i];
      LeftJoinAllMatched(L', R, p, n);
      var l := L[|L| - 1];
      MatchesMembers(l, R, p);
      assert HasMatch(l, R, p);
    }
  }

  /** Inputs `a` and `b` cells wide, with `n == b`, give rows `a + b` wide. */
  lemma {:induction false} LeftJoinRowsWidth(L: seq<Row>, R: seq<Row>, p: (Row, Row) -> bool, a: int, n: nat)
    requires AllWidth(L, a) && AllWidth(R, n)
    ensures AllWidth(LeftJoinRows(L, R, p, n), a + n)
  {
    if L != [] {
      var L' := L[..|L| - 1];
      var l := L[|L| - 1];
      assert AllWidth(L', a) by {
        forall x | 0 <= x < |L'| ensures |L'[x]| == a {
          assert L'[x] == L[x];
        }
      }
      LeftJoinRowsWidth(L', R, p, a, n);
      JoinRowsWidth([l], R, p, a, n);
      assert JoinRows([l], R, p) == Matches(l, R, p) by {
        assert [l][..0] == [];
      }
    }
  }

  // ---------------------------------------------------------------------
  // The hash join agrees with the nested-loop join

  /** The bucket of `k` in the table built over `S` holds exactly the rows of
      `S` with key `k`, in the order of `S`; `k` has a bucket exactly when
      some row has that key. */
  lemma {:induction false} IndexBuckets(S: seq<Row>, key: Row -> string)
    ensures forall k :: Bucket(Index(S, key), k) == Having(S, key, k)
    ensures forall k :: k in Index(S, key) <==> Having(S, key, k) != []
  {
    if S != [] {
      IndexBuckets(S[..|S| - 1], key);
    }
  }

  /** Emitting for one more bucket entry appends its joined row. */
  lemma EmitStep(s: Row, bucket: seq<Row>, join: (Row, Row) -> Row, k: int)
    requires 0 <= k < |bucket|
    ensures Emit(s, bucket[..k + 1], join) == Emit(s, bucket[..k], join) + [join(s, bucket[k])]
  {
    assert bucket[..k + 1][..k] == bucket[..k];
  }

  /** Probing with one more row appends that row's emitted rows. */
  lemma ProbeStep(S: seq<Row>, key: Row -> string, ht: map<string, seq<Row>>, join: (Row, Row) -> Row, i: int)
    requires 0 <= i < |S|
    ensures Probe(S[..i + 1], key, ht, join) ==
      Probe(S[..i], key, ht, join) + (if key(S[i]) in ht then Emit(S[i], ht[key(S[i])], join) else [])
  {
    assert S[..i + 1][..i] == S[..i];
  }

  /** Emitting for a bucket with one more entry at the end appends its joined row. */
  lemma EmitSnoc(s: Row, bucket: seq<Row>, b: Row, join: (Row, Row) -> Row)
    ensures Emit(s, bucket + [b], join) == Emit(s, bucket, join) + [join(s, b)]
  {
    assert (bucket + [b])[..|bucket|] == bucket;
  }

  /** Probing with a left row emits that row's matches in right-row order. */
  lemma {:induction false} EmitLeft(l: Row, R: seq<Row>, fnLeft: Row -> string, fnRight: Row -> string)
    ensures Emit(l, Having(R, fnRight, fnLeft(l)), JoinSmallFirst) == Matches(l, R, KeyEq(fnLeft, fnRight))
  {
    if R != [] {
      var R' := R[..|R| - 1];
      var r := R[|R| - 1];
      EmitLeft(l, R', fnLeft, fnRight);
      assert KeyEq(fnLeft, fnRight)(l, r) == (fnLeft(l) == fnRight(r));
      assert JoinSmallFirst(l, r) == l + r;
      assert Matches(l, R, KeyEq(fnLeft, fnRight)) == Matches(l, R', KeyEq(fnLeft, fnRight)) + (if KeyEq(fnLeft, fnRight)(l, r) then [l + r] else []);
      assert Having(R, fnRight, fnLeft(l)) == Having(R', fnRight, fnLeft(l)) + (if fnRight(r) == fnLeft(l) then [r] else []);
      if fnRight(r) == fnLeft(l) {
        EmitSnoc(l, Having(R', fnRight, fnLeft(l)), r, JoinSmallFirst);
      } else {
        assert Having(R, fnRight, fnLeft(l)) == Having(R', fnRight, fnLeft(l));
      }
    }
  }

  /** Probing with a right row emits that row's matches in left-row order. */
  lemma {:induction false} EmitRight(L: seq<Row>, r: Row, fnLeft: Row -> string, fnRight: Row -> string)
    ensures Emit(r, Having(L, fnLeft, fnRight(r)), JoinLargeFirst) == CoMatches(L, r, KeyEq(fnLeft, fnRight))
  {
    if L != [] {
      var L' := L[..|L| - 1];
      var l := L[|L| - 1];
      EmitRight(L', r, fnLeft, fnRight);
      assert KeyEq(fnLeft, fnRight)(l, r) == (fnLeft(l) == fnRight(r));
      assert JoinLargeFirst(r, l) == l + r;
      assert CoMatches(L, r, KeyEq(fnLeft, fnRight)) == CoMatches(L', r, KeyEq(fnLeft, fnRight)) + (if KeyEq(fnLeft, fnRight)(l, r) then [l + r] else []);
      assert Having(L, fnLeft, fnRight(r)) == Having(L', fnLeft, fnRight(r)) + (if fnLeft(l) == fnRight(r) then [l] else []);
      if fnLeft(l) == fnRight(r) {
        EmitSnoc(r, Having(L', fnLeft, fnRight(r)), l, JoinLargeFirst);
      } else {
        assert Having(L, fnLeft, fnRight(r)) == Having(L', fnLeft, fnRight(r));
      }
    }
  }

  /** Hashing the right table and probing with the left one emits the
      nested-loop join's rows in the same order. */
  lemma {:induction false} ProbeLeft(L: seq<Row>, R: seq<Row>, fnLeft: Row -> string, fnRight: Row -> string)
    ensures Probe(L, fnLeft, Index(R, fnRight), JoinSmallFirst) == JoinRows(L, R, KeyEq(fnLeft, fnRight))
  {
    if L != [] {
      var l := L[|L| - 1];
      ProbeLeft(L[..|L| - 1], R, fnLeft, fnRight);
      IndexBuckets(R, fnRight);
      EmitLeft(l, R, fnLeft, fnRight);
      assert Bucket(Index(R, fnRight), fnLeft(l)) == Having(R, fnRight, fnLeft(l));
    }
  }

  /** Hashing the left table and probing with the right one emits the
      joined rows right-major. */
  lemma {:induction false} ProbeRight(L: seq<Row>, R: seq<Row>, fnLeft: Row -> string, fnRight: Row -> string)
    ensures Probe(R, fnRight, Index(L, fnLeft), JoinLargeFirst) == JoinRowsByRight(L, R, KeyEq(fnLeft, fnRight))
  {
    if R != [] {
      var r := R[|R| - 1];
      ProbeRight(L, R[..|R| - 1], fnLeft, fnRight);
      IndexBuckets(L, fnLeft);
      EmitRight(L, r, fnLeft, fnRight);
      assert Bucket(Index(L, fnLeft), fnRight(r)) == Having(L, fnLeft, fnRight(r));
    }
  }

  /** Taking the last left row out of a right-major enumeration takes out
      exactly that row's matches. */
  lemma {:induction false} ByRightSplit(L: seq<Row>, R: seq<Row>, p: (Row, Row) -> bool)
    requires L != []
    ensures multiset(JoinRowsByRight(L, R, p)) ==
      multiset(JoinRowsByRight(L[..|L| - 1], R, p)) + multiset(Matches(L[|L| - 1], R, p))
  {
    if R != [] {
      ByRightSplit(L, R[..|R| - 1], p);
    }
  }

  /** Left-major and right-major enumerations hold the same rows. */
  lemma {:induction false} ByRightPermutes(L: seq<Row>, R: seq<Row>, p: (Row, Row) -> bool)
    ensures multiset(JoinRowsByRight(L, R, p)) == multiset(JoinRows(L, R, p))
  {
    if L == [] {
      assert JoinRowsByRight(L, R, p) == [] by {
        ByRightEmpty(R, p);
      }
    } else {
      ByRightPermutes(L[..|L| - 1], R, p);
      ByRightSplit(L, R, p);
    }
  }

  lemma {:induction false} ByRightEmpty(R: seq<Row>, p: (Row, Row) -> bool)
    ensures JoinRowsByRight([], R, p) == []
  {
    if R != [] {
      ByRightEmpty(R[..|R| - 1], p);
    }
  }

  /** When the left table is not the larger one, the right one is hashed
      and the hash join emits the nested-loop join's rows under
      `fnLeft(l) == fnRight(r)`, in the same order. */
  lemma HashJoinInOrder(L: seq<Row>, R: seq<Row>, fnLeft: Row -> string, fnRight: Row -> string)
    requires |L| <= |R|
    ensures HashJoinRows(L, R, fnLeft, fnRight) == JoinRows(L, R, KeyEq(fnLeft, fnRight))
  {
    ProbeLeft(L, R, fnLeft, fnRight);
  }

  /** When the left table is the larger one, it is hashed and the hash join
      emits the same rows right-major. */
  lemma HashJoinByRight(L: seq<Row>, R: seq<Row>, fnLeft: Row -> string, fnRight: Row -> string)
    requires |L| > |R|
    ensures HashJoinRows(L, R, fnLeft, fnRight) == JoinRowsByRight(L, R, KeyEq(fnLeft, fnRight))
  {
    ProbeRight(L, R, fnLeft, fnRight);
  }

  /** Whichever table is hashed, the hash join emits exactly the rows of the
      nested-loop join under `fnLeft(l) == fnRight(r)`, as a multiset. */
  lemma HashJoinIsJoin(L: seq<Row>, R: seq<Row>, fnLeft: Row -> string, fnRight: Row -> string)
    ensures multiset(HashJoinRows(L, R, fnLeft, fnRight)) == multiset(JoinRows(L, R, KeyEq(fnLeft, fnRight)))
  {
    if |L| > |R| {
      HashJoinByRight(L, R, fnLeft, fnRight);
      ByRightPermutes(L, R, KeyEq(fnLeft, fnRight));
    } else {
      HashJoinInOrder(L, R, fnLeft, fnRight);
    }
  }

  /** Inputs `a` and `b` cells wide give hash-joined rows `a + b` wide. */
  lemma HashJoinRowsWidth(L: seq<Row>, R: seq<Row>, fnLeft: Row -> string, fnRight: Row -> string, a: int, b: int)
    requires AllWidth(L, a) && AllWidth(R, b)
    ensures AllWidth(HashJoinRows(L, R, fnLeft, fnRight), a + b)
  {
    var out := HashJoinRows(L, R, fnLeft, fnRight);
    var ref := JoinRows(L, R, KeyEq(fnLeft, fnRight));
    HashJoinIsJoin(L, R, fnLeft, fnRight);
    JoinRowsWidth(L, R, KeyEq(fnLeft, fnRight), a, b);
    forall x | 0 <= x < |out| ensures |out[x]| == a + b {
      assert out[x] in multiset(out);
      assert out[x] in ref;
    }
  }
}
