/** The neighbourhood x call-type table that feeds every clustering step:
    `pd.crosstab(area, type)` or, equivalently, `groupby([area, type]).size()
    .unstack(fill_value=0)`, its row totals (`total_calls`), the all-zero column drop
    and the row proportions. */
module CountMatrix {
  import Seqs
  import Ordering
  import Calls

  /** A dense table: `rows` is the index, `cols` the column labels, `cells[i][j]` the
      entry for row `rows[i]` and column `cols[j]`. */
  datatype Matrix<V> = Matrix(rows: seq<string>, cols: seq<string>, cells: seq<seq<V>>)

  /** Every row has one entry per column. */
  predicate Rectangular<V>(m: Matrix<V>) {
    && |m.cells| == |m.rows|
    && forall i :: 0 <= i < |m.cells| ==> |m.cells[i]| == |m.cols|
  }

  /** How many records of neighbourhood `name` have call type `kind`. */
  function PairCount(cs: seq<Calls.Call>, name: string, kind: string): nat {
    Seqs.Occ(Calls.Kinds(Calls.InArea(cs, name)), kind)
  }

  /** The cross-tabulation of a frame: one row per neighbourhood and one column per
      call type that occurs in it, both ascending, every missing pair filled with 0. */
  function Crosstab(cs: seq<Calls.Call>): (m: Matrix<nat>)
    ensures Rectangular(m)
    ensures Ordering.NamesAscending(m.rows) && Ordering.NamesAscending(m.cols)
    ensures forall n :: n in m.rows <==> n in Calls.Areas(cs)
    ensures forall t :: t in m.cols <==> t in Calls.Kinds(cs)
    ensures forall i, j :: 0 <= i < |m.rows| && 0 <= j < |m.cols| ==>
              m.cells[i][j] == PairCount(cs, m.rows[i], m.cols[j])
  {
    var rows := Ordering.DistinctNames(Calls.Areas(cs));
    var cols := Ordering.DistinctNames(Calls.Kinds(cs));
    Matrix(rows, cols,
           seq(|rows|, i requires 0 <= i < |rows| =>
             Seqs.CountsAlong(Calls.Kinds(Calls.InArea(cs, rows[i])), cols)))
  }

  /** `matrix.sum(axis=1)`: the `total_calls` column. */
  function RowTotals(m: Matrix<nat>): (r: seq<nat>)
    ensures |r| == |m.cells|
  {
    seq(|m.cells|, i requires 0 <= i < |m.cells| => Seqs.Sum(m.cells[i]))
  }

  /** Every row of the cross-tabulation adds up to its neighbourhood's number of
      records, and so is positive. */
  lemma CrosstabRowTotals(cs: seq<Calls.Call>)
    ensures forall i :: 0 <= i < |Crosstab(cs).rows| ==>
              RowTotals(Crosstab(cs))[i] == |Calls.InArea(cs, Crosstab(cs).rows[i])| > 0
  {
    var m := Crosstab(cs);
    Ordering.NamesAscendingDistinct(m.cols);
    forall i | 0 <= i < |m.rows|
      ensures RowTotals(m)[i] == |Calls.InArea(cs, m.rows[i])| > 0
    {
      var own := Calls.InArea(cs, m.rows[i]);
      var ks := Calls.Kinds(own);
      forall k | 0 <= k < |ks| ensures ks[k] in m.cols {
        assert own[k] in cs;
        assert ks[k] in Calls.Kinds(cs) by {
          var p :| 0 <= p < |cs| && cs[p] == own[k];
          assert Calls.Kinds(cs)[p] == ks[k];
        }
      }
      Seqs.CountsAlongTotal(ks, m.cols);
      assert m.rows[i] in Calls.Areas(cs);
      var p :| 0 <= p < |cs| && cs[p].area == m.rows[i];
      assert cs[p] in own;
    }
  }

  /** The row totals add up to the number of records in the frame. */
  lemma CrosstabGrandTotal(cs: seq<Calls.Call>)
    ensures Seqs.Sum(RowTotals(Crosstab(cs))) == |cs|
  {
    var m := Crosstab(cs);
    CrosstabRowTotals(cs);
    forall i | 0 <= i < |m.rows|
      ensures RowTotals(m)[i] == Seqs.CountsAlong(Calls.Areas(cs), m.rows)[i]
    {
      Calls.InAreaCount(cs, m.rows[i]);
    }
    assert RowTotals(m) == Seqs.CountsAlong(Calls.Areas(cs), m.rows);
    Ordering.NamesAscendingDistinct(m.rows);
    Seqs.CountsAlongTotal(Calls.Areas(cs), m.rows);
  }

  /** Column `j` has a nonzero entry: `(matrix != 0).any(axis=0)`. */
  predicate ColumnUsed(m: Matrix<nat>, j: nat)
    requires Rectangular(m) && j < |m.cols|
  {
    exists i :: 0 <= i < |m.rows| && m.cells[i][j] != 0
  }

  /** The positions, from `from` on, of the columns with a nonzero entry. */
  function UsedColumns(m: Matrix<nat>, from: nat): (r: seq<nat>)
    requires Rectangular(m) && from <= |m.cols|
    ensures forall k :: 0 <= k < |r| ==> from <= r[k] < |m.cols| && ColumnUsed(m, r[k])
    ensures forall k, l :: 0 <= k < l < |r| ==> r[k] < r[l]
    ensures forall j :: from <= j < |m.cols| && ColumnUsed(m, j) ==> j in r
    decreases |m.cols| - from
  {
    if from == |m.cols| then []
    else if ColumnUsed(m, from) then [from] + UsedColumns(m, from + 1)
    else UsedColumns(m, from + 1)
  }

  /** The columns at positions `idx`, in that order, with every row. */
  function SelectColumns(m: Matrix<nat>, idx: seq<nat>): (r: Matrix<nat>)
    requires Rectangular(m)
    requires forall k :: 0 <= k < |idx| ==> idx[k] < |m.cols|
    ensures Rectangular(r) && r.rows == m.rows && |r.cols| == |idx|
    ensures forall k :: 0 <= k < |idx| ==> r.cols[k] == m.cols[idx[k]]
    ensures forall i, k :: 0 <= i < |m.rows| && 0 <= k < |idx| ==> r.cells[i][k] == m.cells[i][idx[k]]
  {
    Matrix(m.rows, seq(|idx|, k requires 0 <= k < |idx| => m.cols[idx[k]]),
           seq(|m.rows|, i requires 0 <= i < |m.rows| =>
             seq(|idx|, k requires 0 <= k < |idx| => m.cells[i][idx[k]])))
  }

  /** `matrix.loc[:, (matrix != 0).any(axis=0)]`: every row stays, every column that
      has a nonzero entry stays, and every column left has a nonzero entry. The
      columns left are those of `m` at the used positions, in order, with their
      cells. */
  function DropZeroColumns(m: Matrix<nat>): (r: Matrix<nat>)
    requires Rectangular(m)
    ensures Rectangular(r) && r.rows == m.rows && |r.cols| <= |m.cols|
    ensures forall k :: 0 <= k < |r.cols| ==> ColumnUsed(r, k)
    ensures forall j :: 0 <= j < |m.cols| && ColumnUsed(m, j) ==> m.cols[j] in r.cols
    ensures var idx := UsedColumns(m, 0);
      && |r.cols| == |idx|
      && (forall k :: 0 <= k < |idx| ==> r.cols[k] == m.cols[idx[k]])
      && (forall i, k :: 0 <= i < |m.rows| && 0 <= k < |idx| ==> r.cells[i][k] == m.cells[i][idx[k]])
  {
    var idx := UsedColumns(m, 0);
    UsedColumnsFit(m, 0);
    var r := SelectColumns(m, idx);
    forall k | 0 <= k < |r.cols| ensures ColumnUsed(r, k) {
      var i :| 0 <= i < |m.rows| && m.cells[i][idx[k]] != 0;
      assert r.cells[i][k] != 0;
    }
    forall j | 0 <= j < |m.cols| && ColumnUsed(m, j) ensures m.cols[j] in r.cols {
      var k :| 0 <= k < |idx| && idx[k] == j;
      assert r.cols[k] == m.cols[j];
    }
    r
  }

  /** The used positions are distinct, so there are no more of them than columns. */
  lemma {:induction false} UsedColumnsFit(m: Matrix<nat>, from: nat)
    requires Rectangular(m) && from <= |m.cols|
    ensures |UsedColumns(m, from)| <= |m.cols| - from
    decreases |m.cols| - from
  {
    if from < |m.cols| {
      UsedColumnsFit(m, from + 1);
    }
  }

  /** The positions `lo`, `lo + 1`, ..., `hi - 1`. */
  function Range(lo: nat, hi: nat): (r: seq<nat>)
    requires lo <= hi
    ensures |r| == hi - lo
    ensures forall k :: 0 <= k < |r| ==> r[k] == lo + k
    decreases hi - lo
  {
    if lo == hi then [] else [lo] + Range(lo + 1, hi)
  }

  lemma {:induction false} AllColumnsUsed(m: Matrix<nat>, from: nat)
    requires Rectangular(m) && from <= |m.cols|
    requires forall j :: 0 <= j < |m.cols| ==> ColumnUsed(m, j)
    ensures UsedColumns(m, from) == Range(from, |m.cols|)
    decreases |m.cols| - from
  {
    if from < |m.cols| {
      AllColumnsUsed(m, from + 1);
      assert ColumnUsed(m, from);
    }
  }

  /** Every call type of a cross-tabulation occurs in some neighbourhood, so its
      column has a nonzero entry. */
  lemma CrosstabColumnsUsed(cs: seq<Calls.Call>)
    ensures forall j :: 0 <= j < |Crosstab(cs).cols| ==> ColumnUsed(Crosstab(cs), j)
  {
    var m := Crosstab(cs);
    forall j | 0 <= j < |m.cols| ensures ColumnUsed(m, j) {
      assert m.cols[j] in Calls.Kinds(cs);
      var p :| 0 <= p < |cs| && Calls.Kinds(cs)[p] == m.cols[j];
      var c := cs[p];
      assert c.area in Calls.Areas(cs);
      var i :| 0 <= i < |m.rows| && m.rows[i] == c.area;
      var own := Calls.InArea(cs, c.area);
      assert c in own;
      var q :| 0 <= q < |own| && own[q] == c;
      assert Calls.Kinds(own)[q] == m.cols[j];
      assert m.cells[i][j] == Seqs.Occ(Calls.Kinds(own), m.cols[j]);
    }
  }

  /** Selecting every column in order gives the matrix back. */
  lemma SelectAllColumns(m: Matrix<nat>)
    requires Rectangular(m)
    ensures SelectColumns(m, Range(0, |m.cols|)) == m
  {
    var idx := Range(0, |m.cols|);
    var r := SelectColumns(m, idx);
    assert r.cols == m.cols;
    forall i | 0 <= i < |m.rows| ensures r.cells[i] == m.cells[i] {
      assert |r.cells[i]| == |m.cells[i]|;
      forall k | 0 <= k < |m.cols| ensures r.cells[i][k] == m.cells[i][k] {
        assert idx[k] == k;
      }
    }
    assert r.cells == m.cells;
  }

  /** Dropping the all-zero columns changes nothing on a matrix without such columns,
      in particular on a cross-tabulation. */
  lemma DropIsNoOp(m: Matrix<nat>)
    requires Rectangular(m)
    requires forall j :: 0 <= j < |m.cols| ==> ColumnUsed(m, j)
    ensures DropZeroColumns(m) == m
  {
    AllColumnsUsed(m, 0);
    SelectAllColumns(m);
  }

  lemma CrosstabDropIsNoOp(cs: seq<Calls.Call>)
    ensures DropZeroColumns(Crosstab(cs)) == Crosstab(cs)
  {
    CrosstabColumnsUsed(cs);
    DropIsNoOp(Crosstab(cs));
  }

  function RealSum(s: seq<real>): real {
    if |s| == 0 then 0.0 else s[0] + RealSum(s[1..])
  }

  /** Each entry of a row divided by `total`. */
  function Shares(row: seq<nat>, total: nat): (r: seq<real>)
    requires total > 0
    ensures |r| == |row|
    ensures forall j :: 0 <= j < |row| ==> r[j] * total as real == row[j] as real
  {
    seq(|row|, j requires 0 <= j < |row| => row[j] as real / total as real)
  }

  lemma {:induction false} SharesSum(row: seq<nat>, total: nat)
    requires total > 0
    ensures RealSum(Shares(row, total)) * total as real == Seqs.Sum(row) as real
  {
    if |row| > 0 {
      var a, t := Shares(row, total), total as real;
      assert a[1..] == Shares(row[1..], total);
      SharesSum(row[1..], total);
      assert RealSum(a) == a[0] + RealSum(a[1..]);
      SumTimes(a[0], RealSum(a[1..]), t);
    }
  }

  lemma SumTimes(x: real, y: real, t: real)
    ensures (x + y) * t == x * t + y * t
  {
  }

  lemma {:induction false} EntryAtMostSum(row: seq<nat>, j: nat)
    requires j < |row|
    ensures row[j] <= Seqs.Sum(row)
  {
    if j > 0 {
      EntryAtMostSum(row[1..], j - 1);
    }
  }

  lemma ShareBounds(x: real, a: real, t: real)
    requires t > 0.0 && 0.0 <= a <= t && x * t == a
    ensures 0.0 <= x <= 1.0
  {
  }

  lemma UnitSum(x: real, t: real)
    requires t > 0.0 && x * t == t
    ensures x == 1.0
  {
    assert (x - 1.0) * t == 0.0;
  }

  lemma SharesAddUp(row: seq<nat>)
    requires Seqs.Sum(row) > 0
    ensures RealSum(Shares(row, Seqs.Sum(row))) == 1.0
  {
    var t := Seqs.Sum(row);
    SharesSum(row, t);
    UnitSum(RealSum(Shares(row, t)), t as real);
  }

  lemma SharesBounded(row: seq<nat>)
    requires Seqs.Sum(row) > 0
    ensures forall j :: 0 <= j < |row| ==> 0.0 <= Shares(row, Seqs.Sum(row))[j] <= 1.0
  {
    var t := Seqs.Sum(row);
    var sh := Shares(row, t);
    forall j | 0 <= j < |row| ensures 0.0 <= sh[j] <= 1.0 {
      EntryAtMostSum(row, j);
      ShareBounds(sh[j], row[j] as real, t as real);
    }
  }

  /** `x` is the share `count / total`: times the total it gives back the count. */
  predicate IsShare(x: real, count: nat, total: nat) {
    x * total as real == count as real
  }

  /** One row of proportions: the row divided by its own positive total. The shares
      add up to one, lie between zero and one, and times the total give back the
      counts. */
  function RowShares(row: seq<nat>): (r: seq<real>)
    requires Seqs.Sum(row) > 0
    ensures |r| == |row|
    ensures RealSum(r) == 1.0
    ensures forall j :: 0 <= j < |row| ==> 0.0 <= r[j] <= 1.0
    ensures forall j :: 0 <= j < |row| ==> IsShare(r[j], row[j], Seqs.Sum(row))
  {
    SharesAddUp(row);
    SharesBounded(row);
    Shares(row, Seqs.Sum(row))
  }

  /** `matrix.div(matrix.sum(axis=1), axis=0)`. Every row must have a positive total,
      since a zero total would divide by zero. */
  function Proportions(m: Matrix<nat>): (r: Matrix<real>)
    requires Rectangular(m)
    requires forall i :: 0 <= i < |m.cells| ==> Seqs.Sum(m.cells[i]) > 0
    ensures Rectangular(r) && r.rows == m.rows && r.cols == m.cols
    ensures forall i :: 0 <= i < |r.cells| ==> RealSum(r.cells[i]) == 1.0
    ensures forall i, j :: 0 <= i < |r.rows| && 0 <= j < |r.cols| ==>
              0.0 <= r.cells[i][j] <= 1.0
  {
    var cells := seq(|m.cells|, i requires 0 <= i < |m.cells| => RowShares(m.cells[i]));
    Matrix(m.rows, m.cols, cells)
  }

  /** A proportion times the row's `total_calls` gives back the count. */
  lemma ProportionRecoversCount(m: Matrix<nat>, i: nat, j: nat)
    requires Rectangular(m)
    requires forall i :: 0 <= i < |m.cells| ==> Seqs.Sum(m.cells[i]) > 0
    requires i < |m.rows| && j < |m.cols|
    ensures IsShare(Proportions(m).cells[i][j], m.cells[i][j], RowTotals(m)[i])
  {
    assert Proportions(m).cells[i] == RowShares(m.cells[i]);
    assert RowTotals(m)[i] == Seqs.Sum(m.cells[i]);
  }

  /** The cross-tabulation always admits proportions, and each proportion times the
      row's `total_calls` gives back the count. */
  lemma CrosstabProportions(cs: seq<Calls.Call>)
    ensures forall i :: 0 <= i < |Crosstab(cs).cells| ==> Seqs.Sum(Crosstab(cs).cells[i]) > 0
  {
    CrosstabRowTotals(cs);
    var m := Crosstab(cs);
    forall i | 0 <= i < |m.cells| ensures Seqs.Sum(m.cells[i]) > 0 {
      assert RowTotals(m)[i] == Seqs.Sum(m.cells[i]);
    }
  }

  /** The proportions of a frame's cross-tabulation, which always exist. */
  function Distribution(cs: seq<Calls.Call>): (d: Matrix<real>)
    ensures Rectangular(d) && d.rows == Crosstab(cs).rows && d.cols == Crosstab(cs).cols
    ensures forall i :: 0 <= i < |d.cells| ==> RealSum(d.cells[i]) == 1.0
    ensures forall i, j :: 0 <= i < |d.rows| && 0 <= j < |d.cols| ==> 0.0 <= d.cells[i][j] <= 1.0
  {
    CrosstabProportions(cs);
    Proportions(Crosstab(cs))
  }

  /** In the proportions of a frame, an entry times its row's `total_calls` gives back
      the count. */
  lemma DistributionRecoversCount(cs: seq<Calls.Call>, i: nat, j: nat)
    requires i < |Crosstab(cs).rows| && j < |Crosstab(cs).cols|
    ensures IsShare(Distribution(cs).cells[i][j], Crosstab(cs).cells[i][j], RowTotals(Crosstab(cs))[i])
  {
    CrosstabProportions(cs);
    ProportionRecoversCount(Crosstab(cs), i, j);
  }
}
