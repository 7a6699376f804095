/** The summary of the density-based clustering script. Unlike the other summaries it
    works on the count matrix itself: labels are attached to the matrix rows by
    position, a label's member count is its number of rows, its average is the mean of
    those rows' `total_calls`, and its top types come from the (neighbourhood, type)
    counts summed over its rows. The noise label -1 is a label like any other. */
module DensitySummary {
  import Seqs
  import Ordering
  import Calls
  import CountMatrix
  import TopTypes
  import ClusterSummary

  /** The entries of `xs` at the positions whose label is `k`, in row order. */
  function Where(xs: seq<nat>, labels: seq<int>, k: int): (r: seq<nat>)
    requires |xs| == |labels|
    ensures |r| == Seqs.Occ(labels, k)
    ensures forall j :: 0 <= j < |r| ==> exists i :: 0 <= i < |xs| && labels[i] == k && r[j] == xs[i]
    ensures forall i :: 0 <= i < |xs| && labels[i] == k ==> xs[i] in r
  {
    if |xs| == 0 then []
    else
      var rest := Where(xs[1..], labels[1..], k);
      WhereStep(xs, labels, k, rest);
      (if labels[0] == k then [xs[0]] else []) + rest
  }

  /** One step of `Where`: what the selection from the rows after the first keeps
      carries over once the first row is put in front. */
  lemma WhereStep(xs: seq<nat>, labels: seq<int>, k: int, rest: seq<nat>)
    requires |xs| == |labels| > 0
    requires forall j :: 0 <= j < |rest| ==> exists i :: 0 <= i < |xs[1..]| && labels[1..][i] == k && rest[j] == xs[1..][i]
    requires forall i :: 0 <= i < |xs[1..]| && labels[1..][i] == k ==> xs[1..][i] in rest
    ensures var r := (if labels[0] == k then [xs[0]] else []) + rest;
      && (forall j :: 0 <= j < |r| ==> exists i :: 0 <= i < |xs| && labels[i] == k && r[j] == xs[i])
      && (forall i :: 0 <= i < |xs| && labels[i] == k ==> xs[i] in r)
  {
    var head := if labels[0] == k then [xs[0]] else [];
    var r := head + rest;
    forall j | 0 <= j < |r| ensures exists i :: 0 <= i < |xs| && labels[i] == k && r[j] == xs[i] {
      if j < |head| {
        assert labels[0] == k && r[j] == xs[0];
      } else {
        var i :| 0 <= i < |xs[1..]| && labels[1..][i] == k && rest[j - |head|] == xs[1..][i];
        assert labels[i + 1] == k && r[j] == xs[i + 1];
      }
    }
    forall i | 0 <= i < |xs| && labels[i] == k ensures xs[i] in r {
      if i > 0 {
        assert xs[1..][i - 1] in rest;
      }
    }
  }

  /** Selecting by label distributes over stacking two blocks of rows: the selection
      keeps row order and takes each row at most once. */
  lemma {:induction false} WhereAppend(xs: seq<nat>, ls: seq<int>, ys: seq<nat>, ms: seq<int>, k: int)
    requires |xs| == |ls| && |ys| == |ms|
    ensures Where(xs + ys, ls + ms, k) == Where(xs, ls, k) + Where(ys, ms, k)
  {
    if |xs| > 0 {
      assert (xs + ys)[1..] == xs[1..] + ys;
      assert (ls + ms)[1..] == ls[1..] + ms;
      WhereAppend(xs[1..], ls[1..], ys, ms, k);
    } else {
      assert xs + ys == ys && ls + ms == ms;
    }
  }

  /** Column `j` of a matrix, top to bottom. */
  function Column(m: CountMatrix.Matrix<nat>, j: nat): (r: seq<nat>)
    requires CountMatrix.Rectangular(m) && j < |m.cols|
    ensures |r| == |m.rows|
    ensures forall i :: 0 <= i < |m.rows| ==> r[i] == m.cells[i][j]
  {
    seq(|m.rows|, i requires 0 <= i < |m.rows| => m.cells[i][j])
  }

  /** Labels that fit the matrix: one per row, as the clustering returns them. */
  predicate Fits(m: CountMatrix.Matrix<nat>, labels: seq<int>) {
    CountMatrix.Rectangular(m) && |labels| == |m.rows| && Seqs.Distinct(m.cols)
  }

  /** For every column, the count summed over the rows labelled `k`: the
      `groupby([cluster, type])['count'].sum()` after the left merge. */
  function LabelTallies(m: CountMatrix.Matrix<nat>, labels: seq<int>, k: int): (ts: seq<TopTypes.Tally>)
    requires Fits(m, labels)
    ensures TopTypes.Keys(ts) == m.cols
    ensures forall j :: 0 <= j < |m.cols| ==> ts[j].count == Seqs.Sum(Where(Column(m, j), labels, k))
  {
    var ts := seq(|m.cols|, j requires 0 <= j < |m.cols| =>
                TopTypes.Tally(m.cols[j], Seqs.Sum(Where(Column(m, j), labels, k))));
    assert TopTypes.Keys(ts) == m.cols;
    ts
  }

  /** The summed count of call type `t` in cluster `k` (0 for a type with no column). */
  function TypeTotal(m: CountMatrix.Matrix<nat>, labels: seq<int>, k: int, t: string): nat
    requires Fits(m, labels)
  {
    TopTypes.CountOf(LabelTallies(m, labels, k), t)
  }

  /** The summary line of label `k`, a label some row carries. */
  function RowOf(m: CountMatrix.Matrix<nat>, labels: seq<int>, k: int): (r: ClusterSummary.Row)
    requires Fits(m, labels) && k in labels
    ensures r.cluster == k && r.members == Seqs.Occ(labels, k) && r.members >= 1
    ensures |r.topTypes| <= TopTypes.TopCount
    ensures |r.topTypes| < TopTypes.TopCount ==> forall t :: TypeTotal(m, labels, k, t) > 0 ==> t in r.topTypes
    ensures Seqs.Distinct(r.topTypes)
    ensures forall i :: 0 <= i < |r.topTypes| ==> TypeTotal(m, labels, k, r.topTypes[i]) > 0
  {
    var totals := CountMatrix.RowTotals(m);
    ClusterSummary.Row(k, Seqs.Occ(labels, k), Seqs.Mean(Where(totals, labels, k)),
                       TopTypes.TopTallies(LabelTallies(m, labels, k), TopTypes.TopCount))
  }

  /** `AvgCalls` is the mean `total_calls` of the label's rows. */
  lemma RowAverage(m: CountMatrix.Matrix<nat>, labels: seq<int>, k: int)
    requires Fits(m, labels) && k in labels
    ensures Seqs.IsMean(RowOf(m, labels, k).avgCalls, Seqs.Sum(Where(CountMatrix.RowTotals(m), labels, k)),
                        RowOf(m, labels, k).members)
  {
    var w := Where(CountMatrix.RowTotals(m), labels, k);
    assert RowOf(m, labels, k).avgCalls == Seqs.Mean(w);
    Seqs.MeanTimesCount(w, Seqs.Sum(w));
  }

  /** The top types of a label are ranked by their summed counts: never increasing
      along the list, and no type with a positive count left out beats a listed one. */
  lemma RowTopRanked(m: CountMatrix.Matrix<nat>, labels: seq<int>, k: int)
    requires Fits(m, labels) && k in labels
    ensures var top := RowOf(m, labels, k).topTypes;
      forall i, j :: 0 <= i < j < |top| ==> TypeTotal(m, labels, k, top[i]) >= TypeTotal(m, labels, k, top[j])
    ensures var top := RowOf(m, labels, k).topTypes;
      forall t, i :: TypeTotal(m, labels, k, t) > 0 && t !in top && 0 <= i < |top| ==>
        TypeTotal(m, labels, k, t) <= TypeTotal(m, labels, k, top[i])
  {
    var ts := LabelTallies(m, labels, k);
    TopTypes.TopTalliesRanked(ts, TopTypes.TopCount);
  }

  /** The summary frame: one line per distinct label, ascending, `-1` included. */
  function Summary(m: CountMatrix.Matrix<nat>, labels: seq<int>): (r: seq<ClusterSummary.Row>)
    requires Fits(m, labels)
    ensures forall i :: 0 <= i < |r| ==> r[i].cluster in labels && r[i] == RowOf(m, labels, r[i].cluster)
    ensures forall i, j :: 0 <= i < j < |r| ==> r[i].cluster < r[j].cluster
    ensures forall k :: k in labels ==> k in ClusterSummary.Clusters(r)
  {
    var ks := Ordering.DistinctLabels(labels);
    var r := seq(|ks|, i requires 0 <= i < |ks| => RowOf(m, labels, ks[i]));
    assert ClusterSummary.Clusters(r) == ks;
    r
  }

  /** `Neighborhoods` over the summary adds up to the number of matrix rows. */
  lemma MembersAddUp(m: CountMatrix.Matrix<nat>, labels: seq<int>)
    requires Fits(m, labels)
    ensures Seqs.Sum(ClusterSummary.MemberCounts(Summary(m, labels))) == |m.rows|
  {
    var ks := Ordering.DistinctLabels(labels);
    var r := Summary(m, labels);
    assert ClusterSummary.MemberCounts(r) == Seqs.CountsAlong(labels, ks) by {
      assert r == seq(|ks|, i requires 0 <= i < |ks| => RowOf(m, labels, ks[i]));
    }
    assert Seqs.Distinct(ks);
    Seqs.CountsAlongTotal(labels, ks);
  }

  /** Whether `name` is a row labelled `k`. */
  predicate InCluster(rows: seq<string>, labels: seq<int>, k: int, name: string)
    requires |rows| == |labels|
  {
    |rows| > 0 && ((rows[0] == name && labels[0] == k) || InCluster(rows[1..], labels[1..], k, name))
  }

  lemma {:induction false} InClusterIff(rows: seq<string>, labels: seq<int>, k: int, name: string)
    requires |rows| == |labels|
    ensures InCluster(rows, labels, k, name) <==> exists i :: 0 <= i < |rows| && rows[i] == name && labels[i] == k
  {
    if |rows| > 0 {
      InClusterIff(rows[1..], labels[1..], k, name);
      if exists i :: 0 <= i < |rows| && rows[i] == name && labels[i] == k {
        var i :| 0 <= i < |rows| && rows[i] == name && labels[i] == k;
        if i > 0 {
          assert rows[1..][i - 1] == name && labels[1..][i - 1] == k;
        }
      }
    }
  }

  /** The number of records of type `t` whose neighbourhood is a row labelled `k`. */
  function RecordsOfType(cs: seq<Calls.Call>, rows: seq<string>, labels: seq<int>, k: int, t: string): (n: nat)
    requires |rows| == |labels|
    ensures n <= |cs|
  {
    if |cs| == 0 then 0
    else (if cs[0].kind == t && InCluster(rows, labels, k, cs[0].area) then 1 else 0)
         + RecordsOfType(cs[1..], rows, labels, k, t)
  }

  lemma {:induction false} PairCountCons(cs: seq<Calls.Call>, name: string, t: string)
    requires |cs| > 0
    ensures CountMatrix.PairCount(cs, name, t) ==
            (if cs[0].area == name && cs[0].kind == t then 1 else 0) + CountMatrix.PairCount(cs[1..], name, t)
  {
    var rest := Calls.InArea(cs[1..], name);
    Calls.InAreaCons(cs, name);
    if cs[0].area == name {
      Calls.KindsCons(cs[0], rest);
      var ks := [cs[0].kind] + Calls.Kinds(rest);
      assert ks[1..] == Calls.Kinds(rest);
      assert Seqs.Occ(ks, t) == (if cs[0].kind == t then 1 else 0) + Seqs.Occ(Calls.Kinds(rest), t);
    }
  }

  lemma {:induction false} PairCountEmpty(cs: seq<Calls.Call>, name: string, t: string)
    requires |cs| == 0
    ensures CountMatrix.PairCount(cs, name, t) == 0
  {
  }

  lemma {:induction false} InClusterMember(rows: seq<string>, labels: seq<int>, k: int, name: string)
    requires |rows| == |labels| && InCluster(rows, labels, k, name)
    ensures name in rows
  {
    if rows[0] != name || labels[0] != k {
      InClusterMember(rows[1..], labels[1..], k, name);
    }
  }

  /** Peeling off the first row: its records count when it carries label `k`, and no
      record is counted twice, since the row names are distinct. */
  lemma {:induction false} RecordsOfTypeSplit(cs: seq<Calls.Call>, rows: seq<string>, labels: seq<int>, k: int, t: string)
    requires |rows| == |labels| && |rows| > 0 && rows[0] !in rows[1..]
    ensures RecordsOfType(cs, rows, labels, k, t) ==
            (if labels[0] == k then CountMatrix.PairCount(cs, rows[0], t) else 0)
            + RecordsOfType(cs, rows[1..], labels[1..], k, t)
  {
    if |cs| == 0 {
      PairCountEmpty(cs, rows[0], t);
    } else {
      RecordsOfTypeSplit(cs[1..], rows, labels, k, t);
      PairCountCons(cs, rows[0], t);
      if InCluster(rows[1..], labels[1..], k, cs[0].area) {
        InClusterMember(rows[1..], labels[1..], k, cs[0].area);
      }
    }
  }

  /** Summing a per-row count over the rows labelled `k` counts each record of type
      `t` in those rows once. */
  lemma {:induction false} SumOverRows(cs: seq<Calls.Call>, rows: seq<string>, labels: seq<int>, k: int, t: string,
                                       p: seq<nat>)
    requires |rows| == |labels| == |p| && Seqs.Distinct(rows)
    requires forall i :: 0 <= i < |rows| ==> p[i] == CountMatrix.PairCount(cs, rows[i], t)
    ensures Seqs.Sum(Where(p, labels, k)) == RecordsOfType(cs, rows, labels, k, t)
  {
    if |rows| == 0 {
      if |cs| > 0 {
        RecordsOfTypeZero(cs, rows, labels, k, t);
      }
    } else {
      var rest := rows[1..];
      assert Seqs.Distinct(rest);
      SumOverRows(cs, rest, labels[1..], k, t, p[1..]);
      var head: seq<nat> := if labels[0] == k then [p[0]] else [];
      assert Where(p, labels, k) == head + Where(p[1..], labels[1..], k);
      Seqs.SumAppend(head, Where(p[1..], labels[1..], k));
      assert rows[0] !in rest by {
        forall i | 0 <= i < |rest| ensures rest[i] != rows[0] {
          assert rows[i + 1] != rows[0];
        }
      }
      RecordsOfTypeSplit(cs, rows, labels, k, t);
    }
  }

  lemma {:induction false} RecordsOfTypeZero(cs: seq<Calls.Call>, rows: seq<string>, labels: seq<int>, k: int, t: string)
    requires |rows| == |labels| == 0
    ensures RecordsOfType(cs, rows, labels, k, t) == 0
  {
    if |cs| > 0 {
      RecordsOfTypeZero(cs[1..], rows, labels, k, t);
    }
  }

  /** In a matrix whose column `j` holds the per-row counts of type `t`, summing that
      column over the rows labelled `k` counts each record of type `t` in those rows. */
  lemma {:induction false} ColumnTypeTotal(cs: seq<Calls.Call>, m: CountMatrix.Matrix<nat>, labels: seq<int>, k: int, j: nat)
    requires Fits(m, labels) && Seqs.Distinct(m.rows) && j < |m.cols|
    requires forall i :: 0 <= i < |m.rows| ==> m.cells[i][j] == CountMatrix.PairCount(cs, m.rows[i], m.cols[j])
    ensures TypeTotal(m, labels, k, m.cols[j]) == RecordsOfType(cs, m.rows, labels, k, m.cols[j])
  {
    var t := m.cols[j];
    var ts := LabelTallies(m, labels, k);
    TopTypes.CountOfEntry(ts, j);
    SumOverRows(cs, m.rows, labels, k, t, Column(m, j));
  }

  /** The left merge gives every (neighbourhood, type) count the label of its
      neighbourhood, so in the count matrix of a frame the summed count of a type in
      cluster `k` is the number of that type's records across the cluster's
      neighbourhoods. */
  lemma CrosstabTypeTotal(cs: seq<Calls.Call>, labels: seq<int>, k: int, j: nat)
    requires Fits(CountMatrix.Crosstab(cs), labels)
    requires j < |CountMatrix.Crosstab(cs).cols|
    ensures var m := CountMatrix.Crosstab(cs);
      TypeTotal(m, labels, k, m.cols[j]) == RecordsOfType(cs, m.rows, labels, k, m.cols[j])
  {
    var m := CountMatrix.Crosstab(cs);
    Ordering.NamesAscendingDistinct(m.rows);
    ColumnTypeTotal(cs, m, labels, k, j);
  }
}
