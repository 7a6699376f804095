/** The per-cluster summary of the Gaussian-mixture scripts and of the stand-alone
    summary script: for every label present in a labelled call frame, the number of
    distinct neighbourhoods, the mean number of calls per neighbourhood and the top
    call types. */
module ClusterSummary {
  import Seqs
  import Ordering
  import Calls
  import Labels
  import TopTypes

  /** One summary line: `Cluster`, `Neighborhoods`, `Avg Calls per Neighborhood` (before
      any rounding) and `Top Call Types` (as a list, before joining with ", "). */
  datatype Row = Row(cluster: int, members: nat, avgCalls: real, topTypes: seq<string>)

  /** The records of one cluster, in frame order. */
  function ClusterCalls(ls: seq<Labels.Labelled>, k: int): (r: seq<Calls.Call>)
    ensures |r| <= |ls|
  {
    Labels.CallsOf(Seqs.Filter((l: Labels.Labelled) => l.cluster == k, ls))
  }

  /** The neighbourhoods that occur in cluster `k`. */
  ghost function AreaSet(ls: seq<Labels.Labelled>, k: int): set<string> {
    set j | 0 <= j < |ls| && ls[j].cluster == k :: ls[j].call.area
  }

  /** The neighbourhoods of a cluster's records are exactly the neighbourhoods the
      frame places in that cluster. */
  lemma ClusterAreas(ls: seq<Labels.Labelled>, k: int)
    ensures (set x | x in Calls.Areas(ClusterCalls(ls, k))) == AreaSet(ls, k)
  {
    var f := Seqs.Filter((l: Labels.Labelled) => l.cluster == k, ls);
    var cs := ClusterCalls(ls, k);
    forall x | x in Calls.Areas(cs) ensures x in AreaSet(ls, k) {
      var i :| 0 <= i < |cs| && Calls.Areas(cs)[i] == x;
      assert f[i] in ls;
      var j :| 0 <= j < |ls| && ls[j] == f[i];
    }
    forall x | x in AreaSet(ls, k) ensures x in Calls.Areas(cs) {
      var j :| 0 <= j < |ls| && ls[j].cluster == k && ls[j].call.area == x;
      assert ls[j] in f;
      var i :| 0 <= i < |f| && f[i] == ls[j];
      assert Calls.Areas(cs)[i] == x;
    }
  }

  /** `nunique()`: the number of distinct values of a column. */
  function NUnique(xs: seq<string>): (n: nat)
    ensures n == |set x | x in xs|
    ensures n <= |xs|
    ensures |xs| > 0 ==> n > 0
  {
    var names := Ordering.DistinctNames(xs);
    Ordering.NamesAscendingDistinct(names);
    Seqs.DistinctCardinality(names);
    assert (set x | x in names) == (set x | x in xs);
    Seqs.DistinctCardinality(xs[..0]);
    SetOfSeqAtMost(xs);
    if |xs| > 0 then
      assert xs[0] in names;
      |names|
    else |names|
  }

  lemma {:induction false} SetOfSeqAtMost(xs: seq<string>)
    ensures |set x | x in xs| <= |xs|
  {
    if |xs| > 0 {
      SetOfSeqAtMost(xs[1..]);
      assert (set x | x in xs) == (set x | x in xs[1..]) + {xs[0]};
    }
  }

  /** `value_counts()` of a neighbourhood column: one count per distinct name. */
  function AreaCounts(cs: seq<Calls.Call>): (r: seq<nat>)
    ensures |r| == NUnique(Calls.Areas(cs))
    ensures Seqs.Sum(r) == |cs|
  {
    var names := Ordering.DistinctNames(Calls.Areas(cs));
    Ordering.NamesAscendingDistinct(names);
    Seqs.CountsAlongTotal(Calls.Areas(cs), names);
    Seqs.CountsAlong(Calls.Areas(cs), names)
  }

  lemma ClusterNonEmpty(ls: seq<Labels.Labelled>, k: int)
    requires k in Labels.LabelsOf(ls)
    ensures |ClusterCalls(ls, k)| > 0
  {
    var j :| 0 <= j < |ls| && Labels.LabelsOf(ls)[j] == k;
    assert ls[j] in Seqs.Filter((l: Labels.Labelled) => l.cluster == k, ls);
  }

  /** The summary line of cluster `k`, a label that occurs in the frame. */
  function RowOf(ls: seq<Labels.Labelled>, k: int): (r: Row)
    requires k in Labels.LabelsOf(ls)
    ensures r.cluster == k && r.members >= 1
    ensures r.members == |AreaSet(ls, k)|
    ensures r.topTypes == TopTypes.TopOf(Calls.Kinds(ClusterCalls(ls, k)))
  {
    var cs := ClusterCalls(ls, k);
    ClusterNonEmpty(ls, k);
    ClusterAreas(ls, k);
    var counts := AreaCounts(cs);
    Seqs.MeanTimesCount(counts, |cs|);
    Row(k, |counts|, Seqs.Mean(counts), TopTypes.TopOf(Calls.Kinds(cs)))
  }

  /** `Avg Calls per Neighborhood` times `Neighborhoods` gives back the number of the
      cluster's records. */
  lemma RowAverage(ls: seq<Labels.Labelled>, k: int)
    requires k in Labels.LabelsOf(ls)
    ensures Seqs.IsMean(RowOf(ls, k).avgCalls, |ClusterCalls(ls, k)|, RowOf(ls, k).members)
  {
    var cs := ClusterCalls(ls, k);
    ClusterNonEmpty(ls, k);
    var counts := AreaCounts(cs);
    var r := RowOf(ls, k);
    assert r == Row(k, |counts|, Seqs.Mean(counts), TopTypes.TopOf(Calls.Kinds(cs)));
    Seqs.MeanTimesCount(counts, |cs|);
  }

  /** The summary frame: one line per distinct label of the frame, labels ascending
      (`groupby` sorts its keys, and the stand-alone script iterates over `sorted`
      labels). */
  function Summary(ls: seq<Labels.Labelled>): (r: seq<Row>)
    ensures forall i :: 0 <= i < |r| ==> r[i].cluster in Labels.LabelsOf(ls) && r[i] == RowOf(ls, r[i].cluster)
    ensures forall i, j :: 0 <= i < j < |r| ==> r[i].cluster < r[j].cluster
    ensures forall k :: k in Labels.LabelsOf(ls) ==> k in Clusters(r)
  {
    var ks := Ordering.DistinctLabels(Labels.LabelsOf(ls));
    var r := seq(|ks|, i requires 0 <= i < |ks| => RowOf(ls, ks[i]));
    assert Clusters(r) == ks;
    r
  }

  function Clusters(rows: seq<Row>): (r: seq<int>)
    ensures |r| == |rows|
    ensures forall i :: 0 <= i < |rows| ==> r[i] == rows[i].cluster
  {
    seq(|rows|, i requires 0 <= i < |rows| => rows[i].cluster)
  }

  function MemberCounts(rows: seq<Row>): (r: seq<nat>)
    ensures |r| == |rows|
    ensures forall i :: 0 <= i < |rows| ==> r[i] == rows[i].members
  {
    seq(|rows|, i requires 0 <= i < |rows| => rows[i].members)
  }

  /** Every neighbourhood carries a single label throughout the frame, as it does
      after a join with a label table. */
  predicate Consistent(ls: seq<Labels.Labelled>) {
    forall i, j :: 0 <= i < |ls| && 0 <= j < |ls| && ls[i].call.area == ls[j].call.area ==>
      ls[i].cluster == ls[j].cluster
  }

  lemma JoinConsistent(cs: seq<Calls.Call>, table: seq<Labels.Assignment>)
    ensures Consistent(Labels.Join(cs, table))
  {
  }

  /** The neighbourhoods the frame places in any of the clusters `ks`. */
  ghost function AreasIn(ls: seq<Labels.Labelled>, ks: seq<int>): set<string> {
    set j | 0 <= j < |ls| && ls[j].cluster in ks :: ls[j].call.area
  }

  /** With consistent labels the clusters split the neighbourhoods: the member counts
      of distinct clusters add up to the number of neighbourhoods in their union. */
  lemma {:induction false} PartitionSum(ls: seq<Labels.Labelled>, ks: seq<int>)
    requires Consistent(ls) && Seqs.Distinct(ks)
    ensures Seqs.Sum(seq(|ks|, i requires 0 <= i < |ks| => |AreaSet(ls, ks[i])|)) == |AreasIn(ls, ks)|
  {
    var sizes := seq(|ks|, i requires 0 <= i < |ks| => |AreaSet(ls, ks[i])|);
    if |ks| == 0 {
      assert AreasIn(ls, ks) == {};
    } else {
      var rest := ks[1..];
      PartitionSum(ls, rest);
      assert sizes[1..] == seq(|rest|, i requires 0 <= i < |rest| => |AreaSet(ls, rest[i])|);
      var a, b := AreaSet(ls, ks[0]), AreasIn(ls, rest);
      assert AreasIn(ls, ks) == a + b by {
        forall j | 0 <= j < |ls| && ls[j].cluster in ks ensures ls[j].call.area in a + b {
          if ls[j].cluster != ks[0] {
            assert ls[j].cluster in rest;
          }
        }
      }
      forall j, j' | 0 <= j < |ls| && 0 <= j' < |ls| && ls[j].cluster == ks[0] && ls[j'].cluster in rest
        ensures ls[j].call.area != ls[j'].call.area
      {
        var q :| 0 <= q < |rest| && rest[q] == ls[j'].cluster;
        assert ks[q + 1] != ks[0];
      }
      assert a * b == {};
    }
  }

  /** Every neighbourhood of the frame lies in one of its clusters. */
  lemma AllAreasCovered(ls: seq<Labels.Labelled>)
    ensures AreasIn(ls, Ordering.DistinctLabels(Labels.LabelsOf(ls))) == set x | x in Calls.Areas(Labels.CallsOf(ls))
  {
    var ks := Ordering.DistinctLabels(Labels.LabelsOf(ls));
    var all := Calls.Areas(Labels.CallsOf(ls));
    forall x | x in all ensures x in AreasIn(ls, ks) {
      var j :| 0 <= j < |all| && all[j] == x;
      assert ls[j].cluster == Labels.LabelsOf(ls)[j];
      assert ls[j].cluster in ks;
    }
    forall x | x in AreasIn(ls, ks) ensures x in all {
      var j :| 0 <= j < |ls| && ls[j].cluster in ks && ls[j].call.area == x;
      assert all[j] == x;
    }
  }

  /** `Neighborhoods` over the summary adds up to the number of distinct
      neighbourhoods of the frame. */
  lemma MembersAddUp(ls: seq<Labels.Labelled>)
    requires Consistent(ls)
    ensures Seqs.Sum(MemberCounts(Summary(ls))) == NUnique(Calls.Areas(Labels.CallsOf(ls)))
  {
    var ks := Ordering.DistinctLabels(Labels.LabelsOf(ls));
    var r := Summary(ls);
    assert MemberCounts(r) == seq(|ks|, i requires 0 <= i < |ks| => |AreaSet(ls, ks[i])|) by {
      assert r == seq(|ks|, i requires 0 <= i < |ks| => RowOf(ls, ks[i]));
    }
    assert Seqs.Distinct(ks);
    PartitionSum(ls, ks);
    AllAreasCovered(ls);
  }
}
