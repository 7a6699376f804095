/** The outlier report of the density-based clustering: the neighbourhoods labelled
    as noise (-1), each with its number of calls and its top call types. */
module Outliers {
  import opened Wrappers
  import Seqs
  import Ordering
  import Calls
  import Labels
  import TopTypes

  /** The label the density-based clustering gives to points in no cluster. */
  const Noise: int := -1

  /** The names labelled as noise, in table order (`unique()` only drops repeats,
      which membership tests do not see). */
  function NoiseNames(table: seq<Labels.Assignment>): (r: seq<string>)
    ensures forall name :: name in r <==> exists j :: 0 <= j < |table| && table[j] == Labels.Assignment(name, Noise)
  {
    if |table| == 0 then []
    else
      var rest := NoiseNames(table[1..]);
      assert forall name :: (exists j :: 0 <= j < |table| - 1 && table[1..][j] == Labels.Assignment(name, Noise)) ==>
        exists j :: 0 <= j < |table| && table[j] == Labels.Assignment(name, Noise);
      (if table[0].cluster == Noise then [table[0].area] else []) + rest
  }

  predicate InNames(names: seq<string>, c: Calls.Call) {
    c.area in names
  }

  /** `outlier_df`: the records whose neighbourhood is a noise name, in record order,
      each as often as it occurs among the records. */
  function OutlierCalls(cs: seq<Calls.Call>, names: seq<string>): (r: seq<Calls.Call>)
    ensures |r| <= |cs|
    ensures forall i :: 0 <= i < |r| ==> r[i] in cs && r[i].area in names
    ensures forall i :: 0 <= i < |cs| && cs[i].area in names ==> cs[i] in r
    ensures forall c :: multiset(r)[c] == if c.area in names then multiset(cs)[c] else 0
  {
    var p := (c: Calls.Call) => InNames(names, c);
    forall c ensures multiset(Seqs.Filter(p, cs))[c] == if c.area in names then multiset(cs)[c] else 0 {
      Seqs.FilterMultiset(p, cs, c);
    }
    Seqs.Filter(p, cs)
  }

  /** When the label file has one row per neighbourhood, as the file written from a
      matrix index does, every outlier record's neighbourhood is labelled noise, and
      no neighbourhood with another label contributes a record. */
  lemma OutliersAreNoise(cs: seq<Calls.Call>, table: seq<Labels.Assignment>)
    requires Seqs.Distinct(Labels.AreasOf(table))
    ensures forall i :: 0 <= i < |OutlierCalls(cs, NoiseNames(table))| ==>
              Labels.LabelOf(table, OutlierCalls(cs, NoiseNames(table))[i].area) == Some(Noise)
  {
    var od := OutlierCalls(cs, NoiseNames(table));
    forall i | 0 <= i < |od| ensures Labels.LabelOf(table, od[i].area) == Some(Noise) {
      var name := od[i].area;
      var j :| 0 <= j < |table| && table[j] == Labels.Assignment(name, Noise);
      Labels.LabelOfDistinct(table, j);
    }
  }

  /** A filtered record is an outlier record exactly when the label file lists its
      neighbourhood with the noise label. */
  lemma OutlierMembership(cs: seq<Calls.Call>, table: seq<Labels.Assignment>)
    ensures forall i :: 0 <= i < |cs| ==>
      (cs[i] in OutlierCalls(cs, NoiseNames(table)) <==>
       exists j :: 0 <= j < |table| && table[j] == Labels.Assignment(cs[i].area, Noise))
  {
    var od := OutlierCalls(cs, NoiseNames(table));
    forall i | 0 <= i < |cs| && cs[i] in od
      ensures exists j :: 0 <= j < |table| && table[j] == Labels.Assignment(cs[i].area, Noise)
    {
      var k :| 0 <= k < |od| && od[k] == cs[i];
      assert od[k].area in NoiseNames(table);
    }
  }

  /** One report line: `Neighborhood`, `Total Calls` and `Top Call Types` (as a list). */
  datatype OutlierRow = OutlierRow(area: string, total: nat, topTypes: seq<string>)

  function Totals(rows: seq<OutlierRow>): (r: seq<nat>)
    ensures |r| == |rows|
    ensures forall i :: 0 <= i < |rows| ==> r[i] == rows[i].total
  {
    seq(|rows|, i requires 0 <= i < |rows| => rows[i].total)
  }

  /** The line of neighbourhood `name`. */
  function RowOf(od: seq<Calls.Call>, name: string): (r: OutlierRow)
    requires name in Calls.Areas(od)
    ensures r.area == name && r.total == Seqs.Occ(Calls.Areas(od), name) > 0
    ensures 0 < |r.topTypes| <= TopTypes.TopCount
    ensures r.topTypes == TopTypes.TopOf(Calls.Kinds(Calls.InArea(od, name)))
  {
    Calls.InAreaCount(od, name);
    OutlierRow(name, Seqs.Occ(Calls.Areas(od), name), TopTypes.TopOf(Calls.Kinds(Calls.InArea(od, name))))
  }

  function RowAreas(rows: seq<OutlierRow>): (r: seq<string>)
    ensures |r| == |rows|
    ensures forall i :: 0 <= i < |rows| ==> r[i] == rows[i].area
  {
    seq(|rows|, i requires 0 <= i < |rows| => rows[i].area)
  }

  /** The report: one line per neighbourhood with at least one outlier record, and
      none for any other name. */
  function Report(od: seq<Calls.Call>): (r: seq<OutlierRow>)
    ensures forall i :: 0 <= i < |r| ==> r[i].area in Calls.Areas(od) && r[i] == RowOf(od, r[i].area)
    ensures forall name :: name in Calls.Areas(od) ==> name in RowAreas(r)
    ensures Seqs.Distinct(RowAreas(r))
  {
    var names := Ordering.DistinctNames(Calls.Areas(od));
    Ordering.NamesAscendingDistinct(names);
    var r := seq(|names|, i requires 0 <= i < |names| => RowOf(od, names[i]));
    assert RowAreas(r) == names;
    r
  }

  /** The `Total Calls` column adds up to the number of outlier records. */
  lemma ReportTotal(od: seq<Calls.Call>)
    ensures Seqs.Sum(Totals(Report(od))) == |od|
  {
    var names := Ordering.DistinctNames(Calls.Areas(od));
    Ordering.NamesAscendingDistinct(names);
    var r := Report(od);
    assert Totals(r) == Seqs.CountsAlong(Calls.Areas(od), names) by {
      assert r == seq(|names|, i requires 0 <= i < |names| => RowOf(od, names[i]));
    }
    Seqs.CountsAlongTotal(Calls.Areas(od), names);
  }

  /** The whole script: clean and filter the records, clean the label file's names,
      keep the records of noise neighbourhoods and report on them. */
  function OutlierSummary(raw: seq<Calls.Call>, labelFile: seq<Labels.Assignment>): (r: seq<OutlierRow>)
    ensures forall i :: 0 <= i < |r| ==> 0 < r[i].total && 0 < |r[i].topTypes| <= TopTypes.TopCount
  {
    Report(OutlierCalls(Calls.ValidCalls(raw), NoiseNames(Labels.CleanTable(labelFile))))
  }
}
