/** The non-rendering half of the map scripts: the call volume of each polygon, the
    volume-cluster fallback, the per-neighbourhood top types, the cluster colours, the
    priority weight and the heat points. Geometry stays opaque: a polygon is its
    normalised name and a centroid of any type `P`. */
module MapPrep {
  import opened Wrappers
  import Text
  import Seqs
  import Calls
  import TopTypes

  /** One row of the neighbourhood polygon file. */
  datatype Polygon<P> = Polygon(name: string, centroid: P)

  /** `gdf['Neighborhood'].str.lower().str.strip()` */
  function CleanPolygons<P>(ps: seq<Polygon<P>>): (r: seq<Polygon<P>>)
    ensures |r| == |ps|
    ensures forall i :: 0 <= i < |ps| ==> r[i] == Polygon(Text.Normalize(ps[i].name), ps[i].centroid)
  {
    seq(|ps|, i requires 0 <= i < |ps| => Polygon(Text.Normalize(ps[i].name), ps[i].centroid))
  }

  function Names<P>(ps: seq<Polygon<P>>): (r: seq<string>)
    ensures |r| == |ps|
    ensures forall i :: 0 <= i < |ps| ==> r[i] == ps[i].name
  {
    seq(|ps|, i requires 0 <= i < |ps| => ps[i].name)
  }

  // ---------------------------------------------------------------------------
  // Call volume

  /** The left merge of the polygons with `value_counts()` of the records'
      neighbourhoods, followed by `fillna(0)`: each polygon's count, 0 where the
      value counts have no entry for its name. */
  function CallVolumes<P>(cs: seq<Calls.Call>, ps: seq<Polygon<P>>): (r: seq<nat>)
    ensures |r| == |ps|
  {
    var counts := TopTypes.ValueCounts(Calls.Areas(cs));
    seq(|ps|, i requires 0 <= i < |ps| => TopTypes.CountOf(counts, ps[i].name))
  }

  /** Looking a name up in `value_counts()` finds its number of occurrences, and 0
      for a name that does not occur. */
  lemma ValueCountsLookup(xs: seq<string>, name: string)
    ensures TopTypes.CountOf(TopTypes.ValueCounts(xs), name) == Seqs.Occ(xs, name)
  {
    var ts := TopTypes.ValueCounts(xs);
    if Seqs.Occ(xs, name) > 0 {
      var q :| 0 <= q < |ts| && TopTypes.Keys(ts)[q] == name;
      TopTypes.CountOfEntry(ts, q);
    } else {
      forall i | 0 <= i < |ts| ensures TopTypes.Keys(ts)[i] != name {
        assert ts[i].count > 0;
      }
    }
  }

  /** A polygon's `call_count` is its number of records, 0 for a polygon without
      calls. */
  lemma CallVolumesCount<P>(cs: seq<Calls.Call>, ps: seq<Polygon<P>>)
    ensures forall i :: 0 <= i < |ps| ==> CallVolumes(cs, ps)[i] == Seqs.Occ(Calls.Areas(cs), ps[i].name)
    ensures forall i :: 0 <= i < |ps| && ps[i].name !in Calls.Areas(cs) ==> CallVolumes(cs, ps)[i] == 0
  {
    forall i | 0 <= i < |ps| ensures CallVolumes(cs, ps)[i] == Seqs.Occ(Calls.Areas(cs), ps[i].name) {
      ValueCountsLookup(Calls.Areas(cs), ps[i].name);
    }
  }

  function Counts(ts: seq<TopTypes.Tally>): (r: seq<nat>)
    ensures |r| == |ts|
    ensures forall i :: 0 <= i < |ts| ==> r[i] == ts[i].count
  {
    seq(|ts|, i requires 0 <= i < |ts| => ts[i].count)
  }

  /** The `call_count` column before the merge adds up to the number of records. */
  lemma ValueCountsTotal(xs: seq<string>)
    ensures Seqs.Sum(Counts(TopTypes.ValueCounts(xs))) == |xs|
  {
    var ts := TopTypes.ValueCounts(xs);
    var keys := TopTypes.Keys(ts);
    assert Counts(ts) == Seqs.CountsAlong(xs, keys);
    forall i | 0 <= i < |xs| ensures xs[i] in keys {
      assert Seqs.Occ(xs, xs[i]) > 0;
    }
    Seqs.CountsAlongTotal(xs, keys);
  }

  /** When the polygons carry distinct names and every record's neighbourhood has a
      polygon, the polygon volumes add up to the number of records. */
  lemma CallVolumesTotal<P>(cs: seq<Calls.Call>, ps: seq<Polygon<P>>)
    requires Seqs.Distinct(Names(ps))
    requires forall i :: 0 <= i < |cs| ==> cs[i].area in Names(ps)
    ensures Seqs.Sum(CallVolumes(cs, ps)) == |cs|
  {
    CallVolumesCount(cs, ps);
    assert CallVolumes(cs, ps) == Seqs.CountsAlong(Calls.Areas(cs), Names(ps));
    Seqs.CountsAlongTotal(Calls.Areas(cs), Names(ps));
  }

  // ---------------------------------------------------------------------------
  // Volume clusters

  /** `nunique() > 1`: the column holds two different values. */
  predicate Varies(xs: seq<nat>) {
    |Values(xs)| > 1
  }

  /** The distinct values of a column. */
  function Values(xs: seq<nat>): set<nat> {
    set x | x in xs
  }

  lemma {:induction false} VariesIff(xs: seq<nat>)
    ensures Varies(xs) <==> exists i, j :: 0 <= i < |xs| && 0 <= j < |xs| && xs[i] != xs[j]
  {
    var s := Values(xs);
    if exists i, j :: 0 <= i < |xs| && 0 <= j < |xs| && xs[i] != xs[j] {
      var i, j :| 0 <= i < |xs| && 0 <= j < |xs| && xs[i] != xs[j];
      var pair := {xs[i], xs[j]};
      assert pair <= s;
      assert |pair| == 2;
      SubsetCard(pair, s);
      assert |s| > 1;
    } else if |xs| > 0 {
      assert s == {xs[0]};
    } else {
      assert s == {};
    }
  }

  lemma SubsetCard(a: set<nat>, b: set<nat>)
    requires a <= b
    ensures |a| <= |b|
  {
    assert b == a + (b - a);
  }

  /** The `cluster` column: the quantile bins (computed outside the model) when the
      volumes vary, and 0 for every polygon when they are all equal. */
  function VolumeClusters(volumes: seq<nat>, bins: seq<int>): (r: seq<int>)
    requires |bins| == |volumes|
    ensures |r| == |volumes|
    ensures Varies(volumes) ==> r == bins
    ensures !Varies(volumes) ==> forall i :: 0 <= i < |r| ==> r[i] == 0
  {
    if Varies(volumes) then bins else seq(|volumes|, _ => 0)
  }

  /** Equal volumes everywhere send every polygon to cluster 0. */
  lemma ConstantVolumes(volumes: seq<nat>, bins: seq<int>, v: nat)
    requires |bins| == |volumes|
    requires forall i :: 0 <= i < |volumes| ==> volumes[i] == v
    ensures forall i :: 0 <= i < |volumes| ==> VolumeClusters(volumes, bins)[i] == 0
  {
    VariesIff(volumes);
  }

  // ---------------------------------------------------------------------------
  // Top call types per neighbourhood

  /** `gdf_web['Neighborhood'].map(call_type_map)`: the top types of a polygon's
      records, `None` (NaN) for a polygon without records. */
  function TopTypesOf(cs: seq<Calls.Call>, name: string): (r: Option<seq<string>>)
    ensures r.None? <==> name !in Calls.Areas(cs)
    ensures r.Some? ==> r.value == TopTypes.TopOf(Calls.Kinds(Calls.InArea(cs, name)))
    ensures r.Some? ==> 0 < |r.value| <= TopTypes.TopCount
  {
    Calls.InAreaCount(cs, name);
    if name in Calls.Areas(cs) then Some(TopTypes.TopOf(Calls.Kinds(Calls.InArea(cs, name))))
    else None
  }

  /** The call-type-cluster map draws its top types from every record, names and
      types normalised but the placeholder names not dropped. For any polygon with a
      real name that is the same as drawing them from the filtered records. */
  lemma UnfilteredTopTypes(raw: seq<Calls.Call>, name: string)
    requires Calls.IsValidArea(name)
    ensures TopTypesOf(Calls.CleanKinds(Calls.CleanAreas(raw)), name) ==
            TopTypesOf(Calls.CleanKinds(Calls.ValidCalls(raw)), name)
  {
    var all := Calls.CleanKinds(Calls.CleanAreas(raw));
    var valid := Calls.CleanKinds(Calls.ValidCalls(raw));
    Calls.CleanKindsFilter(Calls.CleanAreas(raw));
    Calls.InAreaOfValid(all, name);
    Calls.InAreaCount(all, name);
    Calls.InAreaCount(valid, name);
  }

  // ---------------------------------------------------------------------------
  // Colours

  /** The fixed palette of the volume-cluster layer. */
  const ClusterColours: seq<string> := ["#1b9e77", "#d95f02", "#7570b3", "#e7298a"]

  /** The fallback colour of the cluster overlays. */
  const Grey: string := "#cccccc"

  /** `int(cluster) % 4`. Python's `%` with a positive divisor takes the sign of the
      divisor, as Dafny's does, so the index is valid for any integer label. */
  function ColourIndex(cluster: int): (r: nat)
    ensures r < |ClusterColours|
    ensures exists q :: cluster == 4 * q + r
  {
    assert cluster == 4 * (cluster / 4) + cluster % 4;
    cluster % 4
  }

  /** Labels that differ by a multiple of four share a colour. */
  lemma ColourIndexPeriodic(cluster: int, q: int)
    ensures ColourIndex(cluster + 4 * q) == ColourIndex(cluster)
  {
    var a, b := ColourIndex(cluster + 4 * q), ColourIndex(cluster);
    var qa :| cluster + 4 * q == 4 * qa + a;
    var qb :| cluster == 4 * qb + b;
    assert 4 * (qa - qb - q) == b - a;
  }

  /** `color_dict.get(cluster, "#cccccc")` with `color_dict` = `{i: colours[i]}`, and
      grey for a polygon the label file does not cover. */
  function LabelColour(palette: seq<string>, cluster: Option<int>): (r: string)
    ensures cluster.Some? && 0 <= cluster.value < |palette| ==> r == palette[cluster.value]
    ensures cluster.None? || cluster.value < 0 || cluster.value >= |palette| ==> r == Grey
    ensures r in palette || r == Grey
  {
    match cluster
    case Some(k) => if 0 <= k < |palette| then palette[k] else Grey
    case None => Grey
  }

  // ---------------------------------------------------------------------------
  // Priority weight

  /** `compute_weight`: `max(1, 5 - p)` for a priority `int()` parses, 1 otherwise. */
  function ComputeWeight(priority: Option<int>): (w: int)
    ensures w >= 1
    ensures priority.None? ==> w == 1
    ensures priority.Some? && priority.value <= 4 ==> w == 5 - priority.value
    ensures priority.Some? && priority.value >= 4 ==> w == 1
  {
    match priority
    case None => 1
    case Some(p) => if 5 - p > 1 then 5 - p else 1
  }

  /** A more urgent (smaller) priority never weighs less. */
  lemma WeightMonotone(p: int, q: int)
    requires p <= q
    ensures ComputeWeight(Some(p)) >= ComputeWeight(Some(q))
  {
  }

  // ---------------------------------------------------------------------------
  // Heat points

  /** `dict(zip(names, centroids))`: for a repeated name the last polygon wins. */
  function Centroid<P>(ps: seq<Polygon<P>>, name: string): (r: Option<P>)
    ensures r.None? <==> name !in Names(ps)
    ensures r.Some? ==> 0 <= LastAt(ps, name) && r.value == ps[LastAt(ps, name)].centroid
  {
    var i := LastAt(ps, name);
    if i < 0 then None else Some(ps[i].centroid)
  }

  /** The last position of `name` among the polygons, -1 when no polygon has it. */
  function LastAt<P>(ps: seq<Polygon<P>>, name: string): (i: int)
    ensures -1 <= i < |ps|
    ensures i < 0 <==> name !in Names(ps)
    ensures 0 <= i ==> ps[i].name == name
    ensures forall j :: i < j < |ps| ==> ps[j].name != name
  {
    if |ps| == 0 then -1
    else if ps[|ps| - 1].name == name then |ps| - 1
    else
      var init := ps[..|ps| - 1];
      assert Names(ps) == Names(init) + [ps[|ps| - 1].name];
      LastAt(init, name)
  }

  /** `name in centroid_map` for a record's neighbourhood. */
  predicate HasPolygon<P>(ps: seq<Polygon<P>>, c: Calls.Call) {
    c.area in Names(ps)
  }

  /** A weighted heat point: a centroid and the weight of the record it stands for. */
  datatype Weighted<P> = Weighted(at: P, weight: int)

  /** The density heat layer: walking the records in order, one centroid for each
      record whose neighbourhood has a polygon. */
  function HeatPoints<P>(cs: seq<Calls.Call>, ps: seq<Polygon<P>>): (r: seq<P>)
    ensures |r| <= |cs|
  {
    if |cs| == 0 then []
    else
      match Centroid(ps, cs[0].area)
      case None => HeatPoints(cs[1..], ps)
      case Some(p) => [p] + HeatPoints(cs[1..], ps)
  }

  /** The priority heat layer: as `HeatPoints`, each point carrying its record's
      weight. */
  function WeightedHeatPoints<P>(cs: seq<Calls.Call>, ps: seq<Polygon<P>>): (r: seq<Weighted<P>>)
    ensures |r| <= |cs|
    ensures forall i :: 0 <= i < |r| ==> r[i].weight >= 1
  {
    if |cs| == 0 then []
    else
      match Centroid(ps, cs[0].area)
      case None => WeightedHeatPoints(cs[1..], ps)
      case Some(p) => [Weighted(p, ComputeWeight(cs[0].priority))] + WeightedHeatPoints(cs[1..], ps)
  }

  /** The records that get a heat point. */
  function Located<P>(cs: seq<Calls.Call>, ps: seq<Polygon<P>>): (r: seq<Calls.Call>)
    ensures forall i :: 0 <= i < |r| ==> r[i].area in Names(ps)
  {
    Seqs.Filter((c: Calls.Call) => HasPolygon(ps, c), cs)
  }

  /** Reference definition: the centroid of each record, for records that all have
      a polygon. */
  function CentroidsOf<P>(cs: seq<Calls.Call>, ps: seq<Polygon<P>>): (r: seq<P>)
    requires forall i :: 0 <= i < |cs| ==> cs[i].area in Names(ps)
    ensures |r| == |cs|
  {
    seq(|cs|, i requires 0 <= i < |cs| => Centroid(ps, cs[i].area).value)
  }

  /** Reference definition: centroid and weight of each record. */
  function WeightedOf<P>(cs: seq<Calls.Call>, ps: seq<Polygon<P>>): (r: seq<Weighted<P>>)
    requires forall i :: 0 <= i < |cs| ==> cs[i].area in Names(ps)
    ensures |r| == |cs|
  {
    seq(|cs|, i requires 0 <= i < |cs| => Weighted(Centroid(ps, cs[i].area).value, ComputeWeight(cs[i].priority)))
  }

  lemma LocatedCons<P>(cs: seq<Calls.Call>, ps: seq<Polygon<P>>)
    requires |cs| > 0
    ensures Located(cs, ps) == (if HasPolygon(ps, cs[0]) then [cs[0]] else []) + Located(cs[1..], ps)
  {
  }

  lemma CentroidsOfCons<P>(c: Calls.Call, rest: seq<Calls.Call>, ps: seq<Polygon<P>>)
    requires c.area in Names(ps) && forall i :: 0 <= i < |rest| ==> rest[i].area in Names(ps)
    ensures CentroidsOf([c] + rest, ps) == [Centroid(ps, c.area).value] + CentroidsOf(rest, ps)
  {
    var all := [c] + rest;
    var l, r := CentroidsOf(all, ps), [Centroid(ps, c.area).value] + CentroidsOf(rest, ps);
    forall i | 0 <= i < |l| ensures l[i] == r[i] {
      if i > 0 {
        assert all[i] == rest[i - 1];
      }
    }
  }

  lemma WeightedOfCons<P>(c: Calls.Call, rest: seq<Calls.Call>, ps: seq<Polygon<P>>)
    requires c.area in Names(ps) && forall i :: 0 <= i < |rest| ==> rest[i].area in Names(ps)
    ensures WeightedOf([c] + rest, ps) ==
            [Weighted(Centroid(ps, c.area).value, ComputeWeight(c.priority))] + WeightedOf(rest, ps)
  {
    var all := [c] + rest;
    var l, r := WeightedOf(all, ps), [Weighted(Centroid(ps, c.area).value, ComputeWeight(c.priority))] + WeightedOf(rest, ps);
    forall i | 0 <= i < |l| ensures l[i] == r[i] {
      if i > 0 {
        assert all[i] == rest[i - 1];
      }
    }
  }

  /** Exactly one heat point per record whose neighbourhood has a polygon, in record
      order, at that polygon's centroid; every other record is skipped. */
  lemma {:induction false} HeatPointsLocated<P>(cs: seq<Calls.Call>, ps: seq<Polygon<P>>)
    ensures HeatPoints(cs, ps) == CentroidsOf(Located(cs, ps), ps)
  {
    if |cs| > 0 {
      HeatPointsLocated(cs[1..], ps);
      LocatedCons(cs, ps);
      if HasPolygon(ps, cs[0]) {
        CentroidsOfCons(cs[0], Located(cs[1..], ps), ps);
      }
    }
  }

  /** Exactly one weighted point per such record, carrying that record's weight. */
  lemma {:induction false} WeightedHeatPointsLocated<P>(cs: seq<Calls.Call>, ps: seq<Polygon<P>>)
    ensures WeightedHeatPoints(cs, ps) == WeightedOf(Located(cs, ps), ps)
  {
    if |cs| > 0 {
      WeightedHeatPointsLocated(cs[1..], ps);
      LocatedCons(cs, ps);
      if HasPolygon(ps, cs[0]) {
        WeightedOfCons(cs[0], Located(cs[1..], ps), ps);
      }
    }
  }

  function Positions<P>(ws: seq<Weighted<P>>): (r: seq<P>)
    ensures |r| == |ws|
    ensures forall i :: 0 <= i < |ws| ==> r[i] == ws[i].at
  {
    seq(|ws|, i requires 0 <= i < |ws| => ws[i].at)
  }

  lemma PositionsCons<P>(w: Weighted<P>, rest: seq<Weighted<P>>)
    ensures Positions([w] + rest) == [w.at] + Positions(rest)
  {
  }

  /** The two heat layers place their points at the same centroids. */
  lemma {:induction false} SameLocations<P>(cs: seq<Calls.Call>, ps: seq<Polygon<P>>)
    ensures Positions(WeightedHeatPoints(cs, ps)) == HeatPoints(cs, ps)
  {
    if |cs| > 0 {
      SameLocations(cs[1..], ps);
      match Centroid(ps, cs[0].area)
      case None =>
      case Some(p) =>
        PositionsCons(Weighted(p, ComputeWeight(cs[0].priority)), WeightedHeatPoints(cs[1..], ps));
    }
  }

  /** The priority layer of the PCA overlay: the records' names normalised once more,
      the records narrowed to the names in the centroid map, and the centroid looked
      up directly, which cannot fail after that narrowing. */
  function PcaHeatPoints<P>(frame: seq<Calls.Call>, ps: seq<Polygon<P>>): (r: seq<Weighted<P>>)
    ensures |r| <= |frame|
  {
    var f := Located(Calls.CleanAreas(frame), ps);
    seq(|f|, i requires 0 <= i < |f| => Weighted(Centroid(ps, f[i].area).value, ComputeWeight(f[i].priority)))
  }

  /** On a frame whose names are already normalised, the PCA overlay's points are the
      weighted points of every record with a polygon: normalising again changes no
      name, and polygon membership is the only filter, so a record named "-" or
      "unknown" keeps its point when a polygon carries that name. */
  lemma PcaHeatPointsAgree<P>(raw: seq<Calls.Call>, ps: seq<Polygon<P>>)
    ensures PcaHeatPoints(Calls.CleanAreas(raw), ps) == WeightedHeatPoints(Calls.CleanAreas(raw), ps)
  {
    Calls.CleanAreasIdempotent(raw);
    WeightedHeatPointsLocated(Calls.CleanAreas(raw), ps);
  }
}
