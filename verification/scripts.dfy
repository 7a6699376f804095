/** The clustering and map scripts end to end, each as the composition of the pieces
    above. The clustering libraries, the quantile binning and the polygon geometry
    are inputs: a labelling is the label sequence the library returns for the matrix
    rows, a score list is one score per candidate count. */
module Scripts {
  import opened Wrappers
  import Text
  import Seqs
  import Ordering
  import Calls
  import CountMatrix
  import ModelOrder
  import Labels
  import ClusterSummary
  import DensitySummary
  import MapPrep
  import TopTypes

  // ---------------------------------------------------------------------------
  // The Gaussian-mixture scripts

  /** The count matrix both mixture scripts cluster: the crosstab of the filtered
      records with the all-zero columns dropped. A crosstab has no all-zero column,
      so the drop leaves it as it is. */
  function GmmMatrix(raw: seq<Calls.Call>): (m: CountMatrix.Matrix<nat>)
    ensures m == CountMatrix.Crosstab(Calls.ValidCalls(raw))
  {
    CountMatrix.CrosstabDropIsNoOp(Calls.ValidCalls(raw));
    CountMatrix.DropZeroColumns(CountMatrix.Crosstab(Calls.ValidCalls(raw)))
  }

  /** The label table of the matrix rows, the inner merge of the records with it and
      the per-cluster summary. `None` when the labelling does not have one label per
      matrix row (pandas refuses to build the table). */
  function LabelledSummary(cs: seq<Calls.Call>, m: CountMatrix.Matrix<nat>, labels: seq<int>): (r: Option<seq<ClusterSummary.Row>>)
    ensures r.Some? <==> |labels| == |m.rows|
  {
    match Labels.Table(m.rows, labels)
    case None => None
    case Some(table) => Some(ClusterSummary.Summary(Labels.Join(cs, table)))
  }

  /** `cluster_with_gmm.py`: one three-component mixture, its labels given. */
  function Gmm(raw: seq<Calls.Call>, labels: seq<int>): (r: Option<seq<ClusterSummary.Row>>)
    ensures r.Some? <==> |labels| == |GmmMatrix(raw).rows|
  {
    LabelledSummary(Calls.ValidCalls(raw), GmmMatrix(raw), labels)
  }

  /** The outcome of `cluster_with_gmm_bic.py`: the chosen component count and the
      summary of the chosen mixture's labelling. */
  datatype BicRun = BicRun(components: int, summary: Option<seq<ClusterSummary.Row>>)

  /** `cluster_with_gmm_bic.py`: one mixture per candidate count, each represented by
      the labels it predicts for the matrix rows, with its score; the first lowest
      score picks the mixture whose labels are summarised. */
  function GmmBic(raw: seq<Calls.Call>, scores: seq<real>, predictions: seq<seq<int>>): (r: BicRun)
    requires |scores| == |ModelOrder.Candidates| && |predictions| == |ModelOrder.Candidates|
    ensures 2 <= r.components <= 9
    ensures exists i :: 0 <= i < |scores| && r.components == ModelOrder.Candidates[i] &&
                        (forall j :: 0 <= j < |scores| ==> scores[i] <= scores[j]) &&
                        (forall j :: 0 <= j < i ==> scores[j] > scores[i]) &&
                        r.summary == Gmm(raw, predictions[i])
  {
    var s := ModelOrder.Select(scores, predictions);
    BicRun(s.components, Gmm(raw, s.model))
  }

  /** Every filtered record's neighbourhood is a matrix row, so once the rows carry
      their labels the inner merge keeps every filtered record. */
  lemma GmmJoinKeepsAll(raw: seq<Calls.Call>, labels: seq<int>)
    requires |labels| == |GmmMatrix(raw).rows|
    ensures Labels.CallsOf(Labels.Join(Calls.ValidCalls(raw), Labels.Table(GmmMatrix(raw).rows, labels).value))
            == Calls.ValidCalls(raw)
  {
    var cs := Calls.ValidCalls(raw);
    var rows := CountMatrix.Crosstab(cs).rows;
    var table := Labels.Table(rows, labels).value;
    Ordering.NamesAscendingDistinct(rows);
    forall i | 0 <= i < |cs| ensures Labels.LabelOf(table, cs[i].area).Some? {
      assert Calls.Areas(cs)[i] == cs[i].area;
      Labels.TableCovers(rows, labels, cs[i].area);
    }
    Labels.JoinKeepsAll(cs, table);
  }

  /** The number of distinct neighbourhoods of the filtered records is the number of
      matrix rows. */
  lemma MatrixRowsCount(cs: seq<Calls.Call>)
    ensures ClusterSummary.NUnique(Calls.Areas(cs)) == |CountMatrix.Crosstab(cs).rows|
  {
  }

  /** The `Neighborhoods` column of either mixture summary adds up to the number of
      matrix rows: every neighbourhood lands in exactly one cluster. */
  lemma GmmMembersAddUp(raw: seq<Calls.Call>, labels: seq<int>)
    requires |labels| == |GmmMatrix(raw).rows|
    ensures Seqs.Sum(ClusterSummary.MemberCounts(Gmm(raw, labels).value)) == |GmmMatrix(raw).rows|
  {
    var cs := Calls.ValidCalls(raw);
    var table := Labels.Table(GmmMatrix(raw).rows, labels).value;
    var ls := Labels.Join(cs, table);
    assert Gmm(raw, labels).value == ClusterSummary.Summary(ls);
    ClusterSummary.JoinConsistent(cs, table);
    ClusterSummary.MembersAddUp(ls);
    GmmJoinKeepsAll(raw, labels);
    MatrixRowsCount(cs);
  }

  // ---------------------------------------------------------------------------
  // The density-based script

  /** `cluster_call_types_hdbscan.py`: the dense count matrix of the filtered
      records, its labelling given, summarised label by label. `None` when the
      labelling does not have one label per row. */
  function Hdbscan(raw: seq<Calls.Call>, labels: seq<int>): (r: Option<seq<ClusterSummary.Row>>)
    ensures r.Some? <==> |labels| == |CountMatrix.Crosstab(Calls.ValidCalls(raw)).rows|
  {
    var m := CountMatrix.Crosstab(Calls.ValidCalls(raw));
    Ordering.NamesAscendingDistinct(m.cols);
    if |labels| != |m.rows| then None else Some(DensitySummary.Summary(m, labels))
  }

  /** The `Neighborhoods` column of the density-based summary adds up to the number of
      matrix rows, noise included. */
  lemma HdbscanMembersAddUp(raw: seq<Calls.Call>, labels: seq<int>)
    requires |labels| == |CountMatrix.Crosstab(Calls.ValidCalls(raw)).rows|
    ensures Seqs.Sum(ClusterSummary.MemberCounts(Hdbscan(raw, labels).value)) ==
            |CountMatrix.Crosstab(Calls.ValidCalls(raw)).rows|
  {
    var m := CountMatrix.Crosstab(Calls.ValidCalls(raw));
    Ordering.NamesAscendingDistinct(m.cols);
    DensitySummary.MembersAddUp(m, labels);
  }

  // ---------------------------------------------------------------------------
  // The stand-alone summary script

  /** The frame of `summarize_call_type_clusters.py`: names and types normalised, no
      placeholder filter, the label file's names normalised, the left merge followed
      by dropping the records left without a label. */
  function LabelledCalls(raw: seq<Calls.Call>, labelFile: seq<Labels.Assignment>): (r: seq<Labels.Labelled>)
    ensures |r| <= |raw|
  {
    Labels.Join(Calls.CleanKinds(Calls.CleanAreas(raw)), Labels.CleanTable(labelFile))
  }

  /** `summarize_call_type_clusters.py`. */
  function SummarizeClusters(raw: seq<Calls.Call>, labelFile: seq<Labels.Assignment>): (r: seq<ClusterSummary.Row>)
    ensures forall i :: 0 <= i < |r| ==> r[i].members >= 1
    ensures forall i, j :: 0 <= i < j < |r| ==> r[i].cluster < r[j].cluster
  {
    ClusterSummary.Summary(LabelledCalls(raw, labelFile))
  }

  /** A record survives exactly when its normalised neighbourhood appears in the
      label file: membership in the file is the only filter. */
  lemma SummarizeKeeps(raw: seq<Calls.Call>, labelFile: seq<Labels.Assignment>)
    ensures Labels.CallsOf(LabelledCalls(raw, labelFile)) ==
            Seqs.Filter((c: Calls.Call) => Labels.HasLabel(Labels.CleanTable(labelFile), c),
                        Calls.CleanKinds(Calls.CleanAreas(raw)))
  {
    Labels.JoinCalls(Calls.CleanKinds(Calls.CleanAreas(raw)), Labels.CleanTable(labelFile));
  }

  // ---------------------------------------------------------------------------
  // The agglomerative script

  /** The frame of `cluster_with_pca_agglomerative.py`: names and types normalised,
      then the placeholder names dropped. */
  function PcaFrame(raw: seq<Calls.Call>): (r: seq<Calls.Call>)
    ensures forall i :: 0 <= i < |r| ==> Calls.IsValidArea(r[i].area)
  {
    Seqs.Filter(Calls.HasValidArea, Calls.CleanKinds(Calls.CleanAreas(raw)))
  }

  predicate NormalKeys(c: Calls.Call) {
    Text.IsNormal(c.area) && Text.IsNormal(c.kind)
  }

  /** Every record of the frame carries a normalised name and type. */
  lemma PcaFrameNormal(raw: seq<Calls.Call>)
    ensures forall i :: 0 <= i < |PcaFrame(raw)| ==> NormalKeys(PcaFrame(raw)[i])
  {
    var both := Calls.CleanKinds(Calls.CleanAreas(raw));
    forall j | 0 <= j < |both| ensures NormalKeys(both[j]) {
      Text.NormalizeShape(raw[j].area);
      Text.NormalizeShape(raw[j].kind);
    }
    Seqs.FilterAll(Calls.HasValidArea, NormalKeys, both);
  }

  /** Case and padding variants merge: every row and column key of the matrix is a
      normalised text. */
  lemma PcaKeysNormal(raw: seq<Calls.Call>)
    ensures forall n :: n in CountMatrix.Crosstab(PcaFrame(raw)).rows ==> Text.IsNormal(n)
    ensures forall t :: t in CountMatrix.Crosstab(PcaFrame(raw)).cols ==> Text.IsNormal(t)
  {
    var cs := PcaFrame(raw);
    PcaFrameNormal(raw);
    forall n | n in CountMatrix.Crosstab(cs).rows ensures Text.IsNormal(n) {
      var i :| 0 <= i < |cs| && Calls.Areas(cs)[i] == n;
      assert NormalKeys(cs[i]);
    }
    forall t | t in CountMatrix.Crosstab(cs).cols ensures Text.IsNormal(t) {
      var i :| 0 <= i < |cs| && Calls.Kinds(cs)[i] == t;
      assert NormalKeys(cs[i]);
    }
  }

  /** The `pca_cluster` column: the agglomerative labels paired by position with the
      rows of the proportion matrix, present exactly when there is one per row. */
  function PcaClusters(raw: seq<Calls.Call>, labels: seq<int>): (r: Option<seq<Labels.Assignment>>)
    ensures var rows := CountMatrix.Crosstab(PcaFrame(raw)).rows;
      && (r.Some? <==> |labels| == |rows|)
      && (r.Some? ==> |r.value| == |rows|)
      && (r.Some? ==> forall i :: 0 <= i < |rows| ==> r.value[i].area == rows[i] && r.value[i].cluster == labels[i])
  {
    Labels.Table(CountMatrix.Distribution(PcaFrame(raw)).rows, labels)
  }

  // ---------------------------------------------------------------------------
  // The map scripts

  /** What the map scripts compute per polygon and per record before rendering. */
  datatype MapLayers<P> = MapLayers(
    volumes: seq<nat>,
    clusters: seq<int>,
    topTypes: seq<Option<seq<string>>>,
    heat: seq<P>,
    weighted: seq<MapPrep.Weighted<P>>)

  /** The layers of both interactive maps: call volumes of the filtered records,
      the volume clusters, the top types drawn from `topSource`, and the two heat
      layers over the filtered records. */
  function Layers<P>(valid: seq<Calls.Call>, topSource: seq<Calls.Call>, polygons: seq<MapPrep.Polygon<P>>, bins: seq<int>)
    : (r: MapLayers<P>)
    requires |bins| == |polygons|
    ensures |r.volumes| == |r.clusters| == |r.topTypes| == |polygons|
    ensures |r.heat| == |r.weighted| <= |valid|
  {
    var ps := MapPrep.CleanPolygons(polygons);
    var volumes := MapPrep.CallVolumes(valid, ps);
    MapPrep.SameLocations(valid, ps);
    MapLayers(volumes,
              MapPrep.VolumeClusters(volumes, bins),
              seq(|ps|, i requires 0 <= i < |ps| => MapPrep.TopTypesOf(topSource, ps[i].name)),
              MapPrep.HeatPoints(valid, ps),
              MapPrep.WeightedHeatPoints(valid, ps))
  }

  /** `generate_interactive_map.py`: top types from the filtered records with their
      call types as read. */
  function InteractiveMap<P>(raw: seq<Calls.Call>, polygons: seq<MapPrep.Polygon<P>>, bins: seq<int>): (r: MapLayers<P>)
    requires |bins| == |polygons|
    ensures |r.volumes| == |r.topTypes| == |polygons|
    ensures var ps, valid := MapPrep.CleanPolygons(polygons), Calls.ValidCalls(raw);
      forall i :: 0 <= i < |ps| ==>
        && (r.topTypes[i].Some? <==> ps[i].name in Calls.Areas(valid))
        && (r.topTypes[i].Some? ==> r.topTypes[i].value == TopTypes.TopOf(Calls.Kinds(Calls.InArea(valid, ps[i].name))))
  {
    Layers(Calls.ValidCalls(raw), Calls.ValidCalls(raw), polygons, bins)
  }

  /** The volume layer's colour of each polygon: `cluster_colors[int(cluster) % 4]`. */
  function VolumeColours(clusters: seq<int>): (r: seq<string>)
    ensures |r| == |clusters|
    ensures forall i :: 0 <= i < |r| ==> r[i] in MapPrep.ClusterColours
  {
    seq(|clusters|, i requires 0 <= i < |clusters| => MapPrep.ClusterColours[MapPrep.ColourIndex(clusters[i])])
  }

  /** `generate_interactive_map_with_call_type_clusters.py`: top types from every
      record, call types normalised and placeholder names kept. Its call-type
      clustering is `CallTypeClusters`. */
  function CallTypeClustersMap<P>(raw: seq<Calls.Call>, polygons: seq<MapPrep.Polygon<P>>, bins: seq<int>): (r: MapLayers<P>)
    requires |bins| == |polygons|
    ensures |r.volumes| == |r.topTypes| == |polygons|
    ensures var ps, all := MapPrep.CleanPolygons(polygons), Calls.CleanKinds(Calls.CleanAreas(raw));
      forall i :: 0 <= i < |ps| ==>
        && (r.topTypes[i].Some? <==> ps[i].name in Calls.Areas(all))
        && (r.topTypes[i].Some? ==> r.topTypes[i].value == TopTypes.TopOf(Calls.Kinds(Calls.InArea(all, ps[i].name))))
  {
    Layers(Calls.ValidCalls(raw), Calls.CleanKinds(Calls.CleanAreas(raw)), polygons, bins)
  }

  /** Both maps agree on every layer but the top types. The call-type map's top types
      of a polygon with a real name are those of the filtered records with their call
      types normalised; the first map ranks the types as read, so the two lists differ
      once a neighbourhood's types differ only in case or padding. */
  lemma MapsAgree<P>(raw: seq<Calls.Call>, polygons: seq<MapPrep.Polygon<P>>, bins: seq<int>)
    requires |bins| == |polygons|
    ensures var a, b := InteractiveMap(raw, polygons, bins), CallTypeClustersMap(raw, polygons, bins);
      a.volumes == b.volumes && a.clusters == b.clusters && a.heat == b.heat && a.weighted == b.weighted
    ensures var ps := MapPrep.CleanPolygons(polygons);
      forall i :: 0 <= i < |ps| && Calls.IsValidArea(ps[i].name) ==>
        CallTypeClustersMap(raw, polygons, bins).topTypes[i] ==
        MapPrep.TopTypesOf(Calls.CleanKinds(Calls.ValidCalls(raw)), ps[i].name)
  {
    var ps := MapPrep.CleanPolygons(polygons);
    var r := CallTypeClustersMap(raw, polygons, bins);
    forall i | 0 <= i < |ps| && Calls.IsValidArea(ps[i].name)
      ensures r.topTypes[i] == MapPrep.TopTypesOf(Calls.CleanKinds(Calls.ValidCalls(raw)), ps[i].name)
    {
      MapPrep.UnfilteredTopTypes(raw, ps[i].name);
    }
  }

  /** The call-type clustering of the map script: the proportion matrix, each row's
      `total_calls`, and the k-means labels paired with the rows. */
  datatype CallTypeFrame = CallTypeFrame(
    dist: CountMatrix.Matrix<real>,
    totals: seq<nat>,
    clusters: Option<seq<Labels.Assignment>>)

  /** `generate_interactive_map_with_call_type_clusters.py`, the call-type clustering:
      the matrix is built from the filtered records, which were sliced off before the
      call types were normalised, so its columns are the call types as read. Each row
      holds the shares of its neighbourhood's records, `total_calls` is the row's
      record count, and the labels are present exactly when there is one per row. */
  function CallTypeClusters(raw: seq<Calls.Call>, labels: seq<int>): (r: CallTypeFrame)
    ensures var cs := Calls.ValidCalls(raw);
      && CountMatrix.Rectangular(r.dist)
      && r.dist.rows == CountMatrix.Crosstab(cs).rows
      && r.dist.cols == CountMatrix.Crosstab(cs).cols
      && (forall t :: t in r.dist.cols <==> t in Calls.Kinds(cs))
      && (forall n :: n in r.dist.rows <==> n in Calls.Areas(cs))
      && (forall i :: 0 <= i < |r.dist.cells| ==> CountMatrix.RealSum(r.dist.cells[i]) == 1.0)
      && |r.totals| == |r.dist.rows|
      && (forall i :: 0 <= i < |r.totals| ==> r.totals[i] == |Calls.InArea(cs, r.dist.rows[i])| > 0)
      && (forall i, j :: 0 <= i < |r.dist.rows| && 0 <= j < |r.dist.cols| ==>
            CountMatrix.IsShare(r.dist.cells[i][j], CountMatrix.PairCount(cs, r.dist.rows[i], r.dist.cols[j]), r.totals[i]))
      && (r.clusters.Some? <==> |labels| == |r.dist.rows|)
      && (r.clusters.Some? ==> |r.clusters.value| == |r.dist.rows|)
      && (r.clusters.Some? ==> forall i :: 0 <= i < |r.dist.rows| ==>
            r.clusters.value[i].area == r.dist.rows[i] && r.clusters.value[i].cluster == labels[i])
  {
    var cs := Calls.ValidCalls(raw);
    var m := CountMatrix.Crosstab(cs);
    var d := CountMatrix.Distribution(cs);
    CountMatrix.CrosstabRowTotals(cs);
    forall i, j | 0 <= i < |d.rows| && 0 <= j < |d.cols|
      ensures CountMatrix.IsShare(d.cells[i][j], CountMatrix.PairCount(cs, d.rows[i], d.cols[j]), CountMatrix.RowTotals(m)[i])
    {
      CountMatrix.DistributionRecoversCount(cs, i, j);
    }
    CallTypeFrame(d, CountMatrix.RowTotals(m), Labels.Table(d.rows, labels))
  }

  /** The quirk of the call-type map: a filtered record whose call type is not in
      normal form (upper case, or surrounding whitespace) gives the clustering a column
      of that type, yet the type can never be listed among any polygon's top types,
      which are drawn from normalised types. */
  lemma CallTypeColumnsAsRead<P>(raw: seq<Calls.Call>, polygons: seq<MapPrep.Polygon<P>>, bins: seq<int>,
                                 labels: seq<int>, c: Calls.Call)
    requires |bins| == |polygons|
    requires c in Calls.ValidCalls(raw) && !Text.IsNormal(c.kind)
    ensures c.kind in CallTypeClusters(raw, labels).dist.cols
    ensures var top := CallTypeClustersMap(raw, polygons, bins).topTypes;
      forall i :: 0 <= i < |top| && top[i].Some? ==> c.kind !in top[i].value
  {
    var cs := Calls.ValidCalls(raw);
    var q :| 0 <= q < |cs| && cs[q] == c;
    assert Calls.Kinds(cs)[q] == c.kind;
    MapTopTypesNormal(raw, polygons, bins);
  }

  /** The two maps part ways on top types: a neighbourhood with fewer than three
      distinct call types, one of them not in normal form, has that type listed by the
      first map and not by the call-type map. */
  lemma MapsDiffer<P>(raw: seq<Calls.Call>, polygons: seq<MapPrep.Polygon<P>>, bins: seq<int>, c: Calls.Call, i: nat)
    requires |bins| == |polygons| && i < |polygons|
    requires c in Calls.ValidCalls(raw) && !Text.IsNormal(c.kind)
    requires MapPrep.CleanPolygons(polygons)[i].name == c.area
    requires |set t | t in Calls.Kinds(Calls.InArea(Calls.ValidCalls(raw), c.area))| < TopTypes.TopCount
    ensures InteractiveMap(raw, polygons, bins).topTypes[i].Some?
    ensures c.kind in InteractiveMap(raw, polygons, bins).topTypes[i].value
    ensures InteractiveMap(raw, polygons, bins).topTypes[i] != CallTypeClustersMap(raw, polygons, bins).topTypes[i]
  {
    var valid := Calls.ValidCalls(raw);
    var own := Calls.InArea(valid, c.area);
    var kinds := Calls.Kinds(own);
    var q :| 0 <= q < |valid| && valid[q] == c;
    assert Calls.Areas(valid)[q] == c.area;
    assert c in own;
    var p :| 0 <= p < |own| && own[p] == c;
    assert kinds[p] == c.kind;
    TopTypes.TopOfFew(kinds);
    CallTypeColumnsAsRead(raw, polygons, bins, [], c);
  }

  /** Every type the call-type map lists is in normal form. */
  lemma MapTopTypesNormal<P>(raw: seq<Calls.Call>, polygons: seq<MapPrep.Polygon<P>>, bins: seq<int>)
    requires |bins| == |polygons|
    ensures var top := CallTypeClustersMap(raw, polygons, bins).topTypes;
      forall i, t :: 0 <= i < |top| && top[i].Some? && t in top[i].value ==> Text.IsNormal(t)
  {
    var src := Calls.CleanKinds(Calls.CleanAreas(raw));
    var ps := MapPrep.CleanPolygons(polygons);
    var top := CallTypeClustersMap(raw, polygons, bins).topTypes;
    Calls.CleanKindsNormal(Calls.CleanAreas(raw));
    forall i | 0 <= i < |top| && top[i].Some? ensures forall t :: t in top[i].value ==> Text.IsNormal(t) {
      assert top[i] == MapPrep.TopTypesOf(src, ps[i].name);
      TopTypesOfNormal(src, ps[i].name);
    }
  }

  /** The top types of a name are types of its records: with every call type normal,
      every listed type is. */
  lemma TopTypesOfNormal(cs: seq<Calls.Call>, name: string)
    requires forall d :: d in cs ==> Text.IsNormal(d.kind)
    ensures MapPrep.TopTypesOf(cs, name).Some? ==> forall t :: t in MapPrep.TopTypesOf(cs, name).value ==> Text.IsNormal(t)
  {
    var own := Calls.InArea(cs, name);
    forall t | MapPrep.TopTypesOf(cs, name).Some? && t in MapPrep.TopTypesOf(cs, name).value ensures Text.IsNormal(t) {
      assert t in Calls.Kinds(own);
      var j :| 0 <= j < |own| && Calls.Kinds(own)[j] == t;
      assert own[j] in cs;
    }
  }

  /** Each polygon's volume is its number of filtered records (0 for a polygon
      without calls), and the heat layers hold one point per filtered record whose
      neighbourhood has a polygon. */
  lemma LayersMeaning<P>(raw: seq<Calls.Call>, polygons: seq<MapPrep.Polygon<P>>, bins: seq<int>)
    requires |bins| == |polygons|
    ensures var r, ps, valid := InteractiveMap(raw, polygons, bins), MapPrep.CleanPolygons(polygons), Calls.ValidCalls(raw);
      && (forall i :: 0 <= i < |ps| ==> r.volumes[i] == Seqs.Occ(Calls.Areas(valid), ps[i].name))
      && r.heat == MapPrep.CentroidsOf(MapPrep.Located(valid, ps), ps)
      && r.weighted == MapPrep.WeightedOf(MapPrep.Located(valid, ps), ps)
  {
    var ps, valid := MapPrep.CleanPolygons(polygons), Calls.ValidCalls(raw);
    MapPrep.CallVolumesCount(valid, ps);
    MapPrep.HeatPointsLocated(valid, ps);
    MapPrep.WeightedHeatPointsLocated(valid, ps);
  }

  /** No row of a label file names the polygon, once both names are normalised. */
  predicate NotListed(labelFile: seq<Labels.Assignment>, name: string) {
    forall j :: 0 <= j < |labelFile| ==> Text.Normalize(labelFile[j].area) != Text.Normalize(name)
  }

  /** The label a polygon receives from the left merge with a label file: the label
      of its normalised name, `None` (NaN) when the file does not list it. */
  function PolygonLabel<P>(p: MapPrep.Polygon<P>, labelFile: seq<Labels.Assignment>): Option<int> {
    Labels.LabelOf(Labels.CleanTable(labelFile), Text.Normalize(p.name))
  }

  /** The colour lookup both overlays share: `color_dict.get(label, "#cccccc")` with
      `color_dict` built from a palette of `|palette|` colours, grey for a polygon
      without a label. */
  function OverlayColours<P>(polygons: seq<MapPrep.Polygon<P>>, labelFile: seq<Labels.Assignment>, palette: seq<string>)
    : (r: seq<string>)
    ensures |r| == |polygons|
    ensures forall i :: 0 <= i < |r| ==> r[i] in palette || r[i] == MapPrep.Grey
    ensures forall i :: 0 <= i < |r| && NotListed(labelFile, polygons[i].name) ==> r[i] == MapPrep.Grey
    ensures forall i :: 0 <= i < |r| && PolygonLabel(polygons[i], labelFile).Some? ==>
              var k := PolygonLabel(polygons[i], labelFile).value;
              r[i] == if 0 <= k < |palette| then palette[k] else MapPrep.Grey
  {
    var ps := MapPrep.CleanPolygons(polygons);
    var table := Labels.CleanTable(labelFile);
    seq(|ps|, i requires 0 <= i < |ps| => MapPrep.LabelColour(palette, Labels.LabelOf(table, ps[i].name)))
  }

  /** `cluster_df["call_type_cluster"].nunique()`: the number of distinct labels in a
      label file. */
  function FileClusterCount(labelFile: seq<Labels.Assignment>): nat {
    |Ordering.DistinctLabels(FileLabels(labelFile))|
  }

  /** The label column of a label file. */
  function FileLabels(labelFile: seq<Labels.Assignment>): seq<int> {
    if |labelFile| == 0 then [] else [labelFile[0].cluster] + FileLabels(labelFile[1..])
  }

  /** `gdf["pca_cluster"].nunique()` after the left merge onto the polygons: the
      number of distinct labels the polygons received, NaN not counted. */
  function PolygonClusterCount<P>(polygons: seq<MapPrep.Polygon<P>>, labelFile: seq<Labels.Assignment>): nat {
    |Ordering.DistinctLabels(PolygonLabels(polygons, labelFile))|
  }

  /** The labels the polygons received, NaN left out. */
  function PolygonLabels<P>(polygons: seq<MapPrep.Polygon<P>>, labelFile: seq<Labels.Assignment>): seq<int> {
    if |polygons| == 0 then []
    else
      (match PolygonLabel(polygons[0], labelFile) case Some(k) => [k] case None => [])
      + PolygonLabels(polygons[1..], labelFile)
  }

  /** `map_cluster_vs_priority_overlay.py`: the palette has one colour per distinct
      label of the label file; a polygon labelled below that count gets its colour,
      every other polygon grey. */
  function CallTypeOverlayColours<P>(polygons: seq<MapPrep.Polygon<P>>, labelFile: seq<Labels.Assignment>, palette: seq<string>)
    : (r: seq<string>)
    requires |palette| == FileClusterCount(labelFile)
    ensures |r| == |polygons|
    ensures forall i :: 0 <= i < |r| ==>
              match PolygonLabel(polygons[i], labelFile)
              case Some(k) => r[i] == if 0 <= k < FileClusterCount(labelFile) then palette[k] else MapPrep.Grey
              case None => r[i] == MapPrep.Grey
  {
    OverlayColours(polygons, labelFile, palette)
  }

  /** `map_pca_clusters_vs_priority.py`: the palette has one colour per distinct
      label among the polygons after the merge, so only labels below that count are
      coloured. */
  function PcaOverlayColours<P>(polygons: seq<MapPrep.Polygon<P>>, labelFile: seq<Labels.Assignment>, palette: seq<string>)
    : (r: seq<string>)
    requires |palette| == PolygonClusterCount(polygons, labelFile)
    ensures |r| == |polygons|
    ensures forall i :: 0 <= i < |r| ==>
              match PolygonLabel(polygons[i], labelFile)
              case Some(k) => r[i] == if 0 <= k < PolygonClusterCount(polygons, labelFile) then palette[k] else MapPrep.Grey
              case None => r[i] == MapPrep.Grey
  {
    OverlayColours(polygons, labelFile, palette)
  }

  /** With labels `0 .. n-1`, as the clustering writes them, the call-type overlay
      colours every polygon the label file lists. */
  lemma CallTypeOverlayColoursListed<P>(polygons: seq<MapPrep.Polygon<P>>, labelFile: seq<Labels.Assignment>, palette: seq<string>)
    requires |palette| == FileClusterCount(labelFile)
    requires forall j :: 0 <= j < |labelFile| ==> 0 <= labelFile[j].cluster < FileClusterCount(labelFile)
    ensures forall i :: 0 <= i < |polygons| && PolygonLabel(polygons[i], labelFile).Some? ==>
              CallTypeOverlayColours(polygons, labelFile, palette)[i] == palette[PolygonLabel(polygons[i], labelFile).value]
  {
    var table := Labels.CleanTable(labelFile);
    forall i | 0 <= i < |polygons| && PolygonLabel(polygons[i], labelFile).Some?
      ensures 0 <= PolygonLabel(polygons[i], labelFile).value < FileClusterCount(labelFile)
    {
      var k := PolygonLabel(polygons[i], labelFile).value;
      var j :| 0 <= j < |table| && table[j] == Labels.Assignment(Text.Normalize(polygons[i].name), k);
      assert labelFile[j].cluster == k;
    }
  }

  function OverlayHeat<P>(raw: seq<Calls.Call>, polygons: seq<MapPrep.Polygon<P>>): (r: seq<MapPrep.Weighted<P>>)
    ensures forall i :: 0 <= i < |r| ==> r[i].weight >= 1
  {
    MapPrep.WeightedHeatPoints(Calls.ValidCalls(raw), MapPrep.CleanPolygons(polygons))
  }

  /** `map_pca_clusters_vs_priority.py`: the weighted heat points of every record
      with a polygon, the placeholder names not dropped. */
  function PcaOverlayHeat<P>(raw: seq<Calls.Call>, polygons: seq<MapPrep.Polygon<P>>): (r: seq<MapPrep.Weighted<P>>)
    ensures r == MapPrep.WeightedHeatPoints(Calls.CleanAreas(raw), MapPrep.CleanPolygons(polygons))
  {
    MapPrep.PcaHeatPointsAgree(raw, MapPrep.CleanPolygons(polygons));
    MapPrep.PcaHeatPoints(Calls.CleanAreas(raw), MapPrep.CleanPolygons(polygons))
  }
}
