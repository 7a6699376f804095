# Seattle 911 call clustering: the aggregation layer in Dafny

The repository clusters Seattle neighbourhoods by the mix of 911 call types they
receive, summarises the clusters, and draws maps of call volume, call-type clusters
and priority-weighted heat. Around the numerical library calls (scaling, PCA,
Gaussian mixtures, HDBSCAN, k-means, agglomerative clustering, quantile binning) the
scripts share one discrete layer, built from these steps:

- the neighbourhood clean-up and the `"-"`/`"unknown"` filter;
- the neighbourhood × call-type count matrix, with its row totals and row proportions;
- the first-lowest-score choice of the mixture size;
- the label tables and the joins that attach cluster labels to call records;
- the per-cluster summaries (members, average calls per neighbourhood, top three
  call types);
- the noise-outlier report;
- the map-side preparation (call volumes, the constant-volume fallback, top types
  per polygon, colour lookup, the priority weight `max(1, 5 - p)`, heat points).

This project models that layer and proves what the scripts rely on.

The clustering output is an input here. A labelling is the label sequence a library
returns for the matrix rows. A mixture is represented by the labels it predicts. A
score list is one score per candidate size. The quantile bins are one bin per
polygon. A polygon is its name and an opaque centroid of any type.

Modules, following the scripts' shared steps:

| file | module | what it models |
|---|---|---|
| `text.dfy` | `Text` | `str.lower().str.strip()` over ASCII, and Python's string order |
| `seqs.dfy` | `Seqs` | boolean masks, occurrence counts, sums, means |
| `ordering.dfy` | `Ordering` | the sorted distinct keys a `groupby` produces |
| `calls.dfy` | `Calls` | call records, the clean-up and the neighbourhood filter |
| `count_matrix.dfy` | `CountMatrix` | crosstab / `groupby().size().unstack(fill_value=0)`, row totals, the all-zero column drop, proportions |
| `model_order.dfy` | `ModelOrder` | `n_components[bics.index(min(bics))]` |
| `top_types.dfy` | `TopTypes` | `value_counts`, the top-3 selection, summed-count tallies |
| `labels.dfy` | `Labels` | label tables, the merge on `Neighborhood` |
| `cluster_summary.dfy` | `ClusterSummary` | the summary of the mixture scripts and of the stand-alone summary script |
| `density_summary.dfy` | `DensitySummary` | the summary of the HDBSCAN script, built on the matrix itself |
| `outliers.dfy` | `Outliers` | the noise (-1) neighbourhood report |
| `map_prep.dfy` | `MapPrep` | call volumes, volume clusters, colours, weights, heat points |
| `scripts.dfy` | `Scripts` | each script end to end |

Choices the model fixes:

- **Placeholder names.** `astype(str)` turns a missing neighbourhood into the text
  `"nan"`, so the `notna()` half of every filter never drops anything. The model
  filters on "normalised name is not `"-"` or `"unknown"`" alone. A record named
  `"nan"` or `""` is kept.
- **Key order.** Matrix rows and columns, and summary lines, come in ascending key
  order, as a `groupby` sorts them. Names are compared code point by code point,
  like Python's `<` on `str`.
- **Ties in the top three.** The order among equal counts follows from the preceding
  sort and is not fixed by the scripts. The model takes the first largest count in
  ascending-name order. Every top-3 contract claims only that counts never increase
  along the list and that no omitted type has a larger count than a listed one.
- **Quirks kept as written.**
  - In `generate_interactive_map_with_call_type_clusters.py`, `valid_df` is sliced
    before call types are normalised, so the call-type matrix there uses the types
    as read (`Scripts.CallTypeClusters`). A type that is not in normal form is a
    matrix column but never a listed top type (`Scripts.CallTypeColumnsAsRead`).
  - The top types of the same script come from the unfiltered, type-normalised
    records (`Scripts.CallTypeClustersMap`). `Scripts.MapsAgree` shows that for a
    polygon with a real name they equal those of the filtered, type-normalised
    records. `generate_interactive_map.py` ranks the types as read, so the two maps
    list different types once a neighbourhood's types differ only in case or
    padding (`Scripts.MapsDiffer`).
  - The PCA overlay filters only on polygon membership (`MapPrep.PcaHeatPointsAgree`).
  - Both overlays look colours up the same way (`Scripts.OverlayColours`): the
    palette entry of the polygon's label, or grey. They size the palette
    differently, though. The call-type overlay takes the number of distinct labels
    in the label file (`Scripts.CallTypeOverlayColours`). The PCA overlay takes the
    number of distinct labels the polygons received after the left merge
    (`Scripts.PcaOverlayColours`), so a label at or above that number is greyed
    even though the label file holds it.
  - The stand-alone summary script does not drop the placeholder names
    (`Scripts.SummarizeKeeps`).
- **Matrix rows and the merge.** The matrix index has one row per name, so the
  label tables built from it are joined by the first (only) matching row. The inner
  merge and the left-merge-then-drop of the summary script both become
  `Labels.Join`.

## Model

| member | source | states |
|---|---|---|
| Text.NormalizeShape | scripts/cluster_with_gmm_bic.py:19 | a normalised name has no upper-case letter and no whitespace at either end |
| Text.NormalOfNormal | scripts/summarize_hdbscan_outliers.py:15 | a name that already has no upper-case letter and no surrounding whitespace is its own normal form |
| Text.NormalizeIdempotent | scripts/map_pca_clusters_vs_priority.py:61 | normalising a normalised name again changes nothing, so the second `lower().strip()` keeps every key |
| Text.NormalizeIgnoresPadding | scripts/cluster_with_pca_agglomerative.py:9 | names that differ only by surrounding whitespace get the same key |
| Text.LessIrreflexive | scripts/cluster_with_gmm_bic.py:23 | the string order the crosstab sorts its index by is irreflexive |
| Text.LessTransitive | scripts/cluster_with_gmm_bic.py:23 | that order is transitive |
| Text.LessTotal | scripts/cluster_with_gmm_bic.py:23 | that order is total on distinct strings |
| Seqs.Filter | scripts/cluster_with_gmm_bic.py:20 | a boolean mask keeps exactly the rows that satisfy it, and only those |
| Seqs.FilterAppend | scripts/cluster_with_gmm_bic.py:20 | a mask splits over any cut of the frame and never reorders |
| Seqs.FilterMultiset | scripts/cluster_with_gmm_bic.py:20 | a mask keeps every copy of a matching element and no copy of any other |
| Seqs.Occ | scripts/summarize_hdbscan_outliers.py:39 | `value_counts` of a value equals its multiplicity, positive exactly when the value occurs |
| Seqs.Mean | scripts/cluster_with_gmm_bic.py:80 | the mean of the per-neighbourhood counts times their number is their sum, and is non-negative |
| Seqs.CountsAlong | scripts/cluster_with_gmm_bic.py:80 | one count per key, each the key's number of occurrences in the column |
| Seqs.CountsAlongTotal | scripts/cluster_with_gmm_bic.py:79-80 | counting a column along distinct keys that cover it accounts for every row exactly once |
| Seqs.DistinctCardinality | scripts/cluster_with_gmm_bic.py:79 | a key list without repeats has as many entries as distinct keys |
| Ordering.InsertName | scripts/cluster_with_gmm_bic.py:23 | inserting a key keeps the key list ascending and adds exactly that key |
| Ordering.DistinctNames | scripts/cluster_with_gmm_bic.py:23 | the group keys are ascending and are exactly the values of the column |
| Ordering.InsertLabel | scripts/summarize_call_type_clusters.py:18 | inserting a label keeps the label list ascending and adds exactly that label |
| Ordering.DistinctLabels | scripts/summarize_call_type_clusters.py:18 | `sorted(unique())` of the labels: strictly ascending and exactly the labels present |
| Calls.CleanAreas | scripts/cluster_with_gmm_bic.py:19 | every record keeps its position and all fields but the name, which is normalised |
| Calls.CleanKinds | scripts/summarize_call_type_clusters.py:7 | every record keeps its position and all fields but the call type, which is normalised |
| Calls.CleanAreasIdempotent | scripts/summarize_hdbscan_outliers.py:13-15 | cleaning the names of a cleaned frame again changes nothing |
| Calls.ValidCallsMembers | scripts/cluster_with_gmm_bic.py:19-20 | a record is kept, with its normalised name, exactly when that name is not "-" or "unknown"; every kept record comes from the input |
| Calls.ValidCallsSplit | scripts/cluster_with_gmm_bic.py:20 | the filter judges each record on its own: it distributes over concatenation |
| Calls.ValidCallsSingle | scripts/cluster_with_gmm.py:16-17 | one record is kept (normalised) iff its normalised name is real, and dropped otherwise |
| Calls.InAreaCount | scripts/generate_interactive_map.py:27 | a neighbourhood's group has as many records as its name occurs in the column |
| Calls.InAreaOfValid | scripts/generate_interactive_map_with_call_type_clusters.py:24 | dropping placeholder names leaves the records of a real name untouched |
| Calls.CleanKindsFilter | scripts/generate_interactive_map_with_call_type_clusters.py:24 | normalising call types commutes with the neighbourhood filter |
| Calls.CleanKindsNormal | scripts/generate_interactive_map_with_call_type_clusters.py:43 | after type normalisation every call type is in normal form |
| CountMatrix.Crosstab | scripts/cluster_with_gmm_bic.py:23 | the matrix is rectangular, rows are exactly the neighbourhoods and columns exactly the call types (both ascending), and cell (n, t) counts the records of type t in n, 0 when there are none |
| CountMatrix.CrosstabRowTotals | scripts/cluster_call_types_hdbscan.py:36 | each `total_calls` equals its neighbourhood's record count and is positive |
| CountMatrix.CrosstabGrandTotal | scripts/cluster_with_pca_agglomerative.py:31 | the `total_calls` column adds up to the number of records |
| CountMatrix.UsedColumns | scripts/cluster_with_gmm_bic.py:24 | the kept column positions are ascending and are exactly the columns with a nonzero cell |
| CountMatrix.SelectColumns | scripts/cluster_with_gmm_bic.py:24 | `.loc[:, mask]` keeps the rows, and each kept column carries its label and cells |
| CountMatrix.DropZeroColumns | scripts/cluster_with_gmm_bic.py:24 | the drop keeps the rows, keeps only columns with a nonzero cell and keeps every such column; the columns left are those of the matrix at the used positions, in order, with their cells |
| CountMatrix.DropIsNoOp | scripts/cluster_with_gmm.py:21 | a matrix without all-zero columns is left as it is |
| CountMatrix.CrosstabDropIsNoOp | scripts/cluster_with_gmm_bic.py:23-24 | on a crosstab the all-zero column drop removes nothing |
| CountMatrix.CrosstabColumnsUsed | scripts/cluster_with_gmm.py:20-21 | every column of a crosstab has a nonzero cell |
| CountMatrix.SharesAddUp | scripts/cluster_with_pca_agglomerative.py:20 | the shares of a row with a positive total add up to exactly 1 |
| CountMatrix.RowShares | scripts/cluster_with_pca_agglomerative.py:20 | a proportion row sums to 1, each entry lies in [0, 1] and times the row total gives back its count |
| CountMatrix.Proportions | scripts/cluster_with_pca_agglomerative.py:20 | `div(sum(axis=1), axis=0)` keeps the keys; each row sums to 1 with entries in [0, 1]; requires positive row totals |
| CountMatrix.ProportionRecoversCount | scripts/cluster_with_pca_agglomerative.py:20-31 | proportion × `total_calls` recovers each count |
| CountMatrix.CrosstabProportions | scripts/generate_interactive_map_with_call_type_clusters.py:64 | every crosstab row total is positive, so the division is always defined |
| CountMatrix.Distribution | scripts/generate_interactive_map_with_call_type_clusters.py:59-64 | the proportions of a frame's matrix keep its keys, rows sum to 1, entries lie in [0, 1] |
| CountMatrix.DistributionRecoversCount | scripts/generate_interactive_map_with_call_type_clusters.py:64-70 | in those proportions an entry times `total_calls` recovers the count |
| ModelOrder.Min | scripts/cluster_with_gmm_bic.py:39 | `min` returns an element no larger than any other |
| ModelOrder.IndexOf | scripts/cluster_with_gmm_bic.py:39 | `list.index` returns the first position holding the value |
| ModelOrder.Select | scripts/cluster_with_gmm_bic.py:34-40 | the chosen size is in 2..9, its score is the minimum, every earlier score is strictly larger (ties go to the smaller size), and size and model come from the same position |
| TopTypes.Top | scripts/cluster_with_gmm_bic.py:63-72 | `head(3)` after sorting by count: min(k, n) distinct entries from the input, counts non-increasing, no omitted entry with a larger count than a kept one |
| TopTypes.ValueCounts | scripts/summarize_hdbscan_outliers.py:39-40 | one tally per distinct value, each with its number of occurrences, none missing |
| TopTypes.TopTypes | scripts/summarize_call_type_clusters.py:25-31 | at most k distinct types, each occurring in the column, at least one for a non-empty column, and fewer than k only when every type of the column is listed |
| TopTypes.TopOf | scripts/summarize_call_type_clusters.py:25-31 | at most 3 distinct types that occur, fewer than 3 only when every type is listed, at least one when there are records, counts non-increasing, no omitted type more frequent than a listed one |
| TopTypes.TopTypesRanked | scripts/cluster_with_gmm.py:45-59 | the top types are ranked by their frequency in the cluster |
| TopTypes.CountOfEntry | scripts/cluster_call_types_hdbscan.py:59-61 | looking a key up in tallies with distinct keys finds its own count |
| TopTypes.Positive | scripts/cluster_call_types_hdbscan.py:57-61 | the tallies kept are exactly those with a positive count |
| TopTypes.TopTallies | scripts/cluster_call_types_hdbscan.py:63-66 | at most n distinct keys, each with a positive summed count, and fewer than n only when every key with a positive count is listed |
| TopTypes.TopComplete | scripts/summarize_call_type_clusters.py:25-29 | `head(k)` returns fewer than k tallies only when it has all of them |
| TopTypes.TopOfFew | scripts/summarize_call_type_clusters.py:25-29 | a column with fewer than 3 distinct types has every one of them listed |
| TopTypes.TopTalliesRanked | scripts/cluster_call_types_hdbscan.py:63-66 | summed counts never increase along the list, and no key with a positive count is left out in favour of a smaller one |
| TopTypes.TopTalliesNonEmpty | scripts/cluster_call_types_hdbscan.py:63-66 | a label with some positive count gets at least one top type |
| Labels.CleanTable | scripts/summarize_call_type_clusters.py:10 | a label file's names are normalised and labels and positions are kept |
| Labels.CleanTableOfNormal | scripts/summarize_hdbscan_outliers.py:15 | a label file written from a matrix index is unchanged by that normalisation |
| Labels.Table | scripts/cluster_with_gmm_bic.py:53-56 | the table exists exactly when there is one label per matrix row, and then has one row per matrix row |
| Labels.Find | scripts/cluster_with_gmm_bic.py:61 | the first table row carrying a name, or past the end when there is none |
| Labels.LabelOf | scripts/cluster_with_gmm_bic.py:61 | a name gets no label exactly when no table row carries it; otherwise the label of a row that carries it |
| Labels.LabelOfDistinct | scripts/summarize_hdbscan_outliers.py:18-19 | in a table with one row per name, each row's name finds that row's label |
| Labels.TableLookup | scripts/cluster_with_gmm.py:35-38 | the table built from distinct rows gives row i label i and no label to any other name |
| Labels.TableCovers | scripts/cluster_with_gmm.py:43 | every row name of that table has a label |
| Labels.Join | scripts/cluster_with_gmm.py:43 | each merged record carries the label its neighbourhood has in the table, and the merge is no longer than the records |
| Labels.JoinCalls | scripts/summarize_call_type_clusters.py:13-14 | without labels, the merge is exactly the records whose neighbourhood has a label, in order |
| Labels.JoinKeepsAll | scripts/cluster_with_gmm.py:43 | when every neighbourhood has a label, the merge keeps every record |
| ClusterSummary.ClusterAreas | scripts/cluster_with_gmm_bic.py:79 | the neighbourhoods of a cluster's records are exactly those the frame puts in that cluster |
| ClusterSummary.NUnique | scripts/summarize_call_type_clusters.py:20 | `nunique` is the number of distinct values, at most the row count and positive for a non-empty column |
| ClusterSummary.AreaCounts | scripts/summarize_call_type_clusters.py:22 | one count per distinct neighbourhood, adding up to the cluster's records |
| ClusterSummary.ClusterNonEmpty | scripts/summarize_call_type_clusters.py:19 | a label that occurs has at least one record |
| ClusterSummary.RowOf | scripts/summarize_call_type_clusters.py:19-31 | a summary line has its label, `Neighborhoods` ≥ 1 equal to the number of distinct neighbourhoods of the cluster, and the cluster's top types |
| ClusterSummary.RowAverage | scripts/summarize_call_type_clusters.py:21-22 | `Avg Calls per Neighborhood` × `Neighborhoods` = the cluster's record count |
| ClusterSummary.Summary | scripts/cluster_with_gmm.py:64-65 | one line per distinct label, each the line of its label, labels strictly ascending, no label missing |
| ClusterSummary.JoinConsistent | scripts/cluster_with_gmm_bic.py:61 | after the merge a neighbourhood carries one label throughout |
| ClusterSummary.PartitionSum | scripts/cluster_with_gmm_bic.py:79 | with consistent labels, the member counts of distinct clusters add up to the neighbourhoods of their union |
| ClusterSummary.AllAreasCovered | scripts/cluster_with_gmm_bic.py:79 | every neighbourhood of the frame lies in one of its clusters |
| ClusterSummary.MembersAddUp | scripts/cluster_with_gmm_bic.py:79 | `Neighborhoods` over the summary adds up to the distinct neighbourhoods of the frame |
| DensitySummary.Where | scripts/cluster_call_types_hdbscan.py:44-46 | selecting the rows of one label keeps as many entries as rows carry it; every entry kept comes from a row with that label, and every such row's entry is kept |
| DensitySummary.WhereAppend | scripts/cluster_call_types_hdbscan.py:44-46 | selecting one label's rows from two tables placed end to end gives the two selections end to end |
| DensitySummary.Column | scripts/cluster_call_types_hdbscan.py:16-20 | one entry per matrix row, the cell of that column |
| DensitySummary.LabelTallies | scripts/cluster_call_types_hdbscan.py:59-61 | one tally per matrix column, its count summed over the label's rows |
| DensitySummary.RowOf | scripts/cluster_call_types_hdbscan.py:44-74 | a label's line: `Neighborhoods` is its number of rows (≥ 1), at most 3 distinct top types, each with a positive summed count, fewer than 3 only when every type with a positive summed count is listed |
| DensitySummary.RowAverage | scripts/cluster_call_types_hdbscan.py:46 | `AvgCalls` is the mean `total_calls` of the label's rows |
| DensitySummary.RowTopRanked | scripts/cluster_call_types_hdbscan.py:63-66 | top types in non-increasing summed count, and no positive type left out beats a listed one |
| DensitySummary.Summary | scripts/cluster_call_types_hdbscan.py:44-47 | one line per distinct label, -1 included, labels strictly ascending |
| DensitySummary.MembersAddUp | scripts/cluster_call_types_hdbscan.py:44-45 | `Neighborhoods` over the summary adds up to the number of matrix rows |
| DensitySummary.InClusterIff | scripts/cluster_call_types_hdbscan.py:56-57 | a name is in cluster k exactly when some matrix row with that name carries k |
| DensitySummary.RecordsOfType | scripts/cluster_call_types_hdbscan.py:50-54 | the count of a type's records in a cluster is at most the number of records |
| DensitySummary.PairCountCons | scripts/cluster_with_gmm_bic.py:23 | a pair count grows by one exactly for a record of that pair |
| DensitySummary.RecordsOfTypeSplit | scripts/cluster_call_types_hdbscan.py:56-61 | with distinct rows, a type's records in a cluster split row by row without double counting |
| DensitySummary.SumOverRows | scripts/cluster_call_types_hdbscan.py:59-61 | summing the per-row counts of a type over a label's rows counts that type's records in the label's neighbourhoods |
| DensitySummary.ColumnTypeTotal | scripts/cluster_call_types_hdbscan.py:57-61 | in a matrix whose column holds the per-row counts, a label's summed count of the type is its record count |
| DensitySummary.CrosstabTypeTotal | scripts/cluster_call_types_hdbscan.py:50-61 | after the left merge, a label's summed count of a type is that type's records across the label's neighbourhoods |
| Outliers.NoiseNames | scripts/summarize_hdbscan_outliers.py:18 | a name is an outlier name exactly when the label file lists it with label -1 |
| Outliers.OutlierCalls | scripts/summarize_hdbscan_outliers.py:19 | `outlier_df` holds exactly the records whose neighbourhood is an outlier name, each as many times as it occurs among the records |
| Outliers.OutliersAreNoise | scripts/summarize_hdbscan_outliers.py:18-19 | with one label-file row per name, every outlier record's neighbourhood is labelled -1 |
| Outliers.OutlierMembership | scripts/summarize_hdbscan_outliers.py:18-19 | a filtered record is an outlier record exactly when its neighbourhood is listed with label -1 |
| Outliers.RowOf | scripts/summarize_hdbscan_outliers.py:22-40 | an outlier line: `Total Calls` is the neighbourhood's positive record count; 1 to 3 top types ranked by frequency |
| Outliers.Report | scripts/summarize_hdbscan_outliers.py:39-43 | one line per outlier neighbourhood with records, no line twice, no other line |
| Outliers.ReportTotal | scripts/summarize_hdbscan_outliers.py:39-40 | `Total Calls` adds up to the number of outlier records |
| Outliers.OutlierSummary | scripts/summarize_hdbscan_outliers.py:9-43 | every line of the whole report has a positive total and a non-empty top list of at most 3 |
| MapPrep.CleanPolygons | scripts/generate_interactive_map.py:17 | polygon names are normalised, centroids and order kept |
| MapPrep.ValueCountsLookup | scripts/generate_interactive_map.py:27-29 | a name looked up in `value_counts` finds its number of occurrences, 0 when it has none |
| MapPrep.CallVolumesCount | scripts/generate_interactive_map.py:29-30 | a polygon's `call_count` is its filtered record count, 0 for a polygon without calls |
| MapPrep.ValueCountsTotal | scripts/generate_interactive_map_with_call_type_clusters.py:27-28 | the `call_count` column of `value_counts` adds up to the number of filtered records |
| MapPrep.CallVolumesTotal | scripts/generate_interactive_map_with_call_type_clusters.py:31-34 | with distinct polygon names covering every record, the polygon volumes add up to the record count |
| MapPrep.VariesIff | scripts/generate_interactive_map.py:48 | `nunique() > 1` holds exactly when two volumes differ |
| MapPrep.VolumeClusters | scripts/generate_interactive_map_with_call_type_clusters.py:37-40 | the bins when the volumes vary, cluster 0 for every polygon otherwise |
| MapPrep.ConstantVolumes | scripts/generate_interactive_map.py:48-51 | equal volumes everywhere send every polygon to cluster 0 |
| MapPrep.TopTypesOf | scripts/generate_interactive_map.py:33-45 | a polygon gets top types exactly when it has records, then 1 to 3 of them, ranked |
| MapPrep.UnfilteredTopTypes | scripts/generate_interactive_map_with_call_type_clusters.py:43-56 | for a real name, top types from the unfiltered records equal top types from the filtered ones |
| MapPrep.ColourIndex | scripts/generate_interactive_map.py:84-91 | `int(cluster) % 4` is a valid index into the 4 colours and differs from the label by a multiple of 4 |
| MapPrep.ColourIndexPeriodic | scripts/generate_interactive_map.py:91 | labels four apart share a colour |
| MapPrep.LabelColour | scripts/map_cluster_vs_priority_overlay.py:27-34 | a label within the palette gets its colour; a missing or out-of-range label gets "#cccccc" |
| MapPrep.ComputeWeight | scripts/map_cluster_vs_priority_overlay.py:55-60 | the weight is at least 1, equals 5 - p for p ≤ 4, and is 1 for p ≥ 4 and for an unparsable priority |
| MapPrep.WeightMonotone | scripts/generate_interactive_map.py:116-121 | a smaller priority number never weighs less |
| MapPrep.Centroid | scripts/generate_interactive_map.py:101 | a name has a centroid exactly when some polygon carries it, namely that of the last such polygon |
| MapPrep.LastAt | scripts/generate_interactive_map.py:101 | `dict(zip(...))` keeps the last polygon of a repeated name |
| MapPrep.WeightedHeatPoints | scripts/generate_interactive_map.py:123-129 | no more points than records, every weight at least 1 |
| MapPrep.HeatPointsLocated | scripts/generate_interactive_map.py:104-109 | exactly one heat point per record whose neighbourhood has a polygon, in record order, at its centroid |
| MapPrep.WeightedHeatPointsLocated | scripts/map_cluster_vs_priority_overlay.py:62-68 | exactly one weighted point per such record, carrying that record's weight |
| MapPrep.SameLocations | scripts/generate_interactive_map_with_call_type_clusters.py:106-130 | the density and priority layers place their points at the same centroids |
| MapPrep.PcaHeatPointsAgree | scripts/map_pca_clusters_vs_priority.py:61-68 | after the second normalisation and the polygon filter the direct lookup never fails, and polygon membership is the only filter |
| Scripts.GmmMatrix | scripts/cluster_with_gmm_bic.py:23-24 | the mixture scripts' matrix is exactly the crosstab of the filtered records |
| Scripts.LabelledSummary | scripts/cluster_with_gmm_bic.py:53-83 | a summary exists exactly when the labelling has one label per matrix row |
| Scripts.GmmBic | scripts/cluster_with_gmm_bic.py:34-41 | the chosen size is in 2..9 and the summary is that of a mixture with minimal score, the first such size when scores tie |
| Scripts.GmmJoinKeepsAll | scripts/cluster_with_gmm.py:43 | the merge with the label table keeps every filtered record |
| Scripts.GmmMembersAddUp | scripts/cluster_with_gmm_bic.py:79 | `Neighborhoods` over the mixture summary adds up to the number of matrix rows |
| Scripts.Gmm | scripts/cluster_with_gmm.py:35-65 | the fixed-size mixture script gives a summary exactly when there is one label per matrix row |
| Scripts.Hdbscan | scripts/cluster_call_types_hdbscan.py:35 | a summary exists exactly when the labelling has one label per matrix row |
| Scripts.HdbscanMembersAddUp | scripts/cluster_call_types_hdbscan.py:44-45 | `Neighborhoods` over the density summary adds up to the number of matrix rows |
| Scripts.SummarizeClusters | scripts/summarize_call_type_clusters.py:18-37 | every line has `Neighborhoods` ≥ 1 and lines come in ascending label order |
| Scripts.SummarizeKeeps | scripts/summarize_call_type_clusters.py:13-14 | a record survives exactly when its normalised name appears in the label file |
| Scripts.PcaFrame | scripts/cluster_with_pca_agglomerative.py:11 | no kept record has a placeholder name |
| Scripts.PcaFrameNormal | scripts/cluster_with_pca_agglomerative.py:9-10 | every kept record has a normalised name and type |
| Scripts.PcaKeysNormal | scripts/cluster_with_pca_agglomerative.py:13-17 | every row and column key of the matrix is normalised, so case and padding variants share one row or column |
| Scripts.PcaClusters | scripts/cluster_with_pca_agglomerative.py:30 | the cluster column exists exactly when there is one label per matrix row, and pairs row i's neighbourhood with label i |
| Scripts.Layers | scripts/generate_interactive_map.py:27-129 | one volume, cluster and top-type entry per polygon, and as many weighted as plain heat points |
| Scripts.InteractiveMap | scripts/generate_interactive_map.py:21-45 | one volume and top-type entry per polygon; a polygon's top types are present exactly when its name has filtered records, and are then the top 3 of those records' call types as read |
| Scripts.CallTypeClustersMap | scripts/generate_interactive_map_with_call_type_clusters.py:21-56 | one volume and top-type entry per polygon; a polygon's top types are present exactly when any record, placeholder names included, has its name, and are then the top 3 of those records' normalised call types |
| Scripts.VolumeColours | scripts/generate_interactive_map.py:84-91 | every polygon gets one of the four palette colours |
| Scripts.MapsAgree | scripts/generate_interactive_map_with_call_type_clusters.py:24-56 | both interactive maps agree on volumes, clusters and heat; the call-type map's top types for a real name equal those of the filtered, type-normalised records |
| Scripts.MapsDiffer | scripts/generate_interactive_map.py:33-45 | with fewer than 3 distinct types in a neighbourhood, a type not in normal form is listed by the first map and not by the call-type map, so the two maps' top types differ |
| Scripts.CallTypeClusters | scripts/generate_interactive_map_with_call_type_clusters.py:58-70 | the matrix rows and columns are those of the crosstab of the filtered records: one row per distinct filtered name and one column per call type as read, both ascending; each row's shares sum to 1 and times `total_calls` give back the pair counts; `total_calls` is the name's positive record count; the labels are present exactly when there is one per row, paired with the rows in order |
| Scripts.CallTypeColumnsAsRead | scripts/generate_interactive_map_with_call_type_clusters.py:24-70 | a filtered record whose call type is not in normal form makes that type a matrix column, yet no polygon lists it among its top types |
| Scripts.MapTopTypesNormal | scripts/generate_interactive_map_with_call_type_clusters.py:43-56 | every type the call-type map lists is in normal form |
| Scripts.LayersMeaning | scripts/generate_interactive_map.py:27-129 | volumes are per-polygon record counts and the heat layers are the per-record centroid and weight of the located records |
| Scripts.OverlayColours | scripts/map_cluster_vs_priority_overlay.py:21-34 | every polygon gets a palette colour or grey; grey whenever the label file does not list its name; and the palette entry of its label whenever that label indexes the palette |
| Scripts.CallTypeOverlayColours | scripts/map_cluster_vs_priority_overlay.py:21-34 | with one palette colour per distinct label in the label file, a polygon whose name the file lists gets the colour of its label when that label is below the number of distinct labels, and grey otherwise; an unlisted polygon is grey |
| Scripts.PcaOverlayColours | scripts/map_pca_clusters_vs_priority.py:22-42 | with one palette colour per distinct label the polygons received after the left merge, a labelled polygon gets the colour of its label when that label is below that number, and grey otherwise; an unlabelled polygon is grey |
| Scripts.CallTypeOverlayColoursListed | scripts/map_cluster_vs_priority_overlay.py:27-34 | when the labels are `0 .. n-1`, every polygon the label file lists gets the palette colour of its own label |
| Scripts.OverlayHeat | scripts/map_cluster_vs_priority_overlay.py:62-68 | every overlay heat weight is at least 1 |
| Scripts.PcaOverlayHeat | scripts/map_pca_clusters_vs_priority.py:61-68 | the PCA overlay's points are the weighted points of every normalised record with a polygon |

## Left out

- Scaling, PCA, Gaussian mixture fitting, prediction and BIC, HDBSCAN, k-means and
  agglomerative clustering are floating-point library code. Their outputs (labels,
  scores) are inputs of the model.
- `pd.qcut` quantile binning is float interpolation. The bins are an input, one per
  polygon; only the constant-volume fallback is modelled.
- Python's `int()` on a priority is an input. The record holds it as `Option<int>`,
  `None` where `int()` raises.
- Rounding to two decimals in `summarize_call_type_clusters.py` and the `", "` join
  of top types: the model keeps the exact mean and the list.
- Rendering (folium, branca, matplotlib colour maps, HTML and PNG output). The
  overlay palettes from matplotlib are an input. The three rendering-only scripts,
  the population density map and its fuzzy matching are not modelled.
- Geospatial work: GeoJSON loading, reprojection and centroid computation. A
  centroid is an opaque value.
- CSV reading and writing, `os.makedirs`, the date-keyed dataset merge and the
  weather fetch.
- Unicode case folding and whitespace: `lower`/`strip` are modelled over ASCII
  letters and the ASCII whitespace characters Python strips.
- Missing call types: pandas drops NaN group keys, while the model treats every call
  type as text. A record with a missing type is not modelled.
- Row order of `value_counts()` (by descending count) in the outlier report and the
  volume merge. The model lists lines in ascending name order; only their contents
  are claimed.
- Label files that list a neighbourhood twice: a left merge would duplicate records.
  The model's join uses the first matching row. The files the scripts write have
  one row per name.
- The check `if 'call_count' not in gdf_web.columns` in
  `generate_interactive_map_with_call_type_clusters.py` cannot fire after the merge
  and is not modelled.
- The `is not None` test on the PCA cluster of a polygon without a label: the model
  gives such a polygon `None` and so grey.
- TopTypes.TopOf: fixes one tie order among equal counts. It claims the ranking
  properties and how many types are listed, not which of several tied types
  pandas would keep or in what order.
- MapPrep.WeightedHeatPoints: coordinates are the opaque centroid, not the
  `[y, x]` pair the heat layer receives.
