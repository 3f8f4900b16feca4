# Keyframe selection and annotation scaffolding, modelled in Dafny

The script `scripts/kmeans_frame_selection.py` prepares a multi-camera
video recording for keypoint annotation. It has four core steps:

- It reads the frames of a main camera in order, up to the reported frame count or the first failed read.
- It clusters those frames with k-means.
- It takes a fixed number of evenly spaced frames from each cluster and sorts the chosen frame indices.
- For every camera, it reads the frames at those indices and writes an
  annotation table. The table has four header rows: scorer, entities, bodyparts and coords. It then has one placeholder row per extracted frame, named `Frame_<index>.jpg`.

This project models those four steps and proves what they promise. It is
organised as one module per concern:

| module | file | what it models |
|---|---|---|
| `Common` | common.dfy | results, options, ordering and counting predicates |
| `Arith` | arith.dfy | integer multiplication and floor-division facts |
| `FrameCollection` | collection.dfy | the frame-collection loop, as a method with a loop |
| `Linspace` | linspace.dfy | `np.linspace(0, len - 1, num, dtype=int)`, as an exact integer function |
| `Sorting` | sorting.dfy | `sorted(...)`, as an insertion-sort function |
| `ClusterSampling` | sampling.dfy | the per-cluster budgeted sampling: a specification function `Selection` and the loops `SelectFrames` / `SampleClusters` proved against it |
| `FrameExtraction` | extraction.dfy | `extract_specific_frames`, as a loop proved against the function `Extracted` |
| `Decimal` | decimal.dfy | `str(i)` for a frame index and the file name `Frame_<i>.jpg` |
| `AnnotationTable` | table.dfy | the rows of `create_csv_file`: header and data rows built by loops, proved against the function `Table` |

External systems become inputs:

- **The video decoder.** For frame collection it is a sequence of read outcomes; a read past the end fails. For extraction it is a map from the indices that read successfully to their frames.
- **The k-means fit.** It is a sequence of cluster labels, one per collected frame. The only part of the fit modelled is when scikit-learn rejects the cluster count. That happens below one cluster, or above the number of frames, which includes an empty frame list.
- **YAML lookups.** These are option values.

Errors the script raises are `Err` results. Floor division `num_frames // n_clusters` has a positive divisor, so it agrees with Dafny's `/` for negative `num_frames` too.

The model follows the script as written. In particular:

- The sampled indices are not deduplicated.
- A cluster sampled once contributes its first member, not a middle one.
- An index requested twice is extracted twice.
- Repeats are kept when a cluster has fewer members than its share. `SelectionDistinctIff` and `ClusterPicksRepeats` state exactly when repeats occur.

## Model

| member | source | states |
|---|---|---|
| FrameCollection.CollectFrames | scripts/kmeans_frame_selection.py:85-94 | the recorded indices are exactly 0 .. p-1, one feature per index; p is capped by the reported frame count (0 when that is not positive); each recorded feature is the successful read at its index; stopping early means the next read failed |
| Linspace.Positions | scripts/kmeans_frame_selection.py:104 | the `num` positions `np.linspace(0, len - 1, num, dtype=int)` picks, as an exact floor: 0 for a single pick, otherwise floor(j * (len - 1) / (num - 1)); there are exactly `num` of them |
| Linspace.PositionsInRange | scripts/kmeans_frame_selection.py:104 | every linspace position lies in 0 .. len-1 |
| Linspace.PositionsEndpoints | scripts/kmeans_frame_selection.py:104 | the first position is 0 (so a single pick is the first member); with two or more picks the last is exactly len-1 |
| Linspace.PositionsNondecreasing | scripts/kmeans_frame_selection.py:104 | the positions are ascending |
| Linspace.PositionsStrictWhenEnoughMembers | scripts/kmeans_frame_selection.py:104 | with at least as many members as picks, no position repeats |
| Linspace.PositionsRepeatWhenTooFewMembers | scripts/kmeans_frame_selection.py:104 | with fewer members than picks, two consecutive positions coincide |
| Sorting.Insert | scripts/kmeans_frame_selection.py:109 | inserting into an ascending list gives an ascending list holding the same entries plus the new one |
| Sorting.SortAscending | scripts/kmeans_frame_selection.py:109 | the result is ascending and a permutation of the input |
| Sorting.SortKeepsSorted | scripts/kmeans_frame_selection.py:109 | an already ascending list is returned unchanged |
| Sorting.SortKeepsCounts | scripts/kmeans_frame_selection.py:109 | sorting keeps how many entries fall in any set |
| Sorting.SortKeepsBound | scripts/kmeans_frame_selection.py:109 | sorting keeps every entry below a bound the input respects |
| Sorting.SortedDistinctIsStrict | scripts/kmeans_frame_selection.py:109 | the sorted list is strictly ascending exactly when the input repeats nothing |
| ClusterSampling.Members | scripts/kmeans_frame_selection.py:103 | `np.where(labels == c)[0]`, built position by position; never more members than frames |
| ClusterSampling.MembersSpec | scripts/kmeans_frame_selection.py:103 | `np.where(labels == c)` lists exactly the positions labelled c, strictly ascending |
| ClusterSampling.ClusterPicks | scripts/kmeans_frame_selection.py:104-105 | each cluster that can be sampled yields exactly per_cluster frame indices |
| ClusterSampling.ClusterPicksAt | scripts/kmeans_frame_selection.py:103-105 | pick j is the member at linspace position j, and that position indexes the member list |
| ClusterSampling.ClusterPicksLabelled | scripts/kmeans_frame_selection.py:103-105 | every frame picked for cluster c is labelled c |
| ClusterSampling.ClusterPicksSorted | scripts/kmeans_frame_selection.py:103-105 | the picks of one cluster follow frame order |
| ClusterSampling.ClusterPicksRepeats | scripts/kmeans_frame_selection.py:104-105 | the picks are strictly increasing when the cluster has at least per_cluster members; otherwise one frame is picked twice in a row |
| ClusterSampling.ClusterPicksDistinctIff | scripts/kmeans_frame_selection.py:103-105 | one cluster's picks repeat nothing exactly when it has at least per_cluster members |
| ClusterSampling.Sample | scripts/kmeans_frame_selection.py:101-105 | the list `sampled_indices` after clusters 0 .. n-1, or the IndexError of an empty cluster; any error it gives is an empty-cluster error for a cluster below n |
| ClusterSampling.Selection | scripts/kmeans_frame_selection.py:96-109 | what `kmeans_select_frames` returns after collection: fit failure, the negative-count error, the sampling error, or the sorted sample; a returned list is ascending and an empty-cluster error names a cluster below n_clusters |
| ClusterSampling.SampleClusters | scripts/kmeans_frame_selection.py:101-105 | the sampling loop returns the concatenated picks of clusters 0 .. n-1, or the IndexError of the first empty cluster asked for picks, as the function `Sample` defines |
| ClusterSampling.SelectFrames | scripts/kmeans_frame_selection.py:96-109 | the method returns what `Selection` defines (fit failure, negative-count error, empty-cluster error, or the sorted picks), and a returned list is ascending |
| ClusterSampling.SampleErrorPersists | scripts/kmeans_frame_selection.py:102-105 | after an error, later clusters change nothing |
| ClusterSampling.SampleOkIff | scripts/kmeans_frame_selection.py:102-105 | the loop completes exactly when no cluster is empty while picks are asked for |
| ClusterSampling.SampleFirstError | scripts/kmeans_frame_selection.py:102-105 | a failing loop names the first empty cluster, and every earlier cluster is usable |
| ClusterSampling.SampleLength | scripts/kmeans_frame_selection.py:101-105 | the loop collects n_clusters * per_cluster indices |
| ClusterSampling.SampleLabelsBelow | scripts/kmeans_frame_selection.py:101-105 | over the collected indices 0 .. p-1, everything sampled from clusters 0 .. n-1 is a collected frame whose label is below n |
| ClusterSampling.SampleCounts | scripts/kmeans_frame_selection.py:101-105 | each cluster contributes exactly per_cluster indices to the sample |
| ClusterSampling.SampleApartFromNext | scripts/kmeans_frame_selection.py:102-105 | the picks of the next cluster share no frame with what is already sampled |
| ClusterSampling.SampleDistinctIff | scripts/kmeans_frame_selection.py:101-105 | the concatenated sample repeats nothing exactly when every cluster has at least per_cluster members |
| ClusterSampling.SelectionOutcome | scripts/kmeans_frame_selection.py:97-109 | the fit fails exactly for a cluster count outside 1 .. #frames; the negative-count error happens exactly for a negative budget; any other error is the first empty cluster; a list is returned exactly when the budget is below the cluster count or no cluster is empty |
| ClusterSampling.SelectionIsSortedSample | scripts/kmeans_frame_selection.py:100-109 | a returned list is the sorted concatenation of the picks and has n_clusters * (num_frames // n_clusters) entries |
| ClusterSampling.SortedSampleCounts | scripts/kmeans_frame_selection.py:105-109 | after sorting, each cluster still accounts for per_cluster entries |
| ClusterSampling.SelectionResult | scripts/kmeans_frame_selection.py:87-109 | with collected indices 0 .. p-1, the returned list is a permutation of the concatenated picks, every entry is below p, and each cluster gives exactly num_frames // n_clusters entries |
| ClusterSampling.SelectionBudget | scripts/kmeans_frame_selection.py:100-109 | the list has num_frames entries when n_clusters divides num_frames, and is empty when num_frames < n_clusters |
| ClusterSampling.SelectionDistinctIff | scripts/kmeans_frame_selection.py:100-109 | the returned list is strictly ascending (no repeats) exactly when every cluster has at least num_frames // n_clusters members |
| FrameExtraction.Extracted | scripts/kmeans_frame_selection.py:69-75 | never more frames than requests; each kept pair holds a readable index and the frame read there |
| FrameExtraction.ExtractSpecificFrames | scripts/kmeans_frame_selection.py:63-77 | the loop returns `Extracted` of the requests: at most one pair per request, each pair carrying its own index and frame |
| FrameExtraction.ExtractedSubsequence | scripts/kmeans_frame_selection.py:69-75 | the kept indices are the readable requests, at strictly increasing request positions, with every readable request kept and no retry |
| FrameExtraction.ExtractedCount | scripts/kmeans_frame_selection.py:69-75 | the number kept is the number of readable requests, and equals the number requested exactly when all of them read |
| FrameExtraction.ExtractedKeepsOrder | scripts/kmeans_frame_selection.py:69-75 | ascending (or strictly ascending) requests give kept indices in the same order |
| Decimal.NatToString | scripts/kmeans_frame_selection.py:155 | `str(i)` is a canonical digit string, one character exactly for i < 10 |
| Decimal.ParseNatToString | scripts/kmeans_frame_selection.py:155 | reading back the decimal text of i gives i |
| Decimal.NatToStringParse | scripts/kmeans_frame_selection.py:155 | every canonical digit string is the text of its value |
| Decimal.NatToStringInjective | scripts/kmeans_frame_selection.py:155 | different indices have different texts |
| Decimal.FrameFileName | scripts/kmeans_frame_selection.py:155 | `f"Frame_{i}.jpg"`: the prefix `Frame_`, the suffix `.jpg` and only digits between them |
| Decimal.FrameFileNameParts | scripts/kmeans_frame_selection.py:155 | `Frame_<i>.jpg` has its prefix and suffix, and the middle reads back as i |
| Decimal.FrameFileNameInjective | scripts/kmeans_frame_selection.py:155 | two frames get the same file name exactly when they have the same index |
| AnnotationTable.TripletEntities | scripts/kmeans_frame_selection.py:137-140 | the entity of each (entity, keypoint) pair, entity-outer and keypoint-inner; every entry is one of the entities |
| AnnotationTable.TripletKeypoints | scripts/kmeans_frame_selection.py:137-141 | the keypoint of each pair: the keypoint list once per entity; every entry is one of the keypoints |
| AnnotationTable.TripletEntitiesCount | scripts/kmeans_frame_selection.py:122 | one triplet per (entity, keypoint) pair |
| AnnotationTable.TripletKeypointsCount | scripts/kmeans_frame_selection.py:122 | one triplet per (entity, keypoint) pair |
| AnnotationTable.TripletEntityAt | scripts/kmeans_frame_selection.py:137-140 | triplet e*K + k belongs to entity e |
| AnnotationTable.TripletKeypointAt | scripts/kmeans_frame_selection.py:137-141 | triplet e*K + k belongs to keypoint k |
| AnnotationTable.EntitiesRow | scripts/kmeans_frame_selection.py:128-140 | header row 2 has 1 + 3*E*K cells |
| AnnotationTable.BodypartsRow | scripts/kmeans_frame_selection.py:131-141 | header row 3 has 1 + 3*E*K cells |
| AnnotationTable.CoordsRow | scripts/kmeans_frame_selection.py:134-142 | header row 4 has 1 + 3*E*K cells |
| AnnotationTable.Table | scripts/kmeans_frame_selection.py:124-158 | four header rows plus one row per frame, each 1 + 3*E*K cells wide |
| AnnotationTable.BuildHeader | scripts/kmeans_frame_selection.py:124-142 | the header loops produce the scorer row and header rows 2 to 4 of `Table` |
| AnnotationTable.AddEntityTriplets | scripts/kmeans_frame_selection.py:138-142 | one entity's inner loop appends its name three times per keypoint, each keypoint three times, and `x, y, state` per keypoint |
| AnnotationTable.EntitiesRowStep | scripts/kmeans_frame_selection.py:137-140 | one more entity extends header row 2 by that entity's triplets |
| AnnotationTable.DataRow | scripts/kmeans_frame_selection.py:155-157 | a frame's row: 1 + 3*E*K cells, its file name first, then `"", "", "0"` repeated |
| AnnotationTable.BuildDataRow | scripts/kmeans_frame_selection.py:155-157 | a frame's row is its file name followed by E*K placeholder triplets |
| AnnotationTable.BuildDataRows | scripts/kmeans_frame_selection.py:154-158 | one data row per extracted frame, in order |
| AnnotationTable.CreateCsvRows | scripts/kmeans_frame_selection.py:111-158 | a missing keypoint list raises KeyError; otherwise the rows written are exactly `Table` of the entities (default `["entity"]`), keypoints and frame indices |
| AnnotationTable.HeaderCell | scripts/kmeans_frame_selection.py:137-142 | the three columns of keypoint k of entity e exist and hold entity e in row 2, keypoint k in row 3 and x, y, state in row 4 |
| AnnotationTable.DataCells | scripts/kmeans_frame_selection.py:154-157 | data row j is named after frame j, and each triplet holds `"", "", "0"` |
| AnnotationTable.DataRowNamesDistinct | scripts/kmeans_frame_selection.py:154-155 | distinct frame indices give data rows with distinct names |
| AnnotationTable.SyncedRowNamesDistinct | scripts/kmeans_frame_selection.py:184-193 | when the selected indices are strictly ascending, each camera's table, built from the frames extracted at those indices, names every data row differently |

Some lemmas only unfold these definitions one step for the proofs above. They have no row of their own:

- `ClusterSampling.SelectionFromSample`, `SampleStops`, `SampleStep`, `SampleAppends` and `SampleOkStep` unfold `Selection` and `Sample`.
- `AnnotationTable.BodypartsRowStep`, `CoordsRowStep` and `HeaderLabels` unfold `Table`.
- `FrameExtraction.IndicesOf` and `AnnotationTable.EntitiesOrDefault` are plain definitions.
- The arithmetic and counting lemmas of `Arith`, `Common` and `Sorting` are proof helpers too.

## Left out

- Video decoding, seeking, resizing (line 92) and `cv2.imwrite` (line 196) are OpenCV calls. They become the decoder inputs described above. The feature of a frame is the decoded frame itself, and no pixel content is modelled.
- The k-means fit (lines 97-98) is a randomised floating-point library call. Its labels are an input; only its rejection of the cluster count is modelled.
- ClusterSampling.SelectFrames: does not require each label to be below `n_clusters`. The script does not check this either. A label outside `0 .. n_clusters - 1` is never sampled.
- Linspace.Positions: the positions are computed with exact integer floor division. numpy computes `j * step` in double precision and then truncates, and ordinary sizes hit the difference. For 31 members and 23 picks (`num_frames=46`, `n_clusters=2`), `11 * (30/22)` evaluates to `14.999999999999998`, so numpy picks position 14 where the model picks 15. For 3 members and 99 picks, `49 * (2/98)` gives `0.9999999999999999`, so numpy picks 0 where the model picks 1. The difference changes which member is picked. The model does not prove its properties (counts, labels, bounds, order, no repeats with enough members) for numpy's rounded positions.
- `csv.writer` quoting and line endings, and the file writes themselves (lines 144-158): the model stops at the rows as lists of strings.
- YAML loading and creation and every `input()` prompt (lines 17-44, 179, 200-211). This includes the single re-prompt at lines 209-211, which never re-checks divisibility. For that reason nothing in the model assumes `num_frames % n_clusters == 0`.
- `locate_videos_folder`, `create_annotation_folders` and `get_total_frames` (lines 11-15, 46-61): filesystem and metadata wrappers. The reported frame count is an input to `CollectFrames`.
- The per-camera driver (lines 162-197): directory listing, `glob`, path joins and the saving loop. The model keeps only how its three steps connect, in `SyncedRowNamesDistinct`.
- `print` diagnostics, `tqdm` progress bars, `del` and `gc.collect()`: none of them has an observable logical effect.
