/** The rows `create_csv_file` writes (scripts/kmeans_frame_selection.py,
    lines 111-158): four header rows in the layout of a keypoint-annotation
    table, then one placeholder row per extracted frame. Each (entity,
    keypoint) pair owns a triplet of three columns, x, y and state; pairs
    run entity by entity, keypoints inner. Rows are lists of cell strings;
    how the csv module quotes them into a file is not part of this model. */
module AnnotationTable {
  import opened Common
  import Decimal
  import FrameExtraction
  import Arith

  /** `yaml_data["Keypoints"]` raises KeyError when the key is absent. */
  datatype TableError = MissingKeypoints

  /** The labels of the three columns of one triplet, in header row 4. */
  const CoordLabels: seq<string> := ["x", "y", "state"]

  /** The placeholders of one triplet in a data row: empty x and y, state 0. */
  const Placeholders: seq<string> := ["", "", "0"]

  /** `yaml_data.get("Entities", ["entity"])`. */
  function EntitiesOrDefault(entities: Option<seq<string>>): (r: seq<string>)
    ensures entities.Some? ==> r == entities.value
    ensures entities.None? ==> r == ["entity"]
  {
    if entities.Some? then entities.value else ["entity"]
  }

  /** Column of cell `c` (0, 1, 2) of triplet `t`, after the label column. */
  function Col(t: nat, c: nat): nat {
    1 + 3 * t + c
  }

  /** Column `Col(t, c)` is coordinate `c` of triplet `t`. */
  lemma ColParts(t: nat, c: nat)
    requires c < 3
    ensures (3 * t + c) / 3 == t && (3 * t + c) % 3 == c
  {
    Arith.DivIsUnique(3 * t + c, 3, t);
  }

  /** Triplet number of keypoint `k` of entity `e` when each entity has
      `perEntity` keypoints. */
  function TripletOf(perEntity: nat, e: nat, k: nat): nat {
    e * perEntity + k
  }

  /** Each value three times over, in order: cell `i` holds value `i / 3`. */
  function Spread(xs: seq<string>): (r: seq<string>)
    ensures |r| == 3 * |xs|
  {
    seq(3 * |xs|, i requires 0 <= i < 3 * |xs| => xs[i / 3])
  }

  lemma SpreadPush(xs: seq<string>, x: string)
    ensures Spread(xs + [x]) == Spread(xs) + [x, x, x]
  {
    var a, b := Spread(xs + [x]), Spread(xs) + [x, x, x];
    forall i | 0 <= i < |a|
      ensures a[i] == b[i]
    {
      if i < 3 * |xs| {
        assert i / 3 < |xs|;
      } else {
        assert i / 3 == |xs|;
      }
    }
  }

  lemma SpreadAppend(xs: seq<string>, ys: seq<string>)
    ensures Spread(xs + ys) == Spread(xs) + Spread(ys)
  {
    var a, b := Spread(xs + ys), Spread(xs) + Spread(ys);
    forall i | 0 <= i < |a|
      ensures a[i] == b[i]
    {
      if i < 3 * |xs| {
        assert i / 3 < |xs|;
      } else {
        assert i / 3 - |xs| == (i - 3 * |xs|) / 3;
      }
    }
  }

  /** `n` copies of a three-cell `pattern`: cell `i` is `pattern[i % 3]`. */
  function Cycle(pattern: seq<string>, n: nat): (r: seq<string>)
    requires |pattern| == 3
    ensures |r| == 3 * n
  {
    seq(3 * n, i requires 0 <= i < 3 * n => pattern[i % 3])
  }

  lemma CycleAppend(pattern: seq<string>, m: nat, n: nat)
    requires |pattern| == 3
    ensures Cycle(pattern, m + n) == Cycle(pattern, m) + Cycle(pattern, n)
  {
    var a, b := Cycle(pattern, m + n), Cycle(pattern, m) + Cycle(pattern, n);
    forall i | 0 <= i < |a|
      ensures a[i] == b[i]
    {
      if i >= 3 * m {
        assert i % 3 == (i - 3 * m) % 3;
      }
    }
  }

  /** The entity of each triplet: every entity once per keypoint. */
  function TripletEntities(entities: seq<string>, perEntity: nat): (r: seq<string>)
    ensures forall k :: 0 <= k < |r| ==> r[k] in entities
  {
    if entities == [] then []
    else
      TripletEntities(entities[..|entities| - 1], perEntity) + seq(perEntity, _ => entities[|entities| - 1])
  }

  /** The keypoint of each triplet: the keypoint list once per entity. */
  function TripletKeypoints(entityCount: nat, keypoints: seq<string>): (r: seq<string>)
    ensures forall k :: 0 <= k < |r| ==> r[k] in keypoints
  {
    if entityCount == 0 then []
    else
      TripletKeypoints(entityCount - 1, keypoints) + keypoints
  }

  /** One entry per (entity, keypoint) pair in each triplet list. */
  lemma {:induction false} TripletEntitiesCount(entities: seq<string>, perEntity: nat)
    ensures |TripletEntities(entities, perEntity)| == |entities| * perEntity
  {
    if entities != [] {
      TripletEntitiesCount(entities[..|entities| - 1], perEntity);
      Arith.MulSucc(|entities| - 1, perEntity);
    }
  }

  lemma {:induction false} TripletKeypointsCount(entityCount: nat, keypoints: seq<string>)
    ensures |TripletKeypoints(entityCount, keypoints)| == entityCount * |keypoints|
  {
    if entityCount > 0 {
      TripletKeypointsCount(entityCount - 1, keypoints);
      Arith.MulSucc(entityCount - 1, |keypoints|);
    }
  }

  /** Triplet numbers of distinct pairs fill 0 .. entityCount * perEntity - 1. */
  lemma TripletInRange(entityCount: nat, perEntity: nat, e: nat, k: nat)
    requires e < entityCount && k < perEntity
    ensures TripletOf(perEntity, e, k) < entityCount * perEntity
  {
    Arith.MulSucc(e, perEntity);
    Arith.MulMonotone(e + 1, entityCount, perEntity);
  }

  /** Triplet `e * K + k` belongs to entity `e`... */
  lemma {:induction false} TripletEntityAt(entities: seq<string>, perEntity: nat, e: nat, k: nat)
    requires e < |entities| && k < perEntity
    ensures TripletOf(perEntity, e, k) < |TripletEntities(entities, perEntity)|
    ensures TripletEntities(entities, perEntity)[TripletOf(perEntity, e, k)] == entities[e]
  {
    var n := |entities| - 1;
    var init := entities[..n];
    TripletEntitiesCount(init, perEntity);
    TripletEntitiesCount(entities, perEntity);
    TripletInRange(|entities|, perEntity, e, k);
    if e < n {
      TripletEntityAt(init, perEntity, e, k);
    }
  }

  /** ... and to keypoint `k`. */
  lemma {:induction false} TripletKeypointAt(entityCount: nat, keypoints: seq<string>, e: nat, k: nat)
    requires e < entityCount && k < |keypoints|
    ensures TripletOf(|keypoints|, e, k) < |TripletKeypoints(entityCount, keypoints)|
    ensures TripletKeypoints(entityCount, keypoints)[TripletOf(|keypoints|, e, k)] == keypoints[k]
  {
    TripletKeypointsCount(entityCount - 1, keypoints);
    TripletKeypointsCount(entityCount, keypoints);
    TripletInRange(entityCount, |keypoints|, e, k);
    if e < entityCount - 1 {
      TripletKeypointAt(entityCount - 1, keypoints, e, k);
    }
  }

  /** Header rows 2 to 4, as the nested loop of lines 137-142 fills them. */
  function EntitiesRow(entities: seq<string>, keypoints: seq<string>): (r: seq<string>)
    ensures |r| == 1 + 3 * (|entities| * |keypoints|)
  {
    TripletEntitiesCount(entities, |keypoints|);
    ["entities"] + Spread(TripletEntities(entities, |keypoints|))
  }

  function BodypartsRow(entities: seq<string>, keypoints: seq<string>): (r: seq<string>)
    ensures |r| == 1 + 3 * (|entities| * |keypoints|)
  {
    TripletKeypointsCount(|entities|, keypoints);
    ["bodyparts"] + Spread(TripletKeypoints(|entities|, keypoints))
  }

  function CoordsRow(entities: seq<string>, keypoints: seq<string>): (r: seq<string>)
    ensures |r| == 1 + 3 * (|entities| * |keypoints|)
  {
    ["coords"] + Cycle(CoordLabels, |entities| * |keypoints|)
  }

  /** The row of one frame: its image file name, then a placeholder
      triplet per (entity, keypoint) pair. */
  function DataRow(frameIndex: nat, tripletCount: nat): (r: seq<string>)
    ensures |r| == 1 + 3 * tripletCount
    ensures r[0] == Decimal.FrameFileName(frameIndex)
    ensures forall i :: 1 <= i < |r| ==> r[i] == Placeholders[(i - 1) % 3]
  {
    [Decimal.FrameFileName(frameIndex)] + Cycle(Placeholders, tripletCount)
  }

  /** The whole table for the given entities, keypoints and frame indices:
      four header rows and one row per frame, every row as wide as the
      label column plus three columns per (entity, keypoint) pair. */
  function Table(entities: seq<string>, keypoints: seq<string>, frameIndices: seq<nat>): (r: seq<seq<string>>)
    ensures |r| == 4 + |frameIndices|
    ensures forall row :: 0 <= row < |r| ==> |r[row]| == 1 + 3 * (|entities| * |keypoints|)
  {
    var tripletCount := |entities| * |keypoints|;
    [seq(1 + 3 * tripletCount, _ => "Scorer"),
     EntitiesRow(entities, keypoints),
     BodypartsRow(entities, keypoints),
     CoordsRow(entities, keypoints)]
    + seq(|frameIndices|, j requires 0 <= j < |frameIndices| => DataRow(frameIndices[j], tripletCount))
  }

  // ---------------------------------------------------------------------
  // The imperative code

  /** Lines 124-142: the four header rows. The outer loop runs over the
      entities; the triplets of one entity are added by `AddEntityTriplets`. */
  method BuildHeader(entities: seq<string>, keypoints: seq<string>)
    returns (row1: seq<string>, row2: seq<string>, row3: seq<string>, row4: seq<string>)
    ensures row1 == seq(1 + 3 * (|entities| * |keypoints|), _ => "Scorer")
    ensures row2 == EntitiesRow(entities, keypoints)
    ensures row3 == BodypartsRow(entities, keypoints)
    ensures row4 == CoordsRow(entities, keypoints)
  {
    var perEntity := |keypoints|;
    row1 := seq(1 + 3 * (|entities| * perEntity), _ => "Scorer");
    row2, row3, row4 := ["entities"], ["bodyparts"], ["coords"];
    for e := 0 to |entities|
      invariant row2 == EntitiesRow(entities[..e], keypoints)
      invariant row3 == BodypartsRow(entities[..e], keypoints)
      invariant row4 == CoordsRow(entities[..e], keypoints)
    {
      row2, row3, row4 := AddEntityTriplets(row2, row3, row4, entities[e], keypoints);
      EntitiesRowStep(entities, keypoints, e);
      BodypartsRowStep(entities, keypoints, e);
      CoordsRowStep(entities, keypoints, e);
    }
    assert entities[..|entities|] == entities;
  }

  /** Handling one more entity appends its name, three times per keypoint,
      to header row 2. */
  lemma EntitiesRowStep(entities: seq<string>, keypoints: seq<string>, e: nat)
    requires e < |entities|
    ensures EntitiesRow(entities[..e + 1], keypoints)
            == EntitiesRow(entities[..e], keypoints) + Spread(seq(|keypoints|, _ => entities[e]))
  {
    var done := TripletEntities(entities[..e], |keypoints|);
    var added := seq(|keypoints|, _ => entities[e]);
    assert TripletEntities(entities[..e + 1], |keypoints|) == done + added by {
      assert entities[..e + 1][..e] == entities[..e];
    }
    SpreadAppend(done, added);
  }

  /** Handling one more entity appends every keypoint, three times each,
      to header row 3. */
  lemma BodypartsRowStep(entities: seq<string>, keypoints: seq<string>, e: nat)
    requires e < |entities|
    ensures BodypartsRow(entities[..e + 1], keypoints)
            == BodypartsRow(entities[..e], keypoints) + Spread(keypoints)
  {
    SpreadAppend(TripletKeypoints(e, keypoints), keypoints);
  }

  /** Handling one more entity appends one `x, y, state` triplet per
      keypoint to header row 4. */
  lemma CoordsRowStep(entities: seq<string>, keypoints: seq<string>, e: nat)
    requires e < |entities|
    ensures CoordsRow(entities[..e + 1], keypoints)
            == CoordsRow(entities[..e], keypoints) + Cycle(CoordLabels, |keypoints|)
  {
    Arith.MulSucc(e, |keypoints|);
    CycleAppend(CoordLabels, e * |keypoints|, |keypoints|);
  }

  /** The inner loop of lines 138-142: one triplet of columns per keypoint
      of `entity`, appended to header rows 2 to 4. */
  method AddEntityTriplets(row2: seq<string>, row3: seq<string>, row4: seq<string>,
                           entity: string, keypoints: seq<string>)
    returns (next2: seq<string>, next3: seq<string>, next4: seq<string>)
    ensures next2 == row2 + Spread(seq(|keypoints|, _ => entity))
    ensures next3 == row3 + Spread(keypoints)
    ensures next4 == row4 + Cycle(CoordLabels, |keypoints|)
  {
    next2, next3, next4 := row2, row3, row4;
    for k := 0 to |keypoints|
      invariant next2 == row2 + Spread(seq(k, _ => entity))
      invariant next3 == row3 + Spread(keypoints[..k])
      invariant next4 == row4 + Cycle(CoordLabels, k)
    {
      var keypoint := keypoints[k];
      SpreadPush(seq(k, _ => entity), entity);
      assert seq(k + 1, _ => entity) == seq(k, _ => entity) + [entity];
      SpreadPush(keypoints[..k], keypoint);
      assert keypoints[..k + 1] == keypoints[..k] + [keypoint];
      next2 := next2 + [entity, entity, entity];
      next3 := next3 + [keypoint, keypoint, keypoint];
      next4 := next4 + CoordLabels;
    }
    assert keypoints[..|keypoints|] == keypoints;
  }

  /** Lines 155-157: the row of one frame. */
  method BuildDataRow(frameIndex: nat, tripletCount: nat) returns (row: seq<string>)
    ensures row == DataRow(frameIndex, tripletCount)
  {
    row := [Decimal.FrameFileName(frameIndex)];
    for t := 0 to tripletCount
      invariant row == [Decimal.FrameFileName(frameIndex)] + Cycle(Placeholders, t)
    {
      row := row + Placeholders;
    }
  }

  /** The loop of lines 154-158: one row per extracted frame, in order. */
  method BuildDataRows<Frame>(frames: seq<(nat, Frame)>, tripletCount: nat) returns (rows: seq<seq<string>>)
    ensures |rows| == |frames|
    ensures forall j :: 0 <= j < |frames| ==> rows[j] == DataRow(frames[j].0, tripletCount)
  {
    rows := [];
    for j := 0 to |frames|
      invariant |rows| == j
      invariant forall m :: 0 <= m < j ==> rows[m] == DataRow(frames[m].0, tripletCount)
    {
      var row := BuildDataRow(frames[j].0, tripletCount);
      rows := rows + [row];
    }
  }

  /** Lines 111-158 without the file: the rows handed to the csv writer, in
      order, or the KeyError a missing keypoint list raises. */
  method CreateCsvRows<Frame>(keypoints: Option<seq<string>>, entities: Option<seq<string>>,
                              frames: seq<(nat, Frame)>)
    returns (r: Result<seq<seq<string>>, TableError>)
    ensures keypoints.None? ==> r == Err(MissingKeypoints)
    ensures keypoints.Some? ==>
              r == Ok(Table(EntitiesOrDefault(entities), keypoints.value, FrameExtraction.IndicesOf(frames)))
  {
    if keypoints.None? {
      return Err(MissingKeypoints);
    }
    var keypointNames := keypoints.value;
    var entityNames := EntitiesOrDefault(entities);
    var tripletCount := |entityNames| * |keypointNames|;
    var row1, row2, row3, row4 := BuildHeader(entityNames, keypointNames);
    var dataRows := BuildDataRows(frames, tripletCount);
    var rows := [row1, row2, row3, row4] + dataRows;
    ghost var table := Table(entityNames, keypointNames, FrameExtraction.IndicesOf(frames));
    assert forall m :: 4 <= m < |rows| ==> rows[m] == table[m];
    assert rows == table;
    r := Ok(rows);
  }

  // ---------------------------------------------------------------------
  // What the table holds

  /** The label column and the scorer row. */
  lemma HeaderLabels(entities: seq<string>, keypoints: seq<string>, frameIndices: seq<nat>)
    ensures forall i :: 0 <= i < |Table(entities, keypoints, frameIndices)[0]| ==>
              Table(entities, keypoints, frameIndices)[0][i] == "Scorer"
    ensures Table(entities, keypoints, frameIndices)[1][0] == "entities"
    ensures Table(entities, keypoints, frameIndices)[2][0] == "bodyparts"
    ensures Table(entities, keypoints, frameIndices)[3][0] == "coords"
  {
  }

  /** The three columns of keypoint `k` of entity `e` are labelled with
      that entity in row 2, that keypoint in row 3, and x, y, state in
      row 4. */
  lemma HeaderCell(entities: seq<string>, keypoints: seq<string>, frameIndices: seq<nat>, e: nat, k: nat, c: nat)
    requires e < |entities| && k < |keypoints| && c < 3
    ensures Col(TripletOf(|keypoints|, e, k), c) < 1 + 3 * (|entities| * |keypoints|)
    ensures Table(entities, keypoints, frameIndices)[1][Col(TripletOf(|keypoints|, e, k), c)] == entities[e]
    ensures Table(entities, keypoints, frameIndices)[2][Col(TripletOf(|keypoints|, e, k), c)] == keypoints[k]
    ensures Table(entities, keypoints, frameIndices)[3][Col(TripletOf(|keypoints|, e, k), c)] == CoordLabels[c]
  {
    var t := TripletOf(|keypoints|, e, k);
    var table := Table(entities, keypoints, frameIndices);
    TripletInRange(|entities|, |keypoints|, e, k);
    ColParts(t, c);
    assert table[1][Col(t, c)] == entities[e] by {
      TripletEntityAt(entities, |keypoints|, e, k);
      assert table[1] == EntitiesRow(entities, keypoints);
    }
    assert table[2][Col(t, c)] == keypoints[k] by {
      TripletKeypointAt(|entities|, keypoints, e, k);
      assert table[2] == BodypartsRow(entities, keypoints);
    }
    assert table[3][Col(t, c)] == CoordLabels[c] by {
      assert table[3] == CoordsRow(entities, keypoints);
    }
  }

  /** Each row after the header is a frame's image file name followed by
      an empty x, an empty y and a state of 0 for every (entity, keypoint)
      pair; row `4 + j` belongs to frame `j`. */
  lemma DataCells(entities: seq<string>, keypoints: seq<string>, frameIndices: seq<nat>)
    ensures forall j :: 0 <= j < |frameIndices| ==>
              Table(entities, keypoints, frameIndices)[4 + j][0] == Decimal.FrameFileName(frameIndices[j])
    ensures forall row, t, c :: 4 <= row < |Table(entities, keypoints, frameIndices)| &&
                                0 <= t < |entities| * |keypoints| && 0 <= c < 3 ==>
              Table(entities, keypoints, frameIndices)[row][Col(t, c)] == Placeholders[c]
  {
    var table := Table(entities, keypoints, frameIndices);
    forall row, t, c | 4 <= row < |table| && 0 <= t < |entities| * |keypoints| && 0 <= c < 3
      ensures table[row][Col(t, c)] == Placeholders[c]
    {
      ColParts(t, c);
    }
  }

  /** Frames with different indices get rows with different names, so a
      table built from extracted frames names each frame once when the
      requested indices do not repeat. */
  lemma DataRowNamesDistinct(entities: seq<string>, keypoints: seq<string>, frameIndices: seq<nat>)
    requires Distinct(frameIndices)
    ensures forall row1, row2 :: 4 <= row1 < row2 < |Table(entities, keypoints, frameIndices)| ==>
              Table(entities, keypoints, frameIndices)[row1][0] != Table(entities, keypoints, frameIndices)[row2][0]
  {
    var table := Table(entities, keypoints, frameIndices);
    forall row1, row2 | 4 <= row1 < row2 < |table|
      ensures table[row1][0] != table[row2][0]
    {
      Decimal.FrameFileNameInjective(frameIndices[row1 - 4], frameIndices[row2 - 4]);
    }
  }

  /** For each camera, the table is built from the frames extracted at the
      selected indices (lines 188-191). The selection is strictly
      ascending whenever no index repeats, and then every data row of every
      camera's table names a different image. */
  lemma SyncedRowNamesDistinct<Frame>(entities: seq<string>, keypoints: seq<string>,
                                      selected: seq<nat>, camera: map<nat, Frame>)
    requires StrictlyIncreasing(selected)
    ensures forall row1, row2 ::
              4 <= row1 < row2 < |Table(entities, keypoints, FrameExtraction.IndicesOf(FrameExtraction.Extracted(selected, camera)))| ==>
              Table(entities, keypoints, FrameExtraction.IndicesOf(FrameExtraction.Extracted(selected, camera)))[row1][0]
              != Table(entities, keypoints, FrameExtraction.IndicesOf(FrameExtraction.Extracted(selected, camera)))[row2][0]
  {
    var indices := FrameExtraction.IndicesOf(FrameExtraction.Extracted(selected, camera));
    FrameExtraction.ExtractedKeepsOrder(selected, camera);
    DataRowNamesDistinct(entities, keypoints, indices);
  }
}
