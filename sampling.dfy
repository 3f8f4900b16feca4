/** Per-cluster budgeted sampling in `kmeans_select_frames`
    (scripts/kmeans_frame_selection.py, lines 96-109).

    The MiniBatchKMeans fit is a foreign, randomised, floating-point
    library call; the model takes its outcome as input: `labels[k]` is the
    cluster of the k-th collected frame. The fit itself only decides
    whether it fails, which scikit-learn does when the cluster count is
    below one or above the number of frames (an empty frame list included).

    `per_cluster = num_frames // n_clusters`; then for each cluster in
    turn its members are listed in frame order (`np.where`), `per_cluster`
    evenly spaced members are picked (`np.linspace`, see module Linspace),
    their frame indices are appended, and the whole list is sorted at the
    end. There is no deduplication step. */
module ClusterSampling {
  import opened Common
  import opened Linspace
  import opened Sorting
  import Arith

  datatype SelectError =
    | FitFailed                 // scikit-learn rejects the cluster count
    | NegativeSampleCount       // `np.linspace` rejects a negative `num`
    | EmptyCluster(cluster: nat) // IndexError on an empty member array

  /** `np.where(labels == c)[0]`: the positions labelled `c`, ascending. */
  function Members(labels: seq<nat>, c: nat): (m: seq<nat>)
    ensures |m| <= |labels|
  {
    if labels == [] then []
    else
      var last := |labels| - 1;
      var init := Members(labels[..last], c);
      if labels[last] == c then init + [last] else init
  }

  /** `np.where` lists every position labelled `c`, nothing else, in
      ascending order. */
  lemma {:induction false} MembersSpec(labels: seq<nat>, c: nat)
    ensures StrictlyIncreasing(Members(labels, c))
    ensures forall k :: 0 <= k < |Members(labels, c)| ==>
              Members(labels, c)[k] < |labels| && labels[Members(labels, c)[k]] == c
    ensures forall p :: p in Members(labels, c) <==> 0 <= p < |labels| && labels[p] == c
  {
    if labels != [] {
      var last := |labels| - 1;
      var init := labels[..last];
      MembersSpec(init, c);
      var mi := Members(init, c);
      var m := Members(labels, c);
      assert forall k :: 0 <= k < |mi| ==> mi[k] < last && labels[mi[k]] == c;
      forall p
        ensures p in m <==> 0 <= p < |labels| && labels[p] == c
      {
        if 0 <= p < last {
          assert init[p] == labels[p];
        }
      }
    }
  }

  /** A cluster can serve `perCluster` picks unless it is empty and at
      least one pick is asked of it. */
  predicate CanPick(labels: seq<nat>, perCluster: nat, c: nat)
  {
    perCluster == 0 || Members(labels, c) != []
  }

  /** The frame indices picked from cluster `c` (line 105). */
  function ClusterPicks(frameIndices: seq<nat>, labels: seq<nat>, perCluster: nat, c: nat): (r: seq<nat>)
    requires |labels| == |frameIndices|
    requires CanPick(labels, perCluster, c)
    ensures |r| == perCluster
  {
    if perCluster == 0 then []
    else
      var m := Members(labels, c);
      var pos := Positions(|m|, perCluster);
      MembersSpec(labels, c);
      PositionsInRange(|m|, perCluster);
      seq(perCluster, j requires 0 <= j < perCluster => frameIndices[m[pos[j]]])
  }

  /** The list `sampled_indices` after the loop has handled clusters
      0 .. n - 1, or the error raised on the way. */
  function Sample(frameIndices: seq<nat>, labels: seq<nat>, perCluster: nat, n: nat): (r: Result<seq<nat>, SelectError>)
    requires |labels| == |frameIndices|
    ensures r.Err? ==> r.error.EmptyCluster? && r.error.cluster < n
  {
    if n == 0 then Ok([])
    else
      match Sample(frameIndices, labels, perCluster, n - 1)
      case Err(e) => Err(e)
      case Ok(s) =>
        if !CanPick(labels, perCluster, n - 1) then Err(EmptyCluster(n - 1))
        else Ok(s + ClusterPicks(frameIndices, labels, perCluster, n - 1))
  }

  /** Whether the scikit-learn fit accepts the cluster count. */
  predicate FitSucceeds(frameCount: nat, nClusters: int)
  {
    1 <= nClusters <= frameCount
  }

  /** What `kmeans_select_frames` returns after collection, given the
      cluster labels the fit produced. */
  function Selection(frameIndices: seq<nat>, labels: seq<nat>, numFrames: int, nClusters: int): (r: Result<seq<nat>, SelectError>)
    requires |labels| == |frameIndices|
    ensures r.Ok? ==> Sorted(r.value)
    ensures r.Err? && r.error.EmptyCluster? ==> r.error.cluster < nClusters
  {
    if !FitSucceeds(|frameIndices|, nClusters) then Err(FitFailed)
    // `num_frames // n_clusters` is negative exactly when `num_frames` is
    else if numFrames < 0 then Err(NegativeSampleCount)
    else
      match Sample(frameIndices, labels, numFrames / nClusters, nClusters)
      case Err(e) => Err(e)
      case Ok(s) => Ok(SortAscending(s))
  }

  /** Lines 96-109 after the fit: the per-cluster budget, the sampling
      loop and the final sort. The `ValueError` that `np.linspace` raises
      for a negative count happens on the first iteration, before any
      member is indexed, so it is checked once before the loop. */
  method SelectFrames(frameIndices: seq<nat>, labels: seq<nat>, numFrames: int, nClusters: int)
    returns (r: Result<seq<nat>, SelectError>)
    requires |labels| == |frameIndices|
    ensures r == Selection(frameIndices, labels, numFrames, nClusters)
    ensures r.Ok? ==> Sorted(r.value)
  {
    if !FitSucceeds(|frameIndices|, nClusters) {
      return Err(FitFailed);
    }
    var perCluster := numFrames / nClusters;
    Arith.DivNegativeIff(numFrames, nClusters);
    if perCluster < 0 {
      return Err(NegativeSampleCount);
    }
    var sampled := SampleClusters(frameIndices, labels, perCluster, nClusters);
    SelectionFromSample(frameIndices, labels, numFrames, nClusters);
    match sampled {
      case Err(e) => r := Err(e);
      case Ok(s) => r := Ok(SortAscending(s));
    }
  }

  /** The loop of lines 101-105 over clusters 0 .. n - 1: `np.where` for the
      members, then the `np.linspace` picks, appended to `sampled_indices`;
      an empty cluster with picks asked for raises. */
  method SampleClusters(frameIndices: seq<nat>, labels: seq<nat>, perCluster: nat, n: nat)
    returns (r: Result<seq<nat>, SelectError>)
    requires |labels| == |frameIndices|
    ensures r == Sample(frameIndices, labels, perCluster, n)
  {
    var sampled: seq<nat> := [];
    var i := 0;
    while i < n
      invariant 0 <= i <= n
      invariant Sample(frameIndices, labels, perCluster, i) == Ok(sampled)
    {
      var clusterIndices := Members(labels, i);
      if perCluster >= 1 && |clusterIndices| == 0 {
        SampleStops(frameIndices, labels, perCluster, i, n);
        return Err(EmptyCluster(i));
      }
      // `np.linspace` positions into the members, mapped back to frames
      var picked := ClusterPicks(frameIndices, labels, perCluster, i);
      SampleAppends(frameIndices, labels, perCluster, i);
      sampled := sampled + picked;
      i := i + 1;
    }
    r := Ok(sampled);
  }

  /** Once the fit succeeded and the count is not negative, the selection
      is the sorted sample, or the error the sampling loop raised. */
  lemma SelectionFromSample(frameIndices: seq<nat>, labels: seq<nat>, numFrames: int, nClusters: int)
    requires |labels| == |frameIndices| && FitSucceeds(|frameIndices|, nClusters) && numFrames >= 0
    ensures Sample(frameIndices, labels, numFrames / nClusters, nClusters).Err? ==>
              Selection(frameIndices, labels, numFrames, nClusters)
              == Err(Sample(frameIndices, labels, numFrames / nClusters, nClusters).error)
    ensures Sample(frameIndices, labels, numFrames / nClusters, nClusters).Ok? ==>
              Selection(frameIndices, labels, numFrames, nClusters)
              == Ok(SortAscending(Sample(frameIndices, labels, numFrames / nClusters, nClusters).value))
  {
  }

  /** A usable cluster `i` appends its picks to what the loop has so far. */
  lemma SampleAppends(frameIndices: seq<nat>, labels: seq<nat>, perCluster: nat, i: nat)
    requires |labels| == |frameIndices|
    requires Sample(frameIndices, labels, perCluster, i).Ok? && CanPick(labels, perCluster, i)
    ensures Sample(frameIndices, labels, perCluster, i + 1)
            == Ok(Sample(frameIndices, labels, perCluster, i).value + ClusterPicks(frameIndices, labels, perCluster, i))
  {
  }

  /** An empty cluster `i` with picks asked for ends the loop with that
      cluster's error. */
  lemma SampleStops(frameIndices: seq<nat>, labels: seq<nat>, perCluster: nat, i: nat, n: nat)
    requires |labels| == |frameIndices| && i < n
    requires Sample(frameIndices, labels, perCluster, i).Ok? && !CanPick(labels, perCluster, i)
    ensures Sample(frameIndices, labels, perCluster, n) == Err(EmptyCluster(i))
  {
    SampleErrorPersists(frameIndices, labels, perCluster, i + 1, n);
  }

  /** Once a cluster has raised, later clusters change nothing. */
  lemma {:induction false} SampleErrorPersists(frameIndices: seq<nat>, labels: seq<nat>, perCluster: nat, i: nat, n: nat)
    requires |labels| == |frameIndices|
    requires i <= n && Sample(frameIndices, labels, perCluster, i).Err?
    ensures Sample(frameIndices, labels, perCluster, n) == Sample(frameIndices, labels, perCluster, i)
    decreases n - i
  {
    if i < n {
      SampleErrorPersists(frameIndices, labels, perCluster, i, n - 1);
    }
  }

  /** One more cluster: an error stays, an empty cluster asked for picks
      raises, any other cluster lets the loop go on. */
  lemma SampleStep(frameIndices: seq<nat>, labels: seq<nat>, perCluster: nat, n: nat)
    requires |labels| == |frameIndices| && n > 0
    ensures Sample(frameIndices, labels, perCluster, n - 1).Err? ==>
              Sample(frameIndices, labels, perCluster, n) == Sample(frameIndices, labels, perCluster, n - 1)
    ensures Sample(frameIndices, labels, perCluster, n - 1).Ok? && !CanPick(labels, perCluster, n - 1) ==>
              Sample(frameIndices, labels, perCluster, n) == Err(EmptyCluster(n - 1))
    ensures Sample(frameIndices, labels, perCluster, n - 1).Ok? && CanPick(labels, perCluster, n - 1) ==>
              Sample(frameIndices, labels, perCluster, n).Ok?
  {
  }

  /** The loop runs to the end exactly when no cluster is empty (or no
      picks are asked for). */
  lemma {:induction false} SampleOkIff(frameIndices: seq<nat>, labels: seq<nat>, perCluster: nat, n: nat)
    requires |labels| == |frameIndices|
    ensures Sample(frameIndices, labels, perCluster, n).Ok? <==>
              forall c :: 0 <= c < n ==> CanPick(labels, perCluster, c)
  {
    if n > 0 {
      SampleOkIff(frameIndices, labels, perCluster, n - 1);
      SampleStep(frameIndices, labels, perCluster, n);
    }
  }

  /** Otherwise it raises at the first empty cluster asked for picks. */
  lemma {:induction false} SampleFirstError(frameIndices: seq<nat>, labels: seq<nat>, perCluster: nat, n: nat)
    requires |labels| == |frameIndices|
    requires Sample(frameIndices, labels, perCluster, n).Err?
    ensures var e := Sample(frameIndices, labels, perCluster, n).error;
              e.EmptyCluster? && e.cluster < n && !CanPick(labels, perCluster, e.cluster) &&
              forall c :: 0 <= c < e.cluster ==> CanPick(labels, perCluster, c)
  {
    if n > 0 {
      SampleStep(frameIndices, labels, perCluster, n);
      if Sample(frameIndices, labels, perCluster, n - 1).Err? {
        SampleFirstError(frameIndices, labels, perCluster, n - 1);
      } else {
        SampleOkIff(frameIndices, labels, perCluster, n - 1);
      }
    }
  }

  /** Every cluster contributes exactly `perCluster` entries. */
  lemma {:induction false} SampleLength(frameIndices: seq<nat>, labels: seq<nat>, perCluster: nat, n: nat)
    requires |labels| == |frameIndices|
    requires Sample(frameIndices, labels, perCluster, n).Ok?
    ensures |Sample(frameIndices, labels, perCluster, n).value| == n * perCluster
  {
    if n > 0 {
      SampleLength(frameIndices, labels, perCluster, n - 1);
      Arith.MulSucc(n - 1, perCluster);
    }
  }

  /** The positions labelled `c`, as a set. */
  function ClusterSet(labels: seq<nat>, c: nat): set<nat>
  {
    set p: nat | p < |labels| && labels[p] == c
  }

  /** With the collected indices 0 .. p - 1, pick `j` of cluster `c` is
      the member at linspace position `j`. */
  lemma ClusterPicksAt(labels: seq<nat>, perCluster: nat, c: nat)
    requires CanPick(labels, perCluster, c) && perCluster > 0
    ensures forall j :: 0 <= j < perCluster ==>
              Positions(|Members(labels, c)|, perCluster)[j] < |Members(labels, c)| &&
              ClusterPicks(Range(|labels|), labels, perCluster, c)[j] ==
              Members(labels, c)[Positions(|Members(labels, c)|, perCluster)[j]]
  {
    var m := Members(labels, c);
    MembersSpec(labels, c);
    PositionsInRange(|m|, perCluster);
  }

  /** With the collected indices 0 .. p - 1, every index picked for
      cluster `c` is a frame labelled `c`, ... */
  lemma ClusterPicksLabelled(labels: seq<nat>, perCluster: nat, c: nat)
    requires CanPick(labels, perCluster, c)
    ensures forall j :: 0 <= j < perCluster ==>
              ClusterPicks(Range(|labels|), labels, perCluster, c)[j] in ClusterSet(labels, c)
  {
    var picks := ClusterPicks(Range(|labels|), labels, perCluster, c);
    if perCluster > 0 {
      var m := Members(labels, c);
      var pos := Positions(|m|, perCluster);
      ClusterPicksAt(labels, perCluster, c);
      MembersSpec(labels, c);
      forall j | 0 <= j < perCluster
        ensures picks[j] in ClusterSet(labels, c)
      {
        assert m[pos[j]] < |labels| && labels[m[pos[j]]] == c;
      }
    }
  }

  /** ... and the picks follow frame order. */
  lemma ClusterPicksSorted(labels: seq<nat>, perCluster: nat, c: nat)
    requires CanPick(labels, perCluster, c)
    ensures Sorted(ClusterPicks(Range(|labels|), labels, perCluster, c))
  {
    var picks := ClusterPicks(Range(|labels|), labels, perCluster, c);
    if perCluster > 0 {
      var m := Members(labels, c);
      var pos := Positions(|m|, perCluster);
      ClusterPicksAt(labels, perCluster, c);
      MembersSpec(labels, c);
      PositionsNondecreasing(|m|, perCluster);
      forall i, j | 0 <= i < j < perCluster
        ensures picks[i] <= picks[j]
      {
        assert pos[i] <= pos[j];
        if pos[i] < pos[j] {
          assert m[pos[i]] < m[pos[j]];
        }
      }
    }
  }

  /** A cluster with at least `perCluster` members yields strictly
      increasing picks; a non-empty cluster with fewer members yields the
      same frame twice in a row, and the source keeps both. */
  lemma ClusterPicksRepeats(labels: seq<nat>, perCluster: nat, c: nat)
    requires CanPick(labels, perCluster, c)
    ensures |Members(labels, c)| >= perCluster ==>
              StrictlyIncreasing(ClusterPicks(Range(|labels|), labels, perCluster, c))
    ensures |Members(labels, c)| < perCluster ==>
              exists j :: 0 <= j < perCluster - 1 &&
                ClusterPicks(Range(|labels|), labels, perCluster, c)[j] ==
                ClusterPicks(Range(|labels|), labels, perCluster, c)[j + 1]
  {
    var picks := ClusterPicks(Range(|labels|), labels, perCluster, c);
    var m := Members(labels, c);
    if perCluster > 0 {
      var pos := Positions(|m|, perCluster);
      ClusterPicksAt(labels, perCluster, c);
      MembersSpec(labels, c);
      if |m| >= perCluster {
        PositionsStrictWhenEnoughMembers(|m|, perCluster);
      } else {
        PositionsRepeatWhenTooFewMembers(|m|, perCluster);
        var j :| 0 <= j < perCluster - 1 && pos[j] == pos[j + 1];
        assert picks[j] == picks[j + 1];
      }
    }
  }


  /** With the collected indices 0 .. p - 1, everything sampled from
      clusters 0 .. n - 1 is a frame labelled below `n`. */
  lemma {:induction false} SampleLabelsBelow(labels: seq<nat>, perCluster: nat, n: nat)
    requires Sample(Range(|labels|), labels, perCluster, n).Ok?
    ensures forall k :: 0 <= k < |Sample(Range(|labels|), labels, perCluster, n).value| ==>
              Sample(Range(|labels|), labels, perCluster, n).value[k] < |labels| &&
              labels[Sample(Range(|labels|), labels, perCluster, n).value[k]] < n
  {
    if n > 0 {
      var fi := Range(|labels|);
      SampleLabelsBelow(labels, perCluster, n - 1);
      var prev := Sample(fi, labels, perCluster, n - 1).value;
      var last := ClusterPicks(fi, labels, perCluster, n - 1);
      assert Sample(fi, labels, perCluster, n).value == prev + last;
      ClusterPicksLabelled(labels, perCluster, n - 1);
      forall k | 0 <= k < |prev + last|
        ensures (prev + last)[k] < |labels| && labels[(prev + last)[k]] < n
      {
        if k >= |prev| {
          assert (prev + last)[k] == last[k - |prev|];
          assert last[k - |prev|] in ClusterSet(labels, n - 1);
        }
      }
    }
  }

  /** Entries of cluster `d` do not count towards another cluster `c`. */
  lemma CountInOtherCluster(s: seq<nat>, labels: seq<nat>, d: nat, c: nat)
    requires c != d
    requires forall k :: 0 <= k < |s| ==> s[k] in ClusterSet(labels, d)
    ensures CountIn(s, ClusterSet(labels, c)) == 0
  {
    forall k | 0 <= k < |s| ensures s[k] !in ClusterSet(labels, c) {
      assert labels[s[k]] == d;
    }
    CountInAllOrNone(s, ClusterSet(labels, c));
  }

  /** Entries of clusters below `c` do not count towards cluster `c`. */
  lemma CountInLowerClusters(s: seq<nat>, labels: seq<nat>, c: nat)
    requires forall k :: 0 <= k < |s| ==> s[k] < |labels| && labels[s[k]] < c
    ensures CountIn(s, ClusterSet(labels, c)) == 0
  {
    CountInAllOrNone(s, ClusterSet(labels, c));
  }

  /** Each of the clusters 0 .. n - 1 accounts for exactly `perCluster`
      entries of the sample. */
  lemma {:induction false} SampleCounts(labels: seq<nat>, perCluster: nat, n: nat)
    requires Sample(Range(|labels|), labels, perCluster, n).Ok?
    ensures forall c :: 0 <= c < n ==>
              CountIn(Sample(Range(|labels|), labels, perCluster, n).value, ClusterSet(labels, c)) == perCluster
  {
    if n > 0 {
      var fi := Range(|labels|);
      SampleCounts(labels, perCluster, n - 1);
      SampleLabelsBelow(labels, perCluster, n - 1);
      var prev := Sample(fi, labels, perCluster, n - 1).value;
      var last := ClusterPicks(fi, labels, perCluster, n - 1);
      assert Sample(fi, labels, perCluster, n).value == prev + last;
      ClusterPicksLabelled(labels, perCluster, n - 1);
      forall c | 0 <= c < n
        ensures CountIn(prev + last, ClusterSet(labels, c)) == perCluster
      {
        CountInAppend(prev, last, ClusterSet(labels, c));
        if c < n - 1 {
          CountInOtherCluster(last, labels, n - 1, c);
        } else {
          CountInLowerClusters(prev, labels, c);
          CountInAllOrNone(last, ClusterSet(labels, c));
        }
      }
    }
  }

  /** With the collected indices 0 .. p - 1, the sampled list repeats no
      frame exactly when every cluster has at least `perCluster` members. */
  lemma {:induction false} SampleDistinctIff(labels: seq<nat>, perCluster: nat, n: nat)
    requires Sample(Range(|labels|), labels, perCluster, n).Ok?
    ensures Distinct(Sample(Range(|labels|), labels, perCluster, n).value) <==>
              forall c :: 0 <= c < n ==> |Members(labels, c)| >= perCluster
  {
    if n > 0 {
      var fi := Range(|labels|);
      SampleOkStep(fi, labels, perCluster, n);
      var prev := Sample(fi, labels, perCluster, n - 1).value;
      var last := ClusterPicks(fi, labels, perCluster, n - 1);
      SampleDistinctIff(labels, perCluster, n - 1);
      ClusterPicksDistinctIff(labels, perCluster, n - 1);
      SampleApartFromNext(labels, perCluster, n - 1);
      DistinctConcat(prev, last);
      assert (forall c :: 0 <= c < n ==> |Members(labels, c)| >= perCluster) <==>
             (forall c :: 0 <= c < n - 1 ==> |Members(labels, c)| >= perCluster) &&
             |Members(labels, n - 1)| >= perCluster;
    }
  }

  /** A run of the loop that reaches cluster `n` got through cluster
      `n - 1` by appending its picks. */
  lemma SampleOkStep(frameIndices: seq<nat>, labels: seq<nat>, perCluster: nat, n: nat)
    requires |labels| == |frameIndices| && n > 0
    requires Sample(frameIndices, labels, perCluster, n).Ok?
    ensures Sample(frameIndices, labels, perCluster, n - 1).Ok?
    ensures CanPick(labels, perCluster, n - 1)
    ensures Sample(frameIndices, labels, perCluster, n).value ==
              Sample(frameIndices, labels, perCluster, n - 1).value + ClusterPicks(frameIndices, labels, perCluster, n - 1)
  {
  }

  /** The picks of one cluster repeat no frame exactly when the cluster
      has at least `perCluster` members. */
  lemma ClusterPicksDistinctIff(labels: seq<nat>, perCluster: nat, c: nat)
    requires CanPick(labels, perCluster, c)
    ensures Distinct(ClusterPicks(Range(|labels|), labels, perCluster, c)) <==> |Members(labels, c)| >= perCluster
  {
    ClusterPicksRepeats(labels, perCluster, c);
  }

  /** Nothing sampled from clusters 0 .. n - 1 is picked again for
      cluster n. */
  lemma SampleApartFromNext(labels: seq<nat>, perCluster: nat, n: nat)
    requires Sample(Range(|labels|), labels, perCluster, n).Ok?
    requires CanPick(labels, perCluster, n)
    ensures forall i, j :: 0 <= i < |Sample(Range(|labels|), labels, perCluster, n).value| &&
                           0 <= j < |ClusterPicks(Range(|labels|), labels, perCluster, n)| ==>
              Sample(Range(|labels|), labels, perCluster, n).value[i] !=
              ClusterPicks(Range(|labels|), labels, perCluster, n)[j]
  {
    var prev := Sample(Range(|labels|), labels, perCluster, n).value;
    var next := ClusterPicks(Range(|labels|), labels, perCluster, n);
    SampleLabelsBelow(labels, perCluster, n);
    ClusterPicksLabelled(labels, perCluster, n);
    forall i, j | 0 <= i < |prev| && 0 <= j < |next|
      ensures prev[i] != next[j]
    {
      assert labels[prev[i]] < n;
      assert next[j] in ClusterSet(labels, n);
    }
  }

  /** How `kmeans_select_frames` ends: the fit fails exactly for a cluster
      count outside 1 .. #frames; `np.linspace` raises exactly for a
      negative budget; otherwise the first empty cluster asked for picks
      raises; if none does, a list is returned. */
  lemma SelectionOutcome(frameIndices: seq<nat>, labels: seq<nat>, numFrames: int, nClusters: int)
    requires |labels| == |frameIndices|
    ensures Selection(frameIndices, labels, numFrames, nClusters) == Err(FitFailed) <==>
              !FitSucceeds(|frameIndices|, nClusters)
    ensures Selection(frameIndices, labels, numFrames, nClusters) == Err(NegativeSampleCount) <==>
              FitSucceeds(|frameIndices|, nClusters) && numFrames < 0
    ensures Selection(frameIndices, labels, numFrames, nClusters).Err? ==>
              var e := Selection(frameIndices, labels, numFrames, nClusters).error;
              e.EmptyCluster? ==>
                FitSucceeds(|frameIndices|, nClusters) && numFrames >= nClusters &&
                e.cluster < nClusters && Members(labels, e.cluster) == [] &&
                forall c :: 0 <= c < e.cluster ==> Members(labels, c) != []
    ensures Selection(frameIndices, labels, numFrames, nClusters).Ok? <==>
              FitSucceeds(|frameIndices|, nClusters) && numFrames >= 0 &&
              (numFrames < nClusters || forall c :: 0 <= c < nClusters ==> Members(labels, c) != [])
  {
    if FitSucceeds(|frameIndices|, nClusters) && numFrames >= 0 {
      var perCluster := numFrames / nClusters;
      Arith.DivAtLeastOneIff(numFrames, nClusters);
      SampleOkIff(frameIndices, labels, perCluster, nClusters);
      if Sample(frameIndices, labels, perCluster, nClusters).Err? {
        SampleFirstError(frameIndices, labels, perCluster, nClusters);
      }
      if perCluster >= 1 {
        forall c | 0 <= c < nClusters
          ensures CanPick(labels, perCluster, c) <==> Members(labels, c) != []
        {
        }
      }
    }
  }

  /** A returned list is the sorted concatenation of the per-cluster
      picks, which is `n_clusters * per_cluster` long. */
  lemma SelectionIsSortedSample(frameIndices: seq<nat>, labels: seq<nat>, numFrames: int, nClusters: int)
    requires |labels| == |frameIndices|
    requires Selection(frameIndices, labels, numFrames, nClusters).Ok?
    ensures 1 <= nClusters <= |frameIndices| && 0 <= numFrames
    ensures Sample(frameIndices, labels, numFrames / nClusters, nClusters).Ok?
    ensures Selection(frameIndices, labels, numFrames, nClusters).value ==
              SortAscending(Sample(frameIndices, labels, numFrames / nClusters, nClusters).value)
    ensures |Selection(frameIndices, labels, numFrames, nClusters).value| == nClusters * (numFrames / nClusters)
  {
    var perCluster := numFrames / nClusters;
    SampleLength(frameIndices, labels, perCluster, nClusters);
  }

  /** Sorting the concatenated picks keeps `perCluster` frames of each
      cluster. */
  lemma SortedSampleCounts(labels: seq<nat>, perCluster: nat, n: nat)
    requires Sample(Range(|labels|), labels, perCluster, n).Ok?
    ensures forall c :: 0 <= c < n ==>
              CountIn(SortAscending(Sample(Range(|labels|), labels, perCluster, n).value), ClusterSet(labels, c)) == perCluster
  {
    var s := Sample(Range(|labels|), labels, perCluster, n).value;
    SampleCounts(labels, perCluster, n);
    forall c | 0 <= c < n
      ensures CountIn(SortAscending(s), ClusterSet(labels, c)) == perCluster
    {
      SortKeepsCounts(s, ClusterSet(labels, c));
    }
  }

  /** What the returned list is, when the collected indices are
      0 .. p - 1 as the collection loop makes them: sorted ascending, the
      same entries as the concatenated per-cluster picks, all of them
      collected frames, with exactly `per_cluster` frames from each
      cluster. */
  lemma SelectionResult(labels: seq<nat>, numFrames: int, nClusters: int)
    requires Selection(Range(|labels|), labels, numFrames, nClusters).Ok?
    ensures nClusters >= 1 && numFrames >= 0
    ensures var r := Selection(Range(|labels|), labels, numFrames, nClusters).value;
            Sorted(r) &&
            multiset(r) == multiset(Sample(Range(|labels|), labels, numFrames / nClusters, nClusters).value) &&
            (forall k :: 0 <= k < |r| ==> r[k] < |labels|) &&
            (forall c :: 0 <= c < nClusters ==> CountIn(r, ClusterSet(labels, c)) == numFrames / nClusters)
  {
    SelectionIsSortedSample(Range(|labels|), labels, numFrames, nClusters);
    var s := Sample(Range(|labels|), labels, numFrames / nClusters, nClusters).value;
    SampleLabelsBelow(labels, numFrames / nClusters, nClusters);
    SortKeepsBound(s, |labels|);
    SortedSampleCounts(labels, numFrames / nClusters, nClusters);
  }

  /** The requested budget is met exactly when it divides evenly, and
      nothing is returned when it is smaller than the cluster count. */
  lemma SelectionBudget(frameIndices: seq<nat>, labels: seq<nat>, numFrames: int, nClusters: int)
    requires |labels| == |frameIndices|
    requires Selection(frameIndices, labels, numFrames, nClusters).Ok?
    ensures 1 <= nClusters <= |frameIndices| && 0 <= numFrames
    ensures numFrames % nClusters == 0 ==> |Selection(frameIndices, labels, numFrames, nClusters).value| == numFrames
    ensures numFrames < nClusters ==> Selection(frameIndices, labels, numFrames, nClusters).value == []
  {
    SelectionIsSortedSample(frameIndices, labels, numFrames, nClusters);
    Arith.WholeShares(numFrames, nClusters);
  }

  /** The returned list has no repeated frame exactly when every cluster
      has at least `per_cluster` members; otherwise the repeats the
      evenly spaced positions produce are kept. */
  lemma SelectionDistinctIff(labels: seq<nat>, numFrames: int, nClusters: int)
    requires Selection(Range(|labels|), labels, numFrames, nClusters).Ok?
    ensures nClusters >= 1
    ensures StrictlyIncreasing(Selection(Range(|labels|), labels, numFrames, nClusters).value) <==>
              forall c :: 0 <= c < nClusters ==> |Members(labels, c)| >= numFrames / nClusters
  {
    var perCluster := numFrames / nClusters;
    var s := Sample(Range(|labels|), labels, perCluster, nClusters).value;
    SampleDistinctIff(labels, perCluster, nClusters);
    SortedDistinctIsStrict(s);
  }
}
