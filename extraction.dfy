/** `extract_specific_frames` (scripts/kmeans_frame_selection.py,
    lines 63-77): for each requested index in order, seek to it and read
    one frame; keep `(index, frame)` when the read succeeds, print a
    warning and go on when it fails. The camera is modelled by what a
    seek-then-read returns for each index: `camera[i]` is the frame read
    at index `i`, and an index outside `camera` is a failed read. */
module FrameExtraction {
  import opened Common

  /** The frames kept for the requested indices, in request order. */
  function Extracted<Frame>(requested: seq<nat>, camera: map<nat, Frame>): (r: seq<(nat, Frame)>)
    ensures |r| <= |requested|
    ensures forall k :: 0 <= k < |r| ==> r[k].0 in camera && r[k].1 == camera[r[k].0]
  {
    if requested == [] then []
    else
      var last := requested[|requested| - 1];
      var kept := Extracted(requested[..|requested| - 1], camera);
      if last in camera then kept + [(last, camera[last])] else kept
  }

  /** The indices of a list of extracted frames. */
  function IndicesOf<Frame>(frames: seq<(nat, Frame)>): (r: seq<nat>)
    ensures |r| == |frames|
    ensures forall k :: 0 <= k < |frames| ==> r[k] == frames[k].0
  {
    seq(|frames|, k requires 0 <= k < |frames| => frames[k].0)
  }

  /** The loop of lines 69-75. */
  method ExtractSpecificFrames<Frame>(requested: seq<nat>, camera: map<nat, Frame>)
    returns (frames: seq<(nat, Frame)>)
    ensures frames == Extracted(requested, camera)
    ensures |frames| <= |requested|
    ensures forall k :: 0 <= k < |frames| ==> frames[k].0 in camera && frames[k].1 == camera[frames[k].0]
  {
    frames := [];
    for n := 0 to |requested|
      invariant frames == Extracted(requested[..n], camera)
    {
      var frameIndex := requested[n];
      assert requested[..n + 1][..n] == requested[..n];
      if frameIndex in camera {
        frames := frames + [(frameIndex, camera[frameIndex])];
      }
      // otherwise: "Unable to read frame", and the index is skipped
    }
    assert requested[..|requested|] == requested;
  }

  /** The kept frames are a subsequence of the requests: each sits at a
      request position, the positions increase, and every readable
      request is kept (failed ones are simply absent, never retried). */
  lemma {:induction false} ExtractedSubsequence<Frame>(requested: seq<nat>, camera: map<nat, Frame>)
    returns (pos: seq<nat>)
    ensures |pos| == |Extracted(requested, camera)|
    ensures StrictlyIncreasing(pos)
    ensures forall k :: 0 <= k < |pos| ==>
              pos[k] < |requested| && requested[pos[k]] == Extracted(requested, camera)[k].0
    ensures forall p :: 0 <= p < |requested| && requested[p] in camera ==> p in pos
  {
    if requested == [] {
      pos := [];
    } else {
      var n := |requested| - 1;
      var init := requested[..n];
      var prev := ExtractedSubsequence(init, camera);
      assert forall k :: 0 <= k < |prev| ==> prev[k] < n;
      if requested[n] in camera {
        pos := prev + [n];
      } else {
        pos := prev;
      }
      forall p | 0 <= p < |requested| && requested[p] in camera
        ensures p in pos
      {
        if p < n {
          assert init[p] == requested[p];
          assert p in prev;
        }
      }
    }
  }

  /** One frame is kept per readable request, so never more than were
      requested, and all of them exactly when every request reads. */
  lemma {:induction false} ExtractedCount<Frame>(requested: seq<nat>, camera: map<nat, Frame>)
    ensures |Extracted(requested, camera)| == CountIn(requested, camera.Keys)
    ensures |Extracted(requested, camera)| == |requested| <==>
              forall k :: 0 <= k < |requested| ==> requested[k] in camera
  {
    if requested != [] {
      var n := |requested| - 1;
      ExtractedCount(requested[..n], camera);
      assert forall k :: 0 <= k < n ==> requested[..n][k] == requested[k];
    }
  }

  /** Requests in ascending order give kept indices in ascending order. */
  lemma ExtractedKeepsOrder<Frame>(requested: seq<nat>, camera: map<nat, Frame>)
    ensures Sorted(requested) ==> Sorted(IndicesOf(Extracted(requested, camera)))
    ensures StrictlyIncreasing(requested) ==> StrictlyIncreasing(IndicesOf(Extracted(requested, camera)))
  {
    var pos := ExtractedSubsequence(requested, camera);
    var idx := IndicesOf(Extracted(requested, camera));
    assert forall k :: 0 <= k < |idx| ==> idx[k] == requested[pos[k]];
  }
}
