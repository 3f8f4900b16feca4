/** The feature-collection loop of `kmeans_select_frames`
    (scripts/kmeans_frame_selection.py, lines 85-94). The video decoder is
    the sequence of outcomes of its successive `cap.read()` calls: `Some`
    carries the decoded frame, `None` is a failed read, and every read past
    the end of the sequence fails. The 64x64 resize that turns a frame into
    its feature vector is an OpenCV call and is not part of this model, so
    the feature collected for a frame is the decoded frame itself. */
module FrameCollection {
  import opened Common

  /** Reads frames in order for `range(totalFrames)` and records each
      index and frame until the first failed read. */
  method CollectFrames<Frame>(totalFrames: int, decoder: seq<Option<Frame>>)
    returns (frameIndices: seq<nat>, frameFeatures: seq<Frame>)
    // one feature per recorded index, and the indices are 0, 1, 2, ...
    ensures |frameFeatures| == |frameIndices|
    ensures frameIndices == Range(|frameIndices|)
    // never more than the reported frame count (none when it is not positive)
    ensures |frameIndices| <= if totalFrames < 0 then 0 else totalFrames
    // every recorded frame was read successfully, in order
    ensures |frameIndices| <= |decoder|
    ensures forall k :: 0 <= k < |frameIndices| ==> decoder[k] == Some(frameFeatures[k])
    // stopping short of the reported count means the next read failed
    ensures |frameIndices| < totalFrames ==>
              |frameIndices| >= |decoder| || decoder[|frameIndices|].None?
  {
    frameIndices, frameFeatures := [], [];
    var i := 0;
    while i < totalFrames
      invariant 0 <= i && (i == 0 || i <= totalFrames)
      invariant frameIndices == Range(i)
      invariant |frameIndices| == |frameFeatures| == i
      invariant i <= |decoder|
      invariant forall k :: 0 <= k < i ==> decoder[k] == Some(frameFeatures[k])
    {
      if i >= |decoder| || decoder[i].None? {
        break;
      }
      frameIndices := frameIndices + [i];
      frameFeatures := frameFeatures + [decoder[i].value];
      i := i + 1;
    }
  }
}
