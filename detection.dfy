/** What one inference pass over a video frame hands to the alerting logic.
    The detector itself (model loading, inference, drawing the annotated
    frame) is external; only the facts the alerting logic reads are kept. */
module Detection {

  /** The annotated frame drawn by the detector, treated as opaque pixels. */
  type Image = seq<bv8>

  /** The keypoint part of a result: missing (no such attribute, or None),
      or present together with the detector's own "any point visible" flag. */
  datatype Keypoints = Absent | Present(hasVisible: bool)

  /** The first result of one inference pass. */
  datatype Inference = Inference(boxes: nat, keypoints: Keypoints, plot: Image)

  /** At least one bounding box was detected. */
  predicate HasBox(r: Inference) {
    r.boxes > 0
  }

  /** Keypoints are present and at least one of them is visible. */
  predicate HasPose(r: Inference) {
    r.keypoints.Present? && r.keypoints.hasVisible
  }

  /** A frame qualifies as an intrusion when either test succeeds. */
  predicate Qualifies(r: Inference) {
    HasBox(r) || HasPose(r)
  }
}
