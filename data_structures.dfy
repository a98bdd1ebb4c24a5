/** The value types the fusion pipeline passes around: integer pixels and
    rectangles (`cv::Point`, `cv::Rect`), range points, keypoints, descriptor
    matches, detected bounding boxes and per-frame data. */
module DataStructures {

  /** An integer pixel position (`cv::Point`). */
  datatype Point = Point(x: int, y: int)

  /** An integer rectangle (`cv::Rect`): top-left corner and extent. */
  datatype Rect = Rect(x: int, y: int, width: int, height: int)

  /** `cv::Rect::contains`: the rectangle is half-open, it holds its left and top
      edges but not its right and bottom ones. */
  predicate Contains(r: Rect, p: Point)
  {
    r.x <= p.x < r.x + r.width && r.y <= p.y < r.y + r.height
  }

  /** C++ conversion of a floating-point value to `int`: rounds toward zero. */
  function Truncate(v: real): (n: int)
    ensures v >= 0.0 ==> 0 <= n && n as real <= v < n as real + 1.0
    ensures v < 0.0 ==> n <= 0 && n as real - 1.0 < v <= n as real
  {
    if v >= 0.0 then v.Floor else -((-v).Floor)
  }

  /** The region of interest with every side moved inwards by `shrinkFactor / 2`
      of its extent. Each field is truncated toward zero when it is stored in the
      integer rectangle: the corner is a `double`, the extent an `int * float`
      product. */
  function ShrinkRect(roi: Rect, shrinkFactor: real): Rect
  {
    Rect(ShrunkStart(roi.x, roi.width, shrinkFactor),
         ShrunkStart(roi.y, roi.height, shrinkFactor),
         ShrunkExtent(roi.width, shrinkFactor),
         ShrunkExtent(roi.height, shrinkFactor))
  }

  /** `smallerBox.x = roi.x + shrinkFactor * roi.width / 2.0`, stored as `int`. */
  function ShrunkStart(lo: int, extent: int, shrinkFactor: real): int
  {
    Truncate(lo as real + shrinkFactor * extent as real / 2.0)
  }

  /** `smallerBox.width = roi.width * (1 - shrinkFactor)`, stored as `int`. */
  function ShrunkExtent(extent: int, shrinkFactor: real): int
  {
    Truncate(extent as real * (1.0 - shrinkFactor))
  }

  /** A range-sensor sample in vehicle coordinates (x forward, y left, z up). */
  datatype LidarPoint = LidarPoint(x: real, y: real, z: real)

  /** A detected image feature (`cv::KeyPoint`): position, diameter and corner
      response. */
  datatype KeyPoint = KeyPoint(pt: Point, size: int, response: int)

  /** A descriptor match (`cv::DMatch`): index into the previous (query) and the
      current (train) keypoints, and the descriptor distance. */
  datatype DMatch = DMatch(queryIdx: int, trainIdx: int, distance: real)

  /** A detected object: its identifier and region of interest, and the range
      points, matches and keypoints the pipeline assigns to it. */
  datatype BoundingBox = BoundingBox(
    boxID: int,
    roi: Rect,
    lidarPoints: seq<LidarPoint>,
    kptMatches: seq<DMatch>,
    keypoints: seq<KeyPoint>)

  /** The per-frame data the box association reads. */
  datatype DataFrame = DataFrame(keypoints: seq<KeyPoint>, boundingBoxes: seq<BoundingBox>)

  /** Every match refers to existing keypoints of both frames. */
  predicate MatchesIndexInto(kptsPrev: seq<KeyPoint>, kptsCurr: seq<KeyPoint>, matches: seq<DMatch>)
  {
    forall i :: 0 <= i < |matches| ==>
      0 <= matches[i].queryIdx < |kptsPrev| && 0 <= matches[i].trainIdx < |kptsCurr|
  }

  /** Along one axis, shrinking `[lo, lo + extent)` keeps it inside the original. */
  lemma ShrunkAxisInside(lo: int, extent: int, shrinkFactor: real)
    requires 0.0 <= shrinkFactor <= 1.0 && extent >= 0
    ensures lo <= ShrunkStart(lo, extent, shrinkFactor)
    ensures ShrunkStart(lo, extent, shrinkFactor) + ShrunkExtent(extent, shrinkFactor) <= lo + extent
  {
    var e := extent as real;
    var half := shrinkFactor * e / 2.0;
    var kept := e * (1.0 - shrinkFactor);
    assert shrinkFactor * e >= 0.0;
    assert kept >= 0.0;
    assert kept + half == e - shrinkFactor * e / 2.0;
    var start := Truncate(lo as real + half);
    var width := Truncate(kept);
    assert lo <= start && (start as real) < lo as real + half + 1.0;
    assert width as real <= kept;
    assert (start + width) as real < (lo + extent) as real + 1.0;
  }

  /** For a shrink factor in [0, 1] and a rectangle of non-negative extent, the
      shrunk rectangle lies inside the original one. */
  lemma ShrunkRectInside(roi: Rect, shrinkFactor: real, p: Point)
    requires 0.0 <= shrinkFactor <= 1.0
    requires roi.width >= 0 && roi.height >= 0
    requires Contains(ShrinkRect(roi, shrinkFactor), p)
    ensures Contains(roi, p)
  {
    ShrunkAxisInside(roi.x, roi.width, shrinkFactor);
    ShrunkAxisInside(roi.y, roi.height, shrinkFactor);
  }
}
