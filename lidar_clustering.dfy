/** Assignment of range points to detected boxes (`clusterLidarWithROI`): a
    point goes to a box only when that box's shrunk region is the single one
    containing the point's image projection. */
module LidarClustering {
  import opened DataStructures
  import opened Seqs

  /** The shrunk region of every box (`smallerBox`, computed per box). */
  function ShrunkRegions(boxes: seq<BoundingBox>, shrinkFactor: real): (regions: seq<Rect>)
    ensures |regions| == |boxes|
    ensures forall j :: 0 <= j < |boxes| ==> regions[j] == ShrinkRect(boxes[j].roi, shrinkFactor)
  {
    seq(|boxes|, j requires 0 <= j < |boxes| => ShrinkRect(boxes[j].roi, shrinkFactor))
  }

  /** Shrunk regions depend on the boxes' regions of interest only. */
  lemma SameRoisSameRegions(a: seq<BoundingBox>, b: seq<BoundingBox>, shrinkFactor: real)
    requires |a| == |b| && forall k :: 0 <= k < |a| ==> a[k].roi == b[k].roi
    ensures ShrunkRegions(a, shrinkFactor) == ShrunkRegions(b, shrinkFactor)
  {
  }

  /** Indices, in ascending order, of the regions that contain `px` (the
      `enclosingBoxes` list). */
  function EnclosingBoxes(regions: seq<Rect>, px: Point): (enc: seq<nat>)
    ensures forall i :: 0 <= i < |enc| ==> enc[i] < |regions|
    ensures forall i, j :: 0 <= i < j < |enc| ==> enc[i] < enc[j]
  {
    if |regions| == 0 then []
    else
      var k := |regions| - 1;
      EnclosingBoxes(regions[..k], px) + (if Contains(regions[k], px) then [k] else [])
  }

  /** A box index is listed exactly when its region contains `px`. */
  lemma {:induction false} EnclosingBoxesMembership(regions: seq<Rect>, px: Point, j: int)
    ensures j in EnclosingBoxes(regions, px) <==> 0 <= j < |regions| && Contains(regions[j], px)
  {
    if |regions| > 0 {
      var k := |regions| - 1;
      EnclosingBoxesMembership(regions[..k], px, j);
    }
  }

  /** The enclosing list is the single index `k` exactly when region `k` is the
      only one containing `px`. */
  lemma UniqueEnclosingBox(regions: seq<Rect>, px: Point, k: int)
    ensures EnclosingBoxes(regions, px) == [k] <==>
            (0 <= k < |regions| && Contains(regions[k], px) &&
             forall j :: 0 <= j < |regions| && j != k ==> !Contains(regions[j], px))
  {
    var enc := EnclosingBoxes(regions, px);
    EnclosingBoxesMembership(regions, px, k);
    forall j | 0 <= j < |regions| ensures j in enc <==> Contains(regions[j], px) {
      EnclosingBoxesMembership(regions, px, j);
    }
    if enc != [k] && k in enc {
      assert |enc| >= 2;
      var other := if enc[0] == k then enc[1] else enc[0];
      assert other != k && other in enc;
    }
  }

  /** Whether `p` goes to box `k`: its projection lies in region `k` and in no
      other region. */
  function AssignedTo(regions: seq<Rect>, project: LidarPoint -> Point, k: int): LidarPoint -> bool
  {
    p => EnclosingBoxes(regions, project(p)) == [k]
  }

  /** The points box `k` receives: those of `lidarPoints` whose projection lies in
      box `k`'s shrunk region and in no other box's, in input order; with a shrink
      factor in [0, 1] each of them also projects into the unshrunk region. */
  lemma PointsReceivedByBox(boxes: seq<BoundingBox>, lidarPoints: seq<LidarPoint>, shrinkFactor: real,
                            project: LidarPoint -> Point, k: int, p: LidarPoint)
    ensures var received := Filter(lidarPoints, AssignedTo(ShrunkRegions(boxes, shrinkFactor), project, k));
      Subsequence(received, lidarPoints) &&
      (p in received <==>
        (p in lidarPoints && 0 <= k < |boxes| &&
         Contains(ShrinkRect(boxes[k].roi, shrinkFactor), project(p)) &&
         forall j :: 0 <= j < |boxes| && j != k ==> !Contains(ShrinkRect(boxes[j].roi, shrinkFactor), project(p)))) &&
      (p in received && 0.0 <= shrinkFactor <= 1.0 && boxes[k].roi.width >= 0 && boxes[k].roi.height >= 0
       ==> Contains(boxes[k].roi, project(p)))
  {
    var regions := ShrunkRegions(boxes, shrinkFactor);
    var toBox := AssignedTo(regions, project, k);
    FilterIsSubsequence(lidarPoints, toBox);
    FilterMembership(lidarPoints, toBox, p);
    UniqueEnclosingBox(regions, project(p), k);
    if p in Filter(lidarPoints, toBox) && 0.0 <= shrinkFactor <= 1.0
       && boxes[k].roi.width >= 0 && boxes[k].roi.height >= 0 {
      ShrunkRectInside(boxes[k].roi, shrinkFactor, project(p));
    }
  }

  /** The loop over all boxes that fills `enclosingBoxes` for one projected point. */
  method FindEnclosingBoxes(boundingBoxes: array<BoundingBox>, shrinkFactor: real, pt: Point)
    returns (enclosingBoxes: seq<nat>)
    ensures enclosingBoxes == EnclosingBoxes(ShrunkRegions(boundingBoxes[..], shrinkFactor), pt)
  {
    ghost var regions := ShrunkRegions(boundingBoxes[..], shrinkFactor);
    enclosingBoxes := [];
    for j := 0 to boundingBoxes.Length
      invariant enclosingBoxes == EnclosingBoxes(regions[..j], pt)
    {
      assert regions[..j + 1][..j] == regions[..j];
      var smallerBox := ShrinkRect(boundingBoxes[j].roi, shrinkFactor);
      assert smallerBox == regions[j];
      if Contains(smallerBox, pt) {
        enclosingBoxes := enclosingBoxes + [j];
      }
    }
    assert regions[..boundingBoxes.Length] == regions;
  }

  /** `box0` with the points of `pts` that `toBox` keeps appended. */
  function Clustered(box0: BoundingBox, pts: seq<LidarPoint>, toBox: LidarPoint -> bool): (box: BoundingBox)
    ensures box.lidarPoints == box0.lidarPoints + Filter(pts, toBox)
    ensures box.(lidarPoints := box0.lidarPoints) == box0
  {
    box0.(lidarPoints := box0.lidarPoints + Filter(pts, toBox))
  }

  /** `boxes` is `boxes0` with, appended to each box, the points among the first
      `i` that box alone encloses. */
  ghost predicate ClusteredUpTo(boxes: seq<BoundingBox>, boxes0: seq<BoundingBox>, lidarPoints: seq<LidarPoint>,
                                i: nat, regions: seq<Rect>, project: LidarPoint -> Point)
    requires i <= |lidarPoints|
  {
    |boxes| == |boxes0| &&
    forall k :: 0 <= k < |boxes| ==> boxes[k] == Clustered(boxes0[k], lidarPoints[..i], AssignedTo(regions, project, k))
  }

  /** The boxes after one point is handled: appended to the box listed when the
      enclosing list has exactly one entry. */
  function AssignPoint(boxes: seq<BoundingBox>, enc: seq<nat>, p: LidarPoint): (next: seq<BoundingBox>)
    ensures |next| == |boxes|
    ensures forall k :: 0 <= k < |boxes| ==>
      next[k] == if |enc| == 1 && enc[0] == k then boxes[k].(lidarPoints := boxes[k].lidarPoints + [p]) else boxes[k]
  {
    if |enc| == 1 && enc[0] < |boxes| then boxes[enc[0] := boxes[enc[0]].(lidarPoints := boxes[enc[0]].lidarPoints + [p])]
    else boxes
  }

  /** A singleton enclosing list names the only box the point is assigned to. */
  lemma SoleBoxIsAssigned(regions: seq<Rect>, project: LidarPoint -> Point, p: LidarPoint, k: nat, enc: seq<nat>)
    requires enc == EnclosingBoxes(regions, project(p))
    ensures AssignedTo(regions, project, k)(p) <==> |enc| == 1 && enc[0] == k
  {
    if |enc| == 1 && enc[0] == k {
      assert enc == [k];
    }
  }

  /** Handling point `i` extends the clustering of one box: the point is
      appended exactly when the box's filter keeps it. */
  lemma ClusterStepBox(box: BoundingBox, box0: BoundingBox, toBox: LidarPoint -> bool, lidarPoints: seq<LidarPoint>,
                       i: nat, sole: bool)
    requires i < |lidarPoints|
    requires sole == toBox(lidarPoints[i])
    requires box == Clustered(box0, lidarPoints[..i], toBox)
    ensures (if sole then box.(lidarPoints := box.lidarPoints + [lidarPoints[i]]) else box)
            == Clustered(box0, lidarPoints[..i + 1], toBox)
  {
    var p := lidarPoints[i];
    var before := Filter(lidarPoints[..i], toBox);
    assert lidarPoints[..i + 1] == lidarPoints[..i] + [p];
    FilterSnoc(lidarPoints[..i], p, toBox);
    if sole {
      assert box0.lidarPoints + before + [p] == box0.lidarPoints + (before + [p]);
    }
  }

  /** Processing point `i`: appending it to the box that alone encloses it (or to
      none) extends the clustering by one point. */
  lemma ClusterStep(boxes: seq<BoundingBox>, boxes0: seq<BoundingBox>, lidarPoints: seq<LidarPoint>,
                    i: nat, shrinkFactor: real, project: LidarPoint -> Point, enc: seq<nat>)
    requires i < |lidarPoints|
    requires ClusteredUpTo(boxes, boxes0, lidarPoints, i, ShrunkRegions(boxes0, shrinkFactor), project)
    requires enc == EnclosingBoxes(ShrunkRegions(boxes, shrinkFactor), project(lidarPoints[i]))
    ensures |enc| == 1 ==> enc[0] < |boxes|
    ensures ClusteredUpTo(AssignPoint(boxes, enc, lidarPoints[i]), boxes0, lidarPoints, i + 1,
                          ShrunkRegions(boxes0, shrinkFactor), project)
  {
    var p := lidarPoints[i];
    var regions := ShrunkRegions(boxes0, shrinkFactor);
    assert forall k :: 0 <= k < |boxes| ==> boxes[k].roi == boxes0[k].roi;
    SameRoisSameRegions(boxes, boxes0, shrinkFactor);
    var next := AssignPoint(boxes, enc, p);
    forall k | 0 <= k < |boxes|
      ensures next[k] == Clustered(boxes0[k], lidarPoints[..i + 1], AssignedTo(regions, project, k))
    {
      var sole := |enc| == 1 && enc[0] == k;
      SoleBoxIsAssigned(regions, project, p, k, enc);
      ClusterStepBox(boxes[k], boxes0[k], AssignedTo(regions, project, k), lidarPoints, i, sole);
    }
  }

  /** `clusterLidarWithROI`. Each point is projected (`project` stands for the
      calibration product and perspective division), tested against every
      shrunk box, and appended to the box that alone contains it. */
  method ClusterLidarWithRoi(boundingBoxes: array<BoundingBox>, lidarPoints: seq<LidarPoint>,
                             shrinkFactor: real, project: LidarPoint -> Point)
    modifies boundingBoxes
    ensures forall k :: 0 <= k < boundingBoxes.Length ==>
      boundingBoxes[k] == old(boundingBoxes[k]).(lidarPoints := old(boundingBoxes[k]).lidarPoints
        + Filter(lidarPoints, AssignedTo(ShrunkRegions(old(boundingBoxes[..]), shrinkFactor), project, k)))
  {
    ghost var boxes0 := boundingBoxes[..];
    ghost var regions := ShrunkRegions(boxes0, shrinkFactor);
    for i := 0 to |lidarPoints|
      invariant ClusteredUpTo(boundingBoxes[..], boxes0, lidarPoints, i, regions, project)
    {
      var p := lidarPoints[i];
      ghost var before := boundingBoxes[..];
      var enclosingBoxes := FindEnclosingBoxes(boundingBoxes, shrinkFactor, project(p));
      ClusterStep(before, boxes0, lidarPoints, i, shrinkFactor, project, enclosingBoxes);
      if |enclosingBoxes| == 1 {
        var e := enclosingBoxes[0];
        boundingBoxes[e] := boundingBoxes[e].(lidarPoints := boundingBoxes[e].lidarPoints + [p]);
      }
      assert boundingBoxes[..] == AssignPoint(before, enclosingBoxes, p);
    }
    assert lidarPoints[..|lidarPoints|] == lidarPoints;
  }
}
