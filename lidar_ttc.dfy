/** The robust distance of a range-point cluster and the range-based
    time-to-collision estimate (`getLidarPointCloudDistance`, `computeTTCLidar`). */
module LidarTtc {
  import opened DataStructures
  import opened OrderStats

  /** Initial value of the running minimum, returned for an empty cluster. */
  const FallbackDistance: real := 100000000.0

  /** Clusters with more points than this use the order statistic. */
  const ClosestPointsToConsider: nat := 9

  /** TTC reported when the object is not getting closer. */
  const NoCollisionTtc: real := 1000.0

  /** The forward coordinates of the points, in order. */
  function XValues(points: seq<LidarPoint>): (xs: seq<real>)
    ensures |xs| == |points|
    ensures forall i :: 0 <= i < |points| ==> xs[i] == points[i].x
  {
    seq(|points|, i requires 0 <= i < |points| => points[i].x)
  }

  /** The running minimum `x_min`, started at the fallback value. */
  function MinOrFallback(xs: seq<real>): (m: real)
    ensures m <= FallbackDistance
    ensures forall i :: 0 <= i < |xs| ==> m <= xs[i]
    ensures m == FallbackDistance || m in xs
  {
    if |xs| == 0 then FallbackDistance
    else
      var m := MinOrFallback(xs[..|xs| - 1]);
      if m > xs[|xs| - 1] then xs[|xs| - 1] else m
  }

  /** The cluster distance: the minimum for small clusters, otherwise the value
      at index 4 (the fifth smallest) of the ascending forward coordinates. */
  function RobustDistance(xs: seq<real>): real
  {
    if |xs| > ClosestPointsToConsider then KthSmallest(xs, ClosestPointsToConsider / 2)
    else MinOrFallback(xs)
  }

  /** A cluster of at most nine points yields its minimum forward coordinate
      (capped at the fallback value, where the running minimum starts). */
  lemma SmallClusterDistance(xs: seq<real>)
    requires 0 < |xs| <= ClosestPointsToConsider
    requires exists i :: 0 <= i < |xs| && xs[i] <= FallbackDistance
    ensures RobustDistance(xs) in xs
    ensures forall i :: 0 <= i < |xs| ==> RobustDistance(xs) <= xs[i]
  {
    var i :| 0 <= i < |xs| && xs[i] <= FallbackDistance;
    if RobustDistance(xs) == FallbackDistance {
      assert xs[i] == FallbackDistance;
    }
  }

  /** A cluster of more than nine points yields its fifth smallest forward
      coordinate: a value of the cluster with at most four values strictly
      below it and at least five at most it, never less than the minimum. */
  lemma LargeClusterDistance(xs: seq<real>)
    requires |xs| > ClosestPointsToConsider
    ensures RobustDistance(xs) in xs
    ensures Count(xs, Below(RobustDistance(xs))) <= 4 < Count(xs, AtMost(RobustDistance(xs)))
    ensures MinOrFallback(xs) <= RobustDistance(xs)
  {
    assert ClosestPointsToConsider / 2 == 4;
    var v := KthSmallest(xs, 4);
    assert RobustDistance(xs) == v;
    OrderStatistic(xs, 4);
    assert v in xs;
    var i :| 0 <= i < |xs| && xs[i] == v;
    assert MinOrFallback(xs) <= xs[i];
  }

  /** `getLidarPointCloudDistance`: one pass collects the forward coordinates and
      their running minimum, then the coordinates are sorted. */
  method GetLidarPointCloudDistance(lidarPoints: seq<LidarPoint>) returns (distance: real)
    ensures distance == RobustDistance(XValues(lidarPoints))
    ensures |lidarPoints| == 0 ==> distance == FallbackDistance
  {
    var xDistances: seq<real> := [];
    var xMin := FallbackDistance;
    for i := 0 to |lidarPoints|
      invariant xDistances == XValues(lidarPoints[..i])
      invariant xMin == MinOrFallback(xDistances)
    {
      var x := lidarPoints[i].x;
      assert (xDistances + [x])[..i] == xDistances;
      if xMin > x {
        xMin := x;
      }
      xDistances := xDistances + [x];
    }
    assert lidarPoints[..|lidarPoints|] == lidarPoints;
    var sorted := Sort(xDistances);
    distance := xMin;
    if |sorted| > ClosestPointsToConsider {
      distance := sorted[ClosestPointsToConsider / 2];
    }
  }

  /** The range TTC from the previous and current robust distances: the no-risk
      sentinel when the object is not closing, otherwise the time the current
      distance takes to vanish at the observed closing speed. */
  function TtcFromDistances(distPrev: real, distCurr: real, frameRate: real): (ttc: real)
    requires frameRate > 0.0
    ensures distCurr >= distPrev ==> ttc == NoCollisionTtc
    ensures distCurr < distPrev ==> ttc * ((distPrev - distCurr) * frameRate) == distCurr
    ensures distCurr < distPrev && distCurr > 0.0 ==> ttc > 0.0
  {
    if distCurr >= distPrev then NoCollisionTtc
    else distCurr / ((distPrev - distCurr) * frameRate)
  }

  /** `computeTTCLidar`: the robust distance of both clusters, then the range TTC. */
  method ComputeTtcLidar(lidarPointsPrev: seq<LidarPoint>, lidarPointsCurr: seq<LidarPoint>, frameRate: real)
    returns (ttc: real)
    requires frameRate > 0.0
    ensures ttc == TtcFromDistances(RobustDistance(XValues(lidarPointsPrev)),
                                    RobustDistance(XValues(lidarPointsCurr)), frameRate)
  {
    var xMinPrev := GetLidarPointCloudDistance(lidarPointsPrev);
    var xMinCurr := GetLidarPointCloudDistance(lidarPointsCurr);
    ttc := TtcFromDistances(xMinPrev, xMinCurr, frameRate);
  }

  /** A cluster whose points all lie within the fallback distance has a robust
      distance within it too. */
  lemma RobustDistanceWithinFallback(xs: seq<real>)
    requires forall i :: 0 <= i < |xs| ==> xs[i] <= FallbackDistance
    ensures RobustDistance(xs) <= FallbackDistance
  {
    if |xs| > ClosestPointsToConsider {
      LargeClusterDistance(xs);
    }
  }

  /** A current cluster with no points yields the no-risk sentinel whenever the
      previous cluster's robust distance lies within the fallback distance. */
  lemma EmptyCurrentClusterMeansNoRisk(lidarPointsPrev: seq<LidarPoint>, frameRate: real)
    requires frameRate > 0.0
    requires RobustDistance(XValues(lidarPointsPrev)) <= FallbackDistance
    ensures TtcFromDistances(RobustDistance(XValues(lidarPointsPrev)), RobustDistance(XValues([])), frameRate)
            == NoCollisionTtc
  {
    assert XValues([]) == [];
  }
}
