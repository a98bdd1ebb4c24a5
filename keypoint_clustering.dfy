/** Assignment of keypoint matches to one detected box (`clusterKptMatchesWithROI`):
    the matches whose current keypoint lies in the box, minus those whose pixel
    displacement exceeds twice the mean displacement plus one pixel. */
module KeypointClustering {
  import opened DataStructures
  import opened Seqs

  /** Whether the current-frame keypoint of a match lies in `roi`. */
  function CurrInRoi(roi: Rect, kptsCurr: seq<KeyPoint>): DMatch -> bool
  {
    (m: DMatch) => 0 <= m.trainIdx < |kptsCurr| && Contains(roi, kptsCurr[m.trainIdx].pt)
  }

  /** The pixel displacement of a match from its previous to its current
      keypoint; `norm` is the Euclidean length of a difference vector. */
  function Displacement(kptsPrev: seq<KeyPoint>, kptsCurr: seq<KeyPoint>, norm: (int, int) -> real, m: DMatch): real
    requires 0 <= m.queryIdx < |kptsPrev| && 0 <= m.trainIdx < |kptsCurr|
  {
    var prev := kptsPrev[m.queryIdx].pt;
    var curr := kptsCurr[m.trainIdx].pt;
    norm(curr.x - prev.x, curr.y - prev.y)
  }

  /** The matches paired with their displacements (`PreFilteredMatchesWithDistance`). */
  function WithDisplacements(kptsPrev: seq<KeyPoint>, kptsCurr: seq<KeyPoint>, norm: (int, int) -> real,
                             ms: seq<DMatch>): (r: seq<(DMatch, real)>)
    requires MatchesIndexInto(kptsPrev, kptsCurr, ms)
    ensures |r| == |ms|
    ensures forall k :: 0 <= k < |ms| ==> r[k] == (ms[k], Displacement(kptsPrev, kptsCurr, norm, ms[k]))
  {
    seq(|ms|, k requires 0 <= k < |ms| => (ms[k], Displacement(kptsPrev, kptsCurr, norm, ms[k])))
  }

  /** Sum of the displacements of `ms` (`distance_sum`). */
  function SumDisplacements(kptsPrev: seq<KeyPoint>, kptsCurr: seq<KeyPoint>, norm: (int, int) -> real,
                            ms: seq<DMatch>): real
    requires MatchesIndexInto(kptsPrev, kptsCurr, ms)
  {
    if |ms| == 0 then 0.0
    else SumDisplacements(kptsPrev, kptsCurr, norm, ms[..|ms| - 1])
         + Displacement(kptsPrev, kptsCurr, norm, ms[|ms| - 1])
  }

  /** The largest displacement a kept match may have: twice the mean
      displacement of `ms` plus one pixel. With no match the source divides 0
      by 0 and every comparison with the NaN fails; the value here is then never
      compared, since there is nothing to keep. */
  function DisplacementBound(kptsPrev: seq<KeyPoint>, kptsCurr: seq<KeyPoint>, norm: (int, int) -> real,
                             ms: seq<DMatch>): real
    requires MatchesIndexInto(kptsPrev, kptsCurr, ms)
  {
    if |ms| == 0 then 0.0
    else SumDisplacements(kptsPrev, kptsCurr, norm, ms) / (|ms| as real) * 2.0 + 1.0
  }

  /** Whether a match moves by at most `bound` pixels. */
  function MovesAtMost(kptsPrev: seq<KeyPoint>, kptsCurr: seq<KeyPoint>, norm: (int, int) -> real, bound: real)
    : DMatch -> bool
  {
    (m: DMatch) => 0 <= m.queryIdx < |kptsPrev| && 0 <= m.trainIdx < |kptsCurr|
         && Displacement(kptsPrev, kptsCurr, norm, m) <= bound
  }

  /** The matches of `kptMatches` in the region, in input order. */
  function ContainedMatches(roi: Rect, kptsCurr: seq<KeyPoint>, kptMatches: seq<DMatch>): seq<DMatch>
  {
    Filter(kptMatches, CurrInRoi(roi, kptsCurr))
  }

  /** The matches the box receives: the contained ones within the displacement
      bound computed over the contained ones. */
  function KeptMatches(roi: Rect, kptsPrev: seq<KeyPoint>, kptsCurr: seq<KeyPoint>, norm: (int, int) -> real,
                       kptMatches: seq<DMatch>): seq<DMatch>
    requires MatchesIndexInto(kptsPrev, kptsCurr, kptMatches)
  {
    var contained := ContainedMatches(roi, kptsCurr, kptMatches);
    ContainedAreValid(roi, kptsPrev, kptsCurr, kptMatches);
    Filter(contained, MovesAtMost(kptsPrev, kptsCurr, norm, DisplacementBound(kptsPrev, kptsCurr, norm, contained)))
  }

  /** The current keypoint of each match, in order. */
  function CurrKeypoints(kptsCurr: seq<KeyPoint>, ms: seq<DMatch>): (r: seq<KeyPoint>)
    requires forall k :: 0 <= k < |ms| ==> 0 <= ms[k].trainIdx < |kptsCurr|
    ensures |r| == |ms|
    ensures forall k :: 0 <= k < |ms| ==> r[k] == kptsCurr[ms[k].trainIdx]
  {
    seq(|ms|, k requires 0 <= k < |ms| => kptsCurr[ms[k].trainIdx])
  }

  lemma ContainedAreValid(roi: Rect, kptsPrev: seq<KeyPoint>, kptsCurr: seq<KeyPoint>, kptMatches: seq<DMatch>)
    requires MatchesIndexInto(kptsPrev, kptsCurr, kptMatches)
    ensures MatchesIndexInto(kptsPrev, kptsCurr, ContainedMatches(roi, kptsCurr, kptMatches))
  {
    var contained := ContainedMatches(roi, kptsCurr, kptMatches);
    forall k | 0 <= k < |contained|
      ensures 0 <= contained[k].queryIdx < |kptsPrev| && 0 <= contained[k].trainIdx < |kptsCurr|
    {
      FilterMembership(kptMatches, CurrInRoi(roi, kptsCurr), contained[k]);
    }
  }

  /** What the box receives: a subsequence of `kptMatches`; a match is received
      exactly when it is a match of `kptMatches` whose current keypoint lies in the
      region and whose displacement is at most twice the mean over the contained
      matches plus one; and when no match is contained, nothing. */
  lemma KeptMatchesSpec(roi: Rect, kptsPrev: seq<KeyPoint>, kptsCurr: seq<KeyPoint>, norm: (int, int) -> real,
                        kptMatches: seq<DMatch>, m: DMatch)
    requires MatchesIndexInto(kptsPrev, kptsCurr, kptMatches)
    ensures Subsequence(KeptMatches(roi, kptsPrev, kptsCurr, norm, kptMatches), kptMatches)
    ensures var contained := ContainedMatches(roi, kptsCurr, kptMatches);
      MatchesIndexInto(kptsPrev, kptsCurr, contained) &&
      (m in KeptMatches(roi, kptsPrev, kptsCurr, norm, kptMatches) <==>
        m in kptMatches && 0 <= m.queryIdx < |kptsPrev| && 0 <= m.trainIdx < |kptsCurr| &&
        Contains(roi, kptsCurr[m.trainIdx].pt) &&
        Displacement(kptsPrev, kptsCurr, norm, m) <= DisplacementBound(kptsPrev, kptsCurr, norm, contained))
    ensures ContainedMatches(roi, kptsCurr, kptMatches) == [] ==> KeptMatches(roi, kptsPrev, kptsCurr, norm, kptMatches) == []
  {
    var inRoi := CurrInRoi(roi, kptsCurr);
    var contained := ContainedMatches(roi, kptsCurr, kptMatches);
    ContainedAreValid(roi, kptsPrev, kptsCurr, kptMatches);
    var moves := MovesAtMost(kptsPrev, kptsCurr, norm, DisplacementBound(kptsPrev, kptsCurr, norm, contained));
    var kept := Filter(contained, moves);
    FilterIsSubsequence(kptMatches, inRoi);
    FilterIsSubsequence(contained, moves);
    SubsequenceTransitive(kept, contained, kptMatches);
    FilterMembership(kptMatches, inRoi, m);
    FilterMembership(contained, moves, m);
    if m in kptMatches {
      var i :| 0 <= i < |kptMatches| && kptMatches[i] == m;
    }
  }

  /** Pairing and summing extend one match at a time. */
  lemma AppendOneMatch(kptsPrev: seq<KeyPoint>, kptsCurr: seq<KeyPoint>, norm: (int, int) -> real,
                       ms: seq<DMatch>, m: DMatch)
    requires MatchesIndexInto(kptsPrev, kptsCurr, ms)
    requires 0 <= m.queryIdx < |kptsPrev| && 0 <= m.trainIdx < |kptsCurr|
    ensures MatchesIndexInto(kptsPrev, kptsCurr, ms + [m])
    ensures WithDisplacements(kptsPrev, kptsCurr, norm, ms + [m])
            == WithDisplacements(kptsPrev, kptsCurr, norm, ms) + [(m, Displacement(kptsPrev, kptsCurr, norm, m))]
    ensures SumDisplacements(kptsPrev, kptsCurr, norm, ms + [m])
            == SumDisplacements(kptsPrev, kptsCurr, norm, ms) + Displacement(kptsPrev, kptsCurr, norm, m)
  {
    var ms' := ms + [m];
    assert ms'[..|ms|] == ms;
    assert ms'[|ms|] == m;
  }

  /** The state of the first loop after the first `i` matches: the matches that
      passed `keep`, each with its displacement, and the sum of those. */
  ghost predicate PreFilterDone(kptsPrev: seq<KeyPoint>, kptsCurr: seq<KeyPoint>, norm: (int, int) -> real,
                                kptMatches: seq<DMatch>, keep: DMatch -> bool, i: nat,
                                preFiltered: seq<(DMatch, real)>, distanceSum: real)
    requires i <= |kptMatches|
  {
    MatchesIndexInto(kptsPrev, kptsCurr, Filter(kptMatches[..i], keep)) &&
    preFiltered == WithDisplacements(kptsPrev, kptsCurr, norm, Filter(kptMatches[..i], keep)) &&
    distanceSum == SumDisplacements(kptsPrev, kptsCurr, norm, Filter(kptMatches[..i], keep))
  }

  /** One turn of the first loop: a match that passes `keep` is paired with its
      displacement and added to the sum; any other match changes nothing. */
  lemma PreFilterStep(kptsPrev: seq<KeyPoint>, kptsCurr: seq<KeyPoint>, norm: (int, int) -> real,
                      kptMatches: seq<DMatch>, keep: DMatch -> bool, i: nat, sole: bool,
                      preFiltered: seq<(DMatch, real)>, distanceSum: real)
    requires MatchesIndexInto(kptsPrev, kptsCurr, kptMatches) && i < |kptMatches|
    requires sole == keep(kptMatches[i])
    requires PreFilterDone(kptsPrev, kptsCurr, norm, kptMatches, keep, i, preFiltered, distanceSum)
    ensures PreFilterDone(kptsPrev, kptsCurr, norm, kptMatches, keep, i + 1,
      if sole then preFiltered + [(kptMatches[i], Displacement(kptsPrev, kptsCurr, norm, kptMatches[i]))] else preFiltered,
      if sole then distanceSum + Displacement(kptsPrev, kptsCurr, norm, kptMatches[i]) else distanceSum)
  {
    var m := kptMatches[i];
    var before := Filter(kptMatches[..i], keep);
    assert kptMatches[..i + 1] == kptMatches[..i] + [m];
    FilterSnoc(kptMatches[..i], m, keep);
    if sole {
      assert Filter(kptMatches[..i + 1], keep) == before + [m];
      AppendOneMatch(kptsPrev, kptsCurr, norm, before, m);
    } else {
      assert Filter(kptMatches[..i + 1], keep) == before;
    }
  }

  /** The first loop of `clusterKptMatchesWithROI`: the contained matches, each
      with its displacement, and the sum of those displacements. */
  method PreFilter(roi: Rect, kptsPrev: seq<KeyPoint>, kptsCurr: seq<KeyPoint>, kptMatches: seq<DMatch>,
                   norm: (int, int) -> real)
    returns (preFiltered: seq<(DMatch, real)>, distanceSum: real)
    requires MatchesIndexInto(kptsPrev, kptsCurr, kptMatches)
    ensures MatchesIndexInto(kptsPrev, kptsCurr, ContainedMatches(roi, kptsCurr, kptMatches))
    ensures preFiltered == WithDisplacements(kptsPrev, kptsCurr, norm, ContainedMatches(roi, kptsCurr, kptMatches))
    ensures distanceSum == SumDisplacements(kptsPrev, kptsCurr, norm, ContainedMatches(roi, kptsCurr, kptMatches))
  {
    var inRoi := CurrInRoi(roi, kptsCurr);
    preFiltered := [];
    distanceSum := 0.0;
    for i := 0 to |kptMatches|
      invariant PreFilterDone(kptsPrev, kptsCurr, norm, kptMatches, inRoi, i, preFiltered, distanceSum)
    {
      var m := kptMatches[i];
      var contained := Contains(roi, kptsCurr[m.trainIdx].pt);
      assert inRoi(m) == contained;
      if contained {
        var dist := Displacement(kptsPrev, kptsCurr, norm, m);
        PreFilterStep(kptsPrev, kptsCurr, norm, kptMatches, inRoi, i, true, preFiltered, distanceSum);
        distanceSum := distanceSum + dist;
        preFiltered := preFiltered + [(m, dist)];
      } else {
        PreFilterStep(kptsPrev, kptsCurr, norm, kptMatches, inRoi, i, false, preFiltered, distanceSum);
      }
    }
    assert kptMatches[..|kptMatches|] == kptMatches;
  }

  /** `box` with the matches `kept` and their current keypoints appended: both
      lists keep their old entries and grow by |kept|, the k-th new keypoint
      is the current keypoint of the k-th new match, and the box's identifier,
      region and lidar points stay the same. */
  function WithKept(box: BoundingBox, kptsCurr: seq<KeyPoint>, kept: seq<DMatch>): (r: BoundingBox)
    requires forall k :: 0 <= k < |kept| ==> 0 <= kept[k].trainIdx < |kptsCurr|
    ensures |r.kptMatches| == |box.kptMatches| + |kept| && r.kptMatches[..|box.kptMatches|] == box.kptMatches
    ensures |r.keypoints| == |box.keypoints| + |kept| && r.keypoints[..|box.keypoints|] == box.keypoints
    ensures forall k :: 0 <= k < |kept| ==>
      r.kptMatches[|box.kptMatches| + k] == kept[k] &&
      r.keypoints[|box.keypoints| + k] == kptsCurr[r.kptMatches[|box.kptMatches| + k].trainIdx]
    ensures r.boxID == box.boxID && r.roi == box.roi && r.lidarPoints == box.lidarPoints
  {
    var ms := box.kptMatches + kept;
    var ks := box.keypoints + CurrKeypoints(kptsCurr, kept);
    assert ms[..|box.kptMatches|] == box.kptMatches;
    assert ks[..|box.keypoints|] == box.keypoints;
    box.(kptMatches := ms, keypoints := ks)
  }

  /** Every kept match has its current keypoint inside the region. */
  lemma KeptInRoi(roi: Rect, kptsPrev: seq<KeyPoint>, kptsCurr: seq<KeyPoint>, norm: (int, int) -> real,
                  kptMatches: seq<DMatch>)
    requires MatchesIndexInto(kptsPrev, kptsCurr, kptMatches)
    ensures forall k :: 0 <= k < |KeptMatches(roi, kptsPrev, kptsCurr, norm, kptMatches)| ==>
      0 <= KeptMatches(roi, kptsPrev, kptsCurr, norm, kptMatches)[k].trainIdx < |kptsCurr| &&
      Contains(roi, kptsCurr[KeptMatches(roi, kptsPrev, kptsCurr, norm, kptMatches)[k].trainIdx].pt)
  {
    var contained := ContainedMatches(roi, kptsCurr, kptMatches);
    ContainedAreValid(roi, kptsPrev, kptsCurr, kptMatches);
    var moves := MovesAtMost(kptsPrev, kptsCurr, norm, DisplacementBound(kptsPrev, kptsCurr, norm, contained));
    var kept := Filter(contained, moves);
    forall k | 0 <= k < |kept|
      ensures 0 <= kept[k].trainIdx < |kptsCurr| && Contains(roi, kptsCurr[kept[k].trainIdx].pt)
    {
      FilterMembership(contained, moves, kept[k]);
      var i :| 0 <= i < |contained| && contained[i] == kept[k];
      assert CurrInRoi(roi, kptsCurr)(contained[i]);
    }
  }

  /** One turn of the second loop: the match is appended, with its keypoint,
      exactly when the filter keeps it. */
  lemma AppendWithinStep(boundingBox: BoundingBox, updated: BoundingBox, kptsPrev: seq<KeyPoint>, kptsCurr: seq<KeyPoint>,
                         contained: seq<DMatch>, keep: DMatch -> bool, t: nat, sole: bool)
    requires MatchesIndexInto(kptsPrev, kptsCurr, contained) && t < |contained|
    requires sole == keep(contained[t])
    requires MatchesIndexInto(kptsPrev, kptsCurr, Filter(contained[..t], keep))
    requires updated == WithKept(boundingBox, kptsCurr, Filter(contained[..t], keep))
    ensures MatchesIndexInto(kptsPrev, kptsCurr, Filter(contained[..t + 1], keep))
    ensures (if sole then updated.(kptMatches := updated.kptMatches + [contained[t]],
                                   keypoints := updated.keypoints + [kptsCurr[contained[t].trainIdx]])
             else updated) == WithKept(boundingBox, kptsCurr, Filter(contained[..t + 1], keep))
  {
    var m := contained[t];
    var before := Filter(contained[..t], keep);
    assert contained[..t + 1] == contained[..t] + [m];
    FilterSnoc(contained[..t], m, keep);
    if sole {
      assert (before + [m])[..|before|] == before;
      assert CurrKeypoints(kptsCurr, before + [m]) == CurrKeypoints(kptsCurr, before) + [kptsCurr[m.trainIdx]];
      assert boundingBox.kptMatches + before + [m] == boundingBox.kptMatches + (before + [m]);
      assert boundingBox.keypoints + CurrKeypoints(kptsCurr, before) + [kptsCurr[m.trainIdx]]
             == boundingBox.keypoints + (CurrKeypoints(kptsCurr, before) + [kptsCurr[m.trainIdx]]);
    }
  }

  /** The second loop of `clusterKptMatchesWithROI`: appends to the box every
      pre-filtered match within `maxDistance`, with its current keypoint. */
  method AppendWithin(boundingBox: BoundingBox, kptsPrev: seq<KeyPoint>, kptsCurr: seq<KeyPoint>,
                      ghost contained: seq<DMatch>, norm: (int, int) -> real,
                      preFiltered: seq<(DMatch, real)>, maxDistance: real)
    returns (updated: BoundingBox)
    requires MatchesIndexInto(kptsPrev, kptsCurr, contained)
    requires preFiltered == WithDisplacements(kptsPrev, kptsCurr, norm, contained)
    ensures MatchesIndexInto(kptsPrev, kptsCurr, Filter(contained, MovesAtMost(kptsPrev, kptsCurr, norm, maxDistance)))
    ensures updated == WithKept(boundingBox, kptsCurr, Filter(contained, MovesAtMost(kptsPrev, kptsCurr, norm, maxDistance)))
  {
    ghost var moves := MovesAtMost(kptsPrev, kptsCurr, norm, maxDistance);
    updated := boundingBox;
    assert contained[..0] == [];
    for t := 0 to |preFiltered|
      invariant MatchesIndexInto(kptsPrev, kptsCurr, Filter(contained[..t], moves))
      invariant updated == WithKept(boundingBox, kptsCurr, Filter(contained[..t], moves))
    {
      var (m, dist) := preFiltered[t];
      assert m == contained[t] && dist == Displacement(kptsPrev, kptsCurr, norm, m);
      assert moves(m) == (dist <= maxDistance);
      AppendWithinStep(boundingBox, updated, kptsPrev, kptsCurr, contained, moves, t, dist <= maxDistance);
      if dist <= maxDistance {
        updated := updated.(kptMatches := updated.kptMatches + [m],
                            keypoints := updated.keypoints + [kptsCurr[m.trainIdx]]);
      }
    }
    assert contained[..|contained|] == contained;
  }

  /** `clusterKptMatchesWithROI`: the box (passed by reference in the source) is
      returned with the kept matches and their current keypoints appended. */
  method ClusterKptMatchesWithRoi(boundingBox: BoundingBox, kptsPrev: seq<KeyPoint>, kptsCurr: seq<KeyPoint>,
                                  kptMatches: seq<DMatch>, norm: (int, int) -> real)
    returns (updated: BoundingBox)
    requires MatchesIndexInto(kptsPrev, kptsCurr, kptMatches)
    ensures var kept := KeptMatches(boundingBox.roi, kptsPrev, kptsCurr, norm, kptMatches);
      MatchesIndexInto(kptsPrev, kptsCurr, kept) && updated == WithKept(boundingBox, kptsCurr, kept)
    ensures forall k :: 0 <= k < |KeptMatches(boundingBox.roi, kptsPrev, kptsCurr, norm, kptMatches)| ==>
      updated.kptMatches[|boundingBox.kptMatches| + k] == KeptMatches(boundingBox.roi, kptsPrev, kptsCurr, norm, kptMatches)[k] &&
      updated.keypoints[|boundingBox.keypoints| + k]
        == kptsCurr[KeptMatches(boundingBox.roi, kptsPrev, kptsCurr, norm, kptMatches)[k].trainIdx] &&
      Contains(boundingBox.roi, updated.keypoints[|boundingBox.keypoints| + k].pt)
  {
    var preFiltered, distanceSum := PreFilter(boundingBox.roi, kptsPrev, kptsCurr, kptMatches, norm);
    ghost var contained := ContainedMatches(boundingBox.roi, kptsCurr, kptMatches);
    var maxDistance := 0.0;
    if |preFiltered| > 0 {
      var meanDistance := distanceSum / (|preFiltered| as real);
      maxDistance := meanDistance * 2.0 + 1.0;
    }
    assert maxDistance == DisplacementBound(kptsPrev, kptsCurr, norm, contained);
    updated := AppendWithin(boundingBox, kptsPrev, kptsCurr, contained, norm, preFiltered, maxDistance);
    KeptInRoi(boundingBox.roi, kptsPrev, kptsCurr, norm, kptMatches);
  }
}
