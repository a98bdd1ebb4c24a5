/** The descriptor distance ratio test of `matchDescriptors` for k-nearest
    neighbour selection (k = 2): a query's best match is kept when it is clearly
    better than the second best. */
module DescriptorMatching {
  import opened DataStructures
  import opened Seqs

  /** `minDescDistRatio`. */
  const MinDescDistRatio: real := 0.8

  /** Every query has at least the two neighbours the test reads. */
  predicate TwoNeighbours(knnMatches: seq<seq<DMatch>>)
  {
    forall i :: 0 <= i < |knnMatches| ==> |knnMatches[i]| >= 2
  }

  /** Whether the best neighbour passes the ratio test. */
  predicate Distinctive(neighbours: seq<DMatch>)
    requires |neighbours| >= 2
  {
    neighbours[0].distance < MinDescDistRatio * neighbours[1].distance
  }

  /** The best neighbours of the queries that pass the test, in query order. */
  function RatioTestKept(knnMatches: seq<seq<DMatch>>): (kept: seq<DMatch>)
    requires TwoNeighbours(knnMatches)
    ensures |kept| <= |knnMatches|
  {
    if |knnMatches| == 0 then []
    else
      var last := knnMatches[|knnMatches| - 1];
      RatioTestKept(knnMatches[..|knnMatches| - 1]) + (if Distinctive(last) then [last[0]] else [])
  }

  /** The best neighbour of each query, in query order. */
  function BestNeighbours(knnMatches: seq<seq<DMatch>>): (best: seq<DMatch>)
    requires TwoNeighbours(knnMatches)
    ensures |best| == |knnMatches|
    ensures forall i :: 0 <= i < |knnMatches| ==> best[i] == knnMatches[i][0]
  {
    seq(|knnMatches|, i requires 0 <= i < |knnMatches| => knnMatches[i][0])
  }

  /** A match is kept exactly when it is the best neighbour of some query whose
      best distance is below 0.8 times its second best. */
  lemma {:induction false} RatioTestMembership(knnMatches: seq<seq<DMatch>>, m: DMatch)
    requires TwoNeighbours(knnMatches)
    ensures m in RatioTestKept(knnMatches) <==>
            exists i :: 0 <= i < |knnMatches| && Distinctive(knnMatches[i]) && m == knnMatches[i][0]
  {
    if |knnMatches| > 0 {
      var n := |knnMatches|;
      var init := knnMatches[..n - 1];
      var last := knnMatches[n - 1];
      RatioTestMembership(init, m);
      assert RatioTestKept(knnMatches) == RatioTestKept(init) + (if Distinctive(last) then [last[0]] else []);
      if exists i :: 0 <= i < n && Distinctive(knnMatches[i]) && m == knnMatches[i][0] {
        var i :| 0 <= i < n && Distinctive(knnMatches[i]) && m == knnMatches[i][0];
        if i < n - 1 {
          assert init[i] == knnMatches[i];
        }
      }
      if m in RatioTestKept(init) {
        var i :| 0 <= i < n - 1 && Distinctive(init[i]) && m == init[i][0];
        assert knnMatches[i] == init[i];
      }
    }
  }

  /** The kept matches keep query order: they are a subsequence of the best
      neighbours. */
  lemma {:induction false} RatioTestKeepsOrder(knnMatches: seq<seq<DMatch>>)
    requires TwoNeighbours(knnMatches)
    ensures Subsequence(RatioTestKept(knnMatches), BestNeighbours(knnMatches))
  {
    if |knnMatches| > 0 {
      var n := |knnMatches|;
      var init := knnMatches[..n - 1];
      var last := knnMatches[n - 1];
      RatioTestKeepsOrder(init);
      var best := BestNeighbours(knnMatches);
      var kept := RatioTestKept(knnMatches);
      assert best[..n - 1] == BestNeighbours(init);
      if Distinctive(last) {
        assert kept[..|kept| - 1] == RatioTestKept(init);
        assert kept[|kept| - 1] == best[n - 1];
      } else {
        assert kept == RatioTestKept(init);
      }
    }
  }

  /** The filtering loop of the kNN branch: `matches` (an out-parameter the source
      appends to) is returned with the kept matches appended. */
  method RatioTestFilter(knnMatches: seq<seq<DMatch>>, matchesIn: seq<DMatch>) returns (matches: seq<DMatch>)
    requires TwoNeighbours(knnMatches)
    ensures matches == matchesIn + RatioTestKept(knnMatches)
  {
    matches := matchesIn;
    for i := 0 to |knnMatches|
      invariant matches == matchesIn + RatioTestKept(knnMatches[..i])
    {
      assert knnMatches[..i + 1][..i] == knnMatches[..i];
      var neighbours := knnMatches[i];
      if neighbours[0].distance < MinDescDistRatio * neighbours[1].distance {
        matches := matches + [neighbours[0]];
      }
    }
    assert knnMatches[..|knnMatches|] == knnMatches;
  }
}
