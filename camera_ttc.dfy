/** The camera-based time-to-collision estimate (`computeTTCCamera`): the ratio
    of current to previous distance for every pair of matched keypoints, kept
    when the pair is far enough apart in the current frame, and the median
    ratio turned into a time. */
module CameraTtc {
  import opened DataStructures
  import opened OrderStats

  /** The outcome of the estimate. The source has no error path: with no
      surviving ratio it reads element 0 of an empty vector, and with a median
      ratio of exactly 1 it divides by zero. */
  datatype TtcResult = Ttc(seconds: real) | InsufficientCorrespondences | Indeterminate

  /** The distance between two keypoints in the previous and in the current frame. */
  datatype DistancePair = DistancePair(prev: real, curr: real)

  /** The pair formed by matches `i` (`match_it1`) and `j` (`match_it2`); each
      distance is the norm of the second keypoint minus the first. */
  function PairOf(kptsPrev: seq<KeyPoint>, kptsCurr: seq<KeyPoint>, norm: (int, int) -> real,
                  ms: seq<DMatch>, i: nat, j: nat): DistancePair
    requires MatchesIndexInto(kptsPrev, kptsCurr, ms)
    requires i < |ms| && j < |ms|
  {
    var p1, c1 := kptsPrev[ms[i].queryIdx].pt, kptsCurr[ms[i].trainIdx].pt;
    var p2, c2 := kptsPrev[ms[j].queryIdx].pt, kptsCurr[ms[j].trainIdx].pt;
    DistancePair(norm(p2.x - p1.x, p2.y - p1.y), norm(c2.x - c1.x, c2.y - c1.y))
  }

  /** The pairs of match `i` with matches `i + 1`, ..., `j - 1`, in order. */
  function RowPairs(kptsPrev: seq<KeyPoint>, kptsCurr: seq<KeyPoint>, norm: (int, int) -> real,
                    ms: seq<DMatch>, i: nat, j: nat): (r: seq<DistancePair>)
    requires MatchesIndexInto(kptsPrev, kptsCurr, ms)
    requires i < |ms| && j <= |ms|
    ensures |r| == if j <= i + 1 then 0 else j - i - 1
  {
    if j <= i + 1 then []
    else RowPairs(kptsPrev, kptsCurr, norm, ms, i, j - 1) + [PairOf(kptsPrev, kptsCurr, norm, ms, i, j - 1)]
  }

  /** The pairs the nested loops emit while the outer index runs below `rows`
      (`distance_pairs`). */
  function AllPairs(kptsPrev: seq<KeyPoint>, kptsCurr: seq<KeyPoint>, norm: (int, int) -> real,
                    ms: seq<DMatch>, rows: nat): seq<DistancePair>
    requires MatchesIndexInto(kptsPrev, kptsCurr, ms)
    requires rows <= |ms|
  {
    if rows == 0 then []
    else AllPairs(kptsPrev, kptsCurr, norm, ms, rows - 1) + RowPairs(kptsPrev, kptsCurr, norm, ms, rows - 1, |ms|)
  }

  /** A row holds exactly the pairs of `i` with the later matches below `j`. */
  lemma {:induction false} RowPairsMembership(kptsPrev: seq<KeyPoint>, kptsCurr: seq<KeyPoint>, norm: (int, int) -> real,
                                              ms: seq<DMatch>, i: nat, j: nat, d: DistancePair)
    requires MatchesIndexInto(kptsPrev, kptsCurr, ms)
    requires i < |ms| && j <= |ms|
    ensures d in RowPairs(kptsPrev, kptsCurr, norm, ms, i, j) <==>
            exists k :: i < k < j && d == PairOf(kptsPrev, kptsCurr, norm, ms, i, k)
    decreases j
  {
    if j > i + 1 {
      var init := RowPairs(kptsPrev, kptsCurr, norm, ms, i, j - 1);
      var last := PairOf(kptsPrev, kptsCurr, norm, ms, i, j - 1);
      RowPairsMembership(kptsPrev, kptsCurr, norm, ms, i, j - 1, d);
      assert RowPairs(kptsPrev, kptsCurr, norm, ms, i, j) == init + [last];
      if d in init + [last] {
        if d == last {
          assert i < j - 1 < j;
        } else {
          assert d in init;
          var k :| i < k < j - 1 && d == PairOf(kptsPrev, kptsCurr, norm, ms, i, k);
          assert i < k < j;
        }
      } else {
        assert d !in init && d != last;
        forall k | i < k < j ensures d != PairOf(kptsPrev, kptsCurr, norm, ms, i, k) {
          if k == j - 1 {
            assert PairOf(kptsPrev, kptsCurr, norm, ms, i, k) == last;
          }
        }
      }
    }
  }

  /** `distance_pairs` holds exactly the pairs of two matches `i < j`. */
  lemma {:induction false} AllPairsSpec(kptsPrev: seq<KeyPoint>, kptsCurr: seq<KeyPoint>, norm: (int, int) -> real,
                                        ms: seq<DMatch>, rows: nat, d: DistancePair)
    requires MatchesIndexInto(kptsPrev, kptsCurr, ms)
    requires rows <= |ms|
    ensures d in AllPairs(kptsPrev, kptsCurr, norm, ms, rows) <==>
            exists i, j :: 0 <= i < rows && i < j < |ms| && d == PairOf(kptsPrev, kptsCurr, norm, ms, i, j)
  {
    if rows > 0 {
      var n := |ms|;
      AllPairsSpec(kptsPrev, kptsCurr, norm, ms, rows - 1, d);
      RowPairsMembership(kptsPrev, kptsCurr, norm, ms, rows - 1, n, d);
      if d in AllPairs(kptsPrev, kptsCurr, norm, ms, rows) {
        if d in AllPairs(kptsPrev, kptsCurr, norm, ms, rows - 1) {
          var i, j :| 0 <= i < rows - 1 && i < j < n && d == PairOf(kptsPrev, kptsCurr, norm, ms, i, j);
          assert 0 <= i < rows;
        } else {
          var k :| rows - 1 < k < n && d == PairOf(kptsPrev, kptsCurr, norm, ms, rows - 1, k);
          assert 0 <= rows - 1 < rows;
        }
      }
      if exists i, j :: 0 <= i < rows && i < j < n && d == PairOf(kptsPrev, kptsCurr, norm, ms, i, j) {
        var i, j :| 0 <= i < rows && i < j < n && d == PairOf(kptsPrev, kptsCurr, norm, ms, i, j);
        if i < rows - 1 {
          assert d in AllPairs(kptsPrev, kptsCurr, norm, ms, rows - 1);
        } else {
          assert d in RowPairs(kptsPrev, kptsCurr, norm, ms, rows - 1, n);
        }
      }
    }
  }

  /** Row `r` extends the first `r` rows: earlier positions keep their pairs and
      the new positions hold row `r`. */
  lemma AllPairsAt(kptsPrev: seq<KeyPoint>, kptsCurr: seq<KeyPoint>, norm: (int, int) -> real,
                   ms: seq<DMatch>, r: nat, p: nat)
    requires MatchesIndexInto(kptsPrev, kptsCurr, ms)
    requires r < |ms|
    ensures |AllPairs(kptsPrev, kptsCurr, norm, ms, r + 1)|
            == |AllPairs(kptsPrev, kptsCurr, norm, ms, r)| + (|ms| - r - 1)
    ensures p < |AllPairs(kptsPrev, kptsCurr, norm, ms, r)| ==>
            AllPairs(kptsPrev, kptsCurr, norm, ms, r + 1)[p] == AllPairs(kptsPrev, kptsCurr, norm, ms, r)[p]
    ensures |AllPairs(kptsPrev, kptsCurr, norm, ms, r)| <= p < |AllPairs(kptsPrev, kptsCurr, norm, ms, r + 1)| ==>
            AllPairs(kptsPrev, kptsCurr, norm, ms, r + 1)[p]
            == RowPairs(kptsPrev, kptsCurr, norm, ms, r, |ms|)[p - |AllPairs(kptsPrev, kptsCurr, norm, ms, r)|]
  {
  }

  /** Row `i` holds the pair of `i` with `k` at position `k - i - 1`. */
  lemma {:induction false} RowPairsIndex(kptsPrev: seq<KeyPoint>, kptsCurr: seq<KeyPoint>, norm: (int, int) -> real,
                                         ms: seq<DMatch>, i: nat, j: nat, k: nat)
    requires MatchesIndexInto(kptsPrev, kptsCurr, ms)
    requires i < |ms| && j <= |ms| && i < k < j
    ensures RowPairs(kptsPrev, kptsCurr, norm, ms, i, j)[k - i - 1] == PairOf(kptsPrev, kptsCurr, norm, ms, i, k)
    decreases j
  {
    var init := RowPairs(kptsPrev, kptsCurr, norm, ms, i, j - 1);
    assert RowPairs(kptsPrev, kptsCurr, norm, ms, i, j) == init + [PairOf(kptsPrev, kptsCurr, norm, ms, i, j - 1)];
    if k < j - 1 {
      RowPairsIndex(kptsPrev, kptsCurr, norm, ms, i, j - 1, k);
    }
  }

  /** The number of pairs the rows before row `i` emit for `n` matches. */
  function RowStart(n: nat, i: nat): nat
    requires i <= n
  {
    if i == 0 then 0 else RowStart(n, i - 1) + (n - i)
  }

  /** The first `rows` rows hold `RowStart(|ms|, rows)` pairs. */
  lemma {:induction false} AllPairsRowStart(kptsPrev: seq<KeyPoint>, kptsCurr: seq<KeyPoint>, norm: (int, int) -> real,
                                            ms: seq<DMatch>, rows: nat)
    requires MatchesIndexInto(kptsPrev, kptsCurr, ms)
    requires rows <= |ms|
    ensures |AllPairs(kptsPrev, kptsCurr, norm, ms, rows)| == RowStart(|ms|, rows)
  {
    if rows > 0 {
      AllPairsRowStart(kptsPrev, kptsCurr, norm, ms, rows - 1);
    }
  }

  /** Later rows only append: a position of the first `k` rows keeps its pair. */
  lemma {:induction false} AllPairsStable(kptsPrev: seq<KeyPoint>, kptsCurr: seq<KeyPoint>, norm: (int, int) -> real,
                                          ms: seq<DMatch>, k: nat, m: nat, p: nat)
    requires MatchesIndexInto(kptsPrev, kptsCurr, ms)
    requires k <= m <= |ms| && p < |AllPairs(kptsPrev, kptsCurr, norm, ms, k)|
    ensures p < |AllPairs(kptsPrev, kptsCurr, norm, ms, m)|
    ensures AllPairs(kptsPrev, kptsCurr, norm, ms, m)[p] == AllPairs(kptsPrev, kptsCurr, norm, ms, k)[p]
    decreases m - k
  {
    if k < m {
      AllPairsAt(kptsPrev, kptsCurr, norm, ms, k, p);
      AllPairsStable(kptsPrev, kptsCurr, norm, ms, k + 1, m, p);
    }
  }

  /** Row `i` puts the pair `(i, j)` at position `RowStart(n, i) + j - i - 1`. */
  lemma AllPairsRowEntry(kptsPrev: seq<KeyPoint>, kptsCurr: seq<KeyPoint>, norm: (int, int) -> real,
                         ms: seq<DMatch>, i: nat, j: nat, pos: nat)
    requires MatchesIndexInto(kptsPrev, kptsCurr, ms)
    requires i < j < |ms|
    requires pos == RowStart(|ms|, i) + (j - i - 1)
    ensures pos < |AllPairs(kptsPrev, kptsCurr, norm, ms, i + 1)|
    ensures AllPairs(kptsPrev, kptsCurr, norm, ms, i + 1)[pos] == PairOf(kptsPrev, kptsCurr, norm, ms, i, j)
  {
    var before := AllPairs(kptsPrev, kptsCurr, norm, ms, i);
    var row := RowPairs(kptsPrev, kptsCurr, norm, ms, i, |ms|);
    AllPairsRowStart(kptsPrev, kptsCurr, norm, ms, i);
    AllPairsAt(kptsPrev, kptsCurr, norm, ms, i, pos);
    assert pos - |before| == j - i - 1;
    RowPairsIndex(kptsPrev, kptsCurr, norm, ms, i, |ms|, j);
  }

  /** The nested loops emit the pair `(i, j)` at position `pos`, which is
      `RowStart(n, i) + j - i - 1`: right after the pairs of the earlier rows. */
  lemma AllPairsIndex(kptsPrev: seq<KeyPoint>, kptsCurr: seq<KeyPoint>, norm: (int, int) -> real,
                      ms: seq<DMatch>, rows: nat, i: nat, j: nat, pos: nat)
    requires MatchesIndexInto(kptsPrev, kptsCurr, ms)
    requires rows <= |ms| && i < rows && i < j < |ms|
    requires pos == RowStart(|ms|, i) + (j - i - 1)
    ensures pos < |AllPairs(kptsPrev, kptsCurr, norm, ms, rows)|
    ensures AllPairs(kptsPrev, kptsCurr, norm, ms, rows)[pos] == PairOf(kptsPrev, kptsCurr, norm, ms, i, j)
  {
    AllPairsRowEntry(kptsPrev, kptsCurr, norm, ms, i, j, pos);
    AllPairsStable(kptsPrev, kptsCurr, norm, ms, i + 1, rows, pos);
  }

  /** Every position below `RowStart(n, rows)` lies in the stretch of some row
      `i < rows`. */
  lemma {:induction false} RowOfPosition(n: nat, rows: nat, p: nat)
    requires rows <= n && p < RowStart(n, rows)
    ensures exists i :: 0 <= i < rows && RowStart(n, i) <= p < RowStart(n, i) + (n - i - 1)
  {
    if p < RowStart(n, rows - 1) {
      RowOfPosition(n, rows - 1, p);
      var i :| 0 <= i < rows - 1 && RowStart(n, i) <= p < RowStart(n, i) + (n - i - 1);
      assert 0 <= i < rows;
    } else {
      assert RowStart(n, rows - 1) <= p < RowStart(n, rows - 1) + (n - (rows - 1) - 1);
    }
  }

  /** Conversely, every position of `distance_pairs` is the position
      `AllPairsIndex` gives to some pair `(i, j)` with `i < j`, and holds that
      pair; so each pair is emitted exactly once. */
  lemma AllPairsPosition(kptsPrev: seq<KeyPoint>, kptsCurr: seq<KeyPoint>, norm: (int, int) -> real,
                         ms: seq<DMatch>, rows: nat, p: nat)
    requires MatchesIndexInto(kptsPrev, kptsCurr, ms)
    requires rows <= |ms| && p < |AllPairs(kptsPrev, kptsCurr, norm, ms, rows)|
    ensures exists i, j ::
              0 <= i < rows && i < j < |ms| && p == RowStart(|ms|, i) + (j - i - 1) &&
              AllPairs(kptsPrev, kptsCurr, norm, ms, rows)[p] == PairOf(kptsPrev, kptsCurr, norm, ms, i, j)
  {
    AllPairsRowStart(kptsPrev, kptsCurr, norm, ms, rows);
    RowOfPosition(|ms|, rows, p);
    var i :| 0 <= i < rows && RowStart(|ms|, i) <= p < RowStart(|ms|, i) + (|ms| - i - 1);
    var j := p - RowStart(|ms|, i) + i + 1;
    AllPairsIndex(kptsPrev, kptsCurr, norm, ms, rows, i, j, p);
  }

  /** `distance_pairs` has one entry per pair `i < j`: `n * (n - 1) / 2` for `n`
      matches once every row is done. */
  lemma {:induction false} AllPairsLength(kptsPrev: seq<KeyPoint>, kptsCurr: seq<KeyPoint>, norm: (int, int) -> real,
                                          ms: seq<DMatch>, rows: nat)
    requires MatchesIndexInto(kptsPrev, kptsCurr, ms)
    requires rows <= |ms|
    ensures 2 * |AllPairs(kptsPrev, kptsCurr, norm, ms, rows)| == rows * (2 * |ms| - rows - 1)
  {
    if rows > 0 {
      var n := |ms|;
      AllPairsLength(kptsPrev, kptsCurr, norm, ms, rows - 1);
      var prevLen := |AllPairs(kptsPrev, kptsCurr, norm, ms, rows - 1)|;
      assert |AllPairs(kptsPrev, kptsCurr, norm, ms, rows)| == prevLen + (n - rows);
      PairCountStep(prevLen, rows, n);
    }
  }

  /** The arithmetic of one more row: `n - rows` new pairs. */
  lemma PairCountStep(prevLen: int, rows: int, n: int)
    requires 2 * prevLen == (rows - 1) * (2 * n - rows)
    ensures 2 * (prevLen + (n - rows)) == rows * (2 * n - rows - 1)
  {
    var x := rows * (2 * n - rows);
    assert (rows - 1) * (2 * n - rows) == x - (2 * n - rows);
    assert rows * (2 * n - rows - 1) == x - rows;
  }

  /** The running maximum `max_point_dist` of the current distances, started at 0. */
  function MaxCurr(pairs: seq<DistancePair>): (m: real)
    ensures m >= 0.0
    ensures forall k :: 0 <= k < |pairs| ==> pairs[k].curr <= m
  {
    if |pairs| == 0 then 0.0
    else
      var m := MaxCurr(pairs[..|pairs| - 1]);
      if pairs[|pairs| - 1].curr > m then pairs[|pairs| - 1].curr else m
  }

  /** The running maximum is 0 or one of the current distances. */
  lemma {:induction false} MaxCurrAttained(pairs: seq<DistancePair>)
    ensures MaxCurr(pairs) == 0.0 || exists k :: 0 <= k < |pairs| && MaxCurr(pairs) == pairs[k].curr
  {
    if |pairs| > 0 {
      var init := pairs[..|pairs| - 1];
      MaxCurrAttained(init);
      if MaxCurr(pairs) != 0.0 && MaxCurr(pairs) == MaxCurr(init) {
        var k :| 0 <= k < |init| && MaxCurr(init) == init[k].curr;
        assert pairs[k] == init[k];
      }
    }
  }

  /** Whether a pair yields a ratio: a positive previous distance and a current
      distance above half of `maxPointDist`. */
  predicate Usable(pair: DistancePair, maxPointDist: real)
  {
    pair.prev > 0.0 && pair.curr > maxPointDist / 2.0
  }

  /** `filtered_distance_ratios`: current over previous distance of every usable
      pair, in order. */
  function Ratios(pairs: seq<DistancePair>, maxPointDist: real): seq<real>
  {
    if |pairs| == 0 then []
    else
      var last := pairs[|pairs| - 1];
      Ratios(pairs[..|pairs| - 1], maxPointDist)
        + (if Usable(last, maxPointDist) then [last.curr / last.prev] else [])
  }

  /** A value is a ratio exactly when some usable pair produces it. */
  lemma {:induction false} RatiosMembership(pairs: seq<DistancePair>, maxPointDist: real, r: real)
    ensures r in Ratios(pairs, maxPointDist) <==>
            exists k :: 0 <= k < |pairs| && Usable(pairs[k], maxPointDist) && r == pairs[k].curr / pairs[k].prev
  {
    if |pairs| > 0 {
      var init := pairs[..|pairs| - 1];
      RatiosMembership(init, maxPointDist, r);
      if exists k :: 0 <= k < |pairs| && Usable(pairs[k], maxPointDist) && r == pairs[k].curr / pairs[k].prev {
        var k :| 0 <= k < |pairs| && Usable(pairs[k], maxPointDist) && r == pairs[k].curr / pairs[k].prev;
        if k < |init| {
          assert init[k] == pairs[k];
        }
      }
      if r in Ratios(init, maxPointDist) {
        var k :| 0 <= k < |init| && Usable(init[k], maxPointDist) && r == init[k].curr / init[k].prev;
        assert pairs[k] == init[k];
      }
    }
  }

  /** The ratios of the matches' keypoint pairs. */
  function DistanceRatios(kptsPrev: seq<KeyPoint>, kptsCurr: seq<KeyPoint>, norm: (int, int) -> real,
                          kptMatches: seq<DMatch>): seq<real>
    requires MatchesIndexInto(kptsPrev, kptsCurr, kptMatches)
  {
    var pairs := AllPairs(kptsPrev, kptsCurr, norm, kptMatches, |kptMatches|);
    Ratios(pairs, MaxCurr(pairs))
  }

  /** The TTC from the median ratio: `1 / (frameRate * (median - 1))`, which
      the source evaluates even when the denominator is zero. */
  function TtcFromMedian(medianDistRatio: real, frameRate: real): (ttc: TtcResult)
    ensures ttc == Indeterminate <==> frameRate == 0.0 || medianDistRatio == 1.0
    ensures ttc != InsufficientCorrespondences
    ensures ttc.Ttc? ==> ttc.seconds * (frameRate * (medianDistRatio - 1.0)) == 1.0
    ensures frameRate > 0.0 && medianDistRatio > 1.0 ==> ttc.Ttc? && ttc.seconds > 0.0
    ensures frameRate > 0.0 && medianDistRatio < 1.0 ==> ttc.Ttc? && ttc.seconds < 0.0
  {
    var denominator := frameRate * (medianDistRatio - 1.0);
    if denominator == 0.0 then Indeterminate
    else
      assert denominator != 0.0 <==> frameRate != 0.0 && medianDistRatio != 1.0;
      Ttc(1.0 / denominator)
  }

  /** The estimate from the surviving ratios: it fails for want of
      correspondences exactly when there is none, otherwise it is the TTC of
      their median. */
  function TtcFromRatios(ratios: seq<real>, frameRate: real): (ttc: TtcResult)
    ensures ttc == InsufficientCorrespondences <==> |ratios| == 0
    ensures |ratios| > 0 ==> ttc == TtcFromMedian(Median(ratios), frameRate)
  {
    if |ratios| == 0 then InsufficientCorrespondences
    else TtcFromMedian(Median(ratios), frameRate)
  }

  /** The median ratio the TTC uses lies between two surviving ratios, with at
      most half of them below it and at most half above it. */
  lemma MedianRatioSpec(kptsPrev: seq<KeyPoint>, kptsCurr: seq<KeyPoint>, norm: (int, int) -> real,
                        kptMatches: seq<DMatch>)
    requires MatchesIndexInto(kptsPrev, kptsCurr, kptMatches)
    requires |DistanceRatios(kptsPrev, kptsCurr, norm, kptMatches)| > 0
    ensures exists i :: 0 <= i < |DistanceRatios(kptsPrev, kptsCurr, norm, kptMatches)| &&
              DistanceRatios(kptsPrev, kptsCurr, norm, kptMatches)[i]
              <= Median(DistanceRatios(kptsPrev, kptsCurr, norm, kptMatches))
    ensures exists j :: 0 <= j < |DistanceRatios(kptsPrev, kptsCurr, norm, kptMatches)| &&
              Median(DistanceRatios(kptsPrev, kptsCurr, norm, kptMatches))
              <= DistanceRatios(kptsPrev, kptsCurr, norm, kptMatches)[j]
    ensures Count(DistanceRatios(kptsPrev, kptsCurr, norm, kptMatches),
                  Below(Median(DistanceRatios(kptsPrev, kptsCurr, norm, kptMatches))))
            <= |DistanceRatios(kptsPrev, kptsCurr, norm, kptMatches)| / 2
    ensures Count(DistanceRatios(kptsPrev, kptsCurr, norm, kptMatches),
                  Above(Median(DistanceRatios(kptsPrev, kptsCurr, norm, kptMatches))))
            <= |DistanceRatios(kptsPrev, kptsCurr, norm, kptMatches)| / 2
  {
    MedianWithinRange(DistanceRatios(kptsPrev, kptsCurr, norm, kptMatches));
    MedianSplitsHalves(DistanceRatios(kptsPrev, kptsCurr, norm, kptMatches));
  }

  /** Every surviving ratio, and only those, is current over previous distance
      of a usable pair of two matches. */
  lemma DistanceRatiosMembership(kptsPrev: seq<KeyPoint>, kptsCurr: seq<KeyPoint>, norm: (int, int) -> real,
                                 kptMatches: seq<DMatch>, r: real)
    requires MatchesIndexInto(kptsPrev, kptsCurr, kptMatches)
    ensures r in DistanceRatios(kptsPrev, kptsCurr, norm, kptMatches) <==>
            exists d :: d in AllPairs(kptsPrev, kptsCurr, norm, kptMatches, |kptMatches|) &&
              Usable(d, MaxCurr(AllPairs(kptsPrev, kptsCurr, norm, kptMatches, |kptMatches|))) && r == d.curr / d.prev
  {
    var pairs := AllPairs(kptsPrev, kptsCurr, norm, kptMatches, |kptMatches|);
    RatiosMembership(pairs, MaxCurr(pairs), r);
    if exists d :: d in pairs && Usable(d, MaxCurr(pairs)) && r == d.curr / d.prev {
      var d :| d in pairs && Usable(d, MaxCurr(pairs)) && r == d.curr / d.prev;
      var k :| 0 <= k < |pairs| && pairs[k] == d;
    }
  }

  /** The running maximum after one more pair. */
  lemma MaxCurrSnoc(pairs: seq<DistancePair>, pair: DistancePair)
    ensures MaxCurr(pairs + [pair]) == if pair.curr > MaxCurr(pairs) then pair.curr else MaxCurr(pairs)
  {
    assert (pairs + [pair])[..|pairs|] == pairs;
  }

  /** One more step of the inner loop extends the row by the pair of `i` and `j`. */
  lemma RowPairsSnoc(kptsPrev: seq<KeyPoint>, kptsCurr: seq<KeyPoint>, norm: (int, int) -> real,
                     ms: seq<DMatch>, i: nat, j: nat, prefix: seq<DistancePair>)
    requires MatchesIndexInto(kptsPrev, kptsCurr, ms)
    requires i < j < |ms|
    ensures prefix + RowPairs(kptsPrev, kptsCurr, norm, ms, i, j + 1)
            == prefix + RowPairs(kptsPrev, kptsCurr, norm, ms, i, j) + [PairOf(kptsPrev, kptsCurr, norm, ms, i, j)]
  {
    var row := RowPairs(kptsPrev, kptsCurr, norm, ms, i, j);
    var pair := PairOf(kptsPrev, kptsCurr, norm, ms, i, j);
    assert RowPairs(kptsPrev, kptsCurr, norm, ms, i, j + 1) == row + [pair];
    assert prefix + (row + [pair]) == prefix + row + [pair];
  }

  /** Before the inner loop, the row of match `i` is empty. */
  lemma RowPairsStart(kptsPrev: seq<KeyPoint>, kptsCurr: seq<KeyPoint>, norm: (int, int) -> real,
                      ms: seq<DMatch>, i: nat, prefix: seq<DistancePair>)
    requires MatchesIndexInto(kptsPrev, kptsCurr, ms)
    requires i < |ms|
    ensures prefix + RowPairs(kptsPrev, kptsCurr, norm, ms, i, i + 1) == prefix
  {
    assert RowPairs(kptsPrev, kptsCurr, norm, ms, i, i + 1) == [];
  }

  /** The state of the inner loop for match `i` before match `j`: the pairs of
      `i` with the matches before `j` follow `pairsIn`, and `maxPointDist` is
      their running maximum. */
  ghost predicate RowDone(kptsPrev: seq<KeyPoint>, kptsCurr: seq<KeyPoint>, norm: (int, int) -> real,
                          ms: seq<DMatch>, i: nat, j: nat, pairsIn: seq<DistancePair>,
                          distancePairs: seq<DistancePair>, maxPointDist: real)
    requires MatchesIndexInto(kptsPrev, kptsCurr, ms)
    requires i < |ms| && j <= |ms|
  {
    distancePairs == pairsIn + RowPairs(kptsPrev, kptsCurr, norm, ms, i, j) && maxPointDist == MaxCurr(distancePairs)
  }

  /** One turn of the inner loop: the pair of matches `i` and `j` is appended
      and the running maximum updated. */
  method AppendPair(kptsPrev: seq<KeyPoint>, kptsCurr: seq<KeyPoint>, kptMatches: seq<DMatch>,
                    norm: (int, int) -> real, i: nat, j: nat, pairsIn: seq<DistancePair>,
                    distancePairs: seq<DistancePair>, maxPointDist: real)
    returns (distancePairs': seq<DistancePair>, maxPointDist': real)
    requires MatchesIndexInto(kptsPrev, kptsCurr, kptMatches)
    requires i < j < |kptMatches|
    requires RowDone(kptsPrev, kptsCurr, norm, kptMatches, i, j, pairsIn, distancePairs, maxPointDist)
    ensures RowDone(kptsPrev, kptsCurr, norm, kptMatches, i, j + 1, pairsIn, distancePairs', maxPointDist')
  {
    var pair := PairOf(kptsPrev, kptsCurr, norm, kptMatches, i, j);
    MaxCurrSnoc(distancePairs, pair);
    RowPairsSnoc(kptsPrev, kptsCurr, norm, kptMatches, i, j, pairsIn);
    distancePairs' := distancePairs + [pair];
    maxPointDist' := maxPointDist;
    if pair.curr > maxPointDist {
      maxPointDist' := pair.curr;
    }
  }

  /** The inner loop for match `i` (`match_it1`): appends its pairs with every
      later match and keeps the running maximum. */
  method AppendRow(kptsPrev: seq<KeyPoint>, kptsCurr: seq<KeyPoint>, kptMatches: seq<DMatch>,
                   norm: (int, int) -> real, i: nat, pairsIn: seq<DistancePair>, maxIn: real)
    returns (distancePairs: seq<DistancePair>, maxPointDist: real)
    requires MatchesIndexInto(kptsPrev, kptsCurr, kptMatches)
    requires i < |kptMatches| && maxIn == MaxCurr(pairsIn)
    ensures distancePairs == pairsIn + RowPairs(kptsPrev, kptsCurr, norm, kptMatches, i, |kptMatches|)
    ensures maxPointDist == MaxCurr(distancePairs)
  {
    distancePairs, maxPointDist := pairsIn, maxIn;
    RowPairsStart(kptsPrev, kptsCurr, norm, kptMatches, i, pairsIn);
    for j := i + 1 to |kptMatches|
      invariant RowDone(kptsPrev, kptsCurr, norm, kptMatches, i, j, pairsIn, distancePairs, maxPointDist)
    {
      distancePairs, maxPointDist :=
        AppendPair(kptsPrev, kptsCurr, kptMatches, norm, i, j, pairsIn, distancePairs, maxPointDist);
    }
  }

  /** The nested loops over the matches: every pair of match `i` with a later
      match `j`, and the largest current distance among them. */
  method CollectPairs(kptsPrev: seq<KeyPoint>, kptsCurr: seq<KeyPoint>, kptMatches: seq<DMatch>,
                      norm: (int, int) -> real)
    returns (distancePairs: seq<DistancePair>, maxPointDist: real)
    requires MatchesIndexInto(kptsPrev, kptsCurr, kptMatches)
    ensures distancePairs == AllPairs(kptsPrev, kptsCurr, norm, kptMatches, |kptMatches|)
    ensures maxPointDist == MaxCurr(distancePairs)
  {
    distancePairs := [];
    maxPointDist := 0.0;
    for i := 0 to |kptMatches|
      invariant distancePairs == AllPairs(kptsPrev, kptsCurr, norm, kptMatches, i)
      invariant maxPointDist == MaxCurr(distancePairs)
    {
      distancePairs, maxPointDist := AppendRow(kptsPrev, kptsCurr, kptMatches, norm, i, distancePairs, maxPointDist);
    }
  }

  /** The filtering loop that fills `filtered_distance_ratios`. */
  method FilterRatios(distancePairs: seq<DistancePair>, maxPointDist: real) returns (ratios: seq<real>)
    ensures ratios == Ratios(distancePairs, maxPointDist)
  {
    ratios := [];
    for k := 0 to |distancePairs|
      invariant ratios == Ratios(distancePairs[..k], maxPointDist)
    {
      var pair := distancePairs[k];
      assert distancePairs[..k + 1][..k] == distancePairs[..k];
      if pair.prev > 0.0 && pair.curr > maxPointDist / 2.0 {
        ratios := ratios + [pair.curr / pair.prev];
      }
    }
    assert distancePairs[..|distancePairs|] == distancePairs;
  }

  /** The two `nth_element` calls and the averaging that give the median: each
      call leaves at the probed index the element the ascending order puts there. */
  method MedianOf(ratios: seq<real>) returns (medianDistRatio: real)
    requires |ratios| > 0
    ensures medianDistRatio == Median(ratios)
  {
    var n := |ratios|;
    var arranged := NthElement(ratios, n / 2);
    NthElementIsKthSmallest(ratios, arranged, n / 2);
    medianDistRatio := arranged[n / 2];
    if n % 2 == 0 {
      var idx := n / 2 - 1;
      var rearranged := NthElement(arranged, idx);
      assert NthElementPlaced(ratios, rearranged, idx);
      NthElementIsKthSmallest(ratios, rearranged, idx);
      medianDistRatio := (medianDistRatio + rearranged[idx]) / 2.0;
    }
  }

  /** `computeTTCCamera` without the drawing: the TTC returned in place of the
      `TTC` out-parameter. */
  method ComputeTtcCamera(kptsPrev: seq<KeyPoint>, kptsCurr: seq<KeyPoint>, kptMatches: seq<DMatch>,
                          frameRate: real, norm: (int, int) -> real)
    returns (ttc: TtcResult)
    requires MatchesIndexInto(kptsPrev, kptsCurr, kptMatches)
    ensures ttc == TtcFromRatios(DistanceRatios(kptsPrev, kptsCurr, norm, kptMatches), frameRate)
  {
    var distancePairs, maxPointDist := CollectPairs(kptsPrev, kptsCurr, kptMatches, norm);
    var ratios := FilterRatios(distancePairs, maxPointDist);
    assert ratios == DistanceRatios(kptsPrev, kptsCurr, norm, kptMatches);
    if |ratios| == 0 {
      ttc := InsufficientCorrespondences;
    } else {
      var medianDistRatio := MedianOf(ratios);
      ttc := TtcFromMedian(medianDistRatio, frameRate);
    }
  }
}
