/** Association of boxes between consecutive frames (`matchBoundingBoxes`):
    every keypoint match votes for each pair (previous box, current box) whose
    regions contain its two keypoints, and each previous box is paired with the
    current box it shares the most votes with. */
module BoxMatching {
  import opened DataStructures
  import opened Seqs

  /** The number of boxes with identifier `id` whose region contains `pt`. */
  function ContainingCount(boxes: seq<BoundingBox>, id: int, pt: Point): nat
  {
    if |boxes| == 0 then 0
    else
      var last := boxes[|boxes| - 1];
      ContainingCount(boxes[..|boxes| - 1], id, pt) + (if last.boxID == id && Contains(last.roi, pt) then 1 else 0)
  }

  /** The votes one match casts for `(p, c)` while the middle loop has visited
      the previous boxes `prevBoxes`: for each of them that contains the previous
      keypoint and is named `p`, one vote per current box named `c` that contains
      the current keypoint. */
  function MatchVotes(prevBoxes: seq<BoundingBox>, currBoxes: seq<BoundingBox>, prevPt: Point, currPt: Point,
                      p: int, c: int): nat
  {
    if |prevBoxes| == 0 then 0
    else
      var last := prevBoxes[|prevBoxes| - 1];
      MatchVotes(prevBoxes[..|prevBoxes| - 1], currBoxes, prevPt, currPt, p, c)
        + (if last.boxID == p && Contains(last.roi, prevPt) then ContainingCount(currBoxes, c, currPt) else 0)
  }

  /** The count `bounding_box_matches[p][c]` after the matches `matches`. */
  function Votes(matches: seq<DMatch>, prevFrame: DataFrame, currFrame: DataFrame, p: int, c: int): nat
    requires MatchesIndexInto(prevFrame.keypoints, currFrame.keypoints, matches)
  {
    if |matches| == 0 then 0
    else
      var m := matches[|matches| - 1];
      Votes(matches[..|matches| - 1], prevFrame, currFrame, p, c)
        + MatchVotes(prevFrame.boundingBoxes, currFrame.boundingBoxes,
                     prevFrame.keypoints[m.queryIdx].pt, currFrame.keypoints[m.trainIdx].pt, p, c)
  }

  /** A match casts (boxes named `p` holding its previous keypoint) times (boxes
      named `c` holding its current keypoint) votes for `(p, c)`. */
  lemma {:induction false} MatchVotesIsProduct(prevBoxes: seq<BoundingBox>, currBoxes: seq<BoundingBox>,
                                               prevPt: Point, currPt: Point, p: int, c: int)
    ensures MatchVotes(prevBoxes, currBoxes, prevPt, currPt, p, c)
            == ContainingCount(prevBoxes, p, prevPt) * ContainingCount(currBoxes, c, currPt)
  {
    if |prevBoxes| > 0 {
      var init := prevBoxes[..|prevBoxes| - 1];
      var last := prevBoxes[|prevBoxes| - 1];
      MatchVotesIsProduct(init, currBoxes, prevPt, currPt, p, c);
      var a := ContainingCount(init, p, prevPt);
      var b := ContainingCount(currBoxes, c, currPt);
      if last.boxID == p && Contains(last.roi, prevPt) {
        assert ContainingCount(prevBoxes, p, prevPt) == a + 1;
        assert MatchVotes(prevBoxes, currBoxes, prevPt, currPt, p, c) == a * b + b;
        assert (a + 1) * b == a * b + b;
      } else {
        assert ContainingCount(prevBoxes, p, prevPt) == a;
        assert MatchVotes(prevBoxes, currBoxes, prevPt, currPt, p, c) == a * b;
      }
    }
  }

  /** No two boxes share an identifier. */
  predicate UniqueIds(boxes: seq<BoundingBox>)
  {
    forall i, j :: 0 <= i < j < |boxes| ==> boxes[i].boxID != boxes[j].boxID
  }

  /** With distinct identifiers, at most the box named `id` is counted, and it is
      counted exactly when it contains the point. */
  lemma {:induction false} ContainingCountUnique(boxes: seq<BoundingBox>, k: int, pt: Point)
    requires UniqueIds(boxes) && 0 <= k < |boxes|
    ensures ContainingCount(boxes, boxes[k].boxID, pt) == if Contains(boxes[k].roi, pt) then 1 else 0
  {
    var n := |boxes|;
    var init := boxes[..n - 1];
    assert UniqueIds(init);
    if k < n - 1 {
      assert init[k] == boxes[k];
      ContainingCountUnique(init, k, pt);
    } else {
      ContainingCountNone(init, boxes[k].boxID, pt);
    }
  }

  /** No box is counted for an identifier none of them carries. */
  lemma {:induction false} ContainingCountNone(boxes: seq<BoundingBox>, id: int, pt: Point)
    requires forall i :: 0 <= i < |boxes| ==> boxes[i].boxID != id
    ensures ContainingCount(boxes, id, pt) == 0
  {
    if |boxes| > 0 {
      ContainingCountNone(boxes[..|boxes| - 1], id, pt);
    }
  }

  /** Whether a match's previous keypoint lies in `prevRoi` and its current one in `currRoi`. */
  function SharedBy(prevFrame: DataFrame, currFrame: DataFrame, prevRoi: Rect, currRoi: Rect): DMatch -> bool
  {
    (m: DMatch) =>
      0 <= m.queryIdx < |prevFrame.keypoints| && 0 <= m.trainIdx < |currFrame.keypoints| &&
      Contains(prevRoi, prevFrame.keypoints[m.queryIdx].pt) && Contains(currRoi, currFrame.keypoints[m.trainIdx].pt)
  }

  /** With distinct identifiers in each frame, the count for the boxes at `kp`
      and `kc` is the number of matches whose keypoints lie in both of them. */
  lemma {:induction false} VotesCountSharedMatches(matches: seq<DMatch>, prevFrame: DataFrame, currFrame: DataFrame,
                                                   kp: int, kc: int)
    requires MatchesIndexInto(prevFrame.keypoints, currFrame.keypoints, matches)
    requires UniqueIds(prevFrame.boundingBoxes) && UniqueIds(currFrame.boundingBoxes)
    requires 0 <= kp < |prevFrame.boundingBoxes| && 0 <= kc < |currFrame.boundingBoxes|
    ensures Votes(matches, prevFrame, currFrame, prevFrame.boundingBoxes[kp].boxID, currFrame.boundingBoxes[kc].boxID)
            == |Filter(matches, SharedBy(prevFrame, currFrame,
                                         prevFrame.boundingBoxes[kp].roi, currFrame.boundingBoxes[kc].roi))|
  {
    if |matches| > 0 {
      var p, c := prevFrame.boundingBoxes[kp].boxID, currFrame.boundingBoxes[kc].boxID;
      var shared := SharedBy(prevFrame, currFrame, prevFrame.boundingBoxes[kp].roi, currFrame.boundingBoxes[kc].roi);
      var init := matches[..|matches| - 1];
      var m := matches[|matches| - 1];
      var pp, cp := prevFrame.keypoints[m.queryIdx].pt, currFrame.keypoints[m.trainIdx].pt;
      VotesCountSharedMatches(init, prevFrame, currFrame, kp, kc);
      MatchVotesIsProduct(prevFrame.boundingBoxes, currFrame.boundingBoxes, pp, cp, p, c);
      ContainingCountUnique(prevFrame.boundingBoxes, kp, pp);
      ContainingCountUnique(currFrame.boundingBoxes, kc, cp);
      assert matches == init + [m];
      FilterSnoc(init, m, shared);
    }
  }

  // ---------------------------------------------------------------------------
  // The vote table `bounding_box_matches`.

  type VoteTable = map<int, map<int, nat>>

  /** `bounding_box_matches[p][c]`, reading 0 for a missing entry. */
  function Lookup(votes: VoteTable, p: int, c: int): nat
  {
    if p in votes && c in votes[p] then votes[p][c] else 0
  }

  /** Entries exist only for counts that `++` created: every inner map has an
      entry and every stored count is positive. */
  predicate WellFormed(votes: VoteTable)
  {
    forall p :: p in votes ==> votes[p] != map[] && forall c :: c in votes[p] ==> votes[p][c] > 0
  }

  /** `bounding_box_matches[p][c]++`, creating missing entries. */
  function Bump(votes: VoteTable, p: int, c: int): (r: VoteTable)
    ensures WellFormed(votes) ==> WellFormed(r)
    ensures forall p', c' :: Lookup(r, p', c') == Lookup(votes, p', c') + (if p' == p && c' == c then 1 else 0)
  {
    var inner := if p in votes then votes[p] else map[];
    var bumped := inner[c := Lookup(votes, p, c) + 1];
    assert c in bumped;
    votes[p := bumped]
  }

  /** The innermost loop over the current boxes for one previous box named
      `prevId`: one vote for each current box holding the current keypoint. */
  method AddCurrBoxes(votesIn: VoteTable, prevId: int, currBoxes: seq<BoundingBox>, currPt: Point)
    returns (votes: VoteTable)
    requires WellFormed(votesIn)
    ensures WellFormed(votes)
    ensures forall p, c :: Lookup(votes, p, c)
                           == Lookup(votesIn, p, c) + (if p == prevId then ContainingCount(currBoxes, c, currPt) else 0)
  {
    votes := votesIn;
    assert forall c :: ContainingCount(currBoxes[..0], c, currPt) == 0;
    for l := 0 to |currBoxes|
      invariant WellFormed(votes)
      invariant forall p, c :: Lookup(votes, p, c)
                               == Lookup(votesIn, p, c) + (if p == prevId then ContainingCount(currBoxes[..l], c, currPt) else 0)
    {
      assert currBoxes[..l + 1][..l] == currBoxes[..l];
      var currBox := currBoxes[l];
      if Contains(currBox.roi, currPt) {
        votes := Bump(votes, prevId, currBox.boxID);
      }
    }
    assert currBoxes[..|currBoxes|] == currBoxes;
  }

  /** The middle loop over the previous boxes for one match. */
  method AddMatch(votesIn: VoteTable, prevBoxes: seq<BoundingBox>, currBoxes: seq<BoundingBox>,
                  prevPt: Point, currPt: Point)
    returns (votes: VoteTable)
    requires WellFormed(votesIn)
    ensures WellFormed(votes)
    ensures forall p, c :: Lookup(votes, p, c)
                           == Lookup(votesIn, p, c) + MatchVotes(prevBoxes, currBoxes, prevPt, currPt, p, c)
  {
    votes := votesIn;
    for k := 0 to |prevBoxes|
      invariant WellFormed(votes)
      invariant forall p, c :: Lookup(votes, p, c)
                               == Lookup(votesIn, p, c) + MatchVotes(prevBoxes[..k], currBoxes, prevPt, currPt, p, c)
    {
      assert prevBoxes[..k + 1][..k] == prevBoxes[..k];
      var prevBox := prevBoxes[k];
      if Contains(prevBox.roi, prevPt) {
        votes := AddCurrBoxes(votes, prevBox.boxID, currBoxes, currPt);
      }
    }
    assert prevBoxes[..|prevBoxes|] == prevBoxes;
  }

  /** The first phase of `matchBoundingBoxes`: the vote table of all matches. */
  method CountVotes(matches: seq<DMatch>, prevFrame: DataFrame, currFrame: DataFrame) returns (votes: VoteTable)
    requires MatchesIndexInto(prevFrame.keypoints, currFrame.keypoints, matches)
    ensures WellFormed(votes)
    ensures forall p, c :: Lookup(votes, p, c) == Votes(matches, prevFrame, currFrame, p, c)
  {
    votes := map[];
    for i := 0 to |matches|
      invariant WellFormed(votes)
      invariant forall p, c :: Lookup(votes, p, c) == Votes(matches[..i], prevFrame, currFrame, p, c)
    {
      assert matches[..i + 1][..i] == matches[..i];
      var m := matches[i];
      var prevKeyPoint := prevFrame.keypoints[m.queryIdx];
      var currKeyPoint := currFrame.keypoints[m.trainIdx];
      votes := AddMatch(votes, prevFrame.boundingBoxes, currFrame.boundingBoxes, prevKeyPoint.pt, currKeyPoint.pt);
    }
    assert matches[..|matches|] == matches;
  }

  // ---------------------------------------------------------------------------
  // Selecting the best current box for each previous box.

  lemma NonEmptyHasElement(s: set<int>)
    requires s != {}
    ensures exists x :: x in s
  {
    assert (forall x :: x !in s) ==> s == {};
  }

  /** The smallest element of a non-empty finite set. */
  ghost function SetMin(s: set<int>): (m: int)
    requires s != {}
    ensures m in s && forall x :: x in s ==> m <= x
  {
    NonEmptyHasElement(s);
    var x :| x in s;
    if forall y :: y in s ==> y == x then x
    else
      var y :| y in s && y != x;
      assert y in s - {x};
      assert forall z :: z in s && z != x ==> z in s - {x};
      var m := SetMin(s - {x});
      if x < m then x else m
  }

  /** The next key of an ascending `std::map` traversal over the keys `s`. */
  method PopMin(s: set<int>) returns (m: int)
    requires s != {}
    ensures m in s && forall x :: x in s ==> m <= x
  {
    ghost var w := SetMin(s);
    m :| m in s && forall x :: x in s ==> m <= x;
  }

  /** `w` wins in `counts`: it has a positive count, no count exceeds it, and
      every smaller key has a strictly smaller count (the scan keeps the first
      maximum it meets, in ascending key order). */
  predicate IsBest(counts: map<int, nat>, w: int)
  {
    w in counts && counts[w] > 0 &&
    (forall c :: c in counts ==> counts[c] <= counts[w]) &&
    (forall c :: c in counts && c < w ==> counts[c] < counts[w])
  }

  /** A key of `keys` with the largest count, the smallest such key on a tie. */
  ghost function BestIn(counts: map<int, nat>, keys: set<int>): (w: int)
    requires keys != {} && keys <= counts.Keys
    ensures w in keys
    ensures forall c :: c in keys ==> counts[c] <= counts[w]
    ensures forall c :: c in keys && c < w ==> counts[c] < counts[w]
    decreases keys
  {
    var m := SetMin(keys);
    if keys == {m} then m
    else
      var b := BestIn(counts, keys - {m});
      if counts[m] >= counts[b] then m else b
  }

  /** There is at most one winner. */
  lemma IsBestUnique(counts: map<int, nat>, w1: int, w2: int)
    requires IsBest(counts, w1) && IsBest(counts, w2)
    ensures w1 == w2
  {
  }

  /** The inner scan for one previous box: `max_match` and `max_match_id`. The
      identifier stays -1 exactly when no count is positive. */
  method BestCandidate(counts: map<int, nat>) returns (maxMatch: nat, maxMatchId: int)
    ensures maxMatch == 0 ==> maxMatchId == -1 && forall c :: c in counts ==> counts[c] == 0
    ensures maxMatch > 0 ==> IsBest(counts, maxMatchId) && maxMatch == counts[maxMatchId]
  {
    maxMatch, maxMatchId := 0, -1;
    var remaining := counts.Keys;
    while remaining != {}
      invariant remaining <= counts.Keys
      invariant forall c, r :: c in counts && c !in remaining && r in remaining ==> c < r
      invariant maxMatch == 0 ==> maxMatchId == -1 && forall c :: c in counts && c !in remaining ==> counts[c] == 0
      invariant maxMatch > 0 ==> maxMatchId in counts && maxMatchId !in remaining && counts[maxMatchId] == maxMatch
      invariant forall c :: c in counts && c !in remaining ==> counts[c] <= maxMatch
      invariant maxMatch > 0 ==> forall c :: c in counts && c !in remaining && c < maxMatchId ==> counts[c] < maxMatch
      decreases |remaining|
    {
      var c := PopMin(remaining);
      if counts[c] > maxMatch {
        maxMatch := counts[c];
        maxMatchId := c;
      }
      remaining := remaining - {c};
    }
  }

  /** `w` is a winner that `matchBoundingBoxes` records (-1 is the scan's
      "no candidate" marker, so a winning box named -1 is never recorded). */
  predicate Recorded(counts: map<int, nat>, w: int)
  {
    IsBest(counts, w) && w != -1
  }

  /** Some winner of `counts` is recorded. */
  ghost predicate HasRecorded(counts: map<int, nat>)
  {
    exists w :: Recorded(counts, w)
  }

  /** The second phase: for each previous box with a recorded winner, that
      winner is stored; every other entry of `bbBestMatches` is kept. */
  method SelectBest(votes: VoteTable, bbBestMatches: map<int, int>) returns (result: map<int, int>)
    ensures forall p :: p in result <==> p in bbBestMatches || (p in votes && HasRecorded(votes[p]))
    ensures forall p, w :: p in votes && Recorded(votes[p], w) ==> p in result && result[p] == w
    ensures forall p :: p in bbBestMatches && !(p in votes && HasRecorded(votes[p])) ==> result[p] == bbBestMatches[p]
  {
    result := bbBestMatches;
    var remaining := votes.Keys;
    while remaining != {}
      invariant remaining <= votes.Keys
      invariant forall p :: p in result <==>
                  p in bbBestMatches || (p in votes && p !in remaining && HasRecorded(votes[p]))
      invariant forall p, w :: p in votes && p !in remaining && Recorded(votes[p], w) ==> p in result && result[p] == w
      invariant forall p :: p in bbBestMatches && !(p in votes && p !in remaining && HasRecorded(votes[p]))
                  ==> result[p] == bbBestMatches[p]
      decreases |remaining|
    {
      var p := PopMin(remaining);
      var maxMatch, maxMatchId := BestCandidate(votes[p]);
      forall w | Recorded(votes[p], w) ensures maxMatchId == w {
        IsBestUnique(votes[p], maxMatchId, w);
      }
      if maxMatchId != -1 {
        assert Recorded(votes[p], maxMatchId);
      }
      assert HasRecorded(votes[p]) <==> maxMatchId != -1;
      if maxMatchId != -1 {
        result := result[p := maxMatchId];
      }
      remaining := remaining - {p};
    }
  }

  /** `w` is the current box previous box `p` shares the most votes with,
      the smallest such identifier on a tie. */
  ghost predicate BestMatch(matches: seq<DMatch>, prevFrame: DataFrame, currFrame: DataFrame, p: int, w: int)
    requires MatchesIndexInto(prevFrame.keypoints, currFrame.keypoints, matches)
  {
    Votes(matches, prevFrame, currFrame, p, w) > 0 &&
    (forall c :: Votes(matches, prevFrame, currFrame, p, c) <= Votes(matches, prevFrame, currFrame, p, w)) &&
    (forall c :: c < w ==> Votes(matches, prevFrame, currFrame, p, c) < Votes(matches, prevFrame, currFrame, p, w))
  }

  /** Previous box `p` shares a vote with some current box. */
  ghost predicate Voted(matches: seq<DMatch>, prevFrame: DataFrame, currFrame: DataFrame, p: int)
    requires MatchesIndexInto(prevFrame.keypoints, currFrame.keypoints, matches)
  {
    exists c :: Votes(matches, prevFrame, currFrame, p, c) > 0
  }

  /** Previous box `p` has a best match other than -1. */
  ghost predicate HasBestMatch(matches: seq<DMatch>, prevFrame: DataFrame, currFrame: DataFrame, p: int)
    requires MatchesIndexInto(prevFrame.keypoints, currFrame.keypoints, matches)
  {
    exists w :: BestMatch(matches, prevFrame, currFrame, p, w) && w != -1
  }

  /** A winner in the vote table is a best match of the votes it counts. */
  lemma TableWinnerIsBestMatch(votes: VoteTable, matches: seq<DMatch>, prevFrame: DataFrame, currFrame: DataFrame,
                               p: int, w: int)
    requires MatchesIndexInto(prevFrame.keypoints, currFrame.keypoints, matches)
    requires WellFormed(votes)
    requires forall p, c :: Lookup(votes, p, c) == Votes(matches, prevFrame, currFrame, p, c)
    ensures p in votes && IsBest(votes[p], w) <==> BestMatch(matches, prevFrame, currFrame, p, w)
  {
    if BestMatch(matches, prevFrame, currFrame, p, w) {
      assert Lookup(votes, p, w) > 0;
      forall c | c in votes[p] ensures votes[p][c] <= votes[p][w] {
        assert Lookup(votes, p, c) == votes[p][c];
      }
      forall c | c in votes[p] && c < w ensures votes[p][c] < votes[p][w] {
        assert Lookup(votes, p, c) == votes[p][c];
      }
    }
    if p in votes && IsBest(votes[p], w) {
      assert Lookup(votes, p, w) == votes[p][w];
      forall c ensures Votes(matches, prevFrame, currFrame, p, c) <= Votes(matches, prevFrame, currFrame, p, w) {
        assert Lookup(votes, p, c) == Votes(matches, prevFrame, currFrame, p, c);
      }
      forall c | c < w
        ensures Votes(matches, prevFrame, currFrame, p, c) < Votes(matches, prevFrame, currFrame, p, w)
      {
        assert Lookup(votes, p, c) == Votes(matches, prevFrame, currFrame, p, c);
      }
    }
  }

  /** `matchBoundingBoxes`: `bbBestMatches` (an in-out map in the source) is
      returned updated. A previous box that shares a vote with some current box
      gets its best match, unless that match is named -1; every other entry is
      left as it was. */
  method MatchBoundingBoxes(matches: seq<DMatch>, bbBestMatches: map<int, int>,
                            prevFrame: DataFrame, currFrame: DataFrame)
    returns (result: map<int, int>)
    requires MatchesIndexInto(prevFrame.keypoints, currFrame.keypoints, matches)
    ensures forall p :: Voted(matches, prevFrame, currFrame, p) ==>
                        exists w :: BestMatch(matches, prevFrame, currFrame, p, w)
    ensures forall p :: p in result <==> p in bbBestMatches || HasBestMatch(matches, prevFrame, currFrame, p)
    ensures forall p, w :: BestMatch(matches, prevFrame, currFrame, p, w) && w != -1 ==> p in result && result[p] == w
    ensures forall p :: p in bbBestMatches && !HasBestMatch(matches, prevFrame, currFrame, p)
                        ==> result[p] == bbBestMatches[p]
  {
    var votes := CountVotes(matches, prevFrame, currFrame);
    result := SelectBest(votes, bbBestMatches);
    forall p, w ensures p in votes && Recorded(votes[p], w) <==> BestMatch(matches, prevFrame, currFrame, p, w) && w != -1 {
      TableWinnerIsBestMatch(votes, matches, prevFrame, currFrame, p, w);
    }
    forall p | Voted(matches, prevFrame, currFrame, p)
      ensures exists w :: BestMatch(matches, prevFrame, currFrame, p, w)
    {
      var c :| Votes(matches, prevFrame, currFrame, p, c) > 0;
      assert Lookup(votes, p, c) > 0;
      var w := BestIn(votes[p], votes[p].Keys);
      TableWinnerIsBestMatch(votes, matches, prevFrame, currFrame, p, w);
    }
  }
}
