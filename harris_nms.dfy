/** Harris corner extraction (`cornernessHarris`) over a given normalised
    response matrix: the candidate scan above the minimum response and the
    non-maximum suppression over neighbourhoods of twice the aperture size. */
module HarrisNms {
  import opened DataStructures

  /** `minResponse`. */
  const MinResponse: int := 100

  /** `nms_size`, equal to the aperture size; it is also the keypoint size. */
  const NmsSize: int := 3

  /** The normalised response matrix, indexed `[y][x]` as `dst_norm.at<float>(y, x)`. */
  predicate ValidGrid(grid: seq<seq<real>>, width: nat, height: nat)
  {
    |grid| == height && forall y :: 0 <= y < height ==> |grid[y]| == width
  }

  /** The candidate at pixel `(x, y)`: its response as stored in an `int`. */
  function CandidateAt(grid: seq<seq<real>>, width: nat, height: nat, x: nat, y: nat): KeyPoint
    requires ValidGrid(grid, width, height) && x < width && y < height
  {
    KeyPoint(Point(x, y), NmsSize, Truncate(grid[y][x]))
  }

  /** The candidates of column `x` among the rows below `rows`, top to bottom. */
  function ColumnCandidates(grid: seq<seq<real>>, width: nat, height: nat, x: nat, rows: nat): seq<KeyPoint>
    requires ValidGrid(grid, width, height) && x < width && rows <= height
  {
    if rows == 0 then []
    else
      var kp := CandidateAt(grid, width, height, x, rows - 1);
      ColumnCandidates(grid, width, height, x, rows - 1) + (if kp.response > MinResponse then [kp] else [])
  }

  /** `keypoint_candidates` after the columns below `columns`, column by column. */
  function Candidates(grid: seq<seq<real>>, width: nat, height: nat, columns: nat): seq<KeyPoint>
    requires ValidGrid(grid, width, height) && columns <= width
  {
    if columns == 0 then []
    else Candidates(grid, width, height, columns - 1) + ColumnCandidates(grid, width, height, columns - 1, height)
  }

  /** `(x, y)` comes before `(x', y')` in the scan: by column, then by row. */
  predicate ScanBefore(p: Point, q: Point)
  {
    p.x < q.x || (p.x == q.x && p.y < q.y)
  }

  /** A column's candidates lie in that column, strictly top to bottom. */
  lemma {:induction false} ColumnCandidatesPlaced(grid: seq<seq<real>>, width: nat, height: nat, x: nat, rows: nat)
    requires ValidGrid(grid, width, height) && x < width && rows <= height
    ensures forall k :: 0 <= k < |ColumnCandidates(grid, width, height, x, rows)| ==>
              ColumnCandidates(grid, width, height, x, rows)[k].pt.x == x &&
              0 <= ColumnCandidates(grid, width, height, x, rows)[k].pt.y < rows
    ensures forall k, l :: 0 <= k < l < |ColumnCandidates(grid, width, height, x, rows)| ==>
              ColumnCandidates(grid, width, height, x, rows)[k].pt.y < ColumnCandidates(grid, width, height, x, rows)[l].pt.y
    decreases rows
  {
    if rows > 0 {
      ColumnCandidatesPlaced(grid, width, height, x, rows - 1);
    }
  }

  /** What a column holds: the pixels of column `x` above the minimum response. */
  lemma {:induction false} ColumnCandidatesSpec(grid: seq<seq<real>>, width: nat, height: nat, x: nat, rows: nat,
                                                kp: KeyPoint)
    requires ValidGrid(grid, width, height) && x < width && rows <= height
    ensures kp in ColumnCandidates(grid, width, height, x, rows) <==>
            exists y :: 0 <= y < rows && kp == CandidateAt(grid, width, height, x, y) && kp.response > MinResponse
    decreases rows
  {
    if rows > 0 {
      ColumnCandidatesSpec(grid, width, height, x, rows - 1, kp);
      if kp == CandidateAt(grid, width, height, x, rows - 1) {
        assert kp.pt.y == rows - 1;
      }
    }
  }

  /** The candidates lie in the scanned columns. */
  lemma {:induction false} CandidatesInColumns(grid: seq<seq<real>>, width: nat, height: nat, columns: nat)
    requires ValidGrid(grid, width, height) && columns <= width
    ensures forall k :: 0 <= k < |Candidates(grid, width, height, columns)| ==>
              0 <= Candidates(grid, width, height, columns)[k].pt.x < columns
    decreases columns
  {
    if columns > 0 {
      var x := columns - 1;
      var before := Candidates(grid, width, height, x);
      var col := ColumnCandidates(grid, width, height, x, height);
      var cands := before + col;
      CandidatesInColumns(grid, width, height, x);
      ColumnCandidatesPlaced(grid, width, height, x, height);
      forall k | 0 <= k < |cands| ensures 0 <= cands[k].pt.x < columns {
        if k >= |before| {
          assert cands[k] == col[k - |before|];
        } else {
          assert cands[k] == before[k];
        }
      }
    }
  }

  /** The candidates come in strict scan order. */
  lemma {:induction false} CandidatesOrdered(grid: seq<seq<real>>, width: nat, height: nat, columns: nat)
    requires ValidGrid(grid, width, height) && columns <= width
    ensures forall k, l :: 0 <= k < l < |Candidates(grid, width, height, columns)| ==>
              ScanBefore(Candidates(grid, width, height, columns)[k].pt, Candidates(grid, width, height, columns)[l].pt)
    decreases columns
  {
    if columns > 0 {
      var x := columns - 1;
      var before := Candidates(grid, width, height, x);
      var col := ColumnCandidates(grid, width, height, x, height);
      var cands := before + col;
      CandidatesOrdered(grid, width, height, x);
      CandidatesInColumns(grid, width, height, x);
      ColumnCandidatesPlaced(grid, width, height, x, height);
      forall k, l | 0 <= k < l < |cands| ensures ScanBefore(cands[k].pt, cands[l].pt) {
        if l >= |before| {
          var l' := l - |before|;
          assert cands[l] == col[l'];
          if k >= |before| {
            var k' := k - |before|;
            assert cands[k] == col[k'];
            assert col[k'].pt.y < col[l'].pt.y;
          } else {
            assert cands[k] == before[k];
          }
        } else {
          assert cands[k] == before[k] && cands[l] == before[l];
        }
      }
    }
  }

  /** Every candidate's response exceeds the minimum. */
  lemma {:induction false} CandidatesAboveMinimum(grid: seq<seq<real>>, width: nat, height: nat, columns: nat)
    requires ValidGrid(grid, width, height) && columns <= width
    ensures forall k :: 0 <= k < |Candidates(grid, width, height, columns)| ==>
              Candidates(grid, width, height, columns)[k].response > MinResponse
    decreases columns
  {
    if columns > 0 {
      var x := columns - 1;
      var before := Candidates(grid, width, height, x);
      var col := ColumnCandidates(grid, width, height, x, height);
      var cands := before + col;
      CandidatesAboveMinimum(grid, width, height, x);
      forall k | 0 <= k < |cands| ensures cands[k].response > MinResponse {
        if k >= |before| {
          var kp := col[k - |before|];
          assert cands[k] == kp && kp in col;
          ColumnCandidatesSpec(grid, width, height, x, height, kp);
          var y :| 0 <= y < height && kp == CandidateAt(grid, width, height, x, y) && kp.response > MinResponse;
        } else {
          assert cands[k] == before[k];
        }
      }
    }
  }

  /** The candidates are exactly the pixels above the minimum response, each
      with the aperture size and its truncated response. */
  lemma {:induction false} CandidatesSpec(grid: seq<seq<real>>, width: nat, height: nat, columns: nat, kp: KeyPoint)
    requires ValidGrid(grid, width, height) && columns <= width
    ensures kp in Candidates(grid, width, height, columns) <==>
            exists x, y :: 0 <= x < columns && 0 <= y < height &&
                           kp == CandidateAt(grid, width, height, x, y) && kp.response > MinResponse
    decreases columns
  {
    if columns > 0 {
      var x := columns - 1;
      var before := Candidates(grid, width, height, x);
      var col := ColumnCandidates(grid, width, height, x, height);
      assert Candidates(grid, width, height, columns) == before + col;
      CandidatesSpec(grid, width, height, x, kp);
      ColumnCandidatesSpec(grid, width, height, x, height, kp);
      if kp in col {
        var y :| 0 <= y < height && kp == CandidateAt(grid, width, height, x, y) && kp.response > MinResponse;
        assert 0 <= x < columns;
      }
      if kp in before {
        var x', y :| 0 <= x' < x && 0 <= y < height &&
                     kp == CandidateAt(grid, width, height, x', y) && kp.response > MinResponse;
        assert 0 <= x' < columns;
      }
      if exists x', y :: 0 <= x' < columns && 0 <= y < height &&
                        kp == CandidateAt(grid, width, height, x', y) && kp.response > MinResponse {
        var x', y :| 0 <= x' < columns && 0 <= y < height &&
                     kp == CandidateAt(grid, width, height, x', y) && kp.response > MinResponse;
        if x' == x {
          assert kp in col;
        } else {
          assert kp in before;
        }
      }
    }
  }

  /** The inner scan over one column (`for y ...`). */
  method ScanColumn(grid: seq<seq<real>>, width: nat, height: nat, x: nat, candsIn: seq<KeyPoint>)
    returns (keypointCandidates: seq<KeyPoint>)
    requires ValidGrid(grid, width, height) && x < width
    ensures keypointCandidates == candsIn + ColumnCandidates(grid, width, height, x, height)
  {
    keypointCandidates := candsIn;
    for y := 0 to height
      invariant keypointCandidates == candsIn + ColumnCandidates(grid, width, height, x, y)
    {
      var response := Truncate(grid[y][x]);
      if response > MinResponse {
        keypointCandidates := keypointCandidates + [KeyPoint(Point(x, y), NmsSize, response)];
      }
    }
  }

  /** The candidate scan (`for x ... for y ...`). */
  method FindCandidates(grid: seq<seq<real>>, width: nat, height: nat) returns (keypointCandidates: seq<KeyPoint>)
    requires ValidGrid(grid, width, height)
    ensures keypointCandidates == Candidates(grid, width, height, width)
  {
    keypointCandidates := [];
    for x := 0 to width
      invariant keypointCandidates == Candidates(grid, width, height, x)
    {
      keypointCandidates := ScanColumn(grid, width, height, x, keypointCandidates);
    }
  }

  // ---------------------------------------------------------------------------
  // Non-maximum suppression.

  /** `q` lies in the open window of half-width `2 * nms_size` around `p`. */
  predicate Near(p: Point, q: Point)
  {
    q.x - NmsSize * 2 < p.x && q.x + NmsSize * 2 > p.x && q.y - NmsSize * 2 < p.y && q.y + NmsSize * 2 > p.y
  }

  lemma NearSymmetric(p: Point, q: Point)
    ensures Near(p, q) <==> Near(q, p)
  {
  }

  /** Candidate `idx` is beaten: some later live candidate in its window has at
      least its response (the `break` of the inner loop). */
  predicate Suppressed(t: seq<KeyPoint>, idx: nat)
    requires idx < |t|
  {
    exists j :: idx < j < |t| && t[j].response != 0 && Near(t[idx].pt, t[j].pt) && t[idx].response <= t[j].response
  }

  /** Whether later candidate `j` is live and in the window of candidate `idx`
      (the entries of `to_be_removed` when `idx` is not beaten). */
  predicate Dominated(t: seq<KeyPoint>, idx: nat, j: int)
    requires idx < |t|
  {
    idx < j < |t| && t[j].response != 0 && Near(t[idx].pt, t[j].pt)
  }

  /** The candidates after `idx` wins: every later live candidate in its window
      has its response set to 0. */
  function ZeroNeighbours(t: seq<KeyPoint>, idx: nat): (r: seq<KeyPoint>)
    requires idx < |t|
    ensures |r| == |t|
    ensures forall j :: 0 <= j < |t| ==> r[j] == if Dominated(t, idx, j) then t[j].(response := 0) else t[j]
  {
    seq(|t|, j requires 0 <= j < |t| => if Dominated(t, idx, j) then t[j].(response := 0) else t[j])
  }

  /** Whether the outer loop keeps candidate `idx` of state `t`. */
  predicate Kept(t: seq<KeyPoint>, idx: nat)
    requires idx < |t|
  {
    t[idx].response != 0 && !Suppressed(t, idx)
  }

  /** The candidates after the outer loop has handled index `idx`. */
  function NmsStep(t: seq<KeyPoint>, idx: nat): (r: seq<KeyPoint>)
    requires idx < |t|
    ensures |r| == |t|
  {
    if Kept(t, idx) then ZeroNeighbours(t, idx) else t
  }

  /** The indices the outer loop keeps from `idx` on, starting in state `t`. */
  function Nms(t: seq<KeyPoint>, idx: nat): (ids: seq<nat>)
    ensures forall k :: 0 <= k < |ids| ==> idx <= ids[k] < |t|
    ensures forall k, l :: 0 <= k < l < |ids| ==> ids[k] < ids[l]
    decreases |t| - idx
  {
    if idx >= |t| then []
    else (if Kept(t, idx) then [idx] else []) + Nms(NmsStep(t, idx), idx + 1)
  }

  /** The candidates when the outer loop ends, starting at `idx` in state `t`. */
  function NmsFinal(t: seq<KeyPoint>, idx: nat): seq<KeyPoint>
    decreases |t| - idx
  {
    if idx >= |t| then t else NmsFinal(NmsStep(t, idx), idx + 1)
  }

  /** The candidates at the given indices. */
  function Gather(t: seq<KeyPoint>, ids: seq<nat>): (r: seq<KeyPoint>)
    requires forall k :: 0 <= k < |ids| ==> ids[k] < |t|
    ensures |r| == |ids|
    ensures forall k :: 0 <= k < |ids| ==> r[k] == t[ids[k]]
  {
    seq(|ids|, k requires 0 <= k < |ids| => t[ids[k]])
  }

  /** `t` is `c0` with some responses set to 0. */
  ghost predicate Derived(t: seq<KeyPoint>, c0: seq<KeyPoint>)
  {
    |t| == |c0| && forall j :: 0 <= j < |t| ==> t[j] == c0[j] || t[j] == c0[j].(response := 0)
  }

  /** A step only sets responses to 0 and moves no keypoint. */
  lemma NmsStepDerived(t: seq<KeyPoint>, c0: seq<KeyPoint>, idx: nat)
    requires idx < |t| && Derived(t, c0)
    ensures Derived(NmsStep(t, idx), c0)
    ensures forall j :: 0 <= j < |t| ==> NmsStep(t, idx)[j].pt == t[j].pt
    ensures forall j :: 0 <= j < |t| && t[j].response == 0 ==> NmsStep(t, idx)[j].response == 0
  {
  }

  /** Only candidates live in the starting state are kept. */
  lemma {:induction false} NmsKeepsLive(t: seq<KeyPoint>, idx: nat)
    ensures forall k :: 0 <= k < |Nms(t, idx)| ==> t[Nms(t, idx)[k]].response != 0
    decreases |t| - idx
  {
    if idx < |t| {
      var next := NmsStep(t, idx);
      NmsKeepsLive(next, idx + 1);
      var rest := Nms(next, idx + 1);
      assert Nms(t, idx) == (if Kept(t, idx) then [idx] else []) + rest;
    }
  }

  /** No two kept candidates lie in each other's window. */
  lemma {:induction false} NmsSeparated(t: seq<KeyPoint>, idx: nat)
    ensures forall k, l :: 0 <= k < l < |Nms(t, idx)| ==> !Near(t[Nms(t, idx)[k]].pt, t[Nms(t, idx)[l]].pt)
    decreases |t| - idx
  {
    if idx < |t| {
      var next := NmsStep(t, idx);
      NmsSeparated(next, idx + 1);
      NmsKeepsLive(next, idx + 1);
      var rest := Nms(next, idx + 1);
      var ids := Nms(t, idx);
      assert ids == (if Kept(t, idx) then [idx] else []) + rest;
      assert forall j :: 0 <= j < |t| ==> next[j].pt == t[j].pt;
      if Kept(t, idx) {
        forall l | 0 <= l < |rest| ensures !Near(t[idx].pt, t[rest[l]].pt) {
          var j := rest[l];
          assert next[j].response != 0;
          assert !Dominated(t, idx, j);
        }
        forall k, l | 0 <= k < l < |ids| ensures !Near(t[ids[k]].pt, t[ids[l]].pt) {
          if k > 0 {
            assert ids[k] == rest[k - 1] && ids[l] == rest[l - 1];
          } else {
            assert ids[l] == rest[l - 1];
          }
        }
      }
    }
  }

  /** A live window maximum is not beaten when the outer loop reaches it. */
  lemma WindowMaximumKept(t: seq<KeyPoint>, c0: seq<KeyPoint>, i: nat)
    requires Derived(t, c0) && i < |c0|
    requires t[i] == c0[i] && c0[i].response != 0
    requires forall j :: 0 <= j < |c0| && j != i && Near(c0[i].pt, c0[j].pt) ==> c0[j].response < c0[i].response
    ensures Kept(t, i)
  {
    forall j | i < j < |t| && t[j].response != 0 && Near(t[i].pt, t[j].pt)
      ensures t[j].response < t[i].response
    {
      assert t[j] == c0[j];
    }
  }

  /** A live window maximum is not zeroed by an earlier kept candidate: that
      candidate would lie in its window with a response above its own. */
  lemma WindowMaximumSurvivesStep(t: seq<KeyPoint>, c0: seq<KeyPoint>, idx: nat, i: nat)
    requires Derived(t, c0) && idx < i < |c0|
    requires t[i] == c0[i] && c0[i].response != 0
    requires forall j :: 0 <= j < |c0| && j != i && Near(c0[i].pt, c0[j].pt) ==> c0[j].response < c0[i].response
    ensures NmsStep(t, idx)[i] == c0[i]
  {
    if Kept(t, idx) {
      assert t[idx] == c0[idx];
      NearSymmetric(c0[idx].pt, c0[i].pt);
      assert !Dominated(t, idx, i);
    }
  }

  /** A candidate whose response exceeds that of every other candidate in its
      window, and that is still live in state `t`, is kept. */
  lemma {:induction false} NmsKeepsWindowMaximum(t: seq<KeyPoint>, c0: seq<KeyPoint>, idx: nat, i: nat)
    requires Derived(t, c0) && idx <= i < |c0|
    requires t[i] == c0[i] && c0[i].response != 0
    requires forall j :: 0 <= j < |c0| && j != i && Near(c0[i].pt, c0[j].pt) ==> c0[j].response < c0[i].response
    ensures i in Nms(t, idx)
    decreases |t| - idx
  {
    var next := NmsStep(t, idx);
    NmsUnfold(t, idx);
    if idx == i {
      WindowMaximumKept(t, c0, i);
    } else {
      NmsStepDerived(t, c0, idx);
      WindowMaximumSurvivesStep(t, c0, idx, i);
      NmsKeepsWindowMaximum(next, c0, idx + 1, i);
    }
  }

  /** The kept candidates are not exactly the window maxima: in scan order, a
      strong candidate suppresses its neighbour, and a weaker candidate further on
      is then kept although that suppressed neighbour beat it inside its window. */
  lemma NmsKeepsShadowedCandidate()
    ensures var t := [KeyPoint(Point(0, 0), 3, 200), KeyPoint(Point(0, 5), 3, 150), KeyPoint(Point(0, 10), 3, 120)];
            Near(t[2].pt, t[1].pt) && t[1].response > t[2].response && Nms(t, 0) == [0, 2]
  {
    var t := [KeyPoint(Point(0, 0), 3, 200), KeyPoint(Point(0, 5), 3, 150), KeyPoint(Point(0, 10), 3, 120)];
    assert Kept(t, 0);
    var t1 := NmsStep(t, 0);
    assert Dominated(t, 0, 1) && !Dominated(t, 0, 2);
    assert t1 == [t[0], t[1].(response := 0), t[2]];
    assert !Kept(t1, 1);
    assert NmsStep(t1, 1) == t1;
    assert Kept(t1, 2);
    assert Nms(t1, 3) == [];
  }

  /** The inner loop for candidate `idx`: scans the later candidates until one in
      the window is at least as strong (`break`), collecting the weaker ones. */
  method ScanNeighbours(a: array<KeyPoint>, idx: nat) returns (idx2: nat, toBeRemoved: seq<nat>)
    requires idx < a.Length
    ensures forall k :: 0 <= k < |toBeRemoved| ==> idx < toBeRemoved[k] < a.Length
    ensures idx2 == a.Length <==> !Suppressed(a[..], idx)
    ensures idx2 == a.Length ==> forall j :: j in toBeRemoved <==> Dominated(a[..], idx, j)
  {
    var kp := a[idx];
    toBeRemoved := [];
    idx2 := idx + 1;
    while idx2 < a.Length
      invariant idx + 1 <= idx2 <= a.Length
      invariant forall k :: 0 <= k < |toBeRemoved| ==> idx < toBeRemoved[k] < idx2
      invariant forall j :: j in toBeRemoved <==> Dominated(a[..], idx, j) && j < idx2
      invariant forall j :: idx < j < idx2 && Dominated(a[..], idx, j) ==> a[j].response < kp.response
    {
      var kp2 := a[idx2];
      if kp2.response != 0 &&
         kp2.pt.x - NmsSize * 2 < kp.pt.x && kp2.pt.x + NmsSize * 2 > kp.pt.x &&
         kp2.pt.y - NmsSize * 2 < kp.pt.y && kp2.pt.y + NmsSize * 2 > kp.pt.y {
        if kp.response > kp2.response {
          toBeRemoved := toBeRemoved + [idx2];
        } else {
          assert Dominated(a[..], idx, idx2);
          break;
        }
      }
      idx2 := idx2 + 1;
    }
  }

  /** `for (auto i : to_be_removed) keypoint_candidates[i].response = 0`. */
  method ZeroResponses(a: array<KeyPoint>, toBeRemoved: seq<nat>)
    requires forall k :: 0 <= k < |toBeRemoved| ==> toBeRemoved[k] < a.Length
    modifies a
    ensures forall j :: 0 <= j < a.Length ==>
              a[j] == if j in toBeRemoved then old(a[j]).(response := 0) else old(a[j])
  {
    for r := 0 to |toBeRemoved|
      invariant forall j :: 0 <= j < a.Length ==>
                  a[j] == if j in toBeRemoved[..r] then old(a[j]).(response := 0) else old(a[j])
    {
      assert toBeRemoved[..r + 1] == toBeRemoved[..r] + [toBeRemoved[r]];
      var i := toBeRemoved[r];
      a[i] := a[i].(response := 0);
    }
    assert toBeRemoved[..|toBeRemoved|] == toBeRemoved;
  }

  /** One pass of the outer loop for candidate `idx`: when it is live and not
      beaten, the weaker candidates in its window are zeroed and it is kept. */
  method HandleCandidate(a: array<KeyPoint>, idx: nat) returns (kept: bool)
    requires idx < a.Length
    modifies a
    ensures kept == Kept(old(a[..]), idx)
    ensures a[..] == NmsStep(old(a[..]), idx)
  {
    ghost var t := a[..];
    var kp := a[idx];
    kept := false;
    if kp.response != 0 {
      var idx2, toBeRemoved := ScanNeighbours(a, idx);
      if idx2 == a.Length {
        ZeroResponses(a, toBeRemoved);
        assert a[..] == ZeroNeighbours(t, idx);
        kept := true;
      }
    }
  }

  /** The outer loop's kept indices from `idx` on: `idx` when it is kept, then
      those of the state after handling it. */
  lemma NmsUnfold(t: seq<KeyPoint>, idx: nat)
    requires idx < |t|
    ensures Nms(t, idx) == (if Kept(t, idx) then [idx] else []) + Nms(NmsStep(t, idx), idx + 1)
    ensures NmsFinal(t, idx) == NmsFinal(NmsStep(t, idx), idx + 1)
  {
  }

  /** Moving the head of the remaining indices to the kept ones. */
  lemma ShiftHead(ids: seq<nat>, head: seq<nat>, rest: seq<nat>, all: seq<nat>)
    requires ids + (head + rest) == all
    ensures (ids + head) + rest == all
  {
    assert ids + (head + rest) == (ids + head) + rest;
  }

  /** Every index is below `n`. */
  predicate IndicesBelow(ids: seq<nat>, n: nat)
  {
    forall k :: 0 <= k < |ids| ==> ids[k] < n
  }

  /** Gathering one more index appends that candidate. */
  lemma GatherSnoc(t: seq<KeyPoint>, ids: seq<nat>, j: nat)
    requires forall k :: 0 <= k < |ids| ==> ids[k] < |t|
    requires j < |t|
    ensures Gather(t, ids + [j]) == Gather(t, ids) + [t[j]]
  {
  }

  /** The loop state of the suppression: `a` is `c0` after the turns before
      `idx`, `ids` are the indices kept so far and `keypoints` their candidates. */
  ghost predicate SuppressInvariant(t: seq<KeyPoint>, c0: seq<KeyPoint>, idx: nat, ids: seq<nat>,
                                    keypointsIn: seq<KeyPoint>, keypoints: seq<KeyPoint>)
  {
    Derived(t, c0) &&
    IndicesBelow(ids, |c0|) &&
    ids + Nms(t, idx) == Nms(c0, 0) &&
    NmsFinal(t, idx) == NmsFinal(c0, 0) &&
    keypoints == keypointsIn + Gather(c0, ids)
  }

  /** Handling candidate `idx` takes the loop state from `idx` to `idx + 1`:
      the candidate is recorded exactly when it is kept. */
  lemma SuppressInvariantStep(t: seq<KeyPoint>, c0: seq<KeyPoint>, idx: nat, ids: seq<nat>,
                              keypointsIn: seq<KeyPoint>, keypoints: seq<KeyPoint>)
    requires idx < |t|
    requires SuppressInvariant(t, c0, idx, ids, keypointsIn, keypoints)
    ensures SuppressInvariant(NmsStep(t, idx), c0, idx + 1,
                              ids + (if Kept(t, idx) then [idx] else []), keypointsIn,
                              keypoints + (if Kept(t, idx) then [t[idx]] else []))
  {
    NmsStepDerived(t, c0, idx);
    NmsUnfold(t, idx);
    ShiftHead(ids, if Kept(t, idx) then [idx] else [], Nms(NmsStep(t, idx), idx + 1), Nms(c0, 0));
    assert Kept(t, idx) ==> t[idx] == c0[idx];
    RecordStep(c0, ids, idx, keypointsIn, keypoints, Kept(t, idx), t[idx]);
  }

  /** Recording candidate `idx` (or not) keeps `keypoints` the gathered
      candidates of the recorded indices. */
  lemma RecordStep(c0: seq<KeyPoint>, ids: seq<nat>, idx: nat, keypointsIn: seq<KeyPoint>, keypoints: seq<KeyPoint>,
                   kept: bool, kp: KeyPoint)
    requires idx < |c0| && IndicesBelow(ids, |c0|)
    requires keypoints == keypointsIn + Gather(c0, ids)
    requires kept ==> kp == c0[idx]
    ensures IndicesBelow(ids + (if kept then [idx] else []), |c0|)
    ensures keypoints + (if kept then [kp] else []) == keypointsIn + Gather(c0, ids + (if kept then [idx] else []))
  {
    if kept {
      GatherSnoc(c0, ids, idx);
    } else {
      assert ids + [] == ids;
      assert keypoints + [] == keypoints;
    }
  }

  /** One turn of the suppression loop: handle candidate `idx` and append it to
      `keypoints` when it is kept. */
  method SuppressTurn(a: array<KeyPoint>, idx: nat, ghost c0: seq<KeyPoint>, ghost ids: seq<nat>,
                      keypointsIn: seq<KeyPoint>, keypoints: seq<KeyPoint>)
    returns (ghost ids': seq<nat>, keypoints': seq<KeyPoint>)
    requires idx < a.Length
    requires SuppressInvariant(a[..], c0, idx, ids, keypointsIn, keypoints)
    modifies a
    ensures SuppressInvariant(a[..], c0, idx + 1, ids', keypointsIn, keypoints')
  {
    ghost var t := a[..];
    SuppressInvariantStep(t, c0, idx, ids, keypointsIn, keypoints);
    var kp := a[idx];
    var kept := HandleCandidate(a, idx);
    ids', keypoints' := ids, keypoints;
    if kept {
      ids' := ids + [idx];
      keypoints' := keypoints + [kp];
    }
  }

  /** The suppression loop over `keypoint_candidates`, held in `a`: `keypoints`
      (appended to in the source) receives the kept candidates in order, and `a`
      ends with the responses the loop zeroed. */
  method SuppressNonMaxima(a: array<KeyPoint>, keypointsIn: seq<KeyPoint>) returns (keypoints: seq<KeyPoint>)
    modifies a
    ensures keypoints == keypointsIn + Gather(old(a[..]), Nms(old(a[..]), 0))
    ensures a[..] == NmsFinal(old(a[..]), 0)
  {
    ghost var c0 := a[..];
    ghost var ids: seq<nat> := [];
    keypoints := keypointsIn;
    for idx := 0 to a.Length
      invariant SuppressInvariant(a[..], c0, idx, ids, keypointsIn, keypoints)
    {
      ids, keypoints := SuppressTurn(a, idx, c0, ids, keypointsIn, keypoints);
    }
    assert Nms(a[..], a.Length) == [];
  }

  /** The corners found in the response matrix: the candidates the suppression
      keeps, in scan order. */
  function HarrisCorners(grid: seq<seq<real>>, width: nat, height: nat): seq<KeyPoint>
    requires ValidGrid(grid, width, height)
  {
    var cands := Candidates(grid, width, height, width);
    Gather(cands, Nms(cands, 0))
  }

  /** `cornernessHarris` from the response matrix on: the candidate scan, then
      the suppression; `keypoints` is returned with the kept corners appended. */
  method CornernessHarris(keypointsIn: seq<KeyPoint>, grid: seq<seq<real>>, width: nat, height: nat)
    returns (keypoints: seq<KeyPoint>)
    requires ValidGrid(grid, width, height)
    ensures keypoints == keypointsIn + HarrisCorners(grid, width, height)
  {
    var keypointCandidates := FindCandidates(grid, width, height);
    var a := new KeyPoint[|keypointCandidates|](k requires 0 <= k < |keypointCandidates| => keypointCandidates[k]);
    assert a[..] == keypointCandidates;
    keypoints := SuppressNonMaxima(a, keypointsIn);
  }

  /** Gathering increasing indices of a sequence in scan order keeps scan order. */
  lemma GatherOrdered(t: seq<KeyPoint>, ids: seq<nat>)
    requires forall k :: 0 <= k < |ids| ==> ids[k] < |t|
    requires forall k, l :: 0 <= k < l < |ids| ==> ids[k] < ids[l]
    requires forall k, l :: 0 <= k < l < |t| ==> ScanBefore(t[k].pt, t[l].pt)
    ensures forall k, l :: 0 <= k < l < |ids| ==> ScanBefore(Gather(t, ids)[k].pt, Gather(t, ids)[l].pt)
  {
    var g := Gather(t, ids);
    forall k, l | 0 <= k < l < |ids| ensures ScanBefore(g[k].pt, g[l].pt) {
      assert g[k] == t[ids[k]] && g[l] == t[ids[l]];
    }
  }

  /** The gathered candidates all come from `t` and keep a property every
      candidate has. */
  lemma GatherFromCandidates(t: seq<KeyPoint>, ids: seq<nat>)
    requires forall k :: 0 <= k < |ids| ==> ids[k] < |t|
    requires forall k :: 0 <= k < |t| ==> t[k].response > MinResponse
    ensures forall k :: 0 <= k < |ids| ==> Gather(t, ids)[k] in t && Gather(t, ids)[k].response > MinResponse
  {
    var g := Gather(t, ids);
    forall k | 0 <= k < |ids| ensures g[k] in t && g[k].response > MinResponse {
      assert g[k] == t[ids[k]];
    }
  }

  /** Every corner found is a candidate, so its response exceeds the minimum. */
  lemma HarrisCornersAreCandidates(grid: seq<seq<real>>, width: nat, height: nat)
    requires ValidGrid(grid, width, height)
    ensures forall k :: 0 <= k < |HarrisCorners(grid, width, height)| ==>
              HarrisCorners(grid, width, height)[k] in Candidates(grid, width, height, width) &&
              HarrisCorners(grid, width, height)[k].response > MinResponse
  {
    var cands := Candidates(grid, width, height, width);
    var corners := HarrisCorners(grid, width, height);
    assert corners == Gather(cands, Nms(cands, 0));
    CandidatesAboveMinimum(grid, width, height, width);
    GatherFromCandidates(cands, Nms(cands, 0));
  }

  /** The corners come in scan order: by column, then by row. */
  lemma HarrisCornersInScanOrder(grid: seq<seq<real>>, width: nat, height: nat)
    requires ValidGrid(grid, width, height)
    ensures forall k, l :: 0 <= k < l < |HarrisCorners(grid, width, height)| ==>
              ScanBefore(HarrisCorners(grid, width, height)[k].pt, HarrisCorners(grid, width, height)[l].pt)
  {
    var cands := Candidates(grid, width, height, width);
    CandidatesOrdered(grid, width, height, width);
    GatherOrdered(cands, Nms(cands, 0));
  }

  /** No two corners lie in each other's window. */
  lemma HarrisCornersSeparated(grid: seq<seq<real>>, width: nat, height: nat)
    requires ValidGrid(grid, width, height)
    ensures forall k, l :: 0 <= k < l < |HarrisCorners(grid, width, height)| ==>
              !Near(HarrisCorners(grid, width, height)[k].pt, HarrisCorners(grid, width, height)[l].pt)
  {
    var cands := Candidates(grid, width, height, width);
    var ids := Nms(cands, 0);
    var corners := Gather(cands, ids);
    NmsSeparated(cands, 0);
    forall k, l | 0 <= k < l < |corners| ensures !Near(corners[k].pt, corners[l].pt) {
      assert corners[k] == cands[ids[k]] && corners[l] == cands[ids[l]];
    }
  }

  /** A candidate whose response exceeds that of every other candidate in its
      window is a corner. */
  lemma HarrisCornersKeepWindowMaxima(grid: seq<seq<real>>, width: nat, height: nat, i: nat)
    requires ValidGrid(grid, width, height)
    requires i < |Candidates(grid, width, height, width)|
    requires var cands := Candidates(grid, width, height, width);
      forall j :: 0 <= j < |cands| && j != i && Near(cands[i].pt, cands[j].pt) ==> cands[j].response < cands[i].response
    ensures Candidates(grid, width, height, width)[i] in HarrisCorners(grid, width, height)
  {
    var cands := Candidates(grid, width, height, width);
    var ids := Nms(cands, 0);
    var corners := Gather(cands, ids);
    CandidatesAboveMinimum(grid, width, height, width);
    NmsKeepsWindowMaximum(cands, cands, 0, i);
    var k :| 0 <= k < |ids| && ids[k] == i;
    assert corners[k] == cands[i];
  }
}
