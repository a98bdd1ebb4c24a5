/** Order statistics over real values: the ascending sort that `std::sort`
    performs and that `std::nth_element` is specified by, counting, the k-th
    smallest value and the median. */
module OrderStats {

  predicate Ascending(s: seq<real>)
  {
    forall i, j :: 0 <= i < j < |s| ==> s[i] <= s[j]
  }

  /** Putting a value no greater than the head in front keeps a sequence ascending. */
  lemma AscendingCons(x: real, s: seq<real>)
    requires Ascending(s)
    requires |s| == 0 || x <= s[0]
    ensures Ascending([x] + s)
  {
    var r := [x] + s;
    forall i, j | 0 <= i < j < |r| ensures r[i] <= r[j] {
      if i > 0 {
        assert r[i] == s[i - 1] && r[j] == s[j - 1];
      } else {
        assert r[j] == s[j - 1] && s[0] <= s[j - 1];
      }
    }
  }

  /** The tail of an ascending sequence is ascending. */
  lemma AscendingTail(s: seq<real>)
    requires Ascending(s) && |s| > 0
    ensures Ascending(s[1..])
  {
    forall i, j | 0 <= i < j < |s| - 1 ensures s[1..][i] <= s[1..][j] {
      assert s[1..][i] == s[i + 1] && s[1..][j] == s[j + 1];
    }
  }

  /** The multiset of a head followed by a tail, before and after the tail is
      replaced by `rest`. */
  lemma ConsMultiset(s: seq<real>, rest: seq<real>)
    requires |s| > 0
    ensures multiset(s) == multiset{s[0]} + multiset(s[1..])
    ensures multiset([s[0]] + rest) == multiset{s[0]} + multiset(rest)
  {
    assert s == [s[0]] + s[1..];
  }

  /** Inserts `x` into an ascending sequence. */
  function Insert(x: real, s: seq<real>): (r: seq<real>)
    requires Ascending(s)
    ensures Ascending(r)
    ensures multiset(r) == multiset(s) + multiset{x}
    ensures |r| == |s| + 1
    ensures r[0] == x || (|s| > 0 && r[0] == s[0])
  {
    if |s| == 0 || x <= s[0] then
      AscendingCons(x, s);
      [x] + s
    else
      AscendingTail(s);
      var rest := Insert(x, s[1..]);
      assert s[0] <= rest[0] by {
        if |s| > 1 { assert s[0] <= s[1]; }
      }
      AscendingCons(s[0], rest);
      ConsMultiset(s, rest);
      [s[0]] + rest
  }

  /** The ascending rearrangement of `s` (the result of `std::sort`). */
  function Sort(s: seq<real>): (r: seq<real>)
    ensures Ascending(r)
    ensures multiset(r) == multiset(s)
    ensures |r| == |s|
  {
    if |s| == 0 then []
    else
      assert s == [s[0]] + s[1..];
      Insert(s[0], Sort(s[1..]))
  }

  /** Number of elements of `s` satisfying `p`. */
  function Count(s: seq<real>, p: real -> bool): (n: nat)
    ensures n <= |s|
  {
    if |s| == 0 then 0 else (if p(s[0]) then 1 else 0) + Count(s[1..], p)
  }

  function Below(v: real): real -> bool { x => x < v }
  function AtMost(v: real): real -> bool { x => x <= v }
  function Above(v: real): real -> bool { x => x > v }

  lemma {:induction false} CountConcat(a: seq<real>, b: seq<real>, p: real -> bool)
    ensures Count(a + b, p) == Count(a, p) + Count(b, p)
  {
    if |a| > 0 {
      assert (a + b)[1..] == a[1..] + b;
      CountConcat(a[1..], b, p);
    } else {
      assert a + b == b;
    }
  }

  lemma {:induction false} CountNone(s: seq<real>, p: real -> bool)
    requires forall i :: 0 <= i < |s| ==> !p(s[i])
    ensures Count(s, p) == 0
  {
    if |s| > 0 { CountNone(s[1..], p); }
  }

  lemma {:induction false} CountAll(s: seq<real>, p: real -> bool)
    requires forall i :: 0 <= i < |s| ==> p(s[i])
    ensures Count(s, p) == |s|
  {
    if |s| > 0 { CountAll(s[1..], p); }
  }

  lemma {:induction false} CountInsert(x: real, s: seq<real>, p: real -> bool)
    requires Ascending(s)
    ensures Count(Insert(x, s), p) == Count(s, p) + (if p(x) then 1 else 0)
  {
    if |s| > 0 && x > s[0] {
      CountInsert(x, s[1..], p);
      assert ([s[0]] + Insert(x, s[1..]))[1..] == Insert(x, s[1..]);
    } else {
      assert ([x] + s)[1..] == s;
    }
  }

  /** Sorting does not change how many elements satisfy a predicate. */
  lemma {:induction false} CountSort(s: seq<real>, p: real -> bool)
    ensures Count(Sort(s), p) == Count(s, p)
  {
    if |s| > 0 {
      CountSort(s[1..], p);
      CountInsert(s[0], Sort(s[1..]), p);
    }
  }

  /** A value bounding every element from position `k` on from below has at
      most `k` elements strictly below it. */
  lemma CountBelowFrom(t: seq<real>, k: nat, v: real)
    requires k <= |t|
    requires forall j :: k <= j < |t| ==> v <= t[j]
    ensures Count(t, Below(v)) <= k
  {
    assert t == t[..k] + t[k..];
    CountConcat(t[..k], t[k..], Below(v));
    CountNone(t[k..], Below(v));
  }

  /** A value bounding the first `k` elements from above has at most |t| - k
      elements strictly above it. */
  lemma CountAboveUpTo(t: seq<real>, k: nat, v: real)
    requires k <= |t|
    requires forall j :: 0 <= j < k ==> t[j] <= v
    ensures Count(t, Above(v)) <= |t| - k
  {
    assert t == t[..k] + t[k..];
    CountConcat(t[..k], t[k..], Above(v));
    CountNone(t[..k], Above(v));
  }

  /** The value at position `k` of the ascending rearrangement (what
      `nth_element` places at `begin() + k`). */
  function KthSmallest(s: seq<real>, k: nat): real
    requires k < |s|
  {
    Sort(s)[k]
  }

  /** A value bounding the first `k` elements from above has at least `k`
      elements at most it. */
  lemma CountAtMostUpTo(t: seq<real>, k: nat, v: real)
    requires k <= |t|
    requires forall j :: 0 <= j < k ==> t[j] <= v
    ensures k <= Count(t, AtMost(v))
  {
    assert t == t[..k] + t[k..];
    CountConcat(t[..k], t[k..], AtMost(v));
    CountAll(t[..k], AtMost(v));
  }

  /** Every element of the sorted sequence occurs in the input. */
  lemma SortedElementOccurs(s: seq<real>, k: nat)
    requires k < |s|
    ensures Sort(s)[k] in s
  {
    var t := Sort(s);
    assert t[k] in multiset(t);
  }

  /** In an ascending sequence, at most `k` elements lie strictly below the one
      at position `k` and more than `k` lie at or below it. */
  lemma AscendingRank(t: seq<real>, k: nat)
    requires Ascending(t) && k < |t|
    ensures Count(t, Below(t[k])) <= k < Count(t, AtMost(t[k]))
  {
    CountBelowFrom(t, k, t[k]);
    CountAtMostUpTo(t, k + 1, t[k]);
  }

  /** The k-th smallest value occurs in `s`, at most `k` elements are strictly
      below it and more than `k` are at most it; these facts determine it. */
  lemma OrderStatistic(s: seq<real>, k: nat)
    requires k < |s|
    ensures KthSmallest(s, k) in s
    ensures Count(s, Below(KthSmallest(s, k))) <= k < Count(s, AtMost(KthSmallest(s, k)))
  {
    var t := Sort(s);
    SortedElementOccurs(s, k);
    AscendingRank(t, k);
    CountSort(s, Below(t[k]));
    CountSort(s, AtMost(t[k]));
  }

  /** Removing position `i` from `b` removes one occurrence of `b[i]`. */
  lemma RemoveAtMultiset(b: seq<real>, i: nat)
    requires i < |b|
    ensures multiset(b[..i] + b[i + 1..]) == multiset(b) - multiset{b[i]}
  {
    assert b == b[..i] + [b[i]] + b[i + 1..];
  }

  /** Removing position `i` from `b` lowers a count by one exactly when `b[i]`
      satisfies its predicate. */
  lemma RemoveAtCount(b: seq<real>, i: nat, p: real -> bool)
    requires i < |b|
    ensures Count(b, p) == Count(b[..i] + b[i + 1..], p) + (if p(b[i]) then 1 else 0)
  {
    assert b[..i] + b[i..] == b;
    CountConcat(b[..i], b[i..], p);
    CountConcat(b[..i], b[i + 1..], p);
    assert b[i..][1..] == b[i + 1..];
  }

  /** Two rearrangements of the same values have as many elements satisfying
      `p`. */
  lemma {:induction false} CountPermutation(a: seq<real>, b: seq<real>, p: real -> bool)
    requires multiset(a) == multiset(b)
    ensures Count(a, p) == Count(b, p)
    decreases |a|
  {
    if |a| == 0 {
      assert |b| == |multiset(b)| == 0;
    } else {
      assert a[0] in multiset(b);
      var i :| 0 <= i < |b| && b[i] == a[0];
      RemoveAtMultiset(b, i);
      RemoveAtCount(b, i, p);
      ConsMultiset(a, []);
      assert multiset(a[1..]) == multiset(a) - multiset{a[0]};
      CountPermutation(a[1..], b[..i] + b[i + 1..], p);
    }
  }

  /** Every value at most `v` is strictly below a larger `u`. */
  lemma {:induction false} CountAtMostBelow(s: seq<real>, v: real, u: real)
    ensures v < u ==> Count(s, AtMost(v)) <= Count(s, Below(u))
  {
    if |s| > 0 { CountAtMostBelow(s[1..], v, u); }
  }

  /** The rank counts of `OrderStatistic` determine the k-th smallest value. */
  lemma RankDeterminesValue(s: seq<real>, k: nat, v: real)
    requires k < |s|
    requires Count(s, Below(v)) <= k < Count(s, AtMost(v))
    ensures v == KthSmallest(s, k)
  {
    var u := KthSmallest(s, k);
    OrderStatistic(s, k);
    CountAtMostBelow(s, v, u);
    CountAtMostBelow(s, u, v);
  }

  /** What `std::nth_element` promises of the rearrangement `t` it makes of `s`
      around position `k`: no value before position `k` is larger than the one
      at `k`, and none after it is smaller. */
  predicate NthElementPlaced(s: seq<real>, t: seq<real>, k: nat)
  {
    multiset(t) == multiset(s) && k < |t| &&
    (forall i :: 0 <= i < k ==> t[i] <= t[k]) &&
    (forall j :: k < j < |t| ==> t[k] <= t[j])
  }

  /** Whatever rearrangement `std::nth_element` makes, the value it places at
      position `k` is the k-th smallest. */
  lemma NthElementIsKthSmallest(s: seq<real>, t: seq<real>, k: nat)
    requires NthElementPlaced(s, t, k)
    ensures k < |s| && t[k] == KthSmallest(s, k)
  {
    assert |t| == |multiset(t)| == |multiset(s)| == |s|;
    CountBelowFrom(t, k, t[k]);
    CountAtMostUpTo(t, k + 1, t[k]);
    CountPermutation(t, s, Below(t[k]));
    CountPermutation(t, s, AtMost(t[k]));
    RankDeterminesValue(s, k, t[k]);
  }

  /** `std::nth_element`: rearranges `s` so that position `k` holds the value
      an ascending sort would put there, with no larger value before it and no
      smaller one after it. */
  method NthElement(s: seq<real>, k: nat) returns (t: seq<real>)
    requires k < |s|
    ensures NthElementPlaced(s, t, k)
  {
    t := Sort(s);
  }

  /** The exact median: the middle order statistic for an odd count, the mean of
      the two central ones for an even count. */
  function Median(s: seq<real>): real
    requires |s| > 0
  {
    var n := |s|;
    if n % 2 == 1 then KthSmallest(s, n / 2)
    else (KthSmallest(s, n / 2) + KthSmallest(s, n / 2 - 1)) / 2.0
  }

  /** In an ascending sequence, a value between the elements at `lo` and `hi`
      has at most `hi` elements below it and at most |t| - lo - 1 above it. */
  lemma AscendingBetween(t: seq<real>, lo: nat, hi: nat, m: real)
    requires Ascending(t) && lo <= hi < |t|
    requires t[lo] <= m <= t[hi]
    ensures Count(t, Below(m)) <= hi
    ensures Count(t, Above(m)) <= |t| - (lo + 1)
  {
    CountBelowFrom(t, hi, m);
    CountAboveUpTo(t, lo + 1, m);
  }

  /** The two central positions of `n` values and the count above the lower one. */
  lemma CentralIndices(n: nat)
    requires n > 0
    ensures (n - 1) / 2 <= n / 2 < n
    ensures n - ((n - 1) / 2 + 1) == n / 2
    ensures n % 2 == 1 ==> (n - 1) / 2 == n / 2
    ensures n % 2 == 0 ==> (n - 1) / 2 == n / 2 - 1
  {
  }

  /** The median lies between the two central order statistics. */
  lemma MedianBetween(s: seq<real>)
    requires |s| > 0
    ensures (|s| - 1) / 2 <= |s| / 2 < |s|
    ensures KthSmallest(s, (|s| - 1) / 2) <= Median(s) <= KthSmallest(s, |s| / 2)
  {
    var n := |s|;
    CentralIndices(n);
    var t := Sort(s);
    if n % 2 == 0 {
      assert t[n / 2 - 1] <= t[n / 2];
    }
  }

  /** The median lies within the range of `s`. */
  lemma MedianWithinRange(s: seq<real>)
    requires |s| > 0
    ensures exists i :: 0 <= i < |s| && s[i] <= Median(s)
    ensures exists j :: 0 <= j < |s| && Median(s) <= s[j]
  {
    var n := |s|;
    MedianBetween(s);
    var t := Sort(s);
    SortedElementOccurs(s, (n - 1) / 2);
    SortedElementOccurs(s, n / 2);
    var i :| 0 <= i < n && s[i] == t[(n - 1) / 2];
    var j :| 0 <= j < n && s[j] == t[n / 2];
  }

  /** At most half of the values are strictly below the median and at most half
      strictly above it. */
  lemma MedianSplitsHalves(s: seq<real>)
    requires |s| > 0
    ensures Count(s, Below(Median(s))) <= |s| / 2
    ensures Count(s, Above(Median(s))) <= |s| / 2
  {
    var n := |s|;
    var t := Sort(s);
    var m := Median(s);
    MedianBetween(s);
    CentralIndices(n);
    AscendingBetween(t, (n - 1) / 2, n / 2, m);
    CountSort(s, Below(m));
    CountSort(s, Above(m));
  }
}
