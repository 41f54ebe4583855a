/** The non-recursive quicksort with its explicit stack of segments. */
module QuickSort {
  import opened Arith

  const MAX_LEVELS: nat := 300

  /** Segment k on the stack is the half-open interval from beg[k] to end[k]. */
  predicate InSegment(beg: seq<int>, end: seq<int>, k: int, p: int)
    requires 0 <= k < |beg| == |end|
  {
    beg[k] <= p < end[k]
  }

  /** Two positions are settled when they are in order or still lie in a common segment. */
  ghost predicate Settled(a: seq<int>, beg: seq<int>, end: seq<int>, p: nat, q: nat)
    requires p < q < |a| && |beg| == |end|
  {
    a[p] <= a[q] || exists k | 0 <= k < |beg| :: InSegment(beg, end, k, p) && InSegment(beg, end, k, q)
  }

  /** The segments on the stack, levels 0 to i, are disjoint and hold all the disorder that is left. */
  ghost predicate Stack(a: seq<int>, beg: seq<int>, end: seq<int>) {
    && |beg| == |end|
    && (forall k | 0 <= k < |beg| :: 0 <= beg[k] <= end[k] <= |a|)
    && (forall k, m | 0 <= k < m < |beg| :: end[k] <= beg[m] || end[m] <= beg[k])
    && (forall p: nat, q: nat | p < q < |a| :: Settled(a, beg, end, p, q))
  }

  /** The smaller half is always on top, so level k holds at most elements / 2^k positions. */
  ghost predicate Levels(beg: seq<int>, end: seq<int>, elements: nat) {
    |beg| == |end| && forall k | 0 <= k < |beg| :: (end[k] - beg[k]) * P2(k) <= elements
  }

  /** The measure of the outer loop: twice the pending positions plus the pending segments. */
  function Pending(beg: seq<int>, end: seq<int>): int
    requires |beg| == |end|
  {
    if beg == [] then 0
    else var t := |beg| - 1; Pending(beg[..t], end[..t]) + 2 * (end[t] - beg[t]) + 1
  }

  /** a' is a with the positions from lo to hi rearranged around a pivot that ends at position mid. */
  ghost predicate Partitioned(a: seq<int>, a': seq<int>, lo: nat, hi: nat, mid: nat) {
    && |a'| == |a| && lo <= mid < hi <= |a|
    && a'[..lo] == a[..lo] && a'[hi..] == a[hi..]
    && multiset(a'[lo..hi]) == multiset(a[lo..hi])
    && (forall p | lo <= p < mid :: a'[p] <= a'[mid])
    && (forall p | mid < p < hi :: a'[mid] <= a'[p])
  }

  /** The array with piv put back where it was taken out. */
  function Filled(a: seq<int>, hole: nat, piv: int): seq<int>
    requires hole < |a|
  {
    a[hole := piv]
  }

  lemma MovingTheHole(s: seq<int>, lo: nat, hi: nat, from: nat, to: nat, piv: int)
    requires lo <= from < hi <= |s| && lo <= to < hi && from != to
    ensures multiset(Filled(s[from := s[to]], to, piv)[lo..hi]) == multiset(Filled(s, from, piv)[lo..hi])
  {
    var t := Filled(s, from, piv)[lo..hi];
    var i, j := from - lo, to - lo;
    assert Filled(s[from := s[to]], to, piv)[lo..hi] == t[i := t[j]][j := t[i]];
  }

  /** The state of the partition loop: the pivot has been lifted out of position hole, everything before l is at
    * most piv, everything after r at least piv, and with piv in the hole the segment is a rearrangement. */
  ghost predicate Holed(a: seq<int>, s: seq<int>, lo: nat, hi: nat, l: nat, r: nat, hole: nat, piv: int) {
    && |s| == |a| && lo <= l <= r < hi <= |a| && (hole == l || hole == r)
    && s[..lo] == a[..lo] && s[hi..] == a[hi..]
    && multiset(Filled(s, hole, piv)[lo..hi]) == multiset(a[lo..hi])
    && (forall p | lo <= p < l :: s[p] <= piv)
    && (forall p | r < p < hi :: piv <= s[p])
  }

  lemma HoleAtStart(a: seq<int>, lo: nat, hi: nat)
    requires lo < hi <= |a|
    ensures Holed(a, a, lo, hi, lo, hi - 1, lo, a[lo])
  {
    assert Filled(a, lo, a[lo]) == a;
  }

  /** Moving the value at r into the hole at l, or back, moves the hole. */
  lemma HoleMovesRight(a: seq<int>, s: seq<int>, lo: nat, hi: nat, l: nat, r: nat, piv: int)
    requires Holed(a, s, lo, hi, l, r, l, piv) && l < r && s[r] <= piv
    ensures Holed(a, s[l := s[r]], lo, hi, l + 1, r, r, piv)
  {
    MovingTheHole(s, lo, hi, l, r, piv);
  }

  lemma HoleMovesLeft(a: seq<int>, s: seq<int>, lo: nat, hi: nat, l: nat, r: nat, piv: int)
    requires Holed(a, s, lo, hi, l, r, r, piv) && l < r && piv <= s[l]
    ensures Holed(a, s[r := s[l]], lo, hi, l, r - 1, l, piv)
  {
    MovingTheHole(s, lo, hi, r, l, piv);
  }

  lemma HoleFilled(a: seq<int>, s: seq<int>, lo: nat, hi: nat, l: nat, hole: nat, piv: int)
    requires Holed(a, s, lo, hi, l, l, hole, piv)
    ensures Partitioned(a, s[l := piv], lo, hi, l)
  {
  }

  lemma RightScanned(a: seq<int>, s: seq<int>, lo: nat, hi: nat, l: nat, r: nat, piv: int)
    requires Holed(a, s, lo, hi, l, r, l, piv) && l < r && piv <= s[r]
    ensures Holed(a, s, lo, hi, l, r - 1, l, piv)
  {
  }

  lemma LeftScanned(a: seq<int>, s: seq<int>, lo: nat, hi: nat, l: nat, r: nat, piv: int)
    requires Holed(a, s, lo, hi, l, r, r, piv) && l < r && s[l] <= piv
    ensures Holed(a, s, lo, hi, l + 1, r, r, piv)
  {
  }

  /** Hole-based partition of arr[lo..hi] around its first element. */
  method Partition(arr: array<int>, lo: nat, hi: nat) returns (mid: nat)
    requires lo + 1 < hi <= arr.Length
    modifies arr
    ensures Partitioned(old(arr[..]), arr[..], lo, hi, mid)
  {
    hide Holed, Partitioned;
    ghost var a := arr[..];
    var L, R := lo, hi - 1;
    var piv := arr[L];
    HoleAtStart(a, lo, hi);
    while L < R
      invariant L <= R < arr.Length
      invariant Holed(a, arr[..], lo, hi, L, R, L, piv)
      decreases R - L
    {
      ghost var width := R - L;
      ghost var s := arr[..];
      while arr[R] >= piv && L < R
        invariant L <= R < arr.Length && R - L <= width && arr[..] == s
        invariant Holed(a, s, lo, hi, L, R, L, piv)
        decreases R - L
      {
        RightScanned(a, s, lo, hi, L, R, piv);
        R := R - 1;
      }
      if L < R {
        HoleMovesRight(a, s, lo, hi, L, R, piv);
        arr[L] := arr[R];
        assert arr[..] == s[L := s[R]];
        L := L + 1;
        s := arr[..];
      }
      while arr[L] <= piv && L < R
        invariant L <= R < arr.Length && R - L < width && arr[..] == s
        invariant Holed(a, s, lo, hi, L, R, R, piv)
        decreases R - L
      {
        LeftScanned(a, s, lo, hi, L, R, piv);
        L := L + 1;
      }
      if L < R {
        HoleMovesLeft(a, s, lo, hi, L, R, piv);
        arr[R] := arr[L];
        assert arr[..] == s[R := s[L]];
        R := R - 1;
      }
    }
    HoleFilled(a, arr[..], lo, hi, L, L, piv);
    ghost var s := arr[..];
    arr[L] := piv;
    assert arr[..] == s[L := piv];
    mid := L;
  }

  /** The top segment of a stack. */
  predicate IsTop(beg: seq<int>, end: seq<int>, lo: int, hi: int) {
    |beg| == |end| > 0 && beg[|beg| - 1] == lo && end[|end| - 1] == hi
  }

  /** The stack after the top segment has been replaced by two. */
  predicate Split(beg: seq<int>, end: seq<int>, beg': seq<int>, end': seq<int>, lo: int, mid: int, hi: int) {
    && IsTop(beg, end, lo, hi) && |beg'| == |end'| == |beg| + 1
    && beg'[..|beg| - 1] == beg[..|beg| - 1] && end'[..|beg| - 1] == end[..|beg| - 1]
    && var t := |beg| - 1;
       || (beg'[t] == lo && end'[t] == mid && beg'[t + 1] == mid + 1 && end'[t + 1] == hi && mid - lo >= hi - mid - 1)
       || (beg'[t] == mid + 1 && end'[t] == hi && beg'[t + 1] == lo && end'[t + 1] == mid && hi - mid - 1 > mid - lo)
  }

  /** Where an element of the rearranged segment came from. */
  lemma OldPosition(a: seq<int>, a': seq<int>, lo: nat, hi: nat, mid: nat, q: nat) returns (p: nat)
    requires Partitioned(a, a', lo, hi, mid) && lo <= q < hi
    ensures lo <= p < hi && a[p] == a'[q]
  {
    assert a'[lo..hi][q - lo] in multiset(a'[lo..hi]);
    assert a'[q] in a[lo..hi];
    var j :| 0 <= j < hi - lo && a[lo..hi][j] == a'[q];
    p := lo + j;
  }

  lemma OutsideUnchanged(a: seq<int>, a': seq<int>, lo: nat, hi: nat, mid: nat, p: nat)
    requires Partitioned(a, a', lo, hi, mid) && p < |a| && !(lo <= p < hi)
    ensures a'[p] == a[p]
  {
    if p < lo {
      assert a'[..lo][p] == a[..lo][p];
    } else {
      assert a'[hi..][p - hi] == a[hi..][p - hi];
    }
  }

  /** Positions outside the top segment compare with everything inside it, before and after partitioning. */
  lemma AcrossTop(a: seq<int>, beg: seq<int>, end: seq<int>, lo: nat, hi: nat, p: nat, q: nat)
    requires Stack(a, beg, end) && IsTop(beg, end, lo, hi) && p < q < |a|
    requires (lo <= p < hi) != (lo <= q < hi)
    ensures a[p] <= a[q]
  {
    assert Settled(a, beg, end, p, q);
  }

  lemma SplitSettles(a: seq<int>, a': seq<int>, beg: seq<int>, end: seq<int>, beg': seq<int>, end': seq<int>,
                     lo: nat, mid: nat, hi: nat, p: nat, q: nat)
    requires Stack(a, beg, end) && Partitioned(a, a', lo, hi, mid) && Split(beg, end, beg', end', lo, mid, hi)
    requires p < q < |a|
    ensures Settled(a', beg', end', p, q)
  {
    var t := |beg| - 1;
    if lo <= p && q < hi {
      if q < mid || mid < p {
        var k := if (q < mid) == (beg'[t] == lo && end'[t] == mid) then t else t + 1;
        assert InSegment(beg', end', k, p) && InSegment(beg', end', k, q);
      }
    } else if lo <= p < hi {
      var o := OldPosition(a, a', lo, hi, mid, p);
      OutsideUnchanged(a, a', lo, hi, mid, q);
      AcrossTop(a, beg, end, lo, hi, o, q);
    } else if lo <= q < hi {
      var o := OldPosition(a, a', lo, hi, mid, q);
      OutsideUnchanged(a, a', lo, hi, mid, p);
      AcrossTop(a, beg, end, lo, hi, p, o);
    } else {
      OutsideUnchanged(a, a', lo, hi, mid, p);
      OutsideUnchanged(a, a', lo, hi, mid, q);
      assert Settled(a, beg, end, p, q);
      if a[p] > a[q] {
        var k :| 0 <= k < |beg| && InSegment(beg, end, k, p) && InSegment(beg, end, k, q);
        assert k < t;
        assert beg'[..t][k] == beg[..t][k] && end'[..t][k] == end[..t][k];
        assert InSegment(beg', end', k, p) && InSegment(beg', end', k, q);
      }
    }
  }

  lemma SplitKeepsStack(a: seq<int>, a': seq<int>, beg: seq<int>, end: seq<int>, beg': seq<int>, end': seq<int>,
                        lo: nat, mid: nat, hi: nat)
    requires Stack(a, beg, end) && Partitioned(a, a', lo, hi, mid) && Split(beg, end, beg', end', lo, mid, hi)
    ensures Stack(a', beg', end')
  {
    hide Settled, Partitioned;
    PartitionLength(a, a', lo, hi, mid);
    forall p: nat, q: nat | p < q < |a'|
      ensures Settled(a', beg', end', p, q)
    {
      SplitSettles(a, a', beg, end, beg', end', lo, mid, hi, p, q);
    }
    SplitDisjoint(a, beg, end, beg', end', lo, mid, hi);
  }

  lemma PartitionLength(a: seq<int>, a': seq<int>, lo: nat, hi: nat, mid: nat)
    requires Partitioned(a, a', lo, hi, mid)
    ensures |a'| == |a| && lo <= mid < hi <= |a|
  {
  }

  lemma SplitDisjoint(a: seq<int>, beg: seq<int>, end: seq<int>, beg': seq<int>, end': seq<int>, lo: nat, mid: nat,
                      hi: nat)
    requires Stack(a, beg, end) && lo <= mid < hi <= |a| && Split(beg, end, beg', end', lo, mid, hi)
    ensures forall k | 0 <= k < |beg'| :: 0 <= beg'[k] <= end'[k] <= |a|
    ensures forall k, m | 0 <= k < m < |beg'| :: end'[k] <= beg'[m] || end'[m] <= beg'[k]
  {
    var t := |beg| - 1;
    assert forall k | 0 <= k < t :: beg'[k] == beg'[..t][k] && end'[k] == end'[..t][k];
    assert forall k | 0 <= k < t :: beg[k] == beg[..t][k] && end[k] == end[..t][k];
  }

  /** Popping a segment of at most one position leaves nothing unsettled. */
  lemma PopKeepsStack(a: seq<int>, beg: seq<int>, end: seq<int>, lo: int, hi: int)
    requires Stack(a, beg, end) && IsTop(beg, end, lo, hi) && hi <= lo + 1
    ensures Stack(a, beg[..|beg| - 1], end[..|beg| - 1])
  {
    var t := |beg| - 1;
    forall p: nat, q: nat | p < q < |a|
      ensures Settled(a, beg[..t], end[..t], p, q)
    {
      assert Settled(a, beg, end, p, q);
      if a[p] > a[q] {
        var k :| 0 <= k < |beg| && InSegment(beg, end, k, p) && InSegment(beg, end, k, q);
        assert InSegment(beg[..t], end[..t], k, p) && InSegment(beg[..t], end[..t], k, q);
      }
    }
  }

  /** Both measures: the pending work shrinks and every level stays within its bound. */
  lemma SplitShrinks(beg: seq<int>, end: seq<int>, beg': seq<int>, end': seq<int>, lo: nat, mid: nat, hi: nat)
    requires Split(beg, end, beg', end', lo, mid, hi)
    ensures Pending(beg', end') < Pending(beg, end)
  {
    var t := |beg| - 1;
    assert beg'[..t + 1][..t] == beg'[..t] && end'[..t + 1][..t] == end'[..t];
    assert Pending(beg'[..t + 1], end'[..t + 1]) == Pending(beg'[..t], end'[..t]) + 2 * (end'[t] - beg'[t]) + 1;
  }

  lemma SplitKeepsLevels(beg: seq<int>, end: seq<int>, beg': seq<int>, end': seq<int>, lo: nat, mid: nat, hi: nat,
                         n: nat)
    requires Split(beg, end, beg', end', lo, mid, hi) && Levels(beg, end, n) && lo <= mid < hi
    ensures Levels(beg', end', n)
  {
    var t := |beg| - 1;
    var p := P2(t);
    assert (hi - lo) * p <= n;
    forall k | 0 <= k < |beg'|
      ensures (end'[k] - beg'[k]) * P2(k) <= n
    {
      if k < t {
        assert beg'[k] == beg'[..t][k] == beg[k] && end'[k] == end'[..t][k] == end[k];
      } else {
        TopLevels(end'[t] - beg'[t], end'[t + 1] - beg'[t + 1], hi - lo, p, n);
      }
    }
  }

  lemma TopLevels(big: nat, small: nat, whole: nat, p: nat, n: nat)
    requires small <= big && big + small + 1 == whole && whole * p <= n
    ensures big * p <= n && small * (2 * p) <= n
  {
    assert whole * p == big * p + small * p + p;
    assert big * p >= small * p by { if p > 0 { ScaleMonotone(p, small, big); } }
    assert small * (2 * p) == 2 * (small * p);
  }

  /** A segment that is split lies at a level below log2 of the array size. */
  lemma SplitLevelBound(beg: seq<int>, end: seq<int>, lo: int, hi: int, n: nat)
    requires Levels(beg, end, n) && IsTop(beg, end, lo, hi) && hi - lo >= 2
    ensures P2(|beg|) <= n
  {
    var t := |beg| - 1;
    ScaleMonotone(P2(t), 2, hi - lo);
  }

  lemma LevelBelowLimit(t: nat, n: nat)
    requires P2(t) <= n <= 0x7FFF_FFFF
    ensures t < 31 < MAX_LEVELS
  {
    P2Words();
    assert P2(32) == 2 * P2(31);
    if t >= 31 {
      P2Monotone(31, t);
    }
  }

  lemma StackIsSorted(a: seq<int>, beg: seq<int>, end: seq<int>)
    requires Stack(a, beg, end) && |beg| == 0
    ensures forall p: nat, q: nat | p < q < |a| :: a[p] <= a[q]
  {
    forall p: nat, q: nat | p < q < |a|
      ensures a[p] <= a[q]
    {
      assert Settled(a, beg, end, p, q);
    }
  }

  lemma WholeArrayOnStack(a: seq<int>)
    ensures Stack(a, [0], [|a|]) && Levels([0], [|a|], |a|)
  {
    assert P2(0) == 1;
    forall p: nat, q: nat | p < q < |a|
      ensures Settled(a, [0], [|a|], p, q)
    {
      assert InSegment([0], [|a|], 0, p) && InSegment([0], [|a|], 0, q);
    }
  }

  lemma PopKeepsLevels(beg: seq<int>, end: seq<int>, n: nat)
    requires Levels(beg, end, n) && |beg| > 0
    ensures Levels(beg[..|beg| - 1], end[..|beg| - 1], n)
  {
  }

  lemma {:induction false} PendingNonNegative(beg: seq<int>, end: seq<int>)
    requires |beg| == |end| && forall k | 0 <= k < |beg| :: beg[k] <= end[k]
    ensures Pending(beg, end) >= |beg|
  {
    if beg != [] {
      PendingNonNegative(beg[..|beg| - 1], end[..|beg| - 1]);
    }
  }

  lemma PartitionPermutes(a: seq<int>, a': seq<int>, lo: nat, hi: nat, mid: nat)
    requires Partitioned(a, a', lo, hi, mid)
    ensures multiset(a') == multiset(a)
  {
    assert a == a[..lo] + a[lo..hi] + a[hi..];
    assert a' == a'[..lo] + a'[lo..hi] + a'[hi..];
  }

  /** The invariant of the outer loop. */
  ghost predicate Sorting(original: seq<int>, a: seq<int>, beg: seq<int>, end: seq<int>) {
    && Stack(a, beg, end) && Levels(beg, end, |original|)
    && |a| == |original| && multiset(a) == multiset(original)
  }

  lemma SplitStep(original: seq<int>, a: seq<int>, a': seq<int>, beg: seq<int>, end: seq<int>, beg': seq<int>,
                  end': seq<int>, lo: nat, mid: nat, hi: nat)
    requires Sorting(original, a, beg, end) && Partitioned(a, a', lo, hi, mid)
    requires Split(beg, end, beg', end', lo, mid, hi)
    ensures Sorting(original, a', beg', end')
    ensures 0 <= Pending(beg', end') < Pending(beg, end)
  {
    hide Stack, Levels, Partitioned, Split;
    PartitionLength(a, a', lo, hi, mid);
    PartitionPermutes(a, a', lo, hi, mid);
    SplitKeepsStack(a, a', beg, end, beg', end', lo, mid, hi);
    SplitKeepsLevels(beg, end, beg', end', lo, mid, hi, |original|);
    SplitShrinks(beg, end, beg', end', lo, mid, hi);
    StackShape(a', beg', end');
    PendingNonNegative(beg', end');
  }

  lemma PopStep(original: seq<int>, a: seq<int>, beg: seq<int>, end: seq<int>, lo: int, hi: int)
    requires Sorting(original, a, beg, end) && IsTop(beg, end, lo, hi) && hi <= lo + 1
    ensures Sorting(original, a, beg[..|beg| - 1], end[..|beg| - 1])
    ensures 0 <= Pending(beg[..|beg| - 1], end[..|beg| - 1]) < Pending(beg, end)
  {
    hide Levels;
    PopKeepsStack(a, beg, end, lo, hi);
    PopKeepsLevels(beg, end, |original|);
    PopShrinks(beg, end);
    PendingNonNegative(beg[..|beg| - 1], end[..|beg| - 1]);
  }

  lemma SplitRoom(original: seq<int>, a: seq<int>, beg: seq<int>, end: seq<int>, lo: int, hi: int)
    requires Sorting(original, a, beg, end) && IsTop(beg, end, lo, hi) && lo + 1 < hi && |original| <= 0x7FFF_FFFF
    ensures 0 <= lo && hi <= |a| && P2(|beg|) <= |original| && |beg| < MAX_LEVELS
  {
    SplitLevelBound(beg, end, lo, hi, |original|);
    LevelBelowLimit(|beg|, |original|);
  }

  /** Replaces the top segment by its two halves, the smaller one on top. */
  method PushHalves(beg: array<int>, end: array<int>, i: nat, mid: int)
    requires beg != end && beg.Length == end.Length && i + 1 < beg.Length
    modifies beg, end
    ensures Split(old(beg[..i + 1]), old(end[..i + 1]), beg[..i + 2], end[..i + 2], old(beg[i]), mid, old(end[i]))
  {
    var t := i + 1;
    beg[t] := mid + 1;
    end[t] := end[i];
    end[i] := mid;
    if end[t] - beg[t] > end[t - 1] - beg[t - 1] {
      var swap := beg[t];
      beg[t] := beg[t - 1];
      beg[t - 1] := swap;
      swap := end[t];
      end[t] := end[t - 1];
      end[t - 1] := swap;
    }
    assert beg[..i + 2][..i] == old(beg[..i + 1])[..i] && end[..i + 2][..i] == old(end[..i + 1])[..i];
  }

  /** Sorts the array. The stack never needs a level beyond log2 of the number of elements, so 300 levels suffice
    * for every int. */
  method QuickSort(arr: array<int>, elements: nat) returns (ghost deepest: nat)
    requires elements == arr.Length <= 0x7FFF_FFFF
    modifies arr
    ensures forall p: nat, q: nat | p < q < arr.Length :: arr[p] <= arr[q]
    ensures multiset(arr[..]) == multiset(old(arr[..]))
    ensures deepest == 0 || P2(deepest) <= elements
  {
    hide Stack, Levels, Partitioned, Split, Pending, Sorting;
    ghost var original := arr[..];
    var beg, end := new int[MAX_LEVELS], new int[MAX_LEVELS];
    var i := 0;
    beg[0] := 0;
    end[0] := elements;
    deepest := 0;
    SortingStarts(original);
    assert beg[..1] == [0] && end[..1] == [elements];
    while i >= 0
      invariant -1 <= i <= deepest < MAX_LEVELS
      invariant fresh(beg) && fresh(end) && beg != end && beg.Length == end.Length == MAX_LEVELS
      invariant deepest == 0 || P2(deepest) <= elements
      invariant Sorting(original, arr[..], beg[..i + 1], end[..i + 1])
      decreases Pending(beg[..i + 1], end[..i + 1])
    {
      ghost var a, b, e := arr[..], beg[..i + 1], end[..i + 1];
      var L, R := beg[i], end[i] - 1;
      if L < R {
        SplitRoom(original, a, b, e, L, R + 1);
        var mid := Partition(arr, L, R + 1);
        PushHalves(beg, end, i, mid);
        i := i + 1;
        deepest := if i > deepest then i else deepest;
        SplitStep(original, a, arr[..], b, e, beg[..i + 1], end[..i + 1], L, mid, R + 1);
      } else {
        PopStep(original, a, b, e, L, R + 1);
        i := i - 1;
        assert beg[..i + 1] == b[..|b| - 1] && end[..i + 1] == e[..|b| - 1];
      }
    }
    SortingEnds(original, arr[..], beg[..i + 1], end[..i + 1]);
  }

  lemma SortingStarts(a: seq<int>)
    ensures Sorting(a, a, [0], [|a|])
  {
    WholeArrayOnStack(a);
  }

  lemma SortingEnds(original: seq<int>, a: seq<int>, beg: seq<int>, end: seq<int>)
    requires Sorting(original, a, beg, end) && |beg| == 0
    ensures multiset(a) == multiset(original)
    ensures forall p: nat, q: nat | p < q < |a| :: a[p] <= a[q]
  {
    StackIsSorted(a, beg, end);
  }

  lemma StackShape(a: seq<int>, beg: seq<int>, end: seq<int>)
    requires Stack(a, beg, end)
    ensures |beg| == |end| && forall k | 0 <= k < |beg| :: 0 <= beg[k] <= end[k] <= |a|
  {
  }

  lemma PopShrinks(beg: seq<int>, end: seq<int>)
    requires |beg| == |end| > 0 && beg[|beg| - 1] <= end[|beg| - 1]
    ensures Pending(beg[..|beg| - 1], end[..|beg| - 1]) < Pending(beg, end)
  {
  }
}
