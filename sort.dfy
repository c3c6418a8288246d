/** The hybrid sort of sort.h: insertion sort below eight elements, otherwise a
    middle-pivot partition, a recursive call on the smaller side and another trip
    round the loop on the larger side. It works in place on a half-open index range
    [lo, hi) of an integer array, ordered by `<`.

    Each method is tied to a function on sequences that follows the same steps
    (`a[..] == F(old(a[..]), ...)`), and the properties of the sort are lemmas about
    those functions. */
module HybridSort {

  /** Ranges shorter than this are handed to insertion sort. */
  const Threshold := 8

  /** s with the elements at i and j exchanged. */
  function Swap(s: seq<int>, i: int, j: int): (r: seq<int>)
    requires 0 <= i < |s| && 0 <= j < |s|
    ensures |r| == |s| && r[i] == s[j] && r[j] == s[i]
    ensures forall k :: 0 <= k < |s| && k != i && k != j ==> r[k] == s[k]
  {
    s[i := s[j]][j := s[i]]
  }

  /** [lo, hi) of s is non-decreasing. */
  ghost predicate Sorted(s: seq<int>, lo: int, hi: int)
    requires 0 <= lo && hi <= |s|
  {
    forall p, q :: lo <= p < q < hi ==> s[p] <= s[q]
  }

  /** t is s with the elements of [lo, hi) rearranged and nothing else changed. */
  ghost predicate PermutedWithin(s: seq<int>, t: seq<int>, lo: int, hi: int)
    requires 0 <= lo <= hi
  {
    hi <= |s| && SameOutside(s, t, lo, hi) && multiset(s) == multiset(t)
  }

  /** Every element of [lo, hi) is below x. */
  ghost predicate Below(s: seq<int>, lo: int, hi: int, x: int)
    requires 0 <= lo && hi <= |s|
  {
    forall k :: lo <= k < hi ==> s[k] < x
  }

  /** No element of [lo, hi) is below x. */
  ghost predicate AtLeast(s: seq<int>, lo: int, hi: int, x: int)
    requires 0 <= lo && hi <= |s|
  {
    forall k :: lo <= k < hi ==> x <= s[k]
  }

  /** s and t agree everywhere outside [lo, hi). */
  ghost predicate SameOutside(s: seq<int>, t: seq<int>, lo: int, hi: int)
  {
    |s| == |t| && forall k :: 0 <= k < |s| && !(lo <= k < hi) ==> s[k] == t[k]
  }

  lemma PermutedSameOutside(s: seq<int>, t: seq<int>, lo: int, hi: int)
    requires 0 <= lo <= hi && PermutedWithin(s, t, lo, hi)
    ensures SameOutside(s, t, lo, hi)
  {
  }

  lemma PermutedWithinRefl(s: seq<int>, lo: int, hi: int)
    requires 0 <= lo <= hi <= |s|
    ensures PermutedWithin(s, s, lo, hi)
  {
  }

  lemma PermutedWithinTrans(s: seq<int>, t: seq<int>, u: seq<int>, lo: int, hi: int)
    requires 0 <= lo <= hi
    requires PermutedWithin(s, t, lo, hi) && PermutedWithin(t, u, lo, hi)
    ensures PermutedWithin(s, u, lo, hi)
  {
  }

  /** Exchanging two elements inside [lo, hi) permutes [lo, hi). */
  lemma SwapPermutes(s: seq<int>, i: int, j: int, lo: int, hi: int)
    requires 0 <= lo <= i < hi <= |s| && lo <= j < hi
    ensures PermutedWithin(s, Swap(s, i, j), lo, hi)
  {
    assert Swap(s, i, j) == s[i := s[j]][j := s[i]];
  }

  /** A rearrangement of a sub-range is a rearrangement of any range around it. */
  lemma PermutedWithinWiden(s: seq<int>, t: seq<int>, lo': int, hi': int, lo: int, hi: int)
    requires 0 <= lo <= lo' <= hi' <= hi
    requires PermutedWithin(s, t, lo', hi') && hi <= |s|
    ensures PermutedWithin(s, t, lo, hi)
  {
  }

  /** A rearrangement of [lo, hi) followed by rearrangements of two sub-ranges
      is a rearrangement of [lo, hi). */
  lemma PermutedWithinThree(s: seq<int>, t: seq<int>, u: seq<int>, v: seq<int>, lo: int, hi: int,
                            lo1: int, hi1: int, lo2: int, hi2: int)
    requires 0 <= lo <= lo1 <= hi1 <= hi && lo <= lo2 <= hi2 <= hi
    requires PermutedWithin(s, t, lo, hi)
    requires PermutedWithin(t, u, lo1, hi1) && PermutedWithin(u, v, lo2, hi2)
    ensures PermutedWithin(s, v, lo, hi)
  {
    PermutedWithinWiden(t, u, lo1, hi1, lo, hi);
    PermutedWithinWiden(u, v, lo2, hi2, lo, hi);
    PermutedWithinTrans(s, t, u, lo, hi);
    PermutedWithinTrans(s, u, v, lo, hi);
  }

  /** The elements of s are those before lo, those in [lo, hi) and those from hi on. */
  lemma MultisetThreeParts(s: seq<int>, lo: int, hi: int)
    requires 0 <= lo <= hi <= |s|
    ensures multiset(s) == multiset(s[..lo]) + multiset(s[lo..hi]) + multiset(s[hi..])
  {
    assert s == s[..lo] + s[lo..hi] + s[hi..];
  }

  /** A rearrangement of [lo, hi) holds the same elements in [lo, hi) as before. */
  lemma RangeMultisetKept(s: seq<int>, t: seq<int>, lo: int, hi: int)
    requires 0 <= lo <= hi && PermutedWithin(s, t, lo, hi)
    ensures multiset(s[lo..hi]) == multiset(t[lo..hi])
  {
    MultisetThreeParts(s, lo, hi);
    MultisetThreeParts(t, lo, hi);
    assert s[..lo] == t[..lo];
    assert s[hi..] == t[hi..];
    forall x
      ensures multiset(s[lo..hi])[x] == multiset(t[lo..hi])[x]
    {
      assert multiset(s)[x] == multiset(t)[x];
    }
  }

  /** Every element of a rearranged range was already in that range. */
  lemma ElementsKept(s: seq<int>, t: seq<int>, lo: int, hi: int)
    requires 0 <= lo <= hi && PermutedWithin(s, t, lo, hi)
    ensures forall k :: lo <= k < hi ==> t[k] in s[lo..hi]
  {
    RangeMultisetKept(s, t, lo, hi);
    forall k | lo <= k < hi
      ensures t[k] in s[lo..hi]
    {
      assert t[lo..hi][k - lo] == t[k];
      assert t[k] in multiset(t[lo..hi]);
    }
  }

  /** A rearrangement keeps a lower bound that holds throughout the range. */
  lemma LowerBoundKept(s: seq<int>, t: seq<int>, lo: int, hi: int, x: int)
    requires 0 <= lo <= hi && PermutedWithin(s, t, lo, hi)
    requires forall k :: lo <= k < hi ==> x <= s[k]
    ensures forall k :: lo <= k < hi ==> x <= t[k]
  {
    ElementsKept(s, t, lo, hi);
    forall k | lo <= k < hi ensures x <= t[k] {
      var i :| 0 <= i < hi - lo && s[lo..hi][i] == t[k];
      assert s[lo + i] == t[k];
    }
  }

  /** A rearrangement keeps a strict upper bound that holds throughout the range. */
  lemma UpperBoundKept(s: seq<int>, t: seq<int>, lo: int, hi: int, x: int)
    requires 0 <= lo <= hi && PermutedWithin(s, t, lo, hi)
    requires forall k :: lo <= k < hi ==> s[k] < x
    ensures forall k :: lo <= k < hi ==> t[k] < x
  {
    ElementsKept(s, t, lo, hi);
    forall k | lo <= k < hi ensures t[k] < x {
      var i :| 0 <= i < hi - lo && s[lo..hi][i] == t[k];
      assert s[lo + i] == t[k];
    }
  }

  // ---------------------------------------------------------------------------
  // sortSlow: insertion sort by adjacent swaps

  /** One run of sortSlow's inner loop, from j down to lo + 1: the element at j is
      swapped with its left neighbour whenever it is smaller. The loop does not stop
      early; once the new element has settled, the remaining comparisons find the
      pairs already in order. */
  function InnerPass(s: seq<int>, lo: int, j: int): (r: seq<int>)
    requires 0 <= lo <= j < |s|
    ensures |r| == |s|
    decreases j - lo
  {
    if j == lo then s
    else InnerPass(if s[j] < s[j - 1] then Swap(s, j - 1, j) else s, lo, j - 1)
  }

  /** sortSlow's outer loop from position i to the end of [lo, hi). */
  function OuterPass(s: seq<int>, lo: int, hi: int, i: int): (r: seq<int>)
    requires 0 <= lo <= i <= hi <= |s|
    ensures |r| == |s|
    decreases hi - i
  {
    if i == hi then s else OuterPass(InnerPass(s, lo, i), lo, hi, i + 1)
  }

  /** What sortSlow leaves in the array. */
  function InsertionSorted(s: seq<int>, lo: int, hi: int): seq<int>
    requires 0 <= lo <= hi <= |s|
  {
    OuterPass(s, lo, hi, lo)
  }

  /** A step of the inner loop that swaps keeps its invariant (see InnerPassSorts)
      with j moved one place down. */
  lemma InnerSwapKeeps(s: seq<int>, lo: int, j: int, i: int)
    requires 0 <= lo < j <= i < |s| && s[j] < s[j - 1]
    requires Sorted(s, lo, j) && Sorted(s, j, i + 1)
    requires forall k, m :: lo <= k < j < m <= i ==> s[k] <= s[m]
    ensures var s' := Swap(s, j - 1, j);
      Sorted(s', lo, j - 1) && Sorted(s', j - 1, i + 1) &&
      (forall k, m :: lo <= k < j - 1 < m <= i ==> s'[k] <= s'[m])
  {
    var s' := Swap(s, j - 1, j);
    forall k | lo <= k < j - 1 ensures s'[k] == s[k] { }
    forall m | j + 1 <= m <= i ensures s'[m] == s[m] { }
  }

  /** A step of the inner loop that finds the pair in order keeps its invariant
      with j moved one place down. */
  lemma InnerStayKeeps(s: seq<int>, lo: int, j: int, i: int)
    requires 0 <= lo < j <= i < |s| && !(s[j] < s[j - 1])
    requires Sorted(s, lo, j) && Sorted(s, j, i + 1)
    requires forall k, m :: lo <= k < j < m <= i ==> s[k] <= s[m]
    ensures Sorted(s, lo, j - 1) && Sorted(s, j - 1, i + 1)
    ensures forall k, m :: lo <= k < j - 1 < m <= i ==> s[k] <= s[m]
  {
  }

  /** sortSlow's inner loop only exchanges neighbours inside [lo, j]. */
  lemma {:induction false} InnerPassPermutes(s: seq<int>, lo: int, j: int)
    requires 0 <= lo <= j < |s|
    ensures PermutedWithin(s, InnerPass(s, lo, j), lo, j + 1)
    decreases j - lo, 1
  {
    if j == lo {
      PermutedWithinRefl(s, lo, j + 1);
    } else if s[j] < s[j - 1] {
      InnerSwapPermutes(s, lo, j);
    } else {
      InnerStayPermutes(s, lo, j);
    }
  }

  /** InnerPassPermutes when the first step swaps. */
  lemma {:induction false} InnerSwapPermutes(s: seq<int>, lo: int, j: int)
    requires 0 <= lo < j < |s| && s[j] < s[j - 1]
    ensures PermutedWithin(s, InnerPass(s, lo, j), lo, j + 1)
    decreases j - lo, 0
  {
    InnerPassStep(s, lo, j);
    InnerPassPermutes(Swap(s, j - 1, j), lo, j - 1);
    SwapThenPermuted(s, lo, j, InnerPass(Swap(s, j - 1, j), lo, j - 1), InnerPass(s, lo, j));
  }

  /** InnerPassPermutes when the first step leaves the pair alone. */
  lemma {:induction false} InnerStayPermutes(s: seq<int>, lo: int, j: int)
    requires 0 <= lo < j < |s| && !(s[j] < s[j - 1])
    ensures PermutedWithin(s, InnerPass(s, lo, j), lo, j + 1)
    decreases j - lo, 0
  {
    InnerPassStep(s, lo, j);
    InnerPassPermutes(s, lo, j - 1);
    StayThenPermuted(s, lo, j, InnerPass(s, lo, j - 1), InnerPass(s, lo, j));
  }

  /** The first step of an inner run. */
  lemma InnerPassStep(s: seq<int>, lo: int, j: int)
    requires 0 <= lo < j < |s|
    ensures s[j] < s[j - 1] ==> InnerPass(s, lo, j) == InnerPass(Swap(s, j - 1, j), lo, j - 1)
    ensures !(s[j] < s[j - 1]) ==> InnerPass(s, lo, j) == InnerPass(s, lo, j - 1)
  {
  }

  /** Swapping j - 1 and j and then rearranging [lo, j) rearranges [lo, j]. */
  lemma SwapThenPermuted(s: seq<int>, lo: int, j: int, u: seq<int>, v: seq<int>)
    requires 0 <= lo < j < |s|
    requires PermutedWithin(Swap(s, j - 1, j), u, lo, j) && u == v
    ensures PermutedWithin(s, v, lo, j + 1)
  {
    SwapPermutes(s, j - 1, j, lo, j + 1);
    PermutedWithinWiden(Swap(s, j - 1, j), u, lo, j, lo, j + 1);
    PermutedWithinTrans(s, Swap(s, j - 1, j), u, lo, j + 1);
  }

  /** Rearranging [lo, j) rearranges [lo, j]. */
  lemma StayThenPermuted(s: seq<int>, lo: int, j: int, u: seq<int>, v: seq<int>)
    requires 0 <= lo <= j < |s|
    requires PermutedWithin(s, u, lo, j) && u == v
    ensures PermutedWithin(s, v, lo, j + 1)
  {
    PermutedWithinWiden(s, u, lo, j, lo, j + 1);
  }

  /** The inner loop's invariant: [lo, j) and [j, i] are each sorted and nothing in
      [lo, j) exceeds anything in (j, i]. The rest of the pass then sorts [lo, i]. */
  lemma {:induction false} InnerPassSorts(s: seq<int>, lo: int, j: int, i: int)
    requires 0 <= lo <= j <= i < |s|
    requires Sorted(s, lo, j) && Sorted(s, j, i + 1)
    requires forall k, m :: lo <= k < j < m <= i ==> s[k] <= s[m]
    ensures Sorted(InnerPass(s, lo, j), lo, i + 1)
    decreases j - lo
  {
    if j == lo {
    } else if s[j] < s[j - 1] {
      InnerSwapKeeps(s, lo, j, i);
      InnerPassSorts(Swap(s, j - 1, j), lo, j - 1, i);
    } else {
      InnerStayKeeps(s, lo, j, i);
      InnerPassSorts(s, lo, j - 1, i);
    }
  }

  /** sortSlow's outer loop from i on only rearranges [lo, hi). */
  lemma {:induction false} OuterPassPermutes(s: seq<int>, lo: int, hi: int, i: int)
    requires 0 <= lo <= i <= hi <= |s|
    ensures PermutedWithin(s, OuterPass(s, lo, hi, i), lo, hi)
    decreases hi - i
  {
    if i == hi {
      PermutedWithinRefl(s, lo, hi);
    } else {
      var s' := InnerPass(s, lo, i);
      InnerPassPermutes(s, lo, i);
      PermutedWithinWiden(s, s', lo, i + 1, lo, hi);
      OuterPassPermutes(s', lo, hi, i + 1);
      PermutedWithinTrans(s, s', OuterPass(s', lo, hi, i + 1), lo, hi);
    }
  }

  /** The outer loop's invariant: once [lo, i) is sorted, the rest of the loop
      sorts [lo, hi). */
  lemma {:induction false} OuterPassSorts(s: seq<int>, lo: int, hi: int, i: int)
    requires 0 <= lo <= i <= hi <= |s|
    requires Sorted(s, lo, i)
    ensures Sorted(OuterPass(s, lo, hi, i), lo, hi)
    decreases hi - i
  {
    if i < hi {
      InnerPassSorts(s, lo, i, i);
      OuterPassSorts(InnerPass(s, lo, i), lo, hi, i + 1);
    }
  }

  /** sortSlow sorts [lo, hi), keeps its elements and touches nothing outside it. */
  lemma InsertionSortCorrect(s: seq<int>, lo: int, hi: int)
    requires 0 <= lo <= hi <= |s|
    ensures PermutedWithin(s, InsertionSorted(s, lo, hi), lo, hi)
    ensures Sorted(InsertionSorted(s, lo, hi), lo, hi)
  {
    OuterPassPermutes(s, lo, hi, lo);
    OuterPassSorts(s, lo, hi, lo);
  }

  /** Where sortSlow's outer loop stands: running it from i to the end of
      [lo, hi) on s gives goal. */
  ghost predicate OuterPassTo(s: seq<int>, lo: int, hi: int, i: int, goal: seq<int>)
  {
    0 <= lo <= i <= hi <= |s| && OuterPass(s, lo, hi, i) == goal
  }

  /** Where sortSlow's inner loop stands: finishing its run from j, then running
      the outer loop from i + 1, gives goal. */
  ghost predicate InnerPassTo(s: seq<int>, lo: int, hi: int, i: int, j: int, goal: seq<int>)
  {
    0 <= lo <= j <= i < hi <= |s| && OuterPass(InnerPass(s, lo, j), lo, hi, i + 1) == goal
  }

  /** A trip round the outer loop starts an inner run at j = i. */
  lemma OuterTurn(s: seq<int>, lo: int, hi: int, i: int, goal: seq<int>)
    requires OuterPassTo(s, lo, hi, i, goal) && i < hi
    ensures InnerPassTo(s, lo, hi, i, i, goal)
  {
    assert OuterPass(s, lo, hi, i) == OuterPass(InnerPass(s, lo, i), lo, hi, i + 1);
  }

  /** A trip round the inner loop where the pair at j - 1, j is out of order: it
      is swapped. */
  lemma InnerSwapTurn(s: seq<int>, lo: int, hi: int, i: int, j: int, goal: seq<int>, u: seq<int>)
    requires InnerPassTo(s, lo, hi, i, j, goal) && lo < j && s[j] < s[j - 1]
    requires u == Swap(s, j - 1, j)
    ensures InnerPassTo(u, lo, hi, i, j - 1, goal)
  {
    assert InnerPass(s, lo, j) == InnerPass(Swap(s, j - 1, j), lo, j - 1);
  }

  /** A trip round the inner loop where the pair at j - 1, j is in order: nothing
      moves. */
  lemma InnerStayTurn(s: seq<int>, lo: int, hi: int, i: int, j: int, goal: seq<int>)
    requires InnerPassTo(s, lo, hi, i, j, goal) && lo < j && !(s[j] < s[j - 1])
    ensures InnerPassTo(s, lo, hi, i, j - 1, goal)
  {
    assert InnerPass(s, lo, j) == InnerPass(s, lo, j - 1);
  }

  /** The inner run ends at lo, and the outer loop moves on to i + 1. */
  lemma InnerDone(s: seq<int>, lo: int, hi: int, i: int, goal: seq<int>)
    requires InnerPassTo(s, lo, hi, i, lo, goal)
    ensures OuterPassTo(s, lo, hi, i + 1, goal)
  {
    assert InnerPass(s, lo, lo) == s;
  }

  /** sortSlow (sort.h): nested loops of adjacent swaps over [lo, hi). */
  method SortSlow(a: array<int>, lo: int, hi: int)
    requires 0 <= lo <= hi <= a.Length
    modifies a
    ensures a[..] == InsertionSorted(old(a[..]), lo, hi)
  {
    ghost var goal := InsertionSorted(a[..], lo, hi);
    var i := lo;
    while i < hi
      invariant lo <= i <= hi
      invariant OuterPassTo(a[..], lo, hi, i, goal)
    {
      OuterTurn(a[..], lo, hi, i, goal);
      var j := i;
      while j > lo
        invariant lo <= j <= i
        invariant InnerPassTo(a[..], lo, hi, i, j, goal)
      {
        if a[j] < a[j - 1] {
          ghost var before := a[..];
          a[j], a[j - 1] := a[j - 1], a[j];
          InnerSwapTurn(before, lo, hi, i, j, goal, a[..]);
        } else {
          InnerStayTurn(a[..], lo, hi, i, j, goal);
        }
        j := j - 1;
      }
      InnerDone(a[..], lo, hi, i, goal);
      i := i + 1;
    }
  }

  // ---------------------------------------------------------------------------
  // anastasy_partition

  /** The partition loop from the state (f, l): an element below the pivot value
      stays and f advances; any other is swapped with the one before l, and l
      retreats. Yields the final array and the meeting point. */
  function PartitionLoop(s: seq<int>, f: int, l: int, pivotVal: int): (r: (seq<int>, int))
    requires 0 <= f <= l <= |s|
    ensures |r.0| == |s| && f <= r.1 <= l
    decreases l - f
  {
    if f == l then (s, f)
    else if s[f] < pivotVal then PartitionLoop(s, f + 1, l, pivotVal)
    else PartitionLoop(Swap(s, f, l - 1), f, l - 1, pivotVal)
  }

  /** anastasy_partition: park the pivot at hi - 1, run the loop over [lo, hi - 1),
      then swap the pivot into the meeting point, which is returned. */
  function Partitioned(s: seq<int>, lo: int, hi: int, pivot: int): (r: (seq<int>, int))
    requires 0 <= lo <= pivot < hi <= |s|
    ensures |r.0| == |s| && lo <= r.1 < hi
  {
    var m := PartitionLoop(Swap(s, pivot, hi - 1), lo, hi - 1, s[pivot]);
    (Swap(m.0, hi - 1, m.1), m.1)
  }

  /** The partition loop only rearranges [f, l). */
  lemma {:induction false} PartitionLoopPermutes(s: seq<int>, f: int, l: int, pivotVal: int)
    requires 0 <= f <= l <= |s|
    ensures PermutedWithin(s, PartitionLoop(s, f, l, pivotVal).0, f, l)
    decreases l - f
  {
    if f == l {
      PermutedWithinRefl(s, f, l);
    } else if s[f] < pivotVal {
      assert PartitionLoop(s, f, l, pivotVal) == PartitionLoop(s, f + 1, l, pivotVal);
      PartitionLoopPermutes(s, f + 1, l, pivotVal);
      PermutedWithinWiden(s, PartitionLoop(s, f + 1, l, pivotVal).0, f + 1, l, f, l);
    } else {
      var s' := Swap(s, f, l - 1);
      assert PartitionLoop(s, f, l, pivotVal) == PartitionLoop(s', f, l - 1, pivotVal);
      SwapPermutes(s, f, l - 1, f, l);
      PartitionLoopPermutes(s', f, l - 1, pivotVal);
      PermutedWithinWiden(s', PartitionLoop(s', f, l - 1, pivotVal).0, f, l - 1, f, l);
      PermutedWithinTrans(s, s', PartitionLoop(s', f, l - 1, pivotVal).0, f, l);
    }
  }

  /** The partition loop's invariant: [lo, f) is below the pivot value and [l, e)
      is not; at the end the meeting point splits [lo, e) the same way, and
      nothing outside [f, l) has moved. */
  lemma {:induction false} PartitionLoopSplits(s: seq<int>, lo: int, f: int, l: int, e: int, pivotVal: int)
    requires 0 <= lo <= f <= l <= e <= |s|
    requires forall k :: lo <= k < f ==> s[k] < pivotVal
    requires forall k :: l <= k < e ==> pivotVal <= s[k]
    ensures var r := PartitionLoop(s, f, l, pivotVal);
      (forall k :: lo <= k < r.1 ==> r.0[k] < pivotVal) &&
      (forall k :: r.1 <= k < e ==> pivotVal <= r.0[k]) &&
      (forall k :: 0 <= k < |s| && !(f <= k < l) ==> r.0[k] == s[k])
    decreases l - f
  {
    if f == l {
    } else if s[f] < pivotVal {
      assert PartitionLoop(s, f, l, pivotVal) == PartitionLoop(s, f + 1, l, pivotVal);
      PartitionLoopSplits(s, lo, f + 1, l, e, pivotVal);
    } else {
      var s' := Swap(s, f, l - 1);
      assert PartitionLoop(s, f, l, pivotVal) == PartitionLoop(s', f, l - 1, pivotVal);
      PartitionLoopSplits(s', lo, f, l - 1, e, pivotVal);
    }
  }

  /** anastasy_partition only rearranges [lo, hi). */
  lemma PartitionPermutes(s: seq<int>, lo: int, hi: int, pivot: int)
    requires 0 <= lo <= pivot < hi <= |s|
    ensures PermutedWithin(s, Partitioned(s, lo, hi, pivot).0, lo, hi)
  {
    var s1 := Swap(s, pivot, hi - 1);
    var m := PartitionLoop(s1, lo, hi - 1, s[pivot]);
    var u := Swap(m.0, hi - 1, m.1);
    assert Partitioned(s, lo, hi, pivot).0 == u;
    SwapPermutes(s, pivot, hi - 1, lo, hi);
    PartitionLoopPermutes(s1, lo, hi - 1, s[pivot]);
    PermutedWithinWiden(s1, m.0, lo, hi - 1, lo, hi);
    SwapPermutes(m.0, hi - 1, m.1, lo, hi);
    PermutedWithinTrans(s, s1, m.0, lo, hi);
    PermutedWithinTrans(s, m.0, u, lo, hi);
  }

  /** anastasy_partition returns p in [lo, hi) holding the original pivot value;
      everything before p is below it and nothing after p is. */
  lemma PartitionSplits(s: seq<int>, lo: int, hi: int, pivot: int)
    requires 0 <= lo <= pivot < hi <= |s|
    ensures var r := Partitioned(s, lo, hi, pivot);
      lo <= r.1 < hi && r.0[r.1] == s[pivot] &&
      Below(r.0, lo, r.1, r.0[r.1]) && AtLeast(r.0, r.1 + 1, hi, r.0[r.1])
  {
    var pivotVal := s[pivot];
    var s1 := Swap(s, pivot, hi - 1);
    var m := PartitionLoop(s1, lo, hi - 1, pivotVal);
    var t, p := m.0, m.1;
    var u := Swap(t, hi - 1, p);
    assert Partitioned(s, lo, hi, pivot) == (u, p);
    PartitionLoopSplits(s1, lo, lo, hi - 1, hi - 1, pivotVal);
    assert t[hi - 1] == pivotVal;
    assert u[p] == pivotVal;
    forall k | lo <= k < p ensures u[k] < pivotVal {
      assert u[k] == t[k];
    }
    forall k | p < k < hi ensures pivotVal <= u[k] {
      if k == hi - 1 {
        assert u[k] == t[p];
      } else {
        assert u[k] == t[k];
      }
    }
  }

  /** anastasy_partition (sort.h), with `pivot` an index into [lo, hi). */
  method Partition(a: array<int>, lo: int, hi: int, pivot: int) returns (p: int)
    requires 0 <= lo <= pivot < hi <= a.Length
    modifies a
    ensures lo <= p < hi
    ensures a[..] == Partitioned(old(a[..]), lo, hi, pivot).0
    ensures p == Partitioned(old(a[..]), lo, hi, pivot).1
  {
    var pivotVal := a[pivot];
    var last := hi - 1;
    a[pivot], a[last] := a[last], a[pivot];
    ghost var start := a[..];
    var first := lo;
    while first < last
      invariant lo <= first <= last <= hi - 1
      invariant PartitionLoop(a[..], first, last, pivotVal) == PartitionLoop(start, lo, hi - 1, pivotVal)
    {
      if a[first] < pivotVal {
        first := first + 1;
      } else {
        last := last - 1;
        a[first], a[last] := a[last], a[first];
      }
    }
    a[hi - 1], a[first] := a[first], a[hi - 1];
    p := first;
  }

  // ---------------------------------------------------------------------------
  // anastasy_sort

  /** What anastasy_sort is evidently meant to compute: while [lo, hi) is not
      empty, one trip round the loop. */
  function HybridSorted(s: seq<int>, lo: int, hi: int): (r: seq<int>)
    requires 0 <= lo && hi <= |s|
    ensures |r| == |s|
    decreases hi - lo, 2
  {
    if hi - lo <= 0 then s else HybridSortTurn(s, lo, hi)
  }

  /** One trip round the loop of anastasy_sort: insertion sort for a short range;
      otherwise partition round the middle element and finish around the pivot. */
  function HybridSortTurn(s: seq<int>, lo: int, hi: int): (r: seq<int>)
    requires 0 <= lo < hi <= |s|
    ensures |r| == |s|
    decreases hi - lo, 1
  {
    if hi - lo < Threshold then InsertionSorted(s, lo, hi)
    else
      var m := Partitioned(s, lo, hi, lo + (hi - lo) / 2);
      SortedAround(m.0, m.1, lo, hi)
  }

  /** The rest of a trip once the pivot sits at p, as evidently meant: sort the smaller
      side by the recursive call, then carry on with everything on the other side of
      the pivot. */
  function SortedAround(t: seq<int>, p: int, lo: int, hi: int): (r: seq<int>)
    requires 0 <= lo <= p < hi <= |t|
    ensures |r| == |t|
    decreases hi - lo, 0
  {
    if p - lo < hi - (p + 1) then HybridSorted(HybridSorted(t, lo, p), p + 1, hi)
    else HybridSorted(HybridSorted(t, p + 1, hi), lo, p)
  }

  /** anastasy_sort exactly as written: while [lo, hi) is not empty, one trip
      round the loop. */
  function HybridSortedAsWritten(s: seq<int>, lo: int, hi: int): (r: seq<int>)
    requires 0 <= lo && hi <= |s|
    ensures |r| == |s|
    decreases hi - lo, 2
  {
    if hi - lo <= 0 then s else HybridSortTurnAsWritten(s, lo, hi)
  }

  /** One trip round the loop of anastasy_sort exactly as written. */
  function HybridSortTurnAsWritten(s: seq<int>, lo: int, hi: int): (r: seq<int>)
    requires 0 <= lo < hi <= |s|
    ensures |r| == |s|
    decreases hi - lo, 1
  {
    if hi - lo < Threshold then InsertionSorted(s, lo, hi)
    else
      var m := Partitioned(s, lo, hi, lo + (hi - lo) / 2);
      SortedAroundAsWritten(m.0, m.1, lo, hi)
  }

  /** The rest of a trip exactly as written: when the lower side is the larger one,
      the loop carries on with [lo, p - 1), so the element just below the pivot is
      left where the partition put it. */
  function SortedAroundAsWritten(t: seq<int>, p: int, lo: int, hi: int): (r: seq<int>)
    requires 0 <= lo <= p < hi <= |t|
    ensures |r| == |t|
    decreases hi - lo, 0
  {
    if p - lo < hi - (p + 1) then HybridSortedAsWritten(HybridSortedAsWritten(t, lo, p), p + 1, hi)
    else HybridSortedAsWritten(HybridSortedAsWritten(t, p + 1, hi), lo, p - 1)
  }

  /** Two sorted sides around a pivot that separates them make one sorted range. */
  lemma JoinSorted(v: seq<int>, lo: int, p: int, hi: int)
    requires 0 <= lo <= p < hi <= |v|
    requires Sorted(v, lo, p) && Sorted(v, p + 1, hi)
    requires forall k :: lo <= k < p ==> v[k] < v[p]
    requires forall k :: p < k < hi ==> v[p] <= v[k]
    ensures Sorted(v, lo, hi)
  {
  }

  /** The corrected sort only rearranges [lo, hi). */
  lemma {:induction false} HybridSortPermutes(s: seq<int>, lo: int, hi: int)
    requires 0 <= lo <= hi <= |s|
    ensures PermutedWithin(s, HybridSorted(s, lo, hi), lo, hi)
    decreases hi - lo, 1
  {
    if hi - lo == 0 {
      PermutedWithinRefl(s, lo, hi);
    } else if hi - lo < Threshold {
      OuterPassPermutes(s, lo, hi, lo);
    } else {
      var m := Partitioned(s, lo, hi, lo + (hi - lo) / 2);
      PartitionPermutes(s, lo, hi, lo + (hi - lo) / 2);
      SortedAroundPermutes(s, m.0, m.1, lo, hi);
    }
  }

  /** After a rearrangement of [lo, hi) that put a pivot at p, sorting both sides still
      only rearranges [lo, hi). */
  lemma {:induction false} SortedAroundPermutes(s: seq<int>, t: seq<int>, p: int, lo: int, hi: int)
    requires 0 <= lo <= p < hi <= |t| && PermutedWithin(s, t, lo, hi)
    ensures PermutedWithin(s, SortedAround(t, p, lo, hi), lo, hi)
    decreases hi - lo, 0
  {
    if p - lo < hi - (p + 1) {
      var u := HybridSorted(t, lo, p);
      HybridSortPermutes(t, lo, p);
      HybridSortPermutes(u, p + 1, hi);
      PermutedWithinThree(s, t, u, HybridSorted(u, p + 1, hi), lo, hi, lo, p, p + 1, hi);
    } else {
      var u := HybridSorted(t, p + 1, hi);
      HybridSortPermutes(t, p + 1, hi);
      HybridSortPermutes(u, lo, p);
      PermutedWithinThree(s, t, u, HybridSorted(u, lo, p), lo, hi, p + 1, hi, lo, p);
    }
  }

  /** The corrected sort changes nothing outside [lo, hi), and a bound that holds
      throughout [lo, hi) before it still holds after it. */
  lemma HybridSortKeeps(s: seq<int>, lo: int, hi: int, x: int)
    requires 0 <= lo <= hi <= |s|
    ensures var r := HybridSorted(s, lo, hi);
      SameOutside(s, r, lo, hi) &&
      (Below(s, lo, hi, x) ==> Below(r, lo, hi, x)) &&
      (AtLeast(s, lo, hi, x) ==> AtLeast(r, lo, hi, x))
    decreases hi - lo, 2
  {
    var r := HybridSorted(s, lo, hi);
    HybridSortPermutes(s, lo, hi);
    PermutedSameOutside(s, r, lo, hi);
    if Below(s, lo, hi, x) {
      UpperBoundKept(s, r, lo, hi, x);
    }
    if AtLeast(s, lo, hi, x) {
      LowerBoundKept(s, r, lo, hi, x);
    }
  }

  /** Joining step of the corrected sort when the lower side [lo, p) is sorted
      first (by the recursive call) and the upper side (p, hi) next. */
  lemma JoinLowFirst(t: seq<int>, u: seq<int>, v: seq<int>, lo: int, p: int, hi: int)
    requires 0 <= lo <= p < hi <= |t|
    requires Below(t, lo, p, t[p]) && AtLeast(t, p + 1, hi, t[p])
    requires SameOutside(t, u, lo, p) && Below(u, lo, p, t[p]) && Sorted(u, lo, p)
    requires SameOutside(u, v, p + 1, hi) && Sorted(v, p + 1, hi)
    requires AtLeast(u, p + 1, hi, t[p]) ==> AtLeast(v, p + 1, hi, t[p])
    ensures Sorted(v, lo, hi)
  {
    assert AtLeast(u, p + 1, hi, t[p]);
    JoinSorted(v, lo, p, hi);
  }

  /** Joining step of the corrected sort when the upper side (p, hi) is sorted
      first and the lower side [lo, p) next. */
  lemma JoinHighFirst(t: seq<int>, u: seq<int>, v: seq<int>, lo: int, p: int, hi: int)
    requires 0 <= lo <= p < hi <= |t|
    requires Below(t, lo, p, t[p]) && AtLeast(t, p + 1, hi, t[p])
    requires SameOutside(t, u, p + 1, hi) && AtLeast(u, p + 1, hi, t[p]) && Sorted(u, p + 1, hi)
    requires SameOutside(u, v, lo, p) && Sorted(v, lo, p)
    requires Below(u, lo, p, t[p]) ==> Below(v, lo, p, t[p])
    ensures Sorted(v, lo, hi)
  {
    assert Below(u, lo, p, t[p]);
    JoinSorted(v, lo, p, hi);
  }

  /** The corrected sort leaves [lo, hi) sorted, for every input. */
  lemma {:induction false} HybridSortSorts(s: seq<int>, lo: int, hi: int)
    requires 0 <= lo <= hi <= |s|
    ensures Sorted(HybridSorted(s, lo, hi), lo, hi)
    decreases hi - lo, 1
  {
    if hi - lo == 0 {
    } else if hi - lo < Threshold {
      OuterPassSorts(s, lo, hi, lo);
    } else {
      var m := Partitioned(s, lo, hi, lo + (hi - lo) / 2);
      PartitionSplits(s, lo, hi, lo + (hi - lo) / 2);
      SortedAroundSorts(m.0, m.1, lo, hi);
    }
  }

  /** Once the pivot at p separates the smaller elements of [lo, hi) from the others,
      sorting both sides sorts [lo, hi). */
  lemma {:induction false} SortedAroundSorts(t: seq<int>, p: int, lo: int, hi: int)
    requires 0 <= lo <= p < hi <= |t|
    requires Below(t, lo, p, t[p]) && AtLeast(t, p + 1, hi, t[p])
    ensures Sorted(SortedAround(t, p, lo, hi), lo, hi)
    decreases hi - lo, 0
  {
    if p - lo < hi - (p + 1) {
      var u := HybridSorted(t, lo, p);
      HybridSortSorts(t, lo, p);
      HybridSortSorts(u, p + 1, hi);
      HybridSortKeeps(t, lo, p, t[p]);
      HybridSortKeeps(u, p + 1, hi, t[p]);
      JoinLowFirst(t, u, HybridSorted(u, p + 1, hi), lo, p, hi);
    } else {
      var u := HybridSorted(t, p + 1, hi);
      HybridSortSorts(t, p + 1, hi);
      HybridSortSorts(u, lo, p);
      HybridSortKeeps(t, p + 1, hi, t[p]);
      HybridSortKeeps(u, lo, p, t[p]);
      JoinHighFirst(t, u, HybridSorted(u, lo, p), lo, p, hi);
    }
  }

  /** anastasy_sort, corrected, sorts [lo, hi), keeps its elements and touches
      nothing outside it. */
  lemma HybridSortCorrect(s: seq<int>, lo: int, hi: int)
    requires 0 <= lo <= hi <= |s|
    ensures PermutedWithin(s, HybridSorted(s, lo, hi), lo, hi)
    ensures Sorted(HybridSorted(s, lo, hi), lo, hi)
  {
    HybridSortPermutes(s, lo, hi);
    HybridSortSorts(s, lo, hi);
  }

  /** The first element of a sorted sequence is its least. */
  lemma SortedFirstLeast(a: seq<int>, x: int)
    requires Sorted(a, 0, |a|) && x in multiset(a)
    ensures a[0] <= x
  {
    var i :| 0 <= i < |a| && a[i] == x;
    assert i > 0 ==> a[0] <= a[i];
  }

  /** Dropping the first element of a sorted sequence leaves it sorted. */
  lemma SortedRest(a: seq<int>)
    requires |a| > 0 && Sorted(a, 0, |a|)
    ensures Sorted(a[1..], 0, |a| - 1)
  {
    forall p, q | 0 <= p < q < |a| - 1
      ensures a[1..][p] <= a[1..][q]
    {
      assert a[1..][p] == a[p + 1] && a[1..][q] == a[q + 1];
    }
  }

  /** A non-decreasing arrangement of a collection is unique: two sorted sequences
      with the same elements are equal. */
  lemma {:induction false} SortedUnique(a: seq<int>, b: seq<int>)
    requires Sorted(a, 0, |a|) && Sorted(b, 0, |b|) && multiset(a) == multiset(b)
    ensures a == b
    decreases |a|
  {
    assert |a| == |multiset(a)| == |multiset(b)| == |b|;
    if |a| > 0 {
      assert a[0] in multiset(a) && b[0] in multiset(b);
      SortedFirstLeast(a, b[0]);
      SortedFirstLeast(b, a[0]);
      assert a[0] == b[0];
      assert a == [a[0]] + a[1..] && b == [b[0]] + b[1..];
      assert multiset(a) == multiset([a[0]]) + multiset(a[1..]);
      assert multiset(b) == multiset([b[0]]) + multiset(b[1..]);
      assert multiset(a[1..]) == multiset(a) - multiset([a[0]]) == multiset(b[1..]);
      SortedRest(a);
      SortedRest(b);
      SortedUnique(a[1..], b[1..]);
    }
  }

  /** anastasy_sort leaves a range that is already sorted exactly as it was. */
  lemma HybridSortIdempotent(s: seq<int>, lo: int, hi: int)
    requires 0 <= lo <= hi <= |s| && Sorted(s, lo, hi)
    ensures HybridSorted(s, lo, hi) == s
  {
    var r := HybridSorted(s, lo, hi);
    HybridSortCorrect(s, lo, hi);
    RangeMultisetKept(s, r, lo, hi);
    SortedUnique(s[lo..hi], r[lo..hi]);
    PermutedSameOutside(s, r, lo, hi);
    assert forall k :: lo <= k < hi ==> s[k] == s[lo..hi][k - lo] == r[lo..hi][k - lo] == r[k];
  }

  /** The code as written still only rearranges [lo, hi). */
  lemma {:induction false} HybridSortAsWrittenPermutes(s: seq<int>, lo: int, hi: int)
    requires 0 <= lo <= hi <= |s|
    ensures PermutedWithin(s, HybridSortedAsWritten(s, lo, hi), lo, hi)
    decreases hi - lo, 1
  {
    if hi - lo == 0 {
      PermutedWithinRefl(s, lo, hi);
    } else if hi - lo < Threshold {
      OuterPassPermutes(s, lo, hi, lo);
    } else {
      var m := Partitioned(s, lo, hi, lo + (hi - lo) / 2);
      PartitionPermutes(s, lo, hi, lo + (hi - lo) / 2);
      SortedAroundAsWrittenPermutes(s, m.0, m.1, lo, hi);
    }
  }

  /** As SortedAroundPermutes, for the code as written. */
  lemma {:induction false} SortedAroundAsWrittenPermutes(s: seq<int>, t: seq<int>, p: int, lo: int, hi: int)
    requires 0 <= lo <= p < hi <= |t| && PermutedWithin(s, t, lo, hi)
    ensures PermutedWithin(s, SortedAroundAsWritten(t, p, lo, hi), lo, hi)
    decreases hi - lo, 0
  {
    if p - lo < hi - (p + 1) {
      var u := HybridSortedAsWritten(t, lo, p);
      HybridSortAsWrittenPermutes(t, lo, p);
      HybridSortAsWrittenPermutes(u, p + 1, hi);
      PermutedWithinThree(s, t, u, HybridSortedAsWritten(u, p + 1, hi), lo, hi, lo, p, p + 1, hi);
    } else if lo < p {
      var u := HybridSortedAsWritten(t, p + 1, hi);
      HybridSortAsWrittenPermutes(t, p + 1, hi);
      HybridSortAsWrittenPermutes(u, lo, p - 1);
      PermutedWithinThree(s, t, u, HybridSortedAsWritten(u, lo, p - 1), lo, hi, p + 1, hi, lo, p - 1);
    } else {
      var u := HybridSortedAsWritten(t, p + 1, hi);
      HybridSortAsWrittenPermutes(t, p + 1, hi);
      PermutedWithinWiden(t, u, p + 1, hi, lo, hi);
      PermutedWithinTrans(s, t, u, lo, hi);
    }
  }

  /** The code as written sorts every range shorter than the threshold: those go
      straight to insertion sort (the test scenarios of length 0, 1, 2 and 5). */
  lemma HybridSortAsWrittenSortsShort(s: seq<int>, lo: int, hi: int)
    requires 0 <= lo <= hi <= |s| && hi - lo < Threshold
    ensures Sorted(HybridSortedAsWritten(s, lo, hi), lo, hi)
  {
    if lo < hi {
      OuterPassSorts(s, lo, hi, lo);
    }
  }

  /** Partitioning [3, 2, 1, 0, 4, 5, 6, 7] around its middle element leaves the pivot 4 in place
      and moves the larger elements round behind it. */
  lemma CounterexamplePartition()
    ensures Partitioned([3, 2, 1, 0, 4, 5, 6, 7], 0, 8, 4) == ([3, 2, 1, 0, 4, 6, 7, 5], 4)
  {
    var s := [3, 2, 1, 0, 4, 5, 6, 7];
    var s1 := Swap(s, 4, 7);
    assert s1 == [3, 2, 1, 0, 7, 5, 6, 4];
    assert PartitionLoop(s1, 0, 7, 4) == PartitionLoop(s1, 4, 7, 4);
    var s2 := Swap(s1, 4, 6);
    assert s2 == [3, 2, 1, 0, 6, 5, 7, 4];
    var s3 := Swap(s2, 4, 5);
    assert s3 == [3, 2, 1, 0, 5, 6, 7, 4];
    assert Swap(s3, 4, 4) == s3;
    assert PartitionLoop(s1, 4, 7, 4) == PartitionLoop(s3, 4, 4, 4) == (s3, 4);
    assert Swap(s3, 7, 4) == [3, 2, 1, 0, 4, 6, 7, 5];
  }

  /** As written, the sort of [3, 2, 1, 0, 4, 5, 6, 7] sorts [5, 8) and then only [0, 3). */
  lemma CounterexampleUnfolds()
    ensures HybridSortedAsWritten([3, 2, 1, 0, 4, 5, 6, 7], 0, 8)
         == HybridSortedAsWritten(HybridSortedAsWritten([3, 2, 1, 0, 4, 6, 7, 5], 5, 8), 0, 3)
  {
    CounterexamplePartition();
    assert HybridSortedAsWritten([3, 2, 1, 0, 4, 5, 6, 7], 0, 8)
        == HybridSortTurnAsWritten([3, 2, 1, 0, 4, 5, 6, 7], 0, 8)
        == SortedAroundAsWritten([3, 2, 1, 0, 4, 6, 7, 5], 4, 0, 8);
  }

  /** Sorting [5, 8) and then [0, 3) of a sequence that starts 3, 2, 1, 0 leaves the 0 at
      index 3, behind larger elements. */
  lemma CounterexampleTail(t: seq<int>, u: seq<int>, r: seq<int>)
    requires |t| == 8 && t[0] == 3 && t[1] == 2 && t[2] == 1 && t[3] == 0
    requires PermutedWithin(t, u, 5, 8) && PermutedWithin(u, r, 0, 3)
    ensures r[3] == 0 && r[0] > r[3]
  {
    PermutedSameOutside(t, u, 5, 8);
    PermutedSameOutside(u, r, 0, 3);
    assert u[3] == t[3] && r[3] == u[3];
    assert u[0] == t[0] && u[1] == t[1] && u[2] == t[2];
    LowerBoundKept(u, r, 0, 3, 1);
  }

  /** On [3, 2, 1, 0, 4, 5, 6, 7] the code as written leaves 0 at index 3 behind
      larger elements: the partition puts 0 just below the pivot at index 4, the
      lower side is the larger one, and the next trip sorts only [0, 3). */
  lemma AsWrittenCounterexample()
    ensures var r := HybridSortedAsWritten([3, 2, 1, 0, 4, 5, 6, 7], 0, 8);
      r[3] == 0 && r[0] > r[3] && !Sorted(r, 0, 8)
    ensures Sorted(HybridSorted([3, 2, 1, 0, 4, 5, 6, 7], 0, 8), 0, 8)
  {
    var t := [3, 2, 1, 0, 4, 6, 7, 5];
    CounterexampleUnfolds();
    var u := HybridSortedAsWritten(t, 5, 8);
    var r := HybridSortedAsWritten(u, 0, 3);
    HybridSortAsWrittenPermutes(t, 5, 8);
    HybridSortAsWrittenPermutes(u, 0, 3);
    CounterexampleTail(t, u, r);
    HybridSortCorrect([3, 2, 1, 0, 4, 5, 6, 7], 0, 8);
  }

  /** Sorting [lo, hi) of s the way anastasy_sort is written gives r. */
  ghost predicate SortsToAsWritten(s: seq<int>, lo: int, hi: int, r: seq<int>)
  {
    0 <= lo && hi <= |s| && HybridSortedAsWritten(s, lo, hi) == r
  }

  /** The last trip round the loop in SortAsWritten: a short range goes to insertion sort,
      which finishes the work. */
  lemma SortAsWrittenShortTurn(s: seq<int>, lo: int, hi: int, goal: seq<int>)
    requires SortsToAsWritten(s, lo, hi, goal) && lo < hi && hi - lo < Threshold
    ensures InsertionSorted(s, lo, hi) == goal
  {
    assert HybridSortedAsWritten(s, lo, hi) == HybridSortTurnAsWritten(s, lo, hi);
  }

  /** A trip round the loop in SortAsWritten where the lower side is the smaller: once the
      partition's lower side is sorted, what is left is the upper side. */
  lemma SortAsWrittenLowTurn(s: seq<int>, lo: int, hi: int, t: seq<int>, p: int, u: seq<int>, goal: seq<int>)
    requires SortsToAsWritten(s, lo, hi, goal) && lo <= hi && hi - lo >= Threshold
    requires t == Partitioned(s, lo, hi, lo + (hi - lo) / 2).0
    requires p == Partitioned(s, lo, hi, lo + (hi - lo) / 2).1
    requires p - lo < hi - (p + 1)
    requires SortsToAsWritten(t, lo, p, u)
    ensures SortsToAsWritten(u, p + 1, hi, goal)
  {
    assert HybridSortedAsWritten(s, lo, hi) == HybridSortTurnAsWritten(s, lo, hi) == SortedAroundAsWritten(t, p, lo, hi);
  }

  /** A trip round the loop in SortAsWritten where the upper side is the smaller: once it is
      sorted, what is left is [lo, p - 1). */
  lemma SortAsWrittenHighTurn(s: seq<int>, lo: int, hi: int, t: seq<int>, p: int, u: seq<int>, goal: seq<int>)
    requires SortsToAsWritten(s, lo, hi, goal) && lo <= hi && hi - lo >= Threshold
    requires t == Partitioned(s, lo, hi, lo + (hi - lo) / 2).0
    requires p == Partitioned(s, lo, hi, lo + (hi - lo) / 2).1
    requires !(p - lo < hi - (p + 1))
    requires SortsToAsWritten(t, p + 1, hi, u)
    ensures SortsToAsWritten(u, lo, p - 1, goal)
  {
    assert HybridSortedAsWritten(s, lo, hi) == HybridSortTurnAsWritten(s, lo, hi) == SortedAroundAsWritten(t, p, lo, hi);
  }

  /** anastasy_sort (sort.h) as written, including `last = pivot - 1`. The loop's
      range shrinks on every trip and the recursive call is on a strictly smaller
      range. */
  method SortAsWritten(a: array<int>, lo: int, hi: int)
    requires 0 <= lo <= hi <= a.Length
    modifies a
    ensures SortsToAsWritten(old(a[..]), lo, hi, a[..])
    decreases hi - lo
  {
    ghost var goal := HybridSortedAsWritten(a[..], lo, hi);
    var first, last := lo, hi;
    while first < last
      invariant lo <= first && last <= hi
      invariant SortsToAsWritten(a[..], first, last, goal)
      decreases last - first
    {
      var length := last - first;
      if length < Threshold {
        SortAsWrittenShortTurn(a[..], first, last, goal);
        SortSlow(a, first, last);
        return;
      }
      ghost var s0 := a[..];
      var pivot := Partition(a, first, last, first + length / 2);
      ghost var t := a[..];
      assert first + length / 2 == first + (last - first) / 2;
      var lengthBottom := pivot - first;
      var lengthHigh := last - (pivot + 1);
      if lengthBottom < lengthHigh {
        SortAsWritten(a, first, pivot);
        SortAsWrittenLowTurn(s0, first, last, t, pivot, a[..], goal);
        first := pivot + 1;
        assert SortsToAsWritten(a[..], first, last, goal);
      } else {
        SortAsWritten(a, pivot + 1, last);
        SortAsWrittenHighTurn(s0, first, last, t, pivot, a[..], goal);
        last := pivot - 1;
        assert SortsToAsWritten(a[..], first, last, goal);
      }
    }
  }

  /** Sorting [lo, hi) of s the way anastasy_sort is evidently meant gives r. */
  ghost predicate SortsTo(s: seq<int>, lo: int, hi: int, r: seq<int>)
  {
    0 <= lo && hi <= |s| && HybridSorted(s, lo, hi) == r
  }

  /** The last trip round the loop in Sort: a short range goes to insertion sort,
      which finishes the work. */
  lemma SortShortTurn(s: seq<int>, lo: int, hi: int, goal: seq<int>)
    requires SortsTo(s, lo, hi, goal) && lo < hi && hi - lo < Threshold
    ensures InsertionSorted(s, lo, hi) == goal
  {
    assert HybridSorted(s, lo, hi) == HybridSortTurn(s, lo, hi);
  }

  /** A trip round the loop in Sort where the lower side is the smaller: once the
      partition's lower side is sorted, what is left is the upper side. */
  lemma SortLowTurn(s: seq<int>, lo: int, hi: int, t: seq<int>, p: int, u: seq<int>, goal: seq<int>)
    requires SortsTo(s, lo, hi, goal) && lo <= hi && hi - lo >= Threshold
    requires t == Partitioned(s, lo, hi, lo + (hi - lo) / 2).0
    requires p == Partitioned(s, lo, hi, lo + (hi - lo) / 2).1
    requires p - lo < hi - (p + 1)
    requires SortsTo(t, lo, p, u)
    ensures SortsTo(u, p + 1, hi, goal)
  {
    assert HybridSorted(s, lo, hi) == HybridSortTurn(s, lo, hi) == SortedAround(t, p, lo, hi);
  }

  /** A trip round the loop in Sort where the upper side is the smaller: once it is
      sorted, what is left is [lo, p). */
  lemma SortHighTurn(s: seq<int>, lo: int, hi: int, t: seq<int>, p: int, u: seq<int>, goal: seq<int>)
    requires SortsTo(s, lo, hi, goal) && lo <= hi && hi - lo >= Threshold
    requires t == Partitioned(s, lo, hi, lo + (hi - lo) / 2).0
    requires p == Partitioned(s, lo, hi, lo + (hi - lo) / 2).1
    requires !(p - lo < hi - (p + 1))
    requires SortsTo(t, p + 1, hi, u)
    ensures SortsTo(u, lo, p, goal)
  {
    assert HybridSorted(s, lo, hi) == HybridSortTurn(s, lo, hi) == SortedAround(t, p, lo, hi);
  }

  /** anastasy_sort with the loop continuing on [first, pivot) in the else branch.
      By HybridSortCorrect it sorts [lo, hi) and leaves the rest of the array
      alone. */
  method Sort(a: array<int>, lo: int, hi: int)
    requires 0 <= lo <= hi <= a.Length
    modifies a
    ensures SortsTo(old(a[..]), lo, hi, a[..])
    decreases hi - lo
  {
    ghost var goal := HybridSorted(a[..], lo, hi);
    var first, last := lo, hi;
    while first < last
      invariant lo <= first && last <= hi
      invariant SortsTo(a[..], first, last, goal)
      decreases last - first
    {
      var length := last - first;
      if length < Threshold {
        SortShortTurn(a[..], first, last, goal);
        SortSlow(a, first, last);
        return;
      }
      ghost var s0 := a[..];
      var pivot := Partition(a, first, last, first + length / 2);
      ghost var t := a[..];
      assert first + length / 2 == first + (last - first) / 2;
      var lengthBottom := pivot - first;
      var lengthHigh := last - (pivot + 1);
      if lengthBottom < lengthHigh {
        Sort(a, first, pivot);
        SortLowTurn(s0, first, last, t, pivot, a[..], goal);
        first := pivot + 1;
        assert SortsTo(a[..], first, last, goal);
      } else {
        Sort(a, pivot + 1, last);
        SortHighTurn(s0, first, last, t, pivot, a[..], goal);
        last := pivot;
        assert SortsTo(a[..], first, last, goal);
      }
    }
  }
}
