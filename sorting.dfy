/**
 * The sorting workload: the top-down merge sort `MergeSort` with its
 * in-place `Merge`, and the `comp` callback handed to `qsort`.
 *
 * `Merge` is proved against `Merged`, a function that takes the same branch
 * as each iteration of the source's merge loop; the properties the sort
 * promises (sorted, a permutation) are proved about `Merged` and carried
 * through the recursion of `MergeSort`.
 */
module Sorting {
  import opened CInt

  /** The number of elements of the global array, and of Merge's scratch buffer `tmp`. */
  const N: nat := 128 * 128

  predicate Sorted(s: seq<int>)
  {
    forall i, j :: 0 <= i < j < |s| ==> s[i] <= s[j]
  }

  /** `x` is at most every element of `s`. */
  predicate Below(x: int, s: seq<int>)
  {
    forall i :: 0 <= i < |s| ==> x <= s[i]
  }

  // ---------------------------------------------------------------------
  // The merge, as a function of the two runs

  /**
   * What Merge's loop writes into `tmp` from the cursors `ai` (in the left
   * run xs[..b)) and `bi` (in the right run xs[b..s)) on: the left head once
   * the right run is used up, the right head once the left run is used up,
   * and otherwise the left head only when it is strictly smaller, so on a tie
   * the right head goes first.
   */
  function MergeFrom(xs: seq<int>, ai: int, b: int, bi: int, s: int): seq<int>
    requires 0 <= ai <= b <= bi <= s <= |xs|
    decreases (b - ai) + (s - bi)
  {
    if ai == b && bi == s then []
    else if bi == s then [xs[ai]] + MergeFrom(xs, ai + 1, b, bi, s)
    else if ai == b then [xs[bi]] + MergeFrom(xs, ai, b, bi + 1, s)
    else if xs[ai] < xs[bi] then [xs[ai]] + MergeFrom(xs, ai + 1, b, bi, s)
    else [xs[bi]] + MergeFrom(xs, ai, b, bi + 1, s)
  }

  /** Whether the next element of the merge comes from the left run. */
  predicate TakesLeft(xs: seq<int>, ai: int, b: int, bi: int, s: int)
    requires 0 <= ai <= b <= bi <= s <= |xs|
  {
    bi == s || (ai < b && xs[ai] < xs[bi])
  }

  /** The merge of the runs xs[a..b) and xs[b..s). */
  function Merged(xs: seq<int>, a: int, b: int, s: int): seq<int>
    requires 0 <= a <= b <= s <= |xs|
  {
    MergeFrom(xs, a, b, b, s)
  }

  /** The merge is as long as what is left of both runs. */
  lemma {:induction false} MergeFromLength(xs: seq<int>, ai: int, b: int, bi: int, s: int)
    requires 0 <= ai <= b <= bi <= s <= |xs|
    ensures |MergeFrom(xs, ai, b, bi, s)| == (b - ai) + (s - bi)
    decreases (b - ai) + (s - bi)
  {
    if ai == b && bi == s {
    } else if TakesLeft(xs, ai, b, bi, s) {
      MergeFromLength(xs, ai + 1, b, bi, s);
    } else {
      MergeFromLength(xs, ai, b, bi + 1, s);
    }
  }

  /** One step of the merge: the element taken, then the merge of what is left. */
  lemma MergeFromStep(xs: seq<int>, ai: int, b: int, bi: int, s: int)
    requires 0 <= ai <= b <= bi <= s <= |xs| && (ai < b || bi < s)
    ensures TakesLeft(xs, ai, b, bi, s) ==> ai < b && MergeFrom(xs, ai, b, bi, s) == [xs[ai]] + MergeFrom(xs, ai + 1, b, bi, s)
    ensures !TakesLeft(xs, ai, b, bi, s) ==> bi < s && MergeFrom(xs, ai, b, bi, s) == [xs[bi]] + MergeFrom(xs, ai, b, bi + 1, s)
  {
  }

  /** The merge from the given cursors holds exactly the elements left in both runs. */
  predicate MergeFromPermutes(xs: seq<int>, ai: int, b: int, bi: int, s: int)
    requires 0 <= ai <= b <= bi <= s <= |xs|
  {
    multiset(MergeFrom(xs, ai, b, bi, s)) == multiset(xs[ai..b]) + multiset(xs[bi..s])
  }

  lemma {:induction false} MergeFromPermutation(xs: seq<int>, ai: int, b: int, bi: int, s: int)
    requires 0 <= ai <= b <= bi <= s <= |xs|
    ensures MergeFromPermutes(xs, ai, b, bi, s)
    decreases (b - ai) + (s - bi)
  {
    if ai == b && bi == s {
      assert MergeFrom(xs, ai, b, bi, s) == [];
    } else {
      var left := TakesLeft(xs, ai, b, bi, s);
      var ai', bi' := if left then ai + 1 else ai, if left then bi else bi + 1;
      MergeFromPermutation(xs, ai', b, bi', s);
      PermutationStep(xs, ai, b, bi, s, left);
    }
  }

  lemma PermutationStep(xs: seq<int>, ai: int, b: int, bi: int, s: int, left: bool)
    requires 0 <= ai <= b <= bi <= s <= |xs| && (ai < b || bi < s)
    requires left == TakesLeft(xs, ai, b, bi, s)
    requires left ==> MergeFromPermutes(xs, ai + 1, b, bi, s)
    requires !left ==> MergeFromPermutes(xs, ai, b, bi + 1, s)
    ensures MergeFromPermutes(xs, ai, b, bi, s)
  {
    if left {
      PermutationStepLeft(xs, ai, b, bi, s);
    } else {
      PermutationStepRight(xs, ai, b, bi, s);
    }
  }

  lemma PermutationStepLeft(xs: seq<int>, ai: int, b: int, bi: int, s: int)
    requires 0 <= ai < b <= bi <= s <= |xs| && TakesLeft(xs, ai, b, bi, s)
    requires MergeFromPermutes(xs, ai + 1, b, bi, s)
    ensures MergeFromPermutes(xs, ai, b, bi, s)
  {
    MergeFromStep(xs, ai, b, bi, s);
    assert xs[ai..b] == [xs[ai]] + xs[ai + 1..b];
  }

  lemma PermutationStepRight(xs: seq<int>, ai: int, b: int, bi: int, s: int)
    requires 0 <= ai <= b <= bi < s <= |xs| && !TakesLeft(xs, ai, b, bi, s)
    requires MergeFromPermutes(xs, ai, b, bi + 1, s)
    ensures MergeFromPermutes(xs, ai, b, bi, s)
  {
    MergeFromStep(xs, ai, b, bi, s);
    assert xs[bi..s] == [xs[bi]] + xs[bi + 1..s];
  }

  /**
   * The merge from (ai, bi) is `h` followed by the merge from (ai2, bi2):
   * `h` is the head of the run the merge takes from next, and that run's
   * cursor moves on by one.
   */
  predicate Next(xs: seq<int>, ai: int, b: int, bi: int, s: int, h: int, ai2: int, bi2: int)
    requires 0 <= ai <= b <= bi <= s <= |xs|
  {
    if TakesLeft(xs, ai, b, bi, s) then ai < b && h == xs[ai] && ai2 == ai + 1 && bi2 == bi
    else bi < s && h == xs[bi] && ai2 == ai && bi2 == bi + 1
  }

  lemma MergeFromHead(xs: seq<int>, ai: int, b: int, bi: int, s: int) returns (h: int, ai2: int, bi2: int)
    requires 0 <= ai <= b <= bi <= s <= |xs| && (ai < b || bi < s)
    ensures Next(xs, ai, b, bi, s, h, ai2, bi2)
    ensures ai <= ai2 <= b <= bi <= bi2 <= s && (b - ai2) + (s - bi2) < (b - ai) + (s - bi)
    ensures MergeFrom(xs, ai, b, bi, s) == [h] + MergeFrom(xs, ai2, b, bi2, s)
  {
    MergeFromStep(xs, ai, b, bi, s);
    if TakesLeft(xs, ai, b, bi, s) {
      h, ai2, bi2 := xs[ai], ai + 1, bi;
    } else {
      h, ai2, bi2 := xs[bi], ai, bi + 1;
    }
  }

  /** A bound below both runs stays below their merge. */
  lemma {:induction false} MergeFromBelow(x: int, xs: seq<int>, ai: int, b: int, bi: int, s: int)
    requires 0 <= ai <= b <= bi <= s <= |xs|
    requires Below(x, xs[ai..b]) && Below(x, xs[bi..s])
    ensures Below(x, MergeFrom(xs, ai, b, bi, s))
    decreases (b - ai) + (s - bi)
  {
    if ai == b && bi == s {
      assert MergeFrom(xs, ai, b, bi, s) == [];
    } else {
      var h, ai2, bi2 := MergeFromHead(xs, ai, b, bi, s);
      BelowSuffix(x, xs, ai, ai2, b);
      BelowSuffix(x, xs, bi, bi2, s);
      MergeFromBelow(x, xs, ai2, b, bi2, s);
      BelowCons(x, h, MergeFrom(xs, ai2, b, bi2, s));
    }
  }

  /** A bound below a slice is below each of its suffixes, and below its first element. */
  lemma BelowSuffix(x: int, xs: seq<int>, lo: int, lo2: int, hi: int)
    requires 0 <= lo <= lo2 <= hi <= |xs| && Below(x, xs[lo..hi])
    ensures Below(x, xs[lo2..hi])
    ensures lo < hi ==> x <= xs[lo]
  {
    assert forall i :: 0 <= i < hi - lo2 ==> xs[lo2..hi][i] == xs[lo..hi][i + lo2 - lo];
    if lo < hi {
      assert xs[lo..hi][0] == xs[lo];
    }
  }

  lemma BelowCons(x: int, h: int, t: seq<int>)
    requires x <= h && Below(x, t)
    ensures Below(x, [h] + t)
  {
  }

  /** Merging two sorted runs gives a sorted run. */
  lemma {:induction false} MergeFromSorted(xs: seq<int>, ai: int, b: int, bi: int, s: int)
    requires 0 <= ai <= b <= bi <= s <= |xs|
    requires Sorted(xs[ai..b]) && Sorted(xs[bi..s])
    ensures Sorted(MergeFrom(xs, ai, b, bi, s))
    decreases (b - ai) + (s - bi)
  {
    if ai == b && bi == s {
      assert MergeFrom(xs, ai, b, bi, s) == [];
    } else {
      var h, ai2, bi2 := MergeFromHead(xs, ai, b, bi, s);
      SortedSuffix(xs, ai, ai2, b);
      SortedSuffix(xs, bi, bi2, s);
      MergeFromSorted(xs, ai2, b, bi2, s);
      HeadBelow(xs, ai, b, bi, s, h, ai2, bi2);
      MergeFromBelow(h, xs, ai2, b, bi2, s);
      SortedCons(h, MergeFrom(xs, ai2, b, bi2, s));
    }
  }

  /** Every suffix of a sorted slice is sorted, and its first element is below the rest. */
  lemma SortedSuffix(xs: seq<int>, lo: int, lo2: int, hi: int)
    requires 0 <= lo <= lo2 <= hi <= |xs| && Sorted(xs[lo..hi])
    ensures Sorted(xs[lo2..hi])
    ensures lo < hi ==> Below(xs[lo], xs[lo..hi])
  {
    assert forall i :: 0 <= i < hi - lo2 ==> xs[lo2..hi][i] == xs[lo..hi][i + lo2 - lo];
    if lo < hi {
      assert xs[lo..hi][0] == xs[lo];
    }
  }

  /** The element the merge takes next is below what is left of both sorted runs. */
  lemma HeadBelow(xs: seq<int>, ai: int, b: int, bi: int, s: int, h: int, ai2: int, bi2: int)
    requires 0 <= ai <= b <= bi <= s <= |xs| && Sorted(xs[ai..b]) && Sorted(xs[bi..s])
    requires Next(xs, ai, b, bi, s, h, ai2, bi2)
    ensures 0 <= ai2 <= b <= bi2 <= s
    ensures Below(h, xs[ai2..b]) && Below(h, xs[bi2..s])
  {
    SortedSuffix(xs, ai, ai, b);
    SortedSuffix(xs, bi, bi, s);
    if TakesLeft(xs, ai, b, bi, s) {
      BelowSuffix(h, xs, ai, ai2, b);
      if bi < s {
        BelowTrans(h, xs[bi], xs[bi..s]);
      }
    } else {
      BelowSuffix(h, xs, bi, bi2, s);
      if ai < b {
        BelowTrans(h, xs[ai], xs[ai..b]);
      }
    }
  }

  lemma BelowTrans(x: int, y: int, t: seq<int>)
    requires x <= y && Below(y, t)
    ensures Below(x, t)
  {
  }

  lemma SortedCons(x: int, s: seq<int>)
    requires Below(x, s) && Sorted(s)
    ensures Sorted([x] + s)
  {
  }

  /** Merging two sorted runs gives a sorted permutation of both. */
  lemma MergedSortedPermutation(xs: seq<int>, a: int, b: int, s: int)
    requires 0 <= a <= b <= s <= |xs|
    requires Sorted(xs[a..b]) && Sorted(xs[b..s])
    ensures Sorted(Merged(xs, a, b, s))
    ensures multiset(Merged(xs, a, b, s)) == multiset(xs[a..s])
  {
    MergeFromSorted(xs, a, b, b, s);
    MergeFromPermutation(xs, a, b, b, s);
    assert xs[a..s] == xs[a..b] + xs[b..s];
  }

  /**
   * On equal heads the right head is output first while the left head is
   * still pending, so of two equal elements the one from the right run comes
   * out first: the merge is not stable.
   */
  lemma MergeFromTie(xs: seq<int>, ai: int, b: int, bi: int, s: int)
    requires 0 <= ai < b <= bi < s <= |xs| && xs[ai] == xs[bi]
    ensures MergeFrom(xs, ai, b, bi, s) == [xs[bi]] + MergeFrom(xs, ai, b, bi + 1, s)
    ensures !TakesLeft(xs, ai, b, bi, s)
  {
  }

  // ---------------------------------------------------------------------
  // Merge and MergeSort on the array

  /** `y` is `x` with at most the positions in [lo, hi) changed. */
  predicate SameOutside(x: seq<int>, y: seq<int>, lo: int, hi: int)
  {
    |x| == |y| && forall i :: 0 <= i < |x| && !(lo <= i < hi) ==> x[i] == y[i]
  }

  /** Two changes confined to [lo, hi) make one change confined to [lo, hi). */
  lemma SameOutsideTrans(x: seq<int>, y: seq<int>, z: seq<int>, lo: int, hi: int)
    requires SameOutside(x, y, lo, hi) && SameOutside(y, z, lo, hi)
    ensures SameOutside(x, z, lo, hi)
  {
  }

  lemma SameOutsideWiden(x: seq<int>, y: seq<int>, lo: int, hi: int, lo2: int, hi2: int)
    requires SameOutside(x, y, lo, hi) && lo2 <= lo && hi <= hi2
    ensures SameOutside(x, y, lo2, hi2)
  {
  }

  /** A change confined to [lo, hi) leaves any slice disjoint from it alone. */
  lemma SameOutsideSlice(x: seq<int>, y: seq<int>, lo: int, hi: int, i: int, j: int)
    requires SameOutside(x, y, lo, hi)
    requires 0 <= i <= j <= |x| && (j <= lo || hi <= i)
    ensures x[i..j] == y[i..j]
  {
  }

  /**
   * Merge(lst, a, b, s): merges the runs lst[a..b) and lst[b..s) through the
   * scratch buffer `tmp` of N elements and copies the result back.  Nothing
   * outside [a, s) changes.
   */
  method Merge(lst: array<int>, a: int, b: int, s: int)
    requires 0 <= a <= b <= s <= lst.Length && s <= N
    modifies lst
    ensures lst[a..s] == Merged(old(lst[..]), a, b, s)
    ensures SameOutside(old(lst[..]), lst[..], a, s)
  {
    var tmp := MergeIntoTmp(lst, a, b, s);
    CopyBack(tmp, lst, a, s);
  }

  /**
   * Merge's first loop: fills tmp[a..s) with the merge of lst[a..b) and
   * lst[b..s), taking the heads in the order of the four branches of the
   * source loop.  `tmp` is Merge's local buffer of N elements.
   */
  method MergeIntoTmp(lst: array<int>, a: int, b: int, s: int) returns (tmp: array<int>)
    requires 0 <= a <= b <= s <= lst.Length && s <= N
    ensures fresh(tmp) && tmp.Length == N
    ensures tmp[a..s] == Merged(lst[..], a, b, s)
  {
    ghost var xs := lst[..];
    ghost var out := Merged(xs, a, b, s);
    tmp := new int[N];
    var ti, ai, bi := a, a, b;
    ghost var done: seq<int> := [];
    while ai < b || bi < s
      invariant a <= ai <= b <= bi <= s
      invariant ti == ai + (bi - b) && |done| == ti - a
      invariant forall k :: a <= k < ti ==> tmp[k] == done[k - a]
      invariant MergeState(xs, out, ai, b, bi, s, done)
      decreases (b - ai) + (s - bi)
    {
      ghost var ai0, bi0 := ai, bi;
      if bi == s {
        tmp[ti] := lst[ai];
        ti, ai := ti + 1, ai + 1;
      } else if ai == b {
        tmp[ti] := lst[bi];
        ti, bi := ti + 1, bi + 1;
      } else if lst[ai] < lst[bi] {
        tmp[ti] := lst[ai];
        ti, ai := ti + 1, ai + 1;
      } else {
        tmp[ti] := lst[bi];
        ti, bi := ti + 1, bi + 1;
      }
      MergeLoopStep(xs, out, ai0, b, bi0, s, done, tmp[ti - 1], ai, bi);
      done := done + [tmp[ti - 1]];
    }
    assert tmp[a..s] == out;
  }

  /** Merge's second loop: copies tmp[a..s) back into lst[a..s), leaving the rest of lst alone. */
  method CopyBack(tmp: array<int>, lst: array<int>, a: int, s: int)
    requires 0 <= a <= s <= tmp.Length && s <= lst.Length && tmp != lst
    modifies lst
    ensures lst[a..s] == tmp[a..s]
    ensures SameOutside(old(lst[..]), lst[..], a, s)
  {
    var ti := a;
    while ti < s
      invariant a <= ti <= s
      invariant forall k :: a <= k < ti ==> lst[k] == tmp[k]
      invariant SameOutside(old(lst[..]), lst[..], a, ti)
      modifies lst
    {
      lst[ti] := tmp[ti];
      ti := ti + 1;
    }
  }

  /** Merge's loop state: tmp[a..ti) followed by the merge of what is left of both runs is the whole merge. */
  predicate MergeState(xs: seq<int>, out: seq<int>, ai: int, b: int, bi: int, s: int, done: seq<int>)
    requires 0 <= ai <= b <= bi <= s <= |xs|
  {
    done + MergeFrom(xs, ai, b, bi, s) == out
  }

  /** One iteration of Merge's loop keeps its state: the head it writes is the next element of the merge. */
  lemma MergeLoopStep(xs: seq<int>, out: seq<int>, ai: int, b: int, bi: int, s: int, done: seq<int>, h: int, ai2: int, bi2: int)
    requires 0 <= ai <= b <= bi <= s <= |xs| && MergeState(xs, out, ai, b, bi, s, done)
    requires Next(xs, ai, b, bi, s, h, ai2, bi2)
    ensures 0 <= ai2 <= b <= bi2 <= s && MergeState(xs, out, ai2, b, bi2, s, done + [h])
  {
    var h', ai', bi' := MergeFromHead(xs, ai, b, bi, s);
    assert done + [h] + MergeFrom(xs, ai2, b, bi2, s) == done + ([h] + MergeFrom(xs, ai2, b, bi2, s));
  }

  /**
   * MergeSort(lst, a, b): sorts lst[a..b) in place, returning at once when
   * the range holds fewer than two elements and otherwise sorting both halves
   * split at a + (b - a) / 2 and merging them.
   */
  method MergeSort(lst: array<int>, a: int, b: int)
    requires b - a < 2 || (0 <= a && b <= lst.Length && b <= N)
    modifies lst
    ensures b - a < 2 ==> lst[..] == old(lst[..])
    ensures b - a >= 2 ==> Sorted(lst[a..b]) && multiset(lst[a..b]) == multiset(old(lst[a..b]))
    ensures b - a >= 2 ==> SameOutside(old(lst[..]), lst[..], a, b)
    decreases b - a
  {
    if b - a < 2 {
      return;
    }
    var m := a + (b - a) / 2;
    ghost var s0 := lst[..];
    MergeSort(lst, a, m);
    ghost var s1 := lst[..];
    SortedHalf(s0, s1, a, m);
    MergeSort(lst, m, b);
    ghost var s2 := lst[..];
    SortedHalf(s1, s2, m, b);
    Merge(lst, a, m, b);
    SortStep(s0, s1, s2, lst[..], a, m, b);
  }

  /**
   * The last step of MergeSort: sorting the left half (s0 to s1), then the
   * right half (s1 to s2), then merging them (s2 to s3) sorts the range and
   * keeps its elements.
   */
  lemma SortStep(s0: seq<int>, s1: seq<int>, s2: seq<int>, s3: seq<int>, a: int, m: int, b: int)
    requires 0 <= a <= m <= b <= |s0| == |s1| == |s2| == |s3|
    requires Sorted(s1[a..m]) && multiset(s1[a..m]) == multiset(s0[a..m]) && SameOutside(s0, s1, a, m)
    requires Sorted(s2[m..b]) && multiset(s2[m..b]) == multiset(s1[m..b]) && SameOutside(s1, s2, m, b)
    requires s3[a..b] == Merged(s2, a, m, b) && SameOutside(s2, s3, a, b)
    ensures Sorted(s3[a..b]) && multiset(s3[a..b]) == multiset(s0[a..b])
    ensures SameOutside(s0, s3, a, b)
  {
    SameOutsideSlice(s1, s2, m, b, a, m);
    SameOutsideSlice(s0, s1, a, m, m, b);
    MergedSortedPermutation(s2, a, m, b);
    calc {
      multiset(s3[a..b]);
      multiset(s2[a..b]);
      { assert s2[a..b] == s2[a..m] + s2[m..b]; }
      multiset(s2[a..m]) + multiset(s2[m..b]);
      multiset(s0[a..m]) + multiset(s0[m..b]);
      { assert s0[a..b] == s0[a..m] + s0[m..b]; }
      multiset(s0[a..b]);
    }
    SameOutsideWiden(s0, s1, a, m, a, b);
    SameOutsideWiden(s1, s2, m, b, a, b);
    SameOutsideTrans(s0, s1, s2, a, b);
    SameOutsideTrans(s0, s2, s3, a, b);
  }

  /**
   * What a recursive call on [lo, hi) leaves behind, whether or not the range
   * is short: lst[lo..hi) sorted and a permutation, nothing else changed.
   */
  lemma SortedHalf(before: seq<int>, after: seq<int>, lo: int, hi: int)
    requires 0 <= lo <= hi <= |before| == |after|
    requires hi - lo < 2 ==> after == before
    requires hi - lo >= 2 ==> Sorted(after[lo..hi]) && multiset(after[lo..hi]) == multiset(before[lo..hi])
    requires hi - lo >= 2 ==> SameOutside(before, after, lo, hi)
    ensures Sorted(after[lo..hi]) && multiset(after[lo..hi]) == multiset(before[lo..hi])
    ensures SameOutside(before, after, lo, hi)
  {
  }

  // ---------------------------------------------------------------------
  // The qsort comparator

  /** comp as written: the difference of the two elements, in 32-bit arithmetic. */
  function Comp(x: Int32, y: Int32): (r: Int32)
    ensures IntMin <= x - y <= IntMax ==> r == x - y
    ensures (r - (x - y)) % 0x1_0000_0000 == 0
  {
    Wrap32(x - y)
  }

  /** When the difference fits in an int, comp's sign orders the two elements correctly. */
  lemma CompSign(x: Int32, y: Int32)
    requires -0x8000_0000 <= x - y < 0x8000_0000
    ensures Comp(x, y) < 0 <==> x < y
    ensures Comp(x, y) == 0 <==> x == y
    ensures Comp(x, y) > 0 <==> x > y
  {
  }

  /** comp(INT_MIN, 1) wraps around to INT_MAX and claims INT_MIN is the larger. */
  lemma CompOverflow()
    ensures Comp(-0x8000_0000, 1) > 0
  {
  }

  /** A comparator whose sign is right for every pair of ints. */
  function CompFixed(x: Int32, y: Int32): (r: Int32)
    ensures r < 0 <==> x < y
    ensures r == 0 <==> x == y
    ensures r > 0 <==> x > y
  {
    (if x > y then 1 else 0) - (if x < y then 1 else 0)
  }

  /** Both comparators agree wherever comp's subtraction does not overflow. */
  lemma CompAgrees(x: Int32, y: Int32)
    requires -0x8000_0000 <= x - y < 0x8000_0000
    ensures (Comp(x, y) < 0) == (CompFixed(x, y) < 0) && (Comp(x, y) == 0) == (CompFixed(x, y) == 0)
  {
    CompSign(x, y);
  }
}
