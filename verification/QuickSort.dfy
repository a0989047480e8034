/**
  The two quicksorts of AK/QuickSort.h, in place on an array, under any strict weak order.
  Both sort, permute, and nest their calls no deeper than the logarithm of the length.
 */
module QuickSorts {
  import opened Common

  /** A strict weak order: less is asymmetric, and "not greater" is transitive. */
  ghost predicate StrictWeak<T(!new)>(less: (T, T) -> bool) {
    (forall x, y :: Asymmetric(less, x, y)) && (forall x, y, z :: Chains(less, x, y, z))
  }

  predicate Asymmetric<T>(less: (T, T) -> bool, x: T, y: T) {
    less(x, y) ==> !less(y, x)
  }

  predicate Chains<T>(less: (T, T) -> bool, x: T, y: T, z: T) {
    !less(y, x) && !less(z, y) ==> !less(z, x)
  }

  ghost predicate Sorted<T(!new)>(less: (T, T) -> bool, s: seq<T>, lo: int, hi: int) {
    forall x, y | 0 <= lo <= x < y < hi <= |s| :: !less(s[y], s[x])
  }

  // ----- rearranging part of a sequence -----

  /** t is s with the elements from lo to hi in another order. */
  ghost predicate Rearranged<T(!new)>(s: seq<T>, t: seq<T>, lo: int, hi: int) {
    0 <= lo <= hi <= |s| == |t| && (forall i :: Kept(s, t, lo, hi, i)) && (forall x :: SameCount(s, t, lo, hi, x))
  }

  ghost predicate Kept<T>(s: seq<T>, t: seq<T>, lo: int, hi: int, i: int)
    requires |s| == |t|
  {
    0 <= i < |s| && !(lo <= i < hi) ==> s[i] == t[i]
  }

  ghost predicate SameCount<T>(s: seq<T>, t: seq<T>, lo: int, hi: int, x: T)
    requires 0 <= lo <= hi <= |s| == |t|
  {
    multiset(s[lo..hi])[x] == multiset(t[lo..hi])[x]
  }

  /** The same said with slices. */
  lemma RearrangedMeans<T(!new)>(s: seq<T>, t: seq<T>, lo: int, hi: int)
    requires 0 <= lo <= hi <= |s| == |t|
    ensures Rearranged(s, t, lo, hi)
            <==> s[..lo] == t[..lo] && s[hi..] == t[hi..] && multiset(s[lo..hi]) == multiset(t[lo..hi])
  {
    if Rearranged(s, t, lo, hi) {
      forall i | 0 <= i < |s| && !(lo <= i < hi) ensures s[i] == t[i] {
        assert Kept(s, t, lo, hi, i);
      }
      forall x ensures multiset(s[lo..hi])[x] == multiset(t[lo..hi])[x] {
        assert SameCount(s, t, lo, hi, x);
      }
    }
    if s[..lo] == t[..lo] && s[hi..] == t[hi..] && multiset(s[lo..hi]) == multiset(t[lo..hi]) {
      forall i ensures Kept(s, t, lo, hi, i) {
        if 0 <= i < lo {
          assert s[i] == s[..lo][i] == t[..lo][i];
        } else if hi <= i < |s| {
          assert s[i] == s[hi..][i - hi] == t[hi..][i - hi];
        }
      }
    }
  }

  lemma NothingMoved<T(!new)>(s: seq<T>, lo: int, hi: int)
    requires 0 <= lo <= hi <= |s|
    ensures Rearranged(s, s, lo, hi)
  {
  }

  function Swapped<T>(s: seq<T>, i: int, j: int): (t: seq<T>)
    requires 0 <= i < |s| && 0 <= j < |s|
    ensures |t| == |s|
  {
    s[i := s[j]][j := s[i]]
  }

  lemma SwapRearranges<T(!new)>(s: seq<T>, i: int, j: int, lo: int, hi: int)
    requires 0 <= lo <= i < hi <= |s| && lo <= j < hi
    ensures Rearranged(s, Swapped(s, i, j), lo, hi)
  {
    var t := Swapped(s, i, j);
    assert t[lo..hi] == s[lo..hi][i - lo := s[j]][j - lo := s[i]];
    assert multiset(s[lo..hi]) == multiset(t[lo..hi]);
  }

  lemma RearrangeTwice<T(!new)>(s: seq<T>, t: seq<T>, u: seq<T>, lo: int, hi: int)
    requires Rearranged(s, t, lo, hi) && Rearranged(t, u, lo, hi)
    ensures Rearranged(s, u, lo, hi)
  {
    RearrangedMeans(s, t, lo, hi);
    RearrangedMeans(t, u, lo, hi);
    RearrangedMeans(s, u, lo, hi);
  }

  lemma Widen<T(!new)>(s: seq<T>, t: seq<T>, lo: int, hi: int, lo2: int, hi2: int)
    requires Rearranged(s, t, lo, hi) && 0 <= lo2 <= lo && hi <= hi2 <= |s|
    ensures Rearranged(s, t, lo2, hi2)
  {
    RearrangedMeans(s, t, lo, hi);
    assert s[lo2..lo] == s[..lo][lo2..] == t[lo2..lo];
    assert s[hi..hi2] == s[hi..][..hi2 - hi] == t[hi..][..hi2 - hi] == t[hi..hi2];
    assert s[lo2..hi2] == s[lo2..lo] + s[lo..hi] + s[hi..hi2];
    assert t[lo2..hi2] == t[lo2..lo] + t[lo..hi] + t[hi..hi2];
    assert s[..lo2] == s[..lo][..lo2] == t[..lo2];
    assert s[hi2..] == s[hi..][hi2 - hi..] == t[hi..][hi2 - hi..] == t[hi2..];
    RearrangedMeans(s, t, lo2, hi2);
  }

  /** Where an element came from. */
  lemma Origin<T(!new)>(s: seq<T>, t: seq<T>, lo: int, hi: int, x: int) returns (y: int)
    requires Rearranged(s, t, lo, hi) && 0 <= x < |s|
    ensures 0 <= y < |s| && t[x] == s[y]
    ensures if lo <= x < hi then lo <= y < hi else y == x
  {
    if lo <= x < hi {
      RearrangedMeans(s, t, lo, hi);
      assert t[x] == t[lo..hi][x - lo];
      assert t[x] in multiset(s[lo..hi]);
      var k :| 0 <= k < |s[lo..hi]| && s[lo..hi][k] == t[x];
      return lo + k;
    }
    assert Kept(s, t, lo, hi, x);
    return x;
  }

  // ----- parts that are in order -----

  /** Between lo and hi, only elements of start..end may still be out of order with each other. */
  ghost predicate Settled<T(!new)>(less: (T, T) -> bool, s: seq<T>, lo: int, start: int, end: int, hi: int) {
    forall x, y | 0 <= lo <= x < y < hi <= |s| && !(start <= x && y < end) :: !less(s[y], s[x])
  }

  lemma StaysSettled<T(!new)>(less: (T, T) -> bool, s: seq<T>, t: seq<T>, lo: int, start: int, end: int, hi: int)
    requires Settled(less, s, lo, start, end, hi) && Rearranged(s, t, start, end) && lo <= start && end <= hi
    ensures Settled(less, t, lo, start, end, hi)
  {
    forall x, y | 0 <= lo <= x < y < hi <= |t| && !(start <= x && y < end) ensures !less(t[y], t[x]) {
      var x0 := Origin(s, t, start, end, x);
      var y0 := Origin(s, t, start, end, y);
    }
  }

  lemma Narrow<T(!new)>(less: (T, T) -> bool, s: seq<T>, lo: int, start: int, end: int, hi: int, start2: int, end2: int)
    requires Settled(less, s, lo, start, end, hi) && Settled(less, s, start, start2, end2, end)
    requires 0 <= lo <= start && end <= hi <= |s|
    ensures Settled(less, s, lo, start2, end2, hi)
  {
  }

  /** What a pass does to its range holds of the whole. */
  lemma AfterPass<T(!new)>(less: (T, T) -> bool, s0: seq<T>, s: seq<T>, v: seq<T>, lo: int, start: int, end: int,
                           hi: int, a: int, b: int)
    requires Rearranged(s0, s, lo, hi) && Settled(less, s, lo, start, end, hi) && lo <= start && end <= hi
    requires Rearranged(s, v, start, end) && Settled(less, v, start, a, b, end)
    ensures Rearranged(s0, v, lo, hi) && Settled(less, v, lo, a, b, hi)
  {
    StaysSettled(less, s, v, lo, start, end, hi);
    Narrow(less, v, lo, start, end, hi, a, b);
    Widen(s, v, start, end, lo, hi);
    RearrangeTwice(s0, s, v, lo, hi);
  }

  // ----- depth -----

  function Max(x: nat, y: nat): nat { if x < y then y else x }

  /** How deep the calls on part of an array may nest: not at all on an empty part, else to its logarithm. */
  predicate Shallow(depth: nat, size: int) {
    if size > 0 then Pow2(depth) <= size else depth == 0
  }

  /** Nesting one call deeper, into parts of at most half the size. */
  lemma Deeper(d1: nat, d2: nat, part1: int, part2: int, size: int)
    requires Shallow(d1, part1) && Shallow(d2, part2) && 2 * part1 <= size && 2 * part2 <= size && size >= 2
    ensures Shallow(1 + Max(d1, d2), size)
  {
  }

  lemma DeeperStill(depth: nat, nested: nat, part: int, size: int)
    requires Shallow(depth, size) && Shallow(nested, part) && 0 < part <= size
    ensures Shallow(Max(depth, nested), size)
  {
  }

  // ----- single pivot -----

  /** After partitioning: smaller elements, the pivot at p, the others. */
  ghost predicate Split<T(!new)>(less: (T, T) -> bool, s: seq<T>, lo: int, p: int, hi: int) {
    && 0 <= lo <= p < hi <= |s|
    && (forall x | lo <= x < p :: less(s[x], s[p]))
    && (forall x | p < x < hi :: !less(s[x], s[p]))
  }

  /** During it: smaller elements up to i, others up to j, the pivot at lo. */
  ghost predicate Splitting<T(!new)>(less: (T, T) -> bool, s: seq<T>, lo: int, i: int, j: int, hi: int) {
    && 0 <= lo < i <= j <= hi <= |s|
    && (forall x | lo < x < i :: less(s[x], s[lo]))
    && (forall x | i <= x < j :: !less(s[x], s[lo]))
  }

  lemma SplitSettles<T(!new)>(less: (T, T) -> bool, s: seq<T>, lo: int, p: int, hi: int)
    requires StrictWeak(less) && Split(less, s, lo, p, hi)
    ensures Sorted(less, s, p + 1, hi) ==> Settled(less, s, lo, lo, p, hi)
    ensures Sorted(less, s, lo, p) ==> Settled(less, s, lo, p + 1, hi, hi)
  {
    forall x, y | lo <= x <= p <= y < hi && x < y ensures !less(s[y], s[x]) {
      assert Asymmetric(less, s[x], s[p]);
      assert Chains(less, s[x], s[p], s[y]);
      assert Asymmetric(less, s[p], s[p]);
    }
  }

  lemma SplitStep<T(!new)>(less: (T, T) -> bool, s: seq<T>, lo: int, i: int, j: int, hi: int)
    requires Splitting(less, s, lo, i, j, hi) && j < hi
    ensures less(s[j], s[lo]) ==> Splitting(less, Swapped(s, j, i), lo, i + 1, j + 1, hi)
    ensures !less(s[j], s[lo]) ==> Splitting(less, s, lo, i, j + 1, hi)
  {
  }

  lemma SplitDone<T(!new)>(less: (T, T) -> bool, s: seq<T>, lo: int, i: int, hi: int)
    requires Splitting(less, s, lo, i, hi, hi)
    ensures Split(less, Swapped(s, lo, i - 1), lo, i - 1, hi)
  {
  }

  lemma StaysSplit<T(!new)>(less: (T, T) -> bool, s: seq<T>, t: seq<T>, lo: int, p: int, hi: int, a: int, b: int)
    requires Split(less, s, lo, p, hi) && Rearranged(s, t, a, b)
    requires (lo <= a <= b <= p) || (p < a <= b <= hi)
    ensures Split(less, t, lo, p, hi)
  {
    var q := Origin(s, t, a, b, p);
    forall x | lo <= x < hi && x != p ensures if x < p then less(t[x], t[p]) else !less(t[x], t[p]) {
      var y := Origin(s, t, a, b, x);
    }
  }

  /** Swaps two elements of lo..hi, the part that is being rearranged. */
  method Swap<T(!new)>(a: array<T>, i: int, j: int, ghost s0: seq<T>, ghost lo: int, ghost hi: int)
    requires 0 <= lo <= i < hi <= a.Length && lo <= j < hi && Rearranged(s0, a[..], lo, hi)
    modifies a
    ensures a[..] == Swapped(old(a[..]), i, j) && Rearranged(s0, a[..], lo, hi)
  {
    SwapRearranges(a[..], i, j, lo, hi);
    ghost var s := a[..];
    a[i], a[j] := a[j], a[i];
    assert a[..] == Swapped(s, i, j);
    RearrangeTwice(s0, s, a[..], lo, hi);
  }

  method PartitionOne<T(!new)>(a: array<T>, start: int, end: int, less: (T, T) -> bool) returns (p: int)
    requires 0 <= start && start + 2 <= end <= a.Length
    modifies a
    ensures Rearranged(old(a[..]), a[..], start, end) && Split(less, a[..], start, p, end)
  {
    ghost var s0 := a[..];
    var size := end - start;
    NothingMoved(s0, start, end);
    Swap(a, start + size / 2, start, s0, start, end);
    var i := start + 1;
    for j := start + 1 to end
      invariant Splitting(less, a[..], start, i, j, end) && Rearranged(s0, a[..], start, end)
    {
      i := SplitPass(a, start, i, j, end, less, s0);
    }
    SplitDone(less, a[..], start, i, end);
    Swap(a, start, i - 1, s0, start, end);
    return i - 1;
  }

  /** One pass of the partition loop. */
  method SplitPass<T(!new)>(a: array<T>, start: int, i: int, j: int, end: int, less: (T, T) -> bool, ghost s0: seq<T>)
    returns (next: int)
    requires end <= a.Length && Splitting(less, a[..], start, i, j, end) && j < end && Rearranged(s0, a[..], start, end)
    modifies a
    ensures Splitting(less, a[..], start, next, j + 1, end) && Rearranged(s0, a[..], start, end)
  {
    SplitStep(less, a[..], start, i, j, end);
    next := i;
    if less(a[j], a[start]) {
      Swap(a, j, i, s0, start, end);
      next := i + 1;
    }
  }

  /** single_pivot_quick_sort on start..end.  depth is how deep its calls nest. */
  method SinglePivotQuickSort<T(!new)>(a: array<T>, start0: int, end0: int, less: (T, T) -> bool)
    returns (ghost depth: nat)
    requires 0 <= start0 <= end0 <= a.Length && StrictWeak(less)
    modifies a
    ensures Sorted(less, a[..], start0, end0) && Rearranged(old(a[..]), a[..], start0, end0)
    ensures Shallow(depth, end0 - start0)
    decreases end0 - start0
  {
    ghost var s0 := a[..];
    NothingMoved(s0, start0, end0);
    var start, end := start0, end0;
    depth := 0;
    assert Pow2(depth) == 1;
    while true
      invariant start0 <= start <= end <= end0
      invariant Settled(less, a[..], start0, start, end, end0) && Rearranged(s0, a[..], start0, end0)
      invariant Shallow(depth, end0 - start0)
      decreases end - start
    {
      var size := end - start;
      if size <= 1 {
        return;
      }
      ghost var s := a[..];
      var p := PartitionOne(a, start, end, less);
      ghost var t := a[..];
      ghost var nested;
      if p + 1 - start > size / 2 {
        nested := SinglePivotQuickSort(a, p + 1, end, less);
        AfterPart(less, s, t, a[..], start, p, end, p + 1, end);
        AfterPass(less, s0, s, a[..], start0, start, end, end0, start, p);
        Deeper(nested, nested, end - p - 1, end - p - 1, size);
        end := p;
      } else {
        nested := SinglePivotQuickSort(a, start, p, less);
        AfterPart(less, s, t, a[..], start, p, end, start, p);
        AfterPass(less, s0, s, a[..], start0, start, end, end0, p + 1, end);
        Deeper(nested, nested, p - start, p - start, size);
        start := p + 1;
      }
      DeeperStill(depth, 1 + nested, size, end0 - start0);
      depth := Max(depth, 1 + nested);
    }
  }

  /** Partitioning and sorting one part leave only the other part to be sorted. */
  lemma AfterPart<T(!new)>(less: (T, T) -> bool, s: seq<T>, t: seq<T>, u: seq<T>, start: int, p: int, end: int,
                           a: int, b: int)
    requires StrictWeak(less) && Rearranged(s, t, start, end) && Rearranged(t, u, a, b)
    requires Split(less, t, start, p, end) && Sorted(less, u, a, b)
    requires (a == start && b == p) || (a == p + 1 && b == end)
    ensures Rearranged(s, u, start, end)
    ensures a == start ==> Settled(less, u, start, p + 1, end, end)
    ensures a == p + 1 ==> Settled(less, u, start, start, p, end)
  {
    StaysSplit(less, t, u, start, p, end, a, b);
    SplitSettles(less, u, start, p, end);
    Widen(t, u, a, b, start, end);
    RearrangeTwice(s, t, u, start, end);
  }

  // ----- two pivots -----

  /** After partitioning: below the left pivot at j, between the pivots, not below the right pivot at g. */
  ghost predicate Parted<T(!new)>(less: (T, T) -> bool, s: seq<T>, lo: int, j: int, g: int, hi: int) {
    && 0 <= lo <= j < g < hi <= |s| && !less(s[g], s[j])
    && (forall x | lo <= x < j :: less(s[x], s[j]))
    && (forall x | j < x < g :: !less(s[x], s[j]) && less(s[x], s[g]))
    && (forall x | g < x < hi :: !less(s[x], s[g]))
  }

  /** During it: the pivots at the two ends, elements j to k in the middle, those above g high. */
  ghost predicate Parting<T(!new)>(less: (T, T) -> bool, s: seq<T>, lo: int, j: int, k: int, g: int, hi: int) {
    && 0 <= lo < j <= k <= g + 2 && j <= g + 1 < hi <= |s| && !less(s[hi - 1], s[lo])
    && (forall x | lo < x < j :: less(s[x], s[lo]))
    && (forall x | j <= x < k && x <= g :: !less(s[x], s[lo]) && less(s[x], s[hi - 1]))
    && (forall x | g < x < hi - 1 :: !less(s[x], s[hi - 1]))
  }

  lemma LowPass<T(!new)>(less: (T, T) -> bool, s: seq<T>, lo: int, j: int, k: int, g: int, hi: int)
    requires Parting(less, s, lo, j, k, g, hi) && k <= g && less(s[k], s[lo])
    ensures Parting(less, Swapped(s, k, j), lo, j + 1, k + 1, g, hi)
  {
  }

  lemma HighPass<T(!new)>(less: (T, T) -> bool, s: seq<T>, lo: int, j: int, k: int, g: int, hi: int)
    requires StrictWeak(less) && Parting(less, s, lo, j, k, g, hi) && k <= g
    requires !less(s[k], s[lo]) && !less(s[k], s[hi - 1]) && (less(s[g], s[hi - 1]) || k == g)
    ensures
      var t := Swapped(s, k, g);
      if less(t[k], t[lo]) then Parting(less, Swapped(t, k, j), lo, j + 1, k + 1, g - 1, hi)
      else Parting(less, t, lo, j, k + 1, g - 1, hi)
  {
  }

  lemma PartingDone<T(!new)>(less: (T, T) -> bool, s: seq<T>, lo: int, j: int, k: int, g: int, hi: int)
    requires Parting(less, s, lo, j, k, g, hi) && k > g
    ensures Parted(less, Swapped(Swapped(s, lo, j - 1), hi - 1, g + 1), lo, j - 1, g + 1, hi)
  {
  }

  /** One of the three parts that are left to sort. */
  predicate IsPart(lo: int, j: int, g: int, hi: int, a: int, b: int) {
    (a == lo && b == j) || (a == j + 1 && b == g) || (a == g + 1 && b == hi)
  }

  lemma StaysParted<T(!new)>(less: (T, T) -> bool, s: seq<T>, t: seq<T>, lo: int, j: int, g: int, hi: int, a: int,
                             b: int)
    requires Parted(less, s, lo, j, g, hi) && Rearranged(s, t, a, b) && IsPart(lo, j, g, hi, a, b)
    ensures Parted(less, t, lo, j, g, hi)
  {
    var j0 := Origin(s, t, a, b, j);
    var g0 := Origin(s, t, a, b, g);
    forall x | lo <= x < hi && x != j && x != g
      ensures
        if x < j then less(t[x], t[j])
        else if x < g then !less(t[x], t[j]) && less(t[x], t[g])
        else !less(t[x], t[g])
    {
      var y := Origin(s, t, a, b, x);
    }
  }

  lemma OthersSorted<T(!new)>(less: (T, T) -> bool, s: seq<T>, t: seq<T>, a: int, b: int, c: int, d: int)
    requires Rearranged(s, t, a, b) && Sorted(less, s, c, d) && (d <= a || b <= c)
    ensures Sorted(less, t, c, d)
  {
    forall x, y | 0 <= c <= x < y < d <= |t| ensures !less(t[y], t[x]) {
      var x0 := Origin(s, t, a, b, x);
      var y0 := Origin(s, t, a, b, y);
    }
  }

  /** Elements of different parts, and the pivots, are in order. */
  lemma PartedOrder<T(!new)>(less: (T, T) -> bool, s: seq<T>, lo: int, j: int, g: int, hi: int, x: int, y: int)
    requires StrictWeak(less) && Parted(less, s, lo, j, g, hi) && lo <= x < y < hi
    requires x <= j <= y || x <= g <= y
    ensures !less(s[y], s[x])
  {
    assert Asymmetric(less, s[x], s[j]) && Asymmetric(less, s[x], s[g]);
    assert Asymmetric(less, s[j], s[j]) && Asymmetric(less, s[g], s[g]);
    assert Chains(less, s[x], s[j], s[y]) && Chains(less, s[x], s[g], s[y]);
    assert Chains(less, s[x], s[j], s[g]) && Chains(less, s[j], s[g], s[y]);
  }

  /** Once two parts are sorted, only the third is left. */
  lemma PartedSettles<T(!new)>(less: (T, T) -> bool, s: seq<T>, lo: int, j: int, g: int, hi: int, a: int, b: int)
    requires StrictWeak(less) && Parted(less, s, lo, j, g, hi) && IsPart(lo, j, g, hi, a, b)
    requires (a == lo && b == j) || Sorted(less, s, lo, j)
    requires (a == j + 1 && b == g) || Sorted(less, s, j + 1, g)
    requires (a == g + 1 && b == hi) || Sorted(less, s, g + 1, hi)
    ensures Settled(less, s, lo, a, b, hi)
  {
    forall x, y | lo <= x < y < hi && !(a <= x && y < b) ensures !less(s[y], s[x]) {
      if x <= j <= y || x <= g <= y {
        PartedOrder(less, s, lo, j, g, hi, x, y);
      }
    }
  }

  /** Moves two pivots to the ends, the smaller to the front. */
  method ChoosePivots<T(!new)>(a: array<T>, start: int, end: int, less: (T, T) -> bool, ghost s0: seq<T>)
    requires 0 <= start < end < a.Length && StrictWeak(less) && Rearranged(s0, a[..], start, end + 1)
    modifies a
    ensures Rearranged(s0, a[..], start, end + 1) && !less(a[end], a[start])
  {
    var size := end - start + 1;
    if size > 3 {
      var third := size / 3;
      assert Asymmetric(less, a[start + third], a[end - third]);
      if less(a[start + third], a[end - third]) {
        Swap(a, start + third, start, s0, start, end + 1);
        Swap(a, end - third, end, s0, start, end + 1);
      } else {
        Swap(a, start + third, end, s0, start, end + 1);
        Swap(a, end - third, start, s0, start, end + 1);
      }
    } else {
      assert Asymmetric(less, a[start], a[end]);
      if !less(a[start], a[end]) {
        Swap(a, start, end, s0, start, end + 1);
      }
    }
  }

  lemma HighSkip<T(!new)>(less: (T, T) -> bool, s: seq<T>, lo: int, j: int, k: int, g: int, hi: int)
    requires Parting(less, s, lo, j, k, g, hi) && k < g && !less(s[g], s[hi - 1])
    ensures Parting(less, s, lo, j, k, g - 1, hi)
  {
  }

  /** The inner loop: passes the elements at the end that are high already. */
  method SkipHigh<T(!new)>(a: array<T>, start: int, j: int, k: int, g0: int, end: int, less: (T, T) -> bool)
    returns (g: int)
    requires end < a.Length && Parting(less, a[..], start, j, k, g0, end + 1) && k <= g0
    ensures k <= g <= g0 && Parting(less, a[..], start, j, k, g, end + 1) && (less(a[g], a[end]) || k == g)
  {
    g := g0;
    while !less(a[g], a[end]) && k < g
      invariant k <= g <= g0 && Parting(less, a[..], start, j, k, g, end + 1)
    {
      HighSkip(less, a[..], start, j, k, g, end + 1);
      g := g - 1;
    }
  }

  /** One pass of the partition loop. */
  method PartPass<T(!new)>(a: array<T>, start: int, j0: int, k: int, g0: int, end: int, less: (T, T) -> bool,
                           ghost s0: seq<T>)
    returns (j: int, g: int)
    requires end < a.Length && Parting(less, a[..], start, j0, k, g0, end + 1) && k <= g0
    requires StrictWeak(less) && Rearranged(s0, a[..], start, end + 1)
    modifies a
    ensures Parting(less, a[..], start, j, k + 1, g, end + 1) && Rearranged(s0, a[..], start, end + 1) && g <= g0
  {
    j, g := j0, g0;
    if less(a[k], a[start]) {
      j := SwapLow(a, start, j, k, g, end, less, s0);
    } else if !less(a[k], a[end]) {
      g := SkipHigh(a, start, j, k, g, end, less);
      j := SwapHigh(a, start, j, k, g, end, less, s0);
      g := g - 1;
    } else {
      MiddlePass(less, a[..], start, j, k, g, end + 1);
    }
  }

  /** Moves a low element to the low end. */
  method SwapLow<T(!new)>(a: array<T>, start: int, j0: int, k: int, g: int, end: int, less: (T, T) -> bool,
                          ghost s0: seq<T>)
    returns (j: int)
    requires end < a.Length && Parting(less, a[..], start, j0, k, g, end + 1) && k <= g && less(a[k], a[start])
    requires Rearranged(s0, a[..], start, end + 1)
    modifies a
    ensures Parting(less, a[..], start, j, k + 1, g, end + 1) && Rearranged(s0, a[..], start, end + 1)
  {
    LowPass(less, a[..], start, j0, k, g, end + 1);
    Swap(a, k, j0, s0, start, end + 1);
    return j0 + 1;
  }

  lemma MiddlePass<T(!new)>(less: (T, T) -> bool, s: seq<T>, lo: int, j: int, k: int, g: int, hi: int)
    requires Parting(less, s, lo, j, k, g, hi) && k <= g && !less(s[k], s[lo]) && less(s[k], s[hi - 1])
    ensures Parting(less, s, lo, j, k + 1, g, hi)
  {
  }

  /** Moves a high element out of the middle, and the one it was swapped with to the low end if it belongs there. */
  method SwapHigh<T(!new)>(a: array<T>, start: int, j0: int, k: int, g: int, end: int, less: (T, T) -> bool,
                           ghost s0: seq<T>)
    returns (j: int)
    requires end < a.Length && Parting(less, a[..], start, j0, k, g, end + 1) && k <= g
    requires !less(a[k], a[start]) && !less(a[k], a[end]) && (less(a[g], a[end]) || k == g)
    requires StrictWeak(less) && Rearranged(s0, a[..], start, end + 1)
    modifies a
    ensures Parting(less, a[..], start, j, k + 1, g - 1, end + 1) && Rearranged(s0, a[..], start, end + 1)
  {
    j := j0;
    HighPass(less, a[..], start, j, k, g, end + 1);
    Swap(a, k, g, s0, start, end + 1);
    if less(a[k], a[start]) {
      Swap(a, k, j, s0, start, end + 1);
      j := j + 1;
    }
  }

  method PartitionTwo<T(!new)>(a: array<T>, start: int, end: int, less: (T, T) -> bool) returns (j: int, g: int)
    requires 0 <= start < end < a.Length && StrictWeak(less)
    modifies a
    ensures Rearranged(old(a[..]), a[..], start, end + 1) && Parted(less, a[..], start, j, g, end + 1)
  {
    ghost var s0 := a[..];
    NothingMoved(s0, start, end + 1);
    ChoosePivots(a, start, end, less, s0);
    j, g := start + 1, end - 1;
    var k := start + 1;
    while k <= g
      invariant Parting(less, a[..], start, j, k, g, end + 1) && Rearranged(s0, a[..], start, end + 1)
    {
      j, g := PartPass(a, start, j, k, g, end, less, s0);
      k := k + 1;
    }
    j, g := PlacePivots(a, start, j, k, g, end, less, s0);
  }

  /** Moves the pivots between the parts. */
  method PlacePivots<T(!new)>(a: array<T>, start: int, j0: int, ghost k: int, g0: int, end: int, less: (T, T) -> bool,
                              ghost s0: seq<T>)
    returns (j: int, g: int)
    requires end < a.Length && Parting(less, a[..], start, j0, k, g0, end + 1) && k > g0
      && Rearranged(s0, a[..], start, end + 1)
    modifies a
    ensures Rearranged(s0, a[..], start, end + 1) && Parted(less, a[..], start, j, g, end + 1)
  {
    PartingDone(less, a[..], start, j0, k, g0, end + 1);
    j, g := j0 - 1, g0 + 1;
    Swap(a, start, j, s0, start, end + 1);
    Swap(a, end, g, s0, start, end + 1);
  }

  /** Sorting two parts leaves only the third to be sorted. */
  lemma AfterParts<T(!new)>(less: (T, T) -> bool, s: seq<T>, t: seq<T>, u: seq<T>, v: seq<T>, start: int, j: int,
                            g: int, end: int,
                            a1: int, b1: int, a2: int, b2: int, a: int, b: int)
    requires StrictWeak(less) && Rearranged(s, t, start, end) && Parted(less, t, start, j, g, end)
    requires Rearranged(t, u, a1, b1) && Rearranged(u, v, a2, b2)
    requires Sorted(less, u, a1, b1) && Sorted(less, v, a2, b2) && b1 < a2
    requires IsPart(start, j, g, end, a1, b1) && IsPart(start, j, g, end, a2, b2) && IsPart(start, j, g, end, a, b)
    requires a != a1 && a != a2
    ensures Rearranged(s, v, start, end) && Settled(less, v, start, a, b, end)
  {
    StaysParted(less, t, u, start, j, g, end, a1, b1);
    StaysParted(less, u, v, start, j, g, end, a2, b2);
    OthersSorted(less, u, v, a2, b2, a1, b1);
    PartedSettles(less, v, start, j, g, end, a, b);
    Widen(t, u, a1, b1, start, end);
    Widen(u, v, a2, b2, start, end);
    RearrangeTwice(s, t, u, start, end);
    RearrangeTwice(s, u, v, start, end);
  }

  /** One pass of the outer loop: partition, sort the two smaller parts, and leave the largest. */
  method DualPass<T(!new)>(a: array<T>, start: int, end: int, less: (T, T) -> bool)
    returns (start2: int, end2: int, ghost depth: nat)
    requires 0 <= start < end < a.Length && StrictWeak(less)
    modifies a
    ensures start <= start2 <= end2 + 1 <= end + 1 && end2 - start2 < end - start
    ensures Rearranged(old(a[..]), a[..], start, end + 1) && Settled(less, a[..], start, start2, end2 + 1, end + 1)
    ensures Shallow(depth, end - start + 1)
    decreases end - start + 1, 0
  {
    ghost var s := a[..];
    var left, right := PartitionTwo(a, start, end, less);
    ghost var t := a[..];
    var leftSize, middleSize, rightSize := left - start, right - (left + 1), (end + 1) - (right + 1);
    start2, end2 := start, end;
    if leftSize >= middleSize && leftSize >= rightSize {
      depth := SortTwo(a, start, left, right, end, less, left + 1, right - 1, right + 1, end, start, left - 1, s);
      end2 := left - 1;
    } else if middleSize >= rightSize {
      depth := SortTwo(a, start, left, right, end, less, start, left - 1, right + 1, end, left + 1, right - 1, s);
      start2 := left + 1;
      end2 := right - 1;
    } else {
      depth := SortTwo(a, start, left, right, end, less, start, left - 1, left + 1, right - 1, right + 1, end, s);
      start2 := right + 1;
    }
  }

  /** Three different parts, the third the largest: the others are at most half of the whole. */
  lemma PartBounds(start: int, j: int, g: int, end: int, a1: int, b1: int, a2: int, b2: int, a3: int, b3: int)
    requires start <= j < g <= end && b1 + 1 < a2 && a3 != a1 && a3 != a2
    requires IsPart(start, j, g, end + 1, a1, b1 + 1) && IsPart(start, j, g, end + 1, a2, b2 + 1)
    requires IsPart(start, j, g, end + 1, a3, b3 + 1) && b1 - a1 <= b3 - a3 && b2 - a2 <= b3 - a3
    ensures start <= a1 <= b1 + 1 <= end + 1 && start <= a2 <= b2 + 1 <= end + 1
    ensures 2 * (b1 - a1 + 1) <= end - start + 1 && 2 * (b2 - a2 + 1) <= end - start + 1
  {
  }

  /** Two recursive calls on parts of at most a given size. */
  method SortBoth<T(!new)>(a: array<T>, less: (T, T) -> bool, a1: int, b1: int, a2: int, b2: int, ghost size: nat)
    returns (ghost u: seq<T>, ghost d1: nat, ghost d2: nat)
    requires StrictWeak(less) && 0 <= a1 <= b1 + 1 < a2 <= b2 + 1 <= a.Length
    requires b1 - a1 + 1 <= size && b2 - a2 + 1 <= size
    modifies a
    ensures Rearranged(old(a[..]), u, a1, b1 + 1) && Sorted(less, u, a1, b1 + 1)
    ensures Rearranged(u, a[..], a2, b2 + 1) && Sorted(less, a[..], a2, b2 + 1)
    ensures Shallow(d1, b1 - a1 + 1) && Shallow(d2, b2 - a2 + 1)
    decreases size, 2
  {
    d1 := DualPivotQuickSort(a, a1, b1, less);
    u := a[..];
    d2 := DualPivotQuickSort(a, a2, b2, less);
  }

  /** The two recursive calls, on parts no larger than the third. */
  method SortTwo<T(!new)>(a: array<T>, start: int, j: int, g: int, end: int, less: (T, T) -> bool,
                          a1: int, b1: int, a2: int, b2: int, ghost a3: int, ghost b3: int, ghost s: seq<T>)
    returns (ghost depth: nat)
    requires StrictWeak(less) && end < a.Length && Parted(less, a[..], start, j, g, end + 1)
    requires Rearranged(s, a[..], start, end + 1)
    requires IsPart(start, j, g, end + 1, a1, b1 + 1) && IsPart(start, j, g, end + 1, a2, b2 + 1)
    requires IsPart(start, j, g, end + 1, a3, b3 + 1) && b1 + 1 < a2 && a3 != a1 && a3 != a2
    requires b1 - a1 <= b3 - a3 && b2 - a2 <= b3 - a3
    modifies a
    ensures Rearranged(s, a[..], start, end + 1) && Settled(less, a[..], start, a3, b3 + 1, end + 1)
    ensures Shallow(depth, end - start + 1)
    decreases b3 - a3 + 1, 3
  {
    ghost var t := a[..];
    PartBounds(start, j, g, end, a1, b1, a2, b2, a3, b3);
    ghost var u, d1, d2 := SortBoth(a, less, a1, b1, a2, b2, b3 - a3 + 1);
    AfterParts(less, s, t, u, a[..], start, j, g, end + 1, a1, b1 + 1, a2, b2 + 1, a3, b3 + 1);
    Deeper(d1, d2, b1 - a1 + 1, b2 - a2 + 1, end - start + 1);
    depth := 1 + Max(d1, d2);
  }

  /** dual_pivot_quick_sort on start..end, both included.  depth is how deep its calls nest. */
  method DualPivotQuickSort<T(!new)>(a: array<T>, start0: int, end0: int, less: (T, T) -> bool)
    returns (ghost depth: nat)
    requires 0 <= start0 <= end0 + 1 <= a.Length && StrictWeak(less)
    modifies a
    ensures Sorted(less, a[..], start0, end0 + 1) && Rearranged(old(a[..]), a[..], start0, end0 + 1)
    ensures Shallow(depth, end0 - start0 + 1)
    decreases end0 - start0 + 1, 1
  {
    ghost var s0 := a[..];
    NothingMoved(s0, start0, end0 + 1);
    var start, end := start0, end0;
    depth := 0;
    assert Pow2(depth) == 1;
    while start < end
      invariant start0 <= start <= end + 1 <= end0 + 1
      invariant Settled(less, a[..], start0, start, end + 1, end0 + 1) && Rearranged(s0, a[..], start0, end0 + 1)
      invariant Shallow(depth, end0 - start0 + 1)
      decreases end - start
    {
      ghost var s := a[..];
      ghost var nested;
      var start2, end2;
      start2, end2, nested := DualPass(a, start, end, less);
      AfterPass(less, s0, s, a[..], start0, start, end + 1, end0 + 1, start2, end2 + 1);
      DeeperStill(depth, nested, end - start + 1, end0 - start0 + 1);
      start, end, depth := start2, end2, Max(depth, nested);
    }
  }

  /** quick_sort on a whole collection: a sorted permutation. */
  method QuickSort<T(!new)>(a: array<T>, less: (T, T) -> bool) returns (ghost depth: nat)
    requires StrictWeak(less)
    modifies a
    ensures Sorted(less, a[..], 0, a.Length) && multiset(a[..]) == multiset(old(a[..]))
    ensures a.Length > 0 ==> Pow2(depth) <= a.Length
  {
    depth := DualPivotQuickSort(a, 0, a.Length - 1, less);
    RearrangedMeans(old(a[..]), a[..], 0, a.Length);
    assert old(a[..])[0..a.Length] == old(a[..]) && a[..][0..a.Length] == a[..];
  }
}
