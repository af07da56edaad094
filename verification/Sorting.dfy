/** The in-place sort and the in-place removal of duplicates (util.c). */
module Sorting {
  const SORT_THRESHOLD := 16

  ghost predicate Sorted(s: seq<nat>) {
    forall i, j :: 0 <= i < j < |s| ==> s[i] <= s[j]
  }

  ghost predicate StrictlySorted(s: seq<nat>) {
    forall i, j :: 0 <= i < j < |s| ==> s[i] < s[j]
  }

  /** t is s with the elements from lo to hi (exclusive) permuted. */
  ghost predicate Permuted(s: seq<nat>, t: seq<nat>, lo: int, hi: int)
    requires 0 <= lo <= hi <= |s|
  {
    && |t| == |s|
    && t[..lo] == s[..lo]
    && t[hi..] == s[hi..]
    && multiset(t[lo..hi]) == multiset(s[lo..hi])
  }

  lemma PermutedTrans(s: seq<nat>, t: seq<nat>, u: seq<nat>, lo: int, hi: int)
    requires 0 <= lo <= hi <= |s| && Permuted(s, t, lo, hi) && Permuted(t, u, lo, hi)
    ensures Permuted(s, u, lo, hi)
  {
  }

  /** A permutation of a part is a permutation of the whole. */
  lemma PermutedWiden(s: seq<nat>, t: seq<nat>, lo: int, hi: int, lo': int, hi': int)
    requires 0 <= lo' <= lo <= hi <= hi' <= |s| && Permuted(s, t, lo, hi)
    ensures Permuted(s, t, lo', hi')
  {
    assert t[..lo'] == t[..lo][..lo'] == s[..lo'];
    assert t[hi'..] == t[hi..][hi' - hi..] == s[hi'..];
    assert t[lo'..lo] == t[..lo][lo'..] == s[lo'..lo];
    assert t[hi..hi'] == t[hi..][..hi' - hi] == s[hi..hi'];
    assert s[lo'..hi'] == s[lo'..lo] + s[lo..hi] + s[hi..hi'];
    assert t[lo'..hi'] == t[lo'..lo] + t[lo..hi] + t[hi..hi'];
  }

  /** Writing both elements back is the swap. */
  lemma SwapWrites(t: seq<nat>, u: seq<nat>, n: int, m: int)
    requires 0 <= n < |t| == |u| && 0 <= m < |t| && u[n] == t[m] && u[m] == t[n]
    requires forall k :: 0 <= k < |t| && k != n && k != m ==> u[k] == t[k]
    ensures u == t[n := t[m]][m := t[n]]
  {
  }

  lemma SwapIsPermutation(s: seq<nat>, n: int, m: int, lo: int, hi: int)
    requires 0 <= lo <= n < hi <= |s| && lo <= m < hi
    ensures Permuted(s, s[n := s[m]][m := s[n]], lo, hi)
  {
    var t := s[n := s[m]][m := s[n]];
    assert t[lo..hi] == s[lo..hi][n - lo := s[m]][m - lo := s[n]];
  }

  /** swap, inside a range of which `s` is the original. */
  method Swap(addrs: array<nat>, n: int, m: int, ghost s: seq<nat>, ghost lo: int, ghost hi: int)
    requires 0 <= lo <= n < hi <= addrs.Length == |s| && lo <= m < hi
    requires Permuted(s, addrs[..], lo, hi)
    modifies addrs
    ensures Permuted(s, addrs[..], lo, hi)
    ensures addrs[n] == old(addrs[m]) && addrs[m] == old(addrs[n])
    ensures forall k :: 0 <= k < addrs.Length && k != n && k != m ==> addrs[k] == old(addrs[k])
  {
    ghost var t := addrs[..];
    var addr := addrs[n];
    addrs[n] := addrs[m];
    addrs[m] := addr;
    SwapWrites(t, addrs[..], n, m);
    SwapIsPermutation(t, n, m, lo, hi);
    PermutedTrans(s, t, addrs[..], lo, hi);
  }

  /** Every element of s is at most every element of t in the range, and stays so under permutation. */
  lemma BoundsPermute(s: seq<nat>, t: seq<nat>, lo: int, hi: int, x: nat)
    requires 0 <= lo <= hi <= |s| && Permuted(s, t, lo, hi)
    ensures (forall k :: lo <= k < hi ==> s[k] <= x) ==> (forall k :: lo <= k < hi ==> t[k] <= x)
    ensures (forall k :: lo <= k < hi ==> x <= s[k]) ==> (forall k :: lo <= k < hi ==> x <= t[k])
  {
    forall k | lo <= k < hi ensures exists j :: lo <= j < hi && s[j] == t[k] {
      assert t[k] == t[lo..hi][k - lo];
      assert t[k] in multiset(t[lo..hi]);
      assert t[k] in s[lo..hi];
      var j :| 0 <= j < hi - lo && s[lo..hi][j] == t[k];
      assert s[lo + j] == t[k];
    }
  }

  /** The elements from min to mid are at most x, those from mid to i are greater. */
  ghost predicate Parted(s: seq<nat>, min: int, mid: int, i: int, x: nat) {
    && 0 <= min <= mid <= i <= |s|
    && (forall k :: min <= k < mid ==> s[k] <= x)
    && forall k :: mid <= k < i ==> x < s[k]
  }

  /** The loop body of partition, for an element that belongs below the pivot. */
  method MoveBelow(addrs: array<nat>, i: int, mid: int, ghost s: seq<nat>, ghost min: int, ghost max: int)
    requires 0 <= min <= mid <= i < max < addrs.Length == |s| && Permuted(s, addrs[..], min, max + 1)
    requires Parted(addrs[..], min, mid, i, addrs[max]) && addrs[i] <= addrs[max]
    modifies addrs
    ensures addrs[max] == old(addrs[max]) && Permuted(s, addrs[..], min, max + 1)
    ensures Parted(addrs[..], min, mid + 1, i + 1, addrs[max])
  {
    Swap(addrs, i, mid, s, min, max + 1);
  }

  method Partition(addrs: array<nat>, min: int, max: int) returns (mid: int)
    requires 0 <= min <= max < addrs.Length
    modifies addrs
    ensures min <= mid <= max
    ensures Permuted(old(addrs[..]), addrs[..], min, max + 1)
    ensures forall k :: min <= k < mid ==> addrs[k] <= addrs[mid]
    ensures forall k :: mid < k <= max ==> addrs[mid] < addrs[k]
  {
    var pivot := (max + min) / 2;
    var pivotVal := addrs[pivot];
    mid := min;
    ghost var s := addrs[..];
    Swap(addrs, pivot, max, s, min, max + 1);
    for i := min to max
      invariant addrs[max] == pivotVal
      invariant Parted(addrs[..], min, mid, i, pivotVal)
      invariant Permuted(s, addrs[..], min, max + 1)
    {
      if addrs[i] <= pivotVal {
        MoveBelow(addrs, i, mid, s, min, max);
        mid := mid + 1;
      }
    }
    PlacePivot(addrs, mid, s, min, max);
  }

  /** The last swap of partition. */
  method PlacePivot(addrs: array<nat>, mid: int, ghost s: seq<nat>, ghost min: int, max: int)
    requires 0 <= min <= mid <= max < addrs.Length == |s| && Permuted(s, addrs[..], min, max + 1)
    requires Parted(addrs[..], min, mid, max, addrs[max])
    modifies addrs
    ensures Permuted(s, addrs[..], min, max + 1)
    ensures forall k :: min <= k < mid ==> addrs[k] <= addrs[mid]
    ensures forall k :: mid < k <= max ==> addrs[mid] < addrs[k]
  {
    ghost var t := addrs[..];
    Swap(addrs, mid, max, s, min, max + 1);
    forall k | mid < k <= max ensures addrs[mid] < addrs[k] {
      assert mid <= (if k == max then mid else k) < max && addrs[k] == t[if k == max then mid else k];
    }
  }

  /** What lies left of min is at most what lies in [min, max]. */
  ghost predicate Fenced(s: seq<nat>, min: int, max: int)
    requires 0 <= min && max < |s|
  {
    forall i, j :: 0 <= i < min <= j <= max ==> s[i] <= s[j]
  }

  /** Sorted from min to i, but for the element at j, which may be too small for its place. */
  ghost predicate SortedBut(s: seq<nat>, min: int, i: int, j: int) {
    forall k, l :: 0 <= min <= k < l <= i < |s| && l != j ==> s[k] <= s[l]
  }

  lemma SwapDown(s: seq<nat>, t: seq<nat>, min: int, i: int, j: int)
    requires 0 <= min < j <= i < |s| == |t| && SortedBut(s, min, i, j) && s[j] < s[j - 1]
    requires t[j] == s[j - 1] && t[j - 1] == s[j]
    requires forall k :: 0 <= k < |s| && k != j && k != j - 1 ==> t[k] == s[k]
    ensures SortedBut(t, min, i, j - 1)
  {
    forall k, l | 0 <= min <= k < l <= i < |t| && l != j - 1 ensures t[k] <= t[l] {
      if l != j {
        assert s[j] < s[j - 1] && (j < l ==> s[j - 1] <= s[l] && s[j] <= s[l]);
      }
    }
  }

  ghost predicate SortedFrom(s: seq<nat>, min: int, hi: int) {
    forall k, l :: 0 <= min <= k < l < hi <= |s| ==> s[k] <= s[l]
  }

  lemma InsertDone(s: seq<nat>, min: int, i: int, j: int)
    requires 0 <= min <= j <= i < |s| && SortedBut(s, min, i, j) && (j > min ==> s[j - 1] <= s[j])
    ensures SortedFrom(s, min, i + 1)
  {
    forall k, l | 0 <= min <= k < l < i + 1 ensures s[k] <= s[l] {
      if l == j && k < j - 1 { assert s[k] <= s[j - 1]; }
    }
  }

  lemma InsertStarts(s: seq<nat>, min: int, i: int)
    requires 0 <= min <= i < |s| && SortedFrom(s, min, i)
    ensures SortedBut(s, min, i, i)
  {
  }

  /** What lies just left of min is at most what lies in [min, max]. */
  ghost predicate FencedAt(s: seq<nat>, min: int, max: int) {
    0 < min <= max < |s| ==> forall l :: min <= l <= max ==> s[min - 1] <= s[l]
  }

  /** A swap inside the range keeps the fence. */
  lemma SwapKeepsFence(s: seq<nat>, t: seq<nat>, min: int, max: int, j: int)
    requires 0 <= min < j <= max < |s| == |t| && FencedAt(s, min, max)
    requires t[j] == s[j - 1] && t[j - 1] == s[j]
    requires forall k :: 0 <= k < |s| && k != j && k != j - 1 ==> t[k] == s[k]
    ensures FencedAt(t, min, max)
  {
  }

  /** One swap of the inner loop of insertion_sort. */
  method InsertSwap(addrs: array<nat>, ghost min: int, ghost max: int, ghost i: int, j: int, ghost s: seq<nat>)
    requires 0 <= min < j <= i <= max < addrs.Length == |s| && Permuted(s, addrs[..], min, max + 1)
    requires SortedBut(addrs[..], min, i, j) && addrs[j] < addrs[j - 1] && FencedAt(addrs[..], min, max)
    modifies addrs
    ensures Permuted(s, addrs[..], min, max + 1) && SortedBut(addrs[..], min, i, j - 1)
    ensures FencedAt(addrs[..], min, max)
  {
    ghost var t := addrs[..];
    Swap(addrs, j, j - 1, s, min, max + 1);
    SwapDown(t, addrs[..], min, i, j);
    SwapKeepsFence(t, addrs[..], min, max, j);
  }

  /** The inner loop of insertion_sort.  It stops at index 0, not at min; that it never passes min is
      due to the fence. */
  method Insert(addrs: array<nat>, ghost min: int, ghost max: int, i: int, ghost s: seq<nat>)
    requires 0 <= min <= i <= max < addrs.Length == |s| && Permuted(s, addrs[..], min, max + 1)
    requires FencedAt(addrs[..], min, max)
    requires SortedFrom(addrs[..], min, i)
    modifies addrs
    ensures Permuted(s, addrs[..], min, max + 1)
    ensures FencedAt(addrs[..], min, max)
    ensures SortedFrom(addrs[..], min, i + 1)
  {
    var j := i;
    InsertStarts(addrs[..], min, i);
    while j > 0 && addrs[j - 1] > addrs[j]
      invariant min <= j <= i
      invariant Permuted(s, addrs[..], min, max + 1) && SortedBut(addrs[..], min, i, j)
      invariant FencedAt(addrs[..], min, max)
    {
      assert min > 0 ==> addrs[min - 1] <= addrs[min];
      InsertSwap(addrs, min, max, i, j, s);
      j := j - 1;
    }
    InsertDone(addrs[..], min, i, j);
  }

  method InsertionSort(addrs: array<nat>, min: int, max: int)
    requires 0 <= min <= max + 1 <= addrs.Length && Fenced(addrs[..], min, max)
    modifies addrs
    ensures Permuted(old(addrs[..]), addrs[..], min, max + 1)
    ensures SortedFrom(addrs[..], min, max + 1)
  {
    if max < min { return; }
    ghost var s := addrs[..];
    var i := min + 1;
    while i <= max
      invariant min < i <= max + 1
      invariant Permuted(s, addrs[..], min, max + 1)
      invariant FencedAt(addrs[..], min, max)
      invariant SortedFrom(addrs[..], min, i)
    {
      Insert(addrs, min, max, i, s);
      i := i + 1;
    }
  }

  /** Partitioning fences the part below the pivot ... */
  lemma FenceBelow(s: seq<nat>, t: seq<nat>, min: int, max: int, mid: int)
    requires 0 <= min <= mid <= max < |s| && Permuted(s, t, min, max + 1) && Fenced(s, min, max)
    ensures Fenced(t, min, mid - 1) && Fenced(t, min, max)
  {
    forall i, j | 0 <= i < min <= j <= max ensures t[i] <= t[j] {
      assert t[i] == t[..min][i] == s[i];
      BoundsPermute(s, t, min, max + 1, s[i]);
    }
  }

  /** ... and sorting that part keeps the part above the pivot fenced. */
  lemma FenceAbove(t: seq<nat>, u: seq<nat>, min: int, max: int, mid: int)
    requires 0 <= min <= mid <= max < |t| && Permuted(t, u, min, mid) && Fenced(t, min, max)
    requires forall k :: min <= k < mid ==> t[k] <= t[mid]
    requires forall k :: mid < k <= max ==> t[mid] < t[k]
    ensures Fenced(u, mid + 1, max)
    ensures u[mid] == t[mid]
    ensures forall k :: min <= k < mid ==> u[k] <= u[mid]
    ensures forall k :: mid < k <= max ==> u[mid] < u[k]
  {
    BoundsPermute(t, u, min, mid, t[mid]);
    assert forall k :: mid <= k < |t| ==> u[k] == u[mid..][k - mid] == t[mid..][k - mid] == t[k];
    forall i, j | 0 <= i < mid + 1 <= j <= max ensures u[i] <= u[j] {
      if i < min { assert u[i] == u[..min][i] == t[..min][i] == t[i]; }
    }
  }

  /** Two sorted halves around a pivot. */
  lemma SortedAround(u: seq<nat>, v: seq<nat>, min: int, max: int, mid: int)
    requires 0 <= min <= mid <= max < |u| && Permuted(u, v, mid + 1, max + 1)
    requires SortedFrom(u, min, mid) && SortedFrom(v, mid + 1, max + 1)
    requires forall k :: min <= k < mid ==> u[k] <= u[mid]
    requires forall k :: mid < k <= max ==> u[mid] < u[k]
    ensures SortedFrom(v, min, max + 1)
  {
    BoundsPermute(u, v, mid + 1, max + 1, u[mid]);
    assert forall k :: 0 <= k <= mid ==> v[k] == v[..mid + 1][k] == u[..mid + 1][k] == u[k];
    forall k, l | min <= k < l < max + 1 ensures v[k] <= v[l] {
      assert k < mid ==> u[k] <= u[mid];
      assert mid < l ==> u[mid] <= v[l];
    }
  }

  /** From the original s through the partition t and the sorted lower part u to the result v. */
  lemma QuickSortDone(s: seq<nat>, t: seq<nat>, u: seq<nat>, v: seq<nat>, min: int, max: int, mid: int)
    requires 0 <= min <= mid <= max < |s| && Permuted(s, t, min, max + 1)
    requires Permuted(t, u, min, mid) && Permuted(u, v, mid + 1, max + 1)
    requires SortedFrom(u, min, mid) && SortedFrom(v, mid + 1, max + 1)
    requires Split(u, min, max, mid)
    ensures Permuted(s, v, min, max + 1) && SortedFrom(v, min, max + 1)
  {
    SortedAround(u, v, min, max, mid);
    PermutedWiden(t, u, min, mid, min, max + 1);
    PermutedWiden(u, v, mid + 1, max + 1, min, max + 1);
    PermutedTrans(s, t, u, min, max + 1);
    PermutedTrans(s, u, v, min, max + 1);
  }

  /** partition, with the fence of the lower part. */
  method PartitionFenced(addrs: array<nat>, min: int, max: int) returns (mid: int)
    requires 0 <= min <= max < addrs.Length && Fenced(addrs[..], min, max)
    modifies addrs
    ensures min <= mid <= max
    ensures Permuted(old(addrs[..]), addrs[..], min, max + 1)
    ensures Fenced(addrs[..], min, mid - 1) && Fenced(addrs[..], min, max)
    ensures Split(addrs[..], min, max, mid)
  {
    ghost var s := addrs[..];
    mid := Partition(addrs, min, max);
    FenceBelow(s, addrs[..], min, max, mid);
  }

  /** mid splits [min, max] around a pivot. */
  ghost predicate Split(s: seq<nat>, min: int, max: int, mid: int)
    requires 0 <= min <= mid <= max < |s|
  {
    && (forall k :: min <= k < mid ==> s[k] <= s[mid])
    && (forall k :: mid < k <= max ==> s[mid] < s[k])
  }

  /** The first recursive call of quicksort. */
  method SortBelow(addrs: array<nat>, min: int, ghost max: int, mid: int)
    requires 0 <= min <= mid <= max < addrs.Length
    requires Fenced(addrs[..], min, mid - 1) && Fenced(addrs[..], min, max) && Split(addrs[..], min, max, mid)
    modifies addrs
    ensures Permuted(old(addrs[..]), addrs[..], min, mid) && SortedFrom(addrs[..], min, mid)
    ensures Fenced(addrs[..], mid + 1, max) && Split(addrs[..], min, max, mid)
    decreases max - min, 0
  {
    ghost var t := addrs[..];
    QuickSort(addrs, min, mid - 1);
    FenceAbove(t, addrs[..], min, max, mid);
  }

  method QuickSort(addrs: array<nat>, min: int, max: int)
    requires 0 <= min <= max + 1 <= addrs.Length && Fenced(addrs[..], min, max)
    modifies addrs
    ensures Permuted(old(addrs[..]), addrs[..], min, max + 1)
    ensures SortedFrom(addrs[..], min, max + 1)
    decreases max - min, 1
  {
    if max - min > SORT_THRESHOLD {
      ghost var s := addrs[..];
      var mid := PartitionFenced(addrs, min, max);
      ghost var t := addrs[..];
      SortBelow(addrs, min, max, mid);
      ghost var u := addrs[..];
      QuickSort(addrs, mid + 1, max);
      QuickSortDone(s, t, u, addrs[..], min, max, mid);
    } else {
      InsertionSort(addrs, min, max);
    }
  }

  /** forkscan_util_sort */
  method Sort(a: array<nat>, length: nat)
    requires length <= a.Length
    modifies a
    ensures Sorted(a[..length])
    ensures multiset(a[..length]) == multiset(old(a[..length]))
    ensures a[length..] == old(a[length..])
  {
    ghost var s := a[..];
    QuickSort(a, 0, length - 1);
    ghost var t := a[..];
    assert t[0..length] == a[..length] && s[0..length] == old(a[..length]);
    assert t[length..] == a[length..] && s[length..] == old(a[length..]);
  }

  lemma SortedHead(s: seq<nat>, t: seq<nat>)
    requires Sorted(s) && Sorted(t) && multiset(s) == multiset(t) && s != [] && t != []
    ensures s[0] == t[0]
  {
    assert s[0] in multiset(t) && t[0] in multiset(s);
    var i :| 0 <= i < |t| && t[i] == s[0];
    var j :| 0 <= j < |s| && s[j] == t[0];
  }

  lemma TailMultiset(s: seq<nat>)
    requires s != []
    ensures multiset(s[1..]) == multiset(s) - multiset{s[0]}
  {
    assert s == [s[0]] + s[1..];
  }

  /** The sorted array is determined by its elements: two sorted permutations are equal. */
  lemma {:induction false} SortedIsUnique(s: seq<nat>, t: seq<nat>)
    requires Sorted(s) && Sorted(t) && multiset(s) == multiset(t)
    ensures s == t
  {
    assert |multiset(s)| == |s| && |multiset(t)| == |t|;
    if s != [] {
      SortedHead(s, t);
      TailMultiset(s);
      TailMultiset(t);
      SortedIsUnique(s[1..], t[1..]);
      assert s == [s[0]] + s[1..] && t == [t[0]] + t[1..];
    }
  }

  /** A sorted list with each run of equal elements replaced by one. */
  ghost function Dedup(xs: seq<nat>): (d: seq<nat>)
    ensures |d| <= |xs| && (xs != [] ==> d != [] && d[|d| - 1] == xs[|xs| - 1])
  {
    if xs == [] then []
    else
      var d := Dedup(xs[..|xs| - 1]);
      if |xs| > 1 && xs[|xs| - 2] == xs[|xs| - 1] then d else d + [xs[|xs| - 1]]
  }

  lemma {:induction false} DedupIsStrict(xs: seq<nat>)
    requires Sorted(xs)
    ensures StrictlySorted(Dedup(xs))
  {
    if xs != [] {
      DedupIsStrict(xs[..|xs| - 1]);
    }
  }

  lemma {:induction false} DedupKeepsElements(xs: seq<nat>, x: nat)
    ensures x in Dedup(xs) <==> x in xs
  {
    if xs != [] {
      var front := xs[..|xs| - 1];
      DedupKeepsElements(front, x);
      assert xs == front + [xs[|xs| - 1]];
    }
  }

  lemma DedupGrows(s: seq<nat>, k: nat)
    requires 0 < k < |s|
    ensures Dedup(s[..k + 1]) == Dedup(s[..k]) + if s[k] == s[k - 1] then [] else [s[k]]
  {
    assert s[..k + 1][..k] == s[..k];
  }

  /** a[..write + 1] holds the distinct elements of s[..search]; what lies beyond is as in s. */
  ghost predicate Compacted(a: seq<nat>, s: seq<nat>, write: int, search: int) {
    && 0 <= write < search <= |s| == |a|
    && a[..write + 1] == Dedup(s[..search])
    && a[write + 1..] == s[write + 1..]
  }

  lemma CompactStarts(s: seq<nat>)
    requires s != []
    ensures Compacted(s, s, 0, 1)
  {
    assert s[..1][..0] == [] && s[..1] == [s[0]];
  }

  lemma CompactSkips(a: seq<nat>, s: seq<nat>, write: int, search: int)
    requires Compacted(a, s, write, search) && search < |s| && a[search] == a[write]
    ensures Compacted(a, s, write, search + 1)
  {
    CompactReads(a, s, write, search);
    DedupGrows(s, search);
  }

  lemma CompactKeeps(a: seq<nat>, s: seq<nat>, write: int, search: int)
    requires Compacted(a, s, write, search) && search < |s| && a[search] != a[write]
    ensures Compacted(a[write + 1 := a[search]], s, write + 1, search + 1)
  {
    CompactReads(a, s, write, search);
    DedupGrows(s, search);
    var t := a[write + 1 := a[search]];
    assert t[..write + 2] == a[..write + 1] + [s[search]];
    assert t[write + 2..] == a[write + 1..][1..] == s[write + 1..][1..] == s[write + 2..];
  }

  /** The element being looked at is the original one; the last one kept equals the one before it. */
  lemma CompactReads(a: seq<nat>, s: seq<nat>, write: int, search: int)
    requires Compacted(a, s, write, search) && search < |s|
    ensures a[search] == s[search] && a[write] == s[search - 1]
  {
    assert a[write + 1..][search - write - 1] == s[write + 1..][search - write - 1];
    assert a[..write + 1][write] == s[..search][search - 1];
  }

  /** forkscan_util_compact: the distinct elements, in order, move to the front; the rest of the array stays
      as it was.  The result is the number of duplicates. */
  method Compact(a: array<nat>, length: nat) returns (savings: nat)
    requires length <= a.Length
    modifies a
    ensures savings <= length
    ensures a[..length - savings] == Dedup(old(a[..length]))
    ensures a[length - savings..] == old(a[length - savings..])
  {
    if length < 2 {
      assert length == 1 ==> a[..1][..0] == [] && a[..1] == [a[0]];
      return 0;
    }
    ghost var s := a[..];
    var write := 0;
    var search := 1;
    CompactStarts(s);
    while search < length
      invariant search <= length && Compacted(a[..], s, write, search)
    {
      if a[search] == a[write] {
        CompactSkips(a[..], s, write, search);
        search := search + 1;
        continue;
      }
      CompactKeeps(a[..], s, write, search);
      ghost var t := a[..][write + 1 := a[search]];
      write := write + 1;
      if write < search {
        a[write] := a[search];
      }
      assert a[..] == t;
      search := search + 1;
    }
    assert s[..length] == old(a[..length]);
    write := write + 1;
    savings := length - write;
  }
}
