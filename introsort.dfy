/**
 * The in-place introsort of the shared `common` crate: quicksort with a last-element
 * (Lomuto) partition, falling back to heapsort once the depth budget is spent and to
 * insertion sort on short ranges. A Rust sub-slice `arr[lo..hi]` is the range
 * `[lo, hi)` of one array here; every method permutes the elements of its range and
 * leaves the rest of the array alone.
 */
module Introsort {

  ghost predicate SortedRange(s: seq<int>, lo: int, hi: int)
    requires 0 <= lo <= hi <= |s|
  {
    forall i, j :: lo <= i < j < hi ==> s[i] <= s[j]
  }

  /** `t` differs from `s` at most inside `[lo, hi)`. */
  ghost predicate SameOutside(s: seq<int>, t: seq<int>, lo: int, hi: int)
  {
    |s| == |t| && forall k :: 0 <= k < |s| && (k < lo || hi <= k) ==> s[k] == t[k]
  }

  /** `s` is a permutation of `t` that moved nothing outside `[lo, hi)`. */
  ghost predicate Perm(s: seq<int>, t: seq<int>, lo: int, hi: int)
  {
    multiset(s) == multiset(t) && SameOutside(s, t, lo, hi)
  }

  lemma PermTrans(s: seq<int>, t: seq<int>, u: seq<int>, lo: int, hi: int, lo': int, hi': int)
    requires lo <= lo' <= hi' <= hi
    requires Perm(s, t, lo', hi') && Perm(t, u, lo, hi)
    ensures Perm(s, u, lo, hi)
  {
  }

  /** A permutation that leaves everything outside `[lo, hi)` in place permutes `[lo, hi)`. */
  lemma RangePermutation(s: seq<int>, t: seq<int>, lo: int, hi: int)
    requires 0 <= lo <= hi <= |s| && SameOutside(s, t, lo, hi)
    requires multiset(s) == multiset(t)
    ensures multiset(s[lo..hi]) == multiset(t[lo..hi])
  {
    assert s == s[..lo] + s[lo..hi] + s[hi..];
    assert t == t[..lo] + t[lo..hi] + t[hi..];
    assert s[..lo] == t[..lo];
    assert s[hi..] == t[hi..];
    assert multiset(s) == multiset(s[..lo]) + multiset(s[lo..hi]) + multiset(s[hi..]);
    assert multiset(t) == multiset(t[..lo]) + multiset(t[lo..hi]) + multiset(t[hi..]);
    forall x
      ensures multiset(s[lo..hi])[x] == multiset(t[lo..hi])[x]
    {
      assert multiset(s)[x] == multiset(t)[x];
    }
  }

  /** Elements bounded above inside `[lo, hi)` stay bounded after a permutation of that range. */
  lemma AtMostCarries(s: seq<int>, t: seq<int>, lo: int, hi: int, b: int)
    requires 0 <= lo <= hi <= |s| && Perm(s, t, lo, hi)
    requires forall k :: lo <= k < hi ==> t[k] <= b
    ensures forall k :: lo <= k < hi ==> s[k] <= b
  {
    RangePermutation(s, t, lo, hi);
    forall k | lo <= k < hi
      ensures s[k] <= b
    {
      assert s[k] == s[lo..hi][k - lo];
      assert s[k] in multiset(t[lo..hi]);
      var j :| 0 <= j < hi - lo && t[lo..hi][j] == s[k];
      assert t[lo + j] == s[k];
    }
  }

  /** Elements bounded below inside `[lo, hi)` stay bounded after a permutation of that range. */
  lemma AboveCarries(s: seq<int>, t: seq<int>, lo: int, hi: int, b: int)
    requires 0 <= lo <= hi <= |s| && Perm(s, t, lo, hi)
    requires forall k :: lo <= k < hi ==> t[k] > b
    ensures forall k :: lo <= k < hi ==> s[k] > b
  {
    RangePermutation(s, t, lo, hi);
    forall k | lo <= k < hi
      ensures s[k] > b
    {
      assert s[k] == s[lo..hi][k - lo];
      assert s[k] in multiset(t[lo..hi]);
      var j :| 0 <= j < hi - lo && t[lo..hi][j] == s[k];
      assert t[lo + j] == s[k];
    }
  }

  /** Two sorted ranges around a pivot that separates them make one sorted range. */
  lemma JoinSorted(s: seq<int>, lo: int, p: int, hi: int)
    requires 0 <= lo <= p < hi <= |s|
    requires SortedRange(s, lo, p) && SortedRange(s, p + 1, hi)
    requires forall k :: lo <= k < p ==> s[k] <= s[p]
    requires forall k :: p < k < hi ==> s[k] > s[p]
    ensures SortedRange(s, lo, hi)
  {
  }

  /** `t` is `s` with the elements at `x` and `y` exchanged. */
  ghost predicate SwapOf(t: seq<int>, s: seq<int>, x: int, y: int)
  {
    && |t| == |s| && 0 <= x < |s| && 0 <= y < |s|
    && t[x] == s[y] && t[y] == s[x]
    && forall k :: 0 <= k < |s| && k != x && k != y ==> t[k] == s[k]
  }

  /** Exchanging two elements inside `[lo, hi)` keeps a permutation of `orig` that fixes the outside. */
  lemma SwapPerm(t: seq<int>, s: seq<int>, orig: seq<int>, x: int, y: int, lo: int, hi: int)
    requires lo <= x < hi && lo <= y < hi && SwapOf(t, s, x, y) && Perm(s, orig, lo, hi)
    ensures Perm(t, orig, lo, hi)
  {
    assert t == s[x := s[y]][y := s[x]];
  }

  /** Exchanges two elements inside `[lo, hi)`: the only way the sort moves data. */
  method Swap(a: array<int>, x: int, y: int, ghost orig: seq<int>, ghost lo: int, ghost hi: int)
    requires 0 <= lo <= x < hi && lo <= y < hi && hi <= a.Length && Perm(a[..], orig, lo, hi)
    modifies a
    ensures SwapOf(a[..], old(a[..]), x, y)
    ensures Perm(a[..], orig, lo, hi)
  {
    a[x], a[y] := a[y], a[x];
    SwapPerm(a[..], old(a[..]), orig, x, y, lo, hi);
  }

  // ---------------------------------------------------------------------------
  // Depth budget
  // ---------------------------------------------------------------------------

  function Pow2(k: nat): (r: nat)
    ensures r >= 1
  {
    if k == 0 then 1 else 2 * Pow2(k - 1)
  }

  /**
   * `(len as f64).log2().floor() as usize`, in integers: the exponent of the highest power of
   * two not above `n`. For `n == 0` the float is negative infinity, which the cast saturates to 0.
   */
  function FloorLog2(n: nat): (r: nat)
    ensures n >= 1 ==> Pow2(r) <= n < Pow2(r + 1)
    ensures n <= 1 ==> r == 0
  {
    if n <= 1 then 0 else 1 + FloorLog2(n / 2)
  }

  /** The depth budget `introsort` starts from. */
  function MaxDepth(len: nat): (r: nat)
    ensures len >= 1 ==> Pow2(r / 2) <= len < Pow2(r / 2 + 1)
    ensures r % 2 == 0
  {
    2 * FloorLog2(len)
  }

  // ---------------------------------------------------------------------------
  // Insertion sort
  // ---------------------------------------------------------------------------

  /**
   * While `insertion_sort` moves the element now at `j` left through `s[lo..i + 1]`: the range
   * is sorted apart from that element, which is smaller than everything to its right.
   */
  ghost predicate Inserting(s: seq<int>, lo: int, i: int, j: int)
    requires 0 <= lo <= j <= i < |s|
  {
    && (forall x, y :: lo <= x < y <= i && x != j && y != j ==> s[x] <= s[y])
    && (forall y :: j < y <= i ==> s[j] < s[y])
  }

  lemma InsertStart(s: seq<int>, lo: int, i: int)
    requires 0 <= lo <= i < |s| && SortedRange(s, lo, i)
    ensures Inserting(s, lo, i, i)
  {
  }

  lemma InsertStep(s: seq<int>, t: seq<int>, lo: int, i: int, j: int)
    requires 0 <= lo < j <= i < |s| && Inserting(s, lo, i, j) && s[j - 1] > s[j]
    requires SwapOf(t, s, j - 1, j)
    ensures Inserting(t, lo, i, j - 1)
  {
  }

  lemma InsertDone(s: seq<int>, lo: int, i: int, j: int)
    requires 0 <= lo <= j <= i < |s| && Inserting(s, lo, i, j)
    requires j == lo || s[j - 1] <= s[j]
    ensures SortedRange(s, lo, i + 1)
  {
    if j > lo {
      forall x | lo <= x < j
        ensures s[x] <= s[j]
      {
        if x < j - 1 {
          assert s[x] <= s[j - 1];
        }
      }
    }
  }

  /** `insertion_sort` on `a[lo..hi]`: sorts the range by adjacent swaps. */
  method InsertionSort(a: array<int>, lo: int, hi: int)
    requires 0 <= lo <= hi <= a.Length
    modifies a
    ensures SortedRange(a[..], lo, hi)
    ensures Perm(a[..], old(a[..]), lo, hi)
  {
    ghost var orig := a[..];
    if lo == hi {
      return;
    }
    for i := lo + 1 to hi
      invariant SortedRange(a[..], lo, i)
      invariant Perm(a[..], orig, lo, hi)
    {
      var j := i;
      InsertStart(a[..], lo, i);
      while j > lo && a[j - 1] > a[j]
        invariant lo <= j <= i
        invariant Inserting(a[..], lo, i, j)
        invariant Perm(a[..], orig, lo, hi)
      {
        ghost var before := a[..];
        Swap(a, j - 1, j, orig, lo, hi);
        InsertStep(before, a[..], lo, i, j);
        j := j - 1;
      }
      InsertDone(a[..], lo, i, j);
    }
  }

  // ---------------------------------------------------------------------------
  // Partition
  // ---------------------------------------------------------------------------

  /**
   * `partition` on `a[lo..hi]` with the last element as pivot: returns the pivot's final
   * position `p`, with everything before it at most the pivot and everything after it greater.
   */
  method Partition(a: array<int>, lo: int, hi: int) returns (p: int)
    requires 0 <= lo < hi <= a.Length
    modifies a
    ensures lo <= p < hi
    ensures a[p] == old(a[hi - 1])
    ensures forall k :: lo <= k < p ==> a[k] <= a[p]
    ensures forall k :: p < k < hi ==> a[k] > a[p]
    ensures Perm(a[..], old(a[..]), lo, hi)
  {
    ghost var orig := a[..];
    var pivotIndex := hi - 1;
    var pivot := a[pivotIndex];
    var i := lo;
    for j := lo to pivotIndex
      invariant lo <= i <= j
      invariant a[pivotIndex] == pivot
      invariant forall k :: lo <= k < i ==> a[k] <= pivot
      invariant forall k :: i <= k < j ==> a[k] > pivot
      invariant Perm(a[..], orig, lo, hi)
    {
      if a[j] <= pivot {
        Swap(a, i, j, orig, lo, hi);
        i := i + 1;
      }
    }
    Swap(a, i, pivotIndex, orig, lo, hi);
    p := i;
  }

  // ---------------------------------------------------------------------------
  // Heapsort
  // ---------------------------------------------------------------------------

  /** Node `k` of the heap stored in `s[lo..lo + n]` is at least each of its children. */
  ghost predicate ParentOk(s: seq<int>, lo: int, n: int, k: int)
    requires 0 <= lo && 0 <= n && lo + n <= |s| && 0 <= k
  {
    && (2 * k + 1 < n ==> s[lo + k] >= s[lo + 2 * k + 1])
    && (2 * k + 2 < n ==> s[lo + k] >= s[lo + 2 * k + 2])
  }

  /** `s[lo..lo + n]` is a max-heap. */
  ghost predicate IsHeap(s: seq<int>, lo: int, n: int)
    requires 0 <= lo && 0 <= n && lo + n <= |s|
  {
    forall k :: 0 <= k < n ==> ParentOk(s, lo, n, k)
  }

  /** The root of a max-heap is its largest element. */
  lemma {:induction false} HeapRootMax(s: seq<int>, lo: int, n: int, k: int)
    requires 0 <= lo && 0 <= k < n && lo + n <= |s| && IsHeap(s, lo, n)
    ensures s[lo + k] <= s[lo]
    decreases k
  {
    if k > 0 {
      var parent := (k - 1) / 2;
      HeapRootMax(s, lo, n, parent);
      assert ParentOk(s, lo, n, parent);
    }
  }

  lemma HeapRootMaxAll(s: seq<int>, lo: int, n: int)
    requires 0 <= lo && 0 <= n && lo + n <= |s| && IsHeap(s, lo, n)
    ensures forall x :: lo <= x < lo + n ==> s[x] <= s[lo]
  {
    forall x | lo <= x < lo + n
      ensures s[x] <= s[lo]
    {
      HeapRootMax(s, lo, n, x - lo);
    }
  }

  /**
   * Moving the root of a heap of `i + 1` elements to position `i` leaves a heap of `i`
   * elements whose only possible violation is at the root.
   */
  lemma HeapAfterRootSwap(s: seq<int>, lo: int, i: int, t: seq<int>)
    requires 0 <= lo && 1 <= i && lo + i < |s| && IsHeap(s, lo, i + 1)
    requires SwapOf(t, s, lo, lo + i)
    ensures forall k :: 0 < k < i ==> ParentOk(t, lo, i, k)
  {
    forall k | 0 < k < i
      ensures ParentOk(t, lo, i, k)
    {
      assert ParentOk(s, lo, i + 1, k);
    }
  }

  /**
   * The state of a sift-down that started at node `i` and has reached node `c`: every other
   * node from `i` on dominates its children, and the parent of `c` dominates `c`'s children.
   */
  ghost predicate SiftInv(s: seq<int>, lo: int, n: int, i: int, c: int)
    requires 0 <= lo && 0 <= i <= c && lo + n <= |s|
  {
    && (forall k :: i <= k < n && k != c ==> ParentOk(s, lo, n, k))
    && (c > i && 2 * c + 1 < n ==> s[lo + (c - 1) / 2] >= s[lo + 2 * c + 1])
    && (c > i && 2 * c + 2 < n ==> s[lo + (c - 1) / 2] >= s[lo + 2 * c + 2])
  }

  /** `m` is the largest of node `c` and its children in the heap `s[lo..lo + n]`, the first one on a tie. */
  ghost predicate LargestOfThree(s: seq<int>, lo: int, n: int, c: int, m: int)
    requires 0 <= lo && 0 <= c < n && lo + n <= |s|
  {
    && (m == c || ((m == 2 * c + 1 || m == 2 * c + 2) && m < n && s[lo + m] > s[lo + c]))
    && (2 * c + 1 < n ==> s[lo + m] >= s[lo + 2 * c + 1])
    && (2 * c + 2 < n ==> s[lo + m] >= s[lo + 2 * c + 2])
  }

  /** The choice at the top of `heapify`'s loop: node `c` or whichever of its children is larger. */
  method LargestOf(a: array<int>, lo: int, n: int, c: int) returns (largest: int)
    requires 0 <= lo && 0 <= c < n && lo + n <= a.Length
    ensures LargestOfThree(a[..], lo, n, c, largest)
  {
    var left, right := 2 * c + 1, 2 * c + 2;
    largest := c;
    if left < n && a[lo + left] > a[lo + largest] {
      largest := left;
    }
    if right < n && a[lo + right] > a[lo + largest] {
      largest := right;
    }
  }

  /**
   * One step of the sift-down: exchanging node `c` with its larger child `m` fixes `c`, and
   * the only node left to check is `m`, whose parent now dominates its children.
   */
  lemma SiftStep(s: seq<int>, lo: int, n: int, i: int, c: int, m: int, t: seq<int>)
    requires 0 <= lo && 0 <= i <= c < n && lo + n <= |s| && SiftInv(s, lo, n, i, c)
    requires LargestOfThree(s, lo, n, c, m) && m != c
    requires SwapOf(t, s, lo + c, lo + m)
    ensures SiftInv(t, lo, n, i, m)
  {
    assert ParentOk(s, lo, n, m);
    forall k | i <= k < n && k != m
      ensures ParentOk(t, lo, n, k)
    {
      if k != c {
        assert ParentOk(s, lo, n, k);
      }
    }
  }

  /** A sift-down stops when `c` dominates its children: every node from `i` on then does. */
  lemma SiftDone(s: seq<int>, lo: int, n: int, i: int, c: int)
    requires 0 <= lo && 0 <= i <= c < n && lo + n <= |s| && SiftInv(s, lo, n, i, c)
    requires LargestOfThree(s, lo, n, c, c)
    ensures forall k :: i <= k < n ==> ParentOk(s, lo, n, k)
  {
    assert ParentOk(s, lo, n, c);
  }

  /**
   * `heapify` on the heap `a[lo..lo + n]`: when every node after `i` already dominates its
   * children, sifting `a[lo + i]` down makes every node from `i` on dominate its children,
   * swapping only inside the heap.
   */
  method Heapify(a: array<int>, lo: int, n: int, i: int)
    requires 0 <= lo && 0 <= i < n && lo + n <= a.Length
    requires forall k :: i < k < n ==> ParentOk(a[..], lo, n, k)
    modifies a
    ensures forall k :: i <= k < n ==> ParentOk(a[..], lo, n, k)
    ensures Perm(a[..], old(a[..]), lo + i, lo + n)
  {
    ghost var orig := a[..];
    var c := i;
    while true
      invariant i <= c < n
      invariant SiftInv(a[..], lo, n, i, c)
      invariant Perm(a[..], orig, lo + i, lo + n)
      decreases n - c
    {
      var largest := LargestOf(a, lo, n, c);
      ghost var before := a[..];
      if largest != c {
        Swap(a, lo + c, lo + largest, orig, lo + i, lo + n);
        SiftStep(before, lo, n, i, c, largest, a[..]);
        c := largest;
      } else {
        SiftDone(a[..], lo, n, i, c);
        break;
      }
    }
  }

  /** Turns `a[lo..hi]` into a max-heap: `heapsort`'s first loop. */
  method BuildHeap(a: array<int>, lo: int, hi: int)
    requires 0 <= lo <= hi <= a.Length
    modifies a
    ensures IsHeap(a[..], lo, hi - lo)
    ensures Perm(a[..], old(a[..]), lo, hi)
  {
    ghost var orig := a[..];
    var n := hi - lo;
    var i := n / 2;
    while i > 0
      invariant 0 <= i <= n / 2
      invariant forall k :: i <= k < n ==> ParentOk(a[..], lo, n, k)
      invariant Perm(a[..], orig, lo, hi)
    {
      i := i - 1;
      Heapify(a, lo, n, i);
    }
  }

  /** Every element of the heap `s[lo..lo + i]` is at most the first element after it, if any. */
  ghost predicate Dominated(s: seq<int>, lo: int, i: int, hi: int)
    requires 0 <= lo && 0 <= i && lo + i <= hi <= |s|
  {
    lo + i < hi ==> forall x :: lo <= x < lo + i ==> s[x] <= s[lo + i]
  }

  /**
   * One round of `heapsort`'s second loop on seqs: `s0` holds a heap of `i + 1` elements
   * below a sorted suffix, `s1` has its root moved to position `i`, and `s2` re-heaps the
   * first `i`. The sorted suffix grows by one and still dominates the heap.
   */
  lemma HeapsortRound(s0: seq<int>, s1: seq<int>, s2: seq<int>, lo: int, i: int, hi: int)
    requires 0 <= lo && 1 <= i && lo + i < hi <= |s0|
    requires IsHeap(s0, lo, i + 1) && SortedRange(s0, lo + i + 1, hi)
    requires Dominated(s0, lo, i + 1, hi)
    requires SwapOf(s1, s0, lo, lo + i)
    requires Perm(s2, s1, lo, lo + i)
    requires forall k :: 0 <= k < i ==> ParentOk(s2, lo, i, k)
    ensures IsHeap(s2, lo, i)
    ensures SortedRange(s2, lo + i, hi)
    ensures Dominated(s2, lo, i, hi)
  {
    HeapRootMaxAll(s0, lo, i + 1);
    assert forall x :: lo <= x < lo + i ==> s1[x] <= s1[lo + i];
    AtMostCarries(s2, s1, lo, lo + i, s1[lo + i]);
  }

  /** A heap of at most one element below a sorted suffix that dominates it: the range is sorted. */
  lemma SortedWhenHeapTiny(s: seq<int>, lo: int, i: int, hi: int)
    requires 0 <= lo && 0 <= i <= 1 && lo + i <= hi <= |s|
    requires SortedRange(s, lo + i, hi) && Dominated(s, lo, i, hi)
    ensures SortedRange(s, lo, hi)
  {
  }

  /** `heapsort`'s second loop: repeatedly moves the heap's root to the front of the sorted suffix. */
  method SortDown(a: array<int>, lo: int, hi: int)
    requires 0 <= lo <= hi <= a.Length && IsHeap(a[..], lo, hi - lo)
    modifies a
    ensures SortedRange(a[..], lo, hi)
    ensures Perm(a[..], old(a[..]), lo, hi)
  {
    ghost var orig := a[..];
    var n := hi - lo;
    var i := n;
    while i > 1
      invariant 0 <= i <= n
      invariant n > 0 ==> 1 <= i
      invariant IsHeap(a[..], lo, i)
      invariant SortedRange(a[..], lo + i, hi)
      invariant Dominated(a[..], lo, i, hi)
      invariant Perm(a[..], orig, lo, hi)
    {
      i := i - 1;
      ghost var s0 := a[..];
      Swap(a, lo, lo + i, orig, lo, hi);
      ghost var s1 := a[..];
      HeapAfterRootSwap(s0, lo, i, s1);
      Heapify(a, lo, i, 0);
      HeapsortRound(s0, s1, a[..], lo, i, hi);
      PermTrans(a[..], s1, orig, lo, hi, lo, lo + i);
    }
    SortedWhenHeapTiny(a[..], lo, i, hi);
  }

  /** `heapsort` on `a[lo..hi]`. */
  method Heapsort(a: array<int>, lo: int, hi: int)
    requires 0 <= lo <= hi <= a.Length
    modifies a
    ensures SortedRange(a[..], lo, hi)
    ensures Perm(a[..], old(a[..]), lo, hi)
  {
    BuildHeap(a, lo, hi);
    SortDown(a, lo, hi);
  }

  // ---------------------------------------------------------------------------
  // Introsort
  // ---------------------------------------------------------------------------

  /** `introsort_recursive` on `a[lo..hi]` with the remaining depth budget. */
  method IntrosortRecursive(a: array<int>, lo: int, hi: int, maxDepth: nat)
    requires 0 <= lo <= hi <= a.Length
    modifies a
    ensures SortedRange(a[..], lo, hi)
    ensures Perm(a[..], old(a[..]), lo, hi)
    ensures hi - lo <= 1 ==> a[..] == old(a[..])
    decreases hi - lo
  {
    var n := hi - lo;
    if n <= 1 {
      return;
    }
    if maxDepth == 0 {
      Heapsort(a, lo, hi);
      return;
    }
    if n <= 16 {
      InsertionSort(a, lo, hi);
      return;
    }
    var p := Partition(a, lo, hi);
    var pivot := a[p];
    ghost var parted := a[..];
    IntrosortRecursive(a, lo, p, maxDepth - 1);
    AtMostCarries(a[..], parted, lo, p, pivot);
    PermTrans(a[..], parted, old(a[..]), lo, hi, lo, p);
    ghost var leftDone := a[..];
    IntrosortRecursive(a, p + 1, hi, maxDepth - 1);
    AboveCarries(a[..], leftDone, p + 1, hi, pivot);
    PermTrans(a[..], leftDone, old(a[..]), lo, hi, p + 1, hi);
    JoinSorted(a[..], lo, p, hi);
  }

  /** `introsort`: sorts the whole array in place. */
  method Introsort(a: array<int>)
    modifies a
    ensures SortedRange(a[..], 0, a.Length)
    ensures multiset(a[..]) == multiset(old(a[..]))
  {
    IntrosortRecursive(a, 0, a.Length, MaxDepth(a.Length));
  }
}
