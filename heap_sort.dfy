/** Heap sort over a vector of ints: `makeHeap` sifts the value at `index`
    down a max-heap laid out in the prefix `[0, limit)` (children of `p` at
    `2p+1` and `2p+2`), and the driver first builds a heap bottom-up and
    then repeatedly moves the root to the end of the shrinking prefix. */
module HeapSort {
  import opened SortedSeqs

  function Parent(c: nat): (p: nat)
    requires 0 < c
  {
    (c - 1) / 2
  }

  /** Every parent/child pair inside `[0, limit)` whose parent is at
      position `lo` or later is ordered (parent >= child). With `lo == 0`
      the whole prefix is a max-heap. */
  ghost predicate HeapFrom(s: seq<int>, limit: nat, lo: nat)
    requires limit <= |s|
  {
    forall c :: 0 < c < limit && lo <= Parent(c) ==> s[Parent(c)] >= s[c]
  }

  /** As `HeapFrom`, except that the pairs whose parent is `index` may be out of order. */
  ghost predicate HeapFromExcept(s: seq<int>, limit: nat, lo: nat, index: nat)
    requires limit <= |s|
  {
    forall c :: 0 < c < limit && lo <= Parent(c) && Parent(c) != index ==> s[Parent(c)] >= s[c]
  }

  /** When `index` itself has a parent inside the checked region, that parent
      dominates the children of `index` (it dominated them before `index`
      received its current value). */
  ghost predicate ParentDominatesChildren(s: seq<int>, limit: nat, lo: nat, index: nat)
    requires limit <= |s|
  {
    0 < index && lo <= Parent(index) && index < |s| ==>
      forall c :: 0 < c < limit && Parent(c) == index ==> s[Parent(index)] >= s[c]
  }

  /** The position among `index` and its children (inside `limit`) that
      `makeHeap` swaps with `index`: comparisons are strict, so a tie keeps
      `index`, and the left child is kept over an equal right child. */
  function Largest(s: seq<int>, limit: nat, index: nat): (m: nat)
    requires limit <= |s|
    ensures m == index || (index < m < limit && Parent(m) == index)
    ensures m < limit ==> forall c :: 0 < c < limit && Parent(c) == index ==> s[c] <= s[m]
    ensures m == index <==> forall c :: 0 < c < limit && Parent(c) == index ==> s[c] <= s[index]
    ensures m != index ==> s[index] < s[m]
    ensures m == 2 * index + 2 ==> s[2 * index + 1] < s[m]
  {
    var left, right := 2 * index + 1, 2 * index + 2;
    var afterLeft := if left < limit && s[left] > s[index] then left else index;
    if right < limit && s[right] > s[afterLeft] then right else afterLeft
  }

  /** The value `makeHeap(a, limit, index)` leaves in the vector. */
  function SiftDown(s: seq<int>, limit: nat, index: nat): (r: seq<int>)
    requires limit <= |s|
    ensures |r| == |s|
    decreases limit - index
  {
    var m := Largest(s, limit, index);
    if m == index then s else SiftDown(Swapped(s, index, m), limit, m)
  }

  /** Sift-down only exchanges elements. */
  lemma {:induction false} SiftDownPermutes(s: seq<int>, limit: nat, index: nat)
    requires limit <= |s|
    ensures multiset(SiftDown(s, limit, index)) == multiset(s)
    decreases limit - index
  {
    var m := Largest(s, limit, index);
    if m != index {
      SiftDownPermutes(Swapped(s, index, m), limit, m);
    }
  }

  /** Sift-down leaves every position before `index` and every position at
      or after `limit` untouched. */
  lemma {:induction false} SiftDownFrame(s: seq<int>, limit: nat, index: nat, k: nat)
    requires limit <= |s| && k < |s|
    requires k < index || limit <= k
    ensures SiftDown(s, limit, index)[k] == s[k]
    decreases limit - index
  {
    var m := Largest(s, limit, index);
    if m != index {
      SiftDownFrame(Swapped(s, index, m), limit, m, k);
    }
  }

  /** Sift-down restores the heap order: if every pair with parent at `lo`
      or later is ordered except the pairs at `index`, afterwards all of them
      are. With `lo == index` this is the textbook statement: when everything
      below `index` is a heap, after the call everything from `index` on is. */
  lemma {:induction false} SiftDownRestoresHeap(s: seq<int>, limit: nat, lo: nat, index: nat)
    requires limit <= |s| && lo <= index
    requires HeapFromExcept(s, limit, lo, index)
    requires ParentDominatesChildren(s, limit, lo, index)
    ensures HeapFrom(SiftDown(s, limit, index), limit, lo)
    decreases limit - index
  {
    var m := Largest(s, limit, index);
    if m != index {
      var t := Swapped(s, index, m);
      forall c | 0 < c < limit && lo <= Parent(c) && Parent(c) != m
        ensures t[Parent(c)] >= t[c]
      {
        var p := Parent(c);
        if p == index {
          assert t[p] == s[m];
        } else if c == index {
          assert s[p] >= s[m];
        } else {
          assert t[p] == s[p] && t[c] == s[c];
        }
      }
      forall c | 0 < c < limit && Parent(c) == m
        ensures t[Parent(m)] >= t[c]
      {
        assert c != index && c != m;
      }
      SiftDownRestoresHeap(t, limit, lo, m);
    }
  }

  /** In a max-heap every element of the prefix is at most the root. */
  lemma {:induction false} HeapRootIsMax(s: seq<int>, limit: nat, k: nat)
    requires limit <= |s| && HeapFrom(s, limit, 0) && k < limit
    ensures s[k] <= s[0]
    decreases k
  {
    if k > 0 {
      HeapRootIsMax(s, limit, Parent(k));
    }
  }

  /** Sift-down from the root of `[0, limit)` rearranges that prefix among
      itself and keeps the rest of the sequence. */
  lemma SiftDownSplits(t: seq<int>, limit: nat)
    requires limit <= |t|
    ensures var r := SiftDown(t, limit, 0);
      r[limit..] == t[limit..] && multiset(r[..limit]) == multiset(t[..limit])
  {
    var r: seq<int> := SiftDown(t, limit, 0);
    forall k | limit <= k < |t| ensures r[k] == t[k] {
      SiftDownFrame(t, limit, 0, k);
    }
    assert r[limit..] == t[limit..];
    SiftDownPermutes(t, limit, 0);
    SamePrefixMultiset(r, t, limit);
  }

  /** Swapping the root of the heap `s[0..i]` with position `i` puts the
      prefix maximum at `i` and leaves `[0, i)` a heap except at its root. */
  lemma SwapRootToEnd(s: seq<int>, i: nat)
    requires 1 <= i < |s| && HeapFrom(s, i + 1, 0)
    ensures var t := Swapped(s, 0, i);
      && AllAtMost(t[..i], t[i]) && HeapFromExcept(t, i, 0, 0)
      && AllAtMost(s[..i + 1], t[i]) && t[i..] == [s[0]] + s[i + 1..]
  {
    var t: seq<int> := Swapped(s, 0, i);
    forall k | 0 <= k <= i ensures s[k] <= s[0] {
      HeapRootIsMax(s, i + 1, k);
    }
    forall c | 0 < c < i && Parent(c) != 0 ensures t[Parent(c)] >= t[c] {
      assert t[Parent(c)] == s[Parent(c)] && t[c] == s[c];
    }
    assert t[i..] == [s[0]] + s[i + 1..];
  }

  /** What the sort loop keeps with `i` the last position of the heap
      prefix: `[0, i]` is a max-heap, the suffix after it is sorted, and no
      element of the prefix is above the first element of that suffix. */
  ghost predicate SortLoop(s: seq<int>, i: int)
  {
    && -1 <= i < |s|
    && HeapFrom(s, i + 1, 0)
    && Sorted(s[i + 1..])
    && (i + 1 < |s| ==> AllAtMost(s[..i + 1], s[i + 1]))
  }

  /** One round of the sort loop: moving the root of the heap `s[0..i]` to
      position `i` and sifting the new root down `[0, i)` shrinks the heap
      by one and grows the sorted suffix by one. */
  lemma SortStep(s: seq<int>, i: nat)
    requires 1 <= i && SortLoop(s, i)
    ensures SortLoop(SiftDown(Swapped(s, 0, i), i, 0), i - 1)
  {
    var t: seq<int> := Swapped(s, 0, i);
    var r: seq<int> := SiftDown(t, i, 0);
    SwapRootToEnd(s, i);
    SiftDownRestoresHeap(t, i, 0, 0);
    SiftDownSplits(t, i);
    SortedCons(s[0], s[i + 1..]);
    AtMostPermutes(t[..i], r[..i], t[i]);
  }

  /** Once the heap prefix is down to one cell (or the vector is empty),
      the whole vector is sorted. */
  lemma SortLoopDone(s: seq<int>, i: int)
    requires SortLoop(s, i) && i <= 0
    ensures Sorted(s)
  {
    if i == -1 {
      assert s[0..] == s;
    } else if |s| > 1 {
      SortedCons(s[0], s[1..]);
      assert s == [s[0]] + s[1..];
    }
  }

  /** The cells from `|s| / 2` on have no children inside `s`, so the heap
      order holds there before any sifting. */
  lemma LeavesAreHeaps(s: seq<int>)
    ensures HeapFrom(s, |s|, |s| / 2)
  {
    forall c | 0 < c < |s| ensures Parent(c) < |s| / 2 {
    }
  }

  /** `makeHeap`: sift the value at `index` down the heap held in `a[0..limit)`. */
  method MakeHeap(a: array<int>, limit: nat, index: nat)
    requires limit <= a.Length
    modifies a
    ensures a[..] == SiftDown(old(a[..]), limit, index)
    ensures multiset(a[..]) == multiset(old(a[..]))
    ensures forall k :: 0 <= k < a.Length && (k < index || limit <= k) ==> a[k] == old(a[k])
    decreases limit - index
  {
    ghost var before := a[..];
    var leftIndex := index * 2 + 1;
    var rightIndex := index * 2 + 2;

    var largestIndex := index;
    if leftIndex < limit && a[leftIndex] > a[largestIndex] {
      largestIndex := leftIndex;
    }
    if rightIndex < limit && a[rightIndex] > a[largestIndex] {
      largestIndex := rightIndex;
    }
    assert largestIndex == Largest(before, limit, index);

    if largestIndex == index {
      return;
    }

    var tmp := a[index];
    a[index] := a[largestIndex];
    a[largestIndex] := tmp;
    assert a[..] == Swapped(before, index, largestIndex);
    MakeHeap(a, limit, largestIndex);
    SiftDownPermutes(before, limit, index);
    forall k | 0 <= k < a.Length && (k < index || limit <= k) ensures a[k] == before[k] {
      SiftDownFrame(before, limit, index, k);
    }
  }

  /** The first loop of the driver: sift down every cell that has a child,
      from the last of them back to the root, which leaves a max-heap. */
  method BuildHeap(a: array<int>)
    modifies a
    ensures HeapFrom(a[..], a.Length, 0)
    ensures multiset(a[..]) == multiset(old(a[..]))
  {
    ghost var orig := a[..];
    var n := a.Length;
    LeavesAreHeaps(a[..]);
    var i: int := n / 2 - 1;
    while i >= 0
      invariant -1 <= i <= n / 2 - 1
      invariant HeapFrom(a[..], n, i + 1)
      invariant multiset(a[..]) == multiset(orig)
    {
      ghost var before := a[..];
      MakeHeap(a, n, i);
      SiftDownRestoresHeap(before, n, i, i);
      i := i - 1;
    }
  }

  /** The second loop of the driver: swap the root of the heap with the
      last cell of the heap prefix and sift the new root down the shorter
      prefix, until the prefix is a single cell. */
  method SortHeap(a: array<int>)
    requires HeapFrom(a[..], a.Length, 0)
    modifies a
    ensures Sorted(a[..])
    ensures multiset(a[..]) == multiset(old(a[..]))
  {
    ghost var orig := a[..];
    var i: int := a.Length - 1;
    while i >= 1
      invariant SortLoop(a[..], i)
      invariant multiset(a[..]) == multiset(orig)
    {
      ghost var before := a[..];
      var tmp := a[0];
      a[0] := a[i];
      a[i] := tmp;
      assert a[..] == Swapped(before, 0, i);
      MakeHeap(a, i, 0);
      SortStep(before, i);
      i := i - 1;
    }
    SortLoopDone(a[..], i);
  }

  /** The driver: heap sort sorts the vector and only rearranges it. */
  method HeapSort(a: array<int>)
    modifies a
    ensures Sorted(a[..])
    ensures multiset(a[..]) == multiset(old(a[..]))
  {
    BuildHeap(a);
    SortHeap(a);
  }
}
