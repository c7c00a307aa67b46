/** Quicksort over a vector of ints with Lomuto partitioning: the pivot is
    the last cell of the half-open range `[lo, up)`, and the right-hand
    recursion covers `[p, up)`, pivot included. */
module QuickSort {
  import opened SortedSeqs

  /** How many of the cells `s[lo..up)` hold a value at most `x`. */
  function CountAtMost(s: seq<int>, lo: nat, up: nat, x: int): (n: nat)
    requires lo <= up <= |s|
    ensures n <= up - lo
    decreases up - lo
  {
    if up == lo then 0
    else CountAtMost(s, lo, up - 1, x) + (if s[up - 1] <= x then 1 else 0)
  }

  /** No cell of `s[lo..up)` is at most `x` exactly when the count is zero. */
  lemma {:induction false} CountAtMostZero(s: seq<int>, lo: nat, up: nat, x: int)
    requires lo <= up <= |s|
    ensures CountAtMost(s, lo, up, x) == 0 <==> forall k :: lo <= k < up ==> s[k] > x
    decreases up - lo
  {
    if up > lo {
      CountAtMostZero(s, lo, up - 1, x);
    }
  }

  /** Putting a sorted run of values at most `x` before a sorted run of
      values at least `x` gives a sorted sequence. */
  lemma SortedAround(u: seq<int>, v: seq<int>, x: int)
    requires Sorted(u) && Sorted(v) && AllAtMost(u, x) && AllAtLeast(v, x)
    ensures Sorted(u + v)
  {
    var w := u + v;
    forall k, m | 0 <= k < m < |w| ensures w[k] <= w[m] {
      if k < |u| <= m {
        assert w[k] == u[k] && w[m] == v[m - |u|];
      }
    }
  }

  /** `swap`: exchange two cells (the same cell twice leaves it as it is). */
  method Swap(a: array<int>, i: nat, j: nat)
    requires i < a.Length && j < a.Length
    modifies a
    ensures a[..] == Swapped(old(a[..]), i, j)
  {
    var tmp := a[i];
    a[i] := a[j];
    a[j] := tmp;
  }

  /** `t` is `orig` with the cells of `[lo, up)` rearranged among
      themselves: that range holds the same multiset of values and every
      cell outside it is where it was. */
  ghost predicate Rearranged(t: seq<int>, orig: seq<int>, lo: nat, up: nat)
  {
    && lo <= up <= |t| == |orig|
    && multiset(t[lo..up]) == multiset(orig[lo..up])
    && t[..lo] == orig[..lo] && t[up..] == orig[up..]
  }

  /** Exchanging two cells of `[lo, up)` rearranges that range. */
  lemma SwapRearranges(s: seq<int>, i: nat, j: nat, lo: nat, up: nat)
    requires lo <= i < up && lo <= j < up && up <= |s|
    ensures Rearranged(Swapped(s, i, j), s, lo, up)
  {
    var t := Swapped(s, i, j);
    SwappedSliceMultiset(s, i, j, lo, up);
    assert t[..lo] == s[..lo];
    assert t[up..] == s[up..];
  }

  /** Two rearrangements of the same range in a row are one. */
  lemma RearrangedTrans(u: seq<int>, t: seq<int>, s: seq<int>, lo: nat, up: nat)
    requires Rearranged(u, t, lo, up) && Rearranged(t, s, lo, up)
    ensures Rearranged(u, s, lo, up)
  {
  }

  /** A rearrangement of `[a, b)` is also one of any range around it. */
  lemma RearrangedWiden(t: seq<int>, s: seq<int>, lo: nat, a: nat, b: nat, up: nat)
    requires lo <= a && b <= up <= |t| && Rearranged(t, s, a, b)
    ensures Rearranged(t, s, lo, up)
  {
    assert t[lo..up] == t[lo..a] + t[a..b] + t[b..up];
    assert s[lo..up] == s[lo..a] + s[a..b] + s[b..up];
    assert t[lo..a] == t[..a][lo..] && s[lo..a] == s[..a][lo..];
    assert t[b..up] == t[b..][..up - b] && s[b..up] == s[b..][..up - b];
    assert t[..lo] == t[..a][..lo] && s[..lo] == s[..a][..lo];
    assert t[up..] == t[b..][up - b..] && s[up..] == s[b..][up - b..];
  }

  /** The state of `partition` after the cells `[lo, j)` have been scanned:
      `[lo, i)` holds the scanned elements at most the pivot, `[i, j)` the
      scanned elements above it, the unscanned cells still hold their
      original values, and the range has only been rearranged. */
  ghost predicate Scanned(s: seq<int>, orig: seq<int>, lo: nat, up: nat, i: nat, j: nat, pivot: int)
  {
    && lo <= i <= j < up <= |s| == |orig|
    && (forall k :: lo <= k < i ==> s[k] <= pivot)
    && (forall k :: i <= k < j ==> s[k] > pivot)
    && s[j..] == orig[j..]
    && Rearranged(s, orig, lo, up)
    && i == lo + CountAtMost(orig, lo, j, pivot)
  }

  /** Before the scan nothing is scanned and nothing has moved. */
  lemma ScanStart(orig: seq<int>, lo: nat, up: nat, pivot: int)
    requires lo < up <= |orig|
    ensures Scanned(orig, orig, lo, up, lo, lo, pivot)
  {
  }

  /** One iteration of the scan keeps `Scanned`, with `i` advanced exactly
      when the cell at `j` is at most the pivot. */
  lemma ScanStep(s: seq<int>, orig: seq<int>, lo: nat, up: nat, i: nat, j: nat, pivot: int)
    requires Scanned(s, orig, lo, up, i, j, pivot) && j < up - 1
    ensures s[j] <= pivot ==> Scanned(Swapped(s, i, j), orig, lo, up, i + 1, j + 1, pivot)
    ensures s[j] > pivot ==> Scanned(s, orig, lo, up, i, j + 1, pivot)
  {
    assert s[j] == s[j..][0] == orig[j];
    assert s[j + 1..] == s[j..][1..] && orig[j + 1..] == orig[j..][1..];
    if s[j] <= pivot {
      var t := Swapped(s, i, j);
      SwapRearranges(s, i, j, lo, up);
      RearrangedTrans(t, s, orig, lo, up);
      assert t[j + 1..] == s[j + 1..];
    }
  }

  /** What `partition` promises of the vector `t` it leaves behind, the
      vector `orig` it was given and the position `i` it returns: `i` is `lo`
      plus the number of elements of `orig[lo..up - 1]` at most the pivot
      `orig[up - 1]`; the pivot sits at `i`, everything in `[lo, i)` is at
      most it and everything in `(i, up)` is above it; and the range has only
      been rearranged. */
  ghost predicate PartitionedAt(t: seq<int>, orig: seq<int>, lo: nat, up: nat, i: nat)
  {
    && lo <= i < up <= |t| == |orig|
    && i == lo + CountAtMost(orig, lo, up - 1, orig[up - 1])
    && t[i] == orig[up - 1]
    && AllAtMost(t[lo..i], t[i])
    && AllAbove(t[i + 1..up], t[i])
    && Rearranged(t, orig, lo, up)
  }

  /** Exchanging the pivot at `up - 1` with the first cell above it puts it
      between the cells at most it and the cells above it. */
  lemma PivotBetween(s: seq<int>, lo: nat, up: nat, i: nat, pivot: int)
    requires lo <= i < up <= |s| && s[up - 1] == pivot
    requires forall k :: lo <= k < i ==> s[k] <= pivot
    requires forall k :: i <= k < up - 1 ==> s[k] > pivot
    ensures var t := Swapped(s, i, up - 1);
      t[i] == pivot && AllAtMost(t[lo..i], pivot) && AllAbove(t[i + 1..up], pivot)
  {
    var t := Swapped(s, i, up - 1);
    var below, above := t[lo..i], t[i + 1..up];
    forall k | 0 <= k < |below| ensures below[k] <= pivot {
      assert below[k] == s[lo + k];
    }
    forall k | 0 <= k < |above| ensures pivot < above[k] {
      assert above[k] == t[i + 1 + k];
    }
  }

  /** The final exchange of `partition` puts the pivot between the two groups. */
  lemma PlacePivot(s: seq<int>, orig: seq<int>, lo: nat, up: nat, i: nat)
    requires lo < up <= |orig| && Scanned(s, orig, lo, up, i, up - 1, orig[up - 1])
    ensures PartitionedAt(Swapped(s, i, up - 1), orig, lo, up, i)
  {
    var t := Swapped(s, i, up - 1);
    assert s[up - 1] == s[up - 1..][0] == orig[up - 1];
    PivotBetween(s, lo, up, i, orig[up - 1]);
    SwapRearranges(s, i, up - 1, lo, up);
    RearrangedTrans(t, s, orig, lo, up);
  }

  /** The loop of `partition`: one left-to-right pass over `[lo, up - 1)`
      that moves every element at most `pivot` to the front of the range;
      returns where the elements above the pivot begin. */
  method PartitionScan(a: array<int>, lo: nat, up: nat, pivot: int) returns (i: nat)
    requires lo < up <= a.Length
    modifies a
    ensures Scanned(a[..], old(a[..]), lo, up, i, up - 1, pivot)
  {
    ghost var orig := a[..];
    ScanStart(orig, lo, up, pivot);
    i := lo;
    var j := lo;
    while j < up - 1
      invariant Scanned(a[..], orig, lo, up, i, j, pivot)
    {
      ScanStep(a[..], orig, lo, up, i, j, pivot);
      if a[j] <= pivot {
        Swap(a, i, j);
        i := i + 1;
      }
      j := j + 1;
    }
  }

  /** `partition`: move every element of `[lo, up - 1)` that is at most the
      pivot `a[up - 1]` to the front of the range, then put the pivot right
      after them and return its position. */
  method Partition(a: array<int>, lo: nat, up: nat) returns (i: nat)
    requires lo < up <= a.Length
    modifies a
    ensures PartitionedAt(a[..], old(a[..]), lo, up, i)
  {
    ghost var orig := a[..];
    var pivot := a[up - 1];
    i := PartitionScan(a, lo, up, pivot);
    ghost var scanned := a[..];
    PlacePivot(scanned, orig, lo, up, i);
    Swap(a, i, up - 1);
  }

  /** `t` is `orig` with the range `[lo, up)` sorted in place: that range is
      ascending and has only been rearranged. */
  ghost predicate SortedWithin(t: seq<int>, orig: seq<int>, lo: nat, up: nat)
  {
    && lo <= up <= |t| == |orig|
    && Sorted(t[lo..up])
    && Rearranged(t, orig, lo, up)
  }

  /** Sorting the two sides of a pivot at `p` in place, the left one first,
      gives an ascending range: the left side keeps its values, all at most
      the pivot, and the right side, pivot first, only values at least it. */
  lemma SortedHalves(parted: seq<int>, leftDone: seq<int>, t: seq<int>, lo: nat, p: nat, up: nat)
    requires lo <= p < up <= |parted|
    requires AllAtMost(parted[lo..p], parted[p]) && AllAbove(parted[p + 1..up], parted[p])
    requires Rearranged(leftDone, parted, lo, p) && Sorted(leftDone[lo..p])
    requires Rearranged(t, leftDone, p, up) && Sorted(t[p..up])
    ensures Sorted(t[lo..up])
  {
    var pivot := parted[p];
    AtMostPermutes(parted[lo..p], leftDone[lo..p], pivot);
    assert t[lo..p] == t[..p][lo..] == leftDone[..p][lo..] == leftDone[lo..p];
    assert leftDone[p..up] == leftDone[p..][..up - p] == parted[p..][..up - p] == parted[p..up];
    forall k | 0 <= k < up - p ensures pivot <= parted[p..up][k] {
      if k > 0 {
        assert parted[p..up][k] == parted[p + 1..up][k - 1];
      }
    }
    AtLeastPermutes(leftDone[p..up], t[p..up], pivot);
    assert t[lo..up] == t[lo..p] + t[p..up];
    SortedAround(t[lo..p], t[p..up], pivot);
  }

  /** Sorting both sides of a partition sorts the whole range. */
  lemma SortBothSides(orig: seq<int>, parted: seq<int>, leftDone: seq<int>, t: seq<int>, lo: nat, p: nat, up: nat)
    requires PartitionedAt(parted, orig, lo, up, p)
    requires SortedWithin(leftDone, parted, lo, p)
    requires SortedWithin(t, leftDone, p, up)
    ensures SortedWithin(t, orig, lo, up)
  {
    SortedHalves(parted, leftDone, t, lo, p, up);
    RearrangedWiden(leftDone, parted, lo, lo, p, up);
    RearrangedWiden(t, leftDone, lo, p, up, up);
    RearrangedTrans(t, leftDone, parted, lo, up);
    RearrangedTrans(t, parted, orig, lo, up);
  }

  /** `quickSort`: sort `a[lo..up)` in place. When the partition lands the
      pivot at `lo`, the right-hand call re-enters the very same range, but
      then with `a[lo] <= a[up - 1]`, so its own partition lands further
      right: hence the second component of the termination measure. */
  method QuickSort(a: array<int>, lo: nat, up: nat)
    requires lo <= up <= a.Length
    modifies a
    ensures SortedWithin(a[..], old(a[..]), lo, up)
    ensures up - lo < 2 ==> a[..] == old(a[..])
    decreases up - lo, if up - lo >= 2 && a[lo] <= a[up - 1] then 0 else 1
  {
    if up - lo < 2 {
      return;
    }

    ghost var orig := a[..];
    var p := Partition(a, lo, up);
    ghost var parted := a[..];
    CountAtMostZero(orig, lo, up - 1, orig[up - 1]);
    QuickSort(a, lo, p);
    ghost var leftDone := a[..];
    if p == lo {
      // the right-hand call re-enters [lo, up): every cell before the pivot
      // was above it, and now the pivot sits at `lo`, below `a[up - 1]`
      assert orig[lo] > orig[up - 1];
      assert leftDone == parted;
      assert a[up - 1] == parted[p + 1..up][up - p - 2] > a[lo];
    }
    QuickSort(a, p, up);
    SortBothSides(orig, parted, leftDone, a[..], lo, p, up);
  }

  /** The program's call: sort the whole vector. */
  method QuickSortAll(a: array<int>)
    modifies a
    ensures Sorted(a[..])
    ensures multiset(a[..]) == multiset(old(a[..]))
  {
    QuickSort(a, 0, a.Length);
    assert a[0..a.Length] == a[..] && old(a[..])[0..a.Length] == old(a[..]);
  }
}
