/** Facts about integer sequences shared by the two sorting routines:
    exchanging two cells, ascending order, and bounds that carry over
    between sequences holding the same multiset of values. */
module SortedSeqs {

  /** `s` with the cells at `i` and `j` exchanged (the `tmp` dance of the sources). */
  function Swapped(s: seq<int>, i: nat, j: nat): (r: seq<int>)
    requires i < |s| && j < |s|
    ensures |r| == |s| && r[i] == s[j] && r[j] == s[i]
    ensures forall k :: 0 <= k < |s| && k != i && k != j ==> r[k] == s[k]
    ensures multiset(r) == multiset(s)
  {
    s[i := s[j]][j := s[i]]
  }

  /** Exchanging two cells inside `[lo, up)` keeps the multiset of that slice. */
  lemma SwappedSliceMultiset(s: seq<int>, i: nat, j: nat, lo: nat, up: nat)
    requires lo <= i < up && lo <= j < up && up <= |s|
    ensures multiset(Swapped(s, i, j)[lo..up]) == multiset(s[lo..up])
  {
    var r := Swapped(s, i, j);
    assert r[lo..up] == Swapped(s[lo..up], i - lo, j - lo);
  }

  /** Two sequences with the same multiset and the same suffix from `n` on
      hold the same multiset before `n`. */
  lemma SamePrefixMultiset(r: seq<int>, t: seq<int>, n: nat)
    requires n <= |r| == |t| && multiset(r) == multiset(t) && r[n..] == t[n..]
    ensures multiset(r[..n]) == multiset(t[..n])
  {
    assert r == r[..n] + r[n..];
    assert t == t[..n] + t[n..];
    calc {
      multiset(r[..n]);
      multiset(r) - multiset(r[n..]);
      multiset(t) - multiset(t[n..]);
      multiset(t[..n]);
    }
  }

  ghost predicate Sorted(s: seq<int>)
  {
    forall k, m :: 0 <= k < m < |s| ==> s[k] <= s[m]
  }

  /** Putting a value no larger than the head in front of a sorted sequence keeps it sorted. */
  lemma SortedCons(x: int, u: seq<int>)
    requires Sorted(u) && (|u| > 0 ==> x <= u[0])
    ensures Sorted([x] + u)
  {
    var v := [x] + u;
    forall k, m | 0 <= k < m < |v| ensures v[k] <= v[m] {
      if k == 0 && m > 1 {
        assert v[1] <= v[m];
      }
    }
  }

  ghost predicate AllAtMost(s: seq<int>, x: int)
  {
    forall k :: 0 <= k < |s| ==> s[k] <= x
  }

  ghost predicate AllAtLeast(s: seq<int>, x: int)
  {
    forall k :: 0 <= k < |s| ==> x <= s[k]
  }

  ghost predicate AllAbove(s: seq<int>, x: int)
  {
    forall k :: 0 <= k < |s| ==> x < s[k]
  }

  /** An upper bound of every element is an upper bound of every permutation. */
  lemma AtMostPermutes(s: seq<int>, t: seq<int>, x: int)
    requires multiset(s) == multiset(t) && AllAtMost(s, x)
    ensures AllAtMost(t, x)
  {
    forall k | 0 <= k < |t| ensures t[k] <= x {
      assert t[k] in multiset(t);
      assert t[k] in s;
    }
  }

  /** A lower bound of every element is a lower bound of every permutation. */
  lemma AtLeastPermutes(s: seq<int>, t: seq<int>, x: int)
    requires multiset(s) == multiset(t) && AllAtLeast(s, x)
    ensures AllAtLeast(t, x)
  {
    forall k | 0 <= k < |t| ensures x <= t[k] {
      assert t[k] in multiset(t);
      assert t[k] in s;
    }
  }
}
