/** The in-place sort and the sortedness tests of cSpanSorted, for any comparison of elements that is
    a total order up to equality. */
module QuickSort {

  type Compare<!T> = (T, T) -> int

  /** A comparison is read the same way from both sides. */
  ghost predicate Mirror<T>(cmp: Compare<T>, x: T, y: T) { cmp(x, y) <= 0 <==> cmp(y, x) >= 0 }

  ghost predicate Chain<T>(cmp: Compare<T>, x: T, y: T, z: T) { cmp(x, y) <= 0 && cmp(y, z) <= 0 ==> cmp(x, z) <= 0 }

  ghost predicate Ordering<T(!new)>(cmp: Compare<T>) {
    && (forall x, y :: Mirror(cmp, x, y))
    && (forall x, y, z :: Chain(cmp, x, y, z))
  }

  ghost predicate Sorted<T>(cmp: Compare<T>, s: seq<T>) {
    forall i, j :: 0 <= i < j < |s| ==> cmp(s[i], s[j]) <= 0
  }

  ghost predicate Below<T>(cmp: Compare<T>, s: seq<T>, p: T) {
    forall x <- s :: cmp(x, p) <= 0
  }

  ghost predicate Above<T>(cmp: Compare<T>, p: T, s: seq<T>) {
    forall x <- s :: cmp(p, x) <= 0
  }

  /** A rearrangement has the same bounds. */
  lemma BoundsOfPermutation<T>(cmp: Compare<T>, s: seq<T>, s': seq<T>, p: T)
    requires multiset(s) == multiset(s')
    ensures Below(cmp, s, p) ==> Below(cmp, s', p)
    ensures Above(cmp, p, s) ==> Above(cmp, p, s')
  {
    forall x | x in s' ensures x in s {
      assert x in multiset(s');
    }
  }

  lemma JoinSorted<T(!new)>(cmp: Compare<T>, l: seq<T>, p: T, r: seq<T>)
    requires Ordering(cmp) && Sorted(cmp, l) && Sorted(cmp, r) && Below(cmp, l, p) && Above(cmp, p, r)
    ensures Sorted(cmp, l + [p] + r)
  {
    var s := l + [p] + r;
    forall i, j | 0 <= i < j < |s| ensures cmp(s[i], s[j]) <= 0 {
      if i < |l| < j {
        assert s[i] in l && s[j] in r && Chain(cmp, s[i], p, s[j]);
      } else if i == |l| {
        assert s[j] in r;
      } else if j == |l| {
        assert s[i] in l;
      }
    }
  }

  method Swap<T>(a: array<T>, i: nat, j: nat)
    requires i < a.Length && j < a.Length
    modifies a
    ensures a[..] == Swapped(old(a[..]), i, j)
  {
    if i == j {
      return;
    }
    a[i], a[j] := a[j], a[i];
  }

  lemma SwapPermutes<T>(s: seq<T>, lo: nat, hi: nat, i: nat, j: nat)
    requires lo <= i < hi <= |s| && lo <= j < hi
    ensures multiset(Swapped(s, i, j)[lo..hi]) == multiset(s[lo..hi])
  {
    var t := s[lo..hi];
    assert Swapped(s, i, j)[lo..hi] == t[i - lo := t[j - lo]][j - lo := t[i - lo]];
  }

  /** t is s with the elements lo..hi (hi excluded) rearranged. */
  ghost predicate Rearranged<T>(s: seq<T>, t: seq<T>, lo: int, hi: int) {
    && |s| == |t| && 0 <= lo <= hi <= |s|
    && t[..lo] == s[..lo] && t[hi..] == s[hi..]
    && multiset(t[lo..hi]) == multiset(s[lo..hi])
  }

  lemma SwapRearranges<T>(s0: seq<T>, s: seq<T>, lo: nat, hi: nat, i: nat, j: nat)
    requires Rearranged(s0, s, lo, hi) && lo <= i < hi && lo <= j < hi
    ensures Rearranged(s0, Swapped(s, i, j), lo, hi)
  {
    SwapPermutes(s, lo, hi, i, j);
  }

  /** The ends of the partition that are done: nothing on the left above p, nothing on the right below. */
  ghost predicate Parted<T>(cmp: Compare<T>, s: seq<T>, lo: int, iLeft: int, iRight: int, hi: int, p: T) {
    && 0 <= lo <= iLeft <= iRight <= hi < |s|
    && (forall k :: lo <= k < iLeft ==> cmp(s[k], p) <= 0)
    && (forall k :: iRight < k <= hi ==> cmp(p, s[k]) <= 0)
  }

  function Swapped<T>(s: seq<T>, i: nat, j: nat): seq<T>
    requires i < |s| && j < |s|
  {
    s[i := s[j]][j := s[i]]
  }

  lemma SwapParted<T>(cmp: Compare<T>, s: seq<T>, lo: nat, iLeft: nat, iRight: nat, hi: nat, p: T)
    requires Parted(cmp, s, lo, iLeft, iRight, hi, p)
    ensures Parted(cmp, Swapped(s, iLeft, iRight), lo, iLeft, iRight, hi, p)
    ensures Swapped(s, iRight, iLeft) == Swapped(s, iLeft, iRight)
  {
  }

  /** Exchanging the two ends of the part not yet looked at. */
  lemma SwapEnds<T>(cmp: Compare<T>, from: seq<T>, s: seq<T>, lo: nat, iLeft: nat, iRight: nat, hi: nat, p: T)
    requires Rearranged(from, s, lo, hi + 1) && Parted(cmp, s, lo, iLeft, iRight, hi, p)
    ensures var t := Swapped(s, iLeft, iRight);
            && t == Swapped(s, iRight, iLeft)
            && Rearranged(from, t, lo, hi + 1) && Parted(cmp, t, lo, iLeft, iRight, hi, p)
  {
    SwapParted(cmp, s, lo, iLeft, iRight, hi, p);
    SwapRearranges(from, s, lo, hi + 1, iLeft, iRight);
  }

  /** The right side: skip what is already in order with the pivot at iLeft. */
  method SkipRight<T>(cmp: Compare<T>, a: array<T>, ghost lo: nat, iLeft: nat, iRight0: nat, ghost hi: nat) returns (iRight: nat)
    requires iLeft < a.Length && Parted(cmp, a[..], lo, iLeft, iRight0, hi, a[iLeft])
    ensures Parted(cmp, a[..], lo, iLeft, iRight, hi, a[iLeft]) && iRight <= iRight0
    ensures iLeft < iRight ==> cmp(a[iLeft], a[iRight]) > 0
  {
    iRight := iRight0;
    while iLeft < iRight && cmp(a[iLeft], a[iRight]) <= 0
      invariant Parted(cmp, a[..], lo, iLeft, iRight, hi, a[iLeft]) && iRight <= iRight0
    {
      iRight := iRight - 1;
    }
  }

  /** The left side: skip what is already in order with the pivot at iRight. */
  method SkipLeft<T>(cmp: Compare<T>, a: array<T>, ghost lo: nat, iLeft0: nat, iRight: nat, ghost hi: nat) returns (iLeft: nat)
    requires iRight < a.Length && Parted(cmp, a[..], lo, iLeft0, iRight, hi, a[iRight])
    requires iLeft0 < iRight && cmp(a[iLeft0], a[iRight]) <= 0
    ensures Parted(cmp, a[..], lo, iLeft, iRight, hi, a[iRight]) && iLeft0 < iLeft
    ensures iLeft < iRight ==> cmp(a[iLeft], a[iRight]) > 0
  {
    iLeft := iLeft0;
    while iLeft < iRight && cmp(a[iLeft], a[iRight]) <= 0
      invariant Parted(cmp, a[..], lo, iLeft, iRight, hi, a[iRight]) && iLeft0 <= iLeft
      invariant iLeft == iLeft0 ==> cmp(a[iLeft], a[iRight]) <= 0
    {
      iLeft := iLeft + 1;
    }
  }

  /** The pivot bounces between the two ends of the part not yet looked at. asserts is whether the assertion holds
      that the range has two elements; it does its work either way. */
  method QSortPartition<T(!new)>(cmp: Compare<T>, a: array<T>, lo: nat, hi: nat) returns (iMid: nat, asserts: bool)
    requires lo <= hi < a.Length && Ordering(cmp)
    modifies a
    ensures Rearranged(old(a[..]), a[..], lo, hi + 1)
    ensures lo <= iMid <= hi && a[iMid] == old(a[lo])
    ensures Parted(cmp, a[..], lo, iMid, iMid, hi, a[iMid])
    ensures asserts <==> lo < hi
  {
    asserts := lo < hi;
    ghost var from, p := a[..], a[lo];
    var iLeft, iRight := lo, hi;
    while true
      invariant lo <= iLeft <= iRight <= hi && a[iLeft] == p
      invariant Rearranged(from, a[..], lo, hi + 1)
      invariant Parted(cmp, a[..], lo, iLeft, iRight, hi, p)
      decreases iRight - iLeft
    {
      iRight := SkipRight(cmp, a, lo, iLeft, iRight, hi);
      if iLeft >= iRight {
        break;
      }
      SwapEnds(cmp, from, a[..], lo, iLeft, iRight, hi, p);
      assert Mirror(cmp, p, a[iRight]);
      Swap(a, iRight, iLeft);

      iLeft := SkipLeft(cmp, a, lo, iLeft, iRight, hi);
      if iLeft >= iRight {
        break;
      }
      SwapEnds(cmp, from, a[..], lo, iLeft, iRight, hi, p);
      Swap(a, iLeft, iRight);
    }
    iMid := iLeft;
  }

  lemma RearrangedWithin<T>(s: seq<T>, t: seq<T>, lo: nat, l: nat, h: nat, hi: nat)
    requires lo <= l <= h <= hi <= |s| && Rearranged(s, t, l, h)
    ensures Rearranged(s, t, lo, hi)
  {
    assert t[..lo] == t[..l][..lo] && t[hi..] == t[h..][hi - h..];
    assert s[..lo] == s[..l][..lo] && s[hi..] == s[h..][hi - h..];
    assert t[lo..l] == t[..l][lo..] && s[lo..l] == s[..l][lo..];
    assert t[h..hi] == t[h..][..hi - h] && s[h..hi] == s[h..][..hi - h];
    assert t[lo..hi] == t[lo..l] + t[l..h] + t[h..hi];
    assert s[lo..hi] == s[lo..l] + s[l..h] + s[h..hi];
  }

  lemma RearrangedTrans<T>(s: seq<T>, t: seq<T>, u: seq<T>, lo: int, hi: int)
    requires Rearranged(s, t, lo, hi) && Rearranged(t, u, lo, hi)
    ensures Rearranged(s, u, lo, hi)
  {
  }

  /** asserts is whether the assertions hold of this partition and of all those that it leads to: the recursive calls
      never fail them. */
  method QSortRange<T(!new)>(cmp: Compare<T>, a: array<T>, iLeft: nat, iRight: nat) returns (asserts: bool)
    requires iLeft <= iRight < a.Length && Ordering(cmp)
    modifies a
    ensures Rearranged(old(a[..]), a[..], iLeft, iRight + 1)
    ensures Sorted(cmp, a[iLeft..iRight + 1])
    ensures asserts <==> iLeft < iRight
    decreases iRight - iLeft
  {
    ghost var s0 := a[..];
    var iMid, holds;
    iMid, asserts := QSortPartition(cmp, a, iLeft, iRight);
    ghost var s1 := a[..];
    if iLeft + 1 < iMid {
      holds := QSortRange(cmp, a, iLeft, iMid - 1);
      asserts := asserts && holds;
    }
    ghost var s2 := a[..];
    assert Rearranged(s1, s2, iLeft, iMid) && Sorted(cmp, s2[iLeft..iMid]);
    if iMid + 1 < iRight {
      holds := QSortRange(cmp, a, iMid + 1, iRight);
      asserts := asserts && holds;
    }
    ghost var s3 := a[..];
    assert Rearranged(s2, s3, iMid + 1, iRight + 1) && Sorted(cmp, s3[iMid + 1..iRight + 1]);
    HalvesSorted(cmp, s0, s1, s2, s3, iLeft, iMid, iRight);
  }

  /** Sorting the two sides of a partitioned range sorts the range. */
  lemma HalvesSorted<T(!new)>(cmp: Compare<T>, s0: seq<T>, s1: seq<T>, s2: seq<T>, s3: seq<T>, lo: nat, mid: nat, hi: nat)
    requires Ordering(cmp) && lo <= mid <= hi < |s1|
    requires Rearranged(s0, s1, lo, hi + 1) && Parted(cmp, s1, lo, mid, mid, hi, s1[mid])
    requires Rearranged(s1, s2, lo, mid) && Sorted(cmp, s2[lo..mid])
    requires Rearranged(s2, s3, mid + 1, hi + 1) && Sorted(cmp, s3[mid + 1..hi + 1])
    ensures Rearranged(s0, s3, lo, hi + 1)
    ensures Sorted(cmp, s3[lo..hi + 1])
  {
    HalvesRearranged(s0, s1, s2, s3, lo, mid, hi);
    HalvesFrame(s1, s2, s3, lo, mid, hi);
    var p := s1[mid];
    BoundsOfPermutation(cmp, s1[lo..mid], s3[lo..mid], p);
    BoundsOfPermutation(cmp, s1[mid + 1..hi + 1], s3[mid + 1..hi + 1], p);
    JoinSorted(cmp, s3[lo..mid], p, s3[mid + 1..hi + 1]);
  }

  lemma HalvesRearranged<T>(s0: seq<T>, s1: seq<T>, s2: seq<T>, s3: seq<T>, lo: nat, mid: nat, hi: nat)
    requires lo <= mid <= hi < |s1| && Rearranged(s0, s1, lo, hi + 1)
    requires Rearranged(s1, s2, lo, mid) && Rearranged(s2, s3, mid + 1, hi + 1)
    ensures Rearranged(s0, s3, lo, hi + 1)
  {
    RearrangedWithin(s1, s2, lo, lo, mid, hi + 1);
    RearrangedWithin(s2, s3, lo, mid + 1, hi + 1, hi + 1);
    RearrangedTrans(s1, s2, s3, lo, hi + 1);
    RearrangedTrans(s0, s1, s3, lo, hi + 1);
  }

  lemma HalvesFrame<T>(s1: seq<T>, s2: seq<T>, s3: seq<T>, lo: nat, mid: nat, hi: nat)
    requires lo <= mid <= hi < |s1| && Rearranged(s1, s2, lo, mid) && Rearranged(s2, s3, mid + 1, hi + 1)
    ensures s3[lo..mid] == s2[lo..mid]
    ensures multiset(s3[lo..mid]) == multiset(s1[lo..mid])
    ensures multiset(s3[mid + 1..hi + 1]) == multiset(s1[mid + 1..hi + 1])
    ensures s3[lo..hi + 1] == s3[lo..mid] + [s1[mid]] + s3[mid + 1..hi + 1]
  {
    SameBefore(s2, s3, mid + 1, lo, mid);
    SameAfter(s1, s2, mid, mid + 1, hi + 1);
    assert s3[mid] == s3[..mid + 1][mid] && s2[mid] == s2[..mid + 1][mid];
    assert s2[mid] == s2[mid..][0] && s1[mid] == s1[mid..][0];
  }

  lemma SameBefore<T>(s: seq<T>, t: seq<T>, end: nat, lo: nat, hi: nat)
    requires lo <= hi <= end <= |s| == |t| && t[..end] == s[..end]
    ensures t[lo..hi] == s[lo..hi]
  {
    assert t[lo..hi] == t[..end][lo..hi] && s[lo..hi] == s[..end][lo..hi];
  }

  lemma SameAfter<T>(s: seq<T>, t: seq<T>, start: nat, lo: nat, hi: nat)
    requires start <= lo <= hi <= |s| == |t| && t[start..] == s[start..]
    ensures t[lo..hi] == s[lo..hi]
  {
    forall k | lo <= k < hi ensures t[k] == s[k] {
      assert t[k] == t[start..][k - start] && s[k] == s[start..][k - start];
    }
  }

  /** Every assertion of the run holds, except for a span of one element; it is sorted all the same. */
  method QSort<T(!new)>(cmp: Compare<T>, a: array<T>) returns (asserts: bool)
    requires Ordering(cmp)
    modifies a
    ensures Sorted(cmp, a[..]) && multiset(a[..]) == multiset(old(a[..]))
    ensures asserts <==> a.Length != 1
  {
    if a.Length == 0 {
      return true;
    }
    asserts := QSortRange(cmp, a, 0, a.Length - 1);
    assert a[0..a.Length] == a[..] && old(a[..])[0..a.Length] == old(a[..]);
  }

  /** isSpanSorted compares neighbours only; for an ordering that decides sortedness. */
  method IsSpanSorted<T(!new)>(cmp: Compare<T>, s: seq<T>) returns (sorted: bool)
    requires Ordering(cmp)
    ensures sorted <==> Sorted(cmp, s)
  {
    if s == [] {
      return true;
    }
    var iQty := |s| - 1;
    for i := 0 to iQty
      invariant Sorted(cmp, s[..i + 1])
    {
      if cmp(s[i], s[i + 1]) > 0 {
        return false;
      }
      forall k | 0 <= k <= i ensures cmp(s[k], s[i + 1]) <= 0 {
        assert k < i ==> cmp(s[..i + 1][k], s[..i + 1][i]) <= 0;
        assert Chain(cmp, s[k], s[i], s[i + 1]);
      }
    }
    assert s[..|s|] == s;
    return true;
  }

  /** isSpanSortedND: no two elements, neighbours or not, compare equal. */
  method IsSpanSortedND<T(!new)>(cmp: Compare<T>, s: seq<T>) returns (sorted: bool)
    requires Ordering(cmp)
    ensures sorted <==> forall i, j :: 0 <= i < j < |s| ==> cmp(s[i], s[j]) < 0
  {
    if s == [] {
      return true;
    }
    var iQty := |s| - 1;
    for n := 0 to iQty
      invariant forall i, j :: 0 <= i < j <= n ==> cmp(s[i], s[j]) < 0
    {
      if cmp(s[n], s[n + 1]) >= 0 {
        return false;
      }
      forall k | 0 <= k <= n ensures cmp(s[k], s[n + 1]) < 0 {
        // s[k] is below s[n], which is below s[n + 1]: the converse would chain back
        assert Mirror(cmp, s[k], s[n + 1]) && Mirror(cmp, s[n + 1], s[k]) && Mirror(cmp, s[n + 1], s[n]);
        assert Chain(cmp, s[n + 1], s[k], s[n]);
      }
    }
    return true;
  }
}
