/** The binary search behind the sorted arrays: it remembers its last probe, so that a miss still says
    where a new element belongs. */
module NearSearch {
  import opened Arith

  const BAD: int := -1   // k_ITERATE_BAD

  /** The search of FindINearS and FindINearKey over s[lo..hi]; i and res are the last probe so far.
      cmp is the comparison of the argument with an element. */
  function Near<T>(s: seq<T>, cmp: T -> int, lo: int, hi: int, i: int, res: int): (r: (int, int))
    requires 0 <= lo <= hi + 1 <= |s|
    decreases hi + 1 - lo
  {
    if lo > hi then (i, res) else
    var m := (hi + lo) / 2;
    var c := cmp(s[m]);
    if c == 0 then (m, c)
    else if c > 0 then Near(s, cmp, m + 1, hi, m, c)
    else Near(s, cmp, lo, m - 1, m, c)
  }

  function FindNear<T>(s: seq<T>, cmp: T -> int): (r: (int, int))
    ensures Between(s, cmp, r)
  {
    NearIsBetween(s, cmp, 0, |s| - 1, 0, -1);
    Near(s, cmp, 0, |s| - 1, 0, -1)
  }

  /** Where AddPresorted inserts after the probe (i, res). */
  function Place(r: (int, int)): int { if r.1 > 0 then r.0 + 1 else r.0 }

  /** A hit is a hit, and a miss is between a neighbour that the argument is above and one that it is
      below. */
  ghost predicate Between<T>(s: seq<T>, cmp: T -> int, r: (int, int)) {
    if r.1 == 0 then 0 <= r.0 < |s| && cmp(s[r.0]) == 0
    else && 0 <= Place(r) <= |s|
         && (Place(r) > 0 ==> cmp(s[Place(r) - 1]) > 0)
         && (Place(r) < |s| ==> cmp(s[Place(r)]) < 0)
  }

  /** Whatever the comparison, and whether or not the array is sorted by it. */
  lemma {:induction false} NearIsBetween<T>(s: seq<T>, cmp: T -> int, lo: int, hi: int, i: int, res: int)
    requires 0 <= lo <= hi + 1 <= |s|
    requires lo > 0 ==> cmp(s[lo - 1]) > 0
    requires hi + 1 < |s| ==> cmp(s[hi + 1]) < 0
    requires lo > hi ==> (res > 0 && i == lo - 1) || (res < 0 && i == lo)
    ensures Between(s, cmp, Near(s, cmp, lo, hi, i, res))
    decreases hi + 1 - lo
  {
    if lo <= hi {
      var m := (hi + lo) / 2;
      var c := cmp(s[m]);
      if c > 0 {
        NearIsBetween(s, cmp, m + 1, hi, m, c);
      } else if c < 0 {
        NearIsBetween(s, cmp, lo, m - 1, m, c);
      }
    }
  }

  /** The argument splits the array once. */
  ghost predicate SplitOnce<T>(s: seq<T>, cmp: T -> int) {
    forall i, j :: 0 <= i < j < |s| ==> (cmp(s[j]) > 0 ==> cmp(s[i]) > 0) && (cmp(s[i]) < 0 ==> cmp(s[j]) < 0)
  }

  /** Then a miss means there is nothing to hit: everything before the place found is below the
      argument and everything after it above. */
  lemma NearIsExact<T>(s: seq<T>, cmp: T -> int)
    requires SplitOnce(s, cmp)
    ensures var r := FindNear(s, cmp);
            if r.1 == 0 then 0 <= r.0 < |s| && cmp(s[r.0]) == 0
            else && 0 <= Place(r) <= |s|
                 && (forall i :: 0 <= i < Place(r) ==> cmp(s[i]) > 0)
                 && (forall i :: Place(r) <= i < |s| ==> cmp(s[i]) < 0)
  {
    assert Between(s, cmp, FindNear(s, cmp));
  }

  /** How often a number can be halved until nothing is left. */
  function Halvings(n: nat): nat { if n == 0 then 0 else 1 + Halvings(n / 2) }

  /** That is its number of bits. */
  lemma {:induction false} HalvingsAreBits(n: nat)
    requires n > 0
    ensures Pow2(Halvings(n)) <= 2 * n && n < Pow2(Halvings(n))
  {
    if n > 1 {
      HalvingsAreBits(n / 2);
    } else {
      assert Halvings(1) == 1;
    }
  }

  lemma {:induction false} HalvingsMonotone(m: nat, n: nat)
    requires m <= n
    ensures Halvings(m) <= Halvings(n)
  {
    if m > 0 {
      HalvingsMonotone(m / 2, n / 2);
    }
  }

  /** A probe in the middle leaves half of what there is to search, on either side. */
  lemma ProbeHalves(lo: nat, hi: int, mid: int)
    requires lo <= hi && mid == (hi + lo) / 2
    ensures 1 + Halvings(hi - mid) <= Halvings(hi + 1 - lo) && 1 + Halvings(mid - lo) <= Halvings(hi + 1 - lo)
  {
    HalvingsMonotone(hi - mid, (hi + 1 - lo) / 2);
    HalvingsMonotone(mid - lo, (hi + 1 - lo) / 2);
  }
}
