/** The two prefix searches of cArraySortString over strings sorted without regard to ASCII case. */
module PrefixSearch {
  import opened NearSearch

  /** A string as its character codes, without the terminator. */
  type Str = seq<int>

  /** The code 0 ends a string, and so is not in one. */
  ghost predicate Proper(s: Str) { 0 !in s }

  function At(s: Str, i: nat): int { if i < |s| then s[i] else 0 }

  /** StrChar::ToLowerA */
  function Fold(c: int): int { if 'A' as int <= c <= 'Z' as int then c - 'A' as int + 'a' as int else c }

  /** StrChar::CmpI */
  function CmpChar(a: int, b: int): int { Fold(a) - Fold(b) }

  /** The loop of StrT::CmpIN from position i on. */
  function CmpFrom(a: Str, b: Str, i: nat, n: int): int
    decreases n - i
  {
    if i >= n then 0 else
    var d := CmpChar(At(a, i), At(b, i));
    if At(a, i) == 0 || d != 0 then d else CmpFrom(a, b, i + 1, n)
  }

  function CmpIN(a: Str, b: Str, n: nat): int { CmpFrom(a, b, 0, n) }

  /** StrT::CmpI: the loop has no limit, but stops at the terminator of a. */
  function CmpI(a: Str, b: Str): int { CmpFrom(a, b, 0, |a| + 1) }

  ghost predicate Sorted(s: seq<Str>) {
    && (forall x <- s :: Proper(x))
    && (forall i, j :: 0 <= i < j < |s| ==> CmpI(s[i], s[j]) < 0)
  }

  predicate SameAt(s: Str, root: Str, k: nat)
    requires k < |root|
  {
    k < |s| && Fold(s[k]) == Fold(root[k])
  }

  /** From position i on, s goes on like root, ignoring case, for as long as root lasts. */
  ghost predicate StartsFrom(s: Str, root: Str, i: nat) {
    forall k :: i <= k < |root| ==> SameAt(s, root, k)
  }

  ghost predicate StartsWith(s: Str, root: Str) { StartsFrom(s, root, 0) }

  ghost predicate ProperRoot(root: Str, s: Str) { StartsWith(s, root) && |root| < |s| }

  /** The comparison of each search, as a function of the element it looks at. */
  function RootCmp(root: Str): Str -> int { s => CmpIN(root, s, |root|) }
  function DerivedCmp(derived: Str): Str -> int { s => CmpIN(derived, s, |s|) }

  lemma StartsStep(s: Str, root: Str, i: nat)
    requires i < |root|
    ensures StartsFrom(s, root, i) <==> SameAt(s, root, i) && StartsFrom(s, root, i + 1)
  {
  }

  lemma {:induction false} RootMatches(root: Str, s: Str, i: nat)
    requires Proper(root) && Proper(s) && i <= |root|
    ensures CmpFrom(root, s, i, |root|) == 0 <==> StartsFrom(s, root, i)
    decreases |root| - i
  {
    if i < |root| {
      StartsStep(s, root, i);
      RootMatches(root, s, i + 1);
    }
  }

  lemma {:induction false} DerivedMatches(derived: Str, s: Str, i: nat)
    requires Proper(derived) && Proper(s) && i <= |s|
    ensures CmpFrom(derived, s, i, |s|) == 0 <==> StartsFrom(derived, s, i)
    decreases |s| - i
  {
    if i < |s| {
      StartsStep(derived, s, i);
      DerivedMatches(derived, s, i + 1);
    }
  }

  /** Cutting the comparison off after the root does not upset the order. */
  lemma {:induction false} CutKeepsOrder(root: Str, s: Str, t: Str, i: nat)
    requires Proper(root) && Proper(s) && Proper(t) && i <= |root| && i <= |s|
    requires CmpFrom(s, t, i, |s| + 1) < 0
    ensures CmpFrom(root, t, i, |root|) > 0 ==> CmpFrom(root, s, i, |root|) > 0
    ensures CmpFrom(root, s, i, |root|) < 0 ==> CmpFrom(root, t, i, |root|) < 0
    decreases |root| - i
  {
    if i < |root| && At(s, i) != 0 && CmpChar(s[i], At(t, i)) == 0 {
      CutKeepsOrder(root, s, t, i + 1);
    }
  }

  /** Cutting it off after each element does, but only where one element is a root of the other. */
  lemma {:induction false} CutAtElement(derived: Str, s: Str, t: Str, i: nat)
    requires Proper(derived) && Proper(s) && Proper(t) && i <= |s| && i <= |t|
    requires CmpFrom(s, t, i, |s| + 1) < 0
    ensures CmpFrom(derived, t, i, |t|) > 0 ==>
      CmpFrom(derived, s, i, |s|) > 0 || (StartsFrom(derived, s, i) && StartsFrom(t, s, i) && |s| < |t|)
    ensures CmpFrom(derived, s, i, |s|) < 0 ==>
      CmpFrom(derived, t, i, |t|) < 0 || (StartsFrom(derived, t, i) && StartsFrom(s, t, i) && |t| < |s|)
    decreases |s| - i
  {
    if i < |s| && i < |t| && CmpChar(s[i], t[i]) == 0 && CmpChar(At(derived, i), s[i]) == 0 {
      CutAtElement(derived, s, t, i + 1);
      StartsStep(derived, s, i);
      StartsStep(derived, t, i);
      StartsStep(t, s, i);
      StartsStep(s, t, i);
    }
  }

  lemma RootSplitsOnce(s: seq<Str>, root: Str)
    requires Sorted(s) && Proper(root)
    ensures SplitOnce(s, RootCmp(root))
  {
    forall i, j | 0 <= i < j < |s|
      ensures (RootCmp(root)(s[j]) > 0 ==> RootCmp(root)(s[i]) > 0) && (RootCmp(root)(s[i]) < 0 ==> RootCmp(root)(s[j]) < 0)
    {
      CutKeepsOrder(root, s[i], s[j], 0);
    }
  }

  /** No root of derived among the elements is a proper root of another element. */
  ghost predicate RootsStandAlone(s: seq<Str>, derived: Str) {
    forall x <- s, y <- s :: StartsWith(derived, x) ==> !ProperRoot(x, y)
  }

  lemma DerivedSplitsOnce(s: seq<Str>, derived: Str)
    requires Sorted(s) && Proper(derived) && RootsStandAlone(s, derived)
    ensures SplitOnce(s, DerivedCmp(derived))
  {
    forall i, j | 0 <= i < j < |s|
      ensures DerivedCmp(derived)(s[j]) > 0 ==> DerivedCmp(derived)(s[i]) > 0
      ensures DerivedCmp(derived)(s[i]) < 0 ==> DerivedCmp(derived)(s[j]) < 0
    {
      CutAtElement(derived, s[i], s[j], 0);
      assert s[i] in s && s[j] in s;
    }
  }

  /** Both searches run the loop of the near search, but keep only a hit. */
  function Hit(s: seq<Str>, cmp: Str -> int): int {
    var r := FindNear(s, cmp);
    if r.1 == 0 then r.0 else BAD
  }

  method Search(s: seq<Str>, cmp: Str -> int) returns (index: int)
    ensures index == Hit(s, cmp)
  {
    if s == [] {
      return BAD;
    }
    var iHigh, iLow := |s| - 1, 0;
    ghost var i, res := 0, -1;
    while iLow <= iHigh
      invariant 0 <= iLow <= iHigh + 1 <= |s| && res != 0
      invariant Near(s, cmp, iLow, iHigh, i, res) == FindNear(s, cmp)
      decreases iHigh + 1 - iLow
    {
      var mid := (iHigh + iLow) / 2;
      var iCompare := cmp(s[mid]);
      if iCompare == 0 {
        return mid;
      }
      i, res := mid, iCompare;
      if iCompare > 0 {
        iLow := mid + 1;
      } else {
        iHigh := mid - 1;
      }
    }
    return BAD;
  }

  /** Finds an element that starts with root exactly when there is one. */
  method FindKeyRoot(s: seq<Str>, root: Str) returns (index: int)
    requires Sorted(s) && Proper(root)
    ensures index == BAD <==> forall x <- s :: !StartsWith(x, root)
    ensures index != BAD ==> 0 <= index < |s| && StartsWith(s[index], root)
  {
    RootSplitsOnce(s, root);
    NearIsExact(s, RootCmp(root));
    forall x <- s ensures RootCmp(root)(x) == 0 <==> StartsWith(x, root) {
      RootMatches(root, x, 0);
    }
    index := Search(s, RootCmp(root));
    assert index != BAD ==> s[index] in s;
  }

  /** An index it returns is always right; and it finds a root whenever there is one and the roots of
      derived stand alone. */
  method FindKeyDerived(s: seq<Str>, derived: Str) returns (index: int)
    requires Sorted(s) && Proper(derived)
    ensures index != BAD ==> 0 <= index < |s| && StartsWith(derived, s[index])
    ensures RootsStandAlone(s, derived) && (exists x <- s :: StartsWith(derived, x)) ==> index != BAD
    ensures index == Hit(s, DerivedCmp(derived))
  {
    forall x <- s ensures DerivedCmp(derived)(x) == 0 <==> StartsWith(derived, x) {
      DerivedMatches(derived, x, 0);
    }
    if RootsStandAlone(s, derived) {
      DerivedSplitsOnce(s, derived);
      NearIsExact(s, DerivedCmp(derived));
    }
    index := Search(s, DerivedCmp(derived));
    assert Between(s, DerivedCmp(derived), FindNear(s, DerivedCmp(derived)));
    assert index != BAD ==> s[index] in s;
  }

  /** Otherwise it may miss: with "a", "ab" and "abc" in the array, "ac" has the root "a", but the
      search turns to the right of "ab" and finds nothing. */
  lemma DerivedMayMiss()
    ensures var s := [[97], [97, 98], [97, 98, 99]];
            Sorted(s) && StartsWith([97, 99], s[0]) && Hit(s, DerivedCmp([97, 99])) == BAD
  {
    var s: seq<Str> := [[97], [97, 98], [97, 98, 99]];
    var d: Str := [97, 99];
    assert CmpI(s[0], s[1]) < 0 && CmpI(s[0], s[2]) < 0;
    assert CmpFrom(s[1], s[2], 1, 3) < 0;
    assert CmpI(s[1], s[2]) < 0;
    assert CmpIN(d, s[1], 2) == 1;
    assert CmpFrom(d, s[2], 1, 3) == 1;
    assert CmpIN(d, s[2], 3) == 1;
    assert FindNear(s, DerivedCmp(d)) == (2, 1);
  }

  // ----- exactly when no derived string is missed

  /** The comparison with a string that starts with x and sorts behind everything else that does. */
  function BeyondCmp(x: Str): Str -> int {
    y => if |x| < |y| && CmpIN(x, y, |x|) == 0 then 1 else CmpIN(x, y, |y|)
  }

  ghost predicate FindsRoot(s: seq<Str>, derived: Str) {
    (exists x <- s :: StartsWith(derived, x)) ==> Hit(s, DerivedCmp(derived)) != BAD
  }

  /** Two strings of which one goes on from the other compare alike with a string that neither is a root of
      the shorter one nor has it as a root. */
  lemma {:induction false} SameDirection(derived: Str, x: Str, y: Str, i: nat)
    requires Proper(derived) && Proper(x) && Proper(y) && i <= |x| && i <= |y|
    requires StartsFrom(derived, x, i) && !StartsFrom(x, y, i) && !StartsFrom(y, x, i)
    ensures CmpFrom(derived, y, i, |y|) == CmpFrom(x, y, i, |y|) != 0
    decreases |x| - i
  {
    assert i < |x| && i < |y|;
    StartsStep(derived, x, i);
    StartsStep(x, y, i);
    StartsStep(y, x, i);
    if CmpChar(x[i], y[i]) == 0 {
      SameDirection(derived, x, y, i + 1);
    }
  }

  /** Character codes that sort behind the terminator. */
  ghost predicate Plain(s: Str) { forall i :: 0 <= i < |s| ==> s[i] > 0 }

  ghost predicate AllPlain(s: seq<Str>) { forall i :: 0 <= i < |s| ==> Plain(s[i]) }

  lemma PlainIsProper(s: Str)
    requires Plain(s)
    ensures Proper(s)
  {
  }

  /** A root sorts before what goes on from it. */
  lemma {:induction false} RootIsLess(x: Str, y: Str, i: nat)
    requires Plain(x) && Plain(y) && i <= |x| < |y| && StartsFrom(y, x, i)
    ensures CmpFrom(y, x, i, |y| + 1) > 0
    decreases |x| - i
  {
    if i < |x| {
      StartsStep(y, x, i);
      RootIsLess(x, y, i + 1);
    }
  }

  /** What the search for a string beyond x hits is a root of x. */
  lemma BeyondMatches(x: Str, y: Str)
    requires Proper(x) && Proper(y)
    ensures BeyondCmp(x)(y) == 0 <==> StartsWith(x, y)
    ensures BeyondCmp(x)(y) == if ProperRoot(x, y) then 1 else CmpIN(x, y, |y|)
  {
    RootMatches(x, y, 0);
    DerivedMatches(x, y, 0);
    RootIsNoLonger(y, x);
    RootIsNoLonger(x, y);
  }

  lemma RootIsNoLonger(y: Str, x: Str)
    ensures StartsWith(y, x) ==> |x| <= |y|
  {
    assert |x| <= |y| || !SameAt(y, x, |y|);
  }

  /** Beside the strings that go on from x, a string that does so itself is compared as x is. */
  lemma DerivedAsBeyond(derived: Str, x: Str, y: Str)
    requires Proper(derived) && Proper(x) && Proper(y) && StartsWith(derived, x) && !ProperRoot(x, y)
    ensures StartsWith(x, y) ==> DerivedCmp(derived)(y) == 0
    ensures !StartsWith(x, y) ==> DerivedCmp(derived)(y) == BeyondCmp(x)(y) != 0
  {
    BeyondMatches(x, y);
    DerivedMatches(derived, y, 0);
    if StartsWith(x, y) {
      forall k | 0 <= k < |y| ensures SameAt(derived, y, k) {
        assert SameAt(x, y, k) && SameAt(derived, x, k);
      }
    } else {
      NotRootEither(x, y);
      SameDirection(derived, x, y, 0);
    }
  }

  lemma NotRootEither(x: Str, y: Str)
    requires !ProperRoot(x, y) && !StartsWith(x, y)
    ensures !StartsWith(y, x)
  {
    if StartsWith(y, x) {
      RootIsNoLonger(y, x);
      forall k | 0 <= k < |y| ensures SameAt(x, y, k) {
        assert SameAt(y, x, k);
      }
    }
  }

  /** If the search for a string beyond x has a hit, so has that for any string that starts with x: the first
      never probes an element that goes on from x, and on all others both turn alike. */
  lemma {:induction false} DerivedFollows(s: seq<Str>, derived: Str, x: Str, lo: int, hi: int, i: int, res: int)
    requires Sorted(s) && AllPlain(s) && Proper(derived) && Plain(x) && StartsWith(derived, x)
    requires 0 <= lo <= hi + 1 <= |s| && res != 0 && Near(s, BeyondCmp(x), lo, hi, i, res).1 == 0
    ensures Near(s, DerivedCmp(derived), lo, hi, i, res).1 == 0
    decreases hi + 1 - lo
  {
    if lo <= hi {
      var m := (hi + lo) / 2;
      BeyondMatches(x, s[m]);
      if ProperRoot(x, s[m]) {
        BeyondHitsBefore(s, x, m, hi);
      } else {
        DerivedAsBeyond(derived, x, s[m]);
        var c := BeyondCmp(x)(s[m]);
        if c > 0 {
          DerivedFollows(s, derived, x, m + 1, hi, m, c);
        } else if c < 0 {
          DerivedFollows(s, derived, x, lo, m - 1, m, c);
        }
      }
    }
  }

  /** Behind an element that goes on from x there is no root of x. */
  lemma BeyondHitsBefore(s: seq<Str>, x: Str, m: int, hi: int)
    requires Sorted(s) && AllPlain(s) && Plain(x) && 0 <= m <= hi < |s| && ProperRoot(x, s[m])
    ensures Near(s, BeyondCmp(x), m + 1, hi, m, 1).1 != 0
  {
    HitIsWithin(s, BeyondCmp(x), m + 1, hi, m, 1);
    var p := Near(s, BeyondCmp(x), m + 1, hi, m, 1).0;
    if Near(s, BeyondCmp(x), m + 1, hi, m, 1).1 == 0 {
      BeyondMatches(x, s[p]);
      RootOfRoot(s[m], x, s[p]);
      RootIsLess(s[p], s[m], 0);
    }
  }

  lemma RootOfRoot(y: Str, x: Str, z: Str)
    requires ProperRoot(x, y) && StartsWith(x, z)
    ensures |z| < |y| && StartsWith(y, z)
  {
    RootIsNoLonger(x, z);
    forall k | 0 <= k < |z| ensures SameAt(y, z, k) {
      assert SameAt(x, z, k) && SameAt(y, x, k);
    }
  }

  lemma {:induction false} HitIsWithin(s: seq<Str>, cmp: Str -> int, lo: int, hi: int, i: int, res: int)
    requires 0 <= lo <= hi + 1 <= |s| && res != 0
    ensures var r := Near(s, cmp, lo, hi, i, res); r.1 == 0 ==> lo <= r.0 <= hi && cmp(s[r.0]) == 0
    decreases hi + 1 - lo
  {
    if lo <= hi {
      var m := (hi + lo) / 2;
      var c := cmp(s[m]);
      if c > 0 {
        HitIsWithin(s, cmp, m + 1, hi, m, c);
      } else if c < 0 {
        HitIsWithin(s, cmp, lo, m - 1, m, c);
      }
    }
  }

  /** A character behind all others of an array. */
  function Behind(s: seq<Str>): (c: int)
    ensures c > 'z' as int && forall i, k :: 0 <= i < |s| && 0 <= k < |s[i]| ==> Fold(s[i][k]) < c
  {
    if s == [] then 123 else
    var a, b := Behind(s[..|s| - 1]), BehindOf(s[|s| - 1]);
    if a < b then b else a
  }

  function BehindOf(y: Str): (c: int)
    ensures c > 'z' as int && forall k :: 0 <= k < |y| ==> Fold(y[k]) < c
  {
    if y == [] then 123 else
    var c := BehindOf(y[..|y| - 1]);
    if Fold(y[|y| - 1]) < c then c else Fold(y[|y| - 1]) + 1
  }

  /** There is a string that the search beyond x stands for. */
  lemma BeyondIsDerived(s: seq<Str>, x: Str, y: Str, c: int)
    requires Plain(x) && Plain(y) && c > 'z' as int && forall k :: 0 <= k < |y| ==> Fold(y[k]) < c
    ensures StartsWith(x + [c], x) && Plain(x + [c])
    ensures DerivedCmp(x + [c])(y) == 0 <==> BeyondCmp(x)(y) == 0
    ensures DerivedCmp(x + [c])(y) > 0 <==> BeyondCmp(x)(y) > 0
  {
    var d := x + [c];
    forall k | 0 <= k < |x| ensures SameAt(d, x, k) {
    }
    BeyondMatches(x, y);
    DerivedMatches(d, y, 0);
    if ProperRoot(x, y) {
      BehindDecides(d, x, y, 0);
    } else {
      DerivedAsBeyond(d, x, y);
    }
  }

  lemma {:induction false} BehindDecides(d: Str, x: Str, y: Str, i: nat)
    requires Plain(x) && Plain(y) && |d| == |x| + 1 && d[..|x|] == x && i <= |x| < |y| && StartsFrom(y, x, i)
    requires d[|x|] > 'z' as int && Fold(y[|x|]) < d[|x|]
    ensures CmpFrom(d, y, i, |y|) > 0
    decreases |x| - i
  {
    if i < |x| {
      assert d[i] == x[i];
      StartsStep(y, x, i);
      BehindDecides(d, x, y, i + 1);
    }
  }

  lemma {:induction false} SameTurns(s: seq<Str>, cmp: Str -> int, cmp': Str -> int, lo: int, hi: int, i: int, res: int, res': int)
    requires 0 <= lo <= hi + 1 <= |s| && res != 0 && res' != 0
    requires forall k :: 0 <= k < |s| ==> TurnAlike(cmp, cmp', s[k])
    ensures Near(s, cmp, lo, hi, i, res).1 == 0 <==> Near(s, cmp', lo, hi, i, res').1 == 0
    decreases hi + 1 - lo
  {
    if lo <= hi {
      var m := (hi + lo) / 2;
      assert TurnAlike(cmp, cmp', s[m]);
      var c, c' := cmp(s[m]), cmp'(s[m]);
      if c > 0 {
        SameTurns(s, cmp, cmp', m + 1, hi, m, c, c');
      } else if c < 0 {
        SameTurns(s, cmp, cmp', lo, m - 1, m, c, c');
      }
    }
  }

  predicate TurnAlike(cmp: Str -> int, cmp': Str -> int, y: Str) {
    (cmp(y) == 0 <==> cmp'(y) == 0) && (cmp(y) > 0 <==> cmp'(y) > 0)
  }

  /** The search beyond an element has a hit: what has to be tried for each element of an array. */
  predicate FoundBeyond(s: seq<Str>, j: int)
    requires 0 <= j < |s|
  {
    Hit(s, BeyondCmp(s[j])) != BAD
  }

  /** FindKeyDerived finds a root of every string that has one in the array, exactly when the search beyond each
      element of the array has a hit. */
  lemma DerivedFindsAll(s: seq<Str>)
    requires Sorted(s) && AllPlain(s)
    ensures (forall derived :: Plain(derived) ==> FindsRoot(s, derived)) <==> forall j :: 0 <= j < |s| ==> FoundBeyond(s, j)
  {
    if forall derived :: Plain(derived) ==> FindsRoot(s, derived) {
      forall j | 0 <= j < |s| ensures FoundBeyond(s, j) {
        FoundBeyondEach(s, j);
      }
    }
    if forall j :: 0 <= j < |s| ==> FoundBeyond(s, j) {
      forall derived | Plain(derived) ensures FindsRoot(s, derived) {
        FoundFromBeyond(s, derived);
      }
    }
  }

  lemma FoundBeyondEach(s: seq<Str>, j: int)
    requires Sorted(s) && AllPlain(s) && 0 <= j < |s|
    requires forall derived :: Plain(derived) ==> FindsRoot(s, derived)
    ensures FoundBeyond(s, j)
  {
    var x, c := s[j], Behind(s);
    assert Plain(s[j]);
    forall k | 0 <= k < |s| ensures TurnAlike(DerivedCmp(x + [c]), BeyondCmp(x), s[k]) {
      BeyondIsDerived(s, x, s[k], c);
    }
    BeyondIsDerived(s, x, x, c);
    assert FindsRoot(s, x + [c]);
    SameTurns(s, DerivedCmp(x + [c]), BeyondCmp(x), 0, |s| - 1, 0, -1, -1);
    HitIsWithin(s, BeyondCmp(x), 0, |s| - 1, 0, -1);
  }

  lemma FoundFromBeyond(s: seq<Str>, derived: Str)
    requires Sorted(s) && AllPlain(s) && Plain(derived)
    requires forall j :: 0 <= j < |s| ==> FoundBeyond(s, j)
    ensures FindsRoot(s, derived)
  {
    if exists x <- s :: StartsWith(derived, x) {
      var j :| 0 <= j < |s| && StartsWith(derived, s[j]);
      assert FoundBeyond(s, j) && Plain(s[j]);
      PlainIsProper(derived);
      DerivedFollows(s, derived, s[j], 0, |s| - 1, 0, -1);
      HitIsWithin(s, DerivedCmp(derived), 0, |s| - 1, 0, -1);
    }
  }
}
