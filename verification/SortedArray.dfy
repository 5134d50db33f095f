/** The sorted arrays of object pointers: cArraySorted with the comparisons of cArraySortValue, which
    breaks ties of the sort value by address, and of cArraySortHash, which does not. */
module SortedArray {
  import opened Wrappers
  import opened NearSearch

  /** What a subclass fixes: the sort value or hash code of an object, and whether CompareElems goes
      on to compare addresses. */
  datatype Keys = Keys(key: Ptr -> int, byAddress: bool) {

    /** cValT::Compare */
    static function Compare(a: int, b: int): int {
      if a == b then 0 else if a < b then -1 else 1
    }

    function CompareKey(k: int, y: Ptr): int { Compare(k, key(y)) }

    function CompareElems(x: Ptr, y: Ptr): int {
      if key(x) == key(y) then (if byAddress then Compare(x, y) else 0) else Compare(key(x), key(y))
    }

    /** The two comparisons as seen by a search for one argument. */
    function ToKey(k: int): Ptr -> int { y => CompareKey(k, y) }
    function ToElem(x: Ptr): Ptr -> int { y => CompareElems(x, y) }

    ghost predicate Sorted(s: seq<Ptr>) {
      forall i, j :: 0 <= i < j < |s| ==> key(s[i]) <= key(s[j])
    }

    /** isSpanSortedND: strictly increasing under CompareElems. */
    ghost predicate Strict(s: seq<Ptr>) {
      forall i, j :: 0 <= i < j < |s| ==> CompareElems(s[i], s[j]) < 0
    }
  }

  // ----- runs of equal keys

  /** The number of elements with keys below k, in a sorted array. */
  function LowerBound(keys: Keys, s: seq<Ptr>, k: int): (n: nat)
    ensures n <= |s|
    ensures forall i :: 0 <= i < n ==> keys.key(s[i]) < k
    ensures n < |s| ==> keys.key(s[n]) >= k
  {
    if s == [] || keys.key(s[0]) >= k then 0 else 1 + LowerBound(keys, s[1..], k)
  }

  /** The number of elements with keys up to k, in a sorted array. */
  function UpperBound(keys: Keys, s: seq<Ptr>, k: int): (n: nat)
    ensures n <= |s|
    ensures forall i :: 0 <= i < n ==> keys.key(s[i]) <= k
    ensures n < |s| ==> keys.key(s[n]) > k
  {
    if s == [] || keys.key(s[0]) > k then 0 else 1 + UpperBound(keys, s[1..], k)
  }

  predicate HasKey(keys: Keys, s: seq<Ptr>, k: int) { exists i :: 0 <= i < |s| && keys.key(s[i]) == k }

  function Insert(s: seq<Ptr>, i: int, x: Ptr): seq<Ptr>
    requires 0 <= i <= |s|
  {
    s[..i] + [x] + s[i..]
  }

  function Remove(s: seq<Ptr>, i: int): seq<Ptr>
    requires 0 <= i < |s|
  {
    s[..i] + s[i + 1..]
  }

  ghost predicate RemovedKey(keys: Keys, s: seq<Ptr>, k: int, t: seq<Ptr>) {
    exists i :: 0 <= i < |s| && keys.key(s[i]) == k && t == Remove(s, i)
  }

  /** Insertion after the last element whose key is not greater. */
  function InsertStable(keys: Keys, s: seq<Ptr>, x: Ptr): seq<Ptr> {
    Insert(s, UpperBound(keys, s, keys.key(x)), x)
  }

  /** AddSort. collide is what to do about another element that compares equal. */
  function AddSort(keys: Keys, s: seq<Ptr>, x: Ptr, collide: int): (r: (seq<Ptr>, int)) {
    var f := FindNear(s, keys.ToElem(x));
    if f.1 == 0 then
      if x == s[f.0] then (s, f.0)
      else if collide == 1 then (s[f.0 := x], f.0)
      else (s, BAD)
    else (Insert(s, Place(f), x), Place(f))
  }

  /** What AddSort does about an element that compares equal: nothing if it is the same one; for another, collide
      of 1 replaces it, and any other value keeps it and says so. Everything else stays where it is. */
  lemma AddSortMeetsEqual(keys: Keys, s: seq<Ptr>, x: Ptr, collide: int)
    requires FindNear(s, keys.ToElem(x)).1 == 0
    ensures var (t, index) := AddSort(keys, s, x, collide);
            exists i :: 0 <= i < |s| && keys.CompareElems(x, s[i]) == 0 && |t| == |s|
              && (forall j :: 0 <= j < |s| && j != i ==> t[j] == s[j])
              && t[i] == (if collide == 1 then x else s[i])
              && index == (if s[i] == x || collide == 1 then i else BAD)
  {
    var i := FindNear(s, keys.ToElem(x)).0;
    assert keys.ToElem(x)(s[i]) == 0;
  }

  /** In a strictly sorted array there is such an element if and only if one compares equal. */
  lemma AddSortMeetsAll(keys: Keys, s: seq<Ptr>, x: Ptr)
    requires keys.Strict(s)
    ensures FindNear(s, keys.ToElem(x)).1 == 0 <==> exists i :: 0 <= i < |s| && keys.CompareElems(x, s[i]) == 0
  {
    StrictIsSplitOnce(keys, s, x);
    NearIsExact(s, keys.ToElem(x));
  }

  function IndexOf(s: seq<Ptr>, x: Ptr): (i: int)
    ensures i == BAD <==> x !in s
    ensures i != BAD ==> 0 <= i < |s| && s[i] == x && x !in s[..i]
  {
    if s == [] then BAD
    else if s[0] == x then 0
    else var i := IndexOf(s[1..], x); if i == BAD then BAD else i + 1
  }

  function RemoveArg(s: seq<Ptr>, x: Ptr): seq<Ptr> {
    var i := IndexOf(s, x);
    if i == BAD then s else Remove(s, i)
  }

  // ----- AddSort

  lemma InsertSorted(keys: Keys, s: seq<Ptr>, p: int, x: Ptr)
    requires keys.Sorted(s) && 0 <= p <= |s|
    requires p > 0 ==> keys.key(s[p - 1]) <= keys.key(x)
    requires p < |s| ==> keys.key(x) <= keys.key(s[p])
    ensures keys.Sorted(Insert(s, p, x))
  {
  }

  /** On an array sorted by key, even one in which addresses are out of order within a key, AddSort
      keeps the keys sorted. */
  lemma AddSortKeepsSorted(keys: Keys, s: seq<Ptr>, x: Ptr, collide: int)
    requires keys.Sorted(s)
    ensures keys.Sorted(AddSort(keys, s, x, collide).0)
  {
    var f := FindNear(s, keys.ToElem(x));
    if f.1 != 0 {
      InsertSorted(keys, s, Place(f), x);
    }
  }

  lemma StrictIsSplitOnce(keys: Keys, s: seq<Ptr>, x: Ptr)
    requires keys.Strict(s)
    ensures SplitOnce(s, keys.ToElem(x))
  {
    forall i, j | 0 <= i < j < |s|
      ensures keys.CompareElems(x, s[j]) > 0 ==> keys.CompareElems(x, s[i]) > 0
      ensures keys.CompareElems(x, s[i]) < 0 ==> keys.CompareElems(x, s[j]) < 0
    {
      assert keys.CompareElems(s[i], s[j]) < 0;
    }
  }

  lemma InsertStrict(keys: Keys, s: seq<Ptr>, p: int, x: Ptr)
    requires keys.Strict(s) && 0 <= p <= |s|
    requires forall i :: 0 <= i < p ==> keys.CompareElems(x, s[i]) > 0
    requires forall i :: p <= i < |s| ==> keys.CompareElems(x, s[i]) < 0
    ensures keys.Strict(Insert(s, p, x))
  {
    var t := Insert(s, p, x);
    forall i, j | 0 <= i < j < |t| ensures keys.CompareElems(t[i], t[j]) < 0 {
      if i != p && j != p {
        assert t[i] == s[if i < p then i else i - 1] && t[j] == s[if j < p then j else j - 1];
      }
    }
  }

  lemma ReplaceStrict(keys: Keys, s: seq<Ptr>, p: int, x: Ptr)
    requires keys.Strict(s) && 0 <= p < |s| && keys.CompareElems(x, s[p]) == 0
    ensures keys.Strict(s[p := x])
  {
    var t := s[p := x];
    forall i, j | 0 <= i < j < |t| ensures keys.CompareElems(t[i], t[j]) < 0 {
      assert keys.CompareElems(s[i], s[j]) < 0;
    }
  }

  /** On a strictly sorted array AddSort keeps it strictly sorted, and adds an element exactly when
      nothing there compares equal to the new one. */
  lemma AddSortKeepsStrict(keys: Keys, s: seq<Ptr>, x: Ptr, collide: int)
    requires keys.Strict(s)
    ensures var t := AddSort(keys, s, x, collide).0;
            && keys.Strict(t)
            && |t| == (if exists y <- s :: keys.CompareElems(x, y) == 0 then |s| else |s| + 1)
            && (keys.byAddress ==> (x in s <==> t == s))
  {
    StrictIsSplitOnce(keys, s, x);
    var cmp := keys.ToElem(x);
    NearIsExact(s, cmp);
    var f := FindNear(s, cmp);
    if f.1 == 0 {
      ReplaceStrict(keys, s, f.0, x);
    } else {
      InsertStrict(keys, s, Place(f), x);
    }
  }

  // ----- AddAfter and RemoveArgKey

  lemma KeyIsSplitOnce(keys: Keys, s: seq<Ptr>, k: int)
    requires keys.Sorted(s)
    ensures SplitOnce(s, keys.ToKey(k))
  {
  }

  lemma UpperBoundIs(keys: Keys, s: seq<Ptr>, k: int, p: int)
    requires 0 <= p <= |s|
    requires forall i :: 0 <= i < p ==> keys.key(s[i]) <= k
    requires p < |s| ==> keys.key(s[p]) > k
    ensures UpperBound(keys, s, k) == p
  {
    var u := UpperBound(keys, s, k);
    assert u < |s| ==> keys.key(s[u]) > k;
  }

  /** Without an element of the same key there is only one place for a new one. */
  lemma AddSortNewKey(keys: Keys, s: seq<Ptr>, x: Ptr, collide: int)
    requires keys.Sorted(s) && !HasKey(keys, s, keys.key(x))
    ensures AddSort(keys, s, x, collide) == (InsertStable(keys, s, x), UpperBound(keys, s, keys.key(x)))
  {
    var k, f := keys.key(x), FindNear(s, keys.ToElem(x));
    assert f.1 != 0;
    var p := Place(f);
    assert p > 0 ==> keys.key(s[p - 1]) < k;
    assert p < |s| ==> keys.key(s[p]) > k;
    UpperBoundIs(keys, s, k, p);
  }

  lemma InsertStableKeepsSorted(keys: Keys, s: seq<Ptr>, x: Ptr)
    requires keys.Sorted(s)
    ensures keys.Sorted(InsertStable(keys, s, x))
  {
    InsertSorted(keys, s, UpperBound(keys, s, keys.key(x)), x);
  }

  lemma RemoveKeepsOrder(keys: Keys, s: seq<Ptr>, i: int)
    requires 0 <= i < |s|
    ensures keys.Sorted(s) ==> keys.Sorted(Remove(s, i))
    ensures keys.Strict(s) ==> keys.Strict(Remove(s, i))
  {
    var t := Remove(s, i);
    forall a, b | 0 <= a < b < |t|
      ensures keys.Sorted(s) ==> keys.key(t[a]) <= keys.key(t[b])
      ensures keys.Strict(s) ==> keys.CompareElems(t[a], t[b]) < 0
    {
      var a', b' := if a < i then a else a + 1, if b < i then b else b + 1;
      assert t[a] == s[a'] && t[b] == s[b'];
    }
  }

  datatype Op = OpAddSort(x: Ptr, collide: int) | OpAddAfter(x: Ptr) | OpRemove(x: Ptr)

  function Apply(keys: Keys, s: seq<Ptr>, op: Op): seq<Ptr> {
    match op
    case OpAddSort(x, collide) => AddSort(keys, s, x, collide).0
    case OpAddAfter(x) => InsertStable(keys, s, x)
    case OpRemove(x) => RemoveArg(s, x)
  }

  function ApplyAll(keys: Keys, s: seq<Ptr>, ops: seq<Op>): seq<Ptr> {
    if ops == [] then s else Apply(keys, ApplyAll(keys, s, ops[..|ops| - 1]), ops[|ops| - 1])
  }

  /** Any run of AddSort, AddAfter and RemoveArgKey keeps the array sorted by key; one without AddAfter
      keeps it strictly sorted by key and address. */
  lemma {:induction false} RunKeepsSorted(keys: Keys, ops: seq<Op>)
    ensures keys.Sorted(ApplyAll(keys, [], ops))
    ensures (forall op <- ops :: !op.OpAddAfter?) ==> keys.Strict(ApplyAll(keys, [], ops))
  {
    if ops != [] {
      var s, op := ApplyAll(keys, [], ops[..|ops| - 1]), ops[|ops| - 1];
      RunKeepsSorted(keys, ops[..|ops| - 1]);
      match op
      case OpAddSort(x, collide) =>
        AddSortKeepsSorted(keys, s, x, collide);
        if keys.Strict(s) {
          AddSortKeepsStrict(keys, s, x, collide);
        }
      case OpAddAfter(x) => InsertStableKeepsSorted(keys, s, x);
      case OpRemove(x) =>
        if x in s {
          RemoveKeepsOrder(keys, s, IndexOf(s, x));
        }
    }
  }

  /** What strictness is needed for. Objects 3 and 5 have one key; added after one another as 5, 3,
      they are sorted by key only, and AddSort, which looks for 3 by address, misses it and adds it a
      second time. */
  lemma AddSortCanAddTwice()
    ensures var keys := Keys(_ => 7, true);
            ApplyAll(keys, [], [OpAddAfter(5), OpAddAfter(3), OpAddSort(3, 0)]) == [3, 5, 3]
  {
    var keys := Keys(_ => 7, true);
    var ops := [OpAddAfter(5), OpAddAfter(3), OpAddSort(3, 0)];
    assert ops[..2] == [OpAddAfter(5), OpAddAfter(3)] && ops[..2][..1] == [OpAddAfter(5)] && ops[..2][..1][..0] == [];
    assert ApplyAll(keys, [], [OpAddAfter(5)]) == [5];
    assert ApplyAll(keys, [], ops[..2]) == [5, 3];
    assert FindNear([5, 3], keys.ToElem(3)) == (0, -1);
  }

  // ----- when AddSort finds every object that is there

  ghost predicate NoRepeats(s: seq<Ptr>) { forall i, j :: 0 <= i < j < |s| ==> s[i] != s[j] }

  /** The search of s[lo..hi + 1] ends with a hit. */
  predicate Finds(s: seq<Ptr>, cmp: Ptr -> int, lo: int, hi: int)
    requires 0 <= lo <= hi + 1 <= |s|
  {
    Near(s, cmp, lo, hi, 0, -1).1 == 0
  }

  /** Where the search has been before does not matter, and a hit is in the interval. */
  lemma {:induction false} NearFinds(s: seq<Ptr>, cmp: Ptr -> int, lo: int, hi: int, i: int, res: int)
    requires 0 <= lo <= hi + 1 <= |s| && res != 0
    ensures var r := Near(s, cmp, lo, hi, i, res);
            (r.1 == 0 <==> Finds(s, cmp, lo, hi)) && (r.1 == 0 ==> lo <= r.0 <= hi && cmp(s[r.0]) == 0)
    decreases hi + 1 - lo
  {
    if lo <= hi {
      var m := (hi + lo) / 2;
      var c := cmp(s[m]);
      if c > 0 {
        NearFinds(s, cmp, m + 1, hi, m, c);
      } else if c < 0 {
        NearFinds(s, cmp, lo, m - 1, m, c);
      }
    }
  }

  /** What is found by a comparison that tells all objects apart is the object itself. */
  lemma FoundIsItself(keys: Keys, s: seq<Ptr>, lo: int, hi: int, j: int)
    requires keys.byAddress && NoRepeats(s) && 0 <= lo <= hi + 1 <= |s| && 0 <= j < |s|
    requires Finds(s, keys.ToElem(s[j]), lo, hi)
    ensures lo <= j <= hi
  {
    NearFinds(s, keys.ToElem(s[j]), lo, hi, 0, -1);
  }

  ghost predicate FindsAll(keys: Keys, s: seq<Ptr>, lo: int, hi: int)
    requires 0 <= lo <= hi + 1 <= |s|
  {
    forall j :: lo <= j <= hi ==> FoundAt(keys, s, j, lo, hi)
  }

  /** The search of an interval for the object at j has a hit. */
  predicate FoundAt(keys: Keys, s: seq<Ptr>, j: int, lo: int, hi: int)
    requires 0 <= lo <= hi + 1 <= |s| && 0 <= j < |s|
  {
    Finds(s, keys.ToElem(s[j]), lo, hi)
  }

  ghost predicate StrictWithin(keys: Keys, s: seq<Ptr>, lo: int, hi: int)
    requires 0 <= lo <= hi + 1 <= |s|
  {
    forall i, j :: lo <= i < j <= hi ==> keys.CompareElems(s[i], s[j]) < 0
  }

  /** If every object of an interval is found there, those to the right of the probe are above it and those to
      the left below it, and so on within each half. */
  lemma {:induction false} FoundAreStrict(keys: Keys, s: seq<Ptr>, lo: int, hi: int)
    requires keys.byAddress && NoRepeats(s) && 0 <= lo <= hi + 1 <= |s| && FindsAll(keys, s, lo, hi)
    ensures StrictWithin(keys, s, lo, hi)
    decreases hi + 1 - lo, 1
  {
    if lo <= hi {
      FoundAround(keys, s, lo, (hi + lo) / 2, hi);
    }
  }

  lemma {:induction false} FoundAround(keys: Keys, s: seq<Ptr>, lo: int, m: int, hi: int)
    requires keys.byAddress && NoRepeats(s) && 0 <= lo <= hi < |s| && FindsAll(keys, s, lo, hi) && m == (hi + lo) / 2
    ensures StrictWithin(keys, s, lo, hi)
    decreases hi + 1 - lo, 0
  {
    ProbeParts(keys, s, lo, hi);
    FoundAreStrict(keys, s, m + 1, hi);
    FoundAreStrict(keys, s, lo, m - 1);
    JoinStrict(keys, s, lo, m, hi);
  }

  lemma ProbeParts(keys: Keys, s: seq<Ptr>, lo: int, hi: int)
    requires keys.byAddress && NoRepeats(s) && 0 <= lo <= hi < |s| && FindsAll(keys, s, lo, hi)
    ensures var m := (hi + lo) / 2;
            && FindsAll(keys, s, m + 1, hi) && FindsAll(keys, s, lo, m - 1)
            && (forall j :: lo <= j < m ==> keys.CompareElems(s[j], s[m]) < 0)
            && (forall j :: m < j <= hi ==> keys.CompareElems(s[j], s[m]) > 0)
  {
    var m := (hi + lo) / 2;
    forall j | m < j <= hi ensures keys.CompareElems(s[j], s[m]) > 0 && FoundAt(keys, s, j, m + 1, hi) {
      assert FoundAt(keys, s, j, lo, hi);
      FoundBeside(keys, s, lo, hi, j);
    }
    forall j | lo <= j < m ensures keys.CompareElems(s[j], s[m]) < 0 && FoundAt(keys, s, j, lo, m - 1) {
      assert FoundAt(keys, s, j, lo, hi);
      FoundBeside(keys, s, lo, hi, j);
    }
  }

  lemma JoinStrict(keys: Keys, s: seq<Ptr>, lo: int, m: int, hi: int)
    requires keys.byAddress && 0 <= lo <= m <= hi < |s| && StrictWithin(keys, s, lo, m - 1) && StrictWithin(keys, s, m + 1, hi)
    requires forall j :: lo <= j < m ==> keys.CompareElems(s[j], s[m]) < 0
    requires forall j :: m < j <= hi ==> keys.CompareElems(s[j], s[m]) > 0
    ensures StrictWithin(keys, s, lo, hi)
  {
    forall i, j | lo <= i < j <= hi ensures keys.CompareElems(s[i], s[j]) < 0 {
      if i < m < j {
        assert keys.CompareElems(s[i], s[m]) < 0 && keys.CompareElems(s[j], s[m]) > 0;
      }
    }
  }

  lemma FoundBeside(keys: Keys, s: seq<Ptr>, lo: int, hi: int, j: int)
    requires keys.byAddress && NoRepeats(s) && 0 <= lo <= j <= hi < |s| && j != (hi + lo) / 2
    requires FoundAt(keys, s, j, lo, hi)
    ensures var m := (hi + lo) / 2;
            if j > m then keys.CompareElems(s[j], s[m]) > 0 && FoundAt(keys, s, j, m + 1, hi)
            else keys.CompareElems(s[j], s[m]) < 0 && FoundAt(keys, s, j, lo, m - 1)
  {
    var m := (hi + lo) / 2;
    var c := keys.CompareElems(s[j], s[m]);
    assert c != 0 by { assert s[j] != s[m]; }
    if c > 0 {
      FoundIn(keys, s, m + 1, hi, j, m, c);
    } else {
      FoundIn(keys, s, lo, m - 1, j, m, c);
    }
  }

  lemma FoundIn(keys: Keys, s: seq<Ptr>, lo: int, hi: int, j: int, m: int, c: int)
    requires keys.byAddress && NoRepeats(s) && 0 <= lo <= hi + 1 <= |s| && 0 <= j < |s| && c != 0
    requires Near(s, keys.ToElem(s[j]), lo, hi, m, c).1 == 0
    ensures lo <= j <= hi && FoundAt(keys, s, j, lo, hi)
  {
    NearFinds(s, keys.ToElem(s[j]), lo, hi, m, c);
    FoundIsItself(keys, s, lo, hi, j);
  }

  /** AddSort of x changes nothing, as it should if x is there. */
  predicate AddsNothing(keys: Keys, s: seq<Ptr>, x: Ptr, collide: int) { AddSort(keys, s, x, collide).0 == s }

  lemma AddSortFindsOne(keys: Keys, s: seq<Ptr>, x: Ptr, collide: int)
    requires keys.byAddress
    ensures AddsNothing(keys, s, x, collide) <==> Finds(s, keys.ToElem(x), 0, |s| - 1)
  {
    NearFinds(s, keys.ToElem(x), 0, |s| - 1, 0, -1);
  }

  ghost predicate AddsNoneAgain(keys: Keys, s: seq<Ptr>, collide: int) {
    forall j :: 0 <= j < |s| ==> NotAgain(keys, s, j, collide)
  }

  predicate NotAgain(keys: Keys, s: seq<Ptr>, j: int, collide: int)
    requires 0 <= j < |s|
  {
    AddsNothing(keys, s, s[j], collide)
  }

  lemma FindsAllAddsNone(keys: Keys, s: seq<Ptr>, collide: int, hi: int)
    requires keys.byAddress && hi == |s| - 1
    ensures AddsNoneAgain(keys, s, collide) <==> FindsAll(keys, s, 0, hi)
  {
    forall j | 0 <= j <= hi ensures NotAgain(keys, s, j, collide) <==> FoundAt(keys, s, j, 0, hi) {
      AddSortFindsOne(keys, s, s[j], collide);
    }
    if AddsNoneAgain(keys, s, collide) {
      forall j | 0 <= j <= hi ensures FoundAt(keys, s, j, 0, hi) {
        assert NotAgain(keys, s, j, collide);
      }
    }
    if FindsAll(keys, s, 0, hi) {
      forall j | 0 <= j < |s| ensures NotAgain(keys, s, j, collide) {
        assert FoundAt(keys, s, j, 0, hi);
      }
    }
  }

  lemma StrictFindsAll(keys: Keys, s: seq<Ptr>, hi: int)
    requires keys.byAddress && keys.Strict(s) && hi == |s| - 1
    ensures FindsAll(keys, s, 0, hi)
  {
    forall j | 0 <= j <= hi ensures FoundAt(keys, s, j, 0, hi) {
      StrictIsSplitOnce(keys, s, s[j]);
      NearIsExact(s, keys.ToElem(s[j]));
    }
  }

  /** AddSort adds no object a second time exactly when the array is sorted by key and address: only then does
      it find every object that is there. */
  lemma AddSortFindsAll(keys: Keys, s: seq<Ptr>, collide: int)
    requires keys.byAddress && NoRepeats(s)
    ensures keys.Strict(s) <==> AddsNoneAgain(keys, s, collide)
  {
    var hi := |s| - 1;
    FindsAllAddsNone(keys, s, collide, hi);
    if keys.Strict(s) {
      StrictFindsAll(keys, s, hi);
    } else if FindsAll(keys, s, 0, hi) {
      FoundAreStrict(keys, s, 0, hi);
    }
  }

  // ----- AddAfter alone is a stable sort

  function AddAfterAll(keys: Keys, xs: seq<Ptr>): seq<Ptr> {
    if xs == [] then [] else InsertStable(keys, AddAfterAll(keys, xs[..|xs| - 1]), xs[|xs| - 1])
  }

  /** The elements with key k, in order. */
  function OfKey(keys: Keys, s: seq<Ptr>, k: int): seq<Ptr> {
    if s == [] then [] else (if keys.key(s[0]) == k then [s[0]] else []) + OfKey(keys, s[1..], k)
  }

  lemma {:induction false} OfKeyConcat(keys: Keys, s: seq<Ptr>, t: seq<Ptr>, k: int)
    ensures OfKey(keys, s + t, k) == OfKey(keys, s, k) + OfKey(keys, t, k)
  {
    if s == [] {
      assert s + t == t;
    } else {
      OfKeyConcat(keys, s[1..], t, k);
      assert (s + t)[1..] == s[1..] + t && (s + t)[0] == s[0];
    }
  }

  lemma {:induction false} OfKeyNone(keys: Keys, s: seq<Ptr>, k: int)
    ensures OfKey(keys, s, k) == [] <==> !HasKey(keys, s, k)
  {
    if s != [] {
      OfKeyNone(keys, s[1..], k);
      if keys.key(s[0]) != k {
        assert forall i :: 1 <= i < |s| ==> s[i] == s[1..][i - 1];
      }
    }
  }

  lemma OfKeyAround(keys: Keys, l: seq<Ptr>, x: Ptr, r: seq<Ptr>, k: int)
    ensures OfKey(keys, l + [x] + r, k) == OfKey(keys, l, k) + (if keys.key(x) == k then [x] else []) + OfKey(keys, r, k)
  {
    OfKeyConcat(keys, l + [x], r, k);
    OfKeyConcat(keys, l, [x], k);
    assert OfKey(keys, [x], k) == if keys.key(x) == k then [x] else [];
  }

  lemma NoneAboveUpperBound(keys: Keys, s: seq<Ptr>, k: int)
    requires keys.Sorted(s)
    ensures OfKey(keys, s[UpperBound(keys, s, k)..], k) == []
  {
    var p := UpperBound(keys, s, k);
    OfKeyNone(keys, s[p..], k);
    forall i | 0 <= i < |s[p..]| ensures keys.key(s[p..][i]) > k {
      assert s[p..][i] == s[p + i];
    }
  }

  lemma InsertStableOfKey(keys: Keys, s: seq<Ptr>, x: Ptr, k: int)
    requires keys.Sorted(s)
    ensures OfKey(keys, InsertStable(keys, s, x), k) == OfKey(keys, s, k) + if keys.key(x) == k then [x] else []
  {
    var p := UpperBound(keys, s, keys.key(x));
    var l, r := s[..p], s[p..];
    OfKeyAround(keys, l, x, r, k);
    assert s == l + r;
    OfKeyConcat(keys, l, r, k);
    if keys.key(x) == k {
      NoneAboveUpperBound(keys, s, k);
    }
  }

  lemma InsertStableMultiset(keys: Keys, s: seq<Ptr>, x: Ptr)
    ensures multiset(InsertStable(keys, s, x)) == multiset(s + [x])
  {
    var p := UpperBound(keys, s, keys.key(x));
    assert s == s[..p] + s[p..];
  }

  /** A run of AddAfter alone: the result is sorted, and within each key the elements stand in the order
      they were added. */
  lemma {:induction false} AddAfterIsStableSort(keys: Keys, xs: seq<Ptr>)
    ensures keys.Sorted(AddAfterAll(keys, xs))
    ensures forall k :: OfKey(keys, AddAfterAll(keys, xs), k) == OfKey(keys, xs, k)
    ensures multiset(AddAfterAll(keys, xs)) == multiset(xs)
  {
    AddAfterSorts(keys, xs);
    forall k ensures OfKey(keys, AddAfterAll(keys, xs), k) == OfKey(keys, xs, k) {
      AddAfterKeepsOrder(keys, xs, k);
    }
  }

  lemma {:induction false} AddAfterSorts(keys: Keys, xs: seq<Ptr>)
    ensures keys.Sorted(AddAfterAll(keys, xs)) && multiset(AddAfterAll(keys, xs)) == multiset(xs)
  {
    if xs != [] {
      var front, x := xs[..|xs| - 1], xs[|xs| - 1];
      AddAfterSorts(keys, front);
      InsertStableKeepsSorted(keys, AddAfterAll(keys, front), x);
      InsertStableMultiset(keys, AddAfterAll(keys, front), x);
      assert xs == front + [x];
    }
  }

  lemma {:induction false} AddAfterKeepsOrder(keys: Keys, xs: seq<Ptr>, k: int)
    ensures OfKey(keys, AddAfterAll(keys, xs), k) == OfKey(keys, xs, k)
  {
    if xs != [] {
      var front, x := xs[..|xs| - 1], xs[|xs| - 1];
      AddAfterKeepsOrder(keys, front, k);
      AddAfterSorts(keys, front);
      InsertStableOfKey(keys, AddAfterAll(keys, front), x, k);
      OfKeyAround(keys, front, x, [], k);
      assert front + [x] + [] == xs;
    }
  }

  lemma OfKeyTail(keys: Keys, s: seq<Ptr>, k: int)
    requires s != []
    ensures OfKey(keys, s[1..], k) == if keys.key(s[0]) == k then OfKey(keys, s, k)[1..] else OfKey(keys, s, k)
  {
  }

  /** There is only one such arrangement. */
  lemma {:induction false} StableSortIsUnique(keys: Keys, s: seq<Ptr>, t: seq<Ptr>)
    requires keys.Sorted(s) && keys.Sorted(t)
    requires forall k :: OfKey(keys, s, k) == OfKey(keys, t, k)
    ensures s == t
  {
    if s != [] {
      OfKeyNone(keys, s, keys.key(s[0]));
      OfKeyNone(keys, t, keys.key(s[0]));
    }
    if t != [] {
      OfKeyNone(keys, s, keys.key(t[0]));
      OfKeyNone(keys, t, keys.key(t[0]));
    }
    if s != [] && t != [] {
      var k, l := keys.key(s[0]), keys.key(t[0]);
      assert HasKey(keys, s, k) && HasKey(keys, t, l);
      assert k == l && s[0] == OfKey(keys, s, k)[0] == OfKey(keys, t, k)[0] == t[0];
      forall m ensures OfKey(keys, s[1..], m) == OfKey(keys, t[1..], m) {
        assert OfKey(keys, s, m) == OfKey(keys, t, m);
        OfKeyTail(keys, s, m);
        OfKeyTail(keys, t, m);
      }
      StableSortIsUnique(keys, s[1..], t[1..]);
    }
  }

  // ----- the array as an object

  class PtrArray {
    const keys: Keys
    var elems: seq<Ptr>

    ghost predicate Valid()
      reads this
    {
      keys.Sorted(elems) && NULL !in elems
    }

    constructor (keys: Keys)
      ensures Valid() && this.keys == keys && elems == []
    {
      this.keys := keys;
      elems := [];
    }

    /** FindINearS and FindINearKey: the same search with two comparisons. */
    /** It looks at no more elements than their number has bits. */
    method FindINear(cmp: Ptr -> int) returns (i: int, res: int, ghost probes: nat)
      ensures (i, res) == FindNear(elems, cmp)
      ensures probes <= Halvings(|elems|)
    {
      if elems == [] {
        return 0, -1, 0;
      }
      var iHigh, iLow := |elems| - 1, 0;
      i, res, probes := 0, -1, 0;
      ghost var near, most := FindNear(elems, cmp), Halvings(|elems|);
      while iLow <= iHigh
        invariant 0 <= iLow <= iHigh + 1 <= |elems|
        invariant near == Near(elems, cmp, iLow, iHigh, i, res)
        invariant probes + Halvings(iHigh + 1 - iLow) <= most
        decreases iHigh + 1 - iLow
      {
        i := (iHigh + iLow) / 2;
        ProbeHalves(iLow, iHigh, i);
        res, probes := cmp(elems[i]), probes + 1;
        if res == 0 {
          break;
        }
        if res > 0 {
          iLow := i + 1;
        } else {
          iHigh := i - 1;
        }
      }
    }

    method FindIForKey(k: int) returns (index: int)
      requires Valid()
      ensures index == BAD <==> !HasKey(keys, elems, k)
      ensures index != BAD ==> 0 <= index < |elems| && keys.key(elems[index]) == k
    {
      KeyIsSplitOnce(keys, elems, k);
      NearIsExact(elems, keys.ToKey(k));
      var i, res, probes := FindINear(keys.ToKey(k));
      index := if res != 0 then BAD else i;
    }

    method FindIFirstForKey(k: int) returns (index: int)
      requires Valid()
      ensures index == if HasKey(keys, elems, k) then LowerBound(keys, elems, k) else BAD
    {
      var i := FindIForKey(k);
      if i < 0 {
        return BAD;
      }
      // Walk back to get the first.
      while true
        invariant 0 <= i < |elems| && keys.key(elems[i]) == k
        decreases i
      {
        i := i - 1;
        if i < 0 || keys.CompareKey(k, elems[i]) != 0 {
          break;
        }
      }
      index := i + 1;
    }

    method FindILastForKey(k: int) returns (index: int)
      requires Valid()
      ensures index == if HasKey(keys, elems, k) then UpperBound(keys, elems, k) - 1 else BAD
    {
      var i := FindIForKey(k);
      if i < 0 {
        return BAD;
      }
      // Walk forward to get the last.
      while true
        invariant 0 <= i < |elems| && keys.key(elems[i]) == k
        decreases |elems| - i
      {
        i := i + 1;
        if i >= |elems| || keys.CompareKey(k, elems[i]) != 0 {
          break;
        }
      }
      index := i - 1;
    }

    /** Finds the object itself among all that may share its key; the scan runs to the end. */
    method FindIForAK(x: Ptr) returns (index: int)
      requires Valid()
      ensures index == IndexOf(elems, x)
    {
      if x == NULL {
        return BAD;
      }
      var i := FindIFirstForKey(keys.key(x));
      if i < 0 {
        return BAD;
      }
      while i < |elems|
        invariant 0 <= i <= |elems| && x !in elems[..i]
      {
        if elems[i] == x {
          IndexIs(elems, x, i);
          return i;
        }
        i := i + 1;
      }
      return BAD;
    }

    method RemoveArgKey(x: Ptr) returns (ok: bool)
      requires Valid()
      modifies this
      ensures Valid() && elems == RemoveArg(old(elems), x)
      ensures ok <==> x in old(elems)
    {
      var index := FindIForAK(x);
      if index < 0 {
        return false;
      }
      RemoveKeepsOrder(keys, elems, index);
      elems := Remove(elems, index);
      return true;
    }

    /** RemoveArgKey of arrays without duplicate keys: finds by key and removes only the object given. */
    method RemoveArgForKey(x: Ptr, k: int) returns (ok: bool)
      requires Valid() && keys.Strict(elems) && !keys.byAddress
      modifies this
      ensures Valid() && keys.Strict(elems)
      ensures ok <==> keys.key(x) == k && x in old(elems)
      ensures forall y :: y in elems <==> y in old(elems) && !(ok && y == x)
    {
      var index := FindIForKey(k);
      if keys.key(x) == k && x in elems {
        UniqueKey(keys, elems, x, index);
      }
      if index < 0 || elems[index] != x {
        return false;
      }
      RemoveOne(keys, elems, index);
      elems := Remove(elems, index);
      return true;
    }

    method RemoveAt(index: int)
      requires Valid() && keys.Strict(elems) && 0 <= index < |elems|
      modifies this
      ensures Valid() && keys.Strict(elems) && elems == Remove(old(elems), index)
    {
      RemoveOne(keys, elems, index);
      elems := Remove(elems, index);
    }

    /** Of several elements with the key, one is removed. */
    method RemoveKey(k: int) returns (ok: bool)
      requires Valid()
      modifies this
      ensures Valid() && (ok <==> HasKey(keys, old(elems), k))
      ensures if ok then RemovedKey(keys, old(elems), k, elems) else elems == old(elems)
      ensures keys.Strict(old(elems)) ==> keys.Strict(elems)
      ensures keys.Strict(old(elems)) && !keys.byAddress ==> forall y :: y in elems <==> y in old(elems) && keys.key(y) != k
    {
      var index := FindIForKey(k);
      if index < 0 {
        assert forall y <- elems :: keys.key(y) != k;
        return false;
      }
      RemoveKeepsOrder(keys, elems, index);
      if keys.Strict(elems) && !keys.byAddress {
        RemoveItsKey(keys, elems, index);
      }
      elems := Remove(elems, index);
      return true;
    }

    method Add(x: Ptr, collide: int) returns (index: int)
      requires Valid() && x != NULL
      modifies this
      ensures Valid() && (elems, index) == AddSort(keys, old(elems), x, collide)
    {
      AddSortKeepsSorted(keys, elems, x, collide);
      var i, res, probes := FindINear(keys.ToElem(x));
      if res == 0 {
        if x == elems[i] {
          return i;
        }
        if collide == 1 {
          elems := elems[i := x];
          return i;
        }
        return BAD;
      }
      if res > 0 {
        i := i + 1;
      }
      elems := Insert(elems, i, x);
      return i;
    }

    method AddAfter(x: Ptr) returns (index: int)
      requires Valid() && x != NULL
      modifies this
      ensures Valid() && elems == InsertStable(keys, old(elems), x)
      ensures index == UpperBound(keys, old(elems), keys.key(x))
    {
      InsertStableKeepsSorted(keys, elems, x);
      var i := FindILastForKey(keys.key(x));
      if i < 0 {
        AddSortNewKey(keys, elems, x, 0);
        index := Add(x, 0);
        return;
      }
      i := i + 1;
      elems := Insert(elems, i, x);
      return i;
    }
  }

  lemma StrictApart(keys: Keys, s: seq<Ptr>)
    requires keys.Strict(s)
    ensures forall i, j :: 0 <= i < j < |s| ==> s[i] != s[j]
    ensures !keys.byAddress ==> forall i, j :: 0 <= i < j < |s| ==> keys.key(s[i]) != keys.key(s[j])
  {
    forall i, j | 0 <= i < j < |s|
      ensures s[i] != s[j] && (!keys.byAddress ==> keys.key(s[i]) != keys.key(s[j]))
    {
      assert keys.CompareElems(s[i], s[j]) < 0;
    }
  }

  /** In a strictly sorted array without ties a key belongs to one element. */
  lemma UniqueKey(keys: Keys, s: seq<Ptr>, x: Ptr, i: int)
    requires keys.Strict(s) && !keys.byAddress && x in s
    requires 0 <= i < |s| ==> keys.key(s[i]) == keys.key(x)
    ensures 0 <= i < |s| ==> s[i] == x
  {
    StrictApart(keys, s);
  }

  lemma RemoveItsKey(keys: Keys, s: seq<Ptr>, i: int)
    requires keys.Strict(s) && !keys.byAddress && 0 <= i < |s|
    ensures forall y :: y in Remove(s, i) <==> y in s && keys.key(y) != keys.key(s[i])
  {
    RemoveOne(keys, s, i);
    forall y | y in s && keys.key(y) == keys.key(s[i]) ensures y == s[i] {
      UniqueKey(keys, s, y, i);
    }
  }

  lemma RemoveMembers(s: seq<Ptr>, i: int)
    requires 0 <= i < |s| && forall a, b :: 0 <= a < b < |s| ==> s[a] != s[b]
    ensures forall y :: y in Remove(s, i) <==> y in s && y != s[i]
  {
    assert s == s[..i] + [s[i]] + s[i + 1..];
    forall y ensures y in Remove(s, i) <==> y in s && y != s[i] {
      assert y in s <==> y in s[..i] || y == s[i] || y in s[i + 1..];
    }
  }

  lemma ReplaceMembers(s: seq<Ptr>, i: int, x: Ptr)
    requires 0 <= i < |s| && forall a, b :: 0 <= a < b < |s| ==> s[a] != s[b]
    ensures forall y :: y in s[i := x] <==> y == x || (y in s && y != s[i])
  {
    RemoveMembers(s, i);
    assert s[i := x] == s[..i] + [x] + s[i + 1..];
  }

  lemma RemoveOne(keys: Keys, s: seq<Ptr>, i: int)
    requires keys.Strict(s) && 0 <= i < |s|
    ensures keys.Strict(Remove(s, i)) && (keys.Sorted(s) ==> keys.Sorted(Remove(s, i)))
    ensures forall y :: y in Remove(s, i) <==> y in s && y != s[i]
  {
    RemoveKeepsOrder(keys, s, i);
    StrictApart(keys, s);
    RemoveMembers(s, i);
  }

  lemma ReplaceKey(keys: Keys, s: seq<Ptr>, x: Ptr, i: int)
    requires keys.Strict(s) && !keys.byAddress && 0 <= i < |s| && keys.key(s[i]) == keys.key(x)
    ensures forall y :: y in s[i := x] <==> y == x || (y in s && keys.key(y) != keys.key(x))
  {
    StrictApart(keys, s);
    ReplaceMembers(s, i, x);
  }

  /** Add with replacement, where equal keys compare equal: the new element is there, and with it
      every old one of another key. */
  lemma AddReplacing(keys: Keys, s: seq<Ptr>, x: Ptr)
    requires keys.Strict(s) && !keys.byAddress
    ensures keys.Strict(AddSort(keys, s, x, 1).0) && AddSort(keys, s, x, 1).1 != BAD
    ensures forall y :: y in AddSort(keys, s, x, 1).0 <==> y == x || (y in s && keys.key(y) != keys.key(x))
  {
    AddSortKeepsStrict(keys, s, x, 1);
    var f := FindNear(s, keys.ToElem(x));
    if f.1 == 0 {
      ReplaceKey(keys, s, x, f.0);
      assert AddSort(keys, s, x, 1).0 == s[f.0 := x];
    } else {
      MissInserts(keys, s, x);
    }
  }

  lemma InsertMembers(s: seq<Ptr>, p: int, x: Ptr)
    requires 0 <= p <= |s|
    ensures forall y :: y in Insert(s, p, x) <==> y == x || y in s
  {
    assert s == s[..p] + s[p..];
  }

  lemma MissMeansNewKey(keys: Keys, s: seq<Ptr>, x: Ptr)
    requires keys.Strict(s) && FindNear(s, keys.ToElem(x)).1 != 0
    ensures forall i :: 0 <= i < |s| ==> keys.CompareElems(x, s[i]) != 0
  {
    StrictIsSplitOnce(keys, s, x);
    NearIsExact(s, keys.ToElem(x));
  }

  lemma MissInserts(keys: Keys, s: seq<Ptr>, x: Ptr)
    requires keys.Strict(s) && !keys.byAddress && FindNear(s, keys.ToElem(x)).1 != 0
    ensures forall y :: y in AddSort(keys, s, x, 1).0 <==> y == x || (y in s && keys.key(y) != keys.key(x))
  {
    MissMeansNewKey(keys, s, x);
    InsertMembers(s, Place(FindNear(s, keys.ToElem(x))), x);
  }

  lemma {:induction false} IndexIs(s: seq<Ptr>, x: Ptr, i: nat)
    requires i < |s| && s[i] == x && x !in s[..i]
    ensures IndexOf(s, x) == i
  {
    if i > 0 {
      assert s[0] in s[..i] && s[1..][..i - 1] == s[..i][1..];
      IndexIs(s[1..], x, i - 1);
    }
  }
}
