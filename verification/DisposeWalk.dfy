/** The walks that dispose or delete every entry of an array while the objects take themselves (and
    others) out of it: cArrayRef::DisposeAll, cArraySortRef::DisposeAll, cArrayPtr::DeleteAll. */
module DisposeWalk {
  import opened Wrappers

  /** What the array holds after an object was disposed: decided from the objects disposed before, the
      object, and the entries of the array. */
  type Callback = (seq<Ptr>, Ptr, seq<Ptr>) -> seq<Ptr>

  /** a is what is left of b after removing some entries. */
  predicate Subsequence(a: seq<Ptr>, b: seq<Ptr>) {
    a == [] || (b != [] && (Subsequence(a, Front(b)) || (Last(a) == Last(b) && Subsequence(Front(a), Front(b)))))
  }

  function Front(s: seq<Ptr>): seq<Ptr>
    requires s != []
  {
    s[..|s| - 1]
  }

  function Last(s: seq<Ptr>): Ptr
    requires s != []
  {
    s[|s| - 1]
  }

  function Reverse(s: seq<Ptr>): seq<Ptr> {
    if s == [] then [] else [Last(s)] + Reverse(Front(s))
  }

  ghost predicate OnlyRemoves(callback: Callback) {
    forall done, x, s :: Subsequence(callback(done, x, s), s)
  }

  lemma {:induction false} SubsequenceLoses(a: seq<Ptr>, b: seq<Ptr>)
    requires Subsequence(a, b)
    ensures |a| <= |b| && (|a| == |b| ==> a == b)
    ensures multiset(a) <= multiset(b) && forall x <- a :: x in b
  {
    if a != [] {
      assert a == Front(a) + [Last(a)] && b == Front(b) + [Last(b)];
      if Subsequence(a, Front(b)) {
        SubsequenceLoses(a, Front(b));
      } else {
        SubsequenceLoses(Front(a), Front(b));
      }
    }
  }

  lemma {:induction false} SubsequenceOfSubsequence(a: seq<Ptr>, b: seq<Ptr>, c: seq<Ptr>)
    requires Subsequence(a, b) && Subsequence(b, c)
    ensures Subsequence(a, c)
  {
    if a != [] {
      if Subsequence(b, Front(c)) {
        SubsequenceOfSubsequence(a, b, Front(c));
      } else if Subsequence(a, Front(b)) {
        SubsequenceOfSubsequence(a, Front(b), Front(c));
      } else {
        SubsequenceOfSubsequence(Front(a), Front(b), Front(c));
      }
    }
  }

  lemma {:induction false} SubsequenceSelf(a: seq<Ptr>)
    ensures Subsequence(a, a)
  {
    if a != [] {
      SubsequenceSelf(Front(a));
    }
  }

  lemma CallLoses(callback: Callback, done: seq<Ptr>, x: Ptr, s: seq<Ptr>, s': seq<Ptr>)
    requires OnlyRemoves(callback) && s' == callback(done, x, s)
    ensures Subsequence(s', s) && |s'| <= |s| && (|s'| == |s| ==> s' == s)
    ensures multiset(s') <= multiset(s) && forall y <- s' :: y in s
  {
    assert Subsequence(callback(done, x, s), s);
    SubsequenceLoses(s', s);
  }

  // ----- The walk

  datatype Outcome = Outcome(disposed: seq<Ptr>, left: seq<Ptr>)

  /** The loop from index i on, in an array of elems, after disposing done. DeleteAll empties the slot
      of an object before it deletes it. */
  function Walk(elems: seq<Ptr>, i: int, done: seq<Ptr>, callback: Callback, deleting: bool): (r: Outcome)
    requires OnlyRemoves(callback) && -1 <= i < |elems|
    decreases |elems|, i + 1
  {
    if i < 0 then Outcome(done, elems)
    else if elems[i] == NULL then Walk(elems, i - 1, done, callback, deleting)
    else
      var seen := if deleting then elems[i := NULL] else elems;
      var elems' := callback(done, elems[i], seen);
      assert |elems'| <= |elems| by { CallLoses(callback, done, elems[i], seen, elems'); }
      Walk(elems', if |elems'| != |elems| then |elems'| - 1 else i - 1, done + [elems[i]], callback, deleting)
  }

  class PtrList {
    var elems: seq<Ptr>

    /** Whatever the objects remove while they are disposed, the walk ends, and never reads beyond the array. */
    method DisposeAll(callback: Callback) returns (disposed: seq<Ptr>, ghost left: seq<Ptr>)
      requires OnlyRemoves(callback)
      modifies this
      ensures Outcome(disposed, left) == Walk(old(elems), |old(elems)| - 1, [], callback, false)
      ensures elems == []
    {
      disposed := [];
      var size := |elems|;
      var i := size - 1;
      while i >= 0
        invariant -1 <= i < size == |elems|
        invariant Walk(elems, i, disposed, callback, false) == Walk(old(elems), |old(elems)| - 1, [], callback, false)
        decreases |elems|, i
      {
        var x := elems[i];
        if x != NULL {
          CallLoses(callback, disposed, x, elems, callback(disposed, x, elems));
          elems := callback(disposed, x, elems);
          disposed := disposed + [x];
        }
        if |elems| != size {
          size := |elems|;
          if i != size {
            i := size;
          }
        }
        i := i - 1;
      }
      left := elems;
      elems := [];
    }

    /** The slot is emptied before its object is deleted. */
    method DeleteAll(callback: Callback) returns (deleted: seq<Ptr>, ghost left: seq<Ptr>)
      requires OnlyRemoves(callback)
      modifies this
      ensures Outcome(deleted, left) == Walk(old(elems), |old(elems)| - 1, [], callback, true)
      ensures elems == []
    {
      deleted := [];
      var size := |elems|;
      var i := size - 1;
      while i >= 0
        invariant -1 <= i < size == |elems|
        invariant Walk(elems, i, deleted, callback, true) == Walk(old(elems), |old(elems)| - 1, [], callback, true)
        decreases |elems|, i
      {
        var x := elems[i];
        if x != NULL {
          DeletesNext(elems, i, deleted, callback);
          elems := elems[i := NULL];
          elems := callback(deleted, x, elems);
          deleted := deleted + [x];
        }
        if |elems| != size {
          size := |elems|;
          if i != size {
            i := size;
          }
        }
        i := i - 1;
      }
      left := elems;
      elems := [];
    }
  }

  lemma DeletesNext(elems: seq<Ptr>, i: nat, done: seq<Ptr>, callback: Callback)
    requires OnlyRemoves(callback) && i < |elems| && elems[i] != NULL
    ensures var elems' := callback(done, elems[i], elems[i := NULL]);
            && |elems'| <= |elems|
            && Walk(elems, i, done, callback, true) ==
               Walk(elems', if |elems'| != |elems| then |elems'| - 1 else i - 1, done + [elems[i]], callback, true)
  {
    CallLoses(callback, done, elems[i], elems[i := NULL], callback(done, elems[i], elems[i := NULL]));
  }

  /** Every object of the array is disposed, or was taken out by the objects that were. */
  lemma {:induction false} WalkDisposesAll(elems: seq<Ptr>, i: int, done: seq<Ptr>, callback: Callback)
    requires OnlyRemoves(callback) && -1 <= i < |elems|
    requires forall j :: i < j < |elems| ==> elems[j] == NULL || elems[j] in done
    ensures var r := Walk(elems, i, done, callback, false);
            Subsequence(r.left, elems) && forall j :: 0 <= j < |r.left| ==> r.left[j] == NULL || r.left[j] in r.disposed
    decreases |elems|, i + 1
  {
    if i < 0 {
      SubsequenceSelf(elems);
    } else if elems[i] == NULL {
      WalkDisposesAll(elems, i - 1, done, callback);
    } else {
      var elems' := callback(done, elems[i], elems);
      CallLoses(callback, done, elems[i], elems, elems');
      WalkDisposesAll(elems', if |elems'| != |elems| then |elems'| - 1 else i - 1, done + [elems[i]], callback);
      SubsequenceOfSubsequence(Walk(elems, i, done, callback, false).left, elems', elems);
    }
  }

  /** Only objects of the array are disposed. */
  lemma {:induction false} WalkDisposesItsOwn(elems: seq<Ptr>, i: int, done: seq<Ptr>, callback: Callback)
    requires OnlyRemoves(callback) && -1 <= i < |elems|
    ensures forall x <- Walk(elems, i, done, callback, false).disposed :: x in done || (x != NULL && x in elems)
    decreases |elems|, i + 1
  {
    if i < 0 {
    } else if elems[i] == NULL {
      WalkDisposesItsOwn(elems, i - 1, done, callback);
    } else {
      var elems' := callback(done, elems[i], elems);
      CallLoses(callback, done, elems[i], elems, elems');
      WalkDisposesItsOwn(elems', if |elems'| != |elems| then |elems'| - 1 else i - 1, done + [elems[i]], callback);
    }
  }

  predicate Emptied(elems: seq<Ptr>, from: nat) {
    forall j :: from <= j < |elems| ==> elems[j] == NULL
  }

  /** Deleting leaves no object in the array, and deletes none more often than the array held it. */
  lemma {:induction false} DeleteWalkDeletesOnce(elems: seq<Ptr>, i: int, done: seq<Ptr>, callback: Callback)
    requires OnlyRemoves(callback) && -1 <= i < |elems|
    requires Emptied(elems, i + 1)
    ensures var r := Walk(elems, i, done, callback, true);
            && Emptied(r.left, 0)
            && (forall x :: x != NULL ==> multiset(r.disposed)[x] <= multiset(done)[x] + multiset(elems)[x])
            && (NULL !in done ==> NULL !in r.disposed)
    decreases |elems|, i + 1
  {
    if i < 0 {
    } else if elems[i] == NULL {
      DeleteWalkDeletesOnce(elems, i - 1, done, callback);
    } else {
      var seen := elems[i := NULL];
      var elems' := callback(done, elems[i], seen);
      var i' := if |elems'| != |elems| then |elems'| - 1 else i - 1;
      CallLoses(callback, done, elems[i], seen, elems');
      MovedOnce(done, elems, i, elems');
      DeleteWalkDeletesOnce(elems', i', done + [elems[i]], callback);
      assert Walk(elems, i, done, callback, true) == Walk(elems', i', done + [elems[i]], callback, true);
    }
  }

  lemma MovedOnce(done: seq<Ptr>, elems: seq<Ptr>, i: nat, elems': seq<Ptr>)
    requires i < |elems| && multiset(elems') <= multiset(elems[i := NULL])
    ensures forall x :: x != NULL ==>
      multiset(done + [elems[i]])[x] + multiset(elems')[x] <= multiset(done)[x] + multiset(elems)[x]
  {
  }

  // ----- How often DisposeAll disposes

  /** 1 + 2 + ... + n */
  function Triangle(n: nat): (t: nat)
    ensures t >= n
  {
    if n == 0 then 0 else n + Triangle(n - 1)
  }

  lemma TriangleGrows(m: nat, n: nat)
    requires m <= n
    ensures Triangle(m) <= Triangle(n)
  {
  }

  /** An array of n entries needs at most 1 + 2 + ... + n calls. */
  lemma {:induction false} CallsAreBounded(elems: seq<Ptr>, i: int, done: seq<Ptr>, callback: Callback)
    requires OnlyRemoves(callback) && -1 <= i < |elems|
    ensures |Walk(elems, i, done, callback, false).disposed| <= |done| + if i < 0 then 0 else i + 1 + Triangle(|elems| - 1)
    decreases |elems|, i + 1
  {
    if i < 0 {
    } else if elems[i] == NULL {
      CallsAreBounded(elems, i - 1, done, callback);
    } else {
      var elems' := callback(done, elems[i], elems);
      CallLoses(callback, done, elems[i], elems, elems');
      CallsAreBounded(elems', if |elems'| != |elems| then |elems'| - 1 else i - 1, done + [elems[i]], callback);
      if 0 < |elems'| < |elems| {
        TriangleGrows(|elems'|, |elems| - 1);
      }
    }
  }

  /** The first object of the array takes out the last entry; no other object takes out any. */
  function FirstDropsLast(done: seq<Ptr>, x: Ptr, s: seq<Ptr>): seq<Ptr> {
    if s != [] && x == s[0] then Front(s) else s
  }

  lemma FirstDropsLastOnlyRemoves()
    ensures OnlyRemoves(FirstDropsLast)
  {
    forall done, x, s ensures Subsequence(FirstDropsLast(done, x, s), s) {
      SubsequenceSelf(s);
      if s != [] {
        SubsequenceSelf(Front(s));
      }
    }
  }

  lemma {:induction false} BoundIsMetFrom(elems: seq<Ptr>, i: int, done: seq<Ptr>)
    requires OnlyRemoves(FirstDropsLast) && 0 <= i < |elems|
    requires NULL !in elems && forall j :: 0 < j < |elems| ==> elems[j] != elems[0]
    ensures |Walk(elems, i, done, FirstDropsLast, false).disposed| == |done| + i + 1 + Triangle(|elems| - 1)
    decreases |elems|, i
  {
    if i > 0 {
      BoundIsMetFrom(elems, i - 1, done + [elems[i]]);
    } else if |elems| > 1 {
      BoundIsMetFrom(Front(elems), |elems| - 2, done + [elems[0]]);
    }
  }

  /** That many calls are needed for some objects: disposing is then repeated from the end after each removal. */
  lemma BoundIsMet(elems: seq<Ptr>)
    requires NULL !in elems && forall j :: 0 < j < |elems| ==> elems[j] != elems[0]
    ensures OnlyRemoves(FirstDropsLast)
    ensures |Walk(elems, |elems| - 1, [], FirstDropsLast, false).disposed| == Triangle(|elems|)
  {
    FirstDropsLastOnlyRemoves();
    if elems != [] {
      BoundIsMetFrom(elems, |elems| - 1, []);
    }
  }

  // ----- exactly when nothing is disposed twice

  predicate NoRepeats(s: seq<Ptr>) { s == [] || (Last(s) !in Front(s) && NoRepeats(Front(s))) }

  /** What a call leaves sends the walk on to an entry that was not disposed: it leaves the array alone, or
      empty, or with a last entry that stood before the one disposed. */
  predicate LeavesFresh(elems: seq<Ptr>, i: nat, elems': seq<Ptr>)
    requires i < |elems|
  {
    elems' == elems || elems' == [] || Last(elems') in elems[..i]
  }

  /** Every call of the walk does. */
  predicate Steady(elems: seq<Ptr>, i: int, done: seq<Ptr>, callback: Callback)
    requires OnlyRemoves(callback) && -1 <= i < |elems| && NULL !in elems
    decreases |elems|, i + 1
  {
    if i < 0 then true else
    var elems' := callback(done, elems[i], elems);
    assert |elems'| <= |elems| && (|elems'| == |elems| ==> elems' == elems) && NULL !in elems' by { CallLoses(callback, done, elems[i], elems, elems'); }
    LeavesFresh(elems, i, elems') && Steady(elems', if |elems'| != |elems| then |elems'| - 1 else i - 1, done + [elems[i]], callback)
  }

  lemma {:induction false} DisposedExtends(elems: seq<Ptr>, i: int, done: seq<Ptr>, callback: Callback)
    requires OnlyRemoves(callback) && -1 <= i < |elems| && NULL !in elems
    ensures var d := Walk(elems, i, done, callback, false).disposed;
            done <= d && (i >= 0 ==> done + [elems[i]] <= d)
    decreases |elems|, i + 1
  {
    if i >= 0 {
      var elems' := callback(done, elems[i], elems);
      CallLoses(callback, done, elems[i], elems, elems');
      DisposedExtends(elems', if |elems'| != |elems| then |elems'| - 1 else i - 1, done + [elems[i]], callback);
    }
  }

  /** What stands before the last entry left stood before it. */
  lemma {:induction false} LeftBefore(a: seq<Ptr>, b: seq<Ptr>, p: nat)
    requires Subsequence(a, b) && a != [] && NoRepeats(b) && p <= |b| && Last(a) in b[..p]
    ensures Subsequence(a, b[..p])
    decreases |b|
  {
    if p < |b| {
      assert b[..p] == Front(b)[..p] && Last(b) !in Front(b);
      LeftBefore(a, Front(b), p);
    } else {
      assert b[..p] == b;
    }
  }

  lemma {:induction false} PrefixRepeats(a: seq<Ptr>, b: seq<Ptr>)
    requires NoRepeats(b) && a <= b
    ensures NoRepeats(a)
    decreases |b|
  {
    if a != b {
      PrefixRepeats(a, Front(b));
    }
  }

  lemma {:induction false} LossRepeats(a: seq<Ptr>, b: seq<Ptr>)
    requires NoRepeats(b) && Subsequence(a, b)
    ensures NoRepeats(a)
    decreases |b|
  {
    if a != [] {
      if Subsequence(a, Front(b)) {
        LossRepeats(a, Front(b));
      } else {
        LossRepeats(Front(a), Front(b));
        SubsequenceLoses(Front(a), Front(b));
      }
    }
  }

  /** What holds before each turn of a walk that has not repeated itself: what was disposed is behind the index. */
  ghost predicate Apart(elems: seq<Ptr>, i: int, done: seq<Ptr>)
    requires -1 <= i < |elems|
  {
    && NULL !in elems && NoRepeats(elems) && NoRepeats(done)
    && (forall x <- elems[..i + 1] :: x !in done)
    && (forall x <- elems[i + 1..] :: x in done)
  }

  /** After a call that keeps to the rule, the walk goes on in such a state. */
  lemma SteadyStaysApart(elems: seq<Ptr>, i: nat, done: seq<Ptr>, elems': seq<Ptr>)
    requires i < |elems| && Apart(elems, i, done) && Subsequence(elems', elems) && LeavesFresh(elems, i, elems')
    ensures Apart(elems', if |elems'| != |elems| then |elems'| - 1 else i - 1, done + [elems[i]])
  {
    SubsequenceLoses(elems', elems);
    LossRepeats(elems', elems);
    assert elems[i] in elems[..i + 1] && (done + [elems[i]])[..|done|] == done;
    if |elems'| == |elems| {
      KeptApart(elems, i, done);
    } else if elems' != [] {
      LeftBefore(elems', elems, i);
      SubsequenceLoses(elems', elems[..i]);
      RestartApart(elems, i, done, elems');
    }
  }

  lemma KeptApart(elems: seq<Ptr>, i: nat, done: seq<Ptr>)
    requires i < |elems| && Apart(elems, i, done)
    ensures Apart(elems, i - 1, done + [elems[i]])
  {
    ItsOwnPlace(elems, i);
    assert elems[..i + 1] == elems[..i] + [elems[i]] && elems[i..] == [elems[i]] + elems[i + 1..];
    assert Front(done + [elems[i]]) == done;
  }

  lemma {:induction false} ItsOwnPlace(s: seq<Ptr>, i: nat)
    requires NoRepeats(s) && i < |s|
    ensures s[i] !in s[..i]
    decreases |s|
  {
    if i == |s| - 1 {
      assert s[..i] == Front(s);
    } else {
      assert s[..i] == Front(s)[..i];
      ItsOwnPlace(Front(s), i);
    }
  }

  lemma RestartApart(elems: seq<Ptr>, i: nat, done: seq<Ptr>, elems': seq<Ptr>)
    requires i < |elems| && Apart(elems, i, done) && elems' != [] && NoRepeats(elems') && NULL !in elems'
    requires forall x <- elems' :: x in elems[..i]
    ensures Apart(elems', |elems'| - 1, done + [elems[i]])
  {
    ItsOwnPlace(elems, i);
    assert elems[..i + 1] == elems[..i] + [elems[i]];
    StaysFresh(elems[..i], elems[i], done, elems');
    FreshApart(elems', done + [elems[i]]);
  }

  lemma FreshApart(s: seq<Ptr>, done: seq<Ptr>)
    requires s != [] && NoRepeats(s) && NULL !in s && NoRepeats(done) && forall y <- s :: y !in done
    ensures Apart(s, |s| - 1, done)
  {
    assert s[..|s|] == s && s[|s|..] == [];
  }

  lemma StaysFresh(left: seq<Ptr>, x: Ptr, done: seq<Ptr>, elems': seq<Ptr>)
    requires x !in left && (forall y <- left + [x] :: y !in done) && forall y <- elems' :: y in left
    ensures forall y <- elems' :: y !in done + [x]
    ensures NoRepeats(done) ==> NoRepeats(done + [x])
  {
    assert Front(done + [x]) == done && x in left + [x];
    forall y <- elems' ensures y !in done + [x] {
      assert y in left + [x];
    }
  }

  /** Nothing is disposed twice exactly when every call of the walk leaves the array alone, or empty, or with a
      last entry that stood before the one disposed. */
  lemma {:induction false} DisposesOnce(elems: seq<Ptr>, i: int, done: seq<Ptr>, callback: Callback)
    requires OnlyRemoves(callback) && -1 <= i < |elems| && Apart(elems, i, done)
    ensures NoRepeats(Walk(elems, i, done, callback, false).disposed) <==> Steady(elems, i, done, callback)
    decreases |elems|, i + 1
  {
    if i >= 0 {
      var elems' := callback(done, elems[i], elems);
      var i' := if |elems'| != |elems| then |elems'| - 1 else i - 1;
      CallLoses(callback, done, elems[i], elems, elems');
      if LeavesFresh(elems, i, elems') {
        SteadyStaysApart(elems, i, done, elems');
        DisposesOnce(elems', i', done + [elems[i]], callback);
      } else {
        DisposesAgain(elems, i, done, elems', callback);
      }
    }
  }

  /** Otherwise the last entry left is disposed again at once. */
  lemma DisposesAgain(elems: seq<Ptr>, i: nat, done: seq<Ptr>, elems': seq<Ptr>, callback: Callback)
    requires OnlyRemoves(callback) && i < |elems| && Apart(elems, i, done) && Subsequence(elems', elems)
    requires |elems'| < |elems| && NULL !in elems' && !LeavesFresh(elems, i, elems')
    ensures !NoRepeats(Walk(elems', |elems'| - 1, done + [elems[i]], callback, false).disposed)
  {
    var done' := done + [elems[i]];
    var e := Last(elems');
    SubsequenceLoses(elems', elems);
    assert e in elems && elems == elems[..i] + [elems[i]] + elems[i + 1..];
    assert e in done';
    DisposedExtends(elems', |elems'| - 1, done', callback);
    var d := Walk(elems', |elems'| - 1, done', callback, false).disposed;
    assert Front(done' + [e]) == done' && !NoRepeats(done' + [e]);
    if NoRepeats(d) {
      PrefixRepeats(done' + [e], d);
    }
  }

  /** When no object takes out any, each is disposed once, from the last to the first. */
  lemma {:induction false} KeepingDisposesOnce(elems: seq<Ptr>, i: int, done: seq<Ptr>, callback: Callback)
    requires OnlyRemoves(callback) && -1 <= i < |elems| && NULL !in elems
    requires forall done', x :: callback(done', x, elems) == elems
    ensures Walk(elems, i, done, callback, false) == Outcome(done + Reverse(elems[..i + 1]), elems)
    decreases i + 1
  {
    if i >= 0 {
      KeepingDisposesOnce(elems, i - 1, done + [elems[i]], callback);
      assert Front(elems[..i + 1]) == elems[..i];
    }
  }

  /** The last object takes itself out, and no other. */
  predicate TakesItselfOut(callback: Callback, done: seq<Ptr>, s: seq<Ptr>) {
    s != [] ==> callback(done, Last(s), s) == Front(s)
  }

  /** When every object takes itself out, and no other, each is disposed once, from the last to the first. */
  lemma {:induction false} LeavingDisposesOnce(elems: seq<Ptr>, done: seq<Ptr>, callback: Callback)
    requires OnlyRemoves(callback) && NULL !in elems
    requires forall done', s :: TakesItselfOut(callback, done', s)
    ensures Walk(elems, |elems| - 1, done, callback, false) == Outcome(done + Reverse(elems), [])
  {
    if elems != [] {
      assert TakesItselfOut(callback, done, elems);
      var done' := done + [Last(elems)];
      LeavingDisposesOnce(Front(elems), done', callback);
      assert Walk(elems, |elems| - 1, done, callback, false) == Walk(Front(elems), |elems| - 2, done', callback, false);
      assert done + Reverse(elems) == done' + Reverse(Front(elems));
    }
  }

  /** Otherwise an object may be disposed twice: here 2 stays, 1 takes itself out, and 2 is met again. */
  lemma MayDisposeTwice()
    ensures OnlyRemoves(OneLeaves) && Walk([1, 2], 1, [], OneLeaves, false) == Outcome([2, 1, 2], [2])
  {
    forall done, x, s ensures Subsequence(OneLeaves(done, x, s), s) {
      SubsequenceSelf(s);
      assert Front([1, 2]) == [1] && Front([2]) == [];
    }
    assert OneLeaves([2, 1], 2, [2]) == [2];
    assert Walk([2], 0, [2, 1], OneLeaves, false) == Outcome([2, 1, 2], [2]);
  }

  function OneLeaves(done: seq<Ptr>, x: Ptr, s: seq<Ptr>): seq<Ptr> {
    if x == 1 && s == [1, 2] then [2] else s
  }
}
