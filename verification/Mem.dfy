/** The overlapping moves of cMem and cValSpan, on one block of memory. */
module Mem {

  /** The block with n elements copied from src to dst, as if through a buffer of their own. */
  function Moved<T>(s: seq<T>, dst: nat, src: nat, n: nat): (r: seq<T>)
    requires dst + n <= |s| && src + n <= |s|
    ensures |r| == |s|
  {
    s[..dst] + s[src..src + n] + s[dst + n..]
  }

  lemma MovedAt<T>(s: seq<T>, dst: nat, src: nat, n: nat, i: nat)
    requires dst + n <= |s| && src + n <= |s| && i < |s|
    ensures Moved(s, dst, src, n)[i] == if dst <= i < dst + n then s[i - dst + src] else s[i]
  {
  }

  /** One more element at the end, or at the front. */
  lemma MovedNext<T>(s: seq<T>, dst: nat, src: nat, n: nat)
    requires dst + n < |s| && src + n < |s|
    ensures Moved(s, dst, src, n)[dst + n := s[src + n]] == Moved(s, dst, src, n + 1)
    ensures Moved(s, dst + 1, src + 1, n)[dst := s[src]] == Moved(s, dst, src, n + 1)
  {
    var r := Moved(s, dst, src, n + 1);
    forall i | 0 <= i < |s|
      ensures Moved(s, dst, src, n)[dst + n := s[src + n]][i] == r[i] == Moved(s, dst + 1, src + 1, n)[dst := s[src]][i]
    {
      MovedAt(s, dst, src, n, i);
      MovedAt(s, dst + 1, src + 1, n, i);
      MovedAt(s, dst, src, n + 1, i);
    }
  }

  /** IsOverlapRev: the copy has to start at the end. */
  predicate IsOverlapRev(dst: int, src: int, n: int) {
    0 < dst - src < n
  }

  /** Whatever the overlap, the destination gets the elements the source held before the copy. */
  method CopyOverlap<T>(a: array<T>, dst: nat, src: nat, n: nat)
    requires dst + n <= a.Length && src + n <= a.Length
    modifies a
    ensures a[..] == Moved(old(a[..]), dst, src, n)
  {
    if IsOverlapRev(dst, src, n) {
      CopyReverse(a, dst, src, n);
    } else {
      Copy(a, dst, src, n);
    }
  }

  method Copy<T>(a: array<T>, dst: nat, src: nat, n: nat)
    requires dst + n <= a.Length && src + n <= a.Length && !IsOverlapRev(dst, src, n)
    modifies a
    ensures a[..] == Moved(old(a[..]), dst, src, n)
  {
    ghost var was := a[..];
    var done := 0;
    assert Moved(was, dst, src, 0) == was;
    while done < n
      invariant 0 <= done <= n && a[..] == Moved(was, dst, src, done)
    {
      MovedAt(was, dst, src, done, src + done);
      MovedNext(was, dst, src, done);
      var x := a[src + done];
      assert x == a[..][src + done];
      a[dst + done] := x;
      done := done + 1;
    }
  }

  method CopyReverse<T>(a: array<T>, dst: nat, src: nat, n: nat)
    requires dst + n <= a.Length && src + n <= a.Length && IsOverlapRev(dst, src, n)
    modifies a
    ensures a[..] == Moved(old(a[..]), dst, src, n)
  {
    ghost var was := a[..];
    var left := n;
    assert Moved(was, dst + n, src + n, 0) == was;
    while left > 0
      invariant 0 <= left <= n && a[..] == Moved(was, dst + left, src + left, n - left)
    {
      left := left - 1;
      MovedAt(was, dst + left + 1, src + left + 1, n - left - 1, src + left);
      MovedNext(was, dst + left, src + left, n - left - 1);
      var x := a[src + left];
      assert x == a[..][src + left];
      a[dst + left] := x;
    }
  }

  /** The element at from taken out and put in again so that it is at to. */
  function Shifted<T>(s: seq<T>, from: nat, to: nat): (r: seq<T>)
    requires from < |s| && to < |s|
    ensures |r| == |s|
  {
    var rest := s[..from] + s[from + 1..];
    rest[..to] + [s[from]] + rest[to..]
  }

  /** Those between move by one towards the gap. */
  lemma ShiftedAt<T>(s: seq<T>, from: nat, to: nat, i: nat)
    requires from < |s| && to < |s| && i < |s|
    ensures Shifted(s, from, to)[i] ==
      if i == to then s[from] else if from <= i < to then s[i + 1] else if to < i <= from then s[i - 1] else s[i]
  {
  }

  lemma ShiftedIsPermutation<T>(s: seq<T>, from: nat, to: nat)
    requires from < |s| && to < |s|
    ensures multiset(Shifted(s, from, to)) == multiset(s)
  {
    assert s == s[..from] + [s[from]] + s[from + 1..];
    var rest := s[..from] + s[from + 1..];
    assert rest == rest[..to] + rest[to..];
    assert multiset(s) == multiset(rest) + multiset([s[from]]);
  }

  lemma ShiftedUp<T>(s: seq<T>, from: nat, to: nat)
    requires from < to < |s|
    ensures Shifted(s, from, to) == Moved(s, from, from + 1, to - from)[to := s[from]]
  {
    var rest := s[..from] + s[from + 1..];
    assert rest[..to] == s[..from] + s[from + 1..to + 1] && rest[to..] == s[to + 1..];
  }

  lemma ShiftedDown<T>(s: seq<T>, from: nat, to: nat)
    requires to <= from < |s|
    ensures Shifted(s, from, to) == Moved(s, to + 1, to, from - to)[to := s[from]]
  {
    var rest := s[..from] + s[from + 1..];
    assert rest[..to] == s[..to] && rest[to..] == s[to..from] + s[from + 1..];
  }

  method ShiftElements<T>(a: array<T>, from: nat, to: nat)
    requires from < a.Length && to < a.Length
    modifies a
    ensures a[..] == Shifted(old(a[..]), from, to)
  {
    var x := a[from];
    if from == to {
      return;
    }
    if from < to {
      ShiftedUp(a[..], from, to);
      CopyOverlap(a, from, from + 1, to - from);
    } else {
      ShiftedDown(a[..], from, to);
      CopyOverlap(a, to + 1, to, from - to);
    }
    a[to] := x;
  }
}
