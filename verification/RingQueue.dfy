/** cQueueStatic used by one thread at a time: the queue as an object, and the bulk write. */
module RingQueue {
  import opened Arith

  /** The index after i, which GetWrapIndex computes as a remainder. */
  function Next(i: nat, n: nat): nat
    requires i < n
  {
    if i + 1 == n then 0 else i + 1
  }

  lemma NextWraps(i: nat, n: nat)
    requires i < n
    ensures (i + 1) % n == Next(i, n)
  {
    if i + 1 == n {
      DivModUnique(n, 1, 0, n);
    } else {
      ModSmall(i + 1, n);
    }
  }

  /** The three fields as a value. The write index may be qty itself: see WriteSpan. */
  datatype Ring<T> = Ring(data: seq<T>, read: nat, write: nat) {
    /** What the reading operations ask for, and keep. */
    predicate Valid() { read < |data| && write <= |data| }

    /** The writing operations also assert that the write index is one of an element. */
    predicate Wrapped() { read < |data| && write < |data| }

    predicate IsEmptyQ() { read == write }

    /** get_ReadQtyT */
    function Count(): (n: nat)
      requires Valid()
      ensures n <= |data| && (n == |data| <==> write == |data| && read == 0)
    {
      if read > write then write + |data| - read else write - read
    }

    /** The elements that repeated Read1 would return. */
    function Contents(): (c: seq<T>)
      requires Valid()
      ensures |c| == Count()
    {
      if read > write then data[read..] + data[..write] else data[read..write]
    }
  }

  function Write1<T>(s: Ring<T>, val: T): (s': Ring<T>)
    requires s.Wrapped()
    ensures s'.Wrapped() && |s'.data| == |s.data|
  {
    var next := Next(s.write, |s.data|);
    if next == s.read then s else Ring(s.data[s.write := val], s.read, next)
  }

  function Read1<T>(s: Ring<T>): (s': Ring<T>)
    requires s.Valid() && !s.IsEmptyQ()
    ensures s'.Valid() && s'.data == s.data && s'.write == s.write
  {
    s.(read := Next(s.read, |s.data|))
  }

  /** Repeated Write1, in order; a full queue leaves the rest out. */
  function WriteEach<T>(s: Ring<T>, src: seq<T>): (s': Ring<T>)
    requires s.Wrapped()
    ensures s'.Wrapped() && |s'.data| == |s.data|
  {
    if src == [] then s else Write1(WriteEach(s, src[..|src| - 1]), src[|src| - 1])
  }

  /** Repeated Read1: as often as there are elements or, while the write index is qty, as often as one likes. */
  function ReadEach<T>(s: Ring<T>, n: nat): (s': Ring<T>)
    requires s.Valid() && (s.write == |s.data| || n <= s.Count())
    ensures s'.Valid() && s'.data == s.data && s'.write == s.write
    ensures s.read + n < |s.data| ==> s'.read == s.read + n
    ensures s.write < |s.data| ==> s'.Count() == s.Count() - n
  {
    if n == 0 then s else
    var s1 := ReadEach(s, n - 1);
    Read1(s1)
  }

  /** What they return. */
  function Taken<T>(s: Ring<T>, n: nat): (vals: seq<T>)
    requires s.Valid() && (s.write == |s.data| || n <= s.Count())
    ensures |vals| == n
  {
    if n == 0 then [] else
    var s1 := ReadEach(s, n - 1);
    Taken(s, n - 1) + [s.data[s1.read]]
  }

  /** get_WriteQtyT */
  function Room<T>(s: Ring<T>): nat
    requires s.Wrapped()
  {
    |s.data| - 1 - s.Count()
  }

  /** The array after m elements of src are laid down from w on, going round the end. */
  function Laid<T>(data: seq<T>, w: nat, src: seq<T>, m: nat): (d: seq<T>)
    requires w < |data| && m <= |src| && m <= |data|
    ensures |d| == |data|
  {
    seq(|data|, j requires 0 <= j < |data| =>
      if w <= j < w + m then src[j - w]
      else if j + |data| < w + m then src[j + |data| - w]
      else data[j])
  }

  /** WriteSpanQ. The comparison is with > where >= would wrap, as in the program. */
  function WriteSpan<T>(s: Ring<T>, src: seq<T>): (s': Ring<T>)
    requires s.Wrapped()
  {
    var m := Min(Room(s), |src|);
    Ring(Laid(s.data, s.write, src, m), s.read, if s.write + m > |s.data| then s.write + m - |s.data| else s.write + m)
  }

  lemma Write1Appends<T>(s: Ring<T>, val: T)
    requires s.Wrapped()
    ensures Write1(s, val).Contents() == if Room(s) > 0 then s.Contents() + [val] else s.Contents()
    ensures Room(s) == 0 <==> Write1(s, val) == s && Next(s.write, |s.data|) == s.read
  {
    var s' := Write1(s, val);
    if s' != s {
      if s.read > s.write {
        assert s'.data[..s.write + 1] == s.data[..s.write] + [val];
      } else {
        assert s'.data[s.read..s.write + 1] == s.data[s.read..s.write] + [val];
      }
    }
  }

  /** Read1 takes off the first element, unless that was the last one before a write index of qty: what
      is left is then not nothing, but every cell of the array. */
  lemma Read1Removes<T>(s: Ring<T>)
    requires s.Valid() && !s.IsEmptyQ()
    ensures s.Contents() == [s.data[s.read]] + Read1(s).Contents() <==> s.write < |s.data| || s.read + 1 < |s.data|
    ensures s.write == |s.data| && s.read + 1 == |s.data| ==>
      s.Contents() == [s.data[s.read]] && Read1(s).Contents() == s.data
    ensures s.write == |s.data| ==> !Read1(s).IsEmptyQ()
  {
    if s.write < |s.data| || s.read + 1 < |s.data| {
      Read1Shrinks(s);
    }
  }

  lemma Read1Shrinks<T>(s: Ring<T>)
    requires s.Valid() && !s.IsEmptyQ() && (s.write < |s.data| || s.read + 1 < |s.data|)
    ensures s.Contents() == [s.data[s.read]] + Read1(s).Contents()
  {
    var d, r, w := s.data, s.read, s.write;
    if r < w {
      HeadTail(d, r, w);
    } else {
      HeadRound(d, r, w);
    }
  }

  lemma HeadRound<T>(d: seq<T>, r: nat, w: nat)
    requires w <= r < |d|
    ensures d[r..] + d[..w] == [d[r]] + if r + 1 < |d| then d[r + 1..] + d[..w] else d[0..w]
  {
    HeadTail(d, r, |d|);
    assert d[r..|d|] == d[r..] && d[r + 1..|d|] == d[r + 1..];
    assert [d[r]] + d[r + 1..] + d[..w] == [d[r]] + (d[r + 1..] + d[..w]);
  }

  lemma HeadTail<T>(d: seq<T>, r: nat, w: nat)
    requires r < w <= |d|
    ensures d[r..w] == [d[r]] + d[r + 1..w]
  {
  }

  /** As long as the write index is wrapped, reading returns the contents in order. */
  lemma TakenIsContents<T>(s: Ring<T>, n: nat)
    requires s.Valid() && n <= s.Count() && (s.write == |s.data| ==> n < s.Count())
    ensures s.Contents() == Taken(s, n) + ReadEach(s, n).Contents()
  {
    TakenIsAll(s, n, s.Contents());
  }

  /** n more reads do not wrap a read index that the write index cannot meet. */
  predicate Reads<T>(s: Ring<T>, n: nat) {
    s.Valid() && if s.write == |s.data| then s.read + n < |s.data| else n <= s.Count()
  }

  ghost predicate AllTaken<T>(s: Ring<T>, n: nat, all: seq<T>) {
    Reads(s, n) && all == Taken(s, n) + ReadEach(s, n).Contents()
  }

  lemma {:induction false} TakenIsAll<T>(s: Ring<T>, n: nat, all: seq<T>)
    requires Reads(s, n) && all == s.Contents()
    ensures AllTaken(s, n, all)
  {
    if n > 0 {
      TakenIsAll(s, n - 1, all);
      TakenStep(s, n - 1, n, all);
    } else {
      TakenNone(s, all);
    }
  }

  lemma TakenNone<T>(s: Ring<T>, all: seq<T>)
    requires s.Valid() && all == s.Contents()
    ensures AllTaken(s, 0, all)
  {
  }

  lemma TakenStep<T>(s: Ring<T>, n: nat, next: nat, all: seq<T>)
    requires next == n + 1 && Reads(s, next) && AllTaken(s, n, all)
    ensures AllTaken(s, next, all)
  {
    TakenUnfold(s, n);
    StillReads(s, n);
    StepOver(s, ReadEach(s, n), Taken(s, n), all);
  }

  lemma StillReads<T>(s: Ring<T>, n: nat)
    requires Reads(s, n + 1)
    ensures var s1 := ReadEach(s, n); s1.Valid() && !s1.IsEmptyQ() && (s1.write < |s1.data| || s1.read + 1 < |s1.data|)
  {
  }

  lemma StepOver<T>(s: Ring<T>, s1: Ring<T>, got: seq<T>, all: seq<T>)
    requires s1.Valid() && !s1.IsEmptyQ() && s1.data == s.data && (s1.write < |s1.data| || s1.read + 1 < |s1.data|)
    requires all == got + s1.Contents()
    ensures all == got + [s.data[s1.read]] + Read1(s1).Contents()
  {
    Read1Shrinks(s1);
    Regroup(got, s1.data[s1.read], Read1(s1).Contents());
  }

  lemma Regroup<T>(got: seq<T>, val: T, rest: seq<T>)
    ensures got + ([val] + rest) == got + [val] + rest
  {
  }

  lemma TakenUnfold<T>(s: Ring<T>, n: nat)
    requires s.Valid() && (s.write == |s.data| || n < s.Count())
    ensures Taken(s, n + 1) == Taken(s, n) + [s.data[ReadEach(s, n).read]]
    ensures ReadEach(s, n + 1) == Read1(ReadEach(s, n))
  {
  }

  lemma {:induction false} ReadEachIndex<T>(s: Ring<T>, n: nat)
    requires s.Valid() && (s.write == |s.data| || n <= s.Count())
    ensures ReadEach(s, n).read == (s.read + n) % |s.data|
  {
    if n == 0 {
      ModSmall(s.read, |s.data|);
    } else {
      ReadEachIndex(s, n - 1);
      ModSucc(s.read + n - 1, |s.data|);
      NextWraps(ReadEach(s, n - 1).read, |s.data|);
    }
  }

  /** With a write index of qty reading never ends: the queue is never empty, however often Read1 is called,
      and it returns the cells of the array round and round. */
  lemma {:induction false} ReadsForEver<T>(s: Ring<T>, n: nat)
    requires s.Valid() && s.write == |s.data|
    ensures !ReadEach(s, n).IsEmptyQ() && !ReadEach(s, n).Wrapped()
    ensures forall i :: 0 <= i < n ==> Taken(s, n)[i] == s.data[(s.read + i) % |s.data|]
  {
    if n > 0 {
      ReadsForEver(s, n - 1);
      ReadEachIndex(s, n - 1);
    }
  }

  lemma LaidNext<T>(data: seq<T>, w: nat, src: seq<T>, m: nat)
    requires w < |data| && m < |src| && m < |data|
    ensures Laid(data, w, src[..|src| - 1], m) == Laid(data, w, src, m)
    ensures var i := if w + m < |data| then w + m else w + m - |data|;
            Laid(data, w, src, m + 1) == Laid(data, w, src, m)[i := src[m]]
  {
  }

  lemma LaidBy<T>(d: seq<T>, data: seq<T>, w: nat, src: seq<T>, m: nat)
    requires w < |data| == |d| && m <= |src| && m <= |data|
    requires forall j :: w <= j < w + m && j < |d| ==> d[j] == src[j - w]
    requires forall j :: 0 <= j < w + m - |d| ==> d[j] == src[j + |d| - w]
    requires forall j :: w + m - |d| <= j < w || w + m <= j < |d| ==> 0 <= j ==> d[j] == data[j]
    ensures d == Laid(data, w, src, m)
  {
  }

  /** Repeated Write1 in closed form. */
  lemma {:induction false} WriteEachLays<T>(s: Ring<T>, src: seq<T>)
    requires s.Wrapped()
    ensures var m := Min(Room(s), |src|);
            WriteEach(s, src) == Ring(Laid(s.data, s.write, src, m), s.read,
              if s.write + m < |s.data| then s.write + m else s.write + m - |s.data|)
  {
    var m := Min(Room(s), |src|);
    if src == [] {
      assert Laid(s.data, s.write, src, 0) == s.data;
    } else {
      var front := src[..|src| - 1];
      WriteEachLays(s, front);
      var s1 := WriteEach(s, front);
      NextWraps(s1.write, |s.data|);
      LaidNext(s.data, s.write, src, if m == |src| then m - 1 else m);
    }
  }

  /** The bulk write stores what the single writes store and gives the same contents, always. It
      leaves the same fields exactly when it does not stop at the very end of the array; there it
      leaves the write index at qty, where single writes leave it at 0. */
  lemma BulkIsRepeatedWrite1<T>(s: Ring<T>, src: seq<T>)
    requires s.Wrapped()
    ensures var bulk, each := WriteSpan(s, src), WriteEach(s, src);
            && bulk.Valid() && bulk.Contents() == each.Contents()
            && bulk.data == each.data && bulk.read == each.read
            && bulk.Count() == each.Count() == s.Count() + Min(Room(s), |src|)
    ensures WriteSpan(s, src) == WriteEach(s, src) <==> s.write + Min(Room(s), |src|) != |s.data|
    ensures s.write + Min(Room(s), |src|) == |s.data| ==>
      WriteSpan(s, src).write == |s.data| && WriteEach(s, src).write == 0
  {
    WriteEachLays(s, src);
    if s.write + Min(Room(s), |src|) == |s.data| {
      UnwrappedSame(WriteEach(s, src).data, s.read);
    }
  }

  lemma UnwrappedSame<T>(d: seq<T>, r: nat)
    requires 0 < r < |d|
    ensures Ring(d, r, |d|).Contents() == Ring(d, r, 0).Contents()
  {
    assert d[r..|d|] == d[r..] + d[..0];
  }

  lemma WriteSpanAppends<T>(s: Ring<T>, src: seq<T>)
    requires s.Wrapped()
    ensures WriteSpan(s, src).Valid()
    ensures WriteSpan(s, src).Contents() == s.Contents() + src[..Min(Room(s), |src|)]
  {
    var m := Min(Room(s), |src|);
    var d := Laid(s.data, s.write, src, m);
    if s.read > s.write {
      LaidOn(s.data, 0, s.write, src, m);
      assert d[s.read..] == s.data[s.read..];
      assert s.data[s.read..] + (s.data[..s.write] + src[..m]) == s.data[s.read..] + s.data[..s.write] + src[..m];
    } else if s.write + m <= |d| {
      LaidOn(s.data, s.read, s.write, src, m);
    } else {
      LaidRound(s.data, s.read, s.write, src, m);
    }
  }

  lemma LaidOn<T>(data: seq<T>, r: nat, w: nat, src: seq<T>, m: nat)
    requires r <= w < |data| && w + m <= |data| && m <= |src|
    ensures Laid(data, w, src, m)[r..w + m] == data[r..w] + src[..m]
  {
    var d := Laid(data, w, src, m);
    forall j | 0 <= j < w + m - r ensures d[r..w + m][j] == (data[r..w] + src[..m])[j] {
      assert d[r..w + m][j] == d[r + j];
    }
  }

  lemma LaidRound<T>(data: seq<T>, r: nat, w: nat, src: seq<T>, m: nat)
    requires r <= w < |data| < w + m && m <= |src| && m <= |data| && w + m - |data| <= r
    ensures var d := Laid(data, w, src, m); d[r..] + d[..w + m - |data|] == data[r..w] + src[..m]
  {
    var d := Laid(data, w, src, m);
    var tail := |d| - w;
    assert d[r..] == data[r..w] + src[..tail];
    assert d[..m - tail] == src[tail..m];
    assert src[..tail] + src[tail..m] == src[..m];
  }

  /** What the unwrapped index costs. Reading out all that is there after a bulk write returns it, and gives
      an empty queue exactly when the write index was wrapped. Otherwise the queue then holds every cell of
      the array once more, is never empty again, and never again fit for writing. */
  lemma DrainAfterBulk<T>(s: Ring<T>, src: seq<T>)
    requires s.Wrapped()
    ensures WriteSpan(s, src).Valid()
    ensures var bulk := WriteSpan(s, src);
            var drained := ReadEach(bulk, bulk.Count());
            && Taken(bulk, bulk.Count()) == bulk.Contents()
            && (drained.IsEmptyQ() <==> s.write + Min(Room(s), |src|) != |s.data|)
            && drained.Contents() == (if s.write + Min(Room(s), |src|) != |s.data| then [] else bulk.data)
    ensures var bulk := WriteSpan(s, src);
            s.write + Min(Room(s), |src|) == |s.data| ==>
              forall n :: !ReadEach(bulk, n).IsEmptyQ() && !ReadEach(bulk, n).Wrapped()
  {
    var bulk := WriteSpan(s, src);
    var n := bulk.Count();
    if bulk.write == |s.data| {
      forall k ensures !ReadEach(bulk, k).IsEmptyQ() && !ReadEach(bulk, k).Wrapped() {
        ReadsForEver(bulk, k);
      }
      LastOfUnwrapped(bulk, n - 1);
    } else {
      TakenIsContents(bulk, n);
      assert ReadEach(bulk, n).Contents() == [];
      assert Taken(bulk, n) + [] == Taken(bulk, n);
    }
  }

  lemma LastOfUnwrapped<T>(s: Ring<T>, k: nat)
    requires s.Valid() && s.write == |s.data| && s.read + k + 1 == |s.data|
    ensures Taken(s, k + 1) == s.Contents() && ReadEach(s, k + 1).Contents() == s.data
  {
    TakenIsContents(s, k);
    TakenUnfold(s, k);
    Read1Removes(ReadEach(s, k));
  }

  /** Every ring gets there from empty: fill it, read one element, write one in bulk. */
  lemma UnwrappedIsReached<T>(data: seq<T>, src: seq<T>, x: T)
    requires |src| + 1 == |data| && |src| > 0
    ensures var full := WriteSpan(Ring(data, 0, 0), src);
            && full.Wrapped() && full.Contents() == src && !full.IsEmptyQ()
            && Read1(full).Wrapped() && WriteSpan(Read1(full), [x]).write == |data|
            && WriteSpan(Read1(full), [x]).Contents() == src[1..] + [x]
  {
    var empty := Ring(data, 0, 0);
    WriteSpanAppends(empty, src);
    var full := WriteSpan(empty, src);
    assert src[..|src|] == src && empty.Contents() == [];
    Read1Removes(full);
    WriteSpanAppends(Read1(full), [x]);
  }

  /** GetWrapIndex further on. */
  function Skip<T>(s: Ring<T>, n: nat): Ring<T>
    requires s.Valid()
  {
    s.(read := (s.read + n) % |s.data|)
  }

  lemma SkipRemoves<T>(s: Ring<T>, n: nat)
    requires s.Valid() && n <= s.Count()
    ensures Skip(s, n).Valid()
    ensures Skip(s, n).Contents() == if s.write == |s.data| && n == s.Count() then s.data else s.Contents()[n..]
  {
    if s.read + n < |s.data| {
      ModSmall(s.read + n, |s.data|);
    } else {
      ModSmall(s.read + n - |s.data|, |s.data|);
      ModShift(s.read + n - |s.data|, |s.data|);
    }
  }

  class Queue<T(0)> {
    const qty: nat
    const data: array<T>
    var readIndex: nat
    var writeIndex: nat

    ghost predicate Valid()
      reads this, data
    {
      data.Length == qty && State().Valid()
    }

    function State(): Ring<T>
      reads this, data
    {
      Ring(data[..], readIndex, writeIndex)
    }

    constructor (n: nat)
      requires 0 < n
      ensures Valid() && qty == n && fresh(data)
      ensures readIndex == writeIndex == 0 && State().Contents() == []
    {
      qty := n;
      data := new T[n];
      readIndex, writeIndex := 0, 0;
    }

    method ReadQtyT() returns (n: nat)
      requires Valid()
      ensures n == |State().Contents()|
    {
      var iRead := readIndex;
      var iWrite := writeIndex;
      if iRead > iWrite {
        iWrite := iWrite + qty;
      }
      return iWrite - iRead;
    }

    method WriteOne(val: T) returns (ok: bool)
      requires Valid() && writeIndex < qty
      modifies this`writeIndex, data
      ensures Valid() && State() == Write1(old(State()), val)
      ensures ok <==> old(|State().Contents()|) < qty - 1
      ensures State().Contents() == old(State().Contents()) + if ok then [val] else []
    {
      Write1Appends(State(), val);
      NextWraps(writeIndex, qty);
      var iWrite := writeIndex;
      var iWriteNext := (iWrite + 1) % qty;
      if iWriteNext == readIndex {
        return false;
      }
      data[iWrite] := val;
      writeIndex := iWriteNext;
      return true;
    }

    method ReadOne() returns (val: T)
      requires Valid() && readIndex != writeIndex
      modifies this`readIndex
      ensures Valid() && State() == Read1(old(State())) && val == old(data[readIndex])
    {
      NextWraps(readIndex, qty);
      var iRead := readIndex;
      var iReadNext := (iRead + 1) % qty;
      val := data[iRead];
      readIndex := iReadNext;
    }

    /** Takes off at most what there is; with a write index of qty, taking off all leaves every cell. */
    method AdvanceRead(count: nat)
      requires Valid()
      modifies this`readIndex
      ensures Valid()
      ensures var all := old(State().Contents());
              State().Contents() == if writeIndex == qty && count >= |all| then data[..] else all[Min(count, |all|)..]
    {
      var n := ReadQtyT();
      var iCount := count;
      if iCount > n {
        iCount := n;
      }
      ghost var was := State();
      SkipRemoves(was, iCount);
      readIndex := (readIndex + iCount) % qty;
      assert State() == Skip(was, iCount);
    }

    /** Reads one element at a time: as many as fit and there are or, with a write index of qty, as many as fit. */
    method ReadSpanQ(ret: array<T>) returns (n: nat)
      requires Valid() && ret != data
      modifies this`readIndex, ret
      ensures Valid() && n == if writeIndex == qty then ret.Length else Min(ret.Length, |old(State().Contents())|)
      ensures ret[..n] == Taken(old(State()), n) && State() == ReadEach(old(State()), n)
      ensures writeIndex < qty ==> ret[..n] + State().Contents() == old(State().Contents())
      ensures forall i :: n <= i < ret.Length ==> ret[i] == old(ret[i])
    {
      ghost var was := State();
      n := 0;
      while readIndex != writeIndex && n < ret.Length
        invariant n <= ret.Length && Valid() && (was.write == |was.data| || n <= was.Count())
        invariant State() == ReadEach(was, n) && ret[..n] == Taken(was, n)
        invariant forall i :: n <= i < ret.Length ==> ret[i] == old(ret[i])
        decreases ret.Length - n
      {
        ReadInto(ret, n, was);
        n := n + 1;
      }
      if writeIndex < qty {
        TakenIsContents(was, n);
      } else {
        ReadsForEver(was, n);
      }
    }

    /** Moves the next element to ret[n]. */
    method ReadInto(ret: array<T>, n: nat, ghost was: Ring<T>)
      requires Valid() && readIndex != writeIndex && ret != data && n < ret.Length
      requires was.Valid() && (was.write == |was.data| || n < was.Count())
      requires State() == ReadEach(was, n) && ret[..n] == Taken(was, n)
      modifies this`readIndex, ret
      ensures Valid() && State() == ReadEach(was, n + 1) && ret[..n + 1] == Taken(was, n + 1)
      ensures forall i :: n < i < ret.Length ==> ret[i] == old(ret[i])
    {
      ghost var got := ret[..n];
      TakenUnfold(was, n);
      var val := ReadOne();
      ret[n] := val;
      assert ret[..n + 1] == got + [val];
    }

    /** Copies src[from..from + n] into the array at offset to, front to back. */
    method CopyQty(to: nat, src: seq<T>, from: nat, n: nat)
      requires to + n <= data.Length && from + n <= |src|
      modifies data
      ensures forall j :: to <= j < to + n ==> data[j] == src[from + j - to]
      ensures forall j :: 0 <= j < to || to + n <= j < data.Length ==> data[j] == old(data[j])
    {
      for i := 0 to n
        invariant forall j :: to <= j < to + i ==> data[j] == src[from + j - to]
        invariant forall j :: 0 <= j < to || to + i <= j < data.Length ==> data[j] == old(data[j])
      {
        data[to + i] := src[from + i];
      }
    }

    /** The wrapping branch of WriteSpanQ. */
    method CopyWrapped(iWrite: nat, src: seq<T>, n: nat) returns (iTmp2: nat)
      requires data.Length == qty && iWrite < qty && iWrite + n > qty && n < qty && n <= |src|
      modifies data
      ensures data[..] == Laid(old(data[..]), iWrite, src, n)
      ensures iTmp2 == iWrite + n - qty
    {
      ghost var was := data[..];
      var iTmp1 := qty - iWrite;
      CopyQty(iWrite, src, 0, iTmp1);
      iTmp2 := n - iTmp1;
      CopyQty(0, src, iTmp1, iTmp2);
      LaidBy(data[..], was, iWrite, src, n);
    }

    /** The other branch. */
    method CopyStraight(iWrite: nat, src: seq<T>, n: nat)
      requires data.Length == qty && iWrite < qty && iWrite + n <= qty && n <= |src|
      modifies data
      ensures data[..] == Laid(old(data[..]), iWrite, src, n)
    {
      ghost var was := data[..];
      CopyQty(iWrite, src, 0, n);
      LaidBy(data[..], was, iWrite, src, n);
    }

    method WriteSpanQ(src: seq<T>) returns (n: nat)
      requires Valid() && writeIndex < qty
      modifies this`writeIndex, data
      ensures Valid() && State() == WriteSpan(old(State()), src)
      ensures n == Min(qty - 1 - old(|State().Contents()|), |src|)
      ensures State().Contents() == old(State().Contents()) + src[..n]
    {
      WriteSpanAppends(State(), src);
      var readQty := ReadQtyT();
      var iRoom := qty - 1 - readQty;
      var iWrite := writeIndex;
      n := if iRoom < |src| then iRoom else |src|;
      if iWrite + n > qty {
        var iTmp2 := CopyWrapped(iWrite, src, n);
        writeIndex := iTmp2;
      } else {
        CopyStraight(iWrite, src, n);
        writeIndex := iWrite + n;
      }
    }
  }
}
