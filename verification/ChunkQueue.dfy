/** cQueueChunked: a first in, first out queue over a linked list of chunks of a fixed size. */
module ChunkQueue {

  class Chunk<T> {
    var data: seq<T>
    var next: Chunk?<T>

    constructor (grow: nat, fill: T)
      ensures data == seq(grow, _ => fill) && next == null
    {
      data, next := seq(grow, _ => fill), null;
    }
  }

  /** The chunks of a stream begin at 0 and follow one another. */
  ghost predicate Spaced(bases: seq<int>, grow: nat) {
    && (bases != [] ==> bases[0] == 0)
    && (forall i, j {:trigger bases[i], bases[j]} :: 0 <= i < |bases| && j == i + 1 < |bases| ==> bases[j] == bases[i] + grow)
  }

  lemma SpacedNext(bases: seq<int>, grow: nat, base: int)
    requires Spaced(bases, grow) && base == if bases == [] then 0 else bases[|bases| - 1] + grow
    ensures Spaced(bases + [base], grow)
  {
  }

  lemma {:induction false} SpacedApart(bases: seq<int>, grow: nat, i: nat, j: nat)
    requires Spaced(bases, grow) && i < j < |bases|
    ensures bases[i] + grow <= bases[j]
    decreases j
  {
    if i < j - 1 {
      SpacedApart(bases, grow, i, j - 1);
    }
  }

  /** A chunk at base holds its part of the stream. */
  ghost predicate Held<T(!new)>(data: seq<T>, base: int, stream: seq<T>) {
    0 <= base && forall k :: 0 <= k < |data| && base + k < |stream| ==> data[k] == stream[base + k]
  }

  lemma HeldPart<T(!new)>(data: seq<T>, base: int, stream: seq<T>, offset: nat, n: nat, end: nat)
    requires Held(data, base, stream) && offset + n <= |data| && base + offset + n <= end <= |stream|
    ensures data[offset..][..n] == stream[base + offset..end][..n]
  {
    assert forall k :: 0 <= k < n ==> data[offset..][k] == stream[base + offset..end][k];
  }

  function Written<T>(data: seq<T>, offset: nat, more: seq<T>): (data': seq<T>)
    requires offset + |more| <= |data|
    ensures |data'| == |data|
  {
    data[..offset] + more + data[offset + |more|..]
  }

  lemma HeldWritten<T(!new)>(data: seq<T>, base: int, stream: seq<T>, more: seq<T>)
    requires Held(data, base, stream) && base <= |stream| && |stream| + |more| <= base + |data|
    ensures Held(Written(data, |stream| - base, more), base, stream + more)
  {
  }

  lemma HeldBefore<T(!new)>(data: seq<T>, base: int, stream: seq<T>, more: seq<T>)
    requires Held(data, base, stream) && base + |data| <= |stream|
    ensures Held(data, base, stream + more)
  {
  }

  /** The first chunk of the list holds the next element to read, the last the next place to write; a
      freed chunk was read to its end. */
  ghost predicate PlacedAt(grow: nat, bases: seq<int>, freed: nat, read: int, write: int, first: int, last: int) {
    && 0 <= first && 0 <= last && freed <= |bases| && Spaced(bases, grow)
    && first == (if freed < |bases| then bases[freed] else if freed == 0 then 0 else bases[freed - 1] + grow)
    && (freed < |bases| ==> first <= read < first + grow && first <= last && bases[|bases| - 1] == last <= write <= last + grow)
    && (freed == |bases| ==> first == read == write && (last == write || last == write - grow))
  }

  /** Reading n elements of the first chunk, which is freed when this reads it to its end. */
  lemma ReadKeepsPlaced(grow: nat, bases: seq<int>, freed: nat, read: int, write: int, first: int, last: int, n: nat)
    requires PlacedAt(grow, bases, freed, read, write, first, last) && freed < |bases|
    requires 0 < n <= write - read && read + n <= first + grow
    ensures if read + n < first + grow then PlacedAt(grow, bases, freed, read + n, write, first, last)
            else PlacedAt(grow, bases, freed + 1, read + n, write, first + grow, last)
                 && (freed + 1 == |bases| <==> read + n == write && write == last + grow)
    ensures read + n < first + grow ==> !(read + n == write && write == last + grow)
  {
    if freed + 1 < |bases| {
      SpacedApart(bases, grow, freed, |bases| - 1);
      if freed + 2 < |bases| {
        SpacedApart(bases, grow, freed + 1, |bases| - 1);
      }
    }
  }

  /** A bulk write that began at start has stored all of src but rest. */
  ghost predicate Progress<T(!new)>(start: seq<T>, src: seq<T>, rest: seq<T>, stored: seq<T>) {
    |rest| <= |src| && rest == src[|src| - |rest|..] && stored == start + src[..|src| - |rest|]
  }

  lemma MoreProgress<T(!new)>(start: seq<T>, src: seq<T>, rest: seq<T>, n: nat)
    requires |rest| <= |src| && n <= |rest| && rest == src[|src| - |rest|..]
    ensures Progress(start, src, rest[n..], start + src[..|src| - |rest|] + rest[..n])
  {
  }

  ghost predicate IsPart<T(!new)>(part: seq<T>, s: seq<T>, i: int, k: int) {
    0 <= i <= k <= |s| && part == s[i..k]
  }

  lemma LongerPart<T(!new)>(part: seq<T>, s: seq<T>, i: int, k: int, x: T)
    requires IsPart(part, s, i, k) && k < |s| && x == s[k]
    ensures IsPart(part + [x], s, i, k + 1)
  {
  }

  lemma JoinParts<T(!new)>(part: seq<T>, s: seq<T>, i: int, k: int, n: int)
    requires IsPart(part, s, i, k) && k <= n <= |s|
    ensures s[i..n] == part + s[k..n]
  {
  }

  class Queue<T(!new)> {
    const grow: nat                 // _CHUNKGROW
    const fill: T                   // what a new chunk holds
    var readIndex: int
    var writeIndex: int
    var first: Chunk?<T>
    var last: Chunk?<T>
    var firstIndex: int             // index in the stream of the first chunk
    var lastIndex: int              // index in the stream of the last chunk
    ghost var stream: seq<T>        // what was ever stored, blank chunks included
    ghost var firstBase: int        // true index in the stream of the first chunk
    ghost var lag: nat              // how many elements at its end the write index does not count
    ghost var made: seq<Chunk<T>>   // every chunk ever allocated
    ghost var bases: seq<int>       // index in the stream of the first element of each
    ghost var freed: nat            // how many of them were freed, from the front

    /** The list is the chunks that were made and not yet freed. */
    ghost predicate Linked()
      reads this`first, this`last, this`made, this`freed, made
    {
      && 0 < grow && freed <= |made|
      && first == (if freed == |made| then null else made[freed])
      && (forall i {:trigger made[i].data} :: freed <= i < |made| ==> |made[i].data| == grow)
      && (forall i {:trigger made[i].next} :: freed <= i < |made| - 1 ==> made[i].next == made[i + 1])
      && (freed < |made| ==> last == made[|made| - 1] && last.next == null)
    }

    /** The indexes agree with the list; a stream longer than they say is so by one chunk. */
    ghost predicate Placed()
      reads this
    {
      && 0 <= readIndex <= writeIndex && |stream| == writeIndex + lag && (lag == 0 || lag == grow) && 0 <= lastIndex
      && PlacedAt(grow, bases, freed, readIndex, writeIndex + lag, firstBase, lastIndex + lag)
    }

    ghost predicate Holds()
      reads this`made, this`bases, this`freed, this`stream, made`data
    {
      |bases| == |made| && forall i :: freed <= i < |made| ==> Held(made[i].data, bases[i], stream)
    }

    /** What reading needs: the base index of the first chunk is right as well. */
    ghost predicate Readable()
      reads this, made
    {
      Sound() && firstIndex == firstBase
    }

    /** What writing needs. */
    ghost predicate Writable()
      reads this, made
    {
      Sound() && (first == null ==> last == null)
    }

    ghost predicate Valid()
      reads this, made
    {
      Readable() && Writable()
    }

    ghost predicate Sound()
      reads this, made
    {
      Linked() && Placed() && Holds()
    }

    /** What a reader can read. */
    ghost function Unread(): seq<T>
      requires 0 <= readIndex <= writeIndex <= |stream|
      reads this
    {
      stream[readIndex..writeIndex]
    }

    /** False exactly when the queue was drained at the end of a chunk: lastIndex is then one chunk behind. */
    predicate Ready()
      reads this
    {
      first == null ==> lastIndex == writeIndex
    }

    /** The stream before the next element that a bulk write stores, and the lag it leaves. */
    ghost function Start(): seq<T>
      reads this
    {
      if Ready() then stream else stream + seq(grow, _ => fill)
    }

    ghost function StartLag(): nat
      reads this
    {
      if Ready() then lag else grow
    }

    /** What SetEmptyQ leaves, whatever the base indexes are. */
    ghost predicate Emptied()
      reads this
    {
      && 0 < grow && first == null && last == null && readIndex == writeIndex == 0 && 0 <= firstIndex && 0 <= lastIndex
      && stream == [] && lag == 0 && firstBase == 0 && made == [] && bases == [] && freed == 0
    }

    constructor (grow: nat, fill: T)
      requires 0 < grow
      ensures Valid() && Ready() && stream == [] && lag == 0 && made == [] && this.grow == grow && this.fill == fill
      ensures Unread() == []
    {
      this.grow, this.fill := grow, fill;
      readIndex, writeIndex, firstIndex, lastIndex := 0, 0, 0, 0;
      first, last, stream, lag, firstBase, made, bases, freed := null, null, [], 0, 0, [], [], 0;
    }

    // ----- writing

    /** Links a new chunk behind the last, or as the only one. */
    method AddChunk(ghost base: int)
      requires Linked() && (first == null ==> last == null)
      modifies this`first, this`last, this`lastIndex, this`made, this`bases, last
      ensures Linked() && first != null && fresh(last) && last.data == seq(grow, _ => fill) && made == old(made) + [last]
      ensures lastIndex == (if old(last) == null then old(lastIndex) else old(lastIndex) + grow) && bases == old(bases) + [base]
      ensures forall i {:trigger made[i].data} :: 0 <= i < |old(made)| ==> made[i].data == old(made[i].data)
      ensures old(first) != null ==> first == old(first)
    {
      var chunk := new Chunk<T>(grow, fill);
      if last == null {
        first, last := chunk, chunk;
      } else {
        OnlyLast();
        last.next := chunk;
        last := chunk;
        lastIndex := lastIndex + grow;
      }
      made, bases := made + [chunk], bases + [base];
    }

    /** GetWritePrep: a chunk and an offset in it to write at. From a queue that is not Ready it gives a blank
        chunk that counts as full. */
    method GetWritePrep() returns (chunk: Chunk<T>, offset: int)
      requires Writable() || Emptied()
      modifies this`first, this`last, this`lastIndex, this`made, this`bases, this`stream, this`lag, last
      ensures first != null && chunk == last && (last == old(last) || fresh(last))
      ensures old(Writable() && Ready()) ==> Writable() && offset == writeIndex - lastIndex < grow && stream == old(stream) && lag == old(lag)
      ensures old(Writable() && !Ready()) ==>
        Writable() && offset == 0 && writeIndex - lastIndex == grow && stream == old(Start()) && lag == grow
      ensures old(!Writable()) ==> offset == 0 && writeIndex == 0 < lastIndex && Linked()
    {
      if Emptied() {
        EmptyIsValid();
      }
      if last == null {
        AddFirst();
        return last, 0;
      }
      offset := writeIndex - lastIndex;
      if offset >= grow {
        AddAfterFull();
        return last, 0;
      }
      return last, offset;
    }

    /** The chunk that GetWritePrep adds when the last one is full. */
    method AddAfterFull()
      requires Writable() && last != null && writeIndex == lastIndex + grow
      modifies this`first, this`last, this`lastIndex, this`made, this`bases, last
      ensures Writable() && first == old(first) && lastIndex == writeIndex && (last == old(last) || fresh(last))
    {
      SpacedNext(bases, grow, lastIndex + lag + grow);
      AddChunk(lastIndex + lag + grow);
    }

    /** The chunk that GetWritePrep adds when there is none. */
    method AddFirst()
      requires (Writable() || Emptied()) && last == null
      modifies this`first, this`last, this`lastIndex, this`made, this`bases, this`stream, this`lag
      ensures Linked() && first == last && fresh(last) && lastIndex == old(lastIndex) && (old(Writable()) ==> Writable())
      ensures stream == old(Start()) && lag == old(StartLag())
    {
      if Writable() {
        SpacedNext(bases, grow, firstBase);
      }
      stream, lag := Start(), StartLag();
      AddChunk(firstBase);
      assert old(Writable()) ==> Held(last.data, firstBase, stream);
    }

    /** Stores elements in the last chunk and advances the write index (AdvanceWrite). */
    method Store(offset: nat, more: seq<T>)
      requires Linked() && first != null && offset + |more| <= grow && (Writable() && more != [] ==> offset == writeIndex - lastIndex)
      modifies this`stream, this`writeIndex, last`data
      ensures old(Writable()) ==> Writable()
      ensures Linked() && writeIndex == old(writeIndex) + |more| && stream == old(stream) + more
    {
      if more != [] {
        if Writable() {
          StoreHolds(offset, more);
        }
        OnlyLast();
        Put(offset, more);
        assert old(Writable()) ==> Holds();
      }
    }

    method Put(offset: nat, more: seq<T>)
      requires Linked() && last != null && offset + |more| <= |last.data|
      modifies this`stream, this`writeIndex, last`data
      ensures stream == old(stream) + more && writeIndex == old(writeIndex) + |more| && Linked()
      ensures last.data == Written(old(last.data), offset, more)
      ensures forall c <- made :: c != last ==> c.data == old(c.data)
    {
      last.data := Written(last.data, offset, more);
      stream, writeIndex := stream + more, writeIndex + |more|;
    }

    lemma OnlyLast()
      requires Linked() && first != null
      ensures forall i :: freed <= i < |made| - 1 ==> made[i] != last
    {
      forall i | freed <= i < |made| - 1 ensures made[i] != last {
        assert made[i].next == made[i + 1];
      }
    }

    lemma StoreHolds(offset: nat, more: seq<T>)
      requires Writable() && last != null && offset == writeIndex - lastIndex && offset + |more| <= grow
      ensures Held(Written(last.data, offset, more), bases[|made| - 1], stream + more)
      ensures forall i :: freed <= i < |made| - 1 ==> Held(made[i].data, bases[i], stream + more)
    {
      var n := |made| - 1;
      assert Held(made[n].data, bases[n], stream);
      HeldWritten(last.data, bases[n], stream, more);
      forall i | freed <= i < n ensures Held(made[i].data, bases[i], stream + more) {
        SpacedApart(bases, grow, i, n);
        HeldBefore(made[i].data, bases[i], stream, more);
      }
    }

    /** A bulk write of src that began with this start, lag and write index has rest still to write. */
    ghost predicate Writing(start: seq<T>, lag0: nat, index: int, src: seq<T>, rest: seq<T>)
      reads this, made
    {
      && Writable() && Progress(start, src, rest, Start()) && StartLag() == lag0
      && writeIndex == index + |src| - |rest| && (|rest| < |src| ==> Ready() && lastIndex < writeIndex)
    }

    /** One turn of the loop of WriteSpanQ. */
    method WriteMore(ghost start: seq<T>, ghost lag0: nat, ghost index: int, ghost src: seq<T>, rest: seq<T>)
      returns (rest': seq<T>, ok: bool)
      requires rest != [] && (if Writable() then Writing(start, lag0, index, src, rest) else Emptied())
      modifies this`first, this`last, this`lastIndex, this`made, this`bases, this`stream, this`lag, this`writeIndex, last
      ensures ok <==> old(Writable())
      ensures ok ==> Writing(start, lag0, index, src, rest') && Ready() && |rest'| <= |rest| && (|rest'| < |rest| <==> old(Ready()))
      ensures !ok ==> writeIndex == 0
      ensures last == old(last) || fresh(last)
    {
      var n;
      n, ok := WriteSome(rest);
      if old(Writable()) {
        MoreProgress(start, src, rest, n);
      }
      rest' := rest[n..];
    }

    /** get_SpanWrite, SetCopyQty, AdvanceWrite. After SetEmptyQ the assertion of get_WriteChunkAvail fails for a base
        index that was not reset. */
    method WriteSome(more: seq<T>) returns (n: nat, ok: bool)
      requires more != [] && (Writable() || Emptied())
      modifies this`first, this`last, this`lastIndex, this`made, this`bases, this`stream, this`lag, this`writeIndex, last
      ensures (last == old(last) || fresh(last)) && n <= |more| && (ok <==> old(Writable()))
      ensures ok ==>
        && Writable() && Ready() && writeIndex == old(writeIndex) + n
        && (n > 0 <==> old(Ready())) && (n > 0 ==> lastIndex < writeIndex)
        && stream == old(Start()) + more[..n] && lag == old(StartLag())
      ensures !ok ==> writeIndex == 0 && n == 0
    {
      var chunk, offset := GetWritePrep();
      ok := 0 <= writeIndex - lastIndex <= grow;
      if !ok {
        return 0, false;
      }
      var room := grow - (writeIndex - lastIndex);
      n := if |more| < room then |more| else room;
      Store(offset, more[..n]);
    }

    /** An element is appended exactly when the queue is Ready; otherwise the assertion of AdvanceWrite fails, and
        the element that was put into the chunk is not counted. After SetEmptyQ it fails for a base index that was
        not reset and is beyond the write index. */
    method Write1(x: T) returns (ok: bool)
      requires Writable() || Emptied()
      modifies this`first, this`last, this`lastIndex, this`made, this`bases, this`stream, this`lag, this`writeIndex, last
      ensures last == old(last) || fresh(last)
      ensures ok <==> old(Writable() && Ready())
      ensures old(Writable()) && ok ==> Writable() && Ready() && stream == old(stream) + [x] && lag == old(lag)
      ensures writeIndex == old(writeIndex) + if ok then 1 else 0
    {
      var chunk, offset := GetWritePrep();
      ok := 0 <= writeIndex - lastIndex && 1 <= grow - (writeIndex - lastIndex);
      if ok {
        Store(offset, [x]);
      } else {
        Spoil(x);
      }
    }

    /** The element put into a chunk that counts as full. */
    method Spoil(x: T)
      requires Linked() && first != null
      modifies last`data
    {
      last.data := last.data[0 := x];
    }

    /** From a queue that is Ready a bulk write appends. Otherwise a blank chunk comes before what it wrote, and
        what can be read is as much shorter at the end: the stream has fallen behind by one chunk, for good. After
        SetEmptyQ with a last base index other than 0 it fails its first assertion, unless there is nothing to write. */
    method WriteSpanQ(src: seq<T>) returns (ok: bool)
      requires Writable() || Emptied()
      modifies this`first, this`last, this`lastIndex, this`made, this`bases, this`stream, this`lag, this`writeIndex, last
      ensures ok <==> src == [] || old(Writable())
      ensures last == old(last) || fresh(last)
      ensures !ok ==> writeIndex == 0
      ensures old(Writable()) ==>
        && Writable() && writeIndex == old(writeIndex) + |src|
        && if src == [] then stream == old(stream) && lag == old(lag) && Ready() == old(Ready())
           else stream == old(Start()) + src && lag == old(StartLag()) && Ready() && lastIndex < writeIndex
    {
      ghost var start, lag0 := Start(), StartLag();
      var rest := src;
      ok := true;
      while |rest| > 0
        invariant ok && (last == old(last) || fresh(last)) && (src == [] ==> rest == [] && unchanged(this))
        invariant if old(Writable()) then Writing(start, lag0, old(writeIndex), src, rest) else rest == src && Emptied() && !Writable()
        decreases |rest|, if Ready() then 0 else 1
      {
        rest, ok := WriteMore(start, lag0, old(writeIndex), src, rest);
        if !ok {
          return;
        }
      }
    }

    // ----- reading

    function ReadChunkAvail(): int
      reads this
    {
      (if writeIndex - firstIndex < grow then writeIndex - firstIndex else grow) - (readIndex - firstIndex)
    }

    /** What the first chunk holds is a first part of what can be read, and not empty if anything can be. */
    lemma FirstChunkHolds()
      requires Readable() && readIndex < writeIndex
      ensures first != null && 0 < ReadChunkAvail() <= |Unread()|
      ensures 0 <= readIndex - firstIndex && readIndex - firstIndex + ReadChunkAvail() <= |first.data|
      ensures first.data[readIndex - firstIndex..][..ReadChunkAvail()] == Unread()[..ReadChunkAvail()]
    {
      SomeAvail();
      HeldPart(first.data, firstIndex, stream, readIndex - firstIndex, ReadChunkAvail(), writeIndex);
    }

    lemma SomeAvail()
      requires Readable() && readIndex < writeIndex
      ensures first != null && 0 < ReadChunkAvail() <= writeIndex - readIndex && readIndex - firstIndex + ReadChunkAvail() <= grow
      ensures freed < |bases| == |made| && Held(first.data, firstIndex, stream)
    {
      assert Held(made[freed].data, bases[freed], stream);
    }

    /** get_SpanRead */
    method GetSpanRead() returns (span: seq<T>)
      requires Valid()
      ensures span <= Unread() && (Unread() != [] ==> 0 < |span| == ReadChunkAvail())
    {
      if readIndex == writeIndex {
        return [];
      }
      FirstChunkHolds();
      return first.data[readIndex - firstIndex..][..ReadChunkAvail()];
    }

    /** The queue is drained at the end of its last chunk. A queue that fell behind never is. */
    ghost predicate AtEnd()
      reads this
    {
      readIndex == writeIndex == lastIndex + grow && lag == 0
    }

    lemma OneChunkFull()
      requires Sound() && writeIndex == grow && lastIndex < writeIndex && lag == 0
      ensures lastIndex == 0
    {
      if freed < |bases| {
        FirstChunkFull(bases, grow, lastIndex);
      }
    }

    /** Exactly then no bulk write or Write1 can append to it. */
    lemma NotReadyIsAtEnd()
      requires Readable()
      ensures Ready() <==> !AtEnd()
    {
    }

    /** Reading past elements, freeing every chunk that is read to its end. */
    method AdvanceRead(count: int)
      requires Valid() && count <= writeIndex - readIndex
      modifies this`readIndex, this`first, this`last, this`freed, this`firstIndex, this`firstBase
      ensures Valid() && readIndex == old(readIndex) + (if count < 0 then 0 else count) && freed >= old(freed)
    {
      var rest := count;
      while rest > 0
        invariant Readable() && rest <= writeIndex - readIndex && (rest < 0 ==> rest == count) && freed >= old(freed)
        invariant readIndex - old(readIndex) == count - rest
        decreases rest
      {
        var m := ReadSome(rest);
        rest := rest - m;
      }
      SettleLast();
    }

    method SettleLast()
      requires Readable()
      modifies this`last
      ensures Valid()
    {
      if first == null {
        last := null;
      }
    }

    /** One turn of the loop of AdvanceRead. */
    method ReadSome(count: int) returns (n: nat)
      requires Readable() && 0 < count <= writeIndex - readIndex
      modifies this`readIndex, this`first, this`freed, this`firstIndex, this`firstBase
      ensures Readable() && 0 < n <= count && readIndex == old(readIndex) + n
      ensures freed >= old(freed)
    {
      SomeAvail();
      var avail := ReadChunkAvail();
      n := if avail < count then avail else count;
      ReadPart(n);
    }

    method ReadPart(n: nat)
      requires Readable() && first != null && 0 < n <= writeIndex - readIndex && readIndex + n <= firstIndex + grow
      modifies this`readIndex, this`first, this`freed, this`firstIndex, this`firstBase
      ensures Readable() && readIndex == old(readIndex) + n && freed >= old(freed)
    {
      var offset := readIndex - firstIndex;
      ReadKeepsPlaced(grow, bases, freed, readIndex, writeIndex + lag, firstIndex, lastIndex + lag, n);
      readIndex := readIndex + n;
      if offset + n >= grow {
        FinishFirst();
      }
    }

    /** The first chunk is used up. */
    method FinishFirst()
      requires Linked() && Holds() && first != null && firstIndex == firstBase && 0 <= readIndex <= writeIndex && 0 <= lastIndex
      requires |stream| == writeIndex + lag && (lag == 0 || lag == grow)
      requires PlacedAt(grow, bases, freed + 1, readIndex, writeIndex + lag, firstIndex + grow, lastIndex + lag)
      modifies this`first, this`freed, this`firstIndex, this`firstBase
      ensures Readable() && freed == old(freed) + 1
    {
      DeleteFirst();
      firstIndex, firstBase := firstIndex + grow, firstBase + grow;
    }

    method DeleteFirst()
      requires Linked() && first != null
      modifies this`first, this`freed
      ensures Linked() && freed == old(freed) + 1 && (old(Holds()) ==> Holds())
    {
      first, freed := first.next, freed + 1;
    }

    /** The next element of the stream. */
    method Read1() returns (x: T)
      requires Valid() && readIndex != writeIndex
      modifies this`readIndex, this`first, this`last, this`freed, this`firstIndex, this`firstBase
      ensures Valid() && x == stream[old(readIndex)] && readIndex == old(readIndex) + 1 && freed >= old(freed)
    {
      FirstChunkHolds();
      x := first.data[readIndex - firstIndex];
      assert x == Unread()[0];
      AdvanceRead(1);
    }

    /** One turn of the loop of ReadSpanQ. */
    method ReadMore(got: seq<T>, ghost start: int) returns (got': seq<T>)
      requires Valid() && readIndex != writeIndex && IsPart(got, stream, start, readIndex)
      modifies this`readIndex, this`first, this`last, this`freed, this`firstIndex, this`firstBase
      ensures Valid() && readIndex == old(readIndex) + 1 && IsPart(got', stream, start, readIndex) && |got'| == |got| + 1
    {
      var x := Read1();
      LongerPart(got, stream, start, old(readIndex), x);
      got' := got + [x];
    }

    /** ReadSpanQ into a span of a given size. */
    method ReadSpanQ(size: nat) returns (got: seq<T>)
      requires Valid()
      modifies this`readIndex, this`first, this`last, this`freed, this`firstIndex, this`firstBase
      ensures Valid() && |got| == (if size < writeIndex - old(readIndex) then size else writeIndex - old(readIndex))
      ensures old(Unread()) == got + Unread()
    {
      got := [];
      while readIndex != writeIndex && |got| < size
        invariant Valid() && |got| <= size && readIndex == old(readIndex) + |got| && IsPart(got, stream, old(readIndex), readIndex)
        decreases size - |got|
      {
        got := ReadMore(got, old(readIndex));
      }
      JoinParts(got, stream, old(readIndex), readIndex, writeIndex);
    }

    // ----- emptying

    /** Frees every chunk, but leaves firstIndex and lastIndex alone: the queue is a good empty one
        afterwards exactly when both were 0. */
    method SetEmptyQ() returns (ghost deleted: seq<Chunk<T>>)
      requires Valid()
      modifies this`readIndex, this`writeIndex, this`stream, this`lag, this`firstBase, this`first, this`last, this`made, this`bases, this`freed
      ensures deleted == old(made[freed..]) && Emptied()
      ensures (Valid() && Ready()) <==> old(firstIndex) == 0 && old(lastIndex) == 0
      ensures Writable() <==> old(lastIndex) == 0
    {
      deleted := Reset();
      EmptyIsValid();
    }

    method Reset() returns (ghost deleted: seq<Chunk<T>>)
      requires Linked() && 0 <= firstIndex && 0 <= lastIndex
      modifies this`readIndex, this`writeIndex, this`stream, this`lag, this`firstBase, this`first, this`last, this`made, this`bases, this`freed
      ensures deleted == old(made[freed..]) && Emptied()
    {
      readIndex, writeIndex, stream, lag, firstBase := 0, 0, [], 0, 0;
      deleted := DeleteAll();
      last, made, bases, freed := null, [], [], 0;
    }

    lemma EmptyIsValid()
      requires Emptied()
      ensures (Valid() && Ready()) <==> firstIndex == 0 && lastIndex == 0
      ensures Writable() <==> lastIndex == 0
    {
    }

    method DeleteAll() returns (ghost deleted: seq<Chunk<T>>)
      requires Linked()
      modifies this`first, this`freed
      ensures first == null && Linked() && deleted == old(made[freed..])
    {
      deleted := [];
      while first != null
        invariant Linked() && deleted == made[old(freed)..freed]
        decreases |made| - freed
      {
        deleted := deleted + [first];
        DeleteFirst();
      }
    }

    /** What fails after SetEmptyQ: the assertion of Write1 if lastIndex was not 0; else, if firstIndex was not,
        the first assertion of the Read1 that follows, which asks for a read index not below it. */
    method EmptyAndUse(x: T) returns (wrote: bool, canRead: bool)
      requires Valid()
      modifies this
      ensures wrote <==> old(lastIndex) == 0
      ensures wrote ==> (canRead <==> old(firstIndex) == 0)
    {
      ghost var deleted := SetEmptyQ();
      wrote := Write1(x);
      canRead := readIndex >= firstIndex;
    }

    /** A bulk write fails likewise. */
    method EmptyAndUseSpan(src: seq<T>) returns (wrote: bool, canRead: bool)
      requires Valid()
      modifies this
      ensures wrote <==> src == [] || old(lastIndex) == 0
      ensures wrote && src != [] ==> writeIndex == |src| && (canRead <==> old(firstIndex) == 0)
    {
      ghost var deleted := SetEmptyQ();
      wrote := WriteSpanQ(src);
      canRead := readIndex >= firstIndex;
    }
  }

  /** A queue filled to the end of its first chunk and read out is not Ready. */
  method FillAndDrain<T(!new)>(fill: T, xs: seq<T>) returns (q: Queue<T>)
    requires xs != []
    ensures fresh(q) && q.last == null && q.Valid() && !q.Ready()
    ensures q.grow == |xs| && q.fill == fill && q.stream == xs && q.readIndex == q.writeIndex == |xs|
  {
    q := Filled(fill, xs);
    var got := q.ReadSpanQ(|xs|);
    q.NotReadyIsAtEnd();
  }

  method Filled<T(!new)>(fill: T, xs: seq<T>) returns (q: Queue<T>)
    requires xs != []
    ensures fresh(q) && q.Valid() && q.lag == 0 && q.lastIndex == 0
    ensures q.grow == |xs| && q.fill == fill && q.stream == xs && q.readIndex == 0 && q.writeIndex == |xs|
  {
    q := new Queue<T>(|xs|, fill);
    assert q.readIndex == 0 && q.writeIndex == 0 && q.Writable() && q.Start() == [] && q.StartLag() == 0 && [] + xs == xs;
    var wrote := q.WriteSpanQ(xs);
    q.OneChunkFull();
  }

  /** The next Write1 fails. */
  method DrainedWrite1<T(!new)>(fill: T, xs: seq<T>, x: T) returns (ok: bool)
    requires xs != []
    ensures !ok
  {
    var q := FillAndDrain(fill, xs);
    ok := q.Write1(x);
  }

  /** A bulk write instead succeeds, but what is then read is a blank chunk and what fits after it. */
  method DrainedWriteSpanQ<T(!new)>(fill: T, xs: seq<T>, ys: seq<T>) returns (got: seq<T>)
    requires xs != []
    ensures got == (seq(|xs|, _ => fill) + ys)[..|ys|]
  {
    var q := FillAndDrain(fill, xs);
    var wrote := q.WriteSpanQ(ys);
    BlankFirst(xs, seq(|xs|, _ => fill), ys);
    assert ys != [] ==> q.Unread() == (seq(|xs|, _ => fill) + ys)[..|ys|];
    got := q.ReadSpanQ(|ys|);
    assert q.Unread() == [];
  }

  lemma BlankFirst<T>(xs: seq<T>, blank: seq<T>, ys: seq<T>)
    ensures (xs + blank + ys)[|xs|..|xs| + |ys|] == (blank + ys)[..|ys|]
  {
    assert forall i :: 0 <= i < |ys| ==> (xs + (blank + ys))[|xs| + i] == (blank + ys)[i];
    assert xs + blank + ys == xs + (blank + ys);
  }

  lemma FirstChunkFull(bases: seq<int>, grow: nat, last: int)
    requires Spaced(bases, grow) && bases != [] && bases[|bases| - 1] == last < grow
    ensures last == 0
  {
    if |bases| > 1 {
      SpacedApart(bases, grow, 0, |bases| - 1);
    }
  }
}
