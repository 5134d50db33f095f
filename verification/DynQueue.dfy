/** The linear queue of cQueueRead and cQueueRW in the growing storage of cQueueDyn and cQueueBytes. */
module DynQueue {
  import opened Arith
  import Mem

  class Queue<T> {
    const blank: T
    var data: array<T>          // _aData, and the span over all of it
    var readIndex: int
    var writeIndex: int
    var autoReadCommit: int
    var growChunk: int
    var growMax: int

    ghost predicate Valid()
      reads this
    {
      0 <= readIndex <= writeIndex <= data.Length <= growMax
    }

    /** What was written and not yet read. */
    function Unread(): seq<T>
      requires Valid()
      reads this, data
    {
      data[readIndex..writeIndex]
    }

    constructor (blank: T, growChunk: nat, growMax: nat)
      ensures Valid() && fresh(data) && Unread() == [] && this.blank == blank && autoReadCommit == this.growChunk / 2
      ensures data.Length == this.growChunk && readIndex == writeIndex == 0
      ensures this.growChunk == if growMax == 0 then 0 else if growChunk < 64 then 64 else growChunk
      ensures this.growMax == if growMax == 0 || growMax >= this.growChunk then growMax else this.growChunk
    {
      var chunk, max := growChunk, growMax;
      if max > 0 {
        if chunk < 64 {
          chunk := 64;
        }
        if chunk > max {
          max := chunk;
        }
      } else {
        chunk := 0;
      }
      this.blank, this.growChunk, this.growMax := blank, chunk, max;
      readIndex, writeIndex, autoReadCommit := 0, 0, chunk / 2;
      data := new T[chunk](_ => blank);
    }

    /** AllocSizeMaxQ: gives the storage another size and keeps what fits. Nothing guards what was written
        against a smaller size. */
    method AllocSizeMaxQ(n: nat) returns (ok: bool)
      requires Valid()
      modifies this`data
      ensures (ok <==> n <= growMax) && (data == old(data) || fresh(data))
      ensures data.Length == if ok then n else old(data.Length)
      ensures data[..Min(data.Length, old(data.Length))] == old(data[..])[..Min(data.Length, old(data.Length))]
      ensures Valid() <==> ok ==> writeIndex <= n
    {
      if n > growMax {
        return false;
      }
      if data.Length != n {
        var grown := new T[n](_ => blank);
        forall i | 0 <= i < Min(n, data.Length) {
          grown[i] := data[i];
        }
        data := grown;
      }
      return true;
    }

    /** Growing is by whole chunks: the source asserts that a chunk is not empty. */
    predicate CanGrow(need: int)
      reads this
    {
      need <= data.Length - writeIndex || data.Length >= growMax || growChunk > 0
    }

    /** GetWritePrep: room for need more elements, or storage of the largest size. */
    method GetWritePrep(need: int)
      requires Valid() && CanGrow(need)
      modifies this`data
      ensures Valid() && Unread() == old(Unread()) && (data == old(data) || fresh(data))
      ensures need <= data.Length - writeIndex || data.Length == growMax
      ensures data.Length >= old(data.Length) && data[..old(data.Length)] == old(data[..])
      ensures data.Length == old(data.Length) || data.Length == growMax ||
              (growChunk > 0 && data.Length % growChunk == 0 && data.Length - growChunk < writeIndex + need)
    {
      ghost var was := data[..];
      var room := data.Length - writeIndex;
      if need > room && data.Length < growMax {
        var newQty := data.Length + (need - room);
        var chunks := (newQty + (growChunk - 1)) / growChunk;
        RoundUp(newQty, growChunk);
        var ok := AllocSizeMaxQ(Min(chunks * growChunk, growMax));
        PrefixHolds(data[..], was, readIndex, writeIndex);
      }
    }

    method AdvanceWrite(n: nat)
      requires Valid() && n <= data.Length - writeIndex
      modifies this`writeIndex
      ensures Valid() && writeIndex == old(writeIndex) + n
    {
      writeIndex := writeIndex + n;
    }

    /** A bulk write appends all that fits up to the largest size, or nothing if it is atomic and not all
        fits. Elements already read take room until they are committed. */
    method WriteSpanQ(src: seq<T>, atomic: bool) returns (n: nat)
      requires Valid() && CanGrow(|src|)
      modifies this`data, this`writeIndex, data
      ensures n <= |src| && Valid() && Unread() == old(Unread()) + src[..n] && (data == old(data) || fresh(data))
      ensures var room := growMax - old(writeIndex);
              n == if |src| <= room then |src| else if atomic then 0 else room
      ensures writeIndex == old(writeIndex) + n
    {
      GetWritePrep(|src|);
      var room := data.Length - writeIndex;
      if atomic && |src| > room {
        return 0;
      }
      n := Min(room, |src|);
      PutAppends(data[..], readIndex, writeIndex, src[..n]);
      Put(writeIndex, src[..n]);
      AdvanceWrite(n);
    }

    /** Copies a span into the storage. */
    method Put(at: nat, src: seq<T>)
      requires at + |src| <= data.Length
      modifies data
      ensures data[..] == old(data[..])[..at] + src + old(data[..])[at + |src|..]
    {
      forall i | 0 <= i < |src| {
        data[at + i] := src[i];
      }
    }

    method Write1(x: T) returns (ok: bool)
      requires Valid() && CanGrow(1)
      modifies this`data, this`writeIndex, data
      ensures Valid() && (data == old(data) || fresh(data))
      ensures ok <==> old(writeIndex) < growMax
      ensures Unread() == if ok then old(Unread()) + [x] else old(Unread())
    {
      GetWritePrep(1);
      if data.Length - writeIndex == 0 {
        return false;
      }
      PutAppends(data[..], readIndex, writeIndex, [x]);
      Put(writeIndex, [x]);
      AdvanceWrite(1);
      return true;
    }

    /** WriteQ empties another queue into this one, or changes nothing that can be read. A queue that is
        empty already counts as a failure. */
    method WriteQ(q: Queue<T>) returns (ok: bool)
      requires Valid() && q.Valid() && q != this && q.data != data && CanGrow(|q.Unread()|)
      modifies this`data, this`writeIndex, data, q`readIndex, q`writeIndex
      ensures Valid() && q.Valid() && Unread() + q.Unread() == old(Unread() + q.Unread())
      ensures ok <==> 0 < |old(q.Unread())| <= growMax - old(writeIndex)
      ensures q.Unread() == if ok then [] else old(q.Unread())
    {
      var n := WriteSpanQ(q.data[q.readIndex..q.writeIndex], true);
      if n == 0 {
        return false;
      }
      q.readIndex, q.writeIndex := 0, 0;
      return true;
    }

    /** cQueueRead::Read1 */
    method Read1() returns (x: T)
      requires Valid() && Unread() != []
      modifies this`readIndex
      ensures Valid() && old(Unread()) == [x] + Unread()
    {
      x := data[readIndex];
      readIndex := readIndex + 1;
    }

    method ReadSpanQ(size: nat) returns (got: seq<T>)
      requires Valid()
      modifies this`readIndex, this`writeIndex, data
      ensures Valid() && old(Unread()) == got + Unread() && |got| == Min(size, |old(Unread())|)
      ensures Committed(old(readIndex) + |got|)
    {
      var n := Min(size, writeIndex - readIndex);
      got := data[readIndex..readIndex + n];
      readIndex := readIndex + n;
      ReadCommitCheck();
    }

    /** Where the read index is after reading on to index i: at 0 if that was far enough to commit. */
    predicate Committed(i: int)
      reads this
    {
      readIndex == if autoReadCommit != 0 && i >= autoReadCommit then 0 else i
    }

    /** ReadCommitNow moves what is unread to the front of the storage. */
    method ReadCommitNow()
      requires Valid()
      modifies this`readIndex, this`writeIndex, data
      ensures Valid() && Unread() == old(Unread()) && readIndex == 0
    {
      if readIndex <= 0 {
        return;
      }
      var n := writeIndex - readIndex;
      if n > 0 {
        Mem.CopyOverlap(data, 0, readIndex, n);
      }
      readIndex, writeIndex := 0, n;
    }

    method ReadCommitCheck()
      requires Valid()
      modifies this`readIndex, this`writeIndex, data
      ensures Valid() && Unread() == old(Unread()) && Committed(old(readIndex))
    {
      if autoReadCommit != 0 && readIndex >= autoReadCommit {
        ReadCommitNow();
      }
    }

    method PutAutoReadCommit(n: int)
      requires Valid()
      modifies this`readIndex, this`writeIndex, this`autoReadCommit, data
      ensures Valid() && Unread() == old(Unread()) && autoReadCommit == n
      ensures if old(autoReadCommit) == n then Committed(old(readIndex)) else readIndex == if n == 0 then old(readIndex) else 0
    {
      if autoReadCommit == n {
        ReadCommitCheck();
        return;
      }
      autoReadCommit := n;
      if n != 0 {
        ReadCommitNow();
      }
    }

    /** put_ReadIndex reads again, or skips: what is unread then begins at index i of the storage. */
    method PutReadIndex(i: int)
      requires Valid() && 0 <= i <= writeIndex
      modifies this`readIndex, this`writeIndex, data
      ensures Valid() && Unread() == old(data[i..writeIndex]) && Committed(i)
    {
      readIndex := i;
      ReadCommitCheck();
    }

    method PutGrowSizeChunk(n: int)
      requires Valid()
      modifies this`growChunk, this`growMax
      ensures Valid() && Unread() == old(Unread()) && growChunk == n && growMax == if n > old(growMax) then n else old(growMax)
      ensures n == 0 ==> forall need :: CanGrow(need) <==> need <= data.Length - writeIndex || data.Length >= growMax
    {
      if n > growMax {
        growMax := n;
      }
      growChunk := n;
    }

    /** InsertDataHead: what is inserted is read first. */
    method InsertDataHead(src: seq<T>) returns (ok: bool)
      requires Valid() && CanGrow(|src|)
      modifies this`data, this`writeIndex, data
      ensures Valid() && (data == old(data) || fresh(data))
      ensures ok <==> |src| <= growMax - old(writeIndex)
      ensures Unread() == if ok then src + old(Unread()) else old(Unread())
    {
      GetWritePrep(|src|);
      if data.Length - writeIndex < |src| {
        return false;
      }
      InsertAtRead(src);
      AdvanceWrite(|src|);
      return true;
    }

    method InsertAtRead(src: seq<T>)
      requires Valid() && |src| <= data.Length - writeIndex
      modifies data
      ensures data[readIndex..writeIndex + |src|] == src + old(Unread())
    {
      ghost var was := data[..];
      Mem.CopyOverlap(data, readIndex + |src|, readIndex, writeIndex - readIndex);
      Put(readIndex, src);
      HeadInserted(was, readIndex, writeIndex, src);
      assert data[..][readIndex..writeIndex + |src|] == data[readIndex..writeIndex + |src|];
    }

    /** SetAllData: the queue holds this and nothing else, unless it is too big. */
    method SetAllData(src: seq<T>) returns (ok: bool)
      requires Valid()
      modifies this`data, this`readIndex, this`writeIndex, data
      ensures Valid() && (data == old(data) || fresh(data))
      ensures ok <==> |src| <= growMax
      ensures Unread() == if ok then src else old(Unread())
    {
      if |src| > data.Length {
        ok := AllocSizeMaxQ(|src|);
        if !ok {
          return false;
        }
      }
      Put(0, src);
      readIndex, writeIndex := 0, |src|;
      return true;
    }
  }

  /** With a chunk of 0, documented to mean that the queue never grows, a write that does not fit in the storage
      fails the assertion instead, unless the storage has its largest size. */
  method ChunkOfZero<T>(blank: T, growChunk: nat, growMax: nat, need: int) returns (q: Queue<T>, fine: bool)
    ensures fresh(q) && q.growChunk == 0
    ensures fine <==> growMax <= growChunk || growMax <= 64 || need <= 64 || need <= growChunk
  {
    q := new Queue<T>(blank, growChunk, growMax);
    q.PutGrowSizeChunk(0);
    fine := q.CanGrow(need);
  }

  lemma PrefixHolds<T>(s: seq<T>, was: seq<T>, read: nat, write: nat)
    requires read <= write <= |was| <= |s| && s[..|was|] == was
    ensures s[read..write] == was[read..write]
  {
    assert s[..|was|][read..write] == s[read..write];
  }

  lemma PutAppends<T>(s: seq<T>, read: nat, write: nat, src: seq<T>)
    requires read <= write && write + |src| <= |s|
    ensures (s[..write] + src + s[write + |src|..])[read..write + |src|] == s[read..write] + src
  {
    var t := s[..write] + src + s[write + |src|..];
    assert t[read..write] == s[read..write] && t[write..write + |src|] == src;
  }

  lemma HeadInserted<T>(s: seq<T>, read: nat, write: nat, src: seq<T>)
    requires read <= write && write + |src| <= |s|
    ensures var m := Mem.Moved(s, read + |src|, read, write - read);
            (m[..read] + src + m[read + |src|..])[read..write + |src|] == src + s[read..write]
  {
    var m := Mem.Moved(s, read + |src|, read, write - read);
    assert m[read + |src|..write + |src|] == s[read..write];
    var t := m[..read] + src + m[read + |src|..];
    assert t[read + |src|..write + |src|] == m[read + |src|..write + |src|];
    assert t[read..read + |src|] == src;
  }

  /** Rounding up goes to the next multiple. */
  lemma RoundUp(n: int, chunk: int)
    requires n > 0 && chunk > 0
    ensures var up := ((n + (chunk - 1)) / chunk) * chunk; n <= up < n + chunk && up % chunk == 0
  {
    DivModUnique(((n + (chunk - 1)) / chunk) * chunk, (n + (chunk - 1)) / chunk, 0, chunk);
  }
}
