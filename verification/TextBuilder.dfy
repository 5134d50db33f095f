/** StrBuilder: text built in a buffer that is fixed, or grows on the heap up to a limit. */
module TextBuilder {
  import opened Arith

  type Char = int

  const LEN_MAX := 15000    // cStrConst::k_LEN_MAX
  const GROW := 1024        // k_nGrowSizeChunk

  /** What a heap buffer is reallocated to: more than needed, up to the limit, and the terminator. */
  function GrownSize(alloc: nat, more: nat): (n: nat)
    ensures alloc < LEN_MAX && 0 < more ==> alloc < n <= LEN_MAX + 1
    ensures alloc < LEN_MAX ==> n > alloc + more || n == LEN_MAX + 1
    ensures n <= alloc + more + GROW + 1
  {
    var size := alloc + more;
    var rem := if size % GROW <= 0 then GROW else size % GROW;
    (if size + rem > LEN_MAX then LEN_MAX else size + rem) + 1
  }

  /** How much of a text CopyLen copies: up to the first terminator in it. */
  function UpToNul(src: seq<Char>): (k: nat)
    ensures k <= |src| && (0 !in src ==> k == |src|)
    ensures k < |src| ==> src[k] == 0
  {
    if src == [] || src[0] == 0 then 0 else 1 + UpToNul(src[1..])
  }

  class StrBuilder {
    var buf: array<Char>
    var writeIndex: int
    const heap: bool
    ghost var all: seq<Char>      // everything that was added

    /** The text has its terminator, inside the buffer. */
    ghost predicate Valid()
      reads this, buf
    {
      0 <= writeIndex < buf.Length && buf[writeIndex] == 0
    }

    function Text(): seq<Char>
      requires Valid()
      reads this, buf
    {
      buf[..writeIndex]
    }

    function WriteSpaceQty(): int
      reads this
    {
      buf.Length - writeIndex - 1
    }

    predicate CanGrow()
      reads this
    {
      heap && buf.Length < LEN_MAX
    }

    /** No room, and none to be had. */
    predicate Full()
      reads this
    {
      WriteSpaceQty() == 0 && !CanGrow()
    }

    /** The text is all that was added, or the first part of it that fills the largest buffer. */
    ghost predicate Faithful()
      reads this, buf
    {
      Valid() && Text() <= all && (Text() == all || Full())
    }

    /** The text got longer by src, or by as much of it as there is room for. */
    twostate predicate Appended(src: seq<Char>)
      requires old(Valid()) && Valid()
      reads this, buf
    {
      && old(Text()) <= Text() <= old(Text()) + src
      && (Text() == old(Text()) + src || Full())
      && (old(Full()) ==> Full() && Text() == old(Text()))
      && all == old(all) + src
    }

    /** A fixed buffer of n characters holds the first n - 1 characters added. */
    lemma FixedKeepsFirst()
      requires Faithful() && !heap
      ensures Text() == all[..Min(|all|, buf.Length - 1)]
    {
    }

    /** A heap buffer holds all that was added as long as that is below the limit. */
    lemma HeapKeepsAll()
      requires Faithful() && heap && |all| < LEN_MAX
      ensures Text() == all
    {
    }

    /** A heap buffer of a size of its own, or a fixed one. */
    constructor (size: nat, heap: bool)
      requires size > 0
      ensures Faithful() && all == [] && this.heap == heap && buf.Length == size && fresh(buf)
    {
      var b := new Char[size];
      b[0] := 0;
      buf, writeIndex, all := b, 0, [];
      this.heap := heap;
    }

    /** GetWritePrep grows the buffer if it can, so that there is room for need more or no more room to be had. */
    method GetWritePrep(need: int)
      requires Valid()
      modifies this`buf
      ensures Valid() && Text() == old(Text()) && (buf == old(buf) || fresh(buf))
      ensures old(Full()) ==> buf == old(buf)
      ensures need <= WriteSpaceQty() || !CanGrow()
      ensures if heap then buf.Length <= old(buf.Length) || buf.Length <= LEN_MAX + 1 else buf == old(buf)
    {
      if heap {
        var space := WriteSpaceQty();
        if need > space {
          var alloc := buf.Length;
          if alloc < LEN_MAX {
            var grown := new Char[GrownSize(alloc, need - space)];
            forall i | 0 <= i < alloc {
              grown[i] := buf[i];
            }
            buf := grown;
          }
        }
      }
    }

    /** AdvanceWrite and SetTerminated */
    method AdvanceWrite(n: int)
      requires 0 <= writeIndex && 0 <= writeIndex + n && n <= WriteSpaceQty()
      modifies this`writeIndex, buf
      ensures Valid() && writeIndex == old(writeIndex) + n && Text() == old(buf[..writeIndex + n])
    {
      writeIndex := writeIndex + n;
      buf[writeIndex] := 0;
    }

    method AddChar(c: Char)
      requires Valid()
      modifies this`buf, this`writeIndex, this`all, buf
      ensures Valid() && Appended([c]) && (buf == old(buf) || fresh(buf))
      ensures old(Faithful()) ==> Faithful()
    {
      GetWritePrep(1);
      all := all + [c];
      if WriteSpaceQty() > 0 {
        buf[writeIndex] := c;
        AdvanceWrite(1);
      }
      assert Appended([c]);
    }

    /** A negative count takes characters off again; the source checks that there are so many. */
    method AddCharRepeat(c: Char, repeat: int)
      requires Valid() && 0 <= writeIndex + repeat
      modifies this`buf, this`writeIndex, this`all, buf
      ensures Valid() && (buf == old(buf) || fresh(buf)) && (old(Faithful()) ==> Faithful())
      ensures if repeat < 0 then all == Text() == old(Text())[..old(writeIndex) + repeat] else Appended(seq(repeat, _ => c))
    {
      GetWritePrep(repeat);
      var n := Min(repeat, WriteSpaceQty());
      FillQty(n, c);
      AdvanceWrite(n);
      if repeat < 0 {
        all := Text();
      } else {
        ghost var src := seq(repeat, _ => c);
        all := all + src;
        assert src[..n] == seq(n, _ => c);
        AppendedPart(old(Text()), src, Text(), n);
      }
    }

    /** cValSpan::FillQty at the write index. */
    method FillQty(n: int, c: Char)
      requires 0 <= writeIndex && writeIndex + n < buf.Length
      modifies buf
      ensures n < 0 ==> buf[..] == old(buf[..])
      ensures n >= 0 ==> buf[..writeIndex + n] == old(buf[..writeIndex]) + seq(n, _ => c)
    {
      var i := 0;
      while i < n
        invariant 0 <= i && (n < 0 ==> i == 0 && buf[..] == old(buf[..]))
        invariant n >= 0 ==> i <= n && buf[..writeIndex + i] == old(buf[..writeIndex]) + seq(i, _ => c)
      {
        buf[writeIndex + i] := c;
        i := i + 1;
      }
    }

    /** A span without a terminator in it is appended. With one, no more than what comes before it is
        copied, but the text still gets as long: what follows is whatever the buffer held. */
    method AddSpan(src: seq<Char>)
      requires Valid()
      modifies this`buf, this`writeIndex, this`all, buf
      ensures Valid() && (buf == old(buf) || fresh(buf))
      ensures |Text()| == |old(Text())| + |src| || (Full() && |Text()| < |old(Text())| + |src|)
      ensures |Text()| >= |old(Text())| && Copied(old(Text()), src, Text(), |Text()| - |old(Text())|)
      ensures 0 !in src ==> Appended(src) && (old(Faithful()) ==> Faithful())
    {
      if src == [] {
        all := all + src;
        assert old(Text()) + src == Text() && src[..0] == src;
        return;
      }
      GetWritePrep(|src|);
      var n := Min(WriteSpaceQty(), |src|);
      ghost var was := Text();
      PutSpan(src, n);
      all := all + src;
      CopiedPrefix(was, src, Text(), n);
      AppendedPart(was, src, was + src[..n], n);
    }

    method PutSpan(src: seq<Char>, n: nat)
      requires Valid() && n <= |src| && n <= WriteSpaceQty()
      modifies this`writeIndex, buf
      ensures Valid() && writeIndex == old(writeIndex) + n && Copied(old(Text()), src, Text(), n)
    {
      CopyLen(src, n + 1);
      AdvanceWrite(n);
    }

    /** StrT::CopyLen at the write index: copies to the end of src or its first terminator, and terminates. */
    method CopyLen(src: seq<Char>, max: nat)
      requires 0 <= writeIndex && 0 < max && writeIndex + max <= buf.Length && max - 1 <= |src|
      modifies buf
      ensures Copied(old(buf[..writeIndex]), src, buf[..writeIndex + max - 1], max - 1)
    {
      var i := 0;
      while i < |src| && src[i] != 0 && i < max - 1
        invariant 0 <= i <= max - 1 && i <= UpToNul(src)
        invariant buf[..writeIndex + i] == old(buf[..writeIndex]) + src[..i]
      {
        NulAt(src, i);
        buf[writeIndex + i] := src[i];
        i := i + 1;
      }
      if i < |src| {
        NulAt(src, i);
      }
      buf[writeIndex + i] := 0;
      assert buf[..writeIndex + max - 1][..writeIndex + Min(i, max - 1)] == buf[..writeIndex + i];
    }
  }

  lemma {:induction false} NulAt(src: seq<Char>, i: nat)
    requires i <= UpToNul(src) && i < |src|
    ensures src[i] == 0 <==> i == UpToNul(src)
  {
    if i > 0 {
      NulAt(src[1..], i - 1);
    }
  }

  /** The copied part of a span. */
  predicate Copied(was: seq<Char>, src: seq<Char>, now: seq<Char>, n: nat)
    requires n <= |src| && |now| == |was| + n
  {
    var k := Min(UpToNul(src), n);
    now[..|was| + k] == was + src[..k] && (k < n ==> now[|was| + k] == 0)
  }

  lemma CopiedPrefix(was: seq<Char>, src: seq<Char>, now: seq<Char>, n: nat)
    requires n <= |src| && |now| == |was| + n && Copied(was, src, now, n)
    ensures was <= now && (0 !in src ==> now == was + src[..n])
  {
    var k := Min(UpToNul(src), n);
    assert (was + src[..k])[..|was|] == was;
    assert now[..|was| + k][..|was|] == now[..|was|];
    if 0 !in src {
      assert now[..|was| + k] == now;
    }
  }

  lemma AppendedPart(was: seq<Char>, src: seq<Char>, now: seq<Char>, n: nat)
    requires n <= |src| && now == was + src[..n]
    ensures was <= now <= was + src && (n == |src| ==> now == was + src)
  {
    assert now == (was + src)[..|was| + n];
  }
}
