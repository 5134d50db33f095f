/** cArrayT: arrays that share one heap block until their size changes, and the count that tells. */
module SharedArray {
  import Mem

  /** cMem::k_ALLOC_MAX */
  const ALLOC_MAX := 0x200_0000

  /** cArrayHeadT */
  class Head<T> {
    var refs: nat
    var elems: seq<T>
    ghost var freed: bool

    constructor (elems: seq<T>, refs: nat)
      ensures this.elems == elems && this.refs == refs && !freed
    {
      this.elems, this.refs, freed := elems, refs, false;
    }
  }

  /** A size change keeps what fits and puts default elements behind it. */
  function Resized<T>(s: seq<T>, n: nat, blank: T): (r: seq<T>)
    ensures |r| == n
  {
    if n <= |s| then s[..n] else s + seq(n - |s|, _ => blank)
  }

  /** A size change of s gave t: element by element what s held, and default elements behind it. */
  ghost predicate KeptAndPadded<T>(s: seq<T>, t: seq<T>, n: nat, blank: T) {
    && |t| == n
    && (forall i :: 0 <= i < n && i < |s| ==> t[i] == s[i])
    && (forall i :: |s| <= i < n ==> t[i] == blank)
  }

  lemma ResizedKeeps<T>(s: seq<T>, n: nat, blank: T)
    ensures KeptAndPadded(s, Resized(s, n, blank), n, blank)
  {
  }

  /** The handles that point to a head. */
  ghost function Sharers<T>(all: set<Handle<T>>, p: Head?<T>): set<Handle<T>>
    reads all
  {
    set h | h in all && h.ptr == p
  }

  /** Every head counts the handles that point to it, so none in use was freed. */
  ghost predicate Counted<T>(all: set<Handle<T>>)
    reads all, set h <- all :: h.ptr
  {
    forall h <- all :: h.ptr != null ==> h.ptr.refs == |Sharers(all, h.ptr)| && !h.ptr.freed
  }

  /** cArrayT. all is every handle there is. */
  class Handle<T> {
    const blank: T
    var ptr: Head?<T>

    function Contents(): seq<T>
      reads this, ptr
    {
      if ptr == null then [] else ptr.elems
    }

    constructor (blank: T)
      ensures this.blank == blank && ptr == null
    {
      this.blank, ptr := blank, null;
    }

    lemma CountsMe(all: set<Handle<T>>)
      requires this in all && Counted(all) && ptr != null
      ensures ptr.refs >= 1
      ensures ptr.refs == 1 <==> forall h <- all :: h.ptr == ptr ==> h == this
    {
      var s := Sharers(all, ptr);
      assert this in s;
      if |s| == 1 {
        forall h <- all | h.ptr == ptr ensures h == this {
          assert h in s && |s - {this}| == 0;
        }
      } else {
        var h :| h in s - {this} by { assert |s - {this}| > 0; }
      }
    }

    /** ReleasePtr: the last handle to let go frees the head. */
    method ReleasePtr(ghost all: set<Handle<T>>)
      requires this in all && Counted(all)
      modifies this, ptr
      ensures ptr == null && Counted(all)
      ensures old(ptr) != null ==> old(ptr).refs == old(ptr.refs) - 1 && old(ptr).elems == old(ptr.elems)
      ensures old(ptr) != null ==> (old(ptr).freed <==> Sharers(all, old(ptr)) == {})
    {
      if ptr != null {
        CountsMe(all);
        var p := ptr;
        ghost var s := Sharers(all, p);
        ptr := null;
        p.refs := p.refs - 1;
        assert Sharers(all, p) == s - {this};
        if p.refs == 0 {
          p.freed := true;
        }
        forall h <- all | h.ptr != null ensures h.ptr.refs == |Sharers(all, h.ptr)| && !h.ptr.freed {
          assert h.ptr != p ==> Sharers(all, h.ptr) == old(Sharers(all, h.ptr));
        }
      }
    }

    /** AttachPtr and IncRefFirst, on a handle that points to nothing. */
    method AttachPtr(p: Head<T>, ghost all: set<Handle<T>>)
      requires this in all && Counted(all) && ptr == null && !p.freed && p.refs == |Sharers(all, p)|
      modifies this, p
      ensures ptr == p && Counted(all) && p.refs == old(p.refs) + 1 && p.elems == old(p.elems)
    {
      ghost var s := Sharers(all, p);
      ptr := p;
      p.refs := p.refs + 1;
      assert Sharers(all, p) == s + {this};
      forall h <- all | h.ptr != null ensures h.ptr.refs == |Sharers(all, h.ptr)| && !h.ptr.freed {
        assert h.ptr != p ==> Sharers(all, h.ptr) == old(Sharers(all, h.ptr));
      }
    }

    /** Assignment from another handle: both point to one head afterwards. */
    method Share(other: Handle<T>, ghost all: set<Handle<T>>)
      requires this in all && other in all && Counted(all)
      modifies this, ptr, other.ptr
      ensures ptr == old(other.ptr) && Counted(all)
      ensures forall h <- all :: h != this ==> h.ptr == old(h.ptr) && h.Contents() == old(h.Contents())
      ensures Contents() == old(other.Contents())
    {
      if ptr != other.ptr {
        ReleasePtr(all);
        if other.ptr != null {
          AttachPtr(other.ptr, all);
        }
      }
    }

    /** Only this handle sees the change: it has a head of its own afterwards. */
    twostate predicate Isolated(all: set<Handle<T>>)
      reads this, ptr, all, set h <- all :: h.ptr
    {
      && (ptr != null ==> forall h <- all :: h.ptr == ptr ==> h == this)
      && Others(all)
    }

    twostate predicate Others(all: set<Handle<T>>)
      reads this, all, set h <- all :: h.ptr
    {
      forall h <- all :: h != this ==> h.ptr == old(h.ptr) && h.Contents() == old(h.Contents())
    }

    /** CreateHead and put_Ptr: a new head for this handle alone. */
    method PutNew(elems: seq<T>, ghost all: set<Handle<T>>)
      requires this in all && Counted(all)
      modifies this, ptr
      ensures Counted(all) && ptr != null && fresh(ptr) && Contents() == elems && Isolated(all)
    {
      ReleasePtr(all);
      var p := new Head<T>(elems, 0);
      assert Sharers(all, p) == {};
      AttachPtr(p, all);
    }

    /** SetCopyFrom */
    method SetCopyFrom(old': Head?<T>, n: nat, ghost all: set<Handle<T>>)
      requires this in all && Counted(all)
      modifies this, ptr
      ensures Counted(all) && (ptr == null <==> n == 0) && (ptr != null ==> fresh(ptr)) && Isolated(all)
      ensures Contents() == Resized(old(if old' == null then [] else old'.elems), n, blank)
      ensures KeptAndPadded(old(if old' == null then [] else old'.elems), Contents(), n, blank)
    {
      ResizedKeeps(if old' == null then [] else old'.elems, n, blank);
      if n == 0 {
        ReleasePtr(all);
      } else {
        PutNew(Resized(if old' == null then [] else old'.elems, n, blank), all);
      }
    }

    /** ResizeHead on a head no other handle points to. Growing reallocates it, and may move it. */
    method ResizeHead(n: nat, moves: bool, ghost all: set<Handle<T>>)
      requires this in all && Counted(all) && ptr != null && ptr.refs == 1 && n != |ptr.elems|
      modifies this, ptr
      ensures Counted(all) && ptr != null && Isolated(all) && Contents() == Resized(old(Contents()), n, blank)
      ensures KeptAndPadded(old(Contents()), Contents(), n, blank)
      ensures ptr == old(ptr) || (n > old(|ptr.elems|) && moves && fresh(ptr) && old(ptr).freed)
    {
      CountsMe(all);
      ResizedKeeps(ptr.elems, n, blank);
      ghost var s := Sharers(all, ptr);
      if n > |ptr.elems| && moves {
        var p := new Head<T>(Resized(ptr.elems, n, blank), ptr.refs);
        ptr.freed := true;
        ptr := p;
        assert Sharers(all, p) == s;
        forall h <- all | h.ptr != null ensures h.ptr.refs == |Sharers(all, h.ptr)| && !h.ptr.freed {
          assert h.ptr != p ==> Sharers(all, h.ptr) == old(Sharers(all, h.ptr));
        }
      } else {
        ptr.elems := Resized(ptr.elems, n, blank);
        forall h <- all | h.ptr != null ensures h.ptr.refs == |Sharers(all, h.ptr)| && !h.ptr.freed {
          assert Sharers(all, h.ptr) == old(Sharers(all, h.ptr));
        }
      }
    }

    /** put_Count: no other handle sees the change of size. */
    method PutCount(n: nat, moves: bool, ghost all: set<Handle<T>>)
      requires this in all && Counted(all) && n < ALLOC_MAX
      modifies this, ptr
      ensures Counted(all) && Contents() == Resized(old(Contents()), n, blank) && Others(all)
      ensures KeptAndPadded(old(Contents()), Contents(), n, blank)
      ensures n == |old(Contents())| ==> ptr == old(ptr)
      ensures n != |old(Contents())| ==> Isolated(all) && (n == 0 <==> ptr == null)
      ensures ptr != old(ptr) && ptr != null ==> fresh(ptr)
    {
      ResizedKeeps(Contents(), n, blank);
      if ptr == null {
        if n == 0 {
          return;
        }
        PutNew(seq(n, _ => blank), all);
        return;
      }
      if n == |ptr.elems| {
        return;
      }
      if n == 0 {
        ReleasePtr(all);
        return;
      }
      if ptr.refs != 1 {
        SetCopyFrom(ptr, n, all);
        return;
      }
      ResizeHead(n, moves, all);
    }

    /** SetAt writes in place: every handle that shares the head sees it. */
    method SetAt(i: nat, x: T, ghost all: set<Handle<T>>)
      requires this in all && Counted(all) && i < |Contents()|
      modifies ptr
      ensures Counted(all) && Contents() == old(Contents())[i := x]
      ensures forall h <- all :: h.Contents() == if h.ptr == ptr then Contents() else old(h.Contents())
    {
      ptr.elems := ptr.elems[i := x];
      SameSharers(all);
    }

    /** Counts are right as long as no pointer and no count changes. */
    twostate lemma SameSharers(all: set<Handle<T>>)
      requires old(Counted(all))
      requires forall h <- all :: h.ptr == old(h.ptr) && (h.ptr != null ==> h.ptr.refs == old(h.ptr.refs) && h.ptr.freed == old(h.ptr.freed))
      ensures Counted(all)
    {
      forall h <- all | h.ptr != null ensures h.ptr.refs == |Sharers(all, h.ptr)| && !h.ptr.freed {
        assert Sharers(all, h.ptr) == old(Sharers(all, h.ptr));
      }
    }

    /** SetAtGrow: beyond the end it grows, which no other handle sees; within, it writes in place, which
        every handle that shares the head sees. */
    method SetAtGrow(i: nat, x: T, moves: bool, ghost all: set<Handle<T>>)
      requires this in all && Counted(all) && i + 1 < ALLOC_MAX
      modifies this, ptr
      ensures Counted(all)
      ensures i >= |old(Contents())| ==> Contents() == Resized(old(Contents()), i, blank) + [x] && Isolated(all)
      ensures i >= |old(Contents())| ==> KeptAndPadded(old(Contents()), Contents()[..i], i, blank) && Contents()[i..] == [x]
      ensures i < |old(Contents())| ==> ptr == old(ptr) && Contents() == old(Contents())[i := x]
      ensures i < |old(Contents())| ==>
                forall h <- all :: h.ptr == old(h.ptr) && h.Contents() == if h.ptr == ptr then Contents() else old(h.Contents())
    {
      ResizedKeeps(Contents(), i, blank);
      if i >= |Contents()| {
        PutCount(i + 1, moves, all);
      }
      SetAt(i, x, all);
    }

    method Add(x: T, moves: bool, ghost all: set<Handle<T>>) returns (i: nat)
      requires this in all && Counted(all) && |Contents()| + 1 < ALLOC_MAX
      modifies this, ptr
      ensures Counted(all) && Contents() == old(Contents()) + [x] && Isolated(all) && i == |old(Contents())|
    {
      i := |Contents()|;
      PutCount(i + 1, moves, all);
      SetAt(i, x, all);
    }

    method InsertAt(i: nat, x: T, moves: bool, ghost all: set<Handle<T>>)
      requires this in all && Counted(all) && i + 1 < ALLOC_MAX && |Contents()| + 1 < ALLOC_MAX
      modifies this, ptr
      ensures Counted(all) && Isolated(all)
      ensures Contents() == var s := old(Contents());
                if i >= |s| then Resized(s, i, blank) + [x] else s[..i] + [x] + s[i..]
    {
      if i >= |Contents()| {
        PutCount(i + 1, moves, all);
      } else {
        MakeGap(i, moves, all);
      }
      SetAt(i, x, all);
    }

    method MakeGap(i: nat, moves: bool, ghost all: set<Handle<T>>)
      requires this in all && Counted(all) && i < |Contents()| && |Contents()| + 1 < ALLOC_MAX
      modifies this, ptr
      ensures Counted(all) && Isolated(all) && (ptr != old(ptr) ==> fresh(ptr))
      ensures ptr != null && Contents() == old(Contents()[..i] + [blank] + Contents()[i..])
    {
      var n := |Contents()|;
      PutCount(n + 1, moves, all);
      label grown:
      ptr.elems := Mem.Shifted(ptr.elems, n, i);
      SameSharers@grown(all);
    }

    /** RemoveAt takes elements out in place: every handle that shares the head sees it, and a head that
        gets empty is kept. */
    method RemoveAt(i: int, qty: int, ghost all: set<Handle<T>>)
      requires this in all && Counted(all)
      modifies ptr
      ensures Counted(all) && ptr == old(ptr)
      ensures Contents() == var s := old(Contents());
                if qty <= 0 || i < 0 || i >= |s| then s else s[..i] + if i + qty < |s| then s[i + qty..] else []
      ensures forall h <- all :: h.Contents() == if h.ptr == ptr then Contents() else old(h.Contents())
    {
      if qty <= 0 || i < 0 || ptr == null {
        return;
      }
      var n := |ptr.elems|;
      if i >= n {
        return;
      }
      var qty', after := qty, n - (i + qty);
      if after < 0 {
        after := 0;
        qty' := n - i;
      }
      if after > 0 {
        ptr.elems := ptr.elems[..i] + ptr.elems[i + qty'..][..after] + ptr.elems[i + after..];
      }
      ptr.elems := ptr.elems[..n - qty'];
      SameSharers(all);
    }
  }
}
