/** The bucketed tables of cHashTable: cHashTableRef as a map from hash code to object, the walk of
    FOREACH_HASH_TABLE, and the bucket choice of cHashTableName. */
module HashTable {
  import opened Wrappers
  import opened SortedArray
  import opened Arith
  import PrefixSearch

  /** k & (2^bits - 1), for a key of either sign in two's complement. */
  function BucketNum(k: int, qty: nat): nat
    requires 0 < qty
  {
    k % qty
  }

  /** Every entry, bucket by bucket. */
  function Concat(lists: seq<seq<Ptr>>): seq<Ptr> {
    if lists == [] then [] else Concat(lists[..|lists| - 1]) + lists[|lists| - 1]
  }

  /** What a walk leaves of one bucket. remove decides for each entry as it is visited, and may look at
      everything visited before it. */
  function Kept(list: seq<Ptr>, before: seq<Ptr>, remove: (seq<Ptr>, Ptr) -> bool): (kept: seq<Ptr>)
    ensures |kept| <= |list|
  {
    if list == [] then [] else
    var front, last := list[..|list| - 1], list[|list| - 1];
    Kept(front, before, remove) + if remove(before + front, last) then [] else [last]
  }

  /** Every entry is in the bucket of its hash, buckets are strictly sorted, and the entries are
      exactly the objects of the map from hash to object. */
  ghost predicate Agrees(keys: Keys, lists: seq<seq<Ptr>>, table: map<int, Ptr>) {
    && 0 < |lists| && !keys.byAddress
    && (forall b :: 0 <= b < |lists| ==> BucketAgrees(keys, lists[b], b, |lists|, table))
    && (forall h <- table :: keys.key(table[h]) == h && table[h] in lists[BucketNum(h, |lists|)])
  }

  ghost predicate BucketAgrees(keys: Keys, list: seq<Ptr>, b: nat, qty: nat, table: map<int, Ptr>)
    requires 0 < qty
  {
    && keys.Strict(list) && NULL !in list
    && forall x <- list :: BucketNum(keys.key(x), qty) == b && keys.key(x) in table && table[keys.key(x)] == x
  }

  lemma StrictIsSorted(keys: Keys, s: seq<Ptr>)
    requires keys.Strict(s)
    ensures keys.Sorted(s)
  {
    forall i, j | 0 <= i < j < |s| ensures keys.key(s[i]) <= keys.key(s[j]) {
      assert keys.CompareElems(s[i], s[j]) < 0;
    }
  }

  /** Changing the entry of one hash in its bucket and in the map. */
  lemma AgreesAfter(keys: Keys, lists: seq<seq<Ptr>>, table: map<int, Ptr>, h: int, list: seq<Ptr>, table': map<int, Ptr>)
    requires Agrees(keys, lists, table) && keys.Strict(list) && NULL !in list
    requires forall k :: k != h ==> (k in table' <==> k in table) && (k in table ==> table'[k] == table[k])
    requires h in table' ==> keys.key(table'[h]) == h
    requires forall y :: y in list <==>
      (h in table' && y == table'[h]) || (y in lists[BucketNum(h, |lists|)] && keys.key(y) != h)
    ensures Agrees(keys, lists[BucketNum(h, |lists|) := list], table')
  {
    var b := BucketNum(h, |lists|);
    var lists' := lists[b := list];
    forall c | 0 <= c < |lists'| ensures BucketAgrees(keys, lists'[c], c, |lists|, table') {
      assert BucketAgrees(keys, lists[c], c, |lists|, table);
    }
  }

  class Table {
    const keys: Keys                  // key is get_HashCode
    const buckets: seq<PtrArray>      // _aBucket
    ghost var table: map<int, Ptr>

    function Lists(): (lists: seq<seq<Ptr>>)
      reads buckets
      ensures |lists| == |buckets| && forall i :: 0 <= i < |buckets| ==> lists[i] == buckets[i].elems
    {
      seq(|buckets|, i requires 0 <= i < |buckets| reads buckets => buckets[i].elems)
    }

    ghost predicate Valid()
      reads this, buckets
    {
      && Agrees(keys, Lists(), table)
      && (forall b :: 0 <= b < |buckets| ==> buckets[b].keys == keys)
      && (forall a, b :: 0 <= a < b < |buckets| ==> buckets[a] != buckets[b])
    }

    /** The bucket of a hash, ready for the operations of the sorted array. */
    lemma Bucket(h: int)
      requires Valid()
      ensures 0 <= BucketNum(h, |buckets|) < |buckets|
      ensures var a := buckets[BucketNum(h, |buckets|)];
              a.Valid() && keys.Strict(a.elems) && Lists()[BucketNum(h, |buckets|)] == a.elems
      ensures var a := buckets[BucketNum(h, |buckets|)];
              forall x :: x in a.elems && keys.key(x) == h <==> h in table && x == table[h]
    {
      var b := BucketNum(h, |buckets|);
      assert BucketAgrees(keys, Lists()[b], b, |buckets|, table);
      StrictIsSorted(keys, buckets[b].elems);
    }

    constructor (bits: nat, hash: Ptr -> int)
      ensures Valid() && table == map[] && |buckets| == Pow2(bits) && keys.key == hash
      ensures fresh(buckets)
    {
      var n := Pow2(bits);
      var k := Keys(hash, false);
      var list: seq<PtrArray> := [];
      while |list| < n
        invariant |list| <= n && fresh(list)
        invariant forall i :: 0 <= i < |list| ==> list[i].keys == k && list[i].elems == []
        invariant forall i, j :: 0 <= i < j < |list| ==> list[i] != list[j]
      {
        var a := new PtrArray(k);
        list := list + [a];
      }
      keys, buckets, table := k, list, map[];
    }

    method FindArgForKey(h: int) returns (x: Ptr)
      requires Valid()
      ensures x == if h in table then table[h] else NULL
    {
      Bucket(h);
      var b := BucketNum(h, |buckets|);
      var i := buckets[b].FindIForKey(h);
      if i < 0 {
        return NULL;
      }
      return buckets[b].elems[i];
    }

    method Add(x: Ptr) returns (index: int)
      requires Valid() && x != NULL
      modifies this, buckets[BucketNum(keys.key(x), |buckets|)]
      ensures Valid() && table == old(table)[keys.key(x) := x] && index != NearSearch.BAD
    {
      var h := keys.key(x);
      Bucket(h);
      var b := BucketNum(h, |buckets|);
      AddReplacing(keys, buckets[b].elems, x);
      ghost var lists, was := Lists(), table;
      index := buckets[b].Add(x, 1);
      table := table[h := x];
      AgreesAfter(keys, lists, was, h, buckets[b].elems, table);
      assert Lists() == lists[b := buckets[b].elems];
    }

    method DeleteArg(x: Ptr) returns (ok: bool)
      requires Valid()
      modifies this, buckets[BucketNum(keys.key(x), |buckets|)]
      ensures Valid() && (ok <==> x != NULL && keys.key(x) in old(table) && old(table)[keys.key(x)] == x)
      ensures table == if ok then old(table) - {keys.key(x)} else old(table)
    {
      if x == NULL {
        return false;
      }
      var h := keys.key(x);
      Bucket(h);
      var b := BucketNum(h, |buckets|);
      ghost var lists, was := Lists(), table;
      ok := buckets[b].RemoveArgForKey(x, h);
      if ok {
        table := table - {h};
      }
      AgreesAfter(keys, lists, was, h, buckets[b].elems, table);
      assert Lists() == lists[b := buckets[b].elems];
    }

    method DeleteKey(h: int) returns (ok: bool)
      requires Valid()
      modifies this, buckets[BucketNum(h, |buckets|)]
      ensures Valid() && (ok <==> h in old(table)) && table == old(table) - {h}
    {
      Bucket(h);
      var b := BucketNum(h, |buckets|);
      ghost var lists, was := Lists(), table;
      ok := buckets[b].RemoveKey(h);
      table := table - {h};
      AgreesAfter(keys, lists, was, h, buckets[b].elems, table);
      assert Lists() == lists[b := buckets[b].elems];
    }

    /** RemoveAt of an iterator at element j of bucket b; the iterator steps back. */
    method RemoveAt(b: nat, j: int) returns (j': int)
      requires Valid() && b < |buckets| && 0 <= j < |buckets[b].elems|
      modifies this, buckets[b]
      ensures Valid() && buckets[b].elems == Remove(old(buckets[b].elems), j) && j' == j - 1
      ensures Lists() == old(Lists())[b := buckets[b].elems]
      ensures table == old(table) - {keys.key(old(buckets[b].elems[j]))}
    {
      assert BucketAgrees(keys, Lists()[b], b, |buckets|, table);
      StrictIsSorted(keys, buckets[b].elems);
      var h := keys.key(buckets[b].elems[j]);
      Bucket(h);
      RemoveOne(keys, buckets[b].elems, j);
      ghost var lists, was := Lists(), table;
      buckets[b].RemoveAt(j);
      table := table - {h};
      AgreesAfter(keys, lists, was, h, buckets[b].elems, table);
      assert Lists() == lists[b := buckets[b].elems];
      return j - 1;
    }

    /** FOREACH_HASH_TABLE with a body that removes some entries by RemoveAt. */
    method ForEach(remove: (seq<Ptr>, Ptr) -> bool) returns (visited: seq<Ptr>)
      requires Valid()
      modifies this, buckets
      ensures Valid() && visited == Concat(old(Lists())) && Lists() == KeptAll(old(Lists()), remove)
    {
      ghost var was := Lists();
      visited := [];
      var b := 0;
      while b < |buckets|
        invariant 0 <= b <= |buckets| && Valid()
        invariant visited == Concat(was[..b])
        invariant Lists() == KeptAll(was[..b], remove) + was[b..]
      {
        visited := ForBucket(b, remove, visited);
        KeptAllNext(was, b, remove);
        b := b + 1;
      }
      assert was[..|buckets|] == was;
    }

    /** The inner loop of the walk. */
    method ForBucket(b: nat, remove: (seq<Ptr>, Ptr) -> bool, before: seq<Ptr>) returns (visited: seq<Ptr>)
      requires Valid() && b < |buckets|
      modifies this, buckets[b]
      ensures Valid() && visited == before + old(Lists())[b]
      ensures Lists() == old(Lists())[b := Kept(old(Lists())[b], before, remove)]
    {
      ghost var lists, n := Lists(), 0;
      var j := 0;
      visited := before;
      WalkStarts(lists, b, before, remove);
      while j < |buckets[b].elems|
        invariant Walking(b, lists, n, before, remove, j, visited)
        decreases |lists[b]| - n
      {
        j, visited := Visit(b, j, remove, visited, lists, n, before);
        j := j + 1;
        n := n + 1;
      }
      WalkedAll(lists[b], n, before, remove, j, buckets[b].elems, visited);
    }

    /** The walk over bucket b of the table whose buckets were lists, after n visits. */
    ghost predicate Walking(b: nat, lists: seq<seq<Ptr>>, n: nat, before: seq<Ptr>, remove: (seq<Ptr>, Ptr) -> bool,
                            j: nat, visited: seq<Ptr>)
      reads this, buckets
    {
      && Valid() && b < |buckets| && |lists| == |buckets| && Lists() == lists[b := buckets[b].elems]
      && Walked(lists[b], n, before, remove, j, buckets[b].elems, visited)
    }

    /** One visit, which may remove the entry: the iterator then steps back. */
    method Visit(b: nat, j: nat, remove: (seq<Ptr>, Ptr) -> bool, seen: seq<Ptr>,
                 ghost lists: seq<seq<Ptr>>, ghost n: nat, ghost before: seq<Ptr>) returns (j': int, visited: seq<Ptr>)
      requires Walking(b, lists, n, before, remove, j, seen) && j < |buckets[b].elems|
      modifies this, buckets[b]
      ensures n < |lists[b]| && j' >= -1 && Walking(b, lists, n + 1, before, remove, j' + 1, visited)
    {
      var x := buckets[b].elems[j];
      KeptNext(lists[b], n, before, remove, j, buckets[b].elems, seen);
      visited := seen + [x];
      j' := j;
      if remove(seen, x) {
        UpdatedTwice(lists, b, buckets[b].elems, Remove(buckets[b].elems, j));
        j' := RemoveAt(b, j);
      }
    }
  }

  /** What holds after the first n entries of a bucket have been visited. */
  ghost predicate Walked(list: seq<Ptr>, n: nat, before: seq<Ptr>, remove: (seq<Ptr>, Ptr) -> bool,
                         j: nat, elems: seq<Ptr>, visited: seq<Ptr>) {
    && n <= |list| && visited == before + list[..n]
    && var kept := Kept(list[..n], before, remove); j == |kept| && elems == kept + list[n..]
  }

  lemma UpdatedTwice(lists: seq<seq<Ptr>>, b: nat, list: seq<Ptr>, list': seq<Ptr>)
    requires b < |lists|
    ensures lists[b := list][b := list'] == lists[b := list']
  {
  }

  /** What a bucket keeps is, in order, each entry for which the body said so when it was visited. */
  lemma {:induction false} KeptIsFiltered(list: seq<Ptr>, before: seq<Ptr>, remove: (seq<Ptr>, Ptr) -> bool, i: nat)
    requires i < |list| && SortedArray.NoRepeats(list)
    ensures list[i] in Kept(list, before, remove) <==> !remove(before + list[..i], list[i])
    ensures forall x <- Kept(list, before, remove) :: x in list
    decreases |list|
  {
    var n := |list| - 1;
    if i < n {
      KeptIsFiltered(list[..n], before, remove, i);
      assert list[..n][..i] == list[..i];
    } else if n > 0 {
      KeptIsFiltered(list[..n], before, remove, n - 1);
    }
  }

  /** What the walk leaves of all buckets. */
  function KeptAll(lists: seq<seq<Ptr>>, remove: (seq<Ptr>, Ptr) -> bool): (kept: seq<seq<Ptr>>)
    ensures |kept| == |lists|
  {
    if lists == [] then [] else
    var front := lists[..|lists| - 1];
    KeptAll(front, remove) + [Kept(lists[|lists| - 1], Concat(front), remove)]
  }

  lemma KeptNext(list: seq<Ptr>, n: nat, before: seq<Ptr>, remove: (seq<Ptr>, Ptr) -> bool,
                 j: nat, elems: seq<Ptr>, visited: seq<Ptr>)
    requires Walked(list, n, before, remove, j, elems, visited) && j < |elems|
    ensures n < |list|
    ensures if remove(visited, elems[j]) then Walked(list, n + 1, before, remove, j, Remove(elems, j), visited + [elems[j]])
            else Walked(list, n + 1, before, remove, j + 1, elems, visited + [elems[j]])
  {
    assert list[..n + 1][..n] == list[..n];
  }

  lemma WalkStarts(lists: seq<seq<Ptr>>, b: nat, before: seq<Ptr>, remove: (seq<Ptr>, Ptr) -> bool)
    requires b < |lists|
    ensures lists[b := lists[b]] == lists && Walked(lists[b], 0, before, remove, 0, lists[b], before)
  {
  }

  lemma WalkedAll(list: seq<Ptr>, n: nat, before: seq<Ptr>, remove: (seq<Ptr>, Ptr) -> bool,
                  j: nat, elems: seq<Ptr>, visited: seq<Ptr>)
    requires Walked(list, n, before, remove, j, elems, visited) && j >= |elems|
    ensures visited == before + list && elems == Kept(list, before, remove)
  {
    assert list[..n] == list;
  }

  lemma KeptAllNext(was: seq<seq<Ptr>>, b: nat, remove: (seq<Ptr>, Ptr) -> bool)
    requires b < |was|
    ensures var lists := KeptAll(was[..b], remove) + was[b..];
            && lists[b] == was[b]
            && lists[b := Kept(was[b], Concat(was[..b]), remove)] == KeptAll(was[..b + 1], remove) + was[b + 1..]
            && Concat(was[..b + 1]) == Concat(was[..b]) + was[b]
  {
    assert was[..b + 1][..b] == was[..b];
  }

  /** The walk meets every entry of the table once and nothing else: the entries it visits are the
      objects of the map, without repetition. */
  lemma WalkMeetsEach(keys: Keys, lists: seq<seq<Ptr>>, table: map<int, Ptr>)
    requires Agrees(keys, lists, table)
    ensures forall x :: x in Concat(lists) <==> keys.key(x) in table && table[keys.key(x)] == x
    ensures NoRepeats(Concat(lists))
  {
    forall x | x in Concat(lists) ensures keys.key(x) in table && table[keys.key(x)] == x {
      InConcat(lists, x);
      var b :| 0 <= b < |lists| && x in lists[b];
      assert BucketAgrees(keys, lists[b], b, |lists|, table);
    }
    forall x | keys.key(x) in table && table[keys.key(x)] == x ensures x in Concat(lists) {
      assert x in lists[BucketNum(keys.key(x), |lists|)];
      InConcat(lists, x);
    }
    ConcatApart(keys, lists, |lists|, table);
    assert lists[..|lists|] == lists;
  }

  lemma {:induction false} InConcat(lists: seq<seq<Ptr>>, x: Ptr)
    ensures x in Concat(lists) <==> exists b :: 0 <= b < |lists| && x in lists[b]
  {
    if lists != [] {
      InConcat(lists[..|lists| - 1], x);
    }
  }

  lemma JoinApart(front: seq<Ptr>, last: seq<Ptr>)
    requires NoRepeats(front) && NoRepeats(last) && forall x <- front :: x !in last
    ensures NoRepeats(front + last)
  {
    var s := front + last;
    forall i, j | 0 <= i < j < |s| ensures s[i] != s[j] {
      if i < |front| <= j {
        assert s[i] == front[i] && s[j] == last[j - |front|];
        assert s[i] in front && s[j] in last;
      } else if j < |front| {
        assert s[i] == front[i] && s[j] == front[j];
      } else {
        assert s[i] == last[i - |front|] && s[j] == last[j - |front|];
      }
    }
  }

  lemma {:induction false} ConcatApart(keys: Keys, lists: seq<seq<Ptr>>, n: nat, table: map<int, Ptr>)
    requires Agrees(keys, lists, table) && n <= |lists|
    ensures NoRepeats(Concat(lists[..n]))
  {
    if n > 0 {
      var front, last := Concat(lists[..n - 1]), lists[n - 1];
      ConcatApart(keys, lists, n - 1, table);
      assert lists[..n][..n - 1] == lists[..n - 1];
      assert Concat(lists[..n]) == front + last;
      assert BucketAgrees(keys, last, n - 1, |lists|, table);
      StrictApart(keys, last);
      forall x <- front ensures x !in last {
        FrontApart(keys, lists, n - 1, table, x);
      }
      JoinApart(front, last);
    }
  }

  /** An entry is in one bucket only. */
  lemma FrontApart(keys: Keys, lists: seq<seq<Ptr>>, n: nat, table: map<int, Ptr>, x: Ptr)
    requires Agrees(keys, lists, table) && n < |lists| && x in Concat(lists[..n])
    ensures x !in lists[n]
  {
    InConcat(lists[..n], x);
    var b :| 0 <= b < n && x in lists[b];
    assert BucketAgrees(keys, lists[b], b, |lists|, table) && BucketAgrees(keys, lists[n], n, |lists|, table);
  }

  // ----- cHashTableName

  /** GetBucketNum of a name: its first character, or the terminator of an empty name, masked. */
  function NameBucket(name: PrefixSearch.Str, bits: nat): nat {
    BucketNum(PrefixSearch.At(name, 0), Pow2(bits))
  }

  lemma {:induction false} Pow2Divides32(bits: nat)
    requires bits <= 5
    ensures Pow2(bits) in {1, 2, 4, 8, 16, 32}
  {
    assert Pow2(0) == 1 && Pow2(1) == 2 && Pow2(2) == 4;
    assert Pow2(3) == 8 && Pow2(4) == 16 && Pow2(5) == 32;
  }

  lemma {:induction false} Pow2AtLeast64(bits: nat)
    requires bits >= 6
    ensures Pow2(bits) >= 64
  {
    if bits == 6 {
      Pow2Divides32(5);
    } else {
      Pow2AtLeast64(bits - 1);
    }
  }

  /** Names that are equal without regard to case always share a bucket exactly when there are at most
      5 hash bits: the sixth tells upper from lower case. */
  lemma NamesShareBuckets(bits: nat)
    ensures bits <= 5 <==>
      forall a, b :: PrefixSearch.Proper(a) && PrefixSearch.Proper(b) && PrefixSearch.CmpI(a, b) == 0 ==>
        NameBucket(a, bits) == NameBucket(b, bits)
  {
    if bits <= 5 {
      forall a, b | PrefixSearch.Proper(a) && PrefixSearch.Proper(b) && PrefixSearch.CmpI(a, b) == 0
        ensures NameBucket(a, bits) == NameBucket(b, bits)
      {
        FoldKeepsBucket(PrefixSearch.At(a, 0), PrefixSearch.At(b, 0), bits);
      }
    } else {
      SixBitsTellCase(bits);
    }
  }

  lemma SixBitsTellCase(bits: nat)
    requires bits >= 6
    ensures PrefixSearch.Proper([65]) && PrefixSearch.Proper([97]) && PrefixSearch.CmpI([65], [97]) == 0
    ensures NameBucket([65], bits) != NameBucket([97], bits)
  {
    Pow2AtLeast64(bits);
    assert PrefixSearch.CmpFrom([65], [97], 1, 2) == 0;
    UpperLowerApart(Pow2(bits));
  }

  lemma FoldKeepsBucket(a: int, b: int, bits: nat)
    requires bits <= 5 && PrefixSearch.Fold(a) == PrefixSearch.Fold(b)
    ensures a % Pow2(bits) == b % Pow2(bits)
  {
    if a + 32 == b {
      UpperLowerTogether(a, bits);
    } else if b + 32 == a {
      UpperLowerTogether(b, bits);
    }
  }

  lemma {:induction false} UpperLowerTogether(a: int, bits: nat)
    requires bits <= 5
    ensures (a + 32) % Pow2(bits) == a % Pow2(bits)
  {
    Pow2Divides32(bits);
    var n := Pow2(bits);
    var q, m := a / n, a % n;
    var k := 32 / n;
    assert k * n == 32;
    assert (q + k) * n == q * n + k * n;
    Arith.DivModUnique(a + 32, q + k, m, n);
  }

  lemma UpperLowerApart(n: nat)
    requires n >= 64
    ensures 65 % n != 97 % n
  {
    Arith.ModDistance(65, 97, n);
  }
}
