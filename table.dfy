/** libtable: a fixed-size table of slots whose free slots form a singly
    linked free list threaded through the slots themselves. Each slot holds a
    next-free index and a data pointer; NULL data is None. */
module SlotTable {
  import opened Wrappers

  /** Indices are C ints: a table has at most 2^31 slots. */
  const INT_LIMIT: int := 0x8000_0000

  datatype Entry<D> = Entry(nextFreeIndex: int, data: Option<D>)

  /** 0, 1, ..., n - 1 */
  function Ascending(n: nat): (r: seq<int>)
    ensures |r| == n && forall i :: 0 <= i < n ==> r[i] == i
  {
    seq(n, i => i)
  }

  /** n - 1, ..., 1, 0 */
  function Descending(n: nat): (r: seq<int>)
    ensures |r| == n && forall i :: 0 <= i < n ==> r[i] == n - 1 - i
  {
    seq(n, i => n - 1 - i)
  }

  predicate Distinct(s: seq<int>) {
    forall j, k :: 0 <= j < k < |s| ==> s[j] != s[k]
  }

  /** A sequence of distinct indices below n has at most n elements. */
  lemma {:induction false} DistinctBelowBounded(s: seq<int>, n: nat)
    requires Distinct(s)
    requires forall k :: 0 <= k < |s| ==> 0 <= s[k] < n
    ensures |s| <= n
    decreases n
  {
    if n > 0 {
      // drop the element n - 1 (if present) and recurse on the rest
      var rest := seq(|s|, k requires 0 <= k < |s| => s[k]);
      if exists k :: 0 <= k < |s| && s[k] == n - 1 {
        var k :| 0 <= k < |s| && s[k] == n - 1;
        var t := s[..k] + s[k + 1..];
        assert forall j :: 0 <= j < |t| ==> t[j] == if j < k then s[j] else s[j + 1];
        forall j | 0 <= j < |t| ensures 0 <= t[j] < n - 1 {
          if j < k {
            assert s[j] != s[k];
          } else {
            assert s[j + 1] != s[k];
          }
        }
        forall i, j | 0 <= i < j < |t| ensures t[i] != t[j] {
          if j < k {
          } else if i < k {
            assert s[i] != s[j + 1];
          } else {
            assert s[i + 1] != s[j + 1];
          }
        }
        DistinctBelowBounded(t, n - 1);
      } else {
        assert rest == s;
        DistinctBelowBounded(s, n - 1);
      }
    }
  }

  /** list is a chain of distinct slots of e starting at head (-1 for the
      empty chain), each slot's nextFreeIndex naming the next one and the
      last slot's naming -1. */
  ghost predicate FreeChain<D>(list: seq<int>, e: seq<Entry<D>>, head: int) {
    && Distinct(list)
    && head == (if list == [] then -1 else list[0])
    && (forall k :: 0 <= k < |list| ==> 0 <= list[k] < |e|)
    && forall k {:trigger e[list[k]]} :: 0 <= k < |list| ==>
         e[list[k]].nextFreeIndex == (if k + 1 < |list| then list[k + 1] else -1)
  }

  /** Popping the head of a chain leaves a chain starting at the head's link. */
  lemma PopChain<D>(list: seq<int>, e: seq<Entry<D>>, head: int)
    requires FreeChain(list, e, head) && list != []
    ensures FreeChain(list[1..], e, e[head].nextFreeIndex)
  {
    assert e[list[0]].nextFreeIndex == if 1 < |list| then list[1] else -1;
    forall k | 0 <= k < |list| - 1
      ensures 0 <= list[1..][k] < |e|
      ensures e[list[1..][k]].nextFreeIndex == if k + 1 < |list| - 1 then list[1..][k + 1] else -1
    {
      assert list[1..][k] == list[k + 1];
      assert e[list[k + 1]].nextFreeIndex == if k + 2 < |list| then list[k + 2] else -1;
    }
  }

  /** Pushing a slot that is not on the chain, its link set to the old head,
      gives a chain one longer. */
  lemma PushChain<D>(list: seq<int>, e: seq<Entry<D>>, head: int, i: int)
    requires FreeChain(list, e, head) && 0 <= i < |e| && i !in list
    ensures FreeChain([i] + list, e[i := e[i].(nextFreeIndex := head)], i)
  {
    var l := [i] + list;
    var e2 := e[i := e[i].(nextFreeIndex := head)];
    forall k | 0 <= k < |l|
      ensures 0 <= l[k] < |e2|
      ensures e2[l[k]].nextFreeIndex == if k + 1 < |l| then l[k + 1] else -1
    {
      if k > 0 {
        assert l[k] == list[k - 1] && l[k] != i;
        assert e[list[k - 1]].nextFreeIndex == if k < |list| then list[k] else -1;
        assert k + 1 < |l| ==> l[k + 1] == list[k];
      } else {
        assert 1 < |l| ==> l[1] == list[0];
      }
    }
    forall j, k | 0 <= j < k < |l| ensures l[j] != l[k] {
      if j > 0 {
        assert l[j] == list[j - 1] && l[k] == list[k - 1];
      } else {
        assert l[k] == list[k - 1];
      }
    }
  }

  /** Only the links matter: a chain survives any change to the data. */
  lemma ChainIgnoresData<D>(list: seq<int>, e: seq<Entry<D>>, e2: seq<Entry<D>>, head: int)
    requires FreeChain(list, e, head) && |e2| == |e|
    requires forall j :: 0 <= j < |e| ==> e2[j].nextFreeIndex == e[j].nextFreeIndex
    ensures FreeChain(list, e2, head)
  {
    forall k | 0 <= k < |list|
      ensures e2[list[k]].nextFreeIndex == if k + 1 < |list| then list[k + 1] else -1
    {
    }
  }

  /** struct table: size slots, and the head of the free list (-1 when empty).
      freeList is the chain of free slots, head first. */
  class Table<D> {
    const size: nat
    const entries: array<Entry<D>>
    var firstFreeIndex: int
    ghost var freeList: seq<int>

    /** Every index the structure holds points inside the array or is -1:
        what table_allocate_index needs to stay in bounds. */
    predicate Linked()
      reads this, entries
    {
      && entries.Length == size
      && (firstFreeIndex == -1 || 0 <= firstFreeIndex < size)
      && forall i :: 0 <= i < size ==>
           entries[i].nextFreeIndex == -1 || 0 <= entries[i].nextFreeIndex < size
    }

    /** The free list is a chain of distinct slots starting at firstFreeIndex,
        each slot's nextFreeIndex naming the next one and the last naming -1. */
    ghost predicate Valid()
      reads this, entries
    {
      Linked() && FreeChain(freeList, entries[..], firstFreeIndex)
    }

    /** The data of slot index (table_get_data). */
    function GetData(index: int): Option<D>
      requires Linked() && 0 <= index < size
      reads this, entries
    {
      entries[index].data
    }

    /** table_new: every slot free, chained in ascending order, no data. */
    constructor (size: nat)
      requires 1 <= size <= INT_LIMIT
      ensures this.size == size && fresh(entries)
      ensures Valid() && freeList == Ascending(size)
      ensures firstFreeIndex == 0
      ensures forall i :: 0 <= i < size ==> entries[i].nextFreeIndex == if i + 1 < size then i + 1 else -1
      ensures forall i :: 0 <= i < size ==> GetData(i) == None
    {
      this.size := size;
      var a := new Entry<D>[size](_ => Entry(0, None));
      entries := a;
      firstFreeIndex := 0;
      freeList := Ascending(size);
      new;
      var i := 0;
      while i < size
        invariant 0 <= i <= size
        invariant forall j :: 0 <= j < i ==> a[j] == Entry(j + 1, None)
        invariant forall j :: i <= j < size ==> a[j] == Entry(0, None)
        modifies a
      {
        a[i] := Entry(i + 1, None);
        i := i + 1;
      }
      a[size - 1] := a[size - 1].(nextFreeIndex := -1);
    }

    /** table_allocate_index: pop the head of the free list, or -1 when the
        table is full. */
    method AllocateIndex() returns (index: int)
      requires Linked()
      modifies this
      ensures Linked()
      ensures old(firstFreeIndex) == -1 ==> index == -1 && firstFreeIndex == -1 && freeList == old(freeList)
      ensures old(firstFreeIndex) != -1 && old(freeList) != [] ==> freeList == old(freeList)[1..]
      ensures old(firstFreeIndex) != -1 ==>
        index == old(firstFreeIndex) && firstFreeIndex == entries[index].nextFreeIndex
      ensures old(Valid()) ==> Valid()
      ensures old(Valid()) && old(freeList) == [] ==> index == -1 && freeList == []
      ensures old(Valid()) && old(freeList) != [] ==>
        index == old(freeList)[0] && freeList == old(freeList)[1..] && index !in freeList
    {
      if firstFreeIndex == -1 {
        return -1;
      }
      if Valid() {
        PopChain(freeList, entries[..], firstFreeIndex);
      }
      index := firstFreeIndex;
      firstFreeIndex := entries[index].nextFreeIndex;
      if freeList != [] {
        freeList := freeList[1..];
      }
    }

    /** table_free_index: push index onto the free list. Freeing a slot that
        is already free is not guarded against; the chain then stops being
        a list of distinct slots. */
    method FreeIndex(index: int)
      requires Linked() && 0 <= index < size
      modifies this, entries
      ensures Linked()
      ensures firstFreeIndex == index
      ensures entries[index] == old(entries[index]).(nextFreeIndex := old(firstFreeIndex))
      ensures forall j :: 0 <= j < size && j != index ==> entries[j] == old(entries[j])
      ensures freeList == [index] + old(freeList)
      ensures old(Valid()) && index !in old(freeList) ==> Valid()
    {
      if Valid() && index !in freeList {
        PushChain(freeList, entries[..], firstFreeIndex, index);
      }
      entries[index] := entries[index].(nextFreeIndex := firstFreeIndex);
      firstFreeIndex := index;
      freeList := [index] + freeList;
    }

    /** table_set_data: only the data of slot index changes; no free-list
        link and no other slot is touched. */
    method SetData(index: int, data: Option<D>)
      requires Linked() && 0 <= index < size
      modifies entries
      ensures Linked()
      ensures GetData(index) == data
      ensures entries[index] == old(entries[index]).(data := data)
      ensures forall j :: 0 <= j < size && j != index ==> entries[j] == old(entries[j])
      ensures old(Valid()) ==> Valid()
    {
      ghost var wasValid := Valid();
      ghost var before := entries[..];
      entries[index] := entries[index].(data := data);
      if wasValid {
        ChainIgnoresData(freeList, before, entries[..], firstFreeIndex);
      }
    }
  }

  /** However a valid table got to its state, no more slots are free than it has. */
  lemma FreeListBounded<D>(t: Table<D>)
    requires t.Valid()
    ensures |t.freeList| <= t.size
  {
    DistinctBelowBounded(t.freeList, t.size);
  }

  /** Freeing a slot and allocating straight away gives that slot back and
      puts the free list back as it was; only the slot's own link changes. */
  method ReuseFreed<D>(t: Table<D>, index: int) returns (again: int)
    requires t.Linked() && 0 <= index < t.size
    modifies t, t.entries
    ensures again == index
    ensures t.firstFreeIndex == old(t.firstFreeIndex) && t.freeList == old(t.freeList)
    ensures t.entries[index] == old(t.entries[index]).(nextFreeIndex := old(t.firstFreeIndex))
    ensures forall j :: 0 <= j < t.size && j != index ==> t.entries[j] == old(t.entries[j])
    ensures old(t.Valid()) && index !in old(t.freeList) ==> t.Valid()
  {
    t.FreeIndex(index);
    again := t.AllocateIndex();
  }

  /** k allocations in a row hand out the first k slots of the free list,
      head first, and leave the rest of the list. */
  method AllocateTimes<D>(t: Table<D>, k: nat) returns (got: seq<int>)
    requires t.Valid() && k <= |t.freeList|
    modifies t
    ensures t.Valid()
    ensures got == old(t.freeList)[..k] && t.freeList == old(t.freeList)[k..]
  {
    ghost var list := t.freeList;
    got := [];
    var i := 0;
    while i < k
      invariant 0 <= i <= k
      invariant t.Valid()
      invariant got == list[..i] && t.freeList == list[i..]
    {
      var index := t.AllocateIndex();
      assert index == list[i] && t.freeList == list[i + 1..];
      got := got + [index];
      assert got == list[..i + 1];
      i := i + 1;
    }
  }

  /** Freeing 0, 1, ..., n - 1 in that order on a full table leaves the free
      list n - 1, ..., 1, 0. */
  method FreeAscending<D>(t: Table<D>, n: nat)
    requires t.Valid() && t.freeList == [] && n <= t.size
    modifies t, t.entries
    ensures t.Valid() && t.freeList == Descending(n)
  {
    var i := 0;
    while i < n
      invariant 0 <= i <= n
      invariant t.Valid() && t.freeList == Descending(i)
    {
      t.FreeIndex(i);
      assert [i] + Descending(i) == Descending(i + 1);
      i := i + 1;
    }
  }

  /** A new table of n slots hands out 0, 1, ..., n - 1 in that order and
      then reports that it is full. */
  method FreshAllocationOrder(n: nat) returns (got: seq<int>)
    requires 1 <= n <= INT_LIMIT
    ensures got == Ascending(n) + [-1]
  {
    var t := new Table<bool>(n);
    got := AllocateTimes(t, n);
    assert got == Ascending(n);
    var last := t.AllocateIndex();
    got := got + [last];
  }

  /** The sequence libtable's test program drives, for any size n: n
      allocations give 0 .. n - 1; freeing 0 .. n - 1 in ascending order and
      allocating n times more gives them back in descending order. */
  method AllocateFreeReallocate(n: nat) returns (first: seq<int>, second: seq<int>)
    requires 1 <= n <= INT_LIMIT
    ensures first == Ascending(n)
    ensures second == Descending(n)
  {
    var t := new Table<bool>(n);
    first := AllocateTimes(t, n);
    assert first == Ascending(n);
    FreeAscending(t, n);
    second := AllocateTimes(t, n);
    assert second == Descending(n);
  }
}
