/** The lwp memory heap on its pointer fields: every operation does the pointer writes of the
    source and is proved to be the corresponding function on the block sequence. */
module Memheap {
  import opened Basics
  import opened Rings
  import opened MemheapModel
  import opened MemheapProofs
  import opened MemheapResults

  const NULL: int := 0

  /** The address of the list header inside the heap object, outside every pool. */
  const FREE_HEADER: int := -1

  // ---------------------------------------------------------------- payload memory

  /** The bytes callers wrote in lo..hi are still there. */
  ghost predicate Keeps(before: map<int, Byte>, after: map<int, Byte>, lo: int, hi: int) {
    forall x :: lo <= x < hi && x in before ==> x in after && after[x] == before[x]
  }

  /** The payloads of all live blocks but `except` are as before. */
  ghost predicate KeepsLive(bs: seq<Block>, before: map<int, Byte>, after: map<int, Byte>, except: int) {
    forall a :: Live(bs, a) && a != except ==> Keeps(before, after, a + HEADER, a + HEADER + SizeAt(bs, a))
  }

  /** Writing a header destroys what its bytes held. */
  function Clobbered(mem: map<int, Byte>, a: int): map<int, Byte> {
    map x | x in mem && !(a <= x < a + HEADER) :: mem[x]
  }

  /** The n bytes at `from` were copied to `to`. */
  ghost predicate Moved(before: map<int, Byte>, after: map<int, Byte>, from: int, to: int, n: int) {
    forall x :: from <= x < from + n && x in before ==> x - from + to in after && after[x - from + to] == before[x]
  }

  // ---------------------------------------------------------------- headers

  function Headers(bs: seq<Block>): (s: seq<int>)
    ensures |s| == |bs|
    ensures forall i :: 0 <= i < |bs| ==> s[i] == bs[i].addr
  {
    seq(|bs|, i requires 0 <= i < |bs| => bs[i].addr)
  }

  ghost predicate Flags(bs: seq<Block>, used: map<int, bool>) {
    forall i :: 0 <= i < |bs| ==> bs[i].addr in used && used[bs[i].addr] == bs[i].used
  }

  /** The free ring: the list header, then the free blocks. */
  function FreeNodes(f: seq<int>): seq<int> {
    [FREE_HEADER] + f
  }

  lemma WithoutAt(s: seq<int>, j: int)
    requires Distinct(s) && 0 <= j < |s|
    ensures Without(s, s[j]) == s[..j] + s[j + 1..]
  {
    hide Distinct;
    if j == 0 {
      assert s[..0] + s[1..] == s[1..];
    } else {
      SameNode(s, 0, j);
      DistinctTail(s);
      WithoutAt(s[1..], j - 1);
      WithoutShift(s, j);
    }
  }

  lemma WithoutShift(s: seq<int>, j: int)
    requires 0 < j < |s|
    ensures s[1..][j - 1] == s[j] && [s[0]] + (s[1..][..j - 1] + s[1..][j..]) == s[..j] + s[j + 1..]
  {
    assert s[1..][..j - 1] == s[1..j];
    assert s[1..][j..] == s[j + 1..];
  }

  lemma HeadersSplice(bs: seq<Block>, lo: int, hi: int, mid: seq<Block>)
    requires 0 <= lo <= hi <= |bs|
    ensures Headers(Splice(bs, lo, hi, mid)) == Headers(bs)[..lo] + Headers(mid) + Headers(bs)[hi..]
  {
    SpliceAt(bs, lo, hi, mid);
  }

  class Memheap {
    var start: int
    var poolSize: int
    var available: int
    var maxUsed: int
    var next: map<int, int>      // block ring
    var prev: map<int, int>
    var nextFree: map<int, int>  // free ring
    var prevFree: map<int, int>
    var used: map<int, bool>     // RT_MEMHEAP_USED in the magic word
    var mem: map<int, Byte>      // payload bytes written by callers

    /** What the pointer structure stands for. */
    ghost var heap: Heap

    ghost predicate Valid()
      reads this`heap, this`start, this`poolSize, this`available, this`maxUsed
      reads this`next, this`prev, this`nextFree, this`prevFree, this`used
    {
      Inv(heap) && start == heap.start && poolSize == heap.pool && available == heap.available && maxUsed == heap.maxUsed &&
      IsRing(Headers(heap.blocks), next, prev) &&
      IsRing(FreeNodes(heap.free), nextFree, prevFree) &&
      Flags(heap.blocks, used)
    }

    // -------------------------------------------------------------- pointer writes

    /** Build a free header at n: its magic word is set and the bytes under it are lost. */
    method Build(n: int)
      modifies this`used, this`mem
      ensures used == old(used)[n := false] && mem == Clobbered(old(mem), n)
    {
      used := used[n := false];
      mem := Clobbered(mem, n);
    }

    /** Put n after h in the block ring. */
    method LinkBlock(h: int, n: int, ghost s: seq<int>, ghost i: int)
      requires IsRing(s, next, prev) && 0 <= i < |s| && s[i] == h && n !in s
      modifies this`next, this`prev
      ensures IsRing(Inserted(s, i, n), next, prev)
    {
      assert Linked(s, next, prev, i);
      InsertAfter(s, next, prev, i, n);
      prev := prev[n := h];
      next := next[n := next[h]];
      prev := prev[next[h] := n];
      next := next[h := n];
    }

    /** Take x out of the block ring. */
    method UnlinkBlock(x: int, ghost s: seq<int>, ghost i: int)
      requires IsRing(s, next, prev) && 0 < i < |s| && s[i] == x
      modifies this`next, this`prev
      ensures IsRing(Dropped(s, i), next, prev)
      ensures x in prev && prev[x] == s[i - 1]
    {
      assert Linked(s, next, prev, i);
      Remove(s, next, prev, i);
      SameNode(s, i, Successor(|s|, i));
      next := next[prev[x] := next[x]];
      prev := prev[next[x] := prev[x]];
    }

    /** Put n at the front of the free list. */
    method PushFree(n: int, ghost f: seq<int>)
      requires IsRing(FreeNodes(f), nextFree, prevFree) && n !in f && n != FREE_HEADER
      modifies this`nextFree, this`prevFree
      ensures IsRing(FreeNodes([n] + f), nextFree, prevFree)
    {
      ghost var s := FreeNodes(f);
      assert Linked(s, nextFree, prevFree, 0);
      InsertAfter(s, nextFree, prevFree, 0, n);
      assert Inserted(s, 0, n) == FreeNodes([n] + f);
      nextFree := nextFree[n := nextFree[FREE_HEADER]];
      prevFree := prevFree[n := FREE_HEADER];
      prevFree := prevFree[nextFree[FREE_HEADER] := n];
      nextFree := nextFree[FREE_HEADER := n];
    }

    /** Take x off the free list. */
    method UnlinkFree(x: int, ghost f: seq<int>)
      requires IsRing(FreeNodes(f), nextFree, prevFree) && x in f
      modifies this`nextFree, this`prevFree
      ensures IsRing(FreeNodes(Without(f, x)), nextFree, prevFree)
      ensures x !in Without(f, x) && x != FREE_HEADER
    {
      ghost var s := FreeNodes(f);
      ghost var j :| 0 <= j < |f| && f[j] == x;
      assert s[j + 1] == x;
      assert Linked(s, nextFree, prevFree, j + 1);
      Remove(s, nextFree, prevFree, j + 1);
      SameNode(s, 0, j + 1);
      RemovedFree(f, j);
      prevFree := prevFree[nextFree[x] := prevFree[x]];
      nextFree := nextFree[prevFree[x] := nextFree[x]];
    }

    /** The links of a block that left the free list are nulled. */
    method ClearFreeLinks(x: int, ghost f: seq<int>)
      requires IsRing(FreeNodes(f), nextFree, prevFree) && x !in f && x != FREE_HEADER
      modifies this`nextFree, this`prevFree
      ensures IsRing(FreeNodes(f), nextFree, prevFree)
    {
      Unaffected(FreeNodes(f), nextFree, prevFree, nextFree[x := NULL], prevFree[x := NULL]);
      nextFree := nextFree[x := NULL];
      prevFree := prevFree[x := NULL];
    }

    /** On the free list the rest of a split block takes the place of the block itself. */
    method ReplaceFree(x: int, n: int, ghost f: seq<int>)
      requires IsRing(FreeNodes(f), nextFree, prevFree) && x in f && n !in Without(f, x) && n != FREE_HEADER
      modifies this`nextFree, this`prevFree
      ensures IsRing(FreeNodes([n] + Without(f, x)), nextFree, prevFree)
    {
      hide IsRing, FreeNodes, Without;
      UnlinkFree(x, f);
      ClearFreeLinks(x, Without(f, x));
      PushFree(n, Without(f, x));
    }

    /** MEMITEM_SIZE. */
    method ItemSize(p: int, ghost i: int) returns (size: int)
      requires Inv(heap) && IsRing(Headers(heap.blocks), next, prev)
      requires 0 <= i < |heap.blocks| - 1 && heap.blocks[i].addr == p
      ensures size == heap.blocks[i].size
    {
      assert Linked(Headers(heap.blocks), next, prev, i);
      TakeFacts(heap, i);
      size := next[p] - p - HEADER;
    }

    // -------------------------------------------------------------- operations

    /** rt_lwp_memheap_init. */
    constructor (start: int, size: int, mem: map<int, Byte>)
      requires 0 < start && 2 * HEADER <= size / 4 * 4 && start + size <= ADDRESS_SPACE
      ensures Valid() && heap == Init(start, size) && this.mem == mem
    {
      InitInv(start, size);
      var pool := size / 4 * 4;
      this.start := start;
      poolSize := pool;
      available := pool - 2 * HEADER;
      maxUsed := 2 * HEADER;
      var tail := start + pool - HEADER;
      nextFree := map[FREE_HEADER := start, start := FREE_HEADER, tail := NULL];
      prevFree := map[FREE_HEADER := start, start := FREE_HEADER, tail := NULL];
      next := map[start := tail, tail := start];
      prev := map[start := tail, tail := start];
      used := map[start := false, tail := true];
      this.mem := mem;
      heap := Init(start, size);
      new;
      assert Linked(Headers(heap.blocks), next, prev, 0) && Linked(Headers(heap.blocks), next, prev, 1);
      assert Linked(FreeNodes(heap.free), nextFree, prevFree, 0);
      assert Linked(FreeNodes(heap.free), nextFree, prevFree, 1);
    }

    /** The first-fit search along the free list. */
    method FindFree(size: int) returns (headerPtr: int, freeSize: int)
      requires Valid() && size > 0
      ensures FirstFit(heap.blocks, heap.free, size).Some? <==> freeSize >= size
      ensures freeSize >= size ==>
                FirstFit(heap.blocks, heap.free, size) == Some(headerPtr) && freeSize == SizeAt(heap.blocks, headerPtr)
    {
      hide Inv, Distinct, Flags, Headers;
      ghost var s := FreeNodes(heap.free);
      ghost var j := 0;
      assert Linked(s, nextFree, prevFree, 0);
      freeSize := 0;
      headerPtr := nextFree[FREE_HEADER];
      assert heap.free[0..] == heap.free;
      while headerPtr != FREE_HEADER && freeSize < size
        invariant 0 <= j <= |heap.free|
        invariant headerPtr == if j < |heap.free| then heap.free[j] else FREE_HEADER
        invariant FirstFit(heap.blocks, heap.free, size) == FirstFit(heap.blocks, heap.free[j..], size)
        invariant freeSize >= size ==> j < |heap.free| && freeSize == SizeAt(heap.blocks, headerPtr)
        decreases |heap.free| - j, size - freeSize
      {
        assert Linked(s, nextFree, prevFree, j + 1);
        assert heap.free[j] in Elements(heap.free);
        FreeListed(heap, headerPtr);
        freeSize := ItemSize(headerPtr, Index(heap.blocks, headerPtr));
        assert heap.free[j..][1..] == heap.free[j + 1..];
        if freeSize < size {
          headerPtr := nextFree[headerPtr];
          j := j + 1;
        }
      }
      if j < |heap.free| {
        SameNode(s, 0, j + 1);
      }
    }

    /** rt_lwp_memheap_alloc: hands out the payload address of the block the model hands out, or
        null, and leaves every live payload as it was. */
    method Alloc(request: int) returns (ptr: int)
      requires Valid() && 0 <= request < ADDRESS_SPACE
      modifies this
      ensures Valid()
      ensures var (h, r) := MemheapModel.Alloc(old(heap), request);
              heap == h && ptr == if r.Some? then r.value + HEADER else NULL
      ensures KeepsLive(old(heap.blocks), old(mem), mem, NULL)
      ensures ptr == NULL <==> MemheapModel.Alloc(old(heap), request).1.None?
      ensures ptr == NULL ==> mem == old(mem)
    {
      hide FreeNodes, Inv, IsRing, Flags, Live, KeepsLive, Index, FirstFit;
      ptr := NULL;
      KeepsSame(heap.blocks, mem, NULL);
      var size := Aligned(request);
      if size < available {
        var headerPtr, freeSize := FindFree(size);
        if freeSize >= size {
          FitFacts(heap, size);
          ghost var i := Index(heap.blocks, headerPtr);
          if freeSize >= size + HEADER + MIN_ALLOC {
            TakeSplit(headerPtr, size, i);
          } else {
            TakeWhole(headerPtr, size, freeSize, i);
          }
          ptr := headerPtr + HEADER;
        }
      }
    }

    /** Splitting the free block found. */
    method TakeSplit(headerPtr: int, size: int, ghost i: int)
      requires Valid() && 0 <= i < |heap.blocks| - 1 && !heap.blocks[i].used && heap.blocks[i].addr == headerPtr
      requires MIN_ALLOC <= size && size % 4 == 0 && heap.blocks[i].size >= size + HEADER + MIN_ALLOC
      modifies this
      ensures Valid() && heap == Take(old(heap), i, size)
      ensures KeepsLive(old(heap.blocks), old(mem), mem, NULL)
    {
      hide FreeNodes, Inv, IsRing, Flags, Live, KeepsLive, Without, Splice, Headers, Inserted, Clobbered;
      ghost var h := heap;
      var newPtr := headerPtr + size + HEADER;
      TakeInv(h, i, size);
      SplitStructure(h, i, size, used);
      NewHeader(h, i, newPtr);
      Build(newPtr);
      LinkBlock(headerPtr, newPtr, Headers(h.blocks), i);
      ReplaceFree(headerPtr, newPtr, h.free);
      available := available - size - HEADER;
      if poolSize - available > maxUsed {
        maxUsed := poolSize - available;
      }
      used := used[headerPtr := true];
      heap := Take(h, i, size);
    }

    /** Handing out the free block as it is. */
    method TakeWhole(headerPtr: int, size: int, freeSize: int, ghost i: int)
      requires Valid() && 0 <= i < |heap.blocks| - 1 && !heap.blocks[i].used && heap.blocks[i].addr == headerPtr
      requires freeSize == heap.blocks[i].size && MIN_ALLOC <= size && size % 4 == 0
      requires size <= freeSize < size + HEADER + MIN_ALLOC
      modifies this
      ensures Valid() && heap == Take(old(heap), i, size) && mem == old(mem)
      ensures KeepsLive(old(heap.blocks), old(mem), mem, NULL)
    {
      hide FreeNodes, Inv, IsRing, Flags, Live, KeepsLive, Without, Splice, Headers, Inserted, Clobbered;
      ghost var h := heap;
      TakeInv(h, i, size);
      WholeStructure(h, i, size, used);
      KeepsSame(h.blocks, mem, NULL);
      available := available - freeSize;
      if poolSize - available > maxUsed {
        maxUsed := poolSize - available;
      }
      UnlinkFree(headerPtr, h.free);
      ClearFreeLinks(headerPtr, Without(h.free, headerPtr));
      used := used[headerPtr := true];
      heap := Take(h, i, size);
    }

    /** rt_lwp_memheap_free: the block is returned and merged with its free neighbours. */
    method Free(ptr: int)
      requires Valid() && (ptr == NULL || Live(heap.blocks, ptr - HEADER))
      modifies this
      ensures Valid() && mem == old(mem)
      ensures heap == if ptr == NULL then old(heap) else MemheapModel.Free(old(heap), ptr - HEADER)
    {
      hide Inv, IsRing, Flags, FreeAt, Live, Index, MemheapModel.Free;
      if ptr != NULL {
        LiveIndex(heap, ptr - HEADER);
        FreeBlock(ptr - HEADER, Index(heap.blocks, ptr - HEADER));
      }
    }

    method FreeBlock(headerPtr: int, ghost i: int)
      requires Valid() && 0 <= i < |heap.blocks| - 1 && heap.blocks[i].used && heap.blocks[i].addr == headerPtr
      modifies this
      ensures Valid() && mem == old(mem) && heap == FreeAt(old(heap), i)
    {
      hide FreeNodes, Inv, IsRing, Flags, Without, Headers, FreeAt, FreeBefore, FreeAfter, FreedNodes;
      ghost var h := heap;
      ghost var s := Headers(h.blocks);
      FreeAtInv(h, i);
      FreeReads(h, i, next, prev, used);
      FreeFlags(h, i, used);
      FreeHeaders(h, i);
      FreeCounter(h, i);
      used := used[headerPtr := false];
      var size := ItemSize(headerPtr, i);
      available := available + size;
      Merge(headerPtr, s, i, h.free, FreeBefore(h.blocks, i), FreeAfter(h.blocks, i));
      heap := FreeAt(h, i);
    }

    /** Merging with both neighbours, and onto the free list unless the predecessor already is. */
    method Merge(header: int, ghost s: seq<int>, ghost i: int, ghost f: seq<int>, ghost before: bool, ghost after: bool)
      requires IsRing(s, next, prev) && 0 <= i < |s| - 1 && s[i] == header
      requires IsRing(FreeNodes(f), nextFree, prevFree) && header !in f && header != FREE_HEADER
      requires header in prev && prev[header] in used && used[prev[header]] == !before && (before ==> i > 0)
      requires s[i + 1] in used && used[s[i + 1]] == !after
      requires after ==> s[i + 1] in f && header !in Without(f, s[i + 1])
      modifies this`next, this`prev, this`nextFree, this`prevFree, this`available
      ensures available == old(available) + (if before then HEADER else 0) + if after then HEADER else 0
      ensures IsRing(FreedNodes(s, i, before, after), next, prev)
      ensures IsRing(FreeNodes((if before then [] else [header]) + if after then Without(f, s[i + 1]) else f), nextFree, prevFree)
    {
      hide FreeNodes, IsRing, Without, Dropped;
      var headerPtr, insertHeader := MergeBefore(header, s, i, before);
      ghost var lo := if before then i - 1 else i;
      ghost var s1 := if before then Dropped(s, i) else s;
      assert s1[lo] == headerPtr && s1[lo + 1] == s[i + 1] by {
        if before {
          DroppedAt(s, i, lo);
          DroppedAt(s, i, i);
        }
      }
      MergeAfter(headerPtr, s1, lo, f, after);
      ghost var f1 := if after then Without(f, s[i + 1]) else f;
      assert [] + f1 == f1;
      if insertHeader {
        PushFree(headerPtr, f1);
      }
    }

    /** Merging a freed block into a free predecessor: the block leaves the ring and the
        predecessor, already on the free list, takes its place. */
    method MergeBefore(headerPtr: int, ghost s: seq<int>, ghost i: int, ghost merges: bool)
        returns (p: int, insertHeader: bool)
      requires IsRing(s, next, prev) && 0 <= i < |s| - 1 && s[i] == headerPtr
      requires headerPtr in prev && prev[headerPtr] in used && used[prev[headerPtr]] == !merges && (merges ==> i > 0)
      modifies this`next, this`prev, this`available
      ensures insertHeader == !merges && available == old(available) + if merges then HEADER else 0
      ensures IsRing(if merges then Dropped(s, i) else s, next, prev)
      ensures p == if merges then s[i - 1] else headerPtr
    {
      hide IsRing;
      p, insertHeader := headerPtr, true;
      if !used[prev[headerPtr]] {
        available := available + HEADER;
        UnlinkBlock(headerPtr, s, i);
        p := prev[headerPtr];
        insertHeader := false;
      }
    }

    /** Merging a free successor into p: it leaves the ring and the free list. */
    method MergeAfter(p: int, ghost s: seq<int>, ghost i: int, ghost f: seq<int>, ghost merges: bool)
      requires IsRing(s, next, prev) && 0 <= i < |s| - 1 && s[i] == p
      requires IsRing(FreeNodes(f), nextFree, prevFree)
      requires s[i + 1] in used && used[s[i + 1]] == !merges && (merges ==> s[i + 1] in f)
      modifies this`next, this`prev, this`nextFree, this`prevFree, this`available
      ensures available == old(available) + if merges then HEADER else 0
      ensures IsRing(if merges then Dropped(s, i + 1) else s, next, prev)
      ensures IsRing(FreeNodes(if merges then Without(f, s[i + 1]) else f), nextFree, prevFree)
    {
      RingNext(s, next, prev, i);
      hide IsRing, Without;
      var newPtr := next[p];
      if !used[newPtr] {
        available := available + HEADER;
        UnlinkBlock(newPtr, s, i + 1);
        UnlinkFree(newPtr, f);
      }
    }

    /** rt_memcpy between two ranges that do not overlap. */
    method MemCopy(to: int, from: int, n: int)
      requires 0 <= n && (to + n <= from || from + n <= to)
      modifies this`mem
      ensures Moved(old(mem), mem, from, to, n)
      ensures forall x :: x < to || to + n <= x ==> (x in mem <==> x in old(mem)) && (x in mem ==> mem[x] == old(mem)[x])
    {
      var k := 0;
      while k < n
        invariant 0 <= k <= n
        invariant Moved(old(mem), mem, from, to, k)
        invariant forall x :: x < to || to + k <= x ==> (x in mem <==> x in old(mem)) && (x in mem ==> mem[x] == old(mem)[x])
      {
        if from + k in mem {
          mem := mem[to + k := mem[from + k]];
        } else {
          mem := mem - {to + k};
        }
        k := k + 1;
      }
    }

    /** A free block leaves both lists. */
    method Detach(x: int, ghost s: seq<int>, ghost i: int, ghost f: seq<int>)
      requires IsRing(s, next, prev) && 0 < i < |s| && s[i] == x
      requires IsRing(FreeNodes(f), nextFree, prevFree) && x in f
      modifies this`next, this`prev, this`nextFree, this`prevFree
      ensures IsRing(Dropped(s, i), next, prev)
      ensures IsRing(FreeNodes(Without(f, x)), nextFree, prevFree)
    {
      hide IsRing, Dropped, FreeNodes, Without;
      UnlinkFree(x, f);
      UnlinkBlock(x, s, i);
    }

    /** A new free block enters both lists, after h in the block ring. */
    method Attach(h: int, n: int, ghost s: seq<int>, ghost i: int, ghost f: seq<int>)
      requires IsRing(s, next, prev) && 0 <= i < |s| && s[i] == h && n !in s
      requires IsRing(FreeNodes(f), nextFree, prevFree) && n !in f && n != FREE_HEADER
      modifies this`next, this`prev, this`nextFree, this`prevFree, this`used, this`mem
      ensures IsRing(Inserted(s, i, n), next, prev)
      ensures IsRing(FreeNodes([n] + f), nextFree, prevFree)
      ensures used == old(used)[n := false] && mem == Clobbered(old(mem), n)
    {
      hide IsRing, Inserted, FreeNodes, Clobbered;
      Build(n);
      LinkBlock(h, n, s, i);
      PushFree(n, f);
    }

    /** Growing in place: the free successor makes room and starts further up. */
    method Grow(headerPtr: int, size: int, ghost i: int)
      requires Valid() && 0 <= i < |heap.blocks| - 1 && heap.blocks[i].used && heap.blocks[i].addr == headerPtr
      requires size % 4 == 0 && size > heap.blocks[i].size && CanGrow(heap.blocks, i, size)
      modifies this
      ensures Valid()
      ensures heap == WithAvailable(ResizeAt(old(heap), i, size), old(heap).available - (size - old(heap).blocks[i].size))
      ensures mem == Clobbered(old(mem), headerPtr + HEADER + size)
    {
      hide FreeNodes, Inv, IsRing, Flags, Live, Without, Headers, Inserted, Dropped, Clobbered, ResizeAt, CanGrow;
      ghost var h := heap;
      ghost var s := Headers(h.blocks);
      ghost var h' := WithAvailable(ResizeAt(h, i, size), h.available - (size - h.blocks[i].size));
      ResizeReady(h, i, size);
      ResizeDone(h, i, size, h');
      ResizeStructure(h, i, size, used);
      ResizeHeaders(h, i, size);
      ResizeFlags(h, i, size, used);
      var oldSize := ItemSize(headerPtr, i);
      available := available - (size - oldSize);
      if poolSize - available > maxUsed {
        maxUsed := poolSize - available;
      }
      MoveRest(headerPtr, headerPtr + HEADER + size, s, i, h.free);
      heap := h';
    }

    /** The lists while growing: the successor leaves both, and the rest n takes its place. */
    method MoveRest(headerPtr: int, n: int, ghost s: seq<int>, ghost i: int, ghost f: seq<int>)
      requires IsRing(s, next, prev) && 0 <= i < |s| - 1 && s[i] == headerPtr && n !in Dropped(s, i + 1)
      requires IsRing(FreeNodes(f), nextFree, prevFree) && n != FREE_HEADER
      requires s[i + 1] in f && n !in Without(f, s[i + 1])
      modifies this`next, this`prev, this`nextFree, this`prevFree, this`used, this`mem
      ensures IsRing(Inserted(Dropped(s, i + 1), i, n), next, prev)
      ensures IsRing(FreeNodes([n] + Without(f, s[i + 1])), nextFree, prevFree)
      ensures used == old(used)[n := false] && mem == Clobbered(old(mem), n)
    {
      RingNext(s, next, prev, i);
      DroppedAt(s, i + 1, i);
      hide IsRing, Dropped, Inserted, FreeNodes, Without, Clobbered;
      Detach(next[headerPtr], s, i + 1, f);
      Attach(headerPtr, n, Dropped(s, i + 1), i, Without(f, s[i + 1]));
    }

    /** Absorbing a free successor of the cut-off rest, whose size comes off the counter first. */
    method Absorb(newPtr: int, ghost s: seq<int>, ghost j: int, ghost f: seq<int>, ghost merges: bool)
      requires IsRing(s, next, prev) && 0 <= j < |s| - 1 && s[j] == newPtr
      requires IsRing(FreeNodes(f), nextFree, prevFree)
      requires s[j + 1] in used && used[s[j + 1]] == !merges && (merges ==> s[j + 1] in f)
      modifies this`next, this`prev, this`nextFree, this`prevFree, this`available
      ensures available == old(available) - if merges then s[Successor(|s|, j + 1)] - s[j + 1] - HEADER else 0
      ensures IsRing(if merges then Dropped(s, j + 1) else s, next, prev)
      ensures IsRing(FreeNodes(if merges then Without(f, s[j + 1]) else f), nextFree, prevFree)
    {
      RingNext(s, next, prev, j);
      RingNext(s, next, prev, j + 1);
      hide IsRing, Dropped, FreeNodes, Without;
      var freePtr := next[newPtr];
      if !used[freePtr] {
        available := available - (next[freePtr] - freePtr - HEADER);
        Detach(freePtr, s, j + 1, f);
      }
    }

    /** The lists while shrinking: the rest n enters the block ring, absorbs a free successor, and
        enters the free list. */
    method CutRest(headerPtr: int, n: int, ghost s: seq<int>, ghost i: int, ghost f: seq<int>, ghost merges: bool)
      requires IsRing(s, next, prev) && 0 <= i < |s| - 1 && s[i] == headerPtr && n !in s
      requires IsRing(FreeNodes(f), nextFree, prevFree) && n != FREE_HEADER
      requires s[i + 1] in used && used[s[i + 1]] == !merges && (merges ==> s[i + 1] in f && i + 2 < |s|)
      requires n !in if merges then Without(f, s[i + 1]) else f
      modifies this`next, this`prev, this`nextFree, this`prevFree, this`available, this`used, this`mem
      ensures IsRing(if merges then Dropped(Inserted(s, i, n), i + 2) else Inserted(s, i, n), next, prev)
      ensures IsRing(FreeNodes([n] + if merges then Without(f, s[i + 1]) else f), nextFree, prevFree)
      ensures available == old(available) - if merges then s[i + 2] - s[i + 1] - HEADER else 0
      ensures used == old(used)[n := false] && mem == Clobbered(old(mem), n)
    {
      hide IsRing, Dropped, Inserted, FreeNodes, Without, Clobbered;
      Build(n);
      LinkBlock(headerPtr, n, s, i);
      InsertedAt(s, i, n, i + 1);
      InsertedAt(s, i, n, i + 2);
      if merges {
        InsertedAt(s, i, n, i + 3);
      }
      assert s[i + 1] != n;
      Absorb(n, Inserted(s, i, n), i + 1, f, merges);
      PushFree(n, if merges then Without(f, s[i + 1]) else f);
    }

    /** Shrinking in place: the cut-off rest becomes a free block, merged with a free successor. */
    method Shrink(headerPtr: int, size: int, ghost i: int)
      requires Valid() && 0 <= i < |heap.blocks| - 1 && heap.blocks[i].used && heap.blocks[i].addr == headerPtr
      requires MIN_ALLOC <= size && size % 4 == 0 && size + HEADER + MIN_ALLOC < heap.blocks[i].size
      modifies this
      ensures Valid()
      ensures heap == ResizeAt(old(heap), i, size).(available := old(heap).available + ResizeGain(old(heap).blocks, i, size))
      ensures mem == Clobbered(old(mem), headerPtr + HEADER + size)
    {
      hide FreeNodes, Inv, IsRing, Flags, Live, Without, Headers, Inserted, Dropped, Clobbered, ResizeAt, CanGrow, FreeAfter, ResizeGain;
      ghost var h := heap;
      ghost var s := Headers(h.blocks);
      ghost var after := FreeAfter(h.blocks, i);
      ghost var h' := ResizeAt(h, i, size).(available := h.available + ResizeGain(h.blocks, i, size));
      ResizeReady(h, i, size);
      ResizeDone(h, i, size, h');
      ResizeStructure(h, i, size, used);
      ResizeHeaders(h, i, size);
      ResizeFlags(h, i, size, used);
      ShrinkNext(h, i);
      var newPtr := headerPtr + size + HEADER;
      CutRest(headerPtr, newPtr, s, i, h.free, after);
      ShrinkSize(h, i, size, next, prev);
      available := available + (next[newPtr] - newPtr - HEADER);
      heap := h';
    }

    /** rt_lwp_memheap_realloc: the model's resizing, with the first bytes of the block, up to the
        smaller of its old and its new size, and every other live payload intact; when it returns
        null for a nonzero size nothing has changed. */
    method Realloc(ptr: int, request: int) returns (r: int)
      requires Valid() && (ptr == NULL || Live(heap.blocks, ptr - HEADER)) && 0 <= request <= ADDRESS_SPACE - 16
      modifies this
      ensures Valid()
      ensures var (h, b) := MemheapModel.Realloc(old(heap), if ptr == NULL then None else Some(ptr - HEADER), request);
              heap == h && r == if b.Some? then b.value + HEADER else NULL
      ensures KeepsLive(old(heap.blocks), old(mem), mem, ptr - HEADER)
      ensures ptr != NULL && r != NULL ==>
                Moved(old(mem), mem, ptr, r, Min(SizeAt(old(heap.blocks), ptr - HEADER), Aligned(request)))
      ensures r == NULL && request != 0 ==> heap == old(heap) && mem == old(mem)
    {
      hide Inv, IsRing, Flags, Live, KeepsLive, MemheapModel.Free, MemheapModel.Alloc;
      ghost var h := heap;
      KeepsSame(h.blocks, mem, ptr - HEADER);
      if request == 0 {
        Free(ptr);
        r := NULL;
      } else if ptr == NULL {
        r := Alloc(Aligned(request));
        AllocFails(h, Aligned(request));
        KeepsWeaker(h, old(mem), mem, ptr - HEADER);
      } else {
        LiveIndex(h, ptr - HEADER);
        r := Resize(ptr, Aligned(request), Index(h.blocks, ptr - HEADER));
      }
    }

    /** rt_lwp_memheap_realloc of a live block to an aligned size. */
    method Resize(ptr: int, size: int, ghost i: int) returns (r: int)
      requires Valid() && 0 <= i < |heap.blocks| - 1 && heap.blocks[i].used && heap.blocks[i].addr == ptr - HEADER
      requires MIN_ALLOC <= size < ADDRESS_SPACE && size % 4 == 0
      modifies this
      ensures Valid()
      ensures var (h, b) := Resized(old(heap), i, size);
              heap == h && r == if b.Some? then b.value + HEADER else NULL
      ensures KeepsLive(old(heap.blocks), old(mem), mem, ptr - HEADER)
      ensures r != NULL ==> Moved(old(mem), mem, ptr, r, Min(old(heap.blocks)[i].size, size))
      ensures r == NULL ==> heap == old(heap) && mem == old(mem)
    {
      hide Inv, IsRing, Flags, Live, KeepsLive, MemheapModel.Free, MemheapModel.Alloc, ResizeAt, Clobbered, CanGrow;
      ghost var h := heap;
      ghost var before := mem;
      var headerPtr := ptr - HEADER;
      InvFacts(h, i);
      BlockLive(h, i);
      KeepsSame(h.blocks, before, headerPtr);
      var oldSize := ItemSize(headerPtr, i);
      if size > oldSize {
        var room := CheckRoom(headerPtr, oldSize, size, i);
        if room {
          Grow(headerPtr, size, i);
          GrowKeeps(h, i, size, before);
          r := ptr;
        } else {
          r := MoveBlock(ptr, oldSize, size);
          AllocFails(h, size);
        }
      } else if size + HEADER + MIN_ALLOC >= oldSize {
        r := ptr;
      } else {
        Shrink(headerPtr, size, i);
        ShrinkKeeps(h, i, size, before);
        r := ptr;
      }
    }

    /** Whether the block after headerPtr is free and has room for the growth. */
    method CheckRoom(headerPtr: int, oldSize: int, size: int, ghost i: int) returns (room: bool)
      requires Valid() && 0 <= i < |heap.blocks| - 1 && heap.blocks[i].used && heap.blocks[i].addr == headerPtr
      requires oldSize == heap.blocks[i].size
      ensures room == CanGrow(heap.blocks, i, size)
    {
      RingNext(Headers(heap.blocks), next, prev, i);
      TakeFacts(heap, i);
      hide Inv, IsRing;
      var nextPtr := next[headerPtr];
      room := false;
      if !used[nextPtr] {
        var nextSize := ItemSize(nextPtr, i + 1);
        room := nextSize + oldSize > size + MIN_ALLOC;
      }
    }

    /** Growing elsewhere: allocate, copy, free. */
    method MoveBlock(ptr: int, oldSize: int, size: int) returns (r: int)
      requires Valid() && Live(heap.blocks, ptr - HEADER) && SizeAt(heap.blocks, ptr - HEADER) == oldSize
      requires MIN_ALLOC <= size < ADDRESS_SPACE && size % 4 == 0 && size > oldSize
      modifies this
      ensures Valid()
      ensures var (h, b) := MemheapModel.Alloc(old(heap), size);
              (b.None? ==> r == NULL && heap == old(heap) && mem == old(mem)) &&
              (b.Some? ==> r == b.value + HEADER && r != NULL && heap == MemheapModel.Free(h, ptr - HEADER))
      ensures KeepsLive(old(heap.blocks), old(mem), mem, ptr - HEADER)
      ensures r != NULL ==> Moved(old(mem), mem, ptr, r, oldSize)
    {
      hide Inv, IsRing, Flags, Live, KeepsLive, MemheapModel.Free, MemheapModel.Alloc;
      ghost var h := heap;
      ghost var before := mem;
      LivePositive(h);
      AllocFails(h, size);
      KeepsSame(h.blocks, before, ptr - HEADER);
      r := Alloc(size);
      if r != NULL {
        ghost var h1 := heap;
        ghost var middle := mem;
        LivePositive(h);
        MoveReady(h, ptr - HEADER, size);
        MemCopy(r, ptr, oldSize);
        MoveKeeps(h, ptr - HEADER, size, before, middle, mem);
        Free(ptr);
      } else {
        MoveFails(h, size);
      }
    }

    /** rt_lwp_memheap_is_empty. */
    method HeapIsEmpty() returns (b: bool)
      requires Valid()
      ensures b <==> LiveBlocks(heap.blocks) == {}
    {
      EmptyExactly(heap);
      b := available + 2 * HEADER == poolSize;
    }
  }

  lemma {:induction false} WithoutGone(s: seq<int>, a: int)
    requires Distinct(s)
    ensures a !in Without(s, a)
  {
    hide Distinct;
    if s != [] {
      DistinctTail(s);
      WithoutGone(s[1..], a);
    }
  }

  lemma RemovedFree(f: seq<int>, j: int)
    requires Distinct(FreeNodes(f)) && 0 <= j < |f|
    ensures Dropped(FreeNodes(f), j + 1) == FreeNodes(Without(f, f[j]))
    ensures f[j] !in Without(f, f[j])
  {
    hide Distinct;
    var s := FreeNodes(f);
    assert s[1..] == f;
    DistinctTail(s);
    WithoutAt(f, j);
    WithoutGone(f, f[j]);
    assert s[..j + 1] + s[j + 2..] == [FREE_HEADER] + (f[..j] + f[j + 1..]);
  }

  // ---------------------------------------------------------------- structure lemmas

  lemma FitFacts(h: Heap, size: int)
    requires Inv(h) && FirstFit(h.blocks, h.free, size).Some?
    ensures var a := FirstFit(h.blocks, h.free, size).value;
            var i := Index(h.blocks, a);
            a > 0 && 0 <= i < |h.blocks| - 1 && !h.blocks[i].used && h.blocks[i].addr == a &&
            SizeAt(h.blocks, a) == h.blocks[i].size >= size
  {
    FirstFitFinds(h.blocks, h.free, size);
    var a := FirstFit(h.blocks, h.free, size).value;
    assert a in Elements(h.free);
    FreeListed(h, a);
    InvFacts(h, Index(h.blocks, a));
  }

  lemma KeepsSame(bs: seq<Block>, mem: map<int, Byte>, except: int)
    ensures KeepsLive(bs, mem, mem, except)
  {
  }

  /** A header written into a free block destroys no live payload. */
  lemma KeepsClobbered(h: Heap, i: int, a: int, mem: map<int, Byte>, except: int)
    requires Inv(h) && 0 <= i < |h.blocks| - 1 && (!h.blocks[i].used || h.blocks[i].addr == except)
    requires h.blocks[i].addr <= a && a <= h.blocks[i].addr + h.blocks[i].size
    ensures KeepsLive(h.blocks, mem, Clobbered(mem, a), except)
  {
    forall b | Live(h.blocks, b) && b != except
      ensures Keeps(mem, Clobbered(mem, a), b + HEADER, b + HEADER + SizeAt(h.blocks, b))
    {
      var k := Index(h.blocks, b);
      if k < i {
        Ordered(h.blocks, k, i);
      } else if k > i {
        Ordered(h.blocks, i, k);
      }
    }
  }

  /** An address inside a block is no header, and not on the free list. */
  lemma InsideBlock(h: Heap, i: int, a: int)
    requires Inv(h) && 0 <= i < |h.blocks| && h.blocks[i].addr < a < h.blocks[i].addr + HEADER + h.blocks[i].size
    ensures a !in Headers(h.blocks) && a !in h.free && a !in Without(h.free, h.blocks[i].addr)
  {
    forall k | 0 <= k < |h.blocks|
      ensures Headers(h.blocks)[k] != a
    {
      if i < k {
        Ordered(h.blocks, i, k);
      } else if k < i {
        Ordered(h.blocks, k, i);
      }
    }
    NewHeader(h, i, a);
    WithoutElement(h.free, h.blocks[i].addr);
    NotElement(h.free, a);
    NotElement(Without(h.free, h.blocks[i].addr), a);
  }

  lemma NotElement(s: seq<int>, a: int)
    ensures a in Elements(s) <==> a in s
  {
  }

  lemma OnFreeList(h: Heap, i: int)
    requires Inv(h) && 0 <= i < |h.blocks| && !h.blocks[i].used
    ensures h.blocks[i].addr in h.free
  {
    Listed(h, i);
    NotElement(h.free, h.blocks[i].addr);
  }

  /** Flags after a splice: only addresses of the replaced range were written. */
  lemma FlagsSplice(bs: seq<Block>, used: map<int, bool>, used': map<int, bool>, lo: int, hi: int, mid: seq<Block>)
    requires 0 <= lo <= hi <= |bs| && Flags(bs, used) && Flags(mid, used')
    requires forall k :: 0 <= k < |bs| && !(lo <= k < hi) ==>
                           bs[k].addr in used' && bs[k].addr in used && used'[bs[k].addr] == used[bs[k].addr]
    ensures Flags(Splice(bs, lo, hi, mid), used')
  {
    hide Splice;
    SpliceAt(bs, lo, hi, mid);
    var r := Splice(bs, lo, hi, mid);
    forall k | 0 <= k < |r|
      ensures r[k].addr in used' && used'[r[k].addr] == r[k].used
    {
      if !(lo <= k < lo + |mid|) {
        var o := if k < lo then k else k - lo - |mid| + hi;
        assert r[k] == bs[o];
      } else {
        assert r[k] == mid[k - lo];
      }
    }
  }

  lemma SplitStructure(h: Heap, i: int, size: int, used: map<int, bool>)
    requires Inv(h) && 0 <= i < |h.blocks| - 1 && !h.blocks[i].used
    requires MIN_ALLOC <= size && h.blocks[i].size >= size + HEADER + MIN_ALLOC
    requires Flags(h.blocks, used)
    ensures var a := h.blocks[i].addr;
            var n := a + size + HEADER;
            n !in Headers(h.blocks) && n !in Without(h.free, a) && n > 0 &&
            Headers(Take(h, i, size).blocks) == Inserted(Headers(h.blocks), i, n) &&
            a in h.free &&
            Flags(Take(h, i, size).blocks, used[n := false][a := true]) &&
            forall mem :: KeepsLive(h.blocks, mem, Clobbered(mem, n), NULL)
  {
    hide Inv, Splice, Headers, KeepsLive, Elements, Without;
    var bs := h.blocks;
    var a := bs[i].addr;
    var n := a + size + HEADER;
    var mid := Cut(bs[i], size);
    InvFacts(h, i);
    InsideBlock(h, i, n);
    OnFreeList(h, i);
    HeadersSplice(bs, i, i + 1, mid);
    HeadersCut(bs, i, mid, n);
    forall k | 0 <= k < |bs| && k != i
      ensures bs[k].addr != a && bs[k].addr != n
    {
      IndexOf(bs, k);
      IndexOf(bs, i);
      assert Headers(bs)[k] == bs[k].addr;
    }
    FlagsSplice(bs, used, used[n := false][a := true], i, i + 1, mid);
    forall mem
      ensures KeepsLive(bs, mem, Clobbered(mem, n), NULL)
    {
      KeepsClobbered(h, i, n, mem, NULL);
    }
  }

  lemma InvFacts(h: Heap, i: int)
    requires Inv(h) && 0 <= i < |h.blocks|
    ensures Contiguous(h.blocks) && h.blocks[i].addr > 0 && Distinct(h.free)
  {
    if i > 0 {
      Ordered(h.blocks, 0, i);
    }
  }

  lemma HeadersCut(bs: seq<Block>, i: int, mid: seq<Block>, n: int)
    requires 0 <= i < |bs| && |mid| == 2 && mid[0].addr == bs[i].addr && mid[1].addr == n
    ensures Headers(bs)[..i] + Headers(mid) + Headers(bs)[i + 1..] == Inserted(Headers(bs), i, n)
  {
    assert Headers(mid) == [bs[i].addr, n];
  }

  lemma WholeStructure(h: Heap, i: int, size: int, used: map<int, bool>)
    requires Inv(h) && 0 <= i < |h.blocks| - 1 && !h.blocks[i].used
    requires h.blocks[i].size < size + HEADER + MIN_ALLOC
    requires Flags(h.blocks, used)
    ensures var a := h.blocks[i].addr;
            Headers(Take(h, i, size).blocks) == Headers(h.blocks) && a in h.free &&
            Flags(Take(h, i, size).blocks, used[a := true])
  {
    hide Inv, Splice, Headers, Elements, Without;
    var bs := h.blocks;
    var a := bs[i].addr;
    var mid := [bs[i].(used := true)];
    InvFacts(h, i);
    OnFreeList(h, i);
    HeadersSplice(bs, i, i + 1, mid);
    assert Headers(mid) == [a];
    assert Headers(bs)[..i] + [a] + Headers(bs)[i + 1..] == Headers(bs);
    forall k | 0 <= k < |bs| && k != i
      ensures bs[k].addr != a
    {
      IndexOf(bs, k);
      IndexOf(bs, i);
    }
    FlagsSplice(bs, used, used[a := true], i, i + 1, mid);
  }

  lemma LiveIndex(h: Heap, a: int)
    requires Inv(h) && Live(h.blocks, a)
    ensures 0 <= Index(h.blocks, a) < |h.blocks| - 1 && h.blocks[Index(h.blocks, a)].used
    ensures h.blocks[Index(h.blocks, a)].addr == a && MemheapModel.Free(h, a) == FreeAt(h, Index(h.blocks, a))
  {
  }

  lemma RingNext(s: seq<int>, next: map<int, int>, prev: map<int, int>, i: int)
    requires IsRing(s, next, prev) && 0 <= i < |s|
    ensures s[i] in next && next[s[i]] == s[Successor(|s|, i)]
    ensures s[i] in prev && prev[s[i]] == s[Predecessor(|s|, i)]
  {
    assert Linked(s, next, prev, i);
  }

  /** Reading the neighbours' flags through the ring; free list membership of the neighbours. */
  lemma FreeReads(h: Heap, i: int, next: map<int, int>, prev: map<int, int>, used: map<int, bool>)
    requires Inv(h) && 0 <= i < |h.blocks| - 1 && h.blocks[i].used
    requires IsRing(Headers(h.blocks), next, prev) && Flags(h.blocks, used)
    ensures var bs := h.blocks;
            var a := bs[i].addr;
            var used' := used[a := false];
            var s := Headers(bs);
            |s| == |bs| && s[i] == a && a in prev && a in next &&
            (FreeBefore(bs, i) ==> i > 0) &&
            prev[a] in used' && used'[prev[a]] == !FreeBefore(bs, i) &&
            s[i + 1] in used' && used'[s[i + 1]] == !FreeAfter(bs, i)
    ensures var a := h.blocks[i].addr;
            a !in h.free && a > 0 &&
            (FreeAfter(h.blocks, i) ==>
               h.blocks[i + 1].addr in h.free && a !in Without(h.free, h.blocks[i + 1].addr))
  {
    hide FreeBytes, Splice;
    var bs := h.blocks;
    RingNext(Headers(bs), next, prev, i);
    InvFacts(h, i);
    IndexOf(bs, i);
    IndexOf(bs, i + 1);
    IndexOf(bs, Predecessor(|bs|, i));
    Listed(h, i);
    Listed(h, i + 1);
    NotElement(h.free, bs[i].addr);
    NotElement(h.free, bs[i + 1].addr);
    WithoutElement(h.free, bs[i + 1].addr);
    NotElement(Without(h.free, bs[i + 1].addr), bs[i].addr);
  }

  lemma FreeFlags(h: Heap, i: int, used: map<int, bool>)
    requires Inv(h) && 0 <= i < |h.blocks| - 1 && h.blocks[i].used && Flags(h.blocks, used)
    ensures Flags(FreeAt(h, i).blocks, used[h.blocks[i].addr := false])
  {
    hide Inv, Splice, Without;
    var bs := h.blocks;
    var lo := if FreeBefore(bs, i) then i - 1 else i;
    var hi := if FreeAfter(bs, i) then i + 1 else i;
    var merged := Block(bs[lo].addr, bs[hi].addr + bs[hi].size - bs[lo].addr, false);
    var used' := used[bs[i].addr := false];
    InvFacts(h, i);
    forall k | 0 <= k < |bs| && k != i
      ensures bs[k].addr != bs[i].addr
    {
      IndexOf(bs, k);
      IndexOf(bs, i);
    }
    assert bs[lo].addr in used' && used'[bs[lo].addr] == false;
    FlagsSplice(bs, used, used', lo, hi + 1, [merged]);
  }

  /** The block ring after the merges around i. */
  ghost function FreedNodes(s: seq<int>, i: int, before: bool, after: bool): seq<int>
    requires 0 <= i < |s| - 1 && (before ==> i > 0)
  {
    var s1 := if before then Dropped(s, i) else s;
    var lo := if before then i - 1 else i;
    assert lo + 1 < |s1|;
    if after then Dropped(s1, lo + 1) else s1
  }

  lemma FreeHeaders(h: Heap, i: int)
    requires 0 <= i < |h.blocks| - 1
    ensures Headers(FreeAt(h, i).blocks) ==
            FreedNodes(Headers(h.blocks), i, FreeBefore(h.blocks, i), FreeAfter(h.blocks, i))
  {
    hide Splice, Headers, Without;
    var bs := h.blocks;
    var s := Headers(bs);
    var before, after := FreeBefore(bs, i), FreeAfter(bs, i);
    var lo := if before then i - 1 else i;
    var hi := if after then i + 1 else i;
    var merged := Block(bs[lo].addr, bs[hi].addr + bs[hi].size - bs[lo].addr, false);
    HeadersSplice(bs, lo, hi + 1, [merged]);
    assert Headers([merged]) == [s[lo]];
    FreedSlices(s, i, before, after);
  }

  lemma FreedSlices(s: seq<int>, i: int, before: bool, after: bool)
    requires 0 <= i < |s| - 1 && (before ==> i > 0)
    ensures var lo := if before then i - 1 else i;
            var hi := if after then i + 1 else i;
            FreedNodes(s, i, before, after) == s[..lo] + [s[lo]] + s[hi + 1..]
  {
  }

  lemma FreeCounter(h: Heap, i: int)
    requires Inv(h) && 0 <= i < |h.blocks| - 1
    ensures var h' := FreeAt(h, i);
            h'.start == h.start && h'.pool == h.pool && h'.maxUsed == h.maxUsed &&
            h'.available == h.available + h.blocks[i].size + (if FreeBefore(h.blocks, i) then HEADER else 0) +
                            (if FreeAfter(h.blocks, i) then HEADER else 0)
    ensures var h' := FreeAt(h, i);
            var free := if FreeAfter(h.blocks, i) then Without(h.free, h.blocks[i + 1].addr) else h.free;
            h'.free == (if FreeBefore(h.blocks, i) then [] else [h.blocks[i].addr]) + free
  {
    hide Without, Splice;
    var free := if FreeAfter(h.blocks, i) then Without(h.free, h.blocks[i + 1].addr) else h.free;
    assert [] + free == free;
  }

  // ---------------------------------------------------------------- resizing

  /** What the resize branches read. */
  lemma ResizeReady(h: Heap, i: int, size: int)
    requires Inv(h) && 0 <= i < |h.blocks| - 1 && h.blocks[i].used
    requires size > h.blocks[i].size || MIN_ALLOC <= size
    ensures size >= MIN_ALLOC
    ensures CanGrow(h.blocks, i, size) ==> FreeAfter(h.blocks, i)
    ensures h.blocks[i].addr > 0
  {
    InvFacts(h, i);
    TakeFacts(h, i);
  }

  lemma ResizeStructure(h: Heap, i: int, size: int, used: map<int, bool>)
    requires Inv(h) && 0 <= i < |h.blocks| - 1 && h.blocks[i].used && MIN_ALLOC <= size && size % 4 == 0
    requires (size > h.blocks[i].size && CanGrow(h.blocks, i, size)) || size + HEADER + MIN_ALLOC < h.blocks[i].size
    requires Flags(h.blocks, used)
    ensures var bs := h.blocks;
            var a := bs[i].addr;
            var n := a + HEADER + size;
            var s := Headers(bs);
            var after := FreeAfter(bs, i);
            var free := if after then Without(h.free, bs[i + 1].addr) else h.free;
            |s| == |bs| && s[i] == a && s[i + 1] == bs[i + 1].addr &&
            n !in s && n > 0 && n !in free &&
            s[i + 1] in used && used[s[i + 1]] == !after && (after ==> s[i + 1] in h.free) &&
            n !in (if after then Dropped(s, i + 1) else s) &&
            ResizeAt(h, i, size).free == [n] + free
    ensures ResizeAt(h, i, size) == h.(blocks := ResizeAt(h, i, size).blocks, free := ResizeAt(h, i, size).free)
  {
    hide Inv, Splice, Elements, Without;
    var bs := h.blocks;
    var n := bs[i].addr + HEADER + size;
    var s := Headers(bs);
    ResizeFresh(h, i, size);
    WithoutElement(h.free, bs[i + 1].addr);
    NotElement(h.free, n);
    NotElement(Without(h.free, bs[i + 1].addr), n);
    assert n !in Dropped(s, i + 1);
    if FreeAfter(bs, i) {
      OnFreeList(h, i + 1);
    }
  }

  /** The new header lies inside the block or its free successor. */
  lemma ResizeFresh(h: Heap, i: int, size: int)
    requires Inv(h) && 0 <= i < |h.blocks| - 1 && h.blocks[i].used && MIN_ALLOC <= size
    requires (size > h.blocks[i].size && CanGrow(h.blocks, i, size)) || size + HEADER + MIN_ALLOC < h.blocks[i].size
    ensures var n := h.blocks[i].addr + HEADER + size;
            n !in Headers(h.blocks) && n > 0 && n !in h.free && Distinct(h.free)
  {
    hide Inv, Splice, Elements, Without, Headers;
    var n := h.blocks[i].addr + HEADER + size;
    InvFacts(h, i);
    TakeFacts(h, i);
    if size < h.blocks[i].size {
      InsideBlock(h, i, n);
    } else {
      InsideBlock(h, i + 1, n);
    }
  }

  lemma ResizeHeaders(h: Heap, i: int, size: int)
    requires 0 <= i < |h.blocks| - 1
    ensures var bs := h.blocks;
            var n := bs[i].addr + HEADER + size;
            var s := Headers(bs);
            Headers(ResizeAt(h, i, size).blocks) == Inserted(if FreeAfter(bs, i) then Dropped(s, i + 1) else s, i, n)
    ensures var n := h.blocks[i].addr + HEADER + size;
            var s := Headers(h.blocks);
            Dropped(Inserted(s, i, n), i + 2) == Inserted(Dropped(s, i + 1), i, n)
  {
    hide Splice, Headers, Without, Inserted, Dropped;
    var bs := h.blocks;
    var n := bs[i].addr + HEADER + size;
    var s := Headers(bs);
    var hi := if FreeAfter(bs, i) then i + 1 else i;
    var mid := Cut(bs[i].(size := bs[hi].addr + bs[hi].size - bs[i].addr), size);
    HeadersSplice(bs, i, hi + 1, mid);
    assert Headers(mid) == [s[i], n];
    ResizeSlices(s, i, n);
  }

  lemma ResizeSlices(s: seq<int>, i: int, n: int)
    requires 0 <= i < |s| - 1
    ensures s[..i] + [s[i], n] + s[i + 1..] == Inserted(s, i, n)
    ensures s[..i] + [s[i], n] + s[i + 2..] == Inserted(Dropped(s, i + 1), i, n)
    ensures Dropped(Inserted(s, i, n), i + 2) == Inserted(Dropped(s, i + 1), i, n)
  {
  }

  lemma ResizeFlags(h: Heap, i: int, size: int, used: map<int, bool>)
    requires 0 <= i < |h.blocks| - 1 && h.blocks[i].used && Flags(h.blocks, used)
    requires h.blocks[i].addr + HEADER + size !in Headers(h.blocks)
    ensures Flags(ResizeAt(h, i, size).blocks, used[h.blocks[i].addr + HEADER + size := false])
  {
    hide Splice, Without;
    var bs := h.blocks;
    var n := bs[i].addr + HEADER + size;
    var hi := if FreeAfter(bs, i) then i + 1 else i;
    var mid := Cut(bs[i].(size := bs[hi].addr + bs[hi].size - bs[i].addr), size);
    forall k | 0 <= k < |bs|
      ensures bs[k].addr != n
    {
      assert Headers(bs)[k] == bs[k].addr;
    }
    FlagsSplice(bs, used, used[n := false], i, hi + 1, mid);
  }

  /** The successor's size as the distance of two headers. */
  lemma ShrinkNext(h: Heap, i: int)
    requires Inv(h) && 0 <= i < |h.blocks| - 1
    ensures var s := Headers(h.blocks);
            FreeAfter(h.blocks, i) ==> i + 2 < |s| && s[i + 2] - s[i + 1] - HEADER == h.blocks[i + 1].size
  {
    TakeFacts(h, i);
  }

  /** The size read back from the new free block. */
  lemma ShrinkSize(h: Heap, i: int, size: int, next: map<int, int>, prev: map<int, int>)
    requires Inv(h) && 0 <= i < |h.blocks| - 1
    requires IsRing(Headers(ResizeAt(h, i, size).blocks), next, prev)
    ensures var n := h.blocks[i].addr + HEADER + size;
            n in next &&
            next[n] - n - HEADER ==
            ResizeGain(h.blocks, i, size) + (if FreeAfter(h.blocks, i) then h.blocks[i + 1].size else 0)
  {
    var bs := ResizeAt(h, i, size).blocks;
    TakeFacts(h, i);
    assert bs[i + 1].addr == h.blocks[i].addr + HEADER + size;
    assert bs[i + 2] == h.blocks[if FreeAfter(h.blocks, i) then i + 2 else i + 1];
    RingNext(Headers(bs), next, prev, i + 1);
  }

  // ---------------------------------------------------------------- payloads across realloc

  lemma KeepsWeaker(h: Heap, before: map<int, Byte>, after: map<int, Byte>, except: int)
    requires Inv(h) && KeepsLive(h.blocks, before, after, NULL)
    ensures KeepsLive(h.blocks, before, after, except)
  {
    LivePositive(h);
  }

  lemma BlockLive(h: Heap, i: int)
    requires Inv(h) && 0 <= i < |h.blocks| - 1 && h.blocks[i].used
    ensures Live(h.blocks, h.blocks[i].addr) && SizeAt(h.blocks, h.blocks[i].addr) == h.blocks[i].size
    ensures h.blocks[i].size >= MIN_ALLOC
  {
    IndexOf(h.blocks, i);
  }

  lemma GrowKeeps(h: Heap, i: int, size: int, mem: map<int, Byte>)
    requires Inv(h) && 0 <= i < |h.blocks| - 1 && h.blocks[i].used
    requires size > h.blocks[i].size && CanGrow(h.blocks, i, size)
    ensures var a := h.blocks[i].addr;
            var mem' := Clobbered(mem, a + HEADER + size);
            KeepsLive(h.blocks, mem, mem', a) && Moved(mem, mem', a + HEADER, a + HEADER, h.blocks[i].size)
  {
    TakeFacts(h, i);
    KeepsClobbered(h, i + 1, h.blocks[i].addr + HEADER + size, mem, h.blocks[i].addr);
  }

  lemma ShrinkKeeps(h: Heap, i: int, size: int, mem: map<int, Byte>)
    requires Inv(h) && 0 <= i < |h.blocks| - 1 && h.blocks[i].used
    requires MIN_ALLOC <= size && size + HEADER + MIN_ALLOC < h.blocks[i].size
    ensures var a := h.blocks[i].addr;
            var mem' := Clobbered(mem, a + HEADER + size);
            KeepsLive(h.blocks, mem, mem', a) && Moved(mem, mem', a + HEADER, a + HEADER, size)
  {
    KeepsClobbered(h, i, h.blocks[i].addr + HEADER + size, mem, h.blocks[i].addr);
  }

  lemma MoveFails(h: Heap, size: int)
    requires Inv(h) && MIN_ALLOC <= size < ADDRESS_SPACE
    ensures var r := MemheapModel.Alloc(h, size).1; r.Some? ==> r.value > 0
  {
    var r := MemheapModel.Alloc(h, size).1;
    if r.Some? {
      FirstFitFinds(h.blocks, h.free, Aligned(size));
      assert r.value in Elements(h.free);
      FreeListed(h, r.value);
      InvFacts(h, Index(h.blocks, r.value));
    }
  }

  /** The old block is still live after the allocation and does not overlap the new one. */
  lemma MoveReady(h: Heap, a: int, size: int)
    requires Inv(h) && Live(h.blocks, a) && MIN_ALLOC <= size < ADDRESS_SPACE && size % 4 == 0
    requires MemheapModel.Alloc(h, size).1.Some? && size > SizeAt(h.blocks, a)
    ensures var (h1, b) := MemheapModel.Alloc(h, size);
            var n := SizeAt(h.blocks, a);
            Live(h1.blocks, a) && n >= 0 && b.value > 0 &&
            (b.value + HEADER + n <= a + HEADER || a + HEADER + n <= b.value + HEADER)
  {
    hide Inv, Live, MemheapModel.Alloc;
    MoveOthers(h, a, a, size);
    MoveFails(h, size);
  }

  /** A live block is still live after an allocation, with the same size and clear of the new block. */
  lemma MoveOthers(h: Heap, a: int, x: int, size: int)
    requires Inv(h) && Live(h.blocks, x) && MIN_ALLOC <= size < ADDRESS_SPACE && size % 4 == 0
    requires MemheapModel.Alloc(h, size).1.Some?
    ensures var (h1, b) := MemheapModel.Alloc(h, size);
            var n := SizeAt(h.blocks, x);
            Live(h1.blocks, x) && SizeAt(h1.blocks, x) == n && n >= 0 &&
            (b.value + HEADER + size <= x || x + HEADER + n <= b.value)
  {
    hide Inv, Live, MemheapModel.Alloc;
    var (h1, b) := MemheapModel.Alloc(h, size);
    AllocInv(h, size);
    AllocAdds(h, size);
    AlignedSame(size);
    LiveBlock(h, x);
    LiveBlock(h1, x);
    assert x != b.value;
    LiveDisjoint(h1, x, b.value);
    LiveSize(h, x);
  }

  lemma LiveSize(h: Heap, x: int)
    requires Inv(h) && Live(h.blocks, x)
    ensures SizeAt(h.blocks, x) >= MIN_ALLOC
  {
  }

  lemma MoveKeeps(h: Heap, a: int, size: int, before: map<int, Byte>, middle: map<int, Byte>, after: map<int, Byte>)
    requires Inv(h) && Live(h.blocks, a) && MIN_ALLOC <= size < ADDRESS_SPACE && size % 4 == 0
    requires MemheapModel.Alloc(h, size).1.Some? && size > SizeAt(h.blocks, a)
    requires KeepsLive(h.blocks, before, middle, NULL)
    requires var to := MemheapModel.Alloc(h, size).1.value + HEADER;
             var n := SizeAt(h.blocks, a);
             Moved(middle, after, a + HEADER, to, n) &&
             forall x :: x < to || to + n <= x ==> (x in after <==> x in middle) && (x in after ==> after[x] == middle[x])
    ensures KeepsLive(h.blocks, before, after, a)
    ensures Moved(before, after, a + HEADER, MemheapModel.Alloc(h, size).1.value + HEADER, SizeAt(h.blocks, a))
  {
    hide Inv, MemheapModel.Alloc;
    assert a != NULL && forall x :: Live(h.blocks, x) ==> x != NULL by {
      LivePositive(h);
    }
    forall x | Live(h.blocks, x) && x != a
      ensures Keeps(before, after, x + HEADER, x + HEADER + SizeAt(h.blocks, x))
    {
      MoveOthers(h, a, x, size);
    }
    assert Keeps(before, middle, a + HEADER, a + HEADER + SizeAt(h.blocks, a));
  }

  lemma LivePositive(h: Heap)
    requires Inv(h)
    ensures forall x :: Live(h.blocks, x) ==> x > 0
  {
    forall x | Live(h.blocks, x)
      ensures x > 0
    {
      InvFacts(h, Index(h.blocks, x));
    }
  }
}
