/** What allocate, free and reallocate do to the blocks and the free list of the lwp memory heap,
    said without the functions that do it. */
module MemheapCalls {
  import opened Basics
  import opened Rings
  import opened MemheapModel
  import opened MemheapProofs
  import opened MemheapResults

  /** The payload of a request: the next multiple of four, at least twelve bytes. */
  predicate Rounds(request: int, n: int) {
    n % 4 == 0 && n >= 12 && n >= request && (n < request + 4 || n == 12)
  }

  lemma RoundsOnce(request: int, n: int)
    requires 0 <= request <= ADDRESS_SPACE - 4 && Rounds(request, n)
    ensures n == Aligned(request)
  {
  }

  lemma {:induction false} WithoutOne(l: seq<int>, a: int)
    requires a in l
    ensures LeavesOut(l, Without(l, a), a)
  {
    hide LeavesOut;
    if l[0] == a {
      FirstOut(l);
    } else {
      WithoutOne(l[1..], a);
      OutLater(l, Without(l[1..], a), a);
    }
  }

  /** An initialised heap: the whole pool, rounded down to a multiple of four, is one free block in
      front of the tailer, and the two headers are what is in use. */
  lemma InitialExactly(start: int, size: int, pool: int)
    requires pool % 4 == 0 && pool <= size < pool + 4
    ensures Init(start, size) ==
            Heap(start, pool, [Block(start, pool - 48, false), Block(start + pool - 24, 0, true)], [start], pool - 48, 48)
  {
  }

  /** The free block at i has room for n bytes. */
  predicate FreeWith(bs: seq<Block>, i: int, n: int) {
    0 <= i < |bs| && !bs[i].used && bs[i].size >= n
  }

  /** The free block at i has room, and no block that comes before it on the free list has. */
  ghost predicate FirstOnList(h: Heap, i: int, n: int) {
    FreeWith(h.blocks, i, n) &&
    exists k :: 0 <= k < |h.free| && h.free[k] == h.blocks[i].addr &&
                forall l, j :: 0 <= l < k && 0 <= j < |h.blocks| && h.blocks[j].addr == h.free[l] ==> !FreeWith(h.blocks, j, n)
  }

  /** Blocks lo to hi - 1 are replaced. */
  ghost predicate Replaces(bs: seq<Block>, bs': seq<Block>, lo: int, hi: int, mid: seq<Block>) {
    0 <= lo <= hi <= |bs| && bs' == bs[..lo] + mid + bs[hi..]
  }

  lemma {:induction false} FitPlace(bs: seq<Block>, free: seq<int>, n: int) returns (k: int)
    requires FirstFit(bs, free, n).Some?
    ensures 0 <= k < |free| && free[k] == FirstFit(bs, free, n).value && SizeAt(bs, free[k]) >= n
    ensures forall l :: 0 <= l < k ==> SizeAt(bs, free[l]) < n
  {
    if SizeAt(bs, free[0]) >= n {
      k := 0;
    } else {
      var j := FitPlace(bs, free[1..], n);
      k := j + 1;
      assert forall l :: 0 < l < k ==> free[l] == free[1..][l - 1];
    }
  }

  lemma FitFirst(h: Heap, n: int)
    requires Inv(h) && n > 0 && FirstFit(h.blocks, h.free, n).Some?
    ensures var a := FirstFit(h.blocks, h.free, n).value;
            var i := Index(h.blocks, a);
            0 <= i < |h.blocks| - 1 && h.blocks[i].addr == a && a in h.free && FirstOnList(h, i, n)
  {
    hide FirstFit, FreeBytes;
    var k := FitPlace(h.blocks, h.free, n);
    assert h.free[k] in Elements(h.free);
    FreeListed(h, h.free[k]);
    forall l, j | 0 <= l < k && 0 <= j < |h.blocks| && h.blocks[j].addr == h.free[l]
      ensures !FreeWith(h.blocks, j, n)
    {
      IndexOf(h.blocks, j);
    }
  }

  /** Allocation fails if and only if the request is not below the free bytes, or no free block has
      room. Otherwise the first block with room on the free list is handed out: cut to size with the
      rest at the front of the list, if the rest can hold a header and twelve bytes, and whole if not. */
  lemma AllocatedExactly(h: Heap, request: int, n: int)
    requires Inv(h) && 0 <= request <= ADDRESS_SPACE - 4 && Rounds(request, n)
    ensures var (h', r) := Alloc(h, request);
            (r.None? <==> n >= h.available || forall i :: !FreeWith(h.blocks, i, n)) &&
            (r.None? ==> h' == h) &&
            (r.Some? ==> exists i :: FirstOnList(h, i, n) && r.value == h.blocks[i].addr && HandedOut(h, h', i, n))
  {
    hide Inv, Take, FirstFit, FirstOnList, HandedOut;
    RoundsOnce(request, n);
    FirstFitFinds(h.blocks, h.free, n);
    AllocFails(h, request);
    var (h', r) := Alloc(h, request);
    if r.Some? {
      FitFirst(h, n);
      var i := Index(h.blocks, r.value);
      TakeHandsOut(h, i, n);
      HasRoom(h, i, n);
    }
    if i :| FreeWith(h.blocks, i, n) {
      assert !h.blocks[i].used;
    }
  }

  lemma HasRoom(h: Heap, i: int, n: int)
    requires FirstOnList(h, i, n)
    ensures FreeWith(h.blocks, i, n)
  {
  }

  ghost predicate HandedOut(h: Heap, h': Heap, i: int, n: int) {
    0 <= i < |h.blocks| && h'.start == h.start && h'.pool == h.pool &&
    var b := h.blocks[i];
    if b.size >= n + 24 + 12 then
      Replaces(h.blocks, h'.blocks, i, i + 1, [Block(b.addr, n, true), Block(b.addr + 24 + n, b.size - n - 24, false)]) &&
      h'.available == h.available - n - 24 &&
      h'.free != [] && h'.free[0] == b.addr + 24 + n && LeavesOut(h.free, h'.free[1..], b.addr)
    else
      Replaces(h.blocks, h'.blocks, i, i + 1, [Block(b.addr, b.size, true)]) &&
      h'.available == h.available - b.size && LeavesOut(h.free, h'.free, b.addr)
  }

  lemma TakeHandsOut(h: Heap, i: int, n: int)
    requires 0 <= i < |h.blocks| && h.blocks[i].addr in h.free
    ensures HandedOut(h, Take(h, i, n), i, n)
  {
    hide LeavesOut, Without;
    var b := h.blocks[i];
    WithoutOne(h.free, b.addr);
    assert ([b.addr + HEADER + n] + Without(h.free, b.addr))[1..] == Without(h.free, b.addr);
  }

  /** The free list after the block at i was freed: in front of the rest unless the block before it is
      free, and without the block behind it if that is free. */
  ghost predicate ListAfter(h: Heap, free: seq<int>, i: int, left: bool, right: bool) {
    0 <= i < |h.blocks| - 1 && (left || (free != [] && free[0] == h.blocks[i].addr)) &&
    var rest := if left then free else free[1..];
    if right then LeavesOut(h.free, rest, h.blocks[i + 1].addr) else rest == h.free
  }

  /** A freed block becomes one free block with the free blocks on its two sides, if any. A free block
      before it keeps its place on the list, otherwise the freed one joins at the front; a free block
      behind it leaves the list. */
  lemma FreedExactly(h: Heap, i: int)
    requires Inv(h) && 0 <= i < |h.blocks| - 1 && h.blocks[i].used
    ensures var bs, h' := h.blocks, Free(h, h.blocks[i].addr);
            var left, right := i > 0 && !bs[i - 1].used, !bs[i + 1].used;
            var lo, hi := if left then i - 1 else i, if right then i + 2 else i + 1;
            hi < |bs| && Replaces(bs, h'.blocks, lo, hi, [Block(bs[lo].addr, bs[hi].addr - 24 - bs[lo].addr, false)]) &&
            h'.start == h.start && h'.pool == h.pool && h'.maxUsed == h.maxUsed &&
            h'.available == h.available + bs[i].size + (if left then 24 else 0) + (if right then 24 else 0) &&
            ListAfter(h, h'.free, i, left, right)
  {
    hide Inv, Without, LeavesOut, FreeAt;
    var bs := h.blocks;
    IndexInv(h, i);
    Beside(h, i);
    FreedBlocks(h, i);
    FreedList(h, i);
  }

  /** What lies beside a block: headers follow on payloads, and a free block is followed by a used one. */
  lemma Beside(h: Heap, i: int)
    requires Inv(h) && 0 <= i < |h.blocks| - 1
    ensures h.blocks[i + 1].addr == h.blocks[i].addr + 24 + h.blocks[i].size
    ensures !h.blocks[i + 1].used ==>
              i + 2 < |h.blocks| && h.blocks[i + 2].addr == h.blocks[i + 1].addr + 24 + h.blocks[i + 1].size
    ensures FreeAfter(h.blocks, i) <==> !h.blocks[i + 1].used
  {
    TakeFacts(h, i);
  }

  lemma FreedBlocks(h: Heap, i: int)
    requires 0 <= i < |h.blocks| - 1
    requires h.blocks[i + 1].addr == h.blocks[i].addr + 24 + h.blocks[i].size
    requires !h.blocks[i + 1].used ==>
               i + 2 < |h.blocks| && h.blocks[i + 2].addr == h.blocks[i + 1].addr + 24 + h.blocks[i + 1].size
    ensures var bs, h' := h.blocks, FreeAt(h, i);
            var left, right := i > 0 && !bs[i - 1].used, !bs[i + 1].used;
            var lo, hi := if left then i - 1 else i, if right then i + 2 else i + 1;
            hi < |bs| && Replaces(bs, h'.blocks, lo, hi, [Block(bs[lo].addr, bs[hi].addr - 24 - bs[lo].addr, false)]) &&
            h'.start == h.start && h'.pool == h.pool && h'.maxUsed == h.maxUsed &&
            h'.available == h.available + bs[i].size + (if left then 24 else 0) + (if right then 24 else 0)
  {
    hide Without;
  }

  lemma FreedList(h: Heap, i: int)
    requires Inv(h) && 0 <= i < |h.blocks| - 1
    ensures ListAfter(h, FreeAt(h, i).free, i, i > 0 && !h.blocks[i - 1].used, !h.blocks[i + 1].used)
  {
    hide Inv, Without, LeavesOut, Splice;
    if !h.blocks[i + 1].used {
      OnList(h, i + 1);
      WithoutOne(h.free, h.blocks[i + 1].addr);
    }
    var kept := if FreeAfter(h.blocks, i) then Without(h.free, h.blocks[i + 1].addr) else h.free;
    assert ([h.blocks[i].addr] + kept)[1..] == kept;
  }

  lemma IndexInv(h: Heap, i: int)
    requires Inv(h) && 0 <= i < |h.blocks|
    ensures Index(h.blocks, h.blocks[i].addr) == i
    ensures h.blocks[|h.blocks| - 1].used
  {
    IndexOf(h.blocks, i);
  }

  lemma OnList(h: Heap, i: int)
    requires Inv(h) && 0 <= i < |h.blocks| && !h.blocks[i].used
    ensures h.blocks[i].addr in h.free
  {
    Listed(h, i);
  }

  /** The block at i grows into the free block behind it. */
  predicate GrowsInPlace(bs: seq<Block>, i: int, n: int)
    requires 0 <= i < |bs| - 1
  {
    n > bs[i].size && !bs[i + 1].used && bs[i + 1].size + bs[i].size > n + 12
  }

  /** The block at i and a free block behind it are cut anew: n bytes stay, the rest is one free block
      at the front of the list. */
  ghost predicate CutAnew(h: Heap, h': Heap, i: int, n: int) {
    0 <= i < |h.blocks| - 1 && h'.start == h.start && h'.pool == h.pool &&
    var bs := h.blocks;
    var hi := if !bs[i + 1].used then i + 2 else i + 1;
    hi < |bs| &&
    Replaces(bs, h'.blocks, i, hi,
             [Block(bs[i].addr, n, true), Block(bs[i].addr + 24 + n, bs[hi].addr - bs[i].addr - 48 - n, false)]) &&
    h'.available == h.available + bs[i].size - n - (if hi == i + 2 then 0 else 24) &&
    h'.free != [] && h'.free[0] == bs[i].addr + 24 + n &&
    if hi == i + 2 then LeavesOut(h.free, h'.free[1..], bs[i + 1].addr) else h'.free[1..] == h.free
  }

  /** Reallocation of the block at i. It grows in place if the block behind it is free and large
      enough; otherwise a block is allocated and the old one freed, or, if that fails, the result is
      null and nothing changes. It shrinks in place if the rest can hold a header and more than twelve
      bytes, and stays as it is if not. */
  lemma ReallocatedExactly(h: Heap, i: int, request: int, n: int)
    requires Inv(h) && 0 <= i < |h.blocks| - 1 && h.blocks[i].used
    requires 0 < request <= ADDRESS_SPACE - 16 && Rounds(request, n)
    ensures var a, size := h.blocks[i].addr, h.blocks[i].size;
            var (h', r) := Realloc(h, Some(a), request);
            if GrowsInPlace(h.blocks, i, n) then r == Some(a) && CutAnew(h, h', i, n)
            else if n > size then
              var (h1, b) := Alloc(h, n);
              r == b && h' == if b.None? then h else Free(h1, a)
            else if n + 24 + 12 >= size then r == Some(a) && h' == h
            else r == Some(a) && CutAnew(h, h', i, n)
  {
    hide Inv, Alloc, Free, CutAnew, ResizeAt;
    RoundsOnce(request, n);
    IndexInv(h, i);
    AllocFails(h, n);
    if GrowsInPlace(h.blocks, i, n) || n + 24 + 12 < h.blocks[i].size {
      ResizeCuts(h, i, n, Realloc(h, Some(h.blocks[i].addr), request).0.maxUsed);
    }
    NextFree(h, i);
  }

  lemma NextFree(h: Heap, i: int)
    requires Inv(h) && 0 <= i < |h.blocks| - 1
    ensures FreeAfter(h.blocks, i) <==> !h.blocks[i + 1].used
  {
  }

  lemma ResizeCuts(h: Heap, i: int, n: int, maxUsed: int)
    requires Inv(h) && 0 <= i < |h.blocks| - 1 && h.blocks[i].used
    requires GrowsInPlace(h.blocks, i, n) || n + 24 + 12 < h.blocks[i].size
    ensures var available := h.available - (n - h.blocks[i].size) - if FreeAfter(h.blocks, i) then 0 else 24;
            CutAnew(h, ResizeAt(h, i, n).(available := available, maxUsed := maxUsed), i, n)
  {
    hide Inv, Without, LeavesOut, ResizeAt;
    var bs := h.blocks;
    Beside(h, i);
    CutBlocks(h, i, n);
    if !bs[i + 1].used {
      OnList(h, i + 1);
      WithoutOne(h.free, bs[i + 1].addr);
    }
    CutList(h, i, n);
  }

  lemma CutBlocks(h: Heap, i: int, n: int)
    requires 0 <= i < |h.blocks| - 1
    requires h.blocks[i + 1].addr == h.blocks[i].addr + 24 + h.blocks[i].size
    requires !h.blocks[i + 1].used ==>
               i + 2 < |h.blocks| && h.blocks[i + 2].addr == h.blocks[i + 1].addr + 24 + h.blocks[i + 1].size
    requires h.blocks[i].used
    ensures var bs, h' := h.blocks, ResizeAt(h, i, n);
            var hi := if !bs[i + 1].used then i + 2 else i + 1;
            hi < |bs| && h'.start == h.start && h'.pool == h.pool &&
            Replaces(bs, h'.blocks, i, hi,
                     [Block(bs[i].addr, n, true), Block(bs[i].addr + 24 + n, bs[hi].addr - bs[i].addr - 48 - n, false)])
  {
    hide Without;
  }

  lemma CutList(h: Heap, i: int, n: int)
    requires 0 <= i < |h.blocks| - 1
    ensures var f := ResizeAt(h, i, n).free;
            f != [] && f[0] == h.blocks[i].addr + 24 + n &&
            f[1..] == if FreeAfter(h.blocks, i) then Without(h.free, h.blocks[i + 1].addr) else h.free
  {
    hide Without, Splice;
  }

  /** So a reallocation comes back with null if and only if the block has to grow, cannot do so in
      place, and no free block has room. */
  lemma ReallocFails(h: Heap, i: int, request: int, n: int)
    requires Inv(h) && 0 <= i < |h.blocks| - 1 && h.blocks[i].used
    requires 0 < request <= ADDRESS_SPACE - 16 && Rounds(request, n)
    ensures Realloc(h, Some(h.blocks[i].addr), request).1.None? <==>
            n > h.blocks[i].size && !(!h.blocks[i + 1].used && h.blocks[i + 1].size + h.blocks[i].size > n + 12) &&
            (n >= h.available || forall k :: !FreeWith(h.blocks, k, n))
  {
    hide Inv, Alloc, Free, CutAnew, Realloc, HandedOut, FirstOnList;
    ReallocatedExactly(h, i, request, n);
    assert Rounds(n, n);
    AllocatedExactly(h, n, n);
  }
}
