/** The per-process list of heaps: page-wise growth, release of empty heaps, and reallocation
    across heaps. */
module LwpMem {
  import opened Basics
  import opened Rings
  import opened MemheapModel
  import opened MemheapProofs
  import opened MemheapResults
  import Memheap

  const PAGE: int := 4096              // LWP_MEM_PAGE_SIZE
  const MAX_PAGES: int := 1024         // LWP_MEM_MAX_PAGE_COUNT
  const UNAVAILABLE: int := 2 * HEADER + 3

  // ---------------------------------------------------------------- lists of heaps as values

  function Pages(h: Heap): int {
    h.pool / PAGE
  }

  function TotalPages(hs: seq<Heap>): int {
    if hs == [] then 0 else TotalPages(hs[..|hs| - 1]) + Pages(hs[|hs| - 1])
  }

  /** Pages a growth for a request takes. */
  function PagesFor(size: int): int {
    (size + UNAVAILABLE + PAGE) / PAGE
  }

  ghost predicate Apart(a: Heap, b: Heap) {
    a.start + a.pool <= b.start || b.start + b.pool <= a.start
  }

  /** Every heap is intact and made of whole pages, heaps do not overlap, and the 8-bit page
      counter is the number of pages modulo 256. */
  ghost predicate Shape(hs: seq<Heap>, count: int) {
    (forall i :: 0 <= i < |hs| ==> Inv(hs[i]) && hs[i].pool % PAGE == 0) &&
    (forall i, j :: 0 <= i < j < |hs| ==> Apart(hs[i], hs[j])) &&
    count == TotalPages(hs) % 0x100
  }

  /** Between calls, in addition, every heap on the list is in use. */
  ghost predicate ListInv(hs: seq<Heap>, count: int) {
    Shape(hs, count) && forall i :: 0 <= i < |hs| ==> !IsEmpty(hs[i])
  }

  /** All live blocks of the process. */
  ghost function AllLive(hs: seq<Heap>): set<Block> {
    if hs == [] then {} else AllLive(hs[..|hs| - 1]) + LiveBlocks(hs[|hs| - 1].blocks)
  }

  lemma {:induction false} TotalPagesUpdate(hs: seq<Heap>, i: int, h: Heap)
    requires 0 <= i < |hs|
    ensures TotalPages(hs[i := h]) == TotalPages(hs) - Pages(hs[i]) + Pages(h)
  {
    var n := |hs| - 1;
    if i == n {
      assert hs[i := h][..n] == hs[..n];
    } else {
      assert hs[i := h][..n] == hs[..n][i := h];
      TotalPagesUpdate(hs[..n], i, h);
    }
  }

  lemma {:induction false} TotalPagesDrop(hs: seq<Heap>, i: int)
    requires 0 <= i < |hs|
    ensures TotalPages(hs[..i] + hs[i + 1..]) == TotalPages(hs) - Pages(hs[i])
  {
    var n := |hs| - 1;
    var r := hs[..i] + hs[i + 1..];
    if i == n {
      assert r == hs[..n];
    } else {
      assert r[..|r| - 1] == hs[..n][..i] + hs[..n][i + 1..];
      TotalPagesDrop(hs[..n], i);
    }
  }

  lemma {:induction false} AllLiveAt(hs: seq<Heap>, b: Block)
    ensures b in AllLive(hs) <==> exists i :: 0 <= i < |hs| && b in LiveBlocks(hs[i].blocks)
  {
    if hs != [] {
      var n := |hs| - 1;
      AllLiveAt(hs[..n], b);
      if b in AllLive(hs) && b !in LiveBlocks(hs[n].blocks) {
        var i :| 0 <= i < n && b in LiveBlocks(hs[..n][i].blocks);
        assert b in LiveBlocks(hs[i].blocks);
      }
      if i :| 0 <= i < |hs| && b in LiveBlocks(hs[i].blocks) {
        assert i < n ==> hs[..n][i] == hs[i];
      }
    }
  }

  /** A live block lies inside the heap that holds it. */
  lemma LiveInside(h: Heap, b: Block)
    requires Inv(h) && b in LiveBlocks(h.blocks)
    ensures b.used && h.start <= b.addr && b.addr + HEADER + b.size <= h.start + h.pool - HEADER && b.size >= MIN_ALLOC
    ensures Live(h.blocks, b.addr) && SizeAt(h.blocks, b.addr) == b.size
  {
    LiveUsed(h.blocks, b);
    assert Block(b.addr, b.size, true) in LiveBlocks(h.blocks);
    LiveBlock(h, b.addr);
    LiveDisjointSelf(h, b.addr);
  }

  lemma LiveDisjointSelf(h: Heap, a: int)
    requires Inv(h) && Live(h.blocks, a)
    ensures h.start <= a && a + HEADER + SizeAt(h.blocks, a) <= h.start + h.pool - HEADER
    ensures SizeAt(h.blocks, a) >= MIN_ALLOC
  {
    var bs := h.blocks;
    var i := Index(bs, a);
    Ordered(bs, i, |bs| - 1);
    if i > 0 {
      Ordered(bs, 0, i);
    }
  }

  /** Blocks held by different heaps are different. */
  lemma LiveApart(hs: seq<Heap>, count: int, i: int, j: int, b: Block)
    requires Shape(hs, count) && 0 <= i < |hs| && 0 <= j < |hs| && i != j
    requires b in LiveBlocks(hs[i].blocks)
    ensures b !in LiveBlocks(hs[j].blocks)
  {
    LiveInside(hs[i], b);
    assert if i < j then Apart(hs[i], hs[j]) else Apart(hs[j], hs[i]);
    if b in LiveBlocks(hs[j].blocks) {
      LiveInside(hs[j], b);
      assert false;
    }
  }

  /** Replacing one heap changes the live blocks by that heap's difference. */
  lemma AllLiveUpdate(hs: seq<Heap>, count: int, i: int, h: Heap)
    requires Shape(hs, count) && 0 <= i < |hs|
    ensures AllLive(hs[i := h]) == AllLive(hs) - LiveBlocks(hs[i].blocks) + LiveBlocks(h.blocks)
  {
    hide Shape, LiveBlocks;
    forall b
      ensures b in AllLive(hs[i := h]) <==> b in AllLive(hs) - LiveBlocks(hs[i].blocks) + LiveBlocks(h.blocks)
    {
      AllLiveAt(hs, b);
      AllLiveAt(hs[i := h], b);
      if b in AllLive(hs[i := h]) && b !in LiveBlocks(h.blocks) {
        var j :| 0 <= j < |hs| && b in LiveBlocks(hs[i := h][j].blocks);
        assert j != i && b in LiveBlocks(hs[j].blocks);
        LiveApart(hs, count, j, i, b);
      }
      if b in AllLive(hs) && b !in LiveBlocks(hs[i].blocks) {
        var j :| 0 <= j < |hs| && b in LiveBlocks(hs[j].blocks);
        assert hs[i := h][j] == hs[j];
      }
      if b in LiveBlocks(h.blocks) {
        assert hs[i := h][i] == h;
      }
    }
  }

  /** Dropping a heap without live blocks loses nothing. */
  lemma {:induction false} AllLiveDrop(hs: seq<Heap>, i: int)
    requires 0 <= i < |hs| && LiveBlocks(hs[i].blocks) == {}
    ensures AllLive(hs[..i] + hs[i + 1..]) == AllLive(hs)
  {
    hide LiveBlocks;
    var n := |hs| - 1;
    var r := hs[..i] + hs[i + 1..];
    if i == n {
      assert r == hs[..n];
    } else {
      assert r[..|r| - 1] == hs[..n][..i] + hs[..n][i + 1..];
      AllLiveDrop(hs[..n], i);
    }
  }

  /** With nothing allocated there is no heap left. */
  lemma NothingAllocated(hs: seq<Heap>, count: int)
    requires ListInv(hs, count) && AllLive(hs) == {}
    ensures hs == [] && count == 0
  {
    if hs != [] {
      EmptyExactly(hs[0]);
      assert LiveBlocks(hs[0].blocks) != {};
      var b :| b in LiveBlocks(hs[0].blocks);
      AllLiveAt(hs, b);
      assert false;
    }
  }

  // ---------------------------------------------------------------- growth

  /** A heap made for a request satisfies it: this is why the retry after a growth succeeds. */
  lemma GrowthSuffices(start: int, size: int)
    requires 0 < size && size + UNAVAILABLE + PAGE < ADDRESS_SPACE
    requires 0 < start && start + PagesFor(size) * PAGE <= ADDRESS_SPACE
    ensures var h := Init(start, PagesFor(size) * PAGE);
            Inv(h) && h.pool == PagesFor(size) * PAGE && h.start == start && IsEmpty(h) && Alloc(h, size).1.Some?
  {
    hide Inv, Alloc, Aligned;
    var n := PagesFor(size) * PAGE;
    PagesCover(size);
    InitInv(start, n);
    var h := Init(start, n);
    AllocFails(h, size);
    AlignedBound(size);
    assert !h.blocks[0].used && h.blocks[0].size >= Aligned(size);
  }

  lemma PagesCover(size: int)
    requires 0 < size
    ensures PagesFor(size) * PAGE >= size + UNAVAILABLE + 1 && PagesFor(size) * PAGE % 4 == 0 && PagesFor(size) > 0
    ensures PagesFor(size) * PAGE >= PAGE && PagesFor(size) * PAGE / PAGE == PagesFor(size)
  {
  }

  lemma AlignedBound(size: int)
    requires 0 < size < ADDRESS_SPACE - 4
    ensures Aligned(size) <= size + 3 || Aligned(size) == MIN_ALLOC
  {
  }

  /** The page limit, as tested on the 8-bit counter and as meant for the pages of the heaps. */
  predicate PassesTest(count: int, n: int) {
    count + n <= MAX_PAGES
  }

  predicate WithinLimit(hs: seq<Heap>, n: int) {
    TotalPages(hs) + n <= MAX_PAGES
  }

  /** The test agrees with the limit for every growth if and only if the heaps hold fewer than 256
      pages. */
  lemma LimitExactly(hs: seq<Heap>, count: int)
    requires Shape(hs, count)
    ensures (forall n :: 0 < n ==> (PassesTest(count, n) <==> WithinLimit(hs, n))) <==> TotalPages(hs) < 0x100
  {
    TotalPagesPositive(hs, count);
    if TotalPages(hs) >= 0x100 {
      var n := MAX_PAGES - count;
      assert PassesTest(count, n) && !WithinLimit(hs, n);
    }
  }

  lemma {:induction false} TotalPagesPositive(hs: seq<Heap>, count: int)
    requires Shape(hs, count)
    ensures 0 <= TotalPages(hs)
  {
    if hs != [] {
      var n := |hs| - 1;
      assert Inv(hs[n]);
      TotalPagesPositive(hs[..n], TotalPages(hs[..n]) % 0x100);
    }
  }

  /** The first request of a process may take the whole limit; the counter is then 0 again, and a
      further page is not refused. */
  lemma LimitExceeded(start: int)
    requires 0 < start && start + MAX_PAGES * PAGE <= ADDRESS_SPACE
    ensures var size := MAX_PAGES * PAGE - UNAVAILABLE - 1;
            var h := Alloc(Init(start, PagesFor(size) * PAGE), size).0;
            PassesTest(0, PagesFor(size)) && ListInv([h], 0) && PassesTest(0, 1) && !WithinLimit([h], 1)
  {
    hide Inv, Alloc, IsEmpty;
    var size := MAX_PAGES * PAGE - UNAVAILABLE - 1;
    assert PagesFor(size) == MAX_PAGES;
    GrowthSuffices(start, size);
    var h := Init(start, MAX_PAGES * PAGE);
    assert Shape([h], 0) by { ShapeAppend([], 0, h, MAX_PAGES); }
    AllocInList([h], 0, 0, size);
    assert [h][0 := Alloc(h, size).0] == [Alloc(h, size).0];
    assert TotalPages([Alloc(h, size).0]) == MAX_PAGES by {
      assert [Alloc(h, size).0][..0] == [];
    }
  }

  // ---------------------------------------------------------------- the process's memory

  /** Where the page allocator may place n bytes: in the address space, clear of every heap. */
  ghost predicate FreshChunk(hs: seq<Heap>, start: int, n: int) {
    0 < start && start + n <= ADDRESS_SPACE &&
    forall i :: 0 <= i < |hs| ==> hs[i].start + hs[i].pool <= start || start + n <= hs[i].start
  }

  /** No heap has room, and no new one comes: the page counter is at its limit, or there is no memory. */
  ghost predicate Refused(hs: seq<Heap>, count: int, size: int, chunk: Option<int>)
    requires 0 <= size < ADDRESS_SPACE
  {
    size == 0 ||
    ((forall i :: 0 <= i < |hs| ==> Alloc(hs[i], size).1.None?) && (count + PagesFor(size) > MAX_PAGES || chunk.None?))
  }

  /** The block is freed in its heap, and a heap that becomes empty leaves the list. */
  ghost predicate Vacated(before: seq<Heap>, after: seq<Heap>, a: int) {
    exists k :: FreedAt(before, after, a, k)
  }

  /** A block of the new size is obtained as any request is, and then the old one freed. */
  ghost predicate MovedAway(before: seq<Heap>, after: seq<Heap>, a: int, size: int, addr: int, chunk: Option<int>)
    requires 0 <= size < ADDRESS_SPACE
  {
    exists middle :: GotBlock(before, middle, size, addr, chunk) && Vacated(middle, after, a)
  }

  ghost predicate GotBlock(before: seq<Heap>, after: seq<Heap>, size: int, addr: int, chunk: Option<int>)
    requires 0 <= size < ADDRESS_SPACE
  {
    Served(before, after, size, addr) || (chunk.Some? && ServedByNew(before, after, size, addr, chunk.value))
  }

  lemma MovedThrough(before: seq<Heap>, middle: seq<Heap>, after: seq<Heap>, a: int, size: int, addr: int,
                     chunk: Option<int>)
    requires 0 <= size < ADDRESS_SPACE && GotBlock(before, middle, size, addr, chunk) && Vacated(middle, after, a)
    ensures MovedAway(before, after, a, size, addr, chunk)
  {
  }

  /** The first heap on the list that can serve the request does. */
  ghost predicate Served(before: seq<Heap>, after: seq<Heap>, size: int, addr: int)
    requires 0 <= size < ADDRESS_SPACE
  {
    exists k :: ServedAt(before, after, size, addr, k)
  }

  ghost predicate ServedAt(before: seq<Heap>, after: seq<Heap>, size: int, addr: int, k: int)
    requires 0 <= size < ADDRESS_SPACE
  {
    0 <= k < |before| && (forall i :: 0 <= i < k ==> Alloc(before[i], size).1.None?) &&
    var (h, r) := Alloc(before[k], size);
    r.Some? && after == before[k := h] && addr == r.value + HEADER
  }

  /** None of the heaps can, and the one made for the request does. */
  ghost predicate ServedByNew(before: seq<Heap>, after: seq<Heap>, size: int, addr: int, start: int)
    requires 0 <= size < ADDRESS_SPACE
  {
    (forall i :: 0 <= i < |before| ==> Alloc(before[i], size).1.None?) &&
    Served(before + [Init(start, PagesFor(size) * PAGE)], after, size, addr)
  }

  /** The pages for a request hold it with its overhead, and with one page less they would not hold
      more than that. */
  lemma PagesExactly(size: int, n: int)
    requires 0 <= size
    ensures n == PagesFor(size) <==> (n - 1) * PAGE <= size + 2 * HEADER + 3 < n * PAGE
  {
  }

  /** The heap that holds the block can give it the new size. */
  predicate KeptInHeap(h: Heap, rmem: int, newsize: int)
    requires 0 <= newsize < ADDRESS_SPACE
  {
    MemheapModel.Realloc(h, Some(rmem - HEADER), newsize).1.Some?
  }

  /** The result of the heap that holds the block, null if it cannot. */
  predicate HeapResult(h: Heap, rmem: int, newsize: int, r: int)
    requires 0 <= newsize < ADDRESS_SPACE
  {
    match MemheapModel.Realloc(h, Some(rmem - HEADER), newsize).1
    case None => r == Memheap.NULL
    case Some(a) => r == a + HEADER && r != Memheap.NULL
  }

  class LwpMem {
    var hlist: seq<Memheap.Memheap>
    var heapCnt: int

    /** The heaps as values. */
    ghost var heaps: seq<Heap>

    /** The objects on the list are distinct and represent `heaps`. */
    ghost predicate Linked()
      reads this, hlist
    {
      |heaps| == |hlist| &&
      (forall i, j :: 0 <= i < j < |hlist| ==> hlist[i] != hlist[j]) &&
      forall i :: 0 <= i < |hlist| ==> hlist[i].Valid() && hlist[i].heap == heaps[i]
    }

    ghost predicate Valid()
      reads this, hlist
    {
      Linked() && ListInv(heaps, heapCnt)
    }

    /** rt_lwp_mem_init. */
    constructor ()
      ensures Valid() && heaps == []
    {
      hlist := [];
      heapCnt := 0;
      heaps := [];
    }

    /** rt_lwp_malloc_page: `chunk` is what the kernel's allocator returns for the pages. */
    method MallocPage(npages: int, chunk: Option<int>) returns (ok: bool)
      requires Linked() && ListInv(heaps, heapCnt) && npages > 0
      requires chunk.Some? ==> FreshChunk(heaps, chunk.value, npages * PAGE)
      modifies this
      ensures ok == (PassesTest(old(heapCnt), npages) && chunk.Some?)
      ensures TotalPages(old(heaps)) < 0x100 ==> ok == (WithinLimit(old(heaps), npages) && chunk.Some?)
      ensures Linked() && Shape(heaps, heapCnt)
      ensures !ok ==> hlist == old(hlist) && heaps == old(heaps) && heapCnt == old(heapCnt)
      ensures ok ==> |hlist| == |old(hlist)| + 1 && hlist[..|old(hlist)|] == old(hlist) && fresh(hlist[|old(hlist)|])
      ensures ok ==> heaps == old(heaps) + [Init(chunk.value, npages * PAGE)]
    {
      hide Inv, Shape, FreshChunk, IsEmpty;
      ok := false;
      LimitExactly(heaps, heapCnt);
      if heapCnt + npages <= MAX_PAGES {
        if chunk.Some? {
          ChunkFits(heaps, chunk.value, npages);
          var heap := new Memheap.Memheap(chunk.value, npages * PAGE, map[]);
          hlist := hlist + [heap];
          ShapeAppend(heaps, heapCnt, heap.heap, npages);
          heaps := heaps + [heap.heap];
          heapCnt := (heapCnt + npages) % 0x100;
          ok := true;
        }
      }
    }

    /** rt_lwp_memheap_alloc on the k-th heap. */
    method AllocIn(k: int, size: int) returns (addr: int)
      requires Linked() && Shape(heaps, heapCnt) && 0 <= k < |hlist| && 0 <= size < ADDRESS_SPACE
      modifies this`heaps, hlist[k]
      ensures Linked() && Shape(heaps, heapCnt)
      ensures addr == Memheap.NULL <==> Alloc(old(heaps)[k], size).1.None?
      ensures addr == Memheap.NULL ==> heaps == old(heaps)
      ensures addr != Memheap.NULL ==> Obtained(old(heaps), heaps, addr - HEADER, size)
      ensures addr != Memheap.NULL ==> |heaps| == |old(heaps)| && heaps == old(heaps)[k := heaps[k]] && !IsEmpty(heaps[k])
      ensures addr != Memheap.NULL ==>
                var (h, r) := Alloc(old(heaps)[k], size); heaps[k] == h && addr == r.value + HEADER
      ensures SamePools(old(heaps), heaps)
      ensures Memheap.KeepsLive(old(heaps)[k].blocks, old(hlist[k].mem), hlist[k].mem, Memheap.NULL)
      ensures addr == Memheap.NULL ==> hlist[k].mem == old(hlist[k].mem)
    {
      hide Inv, Shape, AllLive, LiveBlocks, IsEmpty, Alloc, Memheap.KeepsLive;
      ghost var before := heaps;
      ShapeAt(heaps, heapCnt, k);
      AllocFails(heaps[k], size);
      addr := hlist[k].Alloc(size);
      heaps := heaps[k := hlist[k].heap];
      if addr != Memheap.NULL {
        AllocInList(before, heapCnt, k, size);
      } else {
        assert heaps == before;
      }
    }

    /** rt_lwp_mem_malloc: first fit over the heaps, one growth, one retry. `retry` tells the
        retry apart: the heap at the end of the list was just made for this request, so the search
        succeeds and the recursion goes no deeper. */
    method Malloc(size: int, chunk: Option<int>, ghost retry: bool) returns (addr: int)
      requires Linked() && Shape(heaps, heapCnt)
      requires 0 <= size && size + UNAVAILABLE + PAGE < ADDRESS_SPACE
      requires forall i :: 0 <= i < |heaps| - (if retry then 1 else 0) ==> !IsEmpty(heaps[i])
      requires retry ==> |heaps| > 0 && size > 0 && Alloc(heaps[|heaps| - 1], size).1.Some? &&
                         forall i :: 0 <= i < |heaps| - 1 ==> Alloc(heaps[i], size).1.None?
      requires !retry && chunk.Some? ==> FreshChunk(heaps, chunk.value, PagesFor(size) * PAGE)
      modifies this, hlist
      ensures Valid()
      ensures |old(hlist)| <= |hlist| && hlist[..|old(hlist)|] == old(hlist)
      ensures forall i :: |old(hlist)| <= i < |hlist| ==> fresh(hlist[i])
      ensures addr == Memheap.NULL ==> heaps == old(heaps) && heapCnt == old(heapCnt)
      ensures SamePools(old(heaps), heaps)
      ensures addr != Memheap.NULL ==> Obtained(old(heaps), heaps, addr - HEADER, size)
      ensures retry ==> addr != Memheap.NULL
      ensures addr != Memheap.NULL ==>
                GotBlock(old(heaps), heaps, size, addr, if retry then None else chunk)
      ensures !retry ==> (addr == Memheap.NULL <==> Refused(old(heaps), old(heapCnt), size, chunk))
      ensures forall i :: 0 <= i < |old(hlist)| ==>
                            Memheap.KeepsLive(old(heaps)[i].blocks, old(hlist[i].mem), old(hlist)[i].mem, Memheap.NULL)
      decreases if retry then 0 else 1, 2
    {
      hide Inv, Shape, AllLive, IsEmpty, Alloc, Memheap.KeepsLive, Obtained, Init, FreshChunk, PagesFor;
      if size == 0 {
        KeepAll();
        return Memheap.NULL;
      }
      addr := Search(size);
      if addr == Memheap.NULL {
        addr := GrowAndRetry(size, chunk);
      }
    }

    ghost method KeepAll()
      requires |heaps| == |hlist|
      ensures forall i :: 0 <= i < |hlist| ==>
                            Memheap.KeepsLive(heaps[i].blocks, hlist[i].mem, hlist[i].mem, Memheap.NULL)
    {
      hide Memheap.KeepsLive;
      forall i | 0 <= i < |hlist|
        ensures Memheap.KeepsLive(heaps[i].blocks, hlist[i].mem, hlist[i].mem, Memheap.NULL)
      {
        Memheap.KeepsSame(heaps[i].blocks, hlist[i].mem, Memheap.NULL);
      }
    }

    /** The end of rt_lwp_mem_malloc: new pages, and once more from the start. */
    method GrowAndRetry(size: int, chunk: Option<int>) returns (addr: int)
      requires Linked() && ListInv(heaps, heapCnt)
      requires 0 < size && size + UNAVAILABLE + PAGE < ADDRESS_SPACE
      requires forall i :: 0 <= i < |heaps| ==> Alloc(heaps[i], size).1.None?
      requires chunk.Some? ==> FreshChunk(heaps, chunk.value, PagesFor(size) * PAGE)
      modifies this, hlist
      ensures Valid()
      ensures |old(hlist)| <= |hlist| && hlist[..|old(hlist)|] == old(hlist)
      ensures forall i :: |old(hlist)| <= i < |hlist| ==> fresh(hlist[i])
      ensures addr == Memheap.NULL ==> heaps == old(heaps) && heapCnt == old(heapCnt)
      ensures SamePools(old(heaps), heaps)
      ensures addr != Memheap.NULL ==> Obtained(old(heaps), heaps, addr - HEADER, size)
      ensures addr == Memheap.NULL <==> old(heapCnt) + PagesFor(size) > MAX_PAGES || chunk.None?
      ensures addr != Memheap.NULL ==> ServedByNew(old(heaps), heaps, size, addr, chunk.value)
      ensures forall i :: 0 <= i < |old(hlist)| ==>
                            Memheap.KeepsLive(old(heaps)[i].blocks, old(hlist[i].mem), old(hlist)[i].mem, Memheap.NULL)
      decreases 1, 1
    {
      hide Inv, Shape, AllLive, IsEmpty, Alloc, Memheap.KeepsLive, Obtained, Init, FreshChunk, PagesFor;
      addr := Memheap.NULL;
      var npages := PagesFor(size);
      PagesCover(size);
      KeepAll();
      ghost var before, list := heaps, hlist;
      var ok := MallocPage(npages, chunk);
      if ok {
        addr := Retry(size, chunk.value, before);
        assert forall i :: 0 <= i < |list| ==> list[i] == hlist[i];
      }
    }

    /** The second round, with a heap for the request at the end of the list. */
    method Retry(size: int, start: int, ghost before: seq<Heap>) returns (addr: int)
      requires Linked() && Shape(heaps, heapCnt)
      requires 0 < size && size + UNAVAILABLE + PAGE < ADDRESS_SPACE
      requires heaps == before + [Init(start, PagesFor(size) * PAGE)]
      requires FreshChunk(before, start, PagesFor(size) * PAGE)
      requires forall i :: 0 <= i < |before| ==> !IsEmpty(before[i]) && Alloc(before[i], size).1.None?
      modifies this, hlist
      ensures Valid() && addr != Memheap.NULL
      ensures |old(hlist)| <= |hlist| && hlist[..|old(hlist)|] == old(hlist)
      ensures forall i :: |old(hlist)| <= i < |hlist| ==> fresh(hlist[i])
      ensures SamePools(before, heaps) && Obtained(before, heaps, addr - HEADER, size)
      ensures Served(old(heaps), heaps, size, addr)
      ensures forall i :: 0 <= i < |before| ==>
                            Memheap.KeepsLive(before[i].blocks, old(hlist[i].mem), old(hlist)[i].mem, Memheap.NULL)
      decreases 1, 0
    {
      hide Inv, Shape, AllLive, IsEmpty, Alloc, Memheap.KeepsLive, Obtained, Init, FreshChunk, PagesFor;
      GrowthReady(before, start, size);
      assert forall i :: 0 <= i < |before| ==> heaps[i] == before[i];
      addr := Malloc(size, None, true);
      ObtainedAfterGrowth(before, heaps, start, size, addr - HEADER);
    }

    /** The search of rt_lwp_mem_malloc over the heaps in list order. */
    method Search(size: int) returns (addr: int)
      requires Linked() && Shape(heaps, heapCnt) && 0 <= size < ADDRESS_SPACE
      modifies this`heaps, hlist
      ensures Linked() && Shape(heaps, heapCnt)
      ensures addr == Memheap.NULL <==> forall i :: 0 <= i < |old(heaps)| ==> Alloc(old(heaps)[i], size).1.None?
      ensures addr == Memheap.NULL ==> heaps == old(heaps)
      ensures addr == Memheap.NULL ==> forall i :: 0 <= i < |hlist| ==> hlist[i].mem == old(hlist[i].mem)
      ensures addr != Memheap.NULL ==> Obtained(old(heaps), heaps, addr - HEADER, size)
      ensures addr != Memheap.NULL ==>
                exists k :: ServedAt(old(heaps), heaps, size, addr, k) && !IsEmpty(heaps[k])
      ensures SamePools(old(heaps), heaps)
      ensures forall i :: 0 <= i < |hlist| ==>
                            Memheap.KeepsLive(old(heaps)[i].blocks, old(hlist[i].mem), hlist[i].mem, Memheap.NULL)
    {
      hide Inv, Shape, AllLive, IsEmpty, Alloc, Memheap.KeepsLive, Obtained;
      forall i | 0 <= i < |hlist|
        ensures Memheap.KeepsLive(heaps[i].blocks, hlist[i].mem, hlist[i].mem, Memheap.NULL)
      {
        Memheap.KeepsSame(heaps[i].blocks, hlist[i].mem, Memheap.NULL);
      }
      var k := 0;
      while k < |hlist|
        invariant 0 <= k <= |hlist|
        invariant Linked() && heaps == old(heaps)
        invariant forall i :: 0 <= i < k ==> Alloc(heaps[i], size).1.None?
        invariant forall i :: 0 <= i < |hlist| ==> hlist[i].mem == old(hlist[i].mem)
      {
        addr := AllocIn(k, size);
        if addr != Memheap.NULL {
          assert ServedAt(old(heaps), heaps, size, addr, k);
          return;
        }
        k := k + 1;
      }
      addr := Memheap.NULL;
    }

    /** The heap a header belongs to, which its pool pointer names. */
    method PoolOf(header: int) returns (k: int)
      requires Linked() && Shape(heaps, heapCnt) && Holds(heaps, header)
      ensures 0 <= k < |hlist| && Live(heaps[k].blocks, header)
    {
      hide Inv, Live;
      ghost var j :| 0 <= j < |heaps| && Live(heaps[j].blocks, header);
      HeaderPlace(heaps, heapCnt, j, header);
      k := 0;
      while k < |hlist| && !(hlist[k].start <= header < hlist[k].start + hlist[k].poolSize)
        invariant 0 <= k <= j
      {
        k := k + 1;
      }
      OnlyPlace(heaps, heapCnt, j, k, header);
    }

    /** rt_lwp_free_page. */
    method FreePage(k: int)
      requires Linked() && Shape(heaps, heapCnt) && 0 <= k < |hlist| && IsEmpty(heaps[k])
      requires forall i :: 0 <= i < |heaps| && i != k ==> !IsEmpty(heaps[i])
      modifies this
      ensures Valid() && AllLive(heaps) == AllLive(old(heaps))
      ensures hlist == old(hlist)[..k] + old(hlist)[k + 1..] && heaps == old(heaps)[..k] + old(heaps)[k + 1..]
    {
      hide Inv, Shape, AllLive, IsEmpty;
      ListDrop(heaps, heapCnt, k);
      var npages := hlist[k].poolSize / PAGE;
      heapCnt := (heapCnt - npages) % 0x100;
      hlist := hlist[..k] + hlist[k + 1..];
      heaps := heaps[..k] + heaps[k + 1..];
    }

    /** rt_lwp_mem_free: the block is freed, and a heap left empty is given back. */
    method Free(addr: int) returns (ghost k: int)
      requires Valid() && (addr == Memheap.NULL || Holds(heaps, addr - HEADER))
      modifies this, hlist
      ensures Valid()
      ensures addr == Memheap.NULL ==> heaps == old(heaps)
      ensures addr != Memheap.NULL ==> Released(old(heaps), heaps, addr - HEADER)
      ensures addr != Memheap.NULL ==>
                FreedAt(old(heaps), heaps, addr - HEADER, k) && |old(hlist)| == |old(heaps)| &&
                hlist == if IsEmpty(MemheapModel.Free(old(heaps)[k], addr - HEADER))
                         then old(hlist)[..k] + old(hlist)[k + 1..] else old(hlist)
      ensures forall i :: 0 <= i < |old(hlist)| ==> old(hlist)[i].mem == old(hlist[i].mem)
    {
      hide Inv, Shape, AllLive, IsEmpty, Live, Released, Holds, MemheapModel.Free;
      k := 0;
      if addr != Memheap.NULL {
        var pool := PoolOf(addr - HEADER);
        k := pool;
        var empty := FreeIn(pool, addr);
        if empty {
          GiveBack(pool, old(heaps), addr - HEADER);
        } else {
          AllInUse(heaps, heapCnt);
        }
      }
    }

    /** rt_lwp_free_page after the last block of a heap is gone. */
    method GiveBack(k: int, ghost before: seq<Heap>, ghost a: int)
      requires Linked() && Shape(heaps, heapCnt) && 0 <= k < |hlist| && IsEmpty(heaps[k])
      requires forall i :: 0 <= i < |heaps| && i != k ==> !IsEmpty(heaps[i])
      requires Released(before, heaps, a) && |before| == |heaps| && heaps == before[k := heaps[k]]
      modifies this
      ensures Valid() && Released(before, heaps, a)
      ensures hlist == old(hlist)[..k] + old(hlist)[k + 1..] && heaps == before[..k] + before[k + 1..]
    {
      hide Inv, Shape, AllLive, IsEmpty, Released;
      ghost var middle := heaps;
      assert middle[..k] + middle[k + 1..] == before[..k] + before[k + 1..];
      FreePage(k);
      ReleasedSame(before, middle, heaps, a);
    }

    /** rt_lwp_memheap_free on the k-th heap, and whether the heap is now empty. */
    method FreeIn(k: int, addr: int) returns (empty: bool)
      requires Valid() && 0 <= k < |hlist| && addr != Memheap.NULL && Live(heaps[k].blocks, addr - HEADER)
      modifies this`heaps, hlist[k]
      ensures Linked() && Shape(heaps, heapCnt) && |heaps| == |old(heaps)|
      ensures forall i :: 0 <= i < |heaps| && i != k ==> !IsEmpty(heaps[i])
      ensures empty == IsEmpty(heaps[k])
      ensures Released(old(heaps), heaps, addr - HEADER)
      ensures heaps == old(heaps)[k := MemheapModel.Free(old(heaps)[k], addr - HEADER)]
      ensures hlist[k].mem == old(hlist[k].mem)
    {
      hide Inv, Shape, AllLive, IsEmpty, Live, Released, MemheapModel.Free, LiveBlocks;
      ghost var before := heaps;
      FreeInList(heaps, heapCnt, k, addr - HEADER);
      hlist[k].Free(addr);
      heaps := heaps[k := hlist[k].heap];
      assert forall i :: 0 <= i < |heaps| && i != k ==> heaps[i] == before[i];
      empty := hlist[k].HeapIsEmpty();
      EmptyAt(heaps, heapCnt, k);
    }

    /** rt_memcpy between the payloads of two heaps, which may be the same one. */
    method CopyBetween(src: Memheap.Memheap, dst: Memheap.Memheap, from: int, to: int, n: int)
      requires 0 <= n && (to + n <= from || from + n <= to)
      modifies dst`mem
      ensures Memheap.Moved(old(src.mem), dst.mem, from, to, n)
      ensures SameElsewhere(old(dst.mem), dst.mem, to, n)
    {
      var c := 0;
      while c < n
        invariant 0 <= c <= n
        invariant Memheap.Moved(old(src.mem), dst.mem, from, to, c)
        invariant SameElsewhere(old(dst.mem), dst.mem, to, c)
        invariant src != dst ==> src.mem == old(src.mem)
      {
        if from + c in src.mem {
          dst.mem := dst.mem[to + c := src.mem[from + c]];
        } else {
          dst.mem := dst.mem - {to + c};
        }
        c := c + 1;
      }
    }

    /** rt_lwp_mem_realloc within the heap that holds the block. */
    method ReallocIn(k: int, rmem: int, newsize: int) returns (r: int)
      requires Valid() && 0 <= k < |hlist| && rmem != Memheap.NULL && Live(heaps[k].blocks, rmem - HEADER)
      requires 0 < newsize <= ADDRESS_SPACE - 16
      modifies this`heaps, hlist[k]
      ensures Valid()
      ensures HeapResult(old(heaps)[k], rmem, newsize, r)
      ensures heaps == old(heaps)[k := MemheapModel.Realloc(old(heaps)[k], Some(rmem - HEADER), newsize).0]
      ensures r == Memheap.NULL ==> heaps == old(heaps) && hlist[k].mem == old(hlist[k].mem)
      ensures r != Memheap.NULL ==> Replaced(old(heaps), heaps, rmem - HEADER, r - HEADER, newsize)
      ensures r != Memheap.NULL ==> Live(heaps[k].blocks, r - HEADER)
      ensures r != Memheap.NULL ==>
                Memheap.Moved(old(hlist[k].mem), hlist[k].mem, rmem, r,
                              Min(SizeAt(old(heaps)[k].blocks, rmem - HEADER), Aligned(newsize)))
      ensures Memheap.KeepsLive(old(heaps)[k].blocks, old(hlist[k].mem), hlist[k].mem, rmem - HEADER)
    {
      hide Inv, Shape, AllLive, IsEmpty, Live, Replaced, MemheapModel.Realloc, LiveBlocks, Memheap.KeepsLive, Memheap.Moved;
      ghost var before := heaps;
      ReallocInList(heaps, heapCnt, k, rmem - HEADER, newsize);
      r := hlist[k].Realloc(rmem, newsize);
      heaps := heaps[k := hlist[k].heap];
      assert forall i :: 0 <= i < |heaps| && i != k ==> heaps[i] == before[i];
      if r == Memheap.NULL {
        assert heaps == before;
      }
    }

    /** rt_lwp_mem_realloc: resized in its heap, or moved to another one with its bytes. i and j are
        the positions of the heaps that held the block and that hold it now. The bytes of all other
        live blocks stay. */
    method Realloc(rmem: int, newsize: int, chunk: Option<int>) returns (r: int, ghost i: int, ghost j: int)
      requires Valid() && (rmem == Memheap.NULL || Holds(heaps, rmem - HEADER))
      requires 0 <= newsize && newsize + UNAVAILABLE + PAGE < ADDRESS_SPACE
      requires chunk.Some? ==> FreshChunk(heaps, chunk.value, PagesFor(newsize) * PAGE)
      modifies this, hlist
      ensures Valid()
      ensures r == Memheap.NULL && newsize != 0 ==> heaps == old(heaps)
      ensures rmem == Memheap.NULL ==> (r == Memheap.NULL <==> Refused(old(heaps), old(heapCnt), newsize, chunk))
      ensures rmem != Memheap.NULL && newsize != 0 ==>
                0 <= i < |old(heaps)| && Live(old(heaps)[i].blocks, rmem - HEADER) &&
                if KeptInHeap(old(heaps)[i], rmem, newsize) then
                  HeapResult(old(heaps)[i], rmem, newsize, r) &&
                  heaps == old(heaps)[i := MemheapModel.Realloc(old(heaps)[i], Some(rmem - HEADER), newsize).0]
                else
                  (r == Memheap.NULL <==> Refused(old(heaps), old(heapCnt), newsize, chunk)) &&
                  (r != Memheap.NULL ==> MovedAway(old(heaps), heaps, rmem - HEADER, newsize, r, chunk))
      ensures rmem == Memheap.NULL && r != Memheap.NULL ==> Obtained(old(heaps), heaps, r - HEADER, newsize)
      ensures rmem != Memheap.NULL && newsize == 0 ==> r == Memheap.NULL && Released(old(heaps), heaps, rmem - HEADER)
      ensures rmem != Memheap.NULL && r != Memheap.NULL ==>
                Replaced(old(heaps), heaps, rmem - HEADER, r - HEADER, newsize) &&
                |old(heaps)| == |old(hlist)| && 0 <= i < |old(hlist)| && Live(old(heaps)[i].blocks, rmem - HEADER) &&
                0 <= j < |hlist| && Live(heaps[j].blocks, r - HEADER) &&
                Memheap.Moved(old(hlist[i].mem), hlist[j].mem, rmem, r,
                              Min(SizeAt(old(heaps)[i].blocks, rmem - HEADER), newsize))
      ensures |old(heaps)| == |old(hlist)|
      ensures forall x :: 0 <= x < |old(hlist)| ==>
                            KeepsBut(old(heaps)[x], old(hlist[x].mem), old(hlist)[x].mem, rmem)
    {
      hide Inv, Shape, AllLive, IsEmpty, Live, Replaced, Released, Obtained, Holds, Memheap.Moved, FreshChunk, PagesFor, FreedAt,
        Memheap.Memheap.Valid, Memheap.KeepsLive, SamePools, KeepsBut, Refused, MovedAway, MemheapModel.Realloc;
      i, j := 0, 0;
      AllInv(heaps, heapCnt);
      if rmem == Memheap.NULL {
        r := Malloc(newsize, chunk, false);
        WeakenAll(old(heaps), rmem);
      } else if newsize == 0 {
        ghost var k := Free(rmem);
        r := Memheap.NULL;
        SameAll(old(heaps), rmem);
      } else {
        SameAll(old(heaps), rmem);
        var pool := PoolOf(rmem - HEADER);
        i, j := pool, pool;
        r := ReallocIn(pool, rmem, newsize);
        KeepsButOther(old(heaps)[pool], old(hlist[pool].mem), hlist[pool].mem, rmem);
        if r == Memheap.NULL {
          r, j := MoveAcross(pool, rmem, newsize, chunk);
        } else {
          MovedLess(old(hlist[pool].mem), hlist[pool].mem, rmem, r, SizeAt(old(heaps)[pool].blocks, rmem - HEADER), newsize);
        }
      }
    }

    /** The way through another heap: allocate, copy, free. */
    method MoveAcross(k: int, rmem: int, newsize: int, chunk: Option<int>) returns (r: int, ghost j: int)
      requires Valid() && 0 <= k < |hlist| && rmem != Memheap.NULL && Live(heaps[k].blocks, rmem - HEADER)
      requires 0 < newsize && newsize + UNAVAILABLE + PAGE < ADDRESS_SPACE
      requires chunk.Some? ==> FreshChunk(heaps, chunk.value, PagesFor(newsize) * PAGE)
      modifies this, hlist
      ensures Valid()
      ensures r == Memheap.NULL <==> Refused(old(heaps), old(heapCnt), newsize, chunk)
      ensures r != Memheap.NULL ==> MovedAway(old(heaps), heaps, rmem - HEADER, newsize, r, chunk)
      ensures r == Memheap.NULL ==> heaps == old(heaps)
      ensures r != Memheap.NULL ==>
                Replaced(old(heaps), heaps, rmem - HEADER, r - HEADER, newsize) &&
                0 <= j < |hlist| && Live(heaps[j].blocks, r - HEADER) &&
                Memheap.Moved(old(hlist[k].mem), hlist[j].mem, rmem, r,
                              Min(SizeAt(old(heaps)[k].blocks, rmem - HEADER), newsize))
      ensures forall x :: 0 <= x < |old(hlist)| ==>
                            KeepsBut(old(heaps)[x], old(hlist[x].mem), old(hlist)[x].mem, rmem)
    {
      hide Inv, Shape, AllLive, IsEmpty, Live, Replaced, Released, Obtained, Holds, Memheap.Moved, Memheap.KeepsLive,
        Memheap.Keeps, FreshChunk, PagesFor, SamePools, ListInv, Memheap.Memheap.Valid, KeepsBut, Refused, GotBlock,
        Vacated, MovedAway;
      ghost var before := heaps;
      ghost var list := hlist;
      ghost var bytes := seq(|list|, x requires 0 <= x < |list| reads list => list[x].mem);
      AllInv(heaps, heapCnt);
      r := Malloc(newsize, chunk, false);
      WeakenAll(before, rmem);
      j := 0;
      if r != Memheap.NULL {
        assert hlist[..|list|] == list;
        assert forall x :: 0 <= x < |list| ==> hlist[x] == list[x];
        ghost var middle := heaps;
        j := MoveFinish(k, rmem, r, newsize, before, bytes);
        MovedThrough(before, middle, heaps, rmem - HEADER, newsize, r, chunk);
        WeakenAll(before, rmem);
      }
    }

    /** After the allocation: copy the bytes and free the old block. */
    method MoveFinish(k: int, rmem: int, r: int, newsize: int, ghost before: seq<Heap>, ghost bytes: seq<map<int, Byte>>)
        returns (ghost j: int)
      requires Valid() && 0 <= k < |before| <= |hlist| && rmem != Memheap.NULL && Live(before[k].blocks, rmem - HEADER)
      requires |bytes| == |before| && (forall x :: 0 <= x < |before| ==> Inv(before[x])) && SamePools(before, heaps)
      requires 0 < newsize <= ADDRESS_SPACE - 4 && Obtained(before, heaps, r - HEADER, newsize)
      requires forall x :: 0 <= x < |before| ==>
                             Memheap.KeepsLive(before[x].blocks, bytes[x], hlist[x].mem, Memheap.NULL)
      modifies this, hlist
      ensures Valid()
      ensures Replaced(before, heaps, rmem - HEADER, r - HEADER, newsize)
      ensures Vacated(old(heaps), heaps, rmem - HEADER)
      ensures 0 <= j < |hlist| && Live(heaps[j].blocks, r - HEADER)
      ensures Memheap.Moved(bytes[k], hlist[j].mem, rmem, r,
                            Min(SizeAt(before[k].blocks, rmem - HEADER), newsize))
      ensures forall x :: 0 <= x < |before| ==>
                            Memheap.KeepsLive(before[x].blocks, bytes[x], old(hlist)[x].mem, Memheap.NULL)
    {
      hide Inv, Shape, AllLive, IsEmpty, Live, Replaced, Released, Obtained, Holds, Memheap.Moved, Memheap.KeepsLive,
        SamePools, Aligned, MemheapModel.Free, Memheap.Memheap.Valid, ListInv, FreedAt, SizeAt, Memheap.Keeps;
      ListShape(heaps, heapCnt);
      StillThere(before, heaps, heapCnt, k, rmem - HEADER, r - HEADER, newsize);
      ghost var middle, count, list := heaps, heapCnt, hlist;
      var to := MoveCopy(k, rmem, r, newsize, before, bytes);
      HoldsOf(heaps, k, rmem - HEADER);
      ghost var f := Free(rmem);
      FreedIndex(middle, heaps, rmem - HEADER, f);
      OthersStay(middle, heaps, count, f, rmem - HEADER, to, r - HEADER);
      ObtainedReleased(before, middle, heaps, rmem - HEADER, r - HEADER, newsize);
      j := if IsEmpty(MemheapModel.Free(middle[f], rmem - HEADER)) && to > f then to - 1 else to;
      Remaining(list, f, to, IsEmpty(MemheapModel.Free(middle[f], rmem - HEADER)));
    }

    /** The payloads that were live in `before` are as in `bytes`. */
    ghost predicate AllKept(before: seq<Heap>, bytes: seq<map<int, Byte>>)
      reads this`hlist, hlist
    {
      |bytes| == |before| <= |hlist| &&
      forall x :: 0 <= x < |before| ==> Memheap.KeepsLive(before[x].blocks, bytes[x], hlist[x].mem, Memheap.NULL)
    }

    /** The copy, into the block just obtained. */
    method MoveCopy(k: int, rmem: int, r: int, newsize: int, ghost before: seq<Heap>, ghost bytes: seq<map<int, Byte>>)
        returns (to: int)
      requires Valid() && 0 <= k < |before| <= |hlist| && rmem != Memheap.NULL && Live(before[k].blocks, rmem - HEADER)
      requires |bytes| == |before| && (forall x :: 0 <= x < |before| ==> Inv(before[x])) && SamePools(before, heaps)
      requires 0 < newsize <= ADDRESS_SPACE - 4 && Obtained(before, heaps, r - HEADER, newsize)
      requires AllKept(before, bytes)
      modifies hlist
      ensures Valid() && Live(heaps[k].blocks, rmem - HEADER)
      ensures 0 <= to < |hlist| && Live(heaps[to].blocks, r - HEADER)
      ensures Memheap.Moved(bytes[k], hlist[to].mem, rmem, r, CopySize(before[k], rmem, newsize))
      ensures AllKept(before, bytes)
    {
      hide Inv, Shape, AllLive, IsEmpty, Live, Obtained, Holds, Memheap.Moved, Memheap.KeepsLive,
        Memheap.Keeps, SamePools, Aligned, Memheap.Memheap.Valid, SameElsewhere;
      StillThere(before, heaps, heapCnt, k, rmem - HEADER, r - HEADER, newsize);
      LivePlace(before[k], rmem - HEADER);
      ghost var n := Min(SizeAt(before[k].blocks, rmem - HEADER), newsize);
      KeptPrefix(before[k].blocks, bytes[k], hlist[k].mem, rmem - HEADER, n);
      to := CopyBlock(k, rmem, r, newsize);
      MovedVia(bytes[k], old(hlist[k].mem), hlist[to].mem, rmem, r, n);
      if to < |before| {
        CopyKeeps(before, heaps, heapCnt, to, bytes[to], old(hlist[to].mem), hlist[to].mem, r, newsize, n);
      }
    }

    /** The copy of MoveAcross: the smaller of the old and the new size. */
    method CopyBlock(k: int, rmem: int, r: int, newsize: int) returns (to: int)
      requires Valid() && 0 <= k < |hlist| && Live(heaps[k].blocks, rmem - HEADER) && Holds(heaps, r - HEADER)
      requires 0 < newsize <= ADDRESS_SPACE - 4
      requires var n := SizeAt(heaps[k].blocks, rmem - HEADER);
               n >= 0 && (rmem + n <= r - HEADER || r + Aligned(newsize) <= rmem - HEADER)
      modifies hlist
      ensures Valid() && 0 <= to < |hlist| && Live(heaps[to].blocks, r - HEADER)
      ensures Memheap.Moved(old(hlist[k].mem), hlist[to].mem, rmem, r, CopySize(heaps[k], rmem, newsize))
      ensures SameElsewhere(old(hlist[to].mem), hlist[to].mem, r, CopySize(heaps[k], rmem, newsize))
      ensures forall x :: 0 <= x < |hlist| && x != to ==> hlist[x].mem == old(hlist[x].mem)
    {
      hide Inv, ListInv, IsEmpty, Live, Holds, Memheap.Moved, Aligned, Memheap.Memheap.Valid, SameElsewhere;
      ListShape(heaps, heapCnt);
      to := PoolOf(r - HEADER);
      AlignedCovers(newsize);
      var oldsize := OldSize(k, rmem - HEADER);
      var n := if newsize > oldsize then oldsize else newsize;
      CopyBetween(hlist[k], hlist[to], rmem, r, n);
    }

    /** The size of a live block, read off the block ring. */
    method OldSize(k: int, a: int) returns (size: int)
      requires Linked() && Shape(heaps, heapCnt) && 0 <= k < |hlist| && Live(heaps[k].blocks, a)
      ensures size == SizeAt(heaps[k].blocks, a)
    {
      hide Inv, Shape, Live;
      ShapeAt(heaps, heapCnt, k);
      Memheap.LiveIndex(heaps[k], a);
      size := hlist[k].ItemSize(a, Index(heaps[k].blocks, a));
    }

    ghost method WeakenAll(before: seq<Heap>, rmem: int)
      requires forall i :: 0 <= i < |before| ==> Inv(before[i])
      ensures forall i, m, m' :: 0 <= i < |before| && Memheap.KeepsLive(before[i].blocks, m, m', Memheap.NULL) ==>
                                   KeepsBut(before[i], m, m', rmem)
    {
      hide Inv, Memheap.KeepsLive;
      forall i, m, m' | 0 <= i < |before| && Memheap.KeepsLive(before[i].blocks, m, m', Memheap.NULL)
        ensures KeepsBut(before[i], m, m', rmem)
      {
        KeepsWeaken(before[i], m, m', rmem);
      }
    }

    ghost method SameAll(before: seq<Heap>, rmem: int)
      ensures forall i, m :: 0 <= i < |before| ==> KeepsBut(before[i], m, m, rmem)
    {
    }
  }

  /** How much of the block at user address rmem a move to a block of newsize bytes takes along. */
  function CopySize(h: Heap, rmem: int, newsize: int): int {
    Min(SizeAt(h.blocks, rmem - HEADER), newsize)
  }

  /** The payloads of the live blocks of a heap stay, except that of the block at user address rmem. */
  ghost predicate KeepsBut(h: Heap, before: map<int, Byte>, after: map<int, Byte>, rmem: int) {
    Memheap.KeepsLive(h.blocks, before, after, if rmem == Memheap.NULL then Memheap.NULL else rmem - HEADER)
  }

  lemma KeepsWeaken(h: Heap, before: map<int, Byte>, after: map<int, Byte>, rmem: int)
    requires Inv(h) && Memheap.KeepsLive(h.blocks, before, after, Memheap.NULL)
    ensures KeepsBut(h, before, after, rmem)
  {
    hide Inv;
    forall a | Live(h.blocks, a)
      ensures a != Memheap.NULL
    {
      LivePlace(h, a);
    }
  }

  lemma KeepsButOther(h: Heap, before: map<int, Byte>, after: map<int, Byte>, rmem: int)
    requires rmem != Memheap.NULL && Memheap.KeepsLive(h.blocks, before, after, rmem - HEADER)
    ensures KeepsBut(h, before, after, rmem)
  {
  }

  lemma AllInv(hs: seq<Heap>, count: int)
    requires ListInv(hs, count)
    ensures Shape(hs, count) && forall i :: 0 <= i < |hs| ==> Inv(hs[i]) && !IsEmpty(hs[i])
  {
    hide Inv, IsEmpty;
  }

  lemma HoldsOf(hs: seq<Heap>, k: int, a: int)
    requires 0 <= k < |hs| && Live(hs[k].blocks, a)
    ensures Holds(hs, a)
  {
  }

  /** Writing inside the block that was just obtained spares all earlier live blocks. */
  lemma CopyKeeps(before: seq<Heap>, after: seq<Heap>, count: int, x: int, bytes: map<int, Byte>,
                  middle: map<int, Byte>, final: map<int, Byte>, r: int, request: int, n: int)
    requires 0 <= x < |before| && Inv(before[x]) && Shape(after, count) && SamePools(before, after)
    requires 0 <= n <= request <= ADDRESS_SPACE - 4 && Obtained(before, after, r - HEADER, request)
    requires Memheap.KeepsLive(before[x].blocks, bytes, middle, Memheap.NULL) && SameElsewhere(middle, final, r, n)
    ensures Memheap.KeepsLive(before[x].blocks, bytes, final, Memheap.NULL)
  {
    hide Inv, Shape, SamePools, Obtained, Live, Aligned;
    AlignedCovers(request);
    forall a | Live(before[x].blocks, a) && a != Memheap.NULL
      ensures Memheap.Keeps(bytes, final, a + HEADER, a + HEADER + SizeAt(before[x].blocks, a))
    {
      StillThere(before, after, count, x, a, r - HEADER, request);
      assert Memheap.Keeps(bytes, middle, a + HEADER, a + HEADER + SizeAt(before[x].blocks, a));
    }
  }

  lemma ShapeAppend(hs: seq<Heap>, count: int, h: Heap, npages: int)
    requires Shape(hs, count) && Inv(h) && h.pool == npages * PAGE && npages > 0
    requires FreshChunk(hs, h.start, npages * PAGE)
    ensures Shape(hs + [h], (count + npages) % 0x100)
  {
    hide Inv, TotalPages;
    TotalPagesMore(hs, h);
    assert Pages(h) == npages;
  }

  lemma TotalPagesMore(hs: seq<Heap>, h: Heap)
    ensures TotalPages(hs + [h]) == TotalPages(hs) + Pages(h)
  {
    var r := hs + [h];
    assert r[..|r| - 1] == hs;
  }

  /** A block of at least the aligned size, at header a, joined the live blocks. */
  ghost predicate Obtained(before: seq<Heap>, after: seq<Heap>, a: int, request: int)
    requires 0 <= request < ADDRESS_SPACE
  {
    exists s :: s >= Aligned(request) && Block(a, s, true) !in AllLive(before) &&
                AllLive(after) == AllLive(before) + {Block(a, s, true)}
  }

  /** Heaps stay where they are; more may follow. */
  ghost predicate SamePools(before: seq<Heap>, after: seq<Heap>) {
    |before| <= |after| &&
    forall i :: 0 <= i < |before| ==> after[i].start == before[i].start && after[i].pool == before[i].pool
  }

  lemma ShapeAt(hs: seq<Heap>, count: int, i: int)
    requires Shape(hs, count) && 0 <= i < |hs|
    ensures Inv(hs[i]) && hs[i].pool % PAGE == 0
  {
  }

  lemma ShapeUpdate(hs: seq<Heap>, count: int, i: int, h: Heap)
    requires Shape(hs, count) && 0 <= i < |hs| && Inv(h) && h.start == hs[i].start && h.pool == hs[i].pool
    ensures Shape(hs[i := h], count)
  {
    TotalPagesUpdate(hs, i, h);
  }

  lemma AllocInList(hs: seq<Heap>, count: int, k: int, size: int)
    requires Shape(hs, count) && 0 <= k < |hs| && 0 <= size < ADDRESS_SPACE && Alloc(hs[k], size).1.Some?
    ensures var (h, r) := Alloc(hs[k], size);
            Shape(hs[k := h], count) && Obtained(hs, hs[k := h], r.value, size) && !IsEmpty(h) && r.value > 0 &&
            h.start == hs[k].start && h.pool == hs[k].pool
  {
    hide Shape, Inv, LiveBlocks, Alloc;
    var (h, r) := Alloc(hs[k], size);
    ShapeAt(hs, count, k);
    AllocInv(hs[k], size);
    AllocAdds(hs[k], size);
    StepInv(hs[k], OpAlloc(size));
    ShapeUpdate(hs, count, k, h);
    AllLiveUpdate(hs, count, k, h);
    EmptyExactly(h);
    var b := Block(r.value, SizeAt(h.blocks, r.value), true);
    AllLiveContains(hs, k);
    LiveBlock(hs[k], r.value);
    assert b in LiveBlocks(h.blocks) && b !in LiveBlocks(hs[k].blocks);
    AllocNew(hs, count, k, h, b);
    LiveInside(h, b);
    AllocPositive(h);
  }

  lemma AllocPositive(h: Heap)
    requires Inv(h)
    ensures h.start > 0
  {
  }

  lemma AllocNew(hs: seq<Heap>, count: int, k: int, h: Heap, b: Block)
    requires Shape(hs, count) && 0 <= k < |hs| && Inv(h) && h.start == hs[k].start && h.pool == hs[k].pool
    requires b in LiveBlocks(h.blocks) && b !in LiveBlocks(hs[k].blocks)
    ensures b !in AllLive(hs)
  {
    hide LiveBlocks;
    var hs' := hs[k := h];
    ShapeUpdate(hs, count, k, h);
    AllLiveAt(hs, b);
    if b in AllLive(hs) {
      var j :| 0 <= j < |hs| && b in LiveBlocks(hs[j].blocks);
      assert hs'[j] == hs[j] && hs'[k] == h;
      LiveApart(hs', count, k, j, b);
      assert false;
    }
  }

  lemma AllLiveContains(hs: seq<Heap>, k: int)
    requires 0 <= k < |hs|
    ensures LiveBlocks(hs[k].blocks) <= AllLive(hs)
  {
    hide LiveBlocks;
    forall b | b in LiveBlocks(hs[k].blocks)
      ensures b in AllLive(hs)
    {
      AllLiveAt(hs, b);
    }
  }

  lemma ChunkFits(hs: seq<Heap>, start: int, npages: int)
    requires FreshChunk(hs, start, npages * PAGE) && npages > 0
    ensures 0 < start && start + npages * PAGE <= ADDRESS_SPACE && 2 * HEADER <= npages * PAGE / 4 * 4
    ensures Init(start, npages * PAGE).pool == npages * PAGE && Init(start, npages * PAGE).start == start
  {
    WholePages(npages);
  }

  lemma WholePages(npages: int)
    ensures npages * PAGE / 4 * 4 == npages * PAGE
  {
    assert npages * PAGE == 4 * (npages * 1024);
  }

  lemma AllInUse(hs: seq<Heap>, count: int)
    requires Shape(hs, count) && forall i :: 0 <= i < |hs| ==> !IsEmpty(hs[i])
    ensures ListInv(hs, count)
  {
  }

  /** After the growth the new heap can serve the request. */
  lemma GrowthReady(hs: seq<Heap>, start: int, size: int)
    requires 0 < size && size + UNAVAILABLE + PAGE < ADDRESS_SPACE
    requires FreshChunk(hs, start, PagesFor(size) * PAGE)
    ensures Alloc(Init(start, PagesFor(size) * PAGE), size).1.Some?
  {
    GrowthSuffices(start, size);
  }

  /** The new heap holds nothing yet, so what the retry obtains is new to the old list as well. */
  lemma ObtainedAfterGrowth(before: seq<Heap>, after: seq<Heap>, start: int, size: int, a: int)
    requires 0 < size && size + UNAVAILABLE + PAGE < ADDRESS_SPACE
    requires FreshChunk(before, start, PagesFor(size) * PAGE)
    requires Obtained(before + [Init(start, PagesFor(size) * PAGE)], after, a, size)
    ensures Obtained(before, after, a, size)
  {
    hide LiveBlocks, IsEmpty, Inv, Init, Aligned, PagesFor;
    var h := Init(start, PagesFor(size) * PAGE);
    GrowthSuffices(start, size);
    EmptyExactly(h);
    assert (before + [h])[..|before|] == before;
    assert AllLive(before + [h]) == AllLive(before) + LiveBlocks(h.blocks);
  }

  // ---------------------------------------------------------------- blocks on the list

  /** Some heap holds a live block with this header. */
  ghost predicate Holds(hs: seq<Heap>, a: int) {
    exists i :: 0 <= i < |hs| && Live(hs[i].blocks, a)
  }

  /** Exactly the live block at a is gone. */
  ghost predicate Released(before: seq<Heap>, after: seq<Heap>, a: int) {
    exists s :: Block(a, s, true) in AllLive(before) && AllLive(after) == AllLive(before) - {Block(a, s, true)}
  }

  /** The list after freeing in the k-th heap: that heap without the block, or no longer there. */
  ghost predicate FreedAt(before: seq<Heap>, after: seq<Heap>, a: int, k: int) {
    0 <= k < |before| && Live(before[k].blocks, a) &&
    var h := MemheapModel.Free(before[k], a);
    after == if IsEmpty(h) then before[..k] + before[k + 1..] else before[k := h]
  }

  lemma ReleasedSame(before: seq<Heap>, middle: seq<Heap>, after: seq<Heap>, a: int)
    requires Released(before, middle, a) && AllLive(after) == AllLive(middle)
    ensures Released(before, after, a)
  {
  }

  lemma HeaderPlace(hs: seq<Heap>, count: int, j: int, a: int)
    requires Shape(hs, count) && 0 <= j < |hs| && Live(hs[j].blocks, a)
    ensures hs[j].start <= a < hs[j].start + hs[j].pool
  {
    ShapeAt(hs, count, j);
    LiveDisjointSelf(hs[j], a);
  }

  /** Only one heap spans an address. */
  lemma OnlyPlace(hs: seq<Heap>, count: int, j: int, k: int, a: int)
    requires Shape(hs, count) && 0 <= k <= j < |hs|
    requires hs[j].start <= a < hs[j].start + hs[j].pool && hs[k].start <= a < hs[k].start + hs[k].pool
    ensures k == j
  {
    if k < j {
      ApartAt(hs, count, k, j);
      assert false;
    }
  }

  lemma ApartAt(hs: seq<Heap>, count: int, i: int, j: int)
    requires Shape(hs, count) && 0 <= i < j < |hs|
    ensures Apart(hs[i], hs[j])
  {
  }

  lemma ShapeDrop(hs: seq<Heap>, count: int, k: int)
    requires Shape(hs, count) && 0 <= k < |hs|
    ensures Shape(hs[..k] + hs[k + 1..], (count - hs[k].pool / PAGE) % 0x100)
  {
    hide Inv, TotalPages, Apart;
    var r := hs[..k] + hs[k + 1..];
    TotalPagesDrop(hs, k);
    forall i | 0 <= i < |r|
      ensures Inv(r[i]) && r[i].pool % PAGE == 0
    {
      assert r[i] == hs[if i < k then i else i + 1];
    }
    forall i, j | 0 <= i < j < |r|
      ensures Apart(r[i], r[j])
    {
      ApartAt(hs, count, if i < k then i else i + 1, if j < k then j else j + 1);
    }
  }

  lemma ListDrop(hs: seq<Heap>, count: int, k: int)
    requires Shape(hs, count) && 0 <= k < |hs| && IsEmpty(hs[k])
    requires forall i :: 0 <= i < |hs| && i != k ==> !IsEmpty(hs[i])
    ensures ListInv(hs[..k] + hs[k + 1..], (count - hs[k].pool / PAGE) % 0x100)
    ensures AllLive(hs[..k] + hs[k + 1..]) == AllLive(hs)
  {
    hide Inv, Shape, IsEmpty, AllLive, LiveBlocks;
    var r := hs[..k] + hs[k + 1..];
    EmptyAt(hs, count, k);
    AllLiveDrop(hs, k);
    ShapeDrop(hs, count, k);
    forall i | 0 <= i < |r|
      ensures !IsEmpty(r[i])
    {
      assert r[i] == hs[if i < k then i else i + 1];
    }
  }

  lemma FreeInList(hs: seq<Heap>, count: int, k: int, a: int)
    requires ListInv(hs, count) && 0 <= k < |hs| && Live(hs[k].blocks, a)
    ensures var h := MemheapModel.Free(hs[k], a);
            Shape(hs[k := h], count) && Released(hs, hs[k := h], a)
  {
    hide Shape, Inv, LiveBlocks, MemheapModel.Free, Live, IsEmpty;
    var h := MemheapModel.Free(hs[k], a);
    var b := Block(a, SizeAt(hs[k].blocks, a), true);
    ShapeAt(hs, count, k);
    FreeInv(hs[k], a);
    FreeRemoves(hs[k], a);
    LiveBlock(hs[k], a);
    StepInv(hs[k], OpFree(a));
    ShapeUpdate(hs, count, k, h);
    AllLiveUpdate(hs, count, k, h);
    AllLiveContains(hs, k);
    assert AllLive(hs[k := h]) == AllLive(hs) - {b};
  }

  lemma EmptyAt(hs: seq<Heap>, count: int, k: int)
    requires Shape(hs, count) && 0 <= k < |hs|
    ensures IsEmpty(hs[k]) <==> LiveBlocks(hs[k].blocks) == {}
  {
    EmptyExactly(hs[k]);
  }

  // ---------------------------------------------------------------- realloc on the list

  /** The live block at a gave way to one at r of at least the aligned new size. */
  ghost predicate Replaced(before: seq<Heap>, after: seq<Heap>, a: int, r: int, request: int)
    requires 0 <= request < ADDRESS_SPACE
  {
    exists s, n :: Block(a, s, true) in AllLive(before) && n >= Aligned(request) &&
                   AllLive(after) == AllLive(before) - {Block(a, s, true)} + {Block(r, n, true)}
  }

  lemma ReallocInList(hs: seq<Heap>, count: int, k: int, a: int, request: int)
    requires ListInv(hs, count) && 0 <= k < |hs| && Live(hs[k].blocks, a) && 0 < request <= ADDRESS_SPACE - 16
    ensures var (h, r) := MemheapModel.Realloc(hs[k], Some(a), request);
            ListInv(hs[k := h], count) &&
            (r.None? ==> h == hs[k]) &&
            (r.Some? ==> Live(h.blocks, r.value) && r.value > 0 && Replaced(hs, hs[k := h], a, r.value, request))
  {
    hide Shape, Inv, LiveBlocks, MemheapModel.Realloc, Live, IsEmpty, AllLive;
    var (h, r) := MemheapModel.Realloc(hs[k], Some(a), request);
    ShapeAt(hs, count, k);
    StepInv(hs[k], OpRealloc(Some(a), request));
    ReallocReplaces(hs[k], a, request);
    ShapeUpdate(hs, count, k, h);
    if r.None? {
      assert hs[k := h] == hs;
    } else {
      var b := Block(a, SizeAt(hs[k].blocks, a), true);
      var c := Block(r.value, SizeAt(h.blocks, r.value), true);
      LiveBlock(hs[k], a);
      LiveBlock(h, r.value);
      AllLiveUpdate(hs, count, k, h);
      AllLiveContains(hs, k);
      assert AllLive(hs[k := h]) == AllLive(hs) - {b} + {c};
      EmptyExactly(h);
      LiveInside(h, c);
      AllocPositive(h);
    }
  }

  lemma MovedLess(before: map<int, Byte>, after: map<int, Byte>, from: int, to: int, size: int, request: int)
    requires 0 <= request <= ADDRESS_SPACE - 4
    requires Memheap.Moved(before, after, from, to, Min(size, Aligned(request)))
    ensures Memheap.Moved(before, after, from, to, Min(size, request))
  {
    AlignedCovers(request);
  }

  /** Outside the n bytes from `to` nothing changed. */
  ghost predicate SameElsewhere(before: map<int, Byte>, after: map<int, Byte>, to: int, n: int) {
    forall x :: x < to || to + n <= x ==> (x in after <==> x in before) && (x in after ==> after[x] == before[x])
  }

  lemma ListShape(hs: seq<Heap>, count: int)
    requires ListInv(hs, count)
    ensures Shape(hs, count)
  {
  }

  lemma LivePlace(h: Heap, a: int)
    requires Inv(h) && Live(h.blocks, a)
    ensures a > 0 && SizeAt(h.blocks, a) >= MIN_ALLOC
  {
    LiveDisjointSelf(h, a);
  }

  lemma KeptPrefix(bs: seq<Block>, before: map<int, Byte>, after: map<int, Byte>, a: int, n: int)
    requires Memheap.KeepsLive(bs, before, after, Memheap.NULL) && Live(bs, a) && a != Memheap.NULL && n <= SizeAt(bs, a)
    ensures Memheap.Keeps(before, after, a + HEADER, a + HEADER + n)
  {
    assert Memheap.Keeps(before, after, a + HEADER, a + HEADER + SizeAt(bs, a));
  }

  /** What was kept before the copy and stays after it was moved. */
  lemma MovedVia(before: map<int, Byte>, middle: map<int, Byte>, after: map<int, Byte>,
                 from: int, to: int, n: int)
    requires Memheap.Keeps(before, middle, from, from + n) && Memheap.Moved(middle, after, from, to, n)
    ensures Memheap.Moved(before, after, from, to, n)
  {
  }

  /** Live blocks anywhere on the list do not overlap. */
  lemma AllLiveDisjoint(hs: seq<Heap>, count: int, b: Block, c: Block)
    requires Shape(hs, count) && b in AllLive(hs) && c in AllLive(hs) && b != c
    ensures b.addr + HEADER + b.size <= c.addr || c.addr + HEADER + c.size <= b.addr
  {
    hide Shape, LiveBlocks, Live, Inv;
    AllLiveAt(hs, b);
    AllLiveAt(hs, c);
    var i :| 0 <= i < |hs| && b in LiveBlocks(hs[i].blocks);
    var j :| 0 <= j < |hs| && c in LiveBlocks(hs[j].blocks);
    ShapeAt(hs, count, i);
    ShapeAt(hs, count, j);
    LiveInside(hs[i], b);
    LiveInside(hs[j], c);
    if i == j {
      LiveDisjoint(hs[i], b.addr, c.addr);
    } else {
      ApartAt(hs, count, if i < j then i else j, if i < j then j else i);
    }
  }

  /** After an allocation the block at a is still live in its heap, with its size, and does not
      overlap the new block. */
  lemma StillThere(before: seq<Heap>, after: seq<Heap>, count: int, k: int, a: int, r: int, request: int)
    requires 0 <= k < |before| && Live(before[k].blocks, a) && Inv(before[k])
    requires Shape(after, count) && SamePools(before, after)
    requires 0 <= request < ADDRESS_SPACE && Obtained(before, after, r, request)
    ensures Live(after[k].blocks, a) && SizeAt(after[k].blocks, a) == SizeAt(before[k].blocks, a) >= MIN_ALLOC
    ensures Holds(after, r)
    ensures a + HEADER + SizeAt(before[k].blocks, a) <= r || r + HEADER + Aligned(request) <= a
  {
    hide Shape, LiveBlocks, Live, Inv, Aligned;
    var b := Block(a, SizeAt(before[k].blocks, a), true);
    LiveBlock(before[k], a);
    LiveInside(before[k], b);
    AllLiveContains(before, k);
    var s :| s >= Aligned(request) && Block(r, s, true) !in AllLive(before) &&
             AllLive(after) == AllLive(before) + {Block(r, s, true)};
    AllLiveDisjoint(after, count, b, Block(r, s, true));
    InHeap(after, count, k, b);
    HeldAt(after, count, Block(r, s, true));
  }

  /** A live block is in the heap that spans its address. */
  lemma InHeap(hs: seq<Heap>, count: int, k: int, b: Block)
    requires Shape(hs, count) && b in AllLive(hs) && 0 <= k < |hs|
    requires hs[k].start <= b.addr < hs[k].start + hs[k].pool
    ensures Live(hs[k].blocks, b.addr) && SizeAt(hs[k].blocks, b.addr) == b.size
  {
    hide Shape, LiveBlocks, Live, Inv;
    AllLiveAt(hs, b);
    var i :| 0 <= i < |hs| && b in LiveBlocks(hs[i].blocks);
    ShapeAt(hs, count, i);
    LiveInside(hs[i], b);
    if i < k {
      OnlyPlace(hs, count, k, i, b.addr);
    } else {
      OnlyPlace(hs, count, i, k, b.addr);
    }
  }

  lemma HeldAt(hs: seq<Heap>, count: int, b: Block)
    requires Shape(hs, count) && b in AllLive(hs)
    ensures Holds(hs, b.addr)
  {
    hide Shape, LiveBlocks, Live, Inv;
    AllLiveAt(hs, b);
    var i :| 0 <= i < |hs| && b in LiveBlocks(hs[i].blocks);
    ShapeAt(hs, count, i);
    LiveInside(hs[i], b);
  }

  /** Freeing another block leaves the one at r live, in a heap that stays on the list. */
  lemma OthersStay(middle: seq<Heap>, after: seq<Heap>, count: int, f: int, a: int, to: int, r: int)
    requires Shape(middle, count) && FreedAt(middle, after, a, f) && a != r
    requires 0 <= to < |middle| && Live(middle[to].blocks, r)
    ensures var dropped := IsEmpty(MemheapModel.Free(middle[f], a));
            var j := if dropped && to > f then to - 1 else to;
            0 <= j < |after| && Live(after[j].blocks, r) && (dropped ==> f != to)
  {
    hide Shape, Live, Inv, MemheapModel.Free, IsEmpty;
    ShapeAt(middle, count, f);
    FreedLive(middle[f], a);
    FreeInv(middle[f], a);
    var h := MemheapModel.Free(middle[f], a);
    if to == f {
      LiveNotEmpty(h, r);
    }
  }

  lemma FreedIndex(before: seq<Heap>, after: seq<Heap>, a: int, k: int)
    requires FreedAt(before, after, a, k)
    ensures 0 <= k < |before|
  {
  }

  /** Dropping another element moves an element at most one place. */
  lemma Remaining<T>(s: seq<T>, f: int, to: int, dropped: bool)
    requires 0 <= f < |s| && 0 <= to < |s| && (dropped ==> f != to)
    ensures var r := if dropped then s[..f] + s[f + 1..] else s;
            var j := if dropped && to > f then to - 1 else to;
            0 <= j < |r| && r[j] == s[to]
  {
  }

  lemma LiveNotEmpty(h: Heap, a: int)
    requires Inv(h) && Live(h.blocks, a)
    ensures !IsEmpty(h)
  {
    LiveBlock(h, a);
    EmptyExactly(h);
  }

  /** Obtaining a block and then releasing another is replacing. */
  lemma ObtainedReleased(before: seq<Heap>, middle: seq<Heap>, after: seq<Heap>, a: int, r: int, request: int)
    requires 0 <= request < ADDRESS_SPACE && Obtained(before, middle, r, request) && Released(middle, after, a) && a != r
    ensures Replaced(before, after, a, r, request)
  {
    hide AllLive, Aligned;
    var n :| n >= Aligned(request) && Block(r, n, true) !in AllLive(before) &&
             AllLive(middle) == AllLive(before) + {Block(r, n, true)};
    var s :| Block(a, s, true) in AllLive(middle) && AllLive(after) == AllLive(middle) - {Block(a, s, true)};
    assert Block(a, s, true) in AllLive(before);
    assert AllLive(after) == AllLive(before) - {Block(a, s, true)} + {Block(r, n, true)};
  }
}
