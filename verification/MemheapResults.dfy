/** What the allocator does for its callers, over single operations and whole runs. */
module MemheapResults {
  import opened Basics
  import opened Rings
  import opened MemheapModel
  import opened MemheapProofs

  // ---------------------------------------------------------------- the set of live blocks

  lemma SpliceUsed(bs: seq<Block>, lo: int, hi: int, mid: seq<Block>)
    requires Contiguous(bs) && 0 <= lo <= hi <= |bs|
    ensures UsedBlocks(Splice(bs, lo, hi, mid)) == UsedBlocks(bs) - UsedBlocks(bs[lo..hi]) + UsedBlocks(mid)
  {
    hide Splice;
    SpliceAt(bs, lo, hi, mid);
    var r := Splice(bs, lo, hi, mid);
    assert forall k :: lo <= k < hi ==> bs[lo..hi][k - lo] == bs[k];
    forall b | b in UsedBlocks(bs) - UsedBlocks(bs[lo..hi])
      ensures b in UsedBlocks(r)
    {
      var i :| 0 <= i < |bs| && bs[i] == b;
      assert r[if i < lo then i else i - hi + lo + |mid|] == bs[i];
    }
    forall b | b in UsedBlocks(mid)
      ensures b in UsedBlocks(r)
    {
      var i :| 0 <= i < |mid| && mid[i] == b;
      assert r[lo + i] == mid[i];
    }
    forall b | b in UsedBlocks(r)
      ensures b in UsedBlocks(bs) - UsedBlocks(bs[lo..hi]) + UsedBlocks(mid)
    {
      var i :| 0 <= i < |r| && r[i] == b;
      if lo <= i < lo + |mid| {
        assert r[i] == mid[i - lo];
      } else {
        Kept(bs, lo, hi, mid, i, true);
        if b in UsedBlocks(bs[lo..hi]) {
          assert b.addr in Addrs(bs[lo..hi], true);
        }
      }
    }
  }

  lemma SpliceLive(h: Heap, lo: int, hi: int, mid: seq<Block>)
    requires Inv(h) && Fits(h.blocks, lo, hi, mid)
    ensures LiveBlocks(Splice(h.blocks, lo, hi, mid)) ==
            LiveBlocks(h.blocks) - UsedBlocks(h.blocks[lo..hi]) + UsedBlocks(mid)
  {
    var bs := h.blocks;
    SpliceUsed(bs, lo, hi, mid);
    assert Last(Splice(bs, lo, hi, mid)) == Last(bs);
    forall i | 0 <= i < |mid|
      ensures mid[i] != Last(bs)
    {
      if i < |mid| - 1 {
        Ordered(mid, i, |mid| - 1);
      }
      if hi < |bs| - 1 {
        Ordered(bs, hi, |bs| - 1);
      }
    }
  }

  lemma Used3(b: Block, c: Block, d: Block)
    ensures UsedBlocks([b]) == if b.used then {b} else {}
    ensures UsedBlocks([b, c]) == (if b.used then {b} else {}) + if c.used then {c} else {}
    ensures UsedBlocks([b, c, d]) ==
            (if b.used then {b} else {}) + (if c.used then {c} else {}) + if d.used then {d} else {}
  {
    assert [b][0] == b;
    assert [b, c][0] == b && [b, c][1] == c;
    assert [b, c, d][0] == b && [b, c, d][1] == c && [b, c, d][2] == d;
  }

  /** A live block is the block its header address names, and the other way round. */
  lemma LiveBlock(h: Heap, a: int)
    requires Inv(h)
    ensures Live(h.blocks, a) ==> Block(a, SizeAt(h.blocks, a), true) in LiveBlocks(h.blocks)
    ensures forall s :: Block(a, s, true) in LiveBlocks(h.blocks) ==> Live(h.blocks, a) && SizeAt(h.blocks, a) == s
  {
    var bs := h.blocks;
    if Live(bs, a) {
      Ordered(bs, Index(bs, a), |bs| - 1);
    }
    forall s | Block(a, s, true) in LiveBlocks(bs)
      ensures Live(bs, a) && SizeAt(bs, a) == s
    {
      var i :| 0 <= i < |bs| && bs[i] == Block(a, s, true);
      IndexOf(bs, i);
    }
  }

  // ---------------------------------------------------------------- what each operation does

  lemma TakeAdds(h: Heap, i: int, size: int)
    requires Inv(h) && 0 <= i < |h.blocks| - 1 && !h.blocks[i].used
    requires MIN_ALLOC <= size <= h.blocks[i].size && size % 4 == 0
    ensures var t := Taken(h.blocks[i], size)[0];
            LiveBlocks(Take(h, i, size).blocks) == LiveBlocks(h.blocks) + {t} &&
            t.addr == h.blocks[i].addr && t.used && size <= t.size < size + HEADER + MIN_ALLOC
  {
    hide Inv, UsedBlocks, LiveBlocks, Splice, Fits;
    var b := h.blocks[i];
    var t := Taken(b, size);
    TakeFits(h, i, size);
    SpliceLive(h, i, i + 1, t);
    assert h.blocks[i..i + 1] == [b];
    Used3(b, b, b);
    Used3(t[0], t[|t| - 1], t[0]);
    assert t == if |t| == 1 then [t[0]] else [t[0], t[1]];
    assert Take(h, i, size).blocks == Splice(h.blocks, i, i + 1, t);
  }

  lemma TakenNonEmpty(b: Block, size: int)
    ensures |Taken(b, size)| > 0
  {
  }

  /** A successful allocation adds exactly one live block, on addresses that were free, of at
      least the aligned size and less than a header and a minimal block more; no other live block
      changes. */
  lemma AllocAdds(h: Heap, request: int)
    requires Inv(h) && 0 <= request < ADDRESS_SPACE && Alloc(h, request).1.Some?
    ensures var (h', r) := Alloc(h, request);
            var size := SizeAt(h'.blocks, r.value);
            Live(h'.blocks, r.value) && !Live(h.blocks, r.value) &&
            Aligned(request) <= size < Aligned(request) + HEADER + MIN_ALLOC &&
            LiveBlocks(h'.blocks) == LiveBlocks(h.blocks) + {Block(r.value, size, true)}
  {
    hide Inv, UsedBlocks, LiveBlocks, Take, Taken;
    var (h', r) := Alloc(h, request);
    var size := Aligned(request);
    FirstFitFinds(h.blocks, h.free, size);
    assert r.value in Elements(h.free);
    FreeListed(h, r.value);
    var i := Index(h.blocks, r.value);
    TakeAdds(h, i, size);
    AllocInv(h, request);
    LiveBlock(h', r.value);
    var b := h.blocks[i];
    assert |Taken(b, size)| > 0 by {
      TakenNonEmpty(b, size);
    }
    var t := Taken(b, size)[0];
    assert t == Block(r.value, t.size, true);
  }

  /** Of a used block and its free neighbours only the block itself is in use. */
  lemma UsedAround(bs: seq<Block>, i: int)
    requires 0 <= i < |bs| && bs[i].used
    ensures var lo := if FreeBefore(bs, i) then i - 1 else i;
            var hi := if FreeAfter(bs, i) then i + 1 else i;
            UsedBlocks(bs[lo..hi + 1]) == {bs[i]} && UsedBlocks(bs[i..hi + 1]) == {bs[i]}
  {
    hide UsedBlocks;
    var lo := if FreeBefore(bs, i) then i - 1 else i;
    var hi := if FreeAfter(bs, i) then i + 1 else i;
    Used3(bs[i], bs[hi], bs[hi]);
    assert bs[i..hi + 1] == if i < hi then [bs[i], bs[hi]] else [bs[i]];
    if lo < i {
      Used3(bs[lo], bs[i], bs[hi]);
      assert bs[lo..hi + 1] == if i < hi then [bs[lo], bs[i], bs[hi]] else [bs[lo], bs[i]];
    }
  }

  /** Freeing removes exactly the freed block. */
  lemma FreeRemoves(h: Heap, a: int)
    requires Inv(h) && Live(h.blocks, a)
    ensures LiveBlocks(Free(h, a).blocks) == LiveBlocks(h.blocks) - {Block(a, SizeAt(h.blocks, a), true)}
  {
    hide Inv, UsedBlocks, LiveBlocks, Splice, Fits, Without;
    var bs := h.blocks;
    var i := Index(bs, a);
    var lo := if FreeBefore(bs, i) then i - 1 else i;
    var hi := if FreeAfter(bs, i) then i + 1 else i;
    var merged := Block(bs[lo].addr, bs[hi].addr + bs[hi].size - bs[lo].addr, false);
    MergeFits(h, i);
    SpliceLive(h, lo, hi + 1, [merged]);
    Used3(merged, merged, merged);
    UsedAround(bs, i);
    assert Free(h, a).blocks == Splice(bs, lo, hi + 1, [merged]);
  }

  /** Resizing in place changes the size of one live block and nothing else. */
  lemma ResizeReplaces(h: Heap, i: int, size: int)
    requires Inv(h) && 0 <= i < |h.blocks| - 1 && h.blocks[i].used
    requires MIN_ALLOC <= size && size % 4 == 0
    requires CanGrow(h.blocks, i, size) || size + HEADER + MIN_ALLOC < h.blocks[i].size
    ensures LiveBlocks(ResizeAt(h, i, size).blocks) ==
            LiveBlocks(h.blocks) - {h.blocks[i]} + {h.blocks[i].(size := size)}
  {
    hide Inv, UsedBlocks, LiveBlocks, Splice, Fits, Without;
    var bs := h.blocks;
    var hi := if FreeAfter(bs, i) then i + 1 else i;
    var whole := bs[i].(size := bs[hi].addr + bs[hi].size - bs[i].addr);
    var mid := Cut(whole, size);
    ResizeFits(h, i, size);
    SpliceLive(h, i, hi + 1, mid);
    Used3(mid[0], mid[1], mid[1]);
    UsedAround(bs, i);
    assert ResizeAt(h, i, size).blocks == Splice(bs, i, hi + 1, mid);
  }

  /** When allocation fails, and only then: the request is not below the number of free bytes, or
      no single free block has room for it. A failed allocation changes nothing. */
  lemma AllocFails(h: Heap, request: int)
    requires Inv(h) && 0 <= request < ADDRESS_SPACE
    ensures Alloc(h, request).1.None? <==>
            Aligned(request) >= h.available ||
            forall i :: 0 <= i < |h.blocks| && !h.blocks[i].used ==> h.blocks[i].size < Aligned(request)
    ensures Alloc(h, request).1.None? ==> Alloc(h, request).0 == h
  {
    hide Inv, Take;
    var size := Aligned(request);
    FirstFitFinds(h.blocks, h.free, size);
    match FirstFit(h.blocks, h.free, size)
    case Some(a) =>
      assert a in Elements(h.free);
      FreeListed(h, a);
    case None =>
      forall i | 0 <= i < |h.blocks| && !h.blocks[i].used
        ensures h.blocks[i].size < size
      {
        Listed(h, i);
        var k :| 0 <= k < |h.free| && h.free[k] == h.blocks[i].addr;
        TakeIndex(h, i);
      }
  }

  lemma TakeIndex(h: Heap, i: int)
    requires Inv(h) && 0 <= i < |h.blocks|
    ensures SizeAt(h.blocks, h.blocks[i].addr) == h.blocks[i].size
  {
    IndexOf(h.blocks, i);
  }

  /** The block handed out has room for the request exactly when rounding up does not wrap. */
  lemma AlignedCovers(request: int)
    requires 0 <= request < ADDRESS_SPACE
    ensures Aligned(request) >= request <==> request <= ADDRESS_SPACE - 4
  {
  }

  /** Live payloads do not overlap and lie inside the pool, clear of all headers. */
  lemma LiveDisjoint(h: Heap, a: int, b: int)
    requires Inv(h) && Live(h.blocks, a) && Live(h.blocks, b) && a != b
    ensures a + HEADER + SizeAt(h.blocks, a) <= b || b + HEADER + SizeAt(h.blocks, b) <= a
    ensures h.start <= a && a + HEADER + SizeAt(h.blocks, a) <= h.start + h.pool - HEADER
  {
    var bs := h.blocks;
    var i, j := Index(bs, a), Index(bs, b);
    if i < j {
      Ordered(bs, i, j);
    } else {
      Ordered(bs, j, i);
    }
    Ordered(bs, i, |bs| - 1);
    if i > 0 {
      Ordered(bs, 0, i);
    }
  }

  // ---------------------------------------------------------------- realloc

  /** Reallocation: on success the old live block is replaced by one of at least the aligned new
      size (one smaller than a split needs is left as it is), on failure nothing changes; a zero
      size frees. The block stays in place unless it had to grow past its free neighbour. */
  lemma ReallocReplaces(h: Heap, a: int, request: int)
    requires Inv(h) && Live(h.blocks, a) && 0 <= request <= ADDRESS_SPACE - 16
    ensures var (h', r) := Realloc(h, Some(a), request);
            var before := Block(a, SizeAt(h.blocks, a), true);
            Inv(h') &&
            if request == 0 then r.None? && LiveBlocks(h'.blocks) == LiveBlocks(h.blocks) - {before}
            else if r.None? then h' == h
            else Live(h'.blocks, r.value) && SizeAt(h'.blocks, r.value) >= Aligned(request) &&
                 LiveBlocks(h'.blocks) ==
                 LiveBlocks(h.blocks) - {before} + {Block(r.value, SizeAt(h'.blocks, r.value), true)}
  {
    hide Inv, Take, Splice, FreeAt, UsedBlocks, LiveBlocks;
    var (h', r) := Realloc(h, Some(a), request);
    var i := Index(h.blocks, a);
    var size := Aligned(request);
    LiveBlock(h, a);
    if request == 0 {
      FreeInv(h, a);
      FreeRemoves(h, a);
    } else if size > h.blocks[i].size && CanGrow(h.blocks, i, size) {
      ResizeDone(h, i, size, h');
    } else if size > h.blocks[i].size {
      ReallocMoves(h, a, size);
    } else if size + HEADER + MIN_ALLOC < h.blocks[i].size {
      ResizeDone(h, i, size, h');
    } else {
      assert LiveBlocks(h.blocks) == LiveBlocks(h.blocks) - {h.blocks[i]} + {h.blocks[i]};
    }
  }

  /** Both in-place cases of realloc. */
  lemma ResizeDone(h: Heap, i: int, size: int, h': Heap)
    requires Inv(h) && 0 <= i < |h.blocks| - 1 && h.blocks[i].used
    requires MIN_ALLOC <= size && size % 4 == 0
    requires (size > h.blocks[i].size && CanGrow(h.blocks, i, size) &&
              h' == WithAvailable(ResizeAt(h, i, size), h.available - (size - h.blocks[i].size))) ||
             (size + HEADER + MIN_ALLOC < h.blocks[i].size &&
              h' == ResizeAt(h, i, size).(available := h.available + ResizeGain(h.blocks, i, size)))
    ensures Inv(h')
    ensures Live(h'.blocks, h.blocks[i].addr) && SizeAt(h'.blocks, h.blocks[i].addr) == size
    ensures LiveBlocks(h'.blocks) == LiveBlocks(h.blocks) - {h.blocks[i]} + {h.blocks[i].(size := size)}
  {
    hide Inv, Splice, UsedBlocks, LiveBlocks;
    TakeFacts(h, i);
    ResizeInv(h, i, size, h');
    ResizeReplaces(h, i, size);
    LiveBlock(h', h.blocks[i].addr);
    assert h.blocks[i].(size := size) == Block(h.blocks[i].addr, size, true);
  }

  lemma ReallocMoves(h: Heap, a: int, size: int)
    requires Inv(h) && Live(h.blocks, a) && MIN_ALLOC <= size < ADDRESS_SPACE && size % 4 == 0
    requires size > SizeAt(h.blocks, a)
    ensures var (h1, r) := Alloc(h, size);
            if r.None? then h1 == h
            else
              var h2 := Free(h1, a);
              Inv(h2) && Live(h2.blocks, r.value) && SizeAt(h2.blocks, r.value) >= size &&
              LiveBlocks(h2.blocks) ==
              LiveBlocks(h.blocks) - {Block(a, SizeAt(h.blocks, a), true)} +
              {Block(r.value, SizeAt(h2.blocks, r.value), true)}
  {
    hide Inv, Alloc, Free, UsedBlocks, LiveBlocks;
    var (h1, r) := Alloc(h, size);
    AllocFails(h, size);
    if r.Some? {
      AllocInv(h, size);
      AllocAdds(h, size);
      AlignedSame(size);
      LiveBlock(h, a);
      LiveBlock(h1, a);
      FreeInv(h1, a);
      FreeRemoves(h1, a);
      LiveBlock(h1, r.value);
      LiveBlock(Free(h1, a), r.value);
    }
  }

  lemma AlignedSame(size: int)
    requires MIN_ALLOC <= size < ADDRESS_SPACE && size % 4 == 0
    ensures Aligned(size) == size
  {
  }

  // ---------------------------------------------------------------- emptiness

  /** The pool is headers, free payload and used payload, to the byte. */
  lemma {:induction false} Conservation(bs: seq<Block>)
    requires Contiguous(bs) && |bs| > 0
    ensures Last(bs).addr + HEADER + Last(bs).size - bs[0].addr ==
            HEADER * |bs| + FreeBytes(bs) + UsedBytes(bs)
  {
    if |bs| == 1 {
      assert bs[1..] == [];
    } else {
      assert Contiguous(bs[1..]);
      Conservation(bs[1..]);
      assert Last(bs[1..]) == Last(bs);
    }
  }

  function UsedBytes(bs: seq<Block>): int {
    if bs == [] then 0 else (if bs[0].used then bs[0].size else 0) + UsedBytes(bs[1..])
  }

  lemma {:induction false} UsedBytesBound(bs: seq<Block>, i: int)
    requires (forall k :: 0 <= k < |bs| ==> bs[k].size >= 0) && 0 <= i < |bs|
    ensures UsedBytes(bs) >= (if bs[i].used then bs[i].size else 0)
    ensures UsedBytes(bs) >= 0
  {
    if |bs| > 1 {
      UsedBytesBound(bs[1..], if i > 0 then i - 1 else 0);
    } else {
      assert bs[1..] == [];
    }
  }

  /** rt_lwp_memheap_is_empty says exactly that nothing is allocated, and then the heap is again
      the single free block and the tailer that it started as. */
  lemma EmptyExactly(h: Heap)
    requires Inv(h)
    ensures IsEmpty(h) <==> LiveBlocks(h.blocks) == {}
    ensures IsEmpty(h) <==> h.blocks == Init(h.start, h.pool).blocks
    ensures IsEmpty(h) ==> h.free == [h.start]
  {
    var bs := h.blocks;
    Conservation(bs);
    UsedBytesBound(bs, 0);
    PoolAligned(h);
    if IsEmpty(h) {
      assert |bs| == 2;
      assert !bs[0].used;
      assert bs == [bs[0], bs[1]];
      OnlyFree(h);
    }
    if LiveBlocks(bs) == {} {
      NothingLive(h);
    }
    if bs == Init(h.start, h.pool).blocks {
      FreeBytes2(bs[0], bs[1]);
      Used3(bs[0], bs[1], bs[1]);
    }
  }

  lemma {:induction false} PayloadAligned(bs: seq<Block>, i: int)
    requires Contiguous(bs) && Sized(bs) && 0 <= i < |bs|
    ensures (bs[i].addr - bs[0].addr) % 4 == 0
  {
    hide Sized, Contiguous;
    if i > 0 {
      PayloadAligned(bs, i - 1);
      AlignedStep(bs, i - 1);
    }
  }

  lemma AlignedStep(bs: seq<Block>, i: int)
    requires Contiguous(bs) && Sized(bs) && 0 <= i < |bs| - 1
    ensures bs[i + 1].addr == bs[i].addr + HEADER + bs[i].size && bs[i].size % 4 == 0
  {
  }

  lemma PoolAligned(h: Heap)
    requires Inv(h)
    ensures h.pool % 4 == 0
  {
    PayloadAligned(h.blocks, |h.blocks| - 1);
  }

  lemma NothingLive(h: Heap)
    requires Inv(h) && LiveBlocks(h.blocks) == {}
    ensures IsEmpty(h)
  {
    var bs := h.blocks;
    assert forall b :: b in UsedBlocks(bs) ==> b == Last(bs) by {
      assert forall b :: b in UsedBlocks(bs) && b != Last(bs) ==> b in LiveBlocks(bs);
    }
    forall i | 0 <= i < |bs| - 1
      ensures !bs[i].used
    {
      Ordered(bs, i, |bs| - 1);
      UsedAt(bs, i);
    }
    OnlyOneFree(bs);
    assert bs == [bs[0], bs[1]];
    FreeBytes2(bs[0], bs[1]);
  }

  lemma UsedAt(bs: seq<Block>, i: int)
    requires 0 <= i < |bs|
    ensures bs[i].used ==> bs[i] in UsedBlocks(bs)
  {
  }

  /** Coalesced free blocks before a tailer: there is only one. */
  lemma OnlyOneFree(bs: seq<Block>)
    requires |bs| >= 2 && Coalesced(bs) && forall i :: 0 <= i < |bs| - 1 ==> !bs[i].used
    ensures |bs| == 2
  {
    var b, c := bs[0], bs[1];
  }

  lemma Singleton(s: seq<int>, x: int)
    requires s != [] && Distinct(s) && forall i :: 0 <= i < |s| ==> s[i] == x
    ensures s == [x]
  {
    var a, b := s[0], s[|s| - 1];
  }

  lemma OnlyFree(h: Heap)
    requires Inv(h) && |h.blocks| == 2 && !h.blocks[0].used
    ensures h.free == [h.start]
  {
    Listed(h, 0);
    assert h.start in Elements(h.free);
    var k :| 0 <= k < |h.free| && h.free[k] == h.start;
    forall j | 0 <= j < |h.free|
      ensures h.free[j] == h.start
    {
      assert h.free[j] in Elements(h.free);
      FreeListed(h, h.free[j]);
    }
    Singleton(h.free, h.start);
  }

  // ---------------------------------------------------------------- runs

  /** What a caller may do: allocate, free a live block, reallocate a live block or nothing. */
  datatype Operation = OpAlloc(request: int) | OpFree(a: int) | OpRealloc(block: Option<int>, request: int)

  ghost predicate Allowed(h: Heap, op: Operation) {
    match op
    case OpAlloc(request) => 0 <= request < ADDRESS_SPACE
    case OpFree(a) => Live(h.blocks, a)
    case OpRealloc(block, request) =>
      0 <= request <= ADDRESS_SPACE - 16 && (block.Some? ==> Live(h.blocks, block.value))
  }

  function Apply(h: Heap, op: Operation): Heap
    requires Allowed(h, op)
  {
    match op
    case OpAlloc(request) => Alloc(h, request).0
    case OpFree(a) => Free(h, a)
    case OpRealloc(block, request) => Realloc(h, block, request).0
  }

  ghost predicate AllowedRun(h: Heap, ops: seq<Operation>)
    decreases |ops|
  {
    ops == [] || (Allowed(h, ops[0]) && AllowedRun(Apply(h, ops[0]), ops[1..]))
  }

  function RunAll(h: Heap, ops: seq<Operation>): Heap
    requires AllowedRun(h, ops)
    decreases |ops|
  {
    if ops == [] then h else RunAll(Apply(h, ops[0]), ops[1..])
  }

  /** The invariant holds after every run of operations on an initialised heap. */
  lemma {:induction false} RunInv(h: Heap, ops: seq<Operation>)
    requires Inv(h) && AllowedRun(h, ops)
    ensures Inv(RunAll(h, ops)) && RunAll(h, ops).start == h.start && RunAll(h, ops).pool == h.pool
    decreases |ops|
  {
    if ops != [] {
      StepInv(h, ops[0]);
      RunInv(Apply(h, ops[0]), ops[1..]);
    }
  }

  lemma StepInv(h: Heap, op: Operation)
    requires Inv(h) && Allowed(h, op)
    ensures Inv(Apply(h, op)) && Apply(h, op).start == h.start && Apply(h, op).pool == h.pool
  {
    hide Inv, Live;
    match op
    case OpAlloc(request) => AllocInv(h, request);
    case OpFree(a) => FreeInv(h, a);
    case OpRealloc(block, request) =>
      if block.None? {
        if request != 0 {
          AllocInv(h, Aligned(request));
        }
      } else {
        ReallocReplaces(h, block.value, request);
      }
  }

  // ---------------------------------------------------------------- the high-water mark

  function InUse(h: Heap): int {
    h.pool - h.available
  }

  /** A reallocation that moves the block has both blocks allocated in between. */
  function Between(h: Heap, op: Operation): seq<Heap>
    requires Allowed(h, op)
  {
    match op
    case OpRealloc(Some(a), request) =>
      var size := Aligned(request);
      if request != 0 && size > SizeAt(h.blocks, a) && !CanGrow(h.blocks, Index(h.blocks, a), size)
      then [Alloc(h, size).0]
      else []
    case _ => []
  }

  /** The states a run passes through after its start. */
  function Later(h: Heap, ops: seq<Operation>): seq<Heap>
    requires AllowedRun(h, ops)
    decreases |ops|
  {
    if ops == [] then [] else
    var h' := Apply(h, ops[0]);
    Between(h, ops[0]) + [h'] + Later(h', ops[1..])
  }

  /** m is the most bytes in use in any of the states. */
  ghost predicate Highest(m: int, states: seq<Heap>) {
    (forall k :: 0 <= k < |states| ==> InUse(states[k]) <= m) &&
    exists k :: 0 <= k < |states| && InUse(states[k]) == m
  }

  lemma AllocPeak(h: Heap, request: int)
    requires Inv(h) && 0 <= request < ADDRESS_SPACE
    ensures Alloc(h, request).0.maxUsed == Max(h.maxUsed, InUse(Alloc(h, request).0))
  {
    hide Splice, Without, Aligned, FirstFit, Index;
    assert h.maxUsed >= InUse(h);
  }

  lemma FreePeak(h: Heap, a: int)
    requires Inv(h)
    ensures Free(h, a).maxUsed == h.maxUsed && InUse(Free(h, a)) <= InUse(h)
  {
    hide Splice, Without, FreeBytes;
  }

  lemma ResizePeak(h: Heap, i: int, size: int)
    requires Inv(h) && 0 <= i < |h.blocks| && MIN_ALLOC <= size < ADDRESS_SPACE
    requires size <= h.blocks[i].size || CanGrow(h.blocks, i, size)
    ensures var h' := Resized(h, i, size).0; h'.maxUsed == Max(h.maxUsed, InUse(h'))
  {
    hide Splice, Without, FreeBytes, ResizeAt, Alloc;
    ResizeCounters(h, i, size);
  }

  lemma ResizeCounters(h: Heap, i: int, size: int)
    requires 0 <= i < |h.blocks|
    ensures var h' := ResizeAt(h, i, size); h'.maxUsed == h.maxUsed && h'.pool == h.pool
  {
  }

  /** One operation raises the mark to the most it had in use. */
  lemma StepPeak(h: Heap, op: Operation)
    requires Inv(h) && Allowed(h, op)
    ensures var mark := if Between(h, op) == [] then h.maxUsed else Max(h.maxUsed, InUse(Between(h, op)[0]));
            Apply(h, op).maxUsed == Max(mark, InUse(Apply(h, op)))
  {
    hide Inv, Alloc, Free;
    match op
    case OpAlloc(request) => AllocPeak(h, request);
    case OpFree(a) => FreePeak(h, a); UsedAtMost(h);
    case OpRealloc(block, request) =>
      UsedAtMost(h);
      if block.None? {
        if request != 0 {
          AllocPeak(h, Aligned(request));
        }
      } else if request == 0 {
        FreePeak(h, block.value);
      } else {
        ReallocPeak(h, block.value, Aligned(request));
      }
  }

  lemma UsedAtMost(h: Heap)
    requires Inv(h)
    ensures InUse(h) <= h.maxUsed
  {
  }

  lemma ReallocPeak(h: Heap, a: int, size: int)
    requires Inv(h) && Live(h.blocks, a) && MIN_ALLOC <= size < ADDRESS_SPACE
    ensures var i := Index(h.blocks, a);
            var h' := Resized(h, i, size).0;
            var moves := size > SizeAt(h.blocks, a) && !CanGrow(h.blocks, i, size);
            h'.maxUsed == Max(if moves then Max(h.maxUsed, InUse(Alloc(h, size).0)) else h.maxUsed, InUse(h'))
  {
    hide Inv, Alloc, Free, CanGrow;
    var i := Index(h.blocks, a);
    if size > SizeAt(h.blocks, a) && !CanGrow(h.blocks, i, size) {
      AllocPeak(h, size);
      AllocInv(h, size);
      FreePeak(Alloc(h, size).0, a);
      UsedAtMost(Alloc(h, size).0);
    } else {
      ResizePeak(h, i, size);
    }
  }

  lemma HighestMore(m: int, states: seq<Heap>, h: Heap)
    requires Highest(m, states)
    ensures Highest(Max(m, InUse(h)), states + [h])
  {
    var k :| 0 <= k < |states| && InUse(states[k]) == m;
    var more := states + [h];
    assert InUse(more[k]) == m && InUse(more[|states|]) == InUse(h);
  }

  lemma {:induction false} RunPeak(h: Heap, ops: seq<Operation>, past: seq<Heap>)
    requires Inv(h) && AllowedRun(h, ops) && Highest(h.maxUsed, past)
    ensures Highest(RunAll(h, ops).maxUsed, past + Later(h, ops))
    decreases |ops|
  {
    hide Inv, Between, Apply, Allowed, Highest;
    if ops == [] {
      assert past + [] == past;
    } else {
      var h', middle := Apply(h, ops[0]), Between(h, ops[0]);
      StepPeak(h, ops[0]);
      StepInv(h, ops[0]);
      BetweenOne(h, ops[0]);
      var mark, past' := h.maxUsed, past;
      if middle != [] {
        HighestMore(mark, past', middle[0]);
        mark, past' := Max(mark, InUse(middle[0])), past' + [middle[0]];
      }
      assert past' == past + middle;
      HighestMore(mark, past', h');
      assert past + Later(h, ops) == past' + [h'] + Later(h', ops[1..]);
      RunPeak(h', ops[1..], past' + [h']);
    }
  }

  lemma BetweenOne(h: Heap, op: Operation)
    requires Allowed(h, op)
    ensures |Between(h, op)| <= 1
  {
  }

  /** After any run on an initial heap the mark is exactly the most bytes that were ever in use,
      counting both copies of a block that a reallocation moves. */
  lemma HighWater(start: int, size: int, ops: seq<Operation>)
    requires 0 < start && 2 * HEADER <= size / 4 * 4 && start + size <= ADDRESS_SPACE
    requires AllowedRun(Init(start, size), ops)
    ensures var h := Init(start, size); Highest(RunAll(h, ops).maxUsed, [h] + Later(h, ops))
  {
    hide Inv;
    var h := Init(start, size);
    InitInv(start, size);
    assert InUse([h][0]) == h.maxUsed;
    RunPeak(h, ops, [h]);
  }

  /** Freeing the live blocks of any reachable heap in any order gives back the initial heap. */
  lemma {:induction false} FreeEverything(h: Heap, order: seq<int>)
    requires Inv(h)
    requires forall i, j :: 0 <= i < j < |order| ==> order[i] != order[j]
    requires forall a :: a in order <==> Live(h.blocks, a)
    ensures var ops := Frees(order);
            AllowedRun(h, ops) &&
            var e := RunAll(h, ops);
            e.blocks == Init(h.start, h.pool).blocks && e.free == [h.start] && IsEmpty(e)
    decreases |order|
  {
    if order == [] {
      NoneLive(h);
      EmptyExactly(h);
    } else {
      var a := order[0];
      assert a in order;
      var h1 := Free(h, a);
      FreeInv(h, a);
      FreedLive(h, a);
      assert order == [a] + order[1..];
      forall x
        ensures x in order[1..] <==> Live(h1.blocks, x)
      {
        assert x in order <==> x == a || x in order[1..];
      }
      FreeEverything(h1, order[1..]);
      assert h1.start == h.start && h1.pool == h.pool;
      assert Frees(order)[0] == OpFree(a) && Frees(order)[1..] == Frees(order[1..]);
    }
  }

  lemma NoneLive(h: Heap)
    requires Inv(h) && forall a :: !Live(h.blocks, a)
    ensures LiveBlocks(h.blocks) == {}
  {
    hide Inv, Live;
    if b: Block :| b in LiveBlocks(h.blocks) {
      LiveUsed(h.blocks, b);
      LiveBlock(h, b.addr);
      assert false;
    }
  }

  lemma LiveUsed(bs: seq<Block>, b: Block)
    requires b in LiveBlocks(bs)
    ensures b == Block(b.addr, b.size, true)
  {
  }

  function Frees(order: seq<int>): (ops: seq<Operation>)
    ensures |ops| == |order|
  {
    if order == [] then [] else [OpFree(order[0])] + Frees(order[1..])
  }

  lemma FreedLive(h: Heap, a: int)
    requires Inv(h) && Live(h.blocks, a)
    ensures forall x :: Live(Free(h, a).blocks, x) <==> x != a && Live(h.blocks, x)
  {
    hide Inv, Free, Live, SizeAt, LiveBlocks;
    var h1 := Free(h, a);
    FreeInv(h, a);
    FreeRemoves(h, a);
    forall x
      ensures Live(h1.blocks, x) <==> x != a && Live(h.blocks, x)
    {
      LiveBlock(h, x);
      LiveBlock(h1, x);
    }
  }
}
