/** The allocator invariant over every operation and every run. */
module MemheapProofs {
  import opened Basics
  import opened Rings
  import opened MemheapModel

  // ---------------------------------------------------------------- sequences of blocks

  /** Blocks that lie end to end are in address order. */
  lemma {:induction false} Ordered(bs: seq<Block>, i: int, j: int)
    requires Contiguous(bs) && 0 <= i < j < |bs|
    ensures bs[i].addr + HEADER + bs[i].size <= bs[j].addr
    decreases j - i
  {
    if i + 1 < j {
      Ordered(bs, i + 1, j);
    }
  }

  lemma IndexOf(bs: seq<Block>, i: int)
    requires Contiguous(bs) && 0 <= i < |bs|
    ensures Index(bs, bs[i].addr) == i
  {
    var k := Index(bs, bs[i].addr);
    if i < k {
      Ordered(bs, i, k);
    } else if 0 <= k < i {
      Ordered(bs, k, i);
    }
  }

  lemma {:induction false} FreeBytesConcat(a: seq<Block>, b: seq<Block>)
    ensures FreeBytes(a + b) == FreeBytes(a) + FreeBytes(b)
  {
    if a == [] {
      assert a + b == b;
    } else {
      assert (a + b)[1..] == a[1..] + b;
      FreeBytesConcat(a[1..], b);
    }
  }

  lemma FreeBytesSplice(bs: seq<Block>, lo: int, hi: int, mid: seq<Block>)
    requires 0 <= lo <= hi <= |bs|
    ensures FreeBytes(Splice(bs, lo, hi, mid)) == FreeBytes(bs) - FreeBytes(bs[lo..hi]) + FreeBytes(mid)
  {
    FreeBytesConcat(bs[..lo], mid);
    FreeBytesConcat(bs[..lo] + mid, bs[hi..]);
    FreeBytesConcat(bs[..lo], bs[lo..hi]);
    FreeBytesConcat(bs[..lo] + bs[lo..hi], bs[hi..]);
    assert bs == bs[..lo] + bs[lo..hi] + bs[hi..];
  }

  lemma {:induction false} FreeBytesNonNegative(bs: seq<Block>)
    requires forall i :: 0 <= i < |bs| ==> bs[i].size >= 0
    ensures FreeBytes(bs) >= 0
  {
    if bs != [] {
      FreeBytesNonNegative(bs[1..]);
    }
  }

  lemma FreeBytes1(b: Block)
    ensures FreeBytes([b]) == if b.used then 0 else b.size
  {
    assert [b][1..] == [];
  }

  lemma FreeBytes2(b: Block, c: Block)
    ensures FreeBytes([b, c]) == (if b.used then 0 else b.size) + if c.used then 0 else c.size
  {
    assert [b, c][1..] == [c];
    FreeBytes1(c);
  }

  lemma FreeBytes3(b: Block, c: Block, d: Block)
    ensures FreeBytes([b, c, d]) ==
            (if b.used then 0 else b.size) + (if c.used then 0 else c.size) + if d.used then 0 else d.size
  {
    assert [b, c, d][1..] == [c, d];
    FreeBytes2(c, d);
  }

  // ---------------------------------------------------------------- replacing blocks

  /** mid covers the same addresses as the blocks lo..hi of bs, and fits between their neighbours. */
  ghost predicate Fits(bs: seq<Block>, lo: int, hi: int, mid: seq<Block>) {
    0 <= lo < hi < |bs| && |mid| > 0 && Contiguous(mid) && Coalesced(mid) &&
    mid[0].addr == bs[lo].addr &&
    Last(mid).addr + HEADER + Last(mid).size == bs[hi].addr &&
    (forall i :: 0 <= i < |mid| ==> mid[i].size % 4 == 0 && (mid[i].used ==> mid[i].size >= MIN_ALLOC)) &&
    (lo > 0 ==> bs[lo - 1].used || mid[0].used) &&
    (Last(mid).used || bs[hi].used)
  }

  /** Where the elements of a splice come from. */
  lemma SpliceAt(bs: seq<Block>, lo: int, hi: int, mid: seq<Block>)
    requires 0 <= lo <= hi <= |bs|
    ensures |Splice(bs, lo, hi, mid)| == |bs| - (hi - lo) + |mid|
    ensures forall i :: 0 <= i < lo ==> Splice(bs, lo, hi, mid)[i] == bs[i]
    ensures forall i :: lo <= i < lo + |mid| ==> Splice(bs, lo, hi, mid)[i] == mid[i - lo]
    ensures forall i :: lo + |mid| <= i < |Splice(bs, lo, hi, mid)| ==>
                          Splice(bs, lo, hi, mid)[i] == bs[i - lo - |mid| + hi]
  {
  }

  lemma SpliceTiles(bs: seq<Block>, start: int, pool: int, lo: int, hi: int, mid: seq<Block>)
    requires Tiles(bs, start, pool) && Fits(bs, lo, hi, mid)
    ensures Tiles(Splice(bs, lo, hi, mid), start, pool)
  {
    hide Splice, Coalesced;
    SpliceAt(bs, lo, hi, mid);
    var r := Splice(bs, lo, hi, mid);
    assert Last(r) == Last(bs);
    forall i | 0 <= i < |r| - 1
      ensures r[i + 1].addr == r[i].addr + HEADER + r[i].size
    {
      if i == lo - 1 {
        assert r[i] == bs[lo - 1] && r[i + 1] == mid[0];
      } else if i == lo + |mid| - 1 {
        assert r[i] == Last(mid) && r[i + 1] == bs[hi];
      }
    }
  }

  lemma SpliceCoalesced(bs: seq<Block>, lo: int, hi: int, mid: seq<Block>)
    requires Coalesced(bs) && Fits(bs, lo, hi, mid)
    ensures Coalesced(Splice(bs, lo, hi, mid))
  {
    hide Splice, Contiguous;
    SpliceAt(bs, lo, hi, mid);
    var r := Splice(bs, lo, hi, mid);
    forall i | 0 <= i < |r| - 1
      ensures r[i].used || r[i + 1].used
    {
      if i == lo - 1 {
        assert r[i] == bs[lo - 1] && r[i + 1] == mid[0];
      } else if i == lo + |mid| - 1 {
        assert r[i] == Last(mid) && r[i + 1] == bs[hi];
      }
    }
  }

  lemma SpliceSized(bs: seq<Block>, lo: int, hi: int, mid: seq<Block>)
    requires Sized(bs) && Fits(bs, lo, hi, mid)
    ensures Sized(Splice(bs, lo, hi, mid))
  {
    hide Splice, Contiguous, Coalesced;
    SpliceAt(bs, lo, hi, mid);
  }

  /** Which addresses are in use, or free, after a splice. */
  lemma SpliceAddrs(bs: seq<Block>, lo: int, hi: int, mid: seq<Block>, used: bool)
    requires Contiguous(bs) && 0 <= lo <= hi <= |bs|
    ensures Addrs(Splice(bs, lo, hi, mid), used) == Addrs(bs, used) - Addrs(bs[lo..hi], used) + Addrs(mid, used)
  {
    hide Splice;
    SpliceAt(bs, lo, hi, mid);
    var r := Splice(bs, lo, hi, mid);
    assert forall k :: lo <= k < hi ==> bs[lo..hi][k - lo] == bs[k];
    forall a | a in Addrs(bs, used) - Addrs(bs[lo..hi], used)
      ensures a in Addrs(r, used)
    {
      var i :| 0 <= i < |bs| && bs[i].used == used && bs[i].addr == a;
      assert r[if i < lo then i else i - hi + lo + |mid|] == bs[i];
    }
    forall a | a in Addrs(mid, used)
      ensures a in Addrs(r, used)
    {
      var i :| 0 <= i < |mid| && mid[i].used == used && mid[i].addr == a;
      assert r[lo + i] == mid[i];
    }
    forall a | a in Addrs(r, used)
      ensures a in Addrs(bs, used) - Addrs(bs[lo..hi], used) + Addrs(mid, used)
    {
      var i :| 0 <= i < |r| && r[i].used == used && r[i].addr == a;
      if lo <= i < lo + |mid| {
        assert r[i] == mid[i - lo];
      } else {
        Kept(bs, lo, hi, mid, i, used);
      }
    }
  }

  /** A block outside the spliced range is still there, and its address was not in the range. */
  lemma Kept(bs: seq<Block>, lo: int, hi: int, mid: seq<Block>, i: int, used: bool)
    requires Contiguous(bs) && 0 <= lo <= hi <= |bs|
    requires 0 <= i < |Splice(bs, lo, hi, mid)| && !(lo <= i < lo + |mid|)
    ensures var a := Splice(bs, lo, hi, mid)[i].addr;
            a !in Addrs(bs[lo..hi], used) &&
            exists k :: 0 <= k < |bs| && bs[k] == Splice(bs, lo, hi, mid)[i]
  {
    var a := Splice(bs, lo, hi, mid)[i].addr;
    var k := if i < lo then i else i - lo - |mid| + hi;
    assert bs[k] == Splice(bs, lo, hi, mid)[i];
    if a in Addrs(bs[lo..hi], used) {
      var j :| 0 <= j < hi - lo && bs[lo..hi][j].addr == a;
      assert bs[lo + j].addr == a;
      IndexOf(bs, lo + j);
      IndexOf(bs, k);
    }
  }

  // ---------------------------------------------------------------- free lists

  lemma {:induction false} WithoutElement(s: seq<int>, a: int)
    requires Distinct(s)
    ensures Distinct(Without(s, a)) && Elements(Without(s, a)) == Elements(s) - {a}
  {
    if s != [] {
      assert Distinct(s[1..]) by {
        assert forall i, j :: 0 <= i < j < |s[1..]| ==> s[1..][i] == s[i + 1] && s[1..][j] == s[j + 1];
      }
      assert Elements(s) == {s[0]} + Elements(s[1..]) by {
        Uncons(s);
      }
      if s[0] == a {
        assert a !in Elements(s[1..]);
      } else {
        WithoutElement(s[1..], a);
        Cons(s[0], Without(s[1..], a));
      }
    }
  }

  lemma Uncons(s: seq<int>)
    requires s != []
    ensures Elements(s) == {s[0]} + Elements(s[1..])
  {
    forall x | x in Elements(s)
      ensures x in {s[0]} + Elements(s[1..])
    {
      var i :| 0 <= i < |s| && s[i] == x;
      if i > 0 {
        assert s[1..][i - 1] == x;
      }
    }
    forall x | x in Elements(s[1..])
      ensures x in Elements(s)
    {
      var i :| 0 <= i < |s| - 1 && s[1..][i] == x;
      assert s[i + 1] == x;
    }
  }

  lemma Cons(a: int, s: seq<int>)
    requires Distinct(s) && a !in Elements(s)
    ensures Distinct([a] + s) && Elements([a] + s) == {a} + Elements(s)
  {
    Uncons([a] + s);
    assert ([a] + s)[1..] == s;
  }

  // ---------------------------------------------------------------- one operation

  /** A splice that fits, with a matching free list and counter, keeps the invariant. */
  lemma SpliceInv(h: Heap, lo: int, hi: int, mid: seq<Block>, h': Heap)
    requires Inv(h) && Fits(h.blocks, lo, hi, mid)
    requires h'.start == h.start && h'.pool == h.pool && h'.blocks == Splice(h.blocks, lo, hi, mid)
    requires Distinct(h'.free)
    requires Elements(h'.free) == Elements(h.free) - FreeAddrs(h.blocks[lo..hi]) + FreeAddrs(mid)
    requires h'.available == h.available - FreeBytes(h.blocks[lo..hi]) + FreeBytes(mid)
    requires h'.maxUsed >= h.pool - h'.available
    ensures Inv(h')
  {
    SpliceTiles(h.blocks, h.start, h.pool, lo, hi, mid);
    SpliceCoalesced(h.blocks, lo, hi, mid);
    SpliceSized(h.blocks, lo, hi, mid);
    SpliceAddrs(h.blocks, lo, hi, mid, false);
    FreeBytesSplice(h.blocks, lo, hi, mid);
  }

  lemma InitInv(start: int, size: int)
    requires 0 < start && 2 * HEADER <= size / 4 * 4 && start + size <= ADDRESS_SPACE
    ensures Inv(Init(start, size))
  {
    var h := Init(start, size);
    FreeBytes2(h.blocks[0], h.blocks[1]);
    assert FreeAddrs(h.blocks) == {start};
    Cons(start, []);
    assert [start] + [] == [start];
  }

  /** What the first fit finds is the header of a free block with enough room, and nothing before
      it on the list has enough; it finds nothing only if no free block is large enough. */
  lemma {:induction false} FirstFitFinds(bs: seq<Block>, free: seq<int>, size: int)
    ensures match FirstFit(bs, free, size)
            case None => forall k :: 0 <= k < |free| ==> SizeAt(bs, free[k]) < size
            case Some(a) => exists j :: 0 <= j < |free| && free[j] == a && SizeAt(bs, a) >= size &&
                                        forall k :: 0 <= k < j ==> SizeAt(bs, free[k]) < size
  {
    if free == [] {
    } else if SizeAt(bs, free[0]) >= size {
      assert free[0] == free[0];
    } else {
      FirstFitFinds(bs, free[1..], size);
      match FirstFit(bs, free[1..], size)
      case None =>
        forall k | 0 <= k < |free|
          ensures SizeAt(bs, free[k]) < size
        {
          assert k > 0 ==> free[k] == free[1..][k - 1];
        }
      case Some(a) =>
        var j :| 0 <= j < |free[1..]| && free[1..][j] == a && SizeAt(bs, a) >= size &&
                 forall k :: 0 <= k < j ==> SizeAt(bs, free[1..][k]) < size;
        assert free[j + 1] == a;
        forall k | 0 <= k < j + 1
          ensures SizeAt(bs, free[k]) < size
        {
          assert k > 0 ==> free[k] == free[1..][k - 1];
        }
    }
  }

  /** An address on the free list is a free block before the tailer. */
  lemma FreeListed(h: Heap, a: int)
    requires Inv(h) && a in Elements(h.free)
    ensures 0 <= Index(h.blocks, a) < |h.blocks| - 1 && !h.blocks[Index(h.blocks, a)].used
  {
    var i :| 0 <= i < |h.blocks| && !h.blocks[i].used && h.blocks[i].addr == a;
    IndexOf(h.blocks, i);
  }

  /** What the block at i becomes when it is taken. */
  function Taken(b: Block, size: int): seq<Block> {
    if b.size >= size + HEADER + MIN_ALLOC then Cut(b, size) else [b.(used := true)]
  }

  lemma TakeFits(h: Heap, i: int, size: int)
    requires Inv(h) && 0 <= i < |h.blocks| - 1 && !h.blocks[i].used
    requires MIN_ALLOC <= size <= h.blocks[i].size && size % 4 == 0
    ensures Fits(h.blocks, i, i + 1, Taken(h.blocks[i], size))
  {
    hide Inv;
    TakeFacts(h, i);
  }

  lemma TakeInv(h: Heap, i: int, size: int)
    requires Inv(h) && 0 <= i < |h.blocks| - 1 && !h.blocks[i].used
    requires MIN_ALLOC <= size <= h.blocks[i].size && size % 4 == 0
    ensures Inv(Take(h, i, size))
  {
    hide Inv, Fits, FreeBytes, FreeAddrs, Elements, Without, Distinct, Splice;
    var b := h.blocks[i];
    TakeFacts(h, i);
    TakeFits(h, i, size);
    assert h.blocks[i..i + 1] == [b];
    FreeBytes1(b);
    WithoutElement(h.free, b.addr);
    FreeAddrs3(b, b, b);
    if b.size >= size + HEADER + MIN_ALLOC {
      var mid := Cut(b, size);
      FreeBytes2(mid[0], mid[1]);
      FreeAddrs3(mid[0], mid[1], mid[1]);
      NewHeader(h, i, mid[1].addr);
      Cons(mid[1].addr, Without(h.free, b.addr));
      SpliceInv(h, i, i + 1, mid, Take(h, i, size));
    } else {
      var mid := [b.(used := true)];
      FreeBytes1(mid[0]);
      FreeAddrs3(mid[0], mid[0], mid[0]);
      SpliceInv(h, i, i + 1, mid, Take(h, i, size));
    }
  }

  lemma TakeFacts(h: Heap, i: int)
    requires Inv(h) && 0 <= i < |h.blocks| - 1
    ensures h.blocks[i].size % 4 == 0 && h.blocks[i].size >= 0
    ensures h.blocks[i + 1].addr == h.blocks[i].addr + HEADER + h.blocks[i].size
    ensures !h.blocks[i].used ==> h.blocks[i + 1].used
    ensures i > 0 ==> h.blocks[i].addr == h.blocks[i - 1].addr + HEADER + h.blocks[i - 1].size
    ensures i > 0 && !h.blocks[i].used ==> h.blocks[i - 1].used
    ensures Distinct(h.free)
    ensures h.blocks[i].used ==> h.blocks[i].size >= MIN_ALLOC
    ensures h.maxUsed >= h.pool - h.available
    ensures FreeAfter(h.blocks, i) ==>
              i + 2 < |h.blocks| && h.blocks[i + 2].used && h.blocks[i + 1].size >= 0 && h.blocks[i + 1].size % 4 == 0 &&
              h.blocks[i + 2].addr == h.blocks[i + 1].addr + HEADER + h.blocks[i + 1].size
    ensures FreeBefore(h.blocks, i) ==>
              h.blocks[i - 1].size >= 0 && h.blocks[i - 1].size % 4 == 0 && (i > 1 ==> h.blocks[i - 2].used)
  {
  }

  /** An address inside a block is not the header of any block. */
  lemma NewHeader(h: Heap, i: int, a: int)
    requires Inv(h) && 0 <= i < |h.blocks| && h.blocks[i].addr < a < h.blocks[i].addr + HEADER + h.blocks[i].size
    ensures a !in Elements(h.free)
  {
    if a in Elements(h.free) {
      FreeListed(h, a);
      var k := Index(h.blocks, a);
      if i < k {
        Ordered(h.blocks, i, k);
      } else if k < i {
        Ordered(h.blocks, k, i);
      }
    }
  }

  lemma FreeAddrs3(b: Block, c: Block, d: Block)
    ensures FreeAddrs([b]) == if b.used then {} else {b.addr}
    ensures FreeAddrs([b, c]) == (if b.used then {} else {b.addr}) + if c.used then {} else {c.addr}
    ensures FreeAddrs([b, c, d]) ==
            (if b.used then {} else {b.addr}) + (if c.used then {} else {c.addr}) + if d.used then {} else {d.addr}
  {
    assert [b][0] == b;
    assert [b, c][0] == b && [b, c][1] == c;
    assert [b, c, d][0] == b && [b, c, d][1] == c && [b, c, d][2] == d;
  }

  /** A free block is on the free list, a used one is not. */
  lemma Listed(h: Heap, i: int)
    requires Inv(h) && 0 <= i < |h.blocks|
    ensures h.blocks[i].addr in Elements(h.free) <==> !h.blocks[i].used
  {
    if h.blocks[i].addr in Elements(h.free) {
      FreeListed(h, h.blocks[i].addr);
      IndexOf(h.blocks, i);
    }
  }

  /** Counting a block of bytes and addresses at i, with its free neighbours. */
  lemma Neighbourhood(bs: seq<Block>, i: int)
    requires 0 <= i < |bs| - 1 && bs[i].used
    ensures var lo := if FreeBefore(bs, i) then i - 1 else i;
            var hi := if FreeAfter(bs, i) then i + 1 else i;
            var around := bs[lo..hi + 1];
            FreeBytes(around) == (if FreeBefore(bs, i) then bs[lo].size else 0) + (if FreeAfter(bs, i) then bs[hi].size else 0) &&
            FreeAddrs(around) == (if FreeBefore(bs, i) then {bs[lo].addr} else {}) + (if FreeAfter(bs, i) then {bs[hi].addr} else {})
  {
    var lo := if FreeBefore(bs, i) then i - 1 else i;
    var hi := if FreeAfter(bs, i) then i + 1 else i;
    var around := bs[lo..hi + 1];
    if lo < i < hi {
      assert around == [bs[lo], bs[i], bs[hi]];
      FreeBytes3(bs[lo], bs[i], bs[hi]);
      FreeAddrs3(bs[lo], bs[i], bs[hi]);
    } else if lo < hi {
      assert around == [bs[lo], bs[hi]];
      FreeBytes2(bs[lo], bs[hi]);
      FreeAddrs3(bs[lo], bs[hi], bs[hi]);
    } else {
      assert around == [bs[i]];
      FreeBytes1(bs[i]);
      FreeAddrs3(bs[i], bs[i], bs[i]);
    }
  }

  lemma FreeAtInv(h: Heap, i: int)
    requires Inv(h) && 0 <= i < |h.blocks| - 1 && h.blocks[i].used
    ensures Inv(FreeAt(h, i))
  {
    hide Inv, Fits, FreeBytes, FreeAddrs, Elements, Without, Distinct, Splice;
    var bs := h.blocks;
    var h' := FreeAt(h, i);
    var before, after := FreeBefore(bs, i), FreeAfter(bs, i);
    var lo := if before then i - 1 else i;
    var hi := if after then i + 1 else i;
    var merged := Block(bs[lo].addr, bs[hi].addr + bs[hi].size - bs[lo].addr, false);
    assert h'.blocks == Splice(bs, lo, hi + 1, [merged]);
    MergeFits(h, i);
    Neighbourhood(bs, i);
    FreeBytes1(merged);
    FreeAddrs3(merged, merged, merged);
    Listed(h, i);
    Listed(h, lo);
    Listed(h, hi);
    TakeFacts(h, i);
    WithoutElement(h.free, bs[i + 1].addr);
    var free := if after then Without(h.free, bs[i + 1].addr) else h.free;
    assert Distinct(free) && Elements(free) == Elements(h.free) - if after then {bs[hi].addr} else {};
    assert bs[i].addr !in Elements(free);
    Cons(bs[i].addr, free);
    assert Distinct(h'.free);
    assert lo == i ==> merged.addr == bs[i].addr;
    MergeBytes(h, i);
    SpliceInv(h, lo, hi + 1, [merged], h');
  }

  lemma MergeFits(h: Heap, i: int)
    requires Inv(h) && 0 <= i < |h.blocks| - 1 && h.blocks[i].used
    ensures var bs := h.blocks;
            var lo := if FreeBefore(bs, i) then i - 1 else i;
            var hi := if FreeAfter(bs, i) then i + 1 else i;
            Fits(bs, lo, hi + 1, [Block(bs[lo].addr, bs[hi].addr + bs[hi].size - bs[lo].addr, false)])
  {
    hide Inv;
    TakeFacts(h, i);
  }

  /** The counter moves by the freed payload and one header for every merge; the merged block is
      larger by just that, and the high-water mark stays above. */
  lemma MergeBytes(h: Heap, i: int)
    requires Inv(h) && 0 <= i < |h.blocks| - 1 && h.blocks[i].used
    ensures var bs := h.blocks;
            var lo := if FreeBefore(bs, i) then i - 1 else i;
            var hi := if FreeAfter(bs, i) then i + 1 else i;
            FreeAt(h, i).available - h.available ==
            bs[hi].addr + bs[hi].size - bs[lo].addr
            - (if FreeBefore(bs, i) then bs[lo].size else 0) - (if FreeAfter(bs, i) then bs[hi].size else 0)
    ensures h.maxUsed >= h.pool - FreeAt(h, i).available
  {
  }

  lemma ResizeInv(h: Heap, i: int, size: int, h': Heap)
    requires Inv(h) && 0 <= i < |h.blocks| - 1 && h.blocks[i].used
    requires MIN_ALLOC <= size && size % 4 == 0
    requires CanGrow(h.blocks, i, size) || size + HEADER + MIN_ALLOC < h.blocks[i].size
    requires var r := ResizeAt(h, i, size);
             h' == r.(available := h.available + ResizeGain(h.blocks, i, size), maxUsed := h'.maxUsed)
    requires h'.maxUsed >= h.pool - h'.available
    ensures Inv(h')
  {
    hide Inv, Fits, FreeBytes, FreeAddrs, Elements, Without, Distinct, Splice;
    var bs := h.blocks;
    var after := FreeAfter(bs, i);
    var hi := if after then i + 1 else i;
    var whole := bs[i].(size := bs[hi].addr + bs[hi].size - bs[i].addr);
    var mid := Cut(whole, size);
    TakeFacts(h, i);
    ResizeFits(h, i, size);
    assert bs[i..hi + 1] == if after then [bs[i], bs[hi]] else [bs[i]];
    FreeBytes1(bs[i]);
    FreeBytes2(bs[i], bs[hi]);
    FreeAddrs3(bs[i], bs[hi], bs[hi]);
    FreeBytes2(mid[0], mid[1]);
    FreeAddrs3(mid[0], mid[1], mid[1]);
    WithoutElement(h.free, bs[i + 1].addr);
    var free := if after then Without(h.free, bs[i + 1].addr) else h.free;
    assert mid[1].addr !in Elements(free) by {
      ResizeHeader(h, i, size);
    }
    Cons(mid[1].addr, free);
    SpliceInv(h, i, hi + 1, mid, h');
  }

  lemma Multiples(a: int, b: int, c: int)
    requires a % 4 == 0 && b % 4 == 0 && c % 4 == 0
    ensures (a + HEADER + b) % 4 == 0 && (a - c - HEADER) % 4 == 0 && (a + HEADER + b - c - HEADER) % 4 == 0
  {
  }

  lemma ResizeFits(h: Heap, i: int, size: int)
    requires Inv(h) && 0 <= i < |h.blocks| - 1 && h.blocks[i].used
    requires MIN_ALLOC <= size && size % 4 == 0
    requires CanGrow(h.blocks, i, size) || size + HEADER + MIN_ALLOC < h.blocks[i].size
    ensures var bs := h.blocks;
            var hi := if FreeAfter(bs, i) then i + 1 else i;
            var whole := bs[i].(size := bs[hi].addr + bs[hi].size - bs[i].addr);
            Fits(bs, i, hi + 1, Cut(whole, size)) && whole.size % 4 == 0
  {
    hide Inv;
    TakeFacts(h, i);
    var bs := h.blocks;
    var hi := if FreeAfter(bs, i) then i + 1 else i;
    var whole := bs[i].(size := bs[hi].addr + bs[hi].size - bs[i].addr);
    assert whole.size == bs[i].size + if FreeAfter(bs, i) then HEADER + bs[hi].size else 0;
    assert whole.size > size + MIN_ALLOC;
    Multiples(bs[i].size, bs[hi].size, size);
    assert whole.size % 4 == 0 && (whole.size - size - HEADER) % 4 == 0;
  }

  /** The header of the new free block is on the free list only if it is the old successor's. */
  lemma ResizeHeader(h: Heap, i: int, size: int)
    requires Inv(h) && 0 <= i < |h.blocks| - 1 && h.blocks[i].used
    requires MIN_ALLOC <= size
    requires CanGrow(h.blocks, i, size) || size + HEADER + MIN_ALLOC < h.blocks[i].size
    ensures var a := h.blocks[i].addr + HEADER + size;
            a !in Elements(h.free) || (FreeAfter(h.blocks, i) && a == h.blocks[i + 1].addr)
  {
    var bs := h.blocks;
    var a := bs[i].addr + HEADER + size;
    if a < bs[i].addr + HEADER + bs[i].size {
      NewHeader(h, i, a);
    } else if a != bs[i + 1].addr {
      NewHeader(h, i + 1, a);
    }
  }

  // ---------------------------------------------------------------- whole operations

  lemma AllocInv(h: Heap, request: int)
    requires Inv(h) && 0 <= request < ADDRESS_SPACE
    ensures Inv(Alloc(h, request).0)
  {
    hide Inv, Take;
    var size := Aligned(request);
    FirstFitFinds(h.blocks, h.free, size);
    var fit := if size < h.available then FirstFit(h.blocks, h.free, size) else None;
    if fit.Some? {
      assert fit.value in Elements(h.free);
      FreeListed(h, fit.value);
      TakeInv(h, Index(h.blocks, fit.value), size);
    }
  }

  lemma FreeInv(h: Heap, a: int)
    requires Inv(h) && Live(h.blocks, a)
    ensures Inv(Free(h, a))
  {
    FreeAtInv(h, Index(h.blocks, a));
  }
}
