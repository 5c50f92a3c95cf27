/** The lwp memory heap as a value: an address-ordered sequence of blocks that tiles the pool,
    the free list in its own order, and the byte counters. Operations are functions on it. */
module MemheapModel {
  import opened Basics
  import opened Rings

  const HEADER: int := 24      // RT_MEMHEAP_SIZE: six 32-bit fields
  const MIN_ALLOC: int := 12   // RT_MEMHEAP_MINIALLOC
  const ADDRESS_SPACE: int := 0x1_0000_0000

  /** A block: address of its header, payload bytes, and whether it is in use. The last block of
      a heap is the tailer, in use and without payload. */
  datatype Block = Block(addr: int, size: int, used: bool)

  datatype Heap = Heap(
    start: int, pool: int,
    blocks: seq<Block>,
    free: seq<int>,
    available: int, maxUsed: int)

  // ---------------------------------------------------------------- shape of the block list

  /** The blocks lie end to end. */
  ghost predicate Contiguous(bs: seq<Block>) {
    (forall i :: 0 <= i < |bs| ==> bs[i].size >= 0) &&
    forall i :: 0 <= i < |bs| - 1 ==> bs[i + 1].addr == bs[i].addr + HEADER + bs[i].size
  }

  /** From the first header to the end of the tailer the blocks cover the pool exactly. */
  ghost predicate Tiles(bs: seq<Block>, start: int, pool: int) {
    |bs| >= 2 && Contiguous(bs) && bs[0].addr == start &&
    Last(bs).used && Last(bs).size == 0 && Last(bs).addr + HEADER == start + pool
  }

  function Last(bs: seq<Block>): Block
    requires |bs| > 0
  {
    bs[|bs| - 1]
  }

  /** No two neighbouring blocks are both free. */
  ghost predicate Coalesced(bs: seq<Block>) {
    forall i :: 0 <= i < |bs| - 1 ==> bs[i].used || bs[i + 1].used
  }

  /** Every allocated block has at least the minimal payload; payloads are multiples of four. */
  ghost predicate Sized(bs: seq<Block>) {
    (forall i :: 0 <= i < |bs| - 1 && bs[i].used ==> bs[i].size >= MIN_ALLOC) &&
    forall i :: 0 <= i < |bs| ==> bs[i].size % 4 == 0
  }

  function FreeBytes(bs: seq<Block>): int {
    if bs == [] then 0 else (if bs[0].used then 0 else bs[0].size) + FreeBytes(bs[1..])
  }

  /** The headers of the blocks that are in use, or of those that are not. */
  ghost function Addrs(bs: seq<Block>, used: bool): set<int> {
    set i | 0 <= i < |bs| && bs[i].used == used :: bs[i].addr
  }

  ghost function FreeAddrs(bs: seq<Block>): set<int> {
    Addrs(bs, false)
  }

  ghost function Elements(s: seq<int>): set<int> {
    set i | 0 <= i < |s| :: s[i]
  }

  /** The allocator invariant. */
  ghost predicate Inv(h: Heap) {
    0 < h.start && 2 * HEADER <= h.pool && h.start + h.pool <= ADDRESS_SPACE &&
    Tiles(h.blocks, h.start, h.pool) && Coalesced(h.blocks) && Sized(h.blocks) &&
    Distinct(h.free) && Elements(h.free) == FreeAddrs(h.blocks) &&
    h.available == FreeBytes(h.blocks) &&
    h.maxUsed >= h.pool - h.available
  }

  // ---------------------------------------------------------------- lookup

  ghost predicate HasBlock(bs: seq<Block>, a: int) {
    exists i :: 0 <= i < |bs| && bs[i].addr == a
  }

  /** Position of the block whose header is at a. */
  function Index(bs: seq<Block>, a: int): (i: int)
    ensures -1 <= i < |bs|
    ensures i >= 0 ==> bs[i].addr == a
    ensures i == -1 <==> !HasBlock(bs, a)
  {
    if bs == [] then -1
    else if bs[|bs| - 1].addr == a then |bs| - 1
    else Index(bs[..|bs| - 1], a)
  }

  function SizeAt(bs: seq<Block>, a: int): int {
    if Index(bs, a) < 0 then 0 else bs[Index(bs, a)].size
  }

  /** A live allocation: an allocated block other than the tailer, named by its header. */
  ghost predicate Live(bs: seq<Block>, a: int) {
    0 <= Index(bs, a) < |bs| - 1 && bs[Index(bs, a)].used
  }

  ghost function UsedBlocks(bs: seq<Block>): set<Block> {
    set i | 0 <= i < |bs| && bs[i].used :: bs[i]
  }

  /** What the callers hold: every allocated block but the tailer. */
  ghost function LiveBlocks(bs: seq<Block>): set<Block> {
    if bs == [] then {} else UsedBlocks(bs) - {Last(bs)}
  }

  // ---------------------------------------------------------------- operations

  /** RT_ALIGN to four bytes in 32-bit arithmetic, then the minimal allocation. */
  function Aligned(size: int): (r: int)
    requires 0 <= size < ADDRESS_SPACE
    ensures r % 4 == 0 && MIN_ALLOC <= r < ADDRESS_SPACE
  {
    var s := (size + 3) % ADDRESS_SPACE / 4 * 4;
    if s < MIN_ALLOC then MIN_ALLOC else s
  }

  /** rt_lwp_memheap_init. */
  function Init(start: int, size: int): Heap {
    var pool := size / 4 * 4;
    Heap(start, pool,
         [Block(start, pool - 2 * HEADER, false), Block(start + pool - HEADER, 0, true)],
         [start], pool - 2 * HEADER, 2 * HEADER)
  }

  /** The first address on the free list whose block has room for size bytes. */
  function FirstFit(bs: seq<Block>, free: seq<int>, size: int): Option<int> {
    if free == [] then None
    else if SizeAt(bs, free[0]) >= size then Some(free[0])
    else FirstFit(bs, free[1..], size)
  }

  function Without(s: seq<int>, a: int): seq<int> {
    if s == [] then [] else if s[0] == a then s[1..] else [s[0]] + Without(s[1..], a)
  }

  function Max(a: int, b: int): int {
    if a < b then b else a
  }

  /** Replace the blocks in lo..hi. */
  function Splice(bs: seq<Block>, lo: int, hi: int, mid: seq<Block>): seq<Block>
    requires 0 <= lo <= hi <= |bs|
  {
    bs[..lo] + mid + bs[hi..]
  }

  /** The two blocks a block is cut into. */
  function Cut(b: Block, size: int): seq<Block> {
    [Block(b.addr, size, true), Block(b.addr + HEADER + size, b.size - size - HEADER, false)]
  }

  function WithAvailable(h: Heap, available: int): Heap {
    h.(available := available, maxUsed := Max(h.maxUsed, h.pool - available))
  }

  /** rt_lwp_memheap_alloc: the new heap and the header of the block handed out. */
  function Alloc(h: Heap, request: int): (Heap, Option<int>)
    requires 0 <= request < ADDRESS_SPACE
  {
    var size := Aligned(request);
    var fit := if size < h.available then FirstFit(h.blocks, h.free, size) else None;
    if fit.None? || Index(h.blocks, fit.value) < 0 then (h, None) else
    (Take(h, Index(h.blocks, fit.value), size), fit)
  }

  /** Take the free block at i, splitting it when the rest can hold a block. */
  function Take(h: Heap, i: int, size: int): Heap
    requires 0 <= i < |h.blocks|
  {
    var b := h.blocks[i];
    if b.size >= size + HEADER + MIN_ALLOC then
      WithAvailable(h.(blocks := Splice(h.blocks, i, i + 1, Cut(b, size)),
                       free := [b.addr + HEADER + size] + Without(h.free, b.addr)),
                    h.available - size - HEADER)
    else
      WithAvailable(h.(blocks := Splice(h.blocks, i, i + 1, [b.(used := true)]),
                       free := Without(h.free, b.addr)),
                    h.available - b.size)
  }

  /** Whether the block before (after) i is free; the ring's neighbours of the first block are the
      tailer and the second block. */
  predicate FreeBefore(bs: seq<Block>, i: int)
    requires 0 <= i < |bs|
  {
    i > 0 && !bs[i - 1].used
  }

  predicate FreeAfter(bs: seq<Block>, i: int)
    requires 0 <= i < |bs|
  {
    i + 1 < |bs| && !bs[i + 1].used
  }

  /** rt_lwp_memheap_free of the block at i: merged with its free neighbours. */
  function FreeAt(h: Heap, i: int): Heap
    requires 0 <= i < |h.blocks|
  {
    var bs := h.blocks;
    var lo := if FreeBefore(bs, i) then i - 1 else i;
    var hi := if FreeAfter(bs, i) then i + 1 else i;
    var merged := Block(bs[lo].addr, bs[hi].addr + bs[hi].size - bs[lo].addr, false);
    var free := if FreeAfter(bs, i) then Without(h.free, bs[i + 1].addr) else h.free;
    h.(blocks := Splice(bs, lo, hi + 1, [merged]),
       free := if FreeBefore(bs, i) then free else [bs[i].addr] + free,
       available := h.available + bs[i].size + (if FreeBefore(bs, i) then HEADER else 0)
                    + (if FreeAfter(bs, i) then HEADER else 0))
  }

  function Free(h: Heap, a: int): Heap {
    if Index(h.blocks, a) < 0 then h else FreeAt(h, Index(h.blocks, a))
  }

  /** In-place growth of the block at i into the free block after it. */
  predicate CanGrow(bs: seq<Block>, i: int, size: int)
    requires 0 <= i < |bs|
  {
    FreeAfter(bs, i) && bs[i + 1].size + bs[i].size > size + MIN_ALLOC
  }

  /** The block at i resized to `size`, the rest of it and of a free successor being one free block. */
  function ResizeAt(h: Heap, i: int, size: int): Heap
    requires 0 <= i < |h.blocks|
  {
    var bs := h.blocks;
    var hi := if FreeAfter(bs, i) then i + 1 else i;
    var whole := bs[i].(size := bs[hi].addr + bs[hi].size - bs[i].addr);
    var free := if FreeAfter(bs, i) then Without(h.free, bs[i + 1].addr) else h.free;
    h.(blocks := Splice(bs, i, hi + 1, Cut(whole, size)),
       free := [bs[i].addr + HEADER + size] + free)
  }

  /** rt_lwp_memheap_realloc of the block with header a (None for a null pointer): the new heap
      and the header of the resulting block, None for a null result. */
  function Realloc(h: Heap, a: Option<int>, request: int): (Heap, Option<int>)
    requires 0 <= request < ADDRESS_SPACE
  {
    if request == 0 then (if a.None? then h else Free(h, a.value), None)
    else if a.None? then Alloc(h, Aligned(request))
    else if Index(h.blocks, a.value) < 0 then (h, None)
    else Resized(h, Index(h.blocks, a.value), Aligned(request))
  }

  /** The block at i brought to an aligned size: grown into its successor, moved, left, or cut. */
  function Resized(h: Heap, i: int, size: int): (Heap, Option<int>)
    requires 0 <= i < |h.blocks| && 0 <= size < ADDRESS_SPACE
  {
    var b := h.blocks[i];
    if size > b.size then
      if CanGrow(h.blocks, i, size)
      then (WithAvailable(ResizeAt(h, i, size), h.available - (size - b.size)), Some(b.addr))
      else
        var (h', r) := Alloc(h, size);
        if r.None? then (h', None) else (Free(h', b.addr), r)
    else if size + HEADER + MIN_ALLOC >= b.size then (h, Some(b.addr))
    else (ResizeAt(h, i, size).(available := h.available + ResizeGain(h.blocks, i, size)), Some(b.addr))
  }

  /** What shrinking the block at i gives back, net of the header it costs. */
  function ResizeGain(bs: seq<Block>, i: int, size: int): int
    requires 0 <= i < |bs|
  {
    bs[i].size - size - (if FreeAfter(bs, i) then 0 else HEADER)
  }

  /** rt_lwp_memheap_is_empty. */
  predicate IsEmpty(h: Heap) {
    h.available + 2 * HEADER == h.pool
  }
}
