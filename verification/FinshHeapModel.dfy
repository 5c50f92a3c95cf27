/** The finsh heap as the list of its blocks in address order. The free list and the allocated list
    are the blocks of either kind, in that order. */
module FinshHeapModel {
  import opened Basics

  const HEADER: int := 8          // sizeof(struct finsh_block_header)
  const HEAP_MAX: int := 128      // FINSH_HEAP_MAX
  const SIZE_SPACE: int := 0x1_0000_0000

  datatype Block = Block(addr: int, size: int, used: bool)

  function End(b: Block): int {
    b.addr + HEADER + b.size
  }

  /** HEAP_ALIGN_SIZE. */
  function Aligned(size: int): int {
    (size + 3) / 4 * 4
  }

  /** finsh_heap_init. */
  function Init(): seq<Block> {
    [Block(0, HEAP_MAX - HEADER, false)]
  }

  /** finsh_block_split followed by the move to the allocated list. */
  function Take(bs: seq<Block>, i: int, size: int): seq<Block>
    requires 0 <= i < |bs|
  {
    bs[..i] + Pieces(bs[i], size) + bs[i + 1..]
  }

  function Pieces(b: Block, size: int): seq<Block> {
    [Block(b.addr, size, true), Block(b.addr + HEADER + size, b.size - HEADER - size, false)]
  }

  predicate FreeLeft(bs: seq<Block>, i: int)
    requires 0 <= i < |bs|
  {
    i > 0 && !bs[i - 1].used
  }

  predicate FreeRight(bs: seq<Block>, i: int)
    requires 0 <= i < |bs|
  {
    i + 1 < |bs| && !bs[i + 1].used
  }

  /** The move to the free list followed by finsh_block_merge. */
  function FreeAt(bs: seq<Block>, i: int): seq<Block>
    requires 0 <= i < |bs|
  {
    var lo := if FreeLeft(bs, i) then i - 1 else i;
    var hi := if FreeRight(bs, i) then i + 2 else i + 1;
    bs[..lo] + [Merged(bs, lo, hi)] + bs[hi..]
  }

  /** One free block in place of blocks lo to hi - 1, headers of all but the first included. */
  function Merged(bs: seq<Block>, lo: int, hi: int): Block
    requires 0 <= lo < hi <= |bs|
  {
    Block(bs[lo].addr, End(bs[hi - 1]) - HEADER - bs[lo].addr, false)
  }

  /** The blocks of one kind, in address order. */
  function Picked(bs: seq<Block>, used: bool): seq<Block> {
    if bs == [] then [] else
    var last := bs[|bs| - 1];
    Picked(bs[..|bs| - 1], used) + if last.used == used then [last] else []
  }

  /** Where the j-th block of a kind lies. */
  function Place(bs: seq<Block>, used: bool, j: int): (i: int)
    requires 0 <= j < |Picked(bs, used)|
    ensures 0 <= i < |bs| && bs[i].used == used && bs[i] == Picked(bs, used)[j]
    ensures Picked(bs[..i], used) == Picked(bs, used)[..j]
  {
    var n := |bs| - 1;
    if j < |Picked(bs[..n], used)| then
      var i := Place(bs[..n], used, j);
      assert bs[..n][..i] == bs[..i];
      i
    else n
  }

  /** The first block of a list with at least `need` bytes, or the list's length. */
  function FirstFit(s: seq<Block>, need: int): (j: int)
    ensures 0 <= j <= |s|
    ensures forall k :: 0 <= k < j ==> s[k].size < need
    ensures j < |s| ==> s[j].size >= need
  {
    if s == [] then 0 else
    var n := |s| - 1;
    var j := FirstFit(s[..n], need);
    if j < n then j else if s[n].size >= need then n else n + 1
  }

  /** A user variable as the collector sees it: whether it has a type, and the pointer reading of
      its value, as an offset into the heap. */
  datatype Variable = Variable(typed: bool, pointer: int)

  /** Some typed variable holds the data address of the block at a. */
  predicate Held(variables: seq<Variable>, a: int) {
    exists i :: 0 <= i < |variables| && variables[i].typed && variables[i].pointer == a + HEADER
  }

  /** finsh_heap_free of the block at a. */
  function FreeAddr(bs: seq<Block>, a: int): seq<Block> {
    var i := Index(bs, a);
    if i < |bs| then FreeAt(bs, i) else bs
  }

  /** The used block at a, or the number of blocks. */
  function Index(bs: seq<Block>, a: int): (i: int)
    ensures 0 <= i <= |bs|
    ensures i < |bs| ==> bs[i].used && bs[i].addr == a
    ensures i == |bs| ==> forall k :: 0 <= k < |bs| ==> !(bs[k].used && bs[k].addr == a)
  {
    if bs == [] then 0 else
    var n := |bs| - 1;
    var i := Index(bs[..n], a);
    if i < n then i else if bs[n].used && bs[n].addr == a then n else n + 1
  }

  /** The walk of finsh_heap_gc over the allocated blocks in `todo`. */
  function Collect(bs: seq<Block>, todo: seq<Block>, variables: seq<Variable>): seq<Block>
    decreases |todo|
  {
    if todo == [] then bs else
    Collect(if Held(variables, todo[0].addr) then bs else FreeAddr(bs, todo[0].addr), todo[1..], variables)
  }

  /** finsh_heap_gc. */
  function Gc(bs: seq<Block>, variables: seq<Variable>): seq<Block> {
    Collect(bs, Picked(bs, true), variables)
  }

  /** Take the j-th free block. */
  function TakeFree(bs: seq<Block>, j: int, size: int): (seq<Block>, Option<int>)
    requires 0 <= j < |Picked(bs, false)|
  {
    var i := Place(bs, false, j);
    (Take(bs, i, size), Some(bs[i].addr))
  }

  /** finsh_heap_allocate: the first search asks for one byte more than the second, which follows
      the collector. */
  function Allocate(bs: seq<Block>, request: int, variables: seq<Variable>): (seq<Block>, Option<int>) {
    var size := Aligned(request);
    var j := FirstFit(Picked(bs, false), size + HEADER + 1);
    if j < |Picked(bs, false)| then TakeFree(bs, j, size) else
    var bs' := Gc(bs, variables);
    var j' := FirstFit(Picked(bs', false), size + HEADER);
    if j' < |Picked(bs', false)| then TakeFree(bs', j', size) else (bs', None)
  }

  // ---------------------------------------------------------------- the invariant

  /** The blocks cover lo to hi without gap or overlap. */
  ghost predicate Spans(bs: seq<Block>, lo: int, hi: int) {
    if bs == [] then lo == hi else
    var last := bs[|bs| - 1];
    last.size >= 0 && last.size % 4 == 0 && End(last) == hi && Spans(bs[..|bs| - 1], lo, last.addr)
  }

  /** Not both free. */
  predicate Parted(bs: seq<Block>, i: int)
    requires 0 < i < |bs|
  {
    bs[i - 1].used || bs[i].used
  }

  ghost predicate Separated(bs: seq<Block>) {
    forall i :: 0 < i < |bs| ==> Parted(bs, i)
  }

  /** The highest block is free. */
  predicate LastFree(bs: seq<Block>) {
    |bs| > 0 && !bs[|bs| - 1].used
  }

  ghost predicate Inv(bs: seq<Block>) {
    Spans(bs, 0, HEAP_MAX) && Separated(bs) && LastFree(bs)
  }

  /** A user holds the block at a. */
  ghost predicate Live(bs: seq<Block>, a: int) {
    exists i :: 0 <= i < |bs| && bs[i].used && bs[i].addr == a
  }
}
