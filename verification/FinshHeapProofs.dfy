/** What the finsh heap keeps over every run, and what its operations mean for their callers. */
module FinshHeapProofs {
  import opened Basics
  import opened FinshHeapModel

  // ---------------------------------------------------------------- spans

  function Edge(bs: seq<Block>, i: int, hi: int): int
    requires 0 <= i <= |bs|
  {
    if i < |bs| then bs[i].addr else hi
  }

  lemma {:induction false} SpansAppend(a: seq<Block>, b: seq<Block>, lo: int, mid: int, hi: int)
    requires Spans(a, lo, mid) && Spans(b, mid, hi)
    ensures Spans(a + b, lo, hi)
  {
    if b == [] {
      assert a + b == a;
    } else {
      var n := |b| - 1;
      assert (a + b)[..|a + b| - 1] == a + b[..n];
      SpansAppend(a, b[..n], lo, mid, b[n].addr);
    }
  }

  lemma {:induction false} SpansSplit(bs: seq<Block>, i: int, lo: int, hi: int)
    requires Spans(bs, lo, hi) && 0 <= i <= |bs|
    ensures Spans(bs[..i], lo, Edge(bs, i, hi)) && Spans(bs[i..], Edge(bs, i, hi), hi)
  {
    if i == |bs| {
      assert bs[..i] == bs;
    } else {
      var n := |bs| - 1;
      SpansSplit(bs[..n], i, lo, bs[n].addr);
      assert bs[..n][..i] == bs[..i];
      assert bs[i..][..n - i] == bs[..n][i..];
    }
  }

  /** Blocks lo to hi - 1 replaced by others that cover the same bytes. */
  lemma SpansReplace(bs: seq<Block>, i: int, j: int, mid: seq<Block>, lo: int, hi: int)
    requires Spans(bs, lo, hi) && 0 <= i <= j <= |bs|
    requires Spans(mid, Edge(bs, i, hi), Edge(bs, j, hi))
    ensures Spans(bs[..i] + mid + bs[j..], lo, hi)
  {
    hide Spans;
    SpansSplit(bs, i, lo, hi);
    SpansSplit(bs, j, lo, hi);
    SpansAppend(bs[..i], mid, lo, Edge(bs, i, hi), Edge(bs, j, hi));
    SpansAppend(bs[..i] + mid, bs[j..], lo, Edge(bs, j, hi), hi);
  }

  lemma {:induction false} SpansAt(bs: seq<Block>, i: int, lo: int, hi: int)
    requires Spans(bs, lo, hi) && 0 <= i < |bs|
    ensures lo <= bs[i].addr && End(bs[i]) <= hi && bs[i].size >= 0 && bs[i].size % 4 == 0
    ensures End(bs[i]) == Edge(bs, i + 1, hi)
  {
    var n := |bs| - 1;
    if i < n {
      SpansAt(bs[..n], i, lo, bs[n].addr);
    } else if n > 0 {
      SpansAt(bs[..n], n - 1, lo, bs[n].addr);
    }
  }

  /** Blocks do not overlap and lie in list order. */
  lemma {:induction false} Ordered(bs: seq<Block>, i: int, j: int, lo: int, hi: int)
    requires Spans(bs, lo, hi) && 0 <= i < j < |bs|
    ensures End(bs[i]) <= bs[j].addr
  {
    var n := |bs| - 1;
    if j < n {
      Ordered(bs[..n], i, j, lo, bs[n].addr);
    } else {
      SpansAt(bs[..n], i, lo, bs[n].addr);
    }
  }

  lemma PartedAt(bs: seq<Block>, i: int)
    requires Separated(bs) && 0 < i < |bs|
    ensures bs[i - 1].used || bs[i].used
  {
    assert Parted(bs, i);
  }

  // ---------------------------------------------------------------- preservation

  lemma InitInv()
    ensures Inv(Init())
  {
    assert Init()[..0] == [];
  }

  lemma PiecesSpan(b: Block, size: int)
    requires 0 <= size <= b.size - HEADER && size % 4 == 0 && b.size % 4 == 0
    ensures Spans(Pieces(b, size), b.addr, End(b))
  {
    var p := Pieces(b, size);
    assert p[..1] == [p[0]];
    assert p[..1][..0] == [];
  }

  lemma TakeInv(bs: seq<Block>, i: int, size: int)
    requires Inv(bs) && 0 <= i < |bs| && !bs[i].used && 0 <= size <= bs[i].size - HEADER && size % 4 == 0
    ensures Inv(Take(bs, i, size))
  {
    hide Spans;
    SpansAt(bs, i, 0, HEAP_MAX);
    PiecesSpan(bs[i], size);
    SpansReplace(bs, i, i + 1, Pieces(bs[i], size), 0, HEAP_MAX);
    var r := Take(bs, i, size);
    forall k | 0 < k < |r|
      ensures Parted(r, k)
    {
      if k < i {
        PartedAt(bs, k);
      } else if k == i {
      } else if k > i + 1 {
        PartedAt(bs, k - 1);
      }
    }
  }

  lemma MergedSpan(bs: seq<Block>, lo: int, hi: int)
    requires Spans(bs, 0, HEAP_MAX) && 0 <= lo < hi <= |bs| && hi <= lo + 3
    ensures Spans([Merged(bs, lo, hi)], bs[lo].addr, Edge(bs, hi, HEAP_MAX))
  {
    hide Spans, Merged;
    SpansAt(bs, lo, 0, HEAP_MAX);
    SpansAt(bs, hi - 1, 0, HEAP_MAX);
    if hi - lo == 3 {
      SpansAt(bs, lo + 1, 0, HEAP_MAX);
    }
    MergedEnds(bs, lo, hi);
    SpanOne(Merged(bs, lo, hi), bs[lo].addr, Edge(bs, hi, HEAP_MAX));
  }

  lemma MergedEnds(bs: seq<Block>, lo: int, hi: int)
    requires 0 <= lo < hi <= |bs|
    ensures var m := Merged(bs, lo, hi); m.addr == bs[lo].addr && End(m) == End(bs[hi - 1])
    ensures Merged(bs, lo, hi).size == End(bs[hi - 1]) - HEADER - bs[lo].addr
  {
  }

  lemma SpanOne(b: Block, lo: int, hi: int)
    requires b.addr == lo && End(b) == hi && b.size >= 0 && b.size % 4 == 0
    ensures Spans([b], lo, hi)
  {
    assert [b][..0] == [];
  }

  lemma FreeInv(bs: seq<Block>, i: int)
    requires Inv(bs) && 0 <= i < |bs| && bs[i].used
    ensures Inv(FreeAt(bs, i))
  {
    hide Spans;
    var lo := if FreeLeft(bs, i) then i - 1 else i;
    var hi := if FreeRight(bs, i) then i + 2 else i + 1;
    MergedSpan(bs, lo, hi);
    SpansReplace(bs, lo, hi, [Merged(bs, lo, hi)], 0, HEAP_MAX);
    var r := FreeAt(bs, i);
    forall k | 0 < k < |r|
      ensures Parted(r, k)
    {
      if k < lo {
        PartedAt(bs, k);
      } else if k == lo {
        if lo < i {
          PartedAt(bs, lo);
        }
      } else if k == lo + 1 {
        if hi > i + 1 {
          PartedAt(bs, hi);
        }
      } else {
        PartedAt(bs, k - 1 + hi - lo);
      }
    }
  }

  // ---------------------------------------------------------------- lists of either kind

  lemma {:induction false} PickedAppend(a: seq<Block>, b: seq<Block>, used: bool)
    ensures Picked(a + b, used) == Picked(a, used) + Picked(b, used)
  {
    if b == [] {
      assert a + b == a;
    } else {
      var n := |b| - 1;
      assert (a + b)[..|a + b| - 1] == a + b[..n];
      PickedAppend(a, b[..n], used);
    }
  }

  lemma PickedOne(b: Block, used: bool)
    ensures Picked([b], used) == if b.used == used then [b] else []
  {
    assert [b][..0] == [];
  }

  lemma PickedAround(bs: seq<Block>, i: int, mid: seq<Block>, j: int, used: bool)
    requires 0 <= i <= j <= |bs|
    ensures Picked(bs[..i] + mid + bs[j..], used) == Picked(bs[..i], used) + Picked(mid, used) + Picked(bs[j..], used)
  {
    PickedAppend(bs[..i], mid, used);
    PickedAppend(bs[..i] + mid, bs[j..], used);
  }

  lemma PickedSplit(bs: seq<Block>, i: int, used: bool)
    requires 0 <= i < |bs|
    ensures Picked(bs, used) ==
            Picked(bs[..i], used) + (if bs[i].used == used then [bs[i]] else []) + Picked(bs[i + 1..], used)
  {
    assert bs == bs[..i] + [bs[i]] + bs[i + 1..];
    PickedAround(bs, i, [bs[i]], i + 1, used);
    PickedOne(bs[i], used);
  }

  /** Taking a free block puts the taken part on the allocated list and the rest in its place on
      the free list; nothing else moves. */
  lemma TakeLists(bs: seq<Block>, i: int, size: int)
    requires 0 <= i < |bs| && !bs[i].used
    ensures var p := Pieces(bs[i], size);
            Picked(bs, true) == Picked(bs[..i], true) + Picked(bs[i + 1..], true) &&
            Picked(Take(bs, i, size), true) == Picked(bs[..i], true) + [p[0]] + Picked(bs[i + 1..], true) &&
            Picked(bs, false) == Picked(bs[..i], false) + [bs[i]] + Picked(bs[i + 1..], false) &&
            Picked(Take(bs, i, size), false) == Picked(bs[..i], false) + [p[1]] + Picked(bs[i + 1..], false)
  {
    hide Picked;
    var p := Pieces(bs[i], size);
    PickedSplit(bs, i, true);
    PickedSplit(bs, i, false);
    PickedAround(bs, i, p, i + 1, true);
    PickedAround(bs, i, p, i + 1, false);
    assert p == [p[0]] + [p[1]];
    PickedAppend([p[0]], [p[1]], true);
    PickedAppend([p[0]], [p[1]], false);
    PickedOne(p[0], true);
    PickedOne(p[0], false);
    PickedOne(p[1], true);
    PickedOne(p[1], false);
  }

  /** Freeing a block takes exactly it off the allocated list. */
  lemma FreeLists(bs: seq<Block>, i: int)
    requires 0 <= i < |bs| && bs[i].used
    ensures Picked(bs, true) == Picked(bs[..i], true) + [bs[i]] + Picked(bs[i + 1..], true)
    ensures Picked(FreeAt(bs, i), true) == Picked(bs[..i], true) + Picked(bs[i + 1..], true)
    ensures Picked(bs, false) == Picked(bs[..i], false) + Picked(bs[i + 1..], false)
    ensures var lo := if FreeLeft(bs, i) then i - 1 else i;
            var hi := if FreeRight(bs, i) then i + 2 else i + 1;
            Picked(FreeAt(bs, i), false) == Picked(bs[..lo], false) + [Merged(bs, lo, hi)] + Picked(bs[hi..], false)
  {
    hide Picked, Merged;
    var lo := if FreeLeft(bs, i) then i - 1 else i;
    var hi := if FreeRight(bs, i) then i + 2 else i + 1;
    var m := Merged(bs, lo, hi);
    PickedSplit(bs, i, true);
    PickedSplit(bs, i, false);
    PickedAround(bs, lo, [m], hi, true);
    PickedAround(bs, lo, [m], hi, false);
    MergedFree(bs, lo, hi);
    PickedOne(m, true);
    PickedOne(m, false);
    if lo < i {
      PickedLast(bs, i, true);
    }
    if hi > i + 1 {
      PickedFirst(bs, i + 1, true);
    }
  }

  lemma MergedFree(bs: seq<Block>, lo: int, hi: int)
    requires 0 <= lo < hi <= |bs|
    ensures !Merged(bs, lo, hi).used
  {
  }

  lemma PickedLast(bs: seq<Block>, i: int, used: bool)
    requires 0 < i <= |bs|
    ensures Picked(bs[..i], used) == Picked(bs[..i - 1], used) + if bs[i - 1].used == used then [bs[i - 1]] else []
  {
    assert bs[..i][..i - 1] == bs[..i - 1];
  }

  lemma PickedFirst(bs: seq<Block>, i: int, used: bool)
    requires 0 <= i < |bs|
    ensures Picked(bs[i..], used) == (if bs[i].used == used then [bs[i]] else []) + Picked(bs[i + 1..], used)
  {
    assert bs[i..] == [bs[i]] + bs[i + 1..];
    PickedAppend([bs[i]], bs[i + 1..], used);
    PickedOne(bs[i], used);
  }

  lemma {:induction false} PickedMember(bs: seq<Block>, used: bool, b: Block)
    ensures b in Picked(bs, used) <==> b in bs && b.used == used
  {
    if bs != [] {
      var n := |bs| - 1;
      PickedMember(bs[..n], used, b);
      assert bs == bs[..n] + [bs[n]];
    }
  }

  // ---------------------------------------------------------------- lookup by address

  lemma IndexUnique(bs: seq<Block>, i: int)
    requires Inv(bs) && 0 <= i < |bs| && bs[i].used
    ensures Index(bs, bs[i].addr) == i
  {
    var k := Index(bs, bs[i].addr);
    if k < i {
      SpansAt(bs, k, 0, HEAP_MAX);
      Ordered(bs, k, i, 0, HEAP_MAX);
      assert false;
    } else if i < k < |bs| {
      SpansAt(bs, i, 0, HEAP_MAX);
      Ordered(bs, i, k, 0, HEAP_MAX);
      assert false;
    }
  }

  // ---------------------------------------------------------------- the collector

  /** Those of a list that some typed variable holds. */
  function Kept(s: seq<Block>, variables: seq<Variable>): seq<Block> {
    if s == [] then [] else (if Held(variables, s[0].addr) then [s[0]] else []) + Kept(s[1..], variables)
  }

  /** Some free block has at least n bytes. */
  ghost predicate Room(bs: seq<Block>, n: int) {
    exists k :: 0 <= k < |bs| && !bs[k].used && bs[k].size >= n
  }

  /** Freeing never makes the room smaller. */
  lemma FreeRoom(bs: seq<Block>, i: int, n: int)
    requires Inv(bs) && 0 <= i < |bs| && bs[i].used && Room(bs, n)
    ensures Room(FreeAt(bs, i), n)
  {
    var lo := if FreeLeft(bs, i) then i - 1 else i;
    var hi := if FreeRight(bs, i) then i + 2 else i + 1;
    var r := FreeAt(bs, i);
    var k :| 0 <= k < |bs| && !bs[k].used && bs[k].size >= n;
    if k < lo {
      assert r[k] == bs[k];
    } else if k >= hi {
      assert r[k - hi + lo + 1] == bs[k];
    } else {
      SpansAt(bs, lo, 0, HEAP_MAX);
      SpansAt(bs, i, 0, HEAP_MAX);
      SpansAt(bs, hi - 1, 0, HEAP_MAX);
      assert r[lo] == Merged(bs, lo, hi);
    }
  }

  lemma {:induction false} CollectExact(bs: seq<Block>, done: seq<Block>, todo: seq<Block>, variables: seq<Variable>)
    requires Inv(bs) && Picked(bs, true) == done + todo
    ensures var r := Collect(bs, todo, variables);
            Inv(r) && Picked(r, true) == done + Kept(todo, variables) && forall n :: Room(bs, n) ==> Room(r, n)
    decreases |todo|
  {
    hide Inv, Room, Held, FreeAddr, Picked;
    if todo == [] {
    } else if Held(variables, todo[0].addr) {
      Regroup(done, todo[0], todo[1..]);
      Regroup(done, todo[0], Kept(todo[1..], variables));
      assert todo == [todo[0]] + todo[1..];
      CollectExact(bs, done + [todo[0]], todo[1..], variables);
    } else {
      FreeListed(bs, done, todo);
      CollectExact(FreeAddr(bs, todo[0].addr), done, todo[1..], variables);
      assert Kept(todo, variables) == [] + Kept(todo[1..], variables);
    }
  }

  lemma Regroup(a: seq<Block>, b: Block, c: seq<Block>)
    ensures a + ([b] + c) == a + [b] + c
  {
  }

  lemma FreeListed(bs: seq<Block>, done: seq<Block>, todo: seq<Block>)
    requires Inv(bs) && Picked(bs, true) == done + todo && todo != []
    ensures var bs' := FreeAddr(bs, todo[0].addr);
            Inv(bs') && Picked(bs', true) == done + todo[1..] && forall n :: Room(bs, n) ==> Room(bs', n)
  {
    hide Inv, Room, FreeAt, Picked;
    var i := Place(bs, true, |done|);
    assert bs[i] == todo[0];
    assert (done + todo)[..|done|] == done;
    IndexUnique(bs, i);
    FreeInv(bs, i);
    FreeLists(bs, i);
    assert done + todo == done + [todo[0]] + todo[1..];
    forall n | Room(bs, n)
      ensures Room(FreeAt(bs, i), n)
    {
      FreeRoom(bs, i, n);
    }
  }

  /** The collector keeps, in order, exactly the allocated blocks whose data address some typed
      variable holds. */
  lemma GcExact(bs: seq<Block>, variables: seq<Variable>)
    requires Inv(bs)
    ensures Inv(Gc(bs, variables))
    ensures Picked(Gc(bs, variables), true) == Kept(Picked(bs, true), variables)
    ensures forall n :: Room(bs, n) ==> Room(Gc(bs, variables), n)
  {
    hide Inv, Room;
    assert Picked(bs, true) == [] + Picked(bs, true);
    CollectExact(bs, [], Picked(bs, true), variables);
  }

  // ---------------------------------------------------------------- allocation

  lemma FitExactly(bs: seq<Block>, need: int)
    ensures FirstFit(Picked(bs, false), need) < |Picked(bs, false)| <==> Room(bs, need)
  {
    var s := Picked(bs, false);
    var j := FirstFit(s, need);
    if j < |s| {
      var i := Place(bs, false, j);
      assert !bs[i].used && bs[i].size >= need;
    }
    if k :| 0 <= k < |bs| && !bs[k].used && bs[k].size >= need {
      PickedMember(bs, false, bs[k]);
    }
  }

  lemma RoomLess(bs: seq<Block>, n: int, m: int)
    requires Room(bs, n) && m <= n
    ensures Room(bs, m)
  {
  }

  /** allocate returns NULL exactly when after a collection no free block has the aligned size and
      a header. */
  lemma AllocateExactly(bs: seq<Block>, request: int, variables: seq<Variable>)
    requires Inv(bs)
    ensures Allocate(bs, request, variables).1.None? <==> !Room(Gc(bs, variables), Aligned(request) + HEADER)
    ensures Allocate(bs, request, variables).1.None? ==> Allocate(bs, request, variables).0 == Gc(bs, variables)
  {
    hide Inv, Room, Picked, Gc, Place;
    GcExact(bs, variables);
    FitExactly(bs, Aligned(request) + HEADER + 1);
    FitExactly(Gc(bs, variables), Aligned(request) + HEADER);
    if Room(bs, Aligned(request) + HEADER + 1) {
      RoomLess(Gc(bs, variables), Aligned(request) + HEADER + 1, Aligned(request) + HEADER);
    }
  }

  /** The heap the block is taken from: collected only if the first search fails. */
  function Source(bs: seq<Block>, request: int, variables: seq<Variable>): seq<Block> {
    if FirstFit(Picked(bs, false), Aligned(request) + HEADER + 1) < |Picked(bs, false)| then bs else Gc(bs, variables)
  }

  /** Where it is taken from. */
  lemma AllocateTakes(bs: seq<Block>, request: int, variables: seq<Variable>)
    requires Inv(bs) && request >= 0 && Allocate(bs, request, variables).1.Some?
    ensures var from := Source(bs, request, variables);
            Inv(from) &&
            exists i :: 0 <= i < |from| && !from[i].used && from[i].size >= Aligned(request) + HEADER &&
                        Allocate(bs, request, variables) == (Take(from, i, Aligned(request)), Some(from[i].addr))
  {
    hide Inv, Gc, Picked, Take;
    GcExact(bs, variables);
    var from := Source(bs, request, variables);
    var j := FirstFit(Picked(from, false),
                      if FirstFit(Picked(bs, false), Aligned(request) + HEADER + 1) < |Picked(bs, false)|
                      then Aligned(request) + HEADER + 1 else Aligned(request) + HEADER);
    var i := Place(from, false, j);
    assert Allocate(bs, request, variables) == (Take(from, i, Aligned(request)), Some(from[i].addr));
  }

  /** The allocated block has exactly the aligned size and joins the allocated list, which is
      otherwise as the collector, if it ran, left it; the heap stays intact. */
  lemma AllocateAdds(bs: seq<Block>, request: int, variables: seq<Variable>)
    requires Inv(bs) && request >= 0
    ensures var (bs', r) := Allocate(bs, request, variables);
            Inv(bs') &&
            (r.Some? ==>
               var s := Picked(Source(bs, request, variables), true);
               exists k :: 0 <= k <= |s| && Picked(bs', true) == s[..k] + [Block(r.value, Aligned(request), true)] + s[k..])
  {
    hide Inv, Gc, Allocate, Source, Picked, Take;
    var (bs', r) := Allocate(bs, request, variables);
    AllocateExactly(bs, request, variables);
    GcExact(bs, variables);
    if r.Some? {
      AllocateTakes(bs, request, variables);
      var from := Source(bs, request, variables);
      var i :| 0 <= i < |from| && !from[i].used && from[i].size >= Aligned(request) + HEADER &&
               (bs', r) == (Take(from, i, Aligned(request)), Some(from[i].addr));
      TakeInv(from, i, Aligned(request));
      TakeLists(from, i, Aligned(request));
      var s, k := Picked(from, true), |Picked(from[..i], true)|;
      assert s[..k] == Picked(from[..i], true) && s[k..] == Picked(from[i + 1..], true);
    }
  }

  /** Freeing what was just allocated gives back the heap it was taken from. */
  lemma AllocateFree(bs: seq<Block>, request: int, variables: seq<Variable>)
    requires Inv(bs) && request >= 0 && Allocate(bs, request, variables).1.Some?
    ensures var (bs', r) := Allocate(bs, request, variables);
            FreeAddr(bs', r.value) == Source(bs, request, variables)
  {
    hide Inv, Gc, Allocate, Source, Take, FreeAt;
    AllocateTakes(bs, request, variables);
    var (bs', r) := Allocate(bs, request, variables);
    var from := Source(bs, request, variables);
    var i :| 0 <= i < |from| && !from[i].used && from[i].size >= Aligned(request) + HEADER &&
             (bs', r) == (Take(from, i, Aligned(request)), Some(from[i].addr));
    TakeThenFree(from, i, Aligned(request));
  }

  lemma TakeThenFree(bs: seq<Block>, i: int, size: int)
    requires Inv(bs) && 0 <= i < |bs| && !bs[i].used && 0 <= size <= bs[i].size - HEADER && size % 4 == 0
    ensures FreeAddr(Take(bs, i, size), bs[i].addr) == bs
  {
    hide Inv;
    TakeInv(bs, i, size);
    IndexUnique(Take(bs, i, size), i);
    TakenBack(bs, i, size);
  }

  lemma TakenBack(bs: seq<Block>, i: int, size: int)
    requires Inv(bs) && 0 <= i < |bs| && !bs[i].used
    ensures FreeAt(Take(bs, i, size), i) == bs
  {
    hide Spans;
    if i > 0 {
      PartedAt(bs, i);
    }
    var t := Take(bs, i, size);
    assert t[..i] == bs[..i] && t[i + 2..] == bs[i + 1..];
    assert Merged(t, i, i + 2) == bs[i];
  }

  // ---------------------------------------------------------------- runs

  datatype Op = OpAllocate(request: nat, variables: seq<Variable>) | OpFree(a: int)

  /** What callers may ask for: a block is freed while it is allocated. */
  ghost predicate Enabled(bs: seq<Block>, op: Op) {
    op.OpFree? ==> Live(bs, op.a)
  }

  function Step(bs: seq<Block>, op: Op): seq<Block> {
    match op
    case OpAllocate(request, variables) => Allocate(bs, request, variables).0
    case OpFree(a) => FreeAddr(bs, a)
  }

  /** The heap after a run from the start. */
  function After(ops: seq<Op>): seq<Block> {
    if ops == [] then Init() else Step(After(ops[..|ops| - 1]), ops[|ops| - 1])
  }

  ghost predicate Permitted(ops: seq<Op>) {
    ops == [] || (Permitted(ops[..|ops| - 1]) && Enabled(After(ops[..|ops| - 1]), ops[|ops| - 1]))
  }

  lemma LiveIndex(bs: seq<Block>, a: int)
    requires Live(bs, a)
    ensures Index(bs, a) < |bs|
  {
  }

  lemma StepInv(bs: seq<Block>, op: Op)
    requires Inv(bs) && Enabled(bs, op)
    ensures Inv(Step(bs, op))
  {
    hide Inv, Allocate, FreeAt, Live;
    match op
    case OpAllocate(request, variables) => AllocateAdds(bs, request, variables);
    case OpFree(a) =>
      LiveIndex(bs, a);
      FreeInv(bs, Index(bs, a));
  }

  /** In every reachable state the blocks tile the heap, no two neighbours are free, and the
      highest block is free; so the free list is never empty and its last entry is no block a
      caller could free. */
  lemma {:induction false} RunInv(ops: seq<Op>)
    requires Permitted(ops)
    ensures var bs := After(ops);
            Inv(bs) && Picked(bs, false) != [] && Picked(bs, false)[|Picked(bs, false)| - 1] == bs[|bs| - 1] &&
            End(bs[|bs| - 1]) == HEAP_MAX
  {
    hide Step, Enabled;
    if ops == [] {
      InitInv();
    } else {
      RunInv(ops[..|ops| - 1]);
      StepInv(After(ops[..|ops| - 1]), ops[|ops| - 1]);
    }
  }

  /** With nothing allocated the heap is the initial one: freeing everything, in whatever order
      and between whatever collections, loses no byte. */
  lemma NothingAllocated(bs: seq<Block>)
    requires Inv(bs) && Picked(bs, true) == []
    ensures bs == Init()
  {
    forall k | 0 <= k < |bs|
      ensures !bs[k].used
    {
      PickedMember(bs, true, bs[k]);
    }
    if |bs| > 1 {
      PartedAt(bs, 1);
      assert false;
    }
    assert Spans(bs[..0], 0, bs[0].addr);
    assert bs == [bs[0]];
  }
}
