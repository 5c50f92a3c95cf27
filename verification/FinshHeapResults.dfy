/** What the finsh heap gives and takes, said on the blocks alone. */
module FinshHeapResults {
  import opened Basics
  import opened FinshHeapModel
  import opened FinshHeapProofs

  // ---------------------------------------------------------------- the heap is what is allocated

  lemma {:induction false} SpansRoom(bs: seq<Block>, lo: int, hi: int)
    requires Spans(bs, lo, hi)
    ensures if bs == [] then lo == hi else lo + HEADER <= hi
  {
    if bs != [] {
      SpansRoom(bs[..|bs| - 1], lo, bs[|bs| - 1].addr);
    }
  }

  lemma {:induction false} PickedInside(bs: seq<Block>, lo: int, hi: int)
    requires Spans(bs, lo, hi) && Picked(bs, true) != []
    ensures var s := Picked(bs, true); lo + HEADER <= End(s[|s| - 1]) <= hi
  {
    var n := |bs| - 1;
    SpansRoom(bs[..n], lo, bs[n].addr);
    if !bs[n].used {
      PickedInside(bs[..n], lo, bs[n].addr);
    }
  }

  lemma SeparatedFront(bs: seq<Block>)
    requires Separated(bs) && bs != []
    ensures Separated(bs[..|bs| - 1])
    ensures |bs| > 1 ==> bs[|bs| - 2].used || bs[|bs| - 1].used
  {
    var front := bs[..|bs| - 1];
    forall i | 0 < i < |front|
      ensures Parted(front, i)
    {
      assert Parted(bs, i);
    }
    if |bs| > 1 {
      assert Parted(bs, |bs| - 1);
    }
  }

  /** Where the last block starts, if it is free: behind the last allocated one. */
  lemma LastFreeStart(bs: seq<Block>, lo: int, hi: int)
    requires Spans(bs, lo, hi) && Separated(bs) && bs != [] && !bs[|bs| - 1].used
    ensures var s := Picked(bs, true);
            s == Picked(bs[..|bs| - 1], true) && bs[|bs| - 1].addr == if s == [] then lo else End(s[|s| - 1])
  {
    var n := |bs| - 1;
    SeparatedFront(bs);
    if n > 0 {
      assert Picked(bs[..n], true) == Picked(bs[..n][..n - 1], true) + [bs[n - 1]];
    }
  }

  /** The allocated blocks alone determine the heap: between them lies one free block, or nothing. */
  lemma {:induction false} Determined(a: seq<Block>, b: seq<Block>, lo: int, hi: int)
    requires Spans(a, lo, hi) && Spans(b, lo, hi) && Separated(a) && Separated(b)
    requires Picked(a, true) == Picked(b, true)
    ensures a == b
    decreases |a|
  {
    hide Separated;
    SpansRoom(a, lo, hi);
    SpansRoom(b, lo, hi);
    if a != [] {
      var m, n := |a| - 1, |b| - 1;
      var x, y := a[m], b[n];
      SeparatedFront(a);
      SeparatedFront(b);
      SameLast(a, b, lo, hi);
      Determined(a[..m], b[..n], lo, x.addr);
      assert a == a[..m] + [x] && b == b[..n] + [y];
    }
  }

  lemma SameLast(a: seq<Block>, b: seq<Block>, lo: int, hi: int)
    requires Spans(a, lo, hi) && Spans(b, lo, hi) && Separated(a) && Separated(b) && a != [] && b != []
    requires Picked(a, true) == Picked(b, true)
    ensures a[|a| - 1] == b[|b| - 1] && Picked(a[..|a| - 1], true) == Picked(b[..|b| - 1], true)
  {
    hide Separated;
    var m, n := |a| - 1, |b| - 1;
    var s := Picked(a, true);
    if a[m].used && b[n].used {
      assert s[|s| - 1] == a[m] == b[n];
      assert Picked(a[..m], true) == s[..|s| - 1] == Picked(b[..n], true);
    } else if !a[m].used && !b[n].used {
      LastFreeStart(a, lo, hi);
      LastFreeStart(b, lo, hi);
    } else if a[m].used {
      assert s[|s| - 1] == a[m];
      PickedInside(b[..n], lo, b[n].addr);
    } else {
      assert s[|s| - 1] == b[n];
      PickedInside(a[..m], lo, a[m].addr);
    }
  }

  /** So freeing a block gives the one heap in which all other blocks, and no more, are allocated. */
  lemma FreeExactly(bs: seq<Block>, i: int, h: seq<Block>)
    requires Inv(bs) && 0 <= i < |bs| && bs[i].used
    ensures h == FreeAddr(bs, bs[i].addr) <==>
            Inv(h) && Picked(h, true) == Picked(bs[..i], true) + Picked(bs[i + 1..], true)
  {
    hide FreeAt, Spans, Separated, Picked;
    IndexUnique(bs, i);
    FreeInv(bs, i);
    FreeLists(bs, i);
    if Inv(h) && Picked(h, true) == Picked(bs[..i], true) + Picked(bs[i + 1..], true) {
      Determined(h, FreeAt(bs, i), 0, HEAP_MAX);
    }
  }

  // ---------------------------------------------------------------- the collector

  ghost predicate Pointed(variables: seq<Variable>, b: Block) {
    exists i :: 0 <= i < |variables| && variables[i].typed && variables[i].pointer == b.addr + HEADER
  }

  /** The collector frees exactly the allocated blocks to whose data no variable with a type points. */
  lemma CollectedExactly(bs: seq<Block>, variables: seq<Variable>, b: Block)
    requires Inv(bs) && b.used
    ensures b in Gc(bs, variables) <==> b in bs && Pointed(variables, b)
  {
    hide Inv, Picked, Gc;
    GcExact(bs, variables);
    PickedMember(bs, true, b);
    PickedMember(Gc(bs, variables), true, b);
    KeptMember(Picked(bs, true), variables, b);
  }

  lemma {:induction false} KeptMember(s: seq<Block>, variables: seq<Variable>, b: Block)
    ensures b in Kept(s, variables) <==> b in s && Pointed(variables, b)
  {
    if s != [] {
      KeptMember(s[1..], variables, b);
    }
  }

  // ---------------------------------------------------------------- allocation

  /** The payload of a request: the next multiple of four. */
  predicate Rounds(request: int, n: int) {
    request <= n < request + 4 && n % 4 == 0
  }

  predicate FreeWith(bs: seq<Block>, i: int, need: int) {
    0 <= i < |bs| && !bs[i].used && bs[i].size >= need
  }

  ghost predicate Enough(bs: seq<Block>, need: int) {
    exists i :: FreeWith(bs, i, need)
  }

  /** The lowest free block with room. */
  ghost predicate Lowest(bs: seq<Block>, i: int, need: int) {
    FreeWith(bs, i, need) && forall k :: 0 <= k < i ==> !FreeWith(bs, k, need)
  }

  /** The block at i cut in two: n bytes are handed out, the rest stays free. */
  ghost predicate CutAt(bs: seq<Block>, bs': seq<Block>, i: int, n: int) {
    0 <= i < |bs| &&
    bs' == bs[..i] + [Block(bs[i].addr, n, true), Block(bs[i].addr + HEADER + n, bs[i].size - HEADER - n, false)] + bs[i + 1..]
  }

  lemma FitLowest(bs: seq<Block>, need: int)
    ensures var s := Picked(bs, false);
            var j := FirstFit(s, need);
            if j < |s| then Lowest(bs, Place(bs, false, j), need) else !Enough(bs, need)
  {
    var s := Picked(bs, false);
    var j := FirstFit(s, need);
    FitExactly(bs, need);
    if j < |s| {
      var i := Place(bs, false, j);
      forall k | 0 <= k < i
        ensures !FreeWith(bs, k, need)
      {
        if !bs[k].used {
          assert bs[k] == bs[..i][k];
          PickedMember(bs[..i], false, bs[k]);
        }
      }
    } else if i :| FreeWith(bs, i, need) {
      assert Room(bs, need);
    }
  }

  lemma RoundsOnce(request: int, n: int)
    requires Rounds(request, n)
    ensures n == Aligned(request)
  {
  }

  /** A request gets the next multiple of four. It is served from the heap as it is if a free block
      has more than that and a header; otherwise the collector runs, and then exactly as much is
      enough. The lowest block with room is taken, and null comes back exactly when there is none. */
  lemma AllocatedExactly(bs: seq<Block>, request: int, n: int, variables: seq<Variable>)
    requires Rounds(request, n)
    ensures var (bs', r) := Allocate(bs, request, variables);
            var enough := Enough(bs, n + HEADER + 1);
            var from := if enough then bs else Gc(bs, variables);
            var need := if enough then n + HEADER + 1 else n + HEADER;
            (r.None? <==> !Enough(from, need)) &&
            (r.None? ==> bs' == from) &&
            (r.Some? ==> exists i :: Lowest(from, i, need) && r.value == from[i].addr && CutAt(from, bs', i, n))
  {
    hide Gc, Picked, FirstFit, Place, Lowest, FreeWith;
    RoundsOnce(request, n);
    FitLowest(bs, n + HEADER + 1);
    FitLowest(Gc(bs, variables), n + HEADER);
    var s := Picked(bs, false);
    var j := FirstFit(s, n + HEADER + 1);
    if j < |s| {
      LowestFree(bs, Place(bs, false, j), n + HEADER + 1);
      CutTake(bs, Place(bs, false, j), n);
    } else {
      var s' := Picked(Gc(bs, variables), false);
      var j' := FirstFit(s', n + HEADER);
      if j' < |s'| {
        LowestFree(Gc(bs, variables), Place(Gc(bs, variables), false, j'), n + HEADER);
        CutTake(Gc(bs, variables), Place(Gc(bs, variables), false, j'), n);
      }
    }
  }

  lemma LowestFree(bs: seq<Block>, i: int, need: int)
    requires Lowest(bs, i, need)
    ensures FreeWith(bs, i, need) && Enough(bs, need)
  {
  }

  lemma CutTake(bs: seq<Block>, i: int, n: int)
    requires 0 <= i < |bs|
    ensures CutAt(bs, Take(bs, i, n), i, n)
  {
  }
}
