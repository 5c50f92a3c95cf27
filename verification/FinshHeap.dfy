/** The finsh heap as the source keeps it: two singly linked lists through headers in the heap
    bytes, proved to stay the two lists of the block model. */
module FinshHeap {
  import opened Basics
  import opened FinshHeapModel
  import opened FinshHeapProofs
  import opened FinshHeapResults

  const NULL: int := -1

  // ---------------------------------------------------------------- linked lists

  function AddrAt(s: seq<Block>, i: int): int
    requires 0 <= i
  {
    if i < |s| then s[i].addr else NULL
  }

  ghost predicate Points(s: seq<Block>, next: map<int, int>, i: int)
    requires 0 <= i < |s|
  {
    s[i].addr in next && next[s[i].addr] == AddrAt(s, i + 1)
  }

  /** The headers of s, linked from `head` to NULL. */
  ghost predicate Chain(s: seq<Block>, head: int, next: map<int, int>) {
    head == AddrAt(s, 0) && forall i :: 0 <= i < |s| ==> Points(s, next, i)
  }

  /** In address order, without overlap. */
  ghost predicate Ascending(s: seq<Block>) {
    (forall i :: 0 <= i < |s| ==> s[i].addr >= 0 && s[i].size >= 0) &&
    forall i, j :: 0 <= i < j < |s| ==> End(s[i]) <= s[j].addr
  }

  /** What finsh_block_insert makes of the next pointers, before the i-th entry of s. */
  function LinkedIn(next: map<int, int>, s: seq<Block>, i: int, h: int): map<int, int>
    requires 0 <= i <= |s|
  {
    var next' := if i < |s| then next[h := s[i].addr] else next;
    if i > 0 then next'[s[i - 1].addr := h] else next'
  }

  function Put(s: seq<Block>, i: int, b: Block): seq<Block>
    requires 0 <= i <= |s|
  {
    s[..i] + [b] + s[i..]
  }

  function Without(s: seq<Block>, i: int): seq<Block>
    requires 0 <= i < |s|
  {
    s[..i] + s[i + 1..]
  }

  /** The place of an address in an ascending list. */
  ghost predicate Between(s: seq<Block>, i: int, h: int) {
    0 <= i <= |s| && (forall k :: 0 <= k < i ==> s[k].addr < h) && forall k :: i <= k < |s| ==> h < s[k].addr
  }

  /** Inserting keeps a list linked if and only if the new entry is not the last one or its stale
      next pointer happens to be NULL. */
  lemma InsertExactly(s: seq<Block>, head: int, next: map<int, int>, i: int, b: Block)
    requires Chain(s, head, next) && Ascending(s) && Between(s, i, b.addr) && b.addr in next
    ensures Chain(Put(s, i, b), if i == 0 then b.addr else head, LinkedIn(next, s, i, b.addr)) <==>
            i < |s| || next[b.addr] == NULL
  {
    var r := Put(s, i, b);
    var next' := LinkedIn(next, s, i, b.addr);
    if i < |s| || next[b.addr] == NULL {
      forall k | 0 <= k < |r|
        ensures Points(r, next', k)
      {
        if k < i {
          assert Points(s, next, k);
        } else if k > i {
          assert Points(s, next, k - 1);
        }
      }
    } else {
      assert !Points(r, next', i);
    }
  }

  /** What finsh_block_remove makes of the next pointers: the entry's own pointer goes stale
      unless it was the head. */
  function LinkedOut(next: map<int, int>, s: seq<Block>, i: int): map<int, int>
    requires 0 <= i < |s|
  {
    if i == 0 then next[s[0].addr := NULL] else next[s[i - 1].addr := AddrAt(s, i + 1)]
  }

  lemma RemoveChain(s: seq<Block>, head: int, next: map<int, int>, i: int)
    requires Chain(s, head, next) && Ascending(s) && 0 <= i < |s|
    ensures Chain(Without(s, i), if i == 0 then AddrAt(s, 1) else head, LinkedOut(next, s, i))
  {
    var r := Without(s, i);
    forall k | 0 <= k < |r|
      ensures Points(r, LinkedOut(next, s, i), k)
    {
      assert Points(s, next, if k < i then k else k + 1);
    }
  }

  /** Some entry of s has its header at a. */
  ghost predicate On(s: seq<Block>, a: int) {
    exists k :: 0 <= k < |s| && s[k].addr == a
  }

  ghost predicate SameAt(next: map<int, int>, next': map<int, int>, a: int) {
    (a in next <==> a in next') && (a in next ==> next[a] == next'[a])
  }

  /** A list does not notice changes at other headers. */
  lemma ChainFrame(s: seq<Block>, head: int, next: map<int, int>, next': map<int, int>)
    requires Chain(s, head, next) && forall a :: On(s, a) ==> SameAt(next, next', a)
    ensures Chain(s, head, next')
  {
    forall k | 0 <= k < |s|
      ensures Points(s, next', k)
    {
      assert Points(s, next, k) && On(s, s[k].addr);
    }
  }

  lemma FrameUpdate(s: seq<Block>, head: int, next: map<int, int>, x: int, v: int)
    requires Chain(s, head, next) && !On(s, x)
    ensures Chain(s, head, next[x := v])
  {
    ChainFrame(s, head, next, next[x := v]);
  }

  /** Two lists without a common header. */
  ghost predicate Disjoint(s: seq<Block>, t: seq<Block>) {
    forall a :: !(On(s, a) && On(t, a))
  }

  lemma FrameIn(t: seq<Block>, head: int, next: map<int, int>, s: seq<Block>, i: int, h: int)
    requires Chain(t, head, next) && Disjoint(s, t) && !On(t, h) && 0 <= i <= |s|
    ensures Chain(t, head, LinkedIn(next, s, i, h))
  {
    hide Chain;
    var next' := if i < |s| then next[h := s[i].addr] else next;
    if i < |s| {
      FrameUpdate(t, head, next, h, s[i].addr);
    }
    if i > 0 {
      assert On(s, s[i - 1].addr);
      FrameUpdate(t, head, next', s[i - 1].addr, h);
    }
  }

  lemma FrameOut(t: seq<Block>, head: int, next: map<int, int>, s: seq<Block>, i: int)
    requires Chain(t, head, next) && Disjoint(s, t) && 0 <= i < |s|
    ensures Chain(t, head, LinkedOut(next, s, i))
  {
    hide Chain;
    if i == 0 {
      assert On(s, s[0].addr);
      FrameUpdate(t, head, next, s[0].addr, NULL);
    } else {
      assert On(s, s[i - 1].addr);
      FrameUpdate(t, head, next, s[i - 1].addr, AddrAt(s, i + 1));
    }
  }

  /** Moving an entry from one list to the other keeps them disjoint. */
  lemma DisjointMove(s: seq<Block>, i: int, t: seq<Block>, j: int, b: Block)
    requires Disjoint(s, t) && Ascending(s) && 0 <= i < |s| && 0 <= j <= |t| && b.addr == s[i].addr
    ensures Disjoint(Without(s, i), Put(t, j, b)) && !On(Without(s, i), b.addr) && Disjoint(t, Without(s, i))
  {
    forall a | On(Without(s, i), a)
      ensures a != b.addr && On(s, a)
    {
      var k :| 0 <= k < |Without(s, i)| && Without(s, i)[k].addr == a;
      assert s[if k < i then k else k + 1].addr == a;
    }
    forall a | On(Put(t, j, b), a) && a != b.addr
      ensures On(t, a)
    {
      var k :| 0 <= k < |Put(t, j, b)| && Put(t, j, b)[k].addr == a;
      assert t[if k < j then k else k - 1].addr == a;
    }
  }

  ghost predicate Lengths(bs: seq<Block>, length: map<int, int>) {
    forall k :: 0 <= k < |bs| ==> bs[k].addr in length && length[bs[k].addr] == bs[k].size
  }

  /** One entry of a list replaced by two. */
  lemma SplitChain(s: seq<Block>, head: int, next: map<int, int>, i: int, p: Block, q: Block)
    requires Chain(s, head, next) && Ascending(s) && 0 <= i < |s| && p.addr == s[i].addr < q.addr
    requires forall k :: i < k < |s| ==> q.addr < s[k].addr
    ensures Chain(s[..i] + [p, q] + s[i + 1..], head, next[q.addr := AddrAt(s, i + 1)][p.addr := q.addr])
  {
    var r := s[..i] + [p, q] + s[i + 1..];
    var next' := next[q.addr := AddrAt(s, i + 1)][p.addr := q.addr];
    forall k | 0 <= k < |r|
      ensures Points(r, next', k)
    {
      if k < i {
        assert Points(s, next, k);
      } else if k > i + 1 {
        assert Points(s, next, k - 1);
      }
    }
  }

  /** Entries lo to hi - 1 of a list replaced by one at the first address. */
  lemma JoinChain(s: seq<Block>, head: int, next: map<int, int>, lo: int, hi: int, b: Block)
    requires Chain(s, head, next) && Ascending(s) && 0 <= lo < hi <= |s| && b.addr == s[lo].addr
    ensures Chain(s[..lo] + [b] + s[hi..], head, next[b.addr := AddrAt(s, hi)])
  {
    var r := s[..lo] + [b] + s[hi..];
    var next' := next[b.addr := AddrAt(s, hi)];
    forall k | 0 <= k < |r|
      ensures Points(r, next', k)
    {
      if k < lo {
        assert Points(s, next, k);
      } else if k > lo {
        assert Points(s, next, k - lo - 1 + hi);
      }
    }
  }

  // ---------------------------------------------------------------- the two lists of a heap

  lemma {:induction false} PickedAscending(bs: seq<Block>, used: bool, lo: int, hi: int)
    requires Spans(bs, lo, hi) && 0 <= lo
    ensures Ascending(Picked(bs, used)) && lo <= hi
    ensures forall k :: 0 <= k < |Picked(bs, used)| ==> lo <= Picked(bs, used)[k].addr && End(Picked(bs, used)[k]) <= hi
  {
    if bs != [] {
      PickedAscending(bs[..|bs| - 1], used, lo, bs[|bs| - 1].addr);
    }
  }

  /** A block of one kind is not on the list of the other. */
  lemma KindsApart(bs: seq<Block>, a: int)
    requires Inv(bs)
    ensures !(On(Picked(bs, true), a) && On(Picked(bs, false), a))
  {
    hide Picked, Inv;
    if On(Picked(bs, true), a) && On(Picked(bs, false), a) {
      var j :| 0 <= j < |Picked(bs, true)| && Picked(bs, true)[j].addr == a;
      var k :| 0 <= k < |Picked(bs, false)| && Picked(bs, false)[k].addr == a;
      var p, q := Place(bs, true, j), Place(bs, false, k);
      AddrsApart(bs, p);
      assert false;
    }
  }

  /** Where the two lists split around the i-th block. */
  lemma Around(bs: seq<Block>, i: int, used: bool)
    requires Inv(bs) && 0 <= i < |bs|
    ensures var p := Picked(bs[..i], used);
            var q := Picked(bs[i + 1..], used);
            Ascending(p + q) && Between(p + q, |p|, bs[i].addr) &&
            (forall k :: 0 <= k < |q| ==> q[k].addr >= End(bs[i])) &&
            (forall k :: 0 <= k < |p| ==> End(p[k]) <= bs[i].addr)
    ensures bs[i].addr >= 0
  {
    hide Picked, Separated;
    SpansSplit(bs, i, 0, HEAP_MAX);
    SpansSplit(bs, i + 1, 0, HEAP_MAX);
    SpansAt(bs, i, 0, HEAP_MAX);
    PickedAscending(bs[..i], used, 0, bs[i].addr);
    PickedAscending(bs[i + 1..], used, Edge(bs, i + 1, HEAP_MAX), HEAP_MAX);
    forall k | 0 <= k < |Picked(bs[..i], used)|
      ensures End(Picked(bs[..i], used)[k]) <= bs[i].addr
    {
      var a := Place(bs[..i], used, k);
      SpansAt(bs[..i], a, 0, bs[i].addr);
    }
  }

  /** A neighbour on the free list touches the block exactly when the neighbouring block is free. */
  lemma MergeSides(bs: seq<Block>, i: int)
    requires Inv(bs) && 0 <= i < |bs|
    ensures var p := Picked(bs[..i], false);
            (|p| > 0 && End(p[|p| - 1]) == bs[i].addr <==> FreeLeft(bs, i)) &&
            (FreeLeft(bs, i) ==> p == Picked(bs[..i - 1], false) + [bs[i - 1]])
    ensures var q := Picked(bs[i + 1..], false);
            (|q| > 0 && q[0].addr == End(bs[i]) <==> FreeRight(bs, i)) &&
            (FreeRight(bs, i) ==> q == [bs[i + 1]] + Picked(bs[i + 2..], false))
  {
    hide Picked, Spans, Separated;
    SpansAt(bs, i, 0, HEAP_MAX);
    if FreeLeft(bs, i) {
      SpansAt(bs, i - 1, 0, HEAP_MAX);
      PickedLast(bs, i, false);
    } else {
      NotLeft(bs, i);
    }
    if FreeRight(bs, i) {
      PickedFirst(bs, i + 1, false);
    } else {
      NotRight(bs, i);
    }
  }

  lemma NotLeft(bs: seq<Block>, i: int)
    requires Inv(bs) && 0 <= i < |bs| && !FreeLeft(bs, i)
    ensures var p := Picked(bs[..i], false); |p| > 0 ==> End(p[|p| - 1]) != bs[i].addr
  {
    hide Picked, Spans, Separated;
    var p := Picked(bs[..i], false);
    if |p| > 0 {
      var a := Place(bs[..i], false, |p| - 1);
      assert bs[..i][a] == bs[a] && a != i - 1;
      Ordered(bs, a, i - 1, 0, HEAP_MAX);
      SpansAt(bs, i - 1, 0, HEAP_MAX);
    }
  }

  lemma NotRight(bs: seq<Block>, i: int)
    requires Inv(bs) && 0 <= i < |bs| && !FreeRight(bs, i)
    ensures var q := Picked(bs[i + 1..], false); |q| > 0 ==> q[0].addr != End(bs[i])
  {
    hide Picked, Spans, Separated;
    var q := Picked(bs[i + 1..], false);
    if |q| > 0 {
      var a := Place(bs[i + 1..], false, 0) + i + 1;
      assert bs[i + 1..][a - i - 1] == bs[a] && a != i + 1;
      SpansAt(bs, i, 0, HEAP_MAX);
      SpansAt(bs, i + 1, 0, HEAP_MAX);
      Ordered(bs, i + 1, a, 0, HEAP_MAX);
    }
  }

  /** After the merge on the free list the blocks are those of FreeAt. */
  lemma MergedLists(bs: seq<Block>, i: int, s: seq<Block>, k: int, lo: int, hi: int)
    requires Inv(bs) && 0 <= i < |bs| && bs[i].used
    requires k == |Picked(bs[..i], false)|
    requires s == Picked(bs[..i], false) + [bs[i].(used := false)] + Picked(bs[i + 1..], false)
    requires lo == if k > 0 && End(s[k - 1]) == s[k].addr then k - 1 else k
    requires hi == if k + 1 < |s| && End(s[k]) == s[k + 1].addr then k + 2 else k + 1
    ensures s[..lo] + [Merged(s, lo, hi)] + s[hi..] == Picked(FreeAt(bs, i), false)
    ensures var l := if FreeLeft(bs, i) then i - 1 else i;
            var h := if FreeRight(bs, i) then i + 2 else i + 1;
            Merged(s, lo, hi) == Merged(bs, l, h)
  {
    hide Picked, Inv, FreeAt;
    var p, q := Picked(bs[..i], false), Picked(bs[i + 1..], false);
    MergeSides(bs, i);
    FreeLists(bs, i);
    if |p| > 0 {
      assert s[k - 1] == p[|p| - 1];
    }
    if |q| > 0 {
      assert s[k + 1] == q[0];
    }
    assert lo < k <==> FreeLeft(bs, i);
    assert hi > k + 1 <==> FreeRight(bs, i);
    var l := if FreeLeft(bs, i) then i - 1 else i;
    var h := if FreeRight(bs, i) then i + 2 else i + 1;
    assert s[..lo] == Picked(bs[..l], false);
    assert s[hi..] == Picked(bs[h..], false);
  }

  lemma LengthsMerged(bs: seq<Block>, i: int, length: map<int, int>)
    requires Inv(bs) && 0 <= i < |bs| && Lengths(bs, length)
    ensures var l := if FreeLeft(bs, i) then i - 1 else i;
            var h := if FreeRight(bs, i) then i + 2 else i + 1;
            var m := Merged(bs, l, h);
            Lengths(FreeAt(bs, i), length[m.addr := m.size])
  {
    hide Spans, Separated;
    var l := if FreeLeft(bs, i) then i - 1 else i;
    var h := if FreeRight(bs, i) then i + 2 else i + 1;
    AddrsApart(bs, l);
  }

  /** No two headers at one address. */
  lemma AddrsApart(bs: seq<Block>, i: int)
    requires Inv(bs) && 0 <= i < |bs|
    ensures forall k :: 0 <= k < |bs| && k != i ==> bs[k].addr != bs[i].addr
  {
    hide Spans, Separated;
    forall k | 0 <= k < |bs| && k != i
      ensures bs[k].addr != bs[i].addr
    {
      SpansAt(bs, i, 0, HEAP_MAX);
      SpansAt(bs, k, 0, HEAP_MAX);
      if k < i {
        Ordered(bs, k, i, 0, HEAP_MAX);
      } else {
        Ordered(bs, i, k, 0, HEAP_MAX);
      }
    }
  }

  lemma LengthsTaken(bs: seq<Block>, i: int, size: int, length: map<int, int>)
    requires Inv(bs) && 0 <= i < |bs| && 0 <= size <= bs[i].size - HEADER && Lengths(bs, length)
    ensures var q := bs[i].addr + HEADER + size;
            Lengths(Take(bs, i, size), length[q := bs[i].size - HEADER - size][bs[i].addr := size])
  {
    hide Spans, Separated;
    AddrsApart(bs, i);
    var q := bs[i].addr + HEADER + size;
    forall k | 0 <= k < |bs| && k != i
      ensures bs[k].addr != q
    {
      SpansAt(bs, i, 0, HEAP_MAX);
      SpansAt(bs, k, 0, HEAP_MAX);
      if k < i {
        Ordered(bs, k, i, 0, HEAP_MAX);
      } else {
        Ordered(bs, i, k, 0, HEAP_MAX);
      }
    }
  }

  // ---------------------------------------------------------------- the lists around a free

  /** Both lists, apart from each other. */
  lemma Lists(bs: seq<Block>)
    requires Inv(bs)
    ensures Ascending(Picked(bs, true)) && Ascending(Picked(bs, false)) && Disjoint(Picked(bs, true), Picked(bs, false))
  {
    hide Spans, Separated, Picked, Ascending;
    PickedAscending(bs, true, 0, HEAP_MAX);
    PickedAscending(bs, false, 0, HEAP_MAX);
    forall a
      ensures !(On(Picked(bs, true), a) && On(Picked(bs, false), a))
    {
      KindsApart(bs, a);
    }
  }

  /** A block in use is followed by a free one, at the latest by the highest block. */
  lemma NotLastFree(bs: seq<Block>, i: int)
    requires Inv(bs) && 0 <= i < |bs| && bs[i].used
    ensures Picked(bs[i + 1..], false) != []
  {
    hide Spans, Separated;
    var r := bs[i + 1..];
    PickedMember(r, false, r[|r| - 1]);
  }

  /** The lists before a free, with the place of the block on the allocated list and its future
      place on the free list. */
  lemma FreeSetup(bs: seq<Block>, i: int)
    requires Inv(bs) && 0 <= i < |bs| && bs[i].used
    ensures var used, free := Picked(bs, true), Picked(bs, false);
            var k, j := |Picked(bs[..i], true)|, |Picked(bs[..i], false)|;
            0 <= k < |used| && used[k] == bs[i] && Without(used, k) == Picked(FreeAt(bs, i), true) &&
            0 <= j < |free| && Between(free, j, bs[i].addr) &&
            Put(free, j, bs[i].(used := false)) ==
            Picked(bs[..i], false) + [bs[i].(used := false)] + Picked(bs[i + 1..], false) &&
            Ascending(Put(free, j, bs[i].(used := false))) && bs[i].addr >= 0
  {
    hide Inv, Picked, FreeAt, Ascending, Between;
    FreeLists(bs, i);
    NotLastFree(bs, i);
    Around(bs, i, false);
    BlockSize(bs, i);
    var p, q := Picked(bs[..i], false), Picked(bs[i + 1..], false);
    AscendingPut(p, q, bs[i].(used := false));
    assert Picked(bs, true)[..|Picked(bs[..i], true)|] == Picked(bs[..i], true);
    assert Picked(bs, true)[|Picked(bs[..i], true)| + 1..] == Picked(bs[i + 1..], true);
    assert Picked(bs, false)[..|p|] == p && Picked(bs, false)[|p|..] == q;
  }

  lemma BlockSize(bs: seq<Block>, i: int)
    requires Inv(bs) && 0 <= i < |bs|
    ensures bs[i].size >= 0 && bs[i].addr >= 0
  {
    SpansAt(bs, i, 0, HEAP_MAX);
  }

  lemma AscendingPut(p: seq<Block>, q: seq<Block>, b: Block)
    requires Ascending(p + q) && b.addr >= 0 && b.size >= 0
    requires forall k :: 0 <= k < |p| ==> End(p[k]) <= b.addr
    requires forall k :: 0 <= k < |q| ==> q[k].addr >= End(b)
    ensures Ascending(p + [b] + q)
  {
    var r := p + [b] + q;
    var t := p + q;
    forall i | 0 <= i < |r|
      ensures r[i].addr >= 0 && r[i].size >= 0
    {
      assert i < |p| ==> r[i] == t[i];
      assert i > |p| ==> r[i] == t[i - 1];
    }
    forall i, j | 0 <= i < j < |r|
      ensures End(r[i]) <= r[j].addr
    {
      assert i < |p| ==> r[i] == t[i] == p[i];
      assert i > |p| ==> r[i] == t[i - 1];
      assert j < |p| ==> r[j] == t[j];
      assert j > |p| ==> r[j] == t[j - 1] == q[j - |p| - 1];
      assert i < |p| < j ==> End(t[i]) <= t[j - 1].addr;
    }
  }

  lemma LengthsListed(bs: seq<Block>, i: int, j: int, length: map<int, int>)
    requires Lengths(bs, length) && 0 <= i < |bs| && 0 <= j <= |Picked(bs, false)|
    ensures Lengths(Put(Picked(bs, false), j, bs[i].(used := false)), length)
  {
    hide Picked;
    var r := Put(Picked(bs, false), j, bs[i].(used := false));
    forall k | 0 <= k < |r|
      ensures r[k].addr in length && length[r[k].addr] == r[k].size
    {
      if k != j {
        var m := Place(bs, false, if k < j then k else k - 1);
        assert bs[m] == r[k];
      }
    }
  }

  /** After the merge. */
  lemma FreeDone(bs: seq<Block>, i: int, s: seq<Block>, j: int, lo: int, hi: int,
                 head: int, next: map<int, int>, length: map<int, int>, usedHead: int)
    requires Inv(bs) && 0 <= i < |bs| && bs[i].used && Lengths(bs, length)
    requires j == |Picked(bs[..i], false)|
    requires s == Picked(bs[..i], false) + [bs[i].(used := false)] + Picked(bs[i + 1..], false)
    requires lo == if j > 0 && End(s[j - 1]) == s[j].addr then j - 1 else j
    requires hi == if j + 1 < |s| && End(s[j]) == s[j + 1].addr then j + 2 else j + 1
    requires Ascending(s) && Chain(s, head, next)
    requires Chain(Picked(FreeAt(bs, i), true), usedHead, next) && Disjoint(Picked(FreeAt(bs, i), true), s)
    ensures var next' := if hi - lo == 1 then next else next[s[lo].addr := AddrAt(s, hi)];
            var length' := if hi - lo == 1 then length else length[s[lo].addr := Merged(s, lo, hi).size];
            Chain(Picked(FreeAt(bs, i), false), head, next') && Chain(Picked(FreeAt(bs, i), true), usedHead, next') &&
            Lengths(FreeAt(bs, i), length')
  {
    hide Inv, Picked, FreeAt, Chain, Lengths, Ascending, Disjoint;
    MergedLists(bs, i, s, j, lo, hi);
    LengthsMerged(bs, i, length);
    JoinChain(s, head, next, lo, hi, Merged(s, lo, hi));
    if hi - lo == 1 {
      assert next[s[lo].addr := AddrAt(s, hi)] == next by {
        LinkAt(s, head, next, lo);
      }
      assert length[s[lo].addr := Merged(s, lo, hi).size] == length by {
        LengthAt(bs, length, i);
      }
    } else {
      OnNot(Picked(FreeAt(bs, i), true), s, lo);
      FrameUpdate(Picked(FreeAt(bs, i), true), usedHead, next, s[lo].addr, AddrAt(s, hi));
    }
  }

  lemma LinkAt(s: seq<Block>, head: int, next: map<int, int>, i: int)
    requires Chain(s, head, next) && 0 <= i < |s|
    ensures s[i].addr in next && next[s[i].addr] == AddrAt(s, i + 1)
  {
    assert Points(s, next, i);
  }

  lemma LengthAt(bs: seq<Block>, length: map<int, int>, i: int)
    requires Lengths(bs, length) && 0 <= i < |bs|
    ensures bs[i].addr in length && length[bs[i].addr] == bs[i].size
  {
  }

  lemma OnNot(t: seq<Block>, s: seq<Block>, i: int)
    requires Disjoint(t, s) && 0 <= i < |s|
    ensures !On(t, s[i].addr)
  {
    assert On(s, s[i].addr);
  }

  // ---------------------------------------------------------------- the lists around an allocation

  /** The free list with the chosen block split, before it is unlinked. */
  function SplitFree(bs: seq<Block>, i: int, size: int): seq<Block>
    requires 0 <= i < |bs|
  {
    Picked(bs[..i], false) + Pieces(bs[i], size) + Picked(bs[i + 1..], false)
  }

  lemma TakeFreeSide(bs: seq<Block>, i: int, size: int)
    requires Inv(bs) && 0 <= i < |bs| && !bs[i].used && 0 <= size <= bs[i].size - HEADER && size % 4 == 0
    ensures var free, s := Picked(bs, false), SplitFree(bs, i, size);
            var j := |Picked(bs[..i], false)|;
            0 <= j < |free| && free[j] == bs[i] && j < |s| && s[j] == Pieces(bs[i], size)[0] &&
            s == free[..j] + [Pieces(bs[i], size)[0], Pieces(bs[i], size)[1]] + free[j + 1..] &&
            (forall k :: j < k < |free| ==> Pieces(bs[i], size)[1].addr < free[k].addr) &&
            Without(s, j) == Picked(Take(bs, i, size), false) && Ascending(s)
  {
    hide Inv, Picked, Take, Ascending;
    var p, q := Picked(bs[..i], false), Picked(bs[i + 1..], false);
    var t := Pieces(bs[i], size);
    TakeLists(bs, i, size);
    Around(bs, i, false);
    BlockSize(bs, i);
    var s := SplitFree(bs, i, size);
    assert Picked(bs, false)[..|p|] == p && Picked(bs, false)[|p| + 1..] == q;
    assert s == p + [t[0]] + ([t[1]] + q);
    assert Without(s, |p|) == p + [t[1]] + q;
    forall k | |p| < k < |Picked(bs, false)|
      ensures t[1].addr < Picked(bs, false)[k].addr
    {
      assert Picked(bs, false)[k] == q[k - |p| - 1];
    }
    TakeInv(bs, i, size);
    Lists(Take(bs, i, size));
    assert p + ([t[1]] + q) == p + [t[1]] + q;
    AscendingPut(p, [t[1]] + q, t[0]);
  }

  lemma TakeUsedSide(bs: seq<Block>, i: int, size: int)
    requires Inv(bs) && 0 <= i < |bs| && !bs[i].used && 0 <= size <= bs[i].size - HEADER && size % 4 == 0
    ensures var used := Picked(bs, true);
            var k := |Picked(bs[..i], true)|;
            0 <= k <= |used| && Between(used, k, bs[i].addr) && Ascending(used) && bs[i].addr >= 0 &&
            Put(used, k, Pieces(bs[i], size)[0]) == Picked(Take(bs, i, size), true)
    ensures Disjoint(SplitFree(bs, i, size), Picked(bs, true))
  {
    hide Inv, Picked, Take, Ascending, Between;
    var p, q := Picked(bs[..i], true), Picked(bs[i + 1..], true);
    var t := Pieces(bs[i], size);
    TakeLists(bs, i, size);
    Around(bs, i, true);
    Lists(bs);
    var used := Picked(bs, true);
    assert used[..|p|] == p && used[|p|..] == q;
    TakeInv(bs, i, size);
    Lists(Take(bs, i, size));
    TakeFreeSide(bs, i, size);
    ApartAfterSplit(used, |p|, SplitFree(bs, i, size), |Picked(bs[..i], false)|, t[0], Picked(bs, false));
  }

  lemma ApartAfterSplit(used: seq<Block>, k: int, s: seq<Block>, j: int, b: Block, free: seq<Block>)
    requires 0 <= k <= |used| && 0 <= j < |s| && s[j] == b && 0 <= j < |free| && free[j].addr == b.addr
    requires Disjoint(Put(used, k, b), Without(s, j)) && Disjoint(used, free)
    ensures Disjoint(s, used)
  {
    OnAt(free, j);
    forall a | On(s, a)
      ensures !On(used, a)
    {
      var m :| 0 <= m < |s| && s[m].addr == a;
      if m != j {
        OnWithout(s, j, m);
        forall n | 0 <= n < |used|
          ensures used[n].addr != a
        {
          OnPut(used, k, b, n);
        }
      }
    }
  }

  lemma OnWithout(s: seq<Block>, j: int, m: int)
    requires 0 <= j < |s| && 0 <= m < |s| && m != j
    ensures On(Without(s, j), s[m].addr)
  {
    assert Without(s, j)[if m < j then m else m - 1] == s[m];
  }

  lemma OnPut(s: seq<Block>, j: int, b: Block, m: int)
    requires 0 <= j <= |s| && 0 <= m < |s|
    ensures On(Put(s, j, b), s[m].addr)
  {
    assert Put(s, j, b)[if m < j then m else m + 1] == s[m];
  }

  lemma OnlyOnce(s: seq<Block>, j: int)
    requires Ascending(s) && 0 <= j < |s|
    ensures !On(Without(s, j), s[j].addr)
  {
    forall m | 0 <= m < |Without(s, j)|
      ensures Without(s, j)[m].addr != s[j].addr
    {
      assert Without(s, j)[m] == s[if m < j then m else m + 1];
    }
  }

  lemma OnAt(s: seq<Block>, j: int)
    requires 0 <= j < |s|
    ensures On(s, s[j].addr)
  {
  }

  /** The bytes of other blocks in use are outside the block that is taken. */
  lemma TakenApart(bs: seq<Block>, i: int, b: Block)
    requires Inv(bs) && 0 <= i < |bs| && !bs[i].used && b in Picked(bs, true)
    ensures End(b) <= bs[i].addr || End(bs[i]) <= b.addr
  {
    hide Spans, Separated;
    PickedMember(bs, true, b);
    var k :| 0 <= k < |bs| && bs[k] == b;
    if k < i {
      Ordered(bs, k, i, 0, HEAP_MAX);
    } else {
      Ordered(bs, i, k, 0, HEAP_MAX);
    }
  }

  // ---------------------------------------------------------------- the heap

  /** Building a header destroys what its bytes held. */
  function Clobbered(mem: map<int, Byte>, a: int): map<int, Byte> {
    map x | x in mem && !(a <= x < a + HEADER) :: mem[x]
  }

  /** The payload of b is as before. */
  ghost predicate Keeps(before: map<int, Byte>, after: map<int, Byte>, b: Block) {
    forall x :: b.addr + HEADER <= x < End(b) && x in before ==> x in after && after[x] == before[x]
  }

  ghost predicate Zero(mem: map<int, Byte>, a: int, n: int) {
    forall x :: a <= x < a + n ==> x in mem && mem[x] == 0
  }

  class Heap {
    var next: map<int, int>      // header fields
    var length: map<int, int>
    var freeList: int
    var allocateList: int
    var mem: map<int, Byte>      // payload bytes

    /** The blocks the lists stand for. */
    ghost var blocks: seq<Block>

    ghost predicate Valid()
      reads this
    {
      Inv(blocks) && Lengths(blocks, length) &&
      Chain(Picked(blocks, false), freeList, next) && Chain(Picked(blocks, true), allocateList, next)
    }

    /** finsh_heap_init. */
    constructor ()
      ensures Valid() && blocks == Init() && Zero(mem, 0, HEAP_MAX)
    {
      InitInv();
      var b := Block(0, HEAP_MAX - HEADER, false);
      PickedOne(b, true);
      PickedOne(b, false);
      mem := map[];
      freeList := 0;
      length := map[0 := HEAP_MAX - HEADER];
      next := map[0 := NULL];
      allocateList := NULL;
      blocks := Init();
      new;
      ClearBytes(0, HEAP_MAX);
    }

    /** memset to zero. */
    method ClearBytes(a: int, n: int)
      requires n >= 0
      modifies this`mem
      ensures Zero(mem, a, n)
      ensures forall x :: x < a || a + n <= x ==> (x in mem <==> x in old(mem)) && (x in mem ==> mem[x] == old(mem)[x])
    {
      var i := 0;
      while i < n
        invariant 0 <= i <= n && Zero(mem, a, i)
        invariant forall x :: x < a || a + i <= x ==> (x in mem <==> x in old(mem)) && (x in mem ==> mem[x] == old(mem)[x])
      {
        mem := mem[a + i := 0];
        i := i + 1;
      }
    }

    /** finsh_block_insert. */
    method Insert(list: int, h: int, ghost s: seq<Block>, ghost i: int) returns (list': int)
      requires Chain(s, list, next) && Ascending(s) && Between(s, i, h) && h >= 0
      modifies this`next
      ensures next == LinkedIn(old(next), s, i, h)
      ensures list' == if i == 0 then h else list
    {
      if list == NULL {
        return h;
      }
      var node := list;
      if node > h {
        next := next[h := node];
        return h;
      }
      ghost var k := 0;
      assert Points(s, next, 0);
      while true
        invariant 0 <= k < i && node == s[k].addr && Points(s, next, k)
        decreases |s| - k
      {
        if next[node] > h {
          break;
        }
        if next[node] == NULL {
          break;
        }
        node := next[node];
        k := k + 1;
        assert Points(s, next, k);
      }
      if next[node] != NULL {
        next := next[h := next[node]];
      }
      next := next[node := h];
      list' := list;
    }

    /** finsh_block_remove. */
    method Remove(list: int, h: int, ghost s: seq<Block>, ghost i: int) returns (list': int)
      requires Chain(s, list, next) && Ascending(s) && 0 <= i < |s| && s[i].addr == h
      modifies this`next
      ensures next == LinkedOut(old(next), s, i)
      ensures list' == if i == 0 then AddrAt(s, 1) else list
    {
      var node := list;
      assert Points(s, next, i);
      if node == h {
        list' := next[h];
        next := next[h := NULL];
        return;
      }
      ghost var k := 0;
      assert Points(s, next, 0);
      while node != NULL
        invariant 0 <= k < i && node == s[k].addr && Points(s, next, k)
        invariant next == old(next)
        decreases |s| - k
      {
        if next[node] == h {
          next := next[node := next[h]];
          break;
        }
        node := next[node];
        k := k + 1;
        assert Points(s, next, k);
      }
      list' := list;
    }

    /** finsh_block_split. */
    method Split(h: int, size: int)
      requires h in next && h in length && size >= 0
      modifies this`next, this`length, this`mem
      ensures var q := h + HEADER + size;
              next == old(next)[q := old(next)[h]][h := q] &&
              length == old(length)[q := old(length)[h] - HEADER - size][h := size] &&
              mem == Clobbered(old(mem), q)
    {
      var q := h + HEADER + size;
      mem := Clobbered(mem, q);
      length := length[q := length[h] - HEADER - size];
      length := length[h := size];
      next := next[q := next[h]];
      next := next[h := q];
    }

    /** finsh_block_merge: the entry and those of its neighbours that touch it become one. */
    method Merge(list: int, h: int, ghost s: seq<Block>, ghost i: int, ghost lo: int, ghost hi: int)
      requires Chain(s, list, next) && Ascending(s) && 0 <= i < |s| && s[i].addr == h && Lengths(s, length)
      requires lo == if i > 0 && End(s[i - 1]) == h then i - 1 else i
      requires hi == if i + 1 < |s| && End(s[i]) == s[i + 1].addr then i + 2 else i + 1
      modifies this`next, this`length
      ensures next == if hi - lo == 1 then old(next) else old(next)[s[lo].addr := AddrAt(s, hi)]
      ensures length == if hi - lo == 1 then old(length) else old(length)[s[lo].addr := Merged(s, lo, hi).size]
    {
      assert Points(s, next, i);
      if i + 1 < |s| {
        assert Points(s, next, i + 1);
      }
      var nextNode := next[h];
      var prevNode := PrevNode(list, h, s, i);
      if prevNode != NULL && prevNode + length[prevNode] + HEADER == h {
        if nextNode != NULL && h + length[h] + HEADER == nextNode {
          length := length[prevNode := length[prevNode] + length[h] + length[nextNode] + 2 * HEADER];
          next := next[prevNode := next[nextNode]];
        } else {
          length := length[prevNode := length[prevNode] + length[h] + HEADER];
          next := next[prevNode := next[h]];
        }
      } else if nextNode != NULL && h + length[h] + HEADER == nextNode {
        length := length[h := length[h] + length[nextNode] + HEADER];
        next := next[h := next[nextNode]];
      }
    }

    /** The search for the previous header in finsh_block_merge. */
    method PrevNode(list: int, h: int, ghost s: seq<Block>, ghost i: int) returns (prevNode: int)
      requires Chain(s, list, next) && Ascending(s) && 0 <= i < |s| && s[i].addr == h
      ensures prevNode == if i == 0 then NULL else s[i - 1].addr
    {
      if list == h {
        return NULL;
      }
      prevNode := list;
      ghost var k := 0;
      assert Points(s, next, 0);
      while prevNode != NULL
        invariant 0 <= k < i && prevNode == s[k].addr && Points(s, next, k)
        decreases |s| - k
      {
        if next[prevNode] == h {
          break;
        }
        prevNode := next[prevNode];
        k := k + 1;
        assert Points(s, next, k);
      }
    }

    /** finsh_heap_free. */
    method Free(ptr: int)
      requires Valid() && Live(blocks, ptr - HEADER)
      modifies this`next, this`length, this`freeList, this`allocateList, this`blocks
      ensures Valid() && blocks == FreeAddr(old(blocks), ptr - HEADER)
    {
      hide Inv, Picked, FreeAt, Chain, Lengths, Ascending, Disjoint, Between, Without, LinkedIn, LinkedOut, Put, FreeLeft, FreeRight;
      var h := ptr - HEADER;
      ghost var bs, n0 := blocks, next;
      ghost var i := Index(bs, h);
      LiveIndex(bs, h);
      ghost var used, free := Picked(bs, true), Picked(bs, false);
      ghost var k, j := |Picked(bs[..i], true)|, |Picked(bs[..i], false)|;
      ghost var b := bs[i].(used := false);
      Lists(bs);
      FreeSetup(bs, i);

      allocateList := Remove(allocateList, h, used, k);
      RemoveChain(used, old(allocateList), n0, k);
      DisjointSwap(used, free);
      FrameOut(free, freeList, n0, used, k);

      ghost var n1 := next;
      DisjointMove(used, k, free, j, b);
      HasKey(used, old(allocateList), n0, k);
      freeList := Insert(freeList, h, free, j);
      InsertExactly(free, old(freeList), n1, j, b);
      FrameIn(Without(used, k), allocateList, n1, free, j, h);

      ghost var s := Put(free, j, b);
      PutAt(free, j, b);
      LengthsListed(bs, i, j, length);
      ghost var lo := if j > 0 && End(s[j - 1]) == h then j - 1 else j;
      ghost var hi := if j + 1 < |s| && End(s[j]) == s[j + 1].addr then j + 2 else j + 1;
      FreeDone(bs, i, s, j, lo, hi, freeList, next, length, allocateList);
      Merge(freeList, h, s, j, lo, hi);
      blocks := FreeAt(bs, i);
      FreeInv(bs, i);
    }

    /** The walk of finsh_heap_allocate along the free list to the first block with `need` bytes. */
    method Search(need: int) returns (header: int, ghost j: int)
      requires Valid()
      ensures header == AddrAt(Picked(blocks, false), FirstFit(Picked(blocks, false), need))
      ensures header == NULL <==> FirstFit(Picked(blocks, false), need) == |Picked(blocks, false)|
      ensures j == FirstFit(Picked(blocks, false), need)
    {
      hide Inv, Picked;
      ghost var s := Picked(blocks, false);
      Lists(blocks);
      j := 0;
      header := freeList;
      if |s| > 0 {
        assert Points(s, next, 0);
        assert s[0] == blocks[Place(blocks, false, 0)];
      }
      while header != NULL && length[header] < need
        invariant 0 <= j <= |s| && header == AddrAt(s, j)
        invariant forall k :: 0 <= k < j ==> s[k].size < need
        invariant j < |s| ==> header in length && length[header] == s[j].size && header in next
        decreases |s| - j
      {
        assert Points(s, next, j);
        header := next[header];
        j := j + 1;
        if j < |s| {
          assert Points(s, next, j);
          assert s[j] == blocks[Place(blocks, false, j)];
        }
      }
    }

    /** finsh_heap_gc. */
    method Collector(variables: seq<Variable>)
      requires Valid()
      modifies this`next, this`length, this`freeList, this`allocateList, this`blocks
      ensures Valid() && blocks == Gc(old(blocks), variables)
    {
      hide Inv, Picked, FreeAddr, Lengths;
      var header := allocateList;
      ghost var done: seq<Block>, todo := [], Picked(blocks, true);
      assert done + todo == todo;
      while header != NULL
        invariant Valid() && Picked(blocks, true) == done + todo && header == AddrAt(todo, 0)
        invariant Collect(blocks, todo, variables) == Gc(old(blocks), variables)
        decreases |todo|
      {
        ghost var first := todo[0];
        var i := 0;
        while i < |variables|
          invariant 0 <= i <= |variables|
          invariant forall k :: 0 <= k < i ==> !(variables[k].typed && variables[k].pointer == header + HEADER)
        {
          if variables[i].typed {
            if variables[i].pointer == header + HEADER {
              break;
            }
          }
          i := i + 1;
        }
        var temp := header;
        NextListed(done, todo, allocateList, next);
        header := next[header];
        Regroup(done, first, todo[1..]);
        assert todo == [first] + todo[1..];
        if i == |variables| {
          FreeListed(blocks, done, todo);
          ListedLive(blocks, first);
          Free(temp + HEADER);
        } else {
          done := done + [first];
        }
        todo := todo[1..];
      }
      Lists(blocks);
      NoneListed(done, todo);
    }

    /** Split the block, and move its first part to the allocated list, zero-filled. */
    method TakeBlock(h: int, size: int, ghost i: int)
      requires Valid() && 0 <= i < |blocks| && !blocks[i].used && blocks[i].addr == h
      requires 0 <= size <= blocks[i].size - HEADER && size % 4 == 0
      modifies this
      ensures Valid() && blocks == Take(old(blocks), i, size)
      ensures Zero(mem, h + HEADER, size)
      ensures forall b :: b in Picked(old(blocks), true) ==> Keeps(old(mem), mem, b)
    {
      hide Inv, Picked, Chain, Lengths, Ascending, Disjoint, Between, Without, LinkedIn, LinkedOut, Put, Take, SplitFree;
      ghost var bs, n0 := blocks, next;
      ghost var used, free, s := Picked(bs, true), Picked(bs, false), SplitFree(bs, i, size);
      ghost var k, j := |Picked(bs[..i], true)|, |Picked(bs[..i], false)|;
      ghost var p, q := Pieces(bs[i], size)[0], Pieces(bs[i], size)[1];
      Lists(bs);
      TakeFreeSide(bs, i, size);
      TakeUsedSide(bs, i, size);
      LinkAt(free, freeList, next, j);
      LengthAt(bs, length, i);
      LengthsTaken(bs, i, size, length);

      Split(h, size);
      SplitChain(free, freeList, n0, j, p, q);
      SplitHeads(s, used, j, p, q);
      FrameUpdate(used, allocateList, n0, q.addr, n0[h]);
      FrameUpdate(used, allocateList, n0[q.addr := n0[h]], h, q.addr);

      ghost var n1 := next;
      freeList := Remove(freeList, h, s, j);
      RemoveChain(s, old(freeList), n1, j);
      FrameOut(used, allocateList, n1, s, j);

      ghost var n2 := next;
      next := next[h := NULL];
      OnlyOnce(s, j);
      FrameUpdate(Without(s, j), freeList, n2, h, NULL);
      FrameUpdate(used, allocateList, n2, h, NULL);

      ghost var n3 := next;
      allocateList := Insert(allocateList, h, used, k);
      InsertExactly(used, old(allocateList), n3, k, p);
      DisjointRest(s, j, used);
      FrameIn(Without(s, j), freeList, n3, used, k, h);
      blocks := Take(bs, i, size);
      TakeInv(bs, i, size);

      ClearBytes(h + HEADER, size);
      forall b | b in used
        ensures Keeps(old(mem), mem, b)
      {
        TakenApart(bs, i, b);
      }
    }

    /** finsh_heap_allocate. */
    method Allocate(request: int, variables: seq<Variable>) returns (ptr: int)
      requires Valid() && 0 <= request && request + 3 + HEADER < SIZE_SPACE
      modifies this
      ensures Valid()
      ensures var (bs, r) := FinshHeapModel.Allocate(old(blocks), request, variables);
              blocks == bs && ptr == match r case None => NULL case Some(a) => a + HEADER
      ensures ptr != NULL ==>
                forall n :: Rounds(request, n) ==> Zero(mem, ptr, n) && Block(ptr - HEADER, n, true) in blocks
      ensures forall b :: b in Picked(Source(old(blocks), request, variables), true) ==> Keeps(old(mem), mem, b)
    {
      hide Inv, Picked, Take, Gc, Chain, Lengths, Place;
      var size := Aligned(request);
      var header: int;
      ghost var j: int;
      header, j := Search(size + HEADER + 1);
      if header == NULL {
        Collector(variables);
        header, j := Search(size + HEADER);
        if header == NULL {
          return NULL;
        }
      }
      assert blocks == Source(old(blocks), request, variables);
      ghost var i := Place(blocks, false, j);
      TakeBlock(header, size, i);
      ptr := header + HEADER;
      RoundsOnly(request);
      TakenBlock(Source(old(blocks), request, variables), i, size);
    }
  }

  lemma RoundsOnly(request: int)
    ensures forall n :: Rounds(request, n) ==> n == Aligned(request)
  {
  }

  lemma TakenBlock(bs: seq<Block>, i: int, size: int)
    requires 0 <= i < |bs|
    ensures Block(bs[i].addr, size, true) in Take(bs, i, size)
  {
    assert Take(bs, i, size)[i] == Block(bs[i].addr, size, true);
  }

  lemma NextListed(done: seq<Block>, todo: seq<Block>, head: int, next: map<int, int>)
    requires Chain(done + todo, head, next) && todo != []
    ensures todo[0].addr in next && next[todo[0].addr] == AddrAt(todo[1..], 0)
  {
    assert Points(done + todo, next, |done|);
  }

  lemma ListedLive(bs: seq<Block>, b: Block)
    requires b in Picked(bs, true)
    ensures Live(bs, b.addr)
  {
    PickedMember(bs, true, b);
  }

  lemma FirstListed(done: seq<Block>, todo: seq<Block>)
    requires Ascending(done + todo) && todo != []
    ensures todo[0].addr >= 0
  {
    assert (done + todo)[|done|] == todo[0];
  }

  lemma NoneListed(done: seq<Block>, todo: seq<Block>)
    requires Ascending(done + todo) && AddrAt(todo, 0) == NULL
    ensures todo == []
  {
    if todo != [] {
      FirstListed(done, todo);
    }
  }

  lemma SplitHeads(s: seq<Block>, used: seq<Block>, j: int, p: Block, q: Block)
    requires Disjoint(s, used) && 0 <= j < |s| - 1 && s[j] == p && s[j + 1] == q
    ensures !On(used, p.addr) && !On(used, q.addr)
  {
    OnAt(s, j);
    OnAt(s, j + 1);
  }

  lemma DisjointRest(s: seq<Block>, j: int, t: seq<Block>)
    requires Disjoint(s, t) && 0 <= j < |s|
    ensures Disjoint(t, Without(s, j))
  {
    forall a | On(Without(s, j), a)
      ensures On(s, a)
    {
      var m :| 0 <= m < |Without(s, j)| && Without(s, j)[m].addr == a;
      assert s[if m < j then m else m + 1].addr == a;
    }
  }

  lemma DisjointSwap(s: seq<Block>, t: seq<Block>)
    requires Disjoint(s, t)
    ensures Disjoint(t, s)
  {
  }

  /** Unlinking leaves every header with a next field. */
  lemma HasKey(s: seq<Block>, head: int, next: map<int, int>, i: int)
    requires Chain(s, head, next) && 0 <= i < |s|
    ensures s[i].addr in LinkedOut(next, s, i)
  {
    assert Points(s, next, i);
  }

  lemma PutAt(s: seq<Block>, i: int, b: Block)
    requires 0 <= i <= |s|
    ensures |Put(s, i, b)| == |s| + 1 && Put(s, i, b)[i] == b
  {
  }
}
