/** What the data queue keeps in every interleaving: order and number of the items, the suspended
    lists, and no lost wake-up. */
module DataQueueProofs {
  import opened Basics
  import opened DataQueueModel

  // ---------------------------------------------------------------- items

  lemma SlotsDiffer(size: int, a: int, b: int)
    requires 0 < size && 0 <= a < b < a + size
    ensures a % size != b % size
  {
    var q, r := a / size, b / size;
    if a % size == b % size {
      assert b - a == (r - q) * size;
      if r - q >= 1 {
        Monotone(size, 1, r - q);
      } else {
        Monotone(size, r - q, 0);
      }
    }
  }

  lemma PushFifo(s: State, item: Item)
    requires Fifo(s) && s.put - s.get != s.size
    ensures Fifo(s.(slots := s.slots[s.put % s.size := item], put := s.put + 1, pushed := s.pushed + [item]))
  {
    var s' := s.(slots := s.slots[s.put % s.size := item], put := s.put + 1, pushed := s.pushed + [item]);
    forall k | s'.get <= k < s'.put
      ensures Holds(s', k)
    {
      if k < s.put {
        SlotsDiffer(s.size, k, s.put);
        assert Holds(s, k);
      }
    }
  }

  lemma PopFifo(s: State)
    requires Fifo(s) && s.get != s.put
    ensures s.slots[s.get % s.size] == s.pushed[s.get]
    ensures Fifo(s.(get := s.get + 1, popped := s.popped + [s.slots[s.get % s.size]]))
  {
    assert Holds(s, s.get);
    var s' := s.(get := s.get + 1, popped := s.popped + [s.slots[s.get % s.size]]);
    forall k | s'.get <= k < s'.put
      ensures Holds(s', k)
    {
      assert Holds(s, k);
    }
  }

  /** Only the queue part of the state matters for the items. */
  lemma FifoOnly(s: State, s': State)
    requires Fifo(s)
    requires s'.size == s.size && s'.put == s.put && s'.get == s.get && s'.slots == s.slots
    requires s'.pushed == s.pushed && s'.popped == s.popped
    ensures Fifo(s')
  {
    forall k | s'.get <= k < s'.put
      ensures Holds(s', k)
    {
      assert Holds(s, k);
    }
  }

  /** What went in is what came out followed by what is held. */
  lemma InOut(s: State)
    requires Fifo(s)
    ensures s.pushed == s.popped + Contents(s)
  {
    assert |s.pushed| == |s.popped + Contents(s)|;
    forall k | 0 <= k < |s.pushed|
      ensures s.pushed[k] == (s.popped + Contents(s))[k]
    {
      if k >= s.get {
        assert Holds(s, k);
      }
    }
  }

  // ---------------------------------------------------------------- threads

  /** How one thread's change moves the number of woken threads. */
  lemma WokenUpdate(threads: map<Tid, Thread>, t: Tid, th: Thread, push: bool)
    ensures var before := t in threads && Woken(threads[t], push);
            |WokenSet(threads[t := th], push)| ==
            |WokenSet(threads, push)| - (if before then 1 else 0) + if Woken(th, push) then 1 else 0
  {
    hide WokenSet, Woken;
    WokenOthers(threads, t, th, push);
    Without(WokenSet(threads, push), t);
    Without(WokenSet(threads[t := th], push), t);
  }

  lemma WokenOthers(threads: map<Tid, Thread>, t: Tid, th: Thread, push: bool)
    ensures WokenSet(threads[t := th], push) - {t} == WokenSet(threads, push) - {t}
    ensures t in WokenSet(threads, push) <==> t in threads && Woken(threads[t], push)
    ensures t in WokenSet(threads[t := th], push) <==> Woken(th, push)
  {
    hide Woken;
  }

  lemma Without(a: set<Tid>, t: Tid)
    ensures |a| == |a - {t}| + if t in a then 1 else 0
  {
    if t in a {
      assert a == (a - {t}) + {t};
    } else {
      assert a == a - {t};
    }
  }

  /** The thread is in neither list. */
  predicate Running(s: State, t: Tid) {
    ThreadAt(s, t).Idle? || !ThreadAt(s, t).waiting
  }

  lemma ListsSet(s: State, t: Tid, th: Thread)
    requires Lists(s) && Running(s, t) && (th.Idle? || !th.waiting)
    ensures Lists(s.(threads := s.threads[t := th]))
  {
    var s' := s.(threads := s.threads[t := th]);
    forall u
      ensures u in s'.pushList <==> Waiting(s', u, true)
      ensures u in s'.popList <==> Waiting(s', u, false)
      ensures !ThreadAt(s', u).Idle? && ThreadAt(s', u).waiting ==> ThreadAt(s', u).error.Ok?
    {
      assert u in s.pushList <==> Waiting(s, u, true);
      assert u in s.popList <==> Waiting(s, u, false);
    }
  }

  lemma ListsJoin(s: State, t: Tid, th: Thread)
    requires Lists(s) && Running(s, t) && !th.Idle? && th.waiting && th.error.Ok?
    ensures Lists(if th.Pushing? then s.(pushList := s.pushList + [t], threads := s.threads[t := th])
                  else s.(popList := s.popList + [t], threads := s.threads[t := th]))
  {
    var s' := if th.Pushing? then s.(pushList := s.pushList + [t], threads := s.threads[t := th])
              else s.(popList := s.popList + [t], threads := s.threads[t := th]);
    assert !Waiting(s, t, true) && !Waiting(s, t, false);
    forall u
      ensures u in s'.pushList <==> Waiting(s', u, true)
      ensures u in s'.popList <==> Waiting(s', u, false)
      ensures !ThreadAt(s', u).Idle? && ThreadAt(s', u).waiting ==> ThreadAt(s', u).error.Ok?
    {
      assert u in s.pushList <==> Waiting(s, u, true);
      assert u in s.popList <==> Waiting(s, u, false);
    }
  }

  lemma {:induction false} RemovedFacts(l: seq<Tid>, t: Tid)
    requires NoRepeat(l)
    ensures NoRepeat(Removed(l, t)) && forall u :: u in Removed(l, t) <==> u in l && u != t
  {
    if l != [] {
      assert forall i :: 0 <= i < |l| - 1 ==> l[1..][i] == l[i + 1];
      assert forall u :: u in l <==> u == l[0] || u in l[1..];
      assert l[0] !in l[1..];
      if l[0] != t {
        RemovedFacts(l[1..], t);
        var r := Removed(l[1..], t);
        assert forall i :: 0 < i < |[l[0]] + r| ==> ([l[0]] + r)[i] == r[i - 1];
      }
    }
  }

  /** A waiting thread leaves its list and becomes ready. */
  lemma ListsLeave(s: State, t: Tid, th: Thread)
    requires Lists(s) && !ThreadAt(s, t).Idle? && ThreadAt(s, t).waiting && (th.Idle? || !th.waiting)
    ensures Lists(if ThreadAt(s, t).Pushing? then s.(pushList := Removed(s.pushList, t), threads := s.threads[t := th])
                  else s.(popList := Removed(s.popList, t), threads := s.threads[t := th]))
  {
    var s' := if ThreadAt(s, t).Pushing? then s.(pushList := Removed(s.pushList, t), threads := s.threads[t := th])
              else s.(popList := Removed(s.popList, t), threads := s.threads[t := th]);
    RemovedFacts(s.pushList, t);
    RemovedFacts(s.popList, t);
    forall u
      ensures u in s'.pushList <==> Waiting(s', u, true)
      ensures u in s'.popList <==> Waiting(s', u, false)
      ensures !ThreadAt(s', u).Idle? && ThreadAt(s', u).waiting ==> ThreadAt(s', u).error.Ok?
    {
      assert u in s.pushList <==> Waiting(s, u, true);
      assert u in s.popList <==> Waiting(s, u, false);
    }
  }

  /** What waking the first waiting pusher does. */
  lemma WakePushFacts(s: State, e: Error)
    requires Lists(s)
    ensures var s' := WakePush(s, e);
            Lists(s') && s' == s.(pushList := s'.pushList, threads := s'.threads) &&
            WokenSet(s'.threads, false) == WokenSet(s.threads, false) &&
            (s.pushList == [] ==> s' == s) &&
            (s.pushList != [] ==>
               s'.pushList == s.pushList[1..] &&
               |WokenSet(s'.threads, true)| == |WokenSet(s.threads, true)| + if e.Ok? then 1 else 0)
  {
    hide WokenSet, Lists;
    if s.pushList != [] {
      var t := s.pushList[0];
      FirstWaits(s, true);
      var th := Readied(ThreadAt(s, t), e);
      ListsLeave(s, t, th);
      WokenUpdate(s.threads, t, th, true);
      WokenSame(s.threads, t, th);
    }
  }

  lemma WakePopFacts(s: State, e: Error)
    requires Lists(s)
    ensures var s' := WakePop(s, e);
            Lists(s') && s' == s.(popList := s'.popList, threads := s'.threads) &&
            WokenSet(s'.threads, true) == WokenSet(s.threads, true) &&
            (s.popList == [] ==> s' == s) &&
            (s.popList != [] ==>
               s'.popList == s.popList[1..] &&
               |WokenSet(s'.threads, false)| == |WokenSet(s.threads, false)| + if e.Ok? then 1 else 0)
  {
    hide WokenSet, Lists;
    if s.popList != [] {
      var t := s.popList[0];
      FirstWaits(s, false);
      var th := Readied(ThreadAt(s, t), e);
      ListsLeave(s, t, th);
      WokenUpdate(s.threads, t, th, false);
      WokenSame(s.threads, t, th);
    }
  }

  lemma FirstWaits(s: State, push: bool)
    requires Lists(s) && (if push then s.pushList else s.popList) != []
    ensures var t := (if push then s.pushList else s.popList)[0];
            Waiting(s, t, push) && ThreadAt(s, t).error.Ok? && t in s.threads
  {
    var t := (if push then s.pushList else s.popList)[0];
    assert t in if push then s.pushList else s.popList;
  }

  /** A thread inside one operation is no woken thread of the other. */
  lemma WokenSame(threads: map<Tid, Thread>, t: Tid, th: Thread)
    requires t in threads && !threads[t].Idle? && !th.Idle? && (threads[t].Pushing? <==> th.Pushing?)
    ensures WokenSet(threads[t := th], !th.Pushing?) == WokenSet(threads, !th.Pushing?)
  {
  }

  // ---------------------------------------------------------------- preservation

  lemma TryPushInv(s: State, t: Tid, item: Item, timeout: int)
    requires Inv(s) && Running(s, t) && !ThreadAt(s, t).Popping?
    ensures Inv(TryPush(s, t, item, timeout).0)
  {
    hide Fifo, Lists, WokenSet;
    FifoRange(s);
    var th := if s.put - s.get == s.size && timeout != 0 then Pushing(item, timeout, true, Ok) else Idle;
    WokenUpdate(s.threads, t, th, true);
    WokenUpdate(s.threads, t, th, false);
    var s' := TryPush(s, t, item, timeout).0;
    if s.put - s.get == s.size {
      if timeout == 0 {
        ListsSet(s, t, th);
      } else {
        ListsJoin(s, t, th);
      }
      FifoOnly(s, s');
    } else {
      PushFifo(s, item);
      var s1 := s.(slots := s.slots[s.put % s.size := item], put := s.put + 1, pushed := s.pushed + [item]);
      var s2 := s1.(threads := s.threads[t := Idle]);
      ListsOnly(s, s1);
      ListsSet(s1, t, Idle);
      WakePopFacts(s2, Ok);
      FifoOnly(s1, s');
    }
  }

  lemma FifoRange(s: State)
    requires Fifo(s)
    ensures 0 < s.size && |s.slots| == s.size && 0 <= s.put - s.get <= s.size && 0 <= s.get
  {
  }

  lemma ListsOnly(s: State, s': State)
    requires Lists(s) && s'.pushList == s.pushList && s'.popList == s.popList && s'.threads == s.threads
    ensures Lists(s')
  {
    assert forall t, push :: Waiting(s', t, push) <==> Waiting(s, t, push);
    assert forall t :: ThreadAt(s', t) == ThreadAt(s, t);
  }

  lemma TryPopInv(s: State, t: Tid, timeout: int)
    requires Inv(s) && Running(s, t) && !ThreadAt(s, t).Pushing?
    ensures Inv(TryPop(s, t, timeout).0)
  {
    hide Fifo, Lists, WokenSet;
    FifoRange(s);
    var th := if s.put == s.get && timeout != 0 then Popping(timeout, true, Ok) else Idle;
    WokenUpdate(s.threads, t, th, true);
    WokenUpdate(s.threads, t, th, false);
    var s' := TryPop(s, t, timeout).0;
    if s.put == s.get {
      if timeout == 0 {
        ListsSet(s, t, th);
      } else {
        ListsJoin(s, t, th);
      }
      FifoOnly(s, s');
    } else {
      PopFifo(s);
      var s1 := s.(get := s.get + 1, popped := s.popped + [s.slots[s.get % s.size]]);
      var s2 := s1.(threads := s.threads[t := Idle]);
      ListsOnly(s, s1);
      ListsSet(s1, t, Idle);
      WakePushFacts(s2, Ok);
      FifoOnly(s1, s');
    }
  }

  lemma ResumeInv(s: State, t: Tid)
    requires Inv(s) && Enabled(s, ActResume(t))
    ensures Inv(Resume(s, t).0)
  {
    hide Fifo, Lists, WokenSet;
    FifoRange(s);
    var th := ThreadAt(s, t);
    if th.error.Ok? {
      if th.Pushing? {
        TryPushInv(s, t, th.item, th.timeout);
      } else {
        TryPopInv(s, t, th.timeout);
      }
    } else {
      ListsSet(s, t, Idle);
      WokenUpdate(s.threads, t, Idle, true);
      WokenUpdate(s.threads, t, Idle, false);
      FifoOnly(s, s.(threads := s.threads[t := Idle]));
    }
  }

  lemma ExpireInv(s: State, t: Tid)
    requires Inv(s) && Enabled(s, ActExpire(t))
    ensures Inv(Expire(s, t))
  {
    hide Fifo, Lists, WokenSet;
    var th := Readied(ThreadAt(s, t), TimedOut);
    ListsLeave(s, t, th);
    WokenUpdate(s.threads, t, th, true);
    WokenUpdate(s.threads, t, th, false);
    FifoOnly(s, Expire(s, t));
  }

  lemma ResetInv(s: State)
    requires Inv(s)
    ensures Inv(WakePop(s, Failed)) && Inv(WakePush(s, Failed))
  {
    hide Fifo, Lists, WokenSet;
    WakePopFacts(s, Failed);
    WakePushFacts(s, Failed);
    FifoOnly(s, WakePop(s, Failed));
    FifoOnly(s, WakePush(s, Failed));
  }

  lemma StepInv(s: State, a: Action)
    requires Inv(s) && Enabled(s, a)
    ensures Inv(Step(s, a).0)
  {
    hide Fifo, Lists, WokenSet, Awake;
    FifoRange(s);
    match a
    case ActPush(t, item, timeout) => TryPushInv(s, t, item, timeout);
    case ActPop(t, timeout) => TryPopInv(s, t, timeout);
    case ActResume(t) => ResumeInv(s, t);
    case ActExpire(t) => ExpireInv(s, t);
    case ActResetPop => ResetInv(s);
    case ActResetPush => ResetInv(s);
  }

  lemma InitInv(size: int, lwm: int, slots: seq<Item>)
    requires 0 < size && |slots| == size && 0 <= lwm
    ensures Inv(Init(size, lwm, slots))
  {
    assert WokenSet(map[], true) == {} && WokenSet(map[], false) == {};
  }

  // ---------------------------------------------------------------- runs

  /** The state after a run of interleaved steps. */
  function After(init: State, acts: seq<Action>): State
    requires init.size > 0 && |init.slots| == init.size
    ensures After(init, acts).size == init.size && |After(init, acts).slots| == init.size
  {
    if acts == [] then init else
    var s := After(init, acts[..|acts| - 1]);
    SizeKept(s, acts[|acts| - 1]);
    Step(s, acts[|acts| - 1]).0
  }

  lemma SizeKept(s: State, a: Action)
    requires s.size > 0 && |s.slots| == s.size
    ensures Step(s, a).0.size == s.size && |Step(s, a).0.slots| == s.size
  {
  }

  ghost predicate Permitted(init: State, acts: seq<Action>)
    requires init.size > 0 && |init.slots| == init.size
  {
    acts == [] ||
    (Permitted(init, acts[..|acts| - 1]) && Enabled(After(init, acts[..|acts| - 1]), acts[|acts| - 1]))
  }

  lemma {:induction false} RunInv(size: int, lwm: int, slots: seq<Item>, acts: seq<Action>)
    requires 0 < size && |slots| == size && 0 <= lwm && Permitted(Init(size, lwm, slots), acts)
    ensures Inv(After(Init(size, lwm, slots), acts))
  {
    hide Inv, Step, Enabled;
    var init := Init(size, lwm, slots);
    if acts == [] {
      InitInv(size, lwm, slots);
    } else {
      RunInv(size, lwm, slots, acts[..|acts| - 1]);
      StepInv(After(init, acts[..|acts| - 1]), acts[|acts| - 1]);
    }
  }

  /** The mark does not change. */
  lemma {:induction false} MarkKept(init: State, acts: seq<Action>)
    requires init.size > 0 && |init.slots| == init.size
    ensures After(init, acts).lwm == init.lwm
  {
    if acts != [] {
      var s := After(init, acts[..|acts| - 1]);
      MarkKept(init, acts[..|acts| - 1]);
      StepMark(s, acts[|acts| - 1]);
    }
  }

  lemma StepMark(s: State, a: Action)
    requires s.size > 0 && |s.slots| == s.size
    ensures Step(s, a).0.lwm == s.lwm
  {
  }

  /** In every reachable state: items come out in the order they went in, none lost or duplicated,
      at most `size` held; with no woken popper a waiting popper means an empty queue; with no
      woken pusher a waiting pusher means a queue above the mark (or full, for marks beyond the
      size); and pushers and poppers never all sleep. */
  lemma NoLostWakeup(size: int, lwm: int, slots: seq<Item>, acts: seq<Action>)
    requires 0 < size && |slots| == size && 0 <= lwm && Permitted(Init(size, lwm, slots), acts)
    ensures var s := After(Init(size, lwm, slots), acts);
            0 <= s.get <= s.put && s.pushed == s.popped + Contents(s) && |Contents(s)| <= size &&
            (s.popList != [] && WokenSet(s.threads, false) == {} ==> Contents(s) == []) &&
            (s.pushList != [] && WokenSet(s.threads, true) == {} ==> |Contents(s)| > Min(lwm, size - 1)) &&
            (s.pushList != [] && s.popList != [] ==> WokenSet(s.threads, true) + WokenSet(s.threads, false) != {})
  {
    hide Lists, WokenSet;
    RunInv(size, lwm, slots, acts);
    var s := After(Init(size, lwm, slots), acts);
    MarkKept(Init(size, lwm, slots), acts);
    InOut(s);
    if s.pushList != [] && s.popList != [] {
      var a, b := WokenSet(s.threads, true), WokenSet(s.threads, false);
      assert a <= a + b && b <= a + b;
    }
  }

  // ---------------------------------------------------------------- results of calls

  /** A push that succeeds puts in exactly its item, a pop that succeeds takes exactly the oldest
      one; every other outcome leaves the items alone. */
  lemma ResultExactly(s: State, a: Action)
    requires Inv(s) && Enabled(s, a)
    ensures var (s', o) := Step(s, a);
            var pushing := a.ActPush? || (a.ActResume? && ThreadAt(s, a.t).Pushing?);
            var item := if a.ActPush? then a.item else if pushing then ThreadAt(s, a.t).item else Item(0, 0);
            s'.get <= s'.put && s'.size == s.size == |s'.slots| &&
            Contents(s') ==
            if o.Done? && o.result.Ok? && pushing then Contents(s) + [item]
            else if o.Done? && o.result.Ok? then Contents(s)[1..]
            else Contents(s)
    ensures var (s', o) := Step(s, a);
            var pushing := a.ActPush? || (a.ActResume? && ThreadAt(s, a.t).Pushing?);
            o.Done? && o.result.Ok? && !pushing ==> Contents(s) != [] && o.got == Some(Contents(s)[0])
  {
    hide Lists, Awake;
    var (s', o) := Step(s, a);
    StepInv(s, a);
    InOut(s);
    InOut(s');
    StepHistory(s, a);
    var pushing := a.ActPush? || (a.ActResume? && ThreadAt(s, a.t).Pushing?);
    if o.Done? && o.result.Ok? {
      if pushing {
        var item := if a.ActPush? then a.item else ThreadAt(s, a.t).item;
        assert Contents(s') == s'.pushed[|s'.popped|..];
        assert Contents(s) == s.pushed[|s.popped|..];
      } else {
        PopFifo(s);
        assert Contents(s')  == s'.pushed[|s'.popped|..];
        assert Contents(s) == s.pushed[|s.popped|..];
      }
    } else {
      assert Contents(s') == s'.pushed[|s'.popped|..];
      assert Contents(s) == s.pushed[|s.popped|..];
    }
  }

  /** The items after a turn of push. */
  lemma PushedItems(s: State, t: Tid, item: Item, timeout: int)
    requires Inv(s) && Running(s, t) && !ThreadAt(s, t).Popping?
    ensures var s' := TryPush(s, t, item, timeout).0;
            s.get <= s.put && s'.get <= s'.put && s'.size == s.size == |s'.slots| &&
            Contents(s') == Contents(s) + if |Contents(s)| < s.size then [item] else []
  {
    hide Lists, Awake;
    var s' := TryPush(s, t, item, timeout).0;
    TryPushInv(s, t, item, timeout);
    InOut(s);
    InOut(s');
    assert Contents(s') == s'.pushed[|s'.popped|..];
    assert Contents(s) == s.pushed[|s.popped|..];
  }

  /** The items after a turn of pop. */
  lemma PoppedItems(s: State, t: Tid, timeout: int)
    requires Inv(s) && Running(s, t) && !ThreadAt(s, t).Pushing?
    ensures var s' := TryPop(s, t, timeout).0;
            s.get <= s.put && s'.get <= s'.put && s'.size == s.size == |s'.slots| &&
            Contents(s') == if Contents(s) != [] then Contents(s)[1..] else []
  {
    hide Lists, Awake;
    var s' := TryPop(s, t, timeout).0;
    TryPopInv(s, t, timeout);
    PopFifoAny(s);
    InOut(s);
    InOut(s');
    assert Contents(s') == s'.pushed[|s'.popped|..];
    assert Contents(s) == s.pushed[|s.popped|..];
  }

  lemma PopFifoAny(s: State)
    requires Fifo(s)
    ensures s.get != s.put ==> s.slots[s.get % s.size] == s.pushed[s.get]
  {
    if s.get != s.put {
      PopFifo(s);
    }
  }

  lemma StepHistory(s: State, a: Action)
    requires s.size > 0 && |s.slots| == s.size && Enabled(s, a)
    ensures var (s', o) := Step(s, a);
            var pushing := a.ActPush? || (a.ActResume? && ThreadAt(s, a.t).Pushing?);
            var item := if a.ActPush? then a.item else if pushing then ThreadAt(s, a.t).item else Item(0, 0);
            if o.Done? && o.result.Ok? && pushing then s'.pushed == s.pushed + [item] && s'.popped == s.popped
            else if o.Done? && o.result.Ok? then
              s'.pushed == s.pushed && s'.popped == s.popped + [s.slots[s.get % s.size]] &&
              o.got == Some(s.slots[s.get % s.size]) && s.get != s.put
            else s'.pushed == s.pushed && s'.popped == s.popped
  {
  }

  // ---------------------------------------------------------------- 16-bit indices

  /** The source keeps both indices in 16 bits. The full test on the stored indices agrees with the
      one on the counts if and only if the counts are in the same round of 65536, or the queue is
      not full. */
  lemma FullTestExactly(size: int, put: int, get: int)
    requires 0 < size < 0x1_0000 && 0 <= get <= put <= get + size
    ensures (put % 0x1_0000 - get % 0x1_0000 == size <==> put - get == size) <==>
            (put - get == size ==> put / 0x1_0000 == get / 0x1_0000)
  {
  }

  /** The empty test always agrees. */
  lemma EmptyTestAgrees(size: int, put: int, get: int)
    requires 0 < size < 0x1_0000 && 0 <= get <= put <= get + size
    ensures put % 0x1_0000 == get % 0x1_0000 <==> put == get
  {
  }

  /** The slot of a stored index is that of the count for all counts if and only if the size
      divides 65536. */
  lemma SlotsExactly(size: int)
    requires 0 < size < 0x1_0000
    ensures (forall n :: 0 <= n ==> (n % 0x1_0000) % size == n % size) <==> 0x1_0000 % size == 0
  {
    if 0x1_0000 % size == 0 {
      var q := 0x1_0000 / size;
      forall n | 0 <= n
        ensures (n % 0x1_0000) % size == n % size
      {
        var k := n / 0x1_0000;
        assert n == n % 0x1_0000 + (k * q) * size by {
          assert 0x1_0000 == q * size;
          Associate(k, q, size);
        }
        AddMultiple(n % 0x1_0000, k * q, size);
      }
    } else {
      var n := 0x1_0000;
      assert (n % 0x1_0000) % size == 0 != n % size;
    }
  }

  lemma Associate(a: int, b: int, c: int)
    ensures a * (b * c) == (a * b) * c
  {
  }

  lemma AddMultiple(a: int, k: int, size: int)
    requires size > 0
    ensures (a + k * size) % size == a % size
  {
    var q := a / size;
    assert a + k * size == (q + k) * size + a % size by {
      assert (q + k) * size == q * size + k * size;
    }
    Quotient(a + k * size, size, q + k, a % size);
  }
}
