/** The data queue object: indices, slots and suspended lists updated in place, one method for
    each section that runs with interrupts disabled. */
module DataQueue {
  import opened Basics
  import opened DataQueueModel
  import opened DataQueueProofs

  class Queue {
    const queue: array<Item>
    const size: int
    const lwm: int
    var putIndex: int
    var getIndex: int
    var suspendedPush: seq<Tid>
    var suspendedPop: seq<Tid>
    var threads: map<Tid, Thread>   // the part of the thread records the queue touches

    ghost var pushed: seq<Item>
    ghost var popped: seq<Item>

    /** The state of the model. */
    ghost function View(): State
      reads this, queue
    {
      State(size, lwm, putIndex, getIndex, queue[..], suspendedPush, suspendedPop, threads, pushed, popped)
    }

    ghost predicate Valid()
      reads this, queue
    {
      Inv(View())
    }

    /** rt_data_queue_init: the slots come from rt_malloc. */
    constructor (slots: array<Item>, lwm: int)
      requires slots.Length > 0 && lwm >= 0
      ensures Valid() && View() == Init(slots.Length, lwm, slots[..]) && queue == slots
    {
      queue := slots;
      size := slots.Length;
      this.lwm := lwm;
      putIndex := 0;
      getIndex := 0;
      suspendedPush := [];
      suspendedPop := [];
      threads := map[];
      pushed := [];
      popped := [];
      InitInv(slots.Length, lwm, slots[..]);
    }

    /** rt_thread_resume of the first thread on the pop list. */
    method ResumeFirstPop(e: Error)
      requires suspendedPop != []
      modifies this`suspendedPop, this`threads
      ensures View() == WakePop(old(View()), e)
    {
      var t := suspendedPop[0];
      threads := threads[t := Readied(if t in threads then threads[t] else Idle, e)];
      suspendedPop := suspendedPop[1..];
    }

    /** rt_thread_resume of the first thread on the push list. */
    method ResumeFirstPush(e: Error)
      requires suspendedPush != []
      modifies this`suspendedPush, this`threads
      ensures View() == WakePush(old(View()), e)
    {
      var t := suspendedPush[0];
      threads := threads[t := Readied(if t in threads then threads[t] else Idle, e)];
      suspendedPush := suspendedPush[1..];
    }

    /** rt_data_queue_push of thread t, from its entry or from a wake-up without error, to the point
        where interrupts are enabled again. */
    method Push(t: Tid, item: Item, timeout: int) returns (o: Outcome)
      requires Valid() && Running(View(), t) && !ThreadAt(View(), t).Popping?
      modifies this, queue
      ensures Valid() && (View(), o) == TryPush(old(View()), t, item, timeout)
      ensures o.Pending? <==> |old(Contents(View()))| == size && timeout != 0
      ensures o.Done? ==> (o.result == if |old(Contents(View()))| < size then Ok else TimedOut)
      ensures Contents(View()) == old(Contents(View())) + if |old(Contents(View()))| < size then [item] else []
    {
      hide Lists, WokenSet;
      TryPushInv(View(), t, item, timeout);
      PushedItems(View(), t, item, timeout);
      if putIndex - getIndex == size {
        if timeout == 0 {
          threads := threads[t := Idle];
          return Done(TimedOut, None, None);
        }
        threads := threads[t := Pushing(item, timeout, true, Ok)];
        suspendedPush := suspendedPush + [t];
        return Pending;
      }
      queue[putIndex % size] := item;
      putIndex := putIndex + 1;
      pushed := pushed + [item];
      threads := threads[t := Idle];
      if suspendedPop != [] {
        ResumeFirstPop(Ok);
        return Done(Ok, None, None);
      }
      o := Done(Ok, None, Some(EventPush));
    }

    /** rt_data_queue_pop of thread t, likewise. */
    method Pop(t: Tid, timeout: int) returns (o: Outcome)
      requires Valid() && Running(View(), t) && !ThreadAt(View(), t).Pushing?
      modifies this
      ensures Valid() && (View(), o) == TryPop(old(View()), t, timeout)
      ensures o.Pending? <==> old(Contents(View())) == [] && timeout != 0
      ensures o.Done? ==> (o.result == if old(Contents(View())) != [] then Ok else TimedOut)
      ensures o.Done? && o.result.Ok? ==> o.got == Some(old(Contents(View()))[0])
      ensures Contents(View()) == if old(Contents(View())) != [] then old(Contents(View()))[1..] else []
    {
      hide Lists, WokenSet;
      TryPopInv(View(), t, timeout);
      PoppedItems(View(), t, timeout);
      if getIndex == putIndex {
        if timeout == 0 {
          threads := threads[t := Idle];
          return Done(TimedOut, None, None);
        }
        threads := threads[t := Popping(timeout, true, Ok)];
        suspendedPop := suspendedPop + [t];
        return Pending;
      }
      var item := queue[getIndex % size];
      getIndex := getIndex + 1;
      popped := popped + [item];
      threads := threads[t := Idle];
      if putIndex - getIndex <= lwm {
        if suspendedPush != [] {
          ResumeFirstPush(Ok);
        }
        return Done(Ok, Some(item), Some(EventLwm));
      }
      o := Done(Ok, Some(item), Some(EventPop));
    }

    /** The section after a wake-up: an error ends the call, otherwise the loop goes round. */
    method Resumed(t: Tid) returns (o: Outcome)
      requires Valid() && t in threads && Enabled(View(), ActResume(t))
      modifies this, queue
      ensures Valid() && (View(), o) == Resume(old(View()), t)
    {
      hide Lists, WokenSet, Fifo, Awake;
      ResumeInv(View(), t);
      FifoRange(View());
      var th := threads[t];
      if !th.error.Ok? {
        threads := threads[t := Idle];
        return Done(th.error, None, None);
      }
      match th
      case Pushing(item, timeout, _, _) => o := Push(t, item, timeout);
      case Popping(timeout, _, _) => o := Pop(t, timeout);
    }

    /** rt_data_queue_peak. */
    method Peak() returns (r: Option<Item>)
      requires Valid()
      ensures r == if Contents(View()) == [] then None else Some(Contents(View())[0])
    {
      hide Lists, WokenSet, Awake;
      if getIndex == putIndex {
        return None;
      }
      r := Some(queue[getIndex % size]);
    }

    /** rt_data_queue_reset: every waiting thread, poppers first, becomes ready with an error; the
        items stay. */
    method Reset()
      requires Valid()
      modifies this
      ensures Valid() && suspendedPush == [] && suspendedPop == []
      ensures Contents(View()) == old(Contents(View())) && pushed == old(pushed) && popped == old(popped)
      ensures forall t :: ThreadAt(View(), t) ==
                          var th := ThreadAt(old(View()), t);
                          if !th.Idle? && th.waiting then Readied(th, Failed) else th
    {
      hide Lists, WokenSet, Fifo, Awake;
      ghost var start := View();
      FifoRange(start);
      while suspendedPop != []
        invariant Valid() && ResetSoFar(start, View())
        decreases |suspendedPop|
      {
        ResetStep(start, View(), false);
        ResumeFirstPop(Failed);
      }
      while suspendedPush != []
        invariant Valid() && ResetSoFar(start, View()) && suspendedPop == []
        decreases |suspendedPush|
      {
        ResetStep(start, View(), true);
        ResumeFirstPush(Failed);
      }
      ResetDone(start, View());
    }
  }

  /** Between two steps of a reset: every thread is as it was, or was waiting and is ready with an
      error. */
  ghost predicate ResetSoFar(s: State, s': State) {
    s' == s.(pushList := s'.pushList, popList := s'.popList, threads := s'.threads) &&
    forall t :: ThreadAt(s', t) == ThreadAt(s, t) ||
                (!ThreadAt(s, t).Idle? && ThreadAt(s, t).waiting && ThreadAt(s', t) == Readied(ThreadAt(s, t), Failed))
  }

  lemma ResetStep(s: State, s': State, push: bool)
    requires Inv(s') && ResetSoFar(s, s') && (if push then s'.pushList else s'.popList) != []
    ensures var s2 := if push then WakePush(s', Failed) else WakePop(s', Failed);
            Inv(s2) && ResetSoFar(s, s2)
  {
    hide WokenSet, Fifo, Awake, Inv;
    ResetInv(s');
    ListsOf(s');
    FirstWaits(s', push);
  }

  lemma ListsOf(s: State)
    requires Inv(s)
    ensures Lists(s)
  {
  }

  lemma ResetDone(s: State, s': State)
    requires Inv(s') && ResetSoFar(s, s') && s'.pushList == [] && s'.popList == []
    ensures forall t :: ThreadAt(s', t) ==
                        var th := ThreadAt(s, t);
                        if !th.Idle? && th.waiting then Readied(th, Failed) else th
  {
    hide WokenSet, Fifo, Awake;
    forall t
      ensures ThreadAt(s', t).Idle? || !ThreadAt(s', t).waiting
    {
      assert t !in s'.pushList && t !in s'.popList;
      assert !Waiting(s', t, true) && !Waiting(s', t, false);
    }
  }
}
