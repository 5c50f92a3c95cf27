/** The data queue as a state machine: every section that runs with interrupts disabled is one
    step, and steps of different threads interleave freely. */
module DataQueueModel {
  import opened Basics

  type Tid = int

  datatype Item = Item(data: int, size: int)

  /** RT_EOK, RT_ETIMEOUT, RT_ERROR. */
  datatype Error = Ok | TimedOut | Failed

  datatype Event = EventPush | EventPop | EventLwm

  /** Where a thread is: outside the queue, inside push or inside pop. Inside, it waits on the
      suspended list, or has been made ready with its error number and not run yet. */
  datatype Thread =
    | Idle
    | Pushing(item: Item, timeout: int, waiting: bool, error: Error)
    | Popping(timeout: int, waiting: bool, error: Error)

  /** What a section gives back: the call goes on, or returns. */
  datatype Outcome = Pending | Done(result: Error, got: Option<Item>, event: Option<Event>)

  /** `pushed` and `popped` record every item that went in and came out. */
  datatype State = State(
    size: int, lwm: int, put: int, get: int, slots: seq<Item>,
    pushList: seq<Tid>, popList: seq<Tid>, threads: map<Tid, Thread>,
    pushed: seq<Item>, popped: seq<Item>)

  function Occupancy(s: State): int {
    s.put - s.get
  }

  /** The items between the two indices, oldest first. */
  function Contents(s: State): seq<Item>
    requires s.size > 0 && |s.slots| == s.size && s.get <= s.put
  {
    seq(s.put - s.get, k requires 0 <= k => s.slots[(s.get + k) % s.size])
  }

  function ThreadAt(s: State, t: Tid): Thread {
    if t in s.threads then s.threads[t] else Idle
  }

  /** A waiting thread made ready; only an error overwrites its error number. */
  function Readied(th: Thread, e: Error): Thread {
    match th
    case Idle => Idle
    case Pushing(item, timeout, _, error) => Pushing(item, timeout, false, if e.Ok? then error else e)
    case Popping(timeout, _, error) => Popping(timeout, false, if e.Ok? then error else e)
  }

  /** Make the first thread of the pop list ready. */
  function WakePop(s: State, e: Error): State {
    if s.popList == [] then s else
    var t := s.popList[0];
    s.(popList := s.popList[1..], threads := s.threads[t := Readied(ThreadAt(s, t), e)])
  }

  /** Make the first thread of the push list ready. */
  function WakePush(s: State, e: Error): State {
    if s.pushList == [] then s else
    var t := s.pushList[0];
    s.(pushList := s.pushList[1..], threads := s.threads[t := Readied(ThreadAt(s, t), e)])
  }

  /** One turn of the loop of rt_data_queue_push up to where interrupts are enabled again. */
  function TryPush(s: State, t: Tid, item: Item, timeout: int): (State, Outcome)
    requires s.size > 0 && |s.slots| == s.size
  {
    if s.put - s.get == s.size then
      if timeout == 0 then
        (s.(threads := s.threads[t := Idle]), Done(TimedOut, None, None))
      else
        (s.(pushList := s.pushList + [t], threads := s.threads[t := Pushing(item, timeout, true, Ok)]), Pending)
    else
      var s1 := s.(slots := s.slots[s.put % s.size := item], put := s.put + 1, pushed := s.pushed + [item],
                   threads := s.threads[t := Idle]);
      (WakePop(s1, Ok), Done(Ok, None, if s1.popList == [] then Some(EventPush) else None))
  }

  /** One turn of the loop of rt_data_queue_pop. */
  function TryPop(s: State, t: Tid, timeout: int): (State, Outcome)
    requires s.size > 0 && |s.slots| == s.size
  {
    if s.get == s.put then
      if timeout == 0 then
        (s.(threads := s.threads[t := Idle]), Done(TimedOut, None, None))
      else
        (s.(popList := s.popList + [t], threads := s.threads[t := Popping(timeout, true, Ok)]), Pending)
    else
      var item := s.slots[s.get % s.size];
      var s1 := s.(get := s.get + 1, popped := s.popped + [item], threads := s.threads[t := Idle]);
      if s1.put - s1.get <= s1.lwm then (WakePush(s1, Ok), Done(Ok, Some(item), Some(EventLwm)))
      else (s1, Done(Ok, Some(item), Some(EventPop)))
  }

  /** The section after the thread was made ready and runs again: an error ends the call. */
  function Resume(s: State, t: Tid): (State, Outcome)
    requires s.size > 0 && |s.slots| == s.size
  {
    match ThreadAt(s, t)
    case Idle => (s, Pending)
    case Pushing(item, timeout, _, error) =>
      if !error.Ok? then (s.(threads := s.threads[t := Idle]), Done(error, None, None)) else TryPush(s, t, item, timeout)
    case Popping(timeout, _, error) =>
      if !error.Ok? then (s.(threads := s.threads[t := Idle]), Done(error, None, None)) else TryPop(s, t, timeout)
  }

  function Removed(l: seq<Tid>, t: Tid): seq<Tid> {
    if l == [] then [] else if l[0] == t then l[1..] else [l[0]] + Removed(l[1..], t)
  }

  /** The thread's timer ran out: it leaves its list and becomes ready with an error. */
  function Expire(s: State, t: Tid): State {
    match ThreadAt(s, t)
    case Idle => s
    case Pushing(_, _, _, _) =>
      s.(pushList := Removed(s.pushList, t), threads := s.threads[t := Readied(ThreadAt(s, t), TimedOut)])
    case Popping(_, _, _) =>
      s.(popList := Removed(s.popList, t), threads := s.threads[t := Readied(ThreadAt(s, t), TimedOut)])
  }

  datatype Action =
    | ActPush(t: Tid, item: Item, timeout: int)
    | ActPop(t: Tid, timeout: int)
    | ActResume(t: Tid)
    | ActExpire(t: Tid)
    | ActResetPop
    | ActResetPush

  /** Which steps can happen: a thread calls when it is outside, runs on when it is ready, and its
      timer runs only while it waits with a positive timeout. A reset makes the first thread of a
      list ready, one at a time. */
  predicate Enabled(s: State, a: Action) {
    match a
    case ActPush(t, _, _) => ThreadAt(s, t).Idle?
    case ActPop(t, _) => ThreadAt(s, t).Idle?
    case ActResume(t) => !ThreadAt(s, t).Idle? && !ThreadAt(s, t).waiting
    case ActExpire(t) => !ThreadAt(s, t).Idle? && ThreadAt(s, t).waiting && ThreadAt(s, t).timeout > 0
    case ActResetPop => s.popList != []
    case ActResetPush => s.pushList != []
  }

  function Step(s: State, a: Action): (State, Outcome)
    requires s.size > 0 && |s.slots| == s.size
  {
    match a
    case ActPush(t, item, timeout) => TryPush(s, t, item, timeout)
    case ActPop(t, timeout) => TryPop(s, t, timeout)
    case ActResume(t) => Resume(s, t)
    case ActExpire(t) => (Expire(s, t), Pending)
    case ActResetPop => (WakePop(s, Failed), Pending)
    case ActResetPush => (WakePush(s, Failed), Pending)
  }

  /** rt_data_queue_init, with the slots rt_malloc returned. */
  function Init(size: int, lwm: int, slots: seq<Item>): State {
    State(size, lwm, 0, 0, slots, [], [], map[], [], [])
  }

  // ---------------------------------------------------------------- the invariant

  ghost predicate Waiting(s: State, t: Tid, push: bool) {
    var th := ThreadAt(s, t);
    (if push then th.Pushing? else th.Popping?) && th.waiting
  }

  /** Ready without an error, not yet run. */
  predicate Woken(th: Thread, push: bool) {
    (if push then th.Pushing? else th.Popping?) && !th.waiting && th.error.Ok?
  }

  function WokenSet(threads: map<Tid, Thread>, push: bool): set<Tid> {
    set t | t in threads && Woken(threads[t], push)
  }

  ghost predicate NoRepeat(l: seq<Tid>) {
    forall i, j :: 0 <= i < j < |l| ==> l[i] != l[j]
  }

  /** The lists hold exactly the waiting threads, once each; a waiting thread has no error. */
  ghost predicate Lists(s: State) {
    NoRepeat(s.pushList) && NoRepeat(s.popList) &&
    (forall t :: t in s.pushList <==> Waiting(s, t, true)) &&
    (forall t :: t in s.popList <==> Waiting(s, t, false)) &&
    (forall t :: !ThreadAt(s, t).Idle? && ThreadAt(s, t).waiting ==> ThreadAt(s, t).error.Ok?)
  }

  /** Slot of the k-th item ever pushed. */
  ghost predicate Holds(s: State, k: int)
    requires s.size > 0 && |s.slots| == s.size && 0 <= k < |s.pushed|
  {
    s.slots[k % s.size] == s.pushed[k]
  }

  /** Nothing is lost, duplicated or reordered, and no more than `size` items are held. */
  ghost predicate Fifo(s: State) {
    0 < s.size && |s.slots| == s.size && 0 <= s.get <= s.put <= s.get + s.size &&
    |s.pushed| == s.put && s.popped == s.pushed[..s.get] &&
    forall k :: s.get <= k < s.put ==> Holds(s, k)
  }

  /** A waiting pusher is justified by a queue above the mark or by pushers on their way, a waiting
      popper by poppers on their way to every item there is. */
  ghost predicate Awake(s: State) {
    (s.pushList != [] ==> Occupancy(s) + |WokenSet(s.threads, true)| > Min(s.lwm, s.size - 1)) &&
    (s.popList != [] ==> Occupancy(s) <= |WokenSet(s.threads, false)|)
  }

  ghost predicate Inv(s: State) {
    Fifo(s) && Lists(s) && Awake(s) && s.lwm >= 0
  }
}
