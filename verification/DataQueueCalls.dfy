/** What each step of the data queue does, said from outside: when a call succeeds, fails or waits,
    what it returns, and which threads move. */
module DataQueueCalls {
  import opened Basics
  import opened DataQueueModel
  import opened DataQueueProofs

  /** Nothing but the threads in `moved` changes its place. */
  ghost predicate OthersStay(s: State, s': State, moved: set<Tid>) {
    forall u :: u !in moved ==> ThreadAt(s', u) == ThreadAt(s, u)
  }

  /** The step tries to push: a new call, or one that was woken without an error. */
  predicate PushTurn(s: State, a: Action) {
    a.ActPush? || (a.ActResume? && ThreadAt(s, a.t).Pushing? && ThreadAt(s, a.t).error.Ok?)
  }

  predicate PopTurn(s: State, a: Action) {
    a.ActPop? || (a.ActResume? && ThreadAt(s, a.t).Popping? && ThreadAt(s, a.t).error.Ok?)
  }

  /** The items of the queue are readable, before and after. */
  lemma ItemsReadable(s: State, a: Action)
    requires Inv(s) && Enabled(s, a)
    ensures 0 < s.size == |s.slots| && s.get <= s.put && |Contents(s)| == s.put - s.get
    ensures var s' := Step(s, a).0; s'.size == s.size == |s'.slots| && s'.get <= s'.put
  {
    hide Lists, Awake;
    StepInv(s, a);
  }

  /** A push goes through if and only if fewer than `size` items are held. Then the item is the last
      one, and the first waiting popper, if there is one, is made ready in place of the event. On a
      full queue it fails at once without a timeout, and otherwise joins the end of the push list. */
  lemma PushExactly(s: State, a: Action)
    requires Inv(s) && Enabled(s, a) && PushTurn(s, a)
    ensures 0 < s.size == |s.slots| && s.get <= s.put && Step(s, a).0.size == s.size == |Step(s, a).0.slots| &&
            Step(s, a).0.get <= Step(s, a).0.put
    ensures var (s', o) := Step(s, a);
            var (item, timeout) := if a.ActPush? then (a.item, a.timeout) else (ThreadAt(s, a.t).item, ThreadAt(s, a.t).timeout);
            if |Contents(s)| < s.size then
              o == Done(Ok, None, if s.popList == [] then Some(EventPush) else None) &&
              Contents(s') == Contents(s) + [item] && ThreadAt(s', a.t) == Idle && s'.pushList == s.pushList &&
              PopperReady(s, s', a.t)
            else if timeout == 0 then
              o == Done(TimedOut, None, None) && Contents(s') == Contents(s) && ThreadAt(s', a.t) == Idle &&
              s'.pushList == s.pushList && s'.popList == s.popList && OthersStay(s, s', {a.t})
            else
              o == Pending && Contents(s') == Contents(s) && ThreadAt(s', a.t) == Pushing(item, timeout, true, Ok) &&
              s'.pushList == s.pushList + [a.t] && s'.popList == s.popList && OthersStay(s, s', {a.t})
  {
    hide Awake;
    ItemsReadable(s, a);
    ResultExactly(s, a);
    if s.popList != [] {
      FirstWaits(s, false);
    }
  }

  /** The first waiting popper, if any, is taken off the list and made ready without an error. */
  ghost predicate PopperReady(s: State, s': State, t: Tid) {
    if s.popList == [] then s'.popList == [] && OthersStay(s, s', {t}) else
    var u := s.popList[0];
    s'.popList == s.popList[1..] && ThreadAt(s, u).Popping? && u != t &&
    ThreadAt(s', u) == Popping(ThreadAt(s, u).timeout, false, Ok) && OthersStay(s, s', {t, u})
  }

  ghost predicate PusherReady(s: State, s': State, t: Tid) {
    if s.pushList == [] then s'.pushList == [] && OthersStay(s, s', {t}) else
    var u := s.pushList[0];
    s'.pushList == s.pushList[1..] && ThreadAt(s, u).Pushing? && u != t &&
    ThreadAt(s', u) == Pushing(ThreadAt(s, u).item, ThreadAt(s, u).timeout, false, Ok) && OthersStay(s, s', {t, u})
  }

  /** A pop goes through if and only if an item is held, and returns the oldest one. Down to the mark
      it tells so and makes the first waiting pusher ready, above it neither. On an empty queue it
      fails at once without a timeout, and otherwise joins the end of the pop list. */
  lemma PopExactly(s: State, a: Action)
    requires Inv(s) && Enabled(s, a) && PopTurn(s, a)
    ensures 0 < s.size == |s.slots| && s.get <= s.put && Step(s, a).0.size == s.size == |Step(s, a).0.slots| &&
            Step(s, a).0.get <= Step(s, a).0.put
    ensures var (s', o) := Step(s, a);
            var timeout := if a.ActPop? then a.timeout else ThreadAt(s, a.t).timeout;
            if Contents(s) != [] then
              var low := |Contents(s)| - 1 <= s.lwm;
              o == Done(Ok, Some(Contents(s)[0]), Some(if low then EventLwm else EventPop)) &&
              Contents(s') == Contents(s)[1..] && ThreadAt(s', a.t) == Idle && s'.popList == s.popList &&
              (if low then PusherReady(s, s', a.t) else s'.pushList == s.pushList && OthersStay(s, s', {a.t}))
            else if timeout == 0 then
              o == Done(TimedOut, None, None) && Contents(s') == [] && ThreadAt(s', a.t) == Idle &&
              s'.pushList == s.pushList && s'.popList == s.popList && OthersStay(s, s', {a.t})
            else
              o == Pending && Contents(s') == [] && ThreadAt(s', a.t) == Popping(timeout, true, Ok) &&
              s'.popList == s.popList + [a.t] && s'.pushList == s.pushList && OthersStay(s, s', {a.t})
  {
    hide Awake;
    ItemsReadable(s, a);
    ResultExactly(s, a);
    if s.pushList != [] {
      FirstWaits(s, true);
    }
  }

  /** A call that was woken with an error returns that error; nothing else changes. */
  lemma RefusedExactly(s: State, a: Action)
    requires Inv(s) && Enabled(s, a) && a.ActResume? && !ThreadAt(s, a.t).error.Ok?
    ensures 0 < s.size == |s.slots|
    ensures var (s', o) := Step(s, a);
            o == Done(ThreadAt(s, a.t).error, None, None) && ThreadAt(s', a.t) == Idle &&
            s' == s.(threads := s'.threads) && OthersStay(s, s', {a.t})
  {
    hide Awake, Lists;
  }

  lemma {:induction false} RemovedOne(l: seq<Tid>, t: Tid)
    requires t in l
    ensures LeavesOut(l, Removed(l, t), t)
  {
    hide LeavesOut;
    if l[0] == t {
      FirstOut(l);
    } else {
      RemovedOne(l[1..], t);
      OutLater(l, Removed(l[1..], t), t);
    }
  }

  /** A thread whose time runs out leaves its list, wherever it stands in it, and is ready with a
      timeout error; a reset makes the first thread of a list ready with its own error. */
  lemma WokenWithError(s: State, a: Action)
    requires Inv(s) && Enabled(s, a) && (a.ActExpire? || a.ActResetPop? || a.ActResetPush?)
    ensures 0 < s.size == |s.slots|
    ensures var (s', o) := Step(s, a);
            var t := if a.ActExpire? then a.t else if a.ActResetPop? then s.popList[0] else s.pushList[0];
            var e := if a.ActExpire? then TimedOut else Failed;
            var th := ThreadAt(s, t);
            o == Pending && s' == s.(pushList := s'.pushList, popList := s'.popList, threads := s'.threads) &&
            OthersStay(s, s', {t}) &&
            match th
            case Idle => false
            case Pushing(item, timeout, waiting, _) =>
              waiting && ThreadAt(s', t) == Pushing(item, timeout, false, e) &&
              LeavesOut(s.pushList, s'.pushList, t) && s'.popList == s.popList
            case Popping(timeout, waiting, _) =>
              waiting && ThreadAt(s', t) == Popping(timeout, false, e) &&
              LeavesOut(s.popList, s'.popList, t) && s'.pushList == s.pushList
  {
    hide Awake, LeavesOut;
    if a.ActExpire? {
      assert Waiting(s, a.t, ThreadAt(s, a.t).Pushing?);
      if ThreadAt(s, a.t).Pushing? {
        RemovedOne(s.pushList, a.t);
      } else {
        RemovedOne(s.popList, a.t);
      }
    } else if a.ActResetPop? {
      FirstWaits(s, false);
      FirstOut(s.popList);
    } else {
      FirstWaits(s, true);
      FirstOut(s.pushList);
    }
  }
}
