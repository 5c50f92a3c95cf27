/** What a transfer leaves on the bus and in the buffers when the slave answers as it likes. */
module I2cOutcomes {
  import opened Basics
  import opened I2cModel

  // ---------------------------------------------------------------- the plan of a transfer

  /** What the master does: a repeated START, a byte written (of an address or of data; how often it
      is repeated without an acknowledge, and whether a missing one is ignored), a byte read and
      answered. */
  datatype Action = Again | Write(value: int, address: bool, tries: nat, ignore: bool) | Read(more: bool)

  /** How many of the slots from `from` on are refused before one is acknowledged, at most n. */
  function Refusals(s: Slave, from: nat, n: nat): nat
    decreases n
  {
    if n == 0 || s.ack(from) then 0 else 1 + Refusals(s, from + 1, n - 1)
  }

  /** A byte that is refused n times, with STOP and START behind each. */
  function Repeated(v: int, n: nat): seq<Frame> {
    if n == 0 then [] else [FByte(v, false), FStop, FStart] + Repeated(v, n - 1)
  }

  /** Carry a plan out: a byte that is not acknowledged in the end, and not ignored, ends it. */
  function Play(plan: seq<Action>, s: Slave, p: Pos): (Option<Ret>, seq<Frame>, Pos) {
    if plan == [] then (None, [], p) else
    match plan[0]
    case Again =>
      var (r, fs, p1) := Play(plan[1..], s, p);
      (r, [FStart] + fs, p1)
    case Write(v, address, tries, ignore) =>
      var n := Refusals(s, p.acks, tries);
      var ack := s.ack(p.acks + n);
      var p1 := p.(acks := p.acks + n + 1);
      if !ack && !ignore then (Some(if address then Eio else Nacked), Repeated(v, n) + [FByte(v, false)], p1) else
      var (r, fs, p2) := Play(plan[1..], s, p1);
      (r, Repeated(v, n) + [FByte(v, ack)] + fs, p2)
    case Read(more) =>
      var (r, fs, p1) := Play(plan[1..], s, p.(bytes := p.bytes + 1));
      (r, [FByte(s.byte(p.bytes) as int, more)] + fs, p1)
  }

  /** The address bytes, which are repeated unless missing acknowledges are ignored; the second byte
      of a 10-bit address is not repeated. */
  function AddressPlan(m: Msg, retries: nat): seq<Action> {
    var tries := if m.ignoreNack then 0 else retries;
    if !m.tenBit then [Write(Short(m.addr, m.read), true, tries, m.ignoreNack)]
    else [Write(High(m.addr), true, tries, m.ignoreNack), Write(I2cModel.Low(m.addr), true, 0, m.ignoreNack)] +
         if m.read then [Again, Write(High(m.addr) + 1, true, tries, m.ignoreNack)] else []
  }

  function Writes(data: seq<Byte>, ignore: bool): seq<Action> {
    if data == [] then [] else [Write(data[0] as int, false, 0, ignore)] + Writes(data[1..], ignore)
  }

  function Reads(n: nat): seq<Action> {
    if n == 0 then [] else [Read(n > 1)] + Reads(n - 1)
  }

  function MessagePlan(m: Msg, first: bool, retries: nat): seq<Action> {
    (if m.noStart then [] else (if first then [] else [Again]) + AddressPlan(m, retries)) +
    if m.read then Reads(|m.data|) else Writes(m.data, m.ignoreNack)
  }

  function Plan(msgs: seq<Msg>, i: nat, retries: nat): seq<Action>
    requires i <= |msgs|
    decreases |msgs| - i
  {
    if i == |msgs| then [] else MessagePlan(msgs[i], i == 0, retries) + Plan(msgs, i + 1, retries)
  }

  /** Where the slave is after the first action. */
  function Next(a: Action, s: Slave, p: Pos): Pos {
    match a
    case Again => p
    case Write(_, _, tries, _) => p.(acks := p.acks + Refusals(s, p.acks, tries) + 1)
    case Read(_) => p.(bytes := p.bytes + 1)
  }

  lemma {:induction false} PlayBoth(a: seq<Action>, b: seq<Action>, s: Slave, p: Pos)
    ensures var (r, fs, p1) := Play(a, s, p);
            var (r', fs', p2) := Play(b, s, p1);
            Play(a + b, s, p) == if r.Some? then (r, fs, p1) else (r', fs + fs', p2)
  {
    if a == [] {
      assert a + b == b;
      Neutral(Play(b, s, p).1);
    } else {
      assert (a + b)[1..] == a[1..] + b;
      var p1 := Next(a[0], s, p);
      PlayBoth(a[1..], b, s, p1);
      var fs, fs' := Play(a[1..], s, p1).1, Play(b, s, Play(a[1..], s, p1).2).1;
      assert forall f: seq<Frame> :: f + (fs + fs') == f + fs + fs';
    }
  }

  lemma Neutral(fs: seq<Frame>)
    ensures fs + [] == fs && [] + fs == fs
  {
  }

  /** Addressing is such a write: refused bytes, then one that is acknowledged or the last. */
  lemma {:induction false} AddressPlayed(addr: int, retries: nat, s: Slave, p: Pos)
    ensures var n := Refusals(s, p.acks, retries);
            SendAddress(addr, retries, s, p) ==
            (s.ack(p.acks + n), Repeated(addr, n) + [FByte(addr, s.ack(p.acks + n))], p.(acks := p.acks + n + 1))
    decreases retries
  {
    if !s.ack(p.acks) && retries > 0 {
      AddressPlayed(addr, retries - 1, s, p.(acks := p.acks + 1));
      var n := Refusals(s, p.acks + 1, retries - 1);
      var refused := [FByte(addr, false), FStop, FStart];
      assert forall f: seq<Frame> :: refused + (Repeated(addr, n) + f) == refused + Repeated(addr, n) + f;
    } else {
      NoTries(s, p.acks, addr);
    }
  }

  /** One byte. */
  lemma PlayWrite(v: int, address: bool, tries: nat, ignore: bool, s: Slave, p: Pos)
    ensures var n := Refusals(s, p.acks, tries);
            var ack := s.ack(p.acks + n);
            Play([Write(v, address, tries, ignore)], s, p) ==
            (if ack || ignore then None else Some(if address then Eio else Nacked), Repeated(v, n) + [FByte(v, ack)],
             p.(acks := p.acks + n + 1))
  {
    assert [Write(v, address, tries, ignore)][1..] == [];
    var n := Refusals(s, p.acks, tries);
    Neutral(Repeated(v, n) + [FByte(v, s.ack(p.acks + n))]);
  }

  lemma PlayAgain(s: Slave, p: Pos)
    ensures Play([Again], s, p) == (None, [FStart], p) && Play([], s, p) == (None, [], p)
  {
    assert [Again][1..] == [];
    Neutral([FStart]);
  }

  lemma NoTries(s: Slave, from: nat, v: int)
    ensures Refusals(s, from, 0) == 0 && Repeated(v, 0) + [FByte(v, s.ack(from))] == [FByte(v, s.ack(from))]
  {
  }

  lemma PhasePlayed(m: Msg, retries: nat, s: Slave, p: Pos)
    ensures var (r, fs, p1) := Play(AddressPlan(m, retries), s, p);
            AddressPhase(m, retries, s, p) == (r.None?, fs, p1) && (r.Some? ==> r.value == Eio)
  {
    hide Play, Refusals, Repeated, SendAddress;
    var tries := if m.ignoreNack then 0 else retries;
    if !m.tenBit {
      AddressPlayed(Short(m.addr, m.read), tries, s, p);
      PlayWrite(Short(m.addr, m.read), true, tries, m.ignoreNack, s, p);
    } else {
      TenBitPlayed(m, retries, s, p);
    }
  }

  lemma TenBitPlayed(m: Msg, retries: nat, s: Slave, p: Pos)
    requires m.tenBit
    ensures var (r, fs, p1) := Play(AddressPlan(m, retries), s, p);
            AddressPhase(m, retries, s, p) == (r.None?, fs, p1) && (r.Some? ==> r.value == Eio)
  {
    hide Play, Refusals, Repeated, SendAddress;
    var tries := if m.ignoreNack then 0 else retries;
    var high := [Write(High(m.addr), true, tries, m.ignoreNack)];
    var low := [Write(I2cModel.Low(m.addr), true, 0, m.ignoreNack)];
    var more := if m.read then [Again] + [Write(High(m.addr) + 1, true, tries, m.ignoreNack)] else [];
    assert AddressPlan(m, retries) == high + low + more;
    AddressPlayed(High(m.addr), tries, s, p);
    PlayWrite(High(m.addr), true, tries, m.ignoreNack, s, p);
    var (ok1, fs1, p1) := SendAddress(High(m.addr), tries, s, p);
    NoTries(s, p1.acks, I2cModel.Low(m.addr));
    PlayWrite(I2cModel.Low(m.addr), true, 0, m.ignoreNack, s, p1);
    PlayBoth(high, low, s, p);
    var p2 := p1.(acks := p1.acks + 1);
    var fs2 := fs1 + [FByte(I2cModel.Low(m.addr), s.ack(p1.acks))];
    PlayAgain(s, p2);
    AddressPlayed(High(m.addr) + 1, tries, s, p2);
    PlayWrite(High(m.addr) + 1, true, tries, m.ignoreNack, s, p2);
    PlayBoth([Again], [Write(High(m.addr) + 1, true, tries, m.ignoreNack)], s, p2);
    PlayBoth(high + low, more, s, p);
    Neutral(fs2);
    var fs3 := SendAddress(High(m.addr) + 1, tries, s, p2).1;
    assert fs2 + [FStart] + fs3 == fs2 + ([FStart] + fs3);
  }

  lemma {:induction false} WritesPlayed(data: seq<Byte>, ignore: bool, s: Slave, p: Pos)
    ensures var (r, fs, p1) := Play(Writes(data, ignore), s, p);
            SendBytes(data, ignore, s, p) == (r.None?, fs, p1) && (r.Some? ==> r.value == Nacked)
  {
    if data != [] {
      assert Writes(data, ignore)[1..] == Writes(data[1..], ignore);
      NoTries(s, p.acks, data[0] as int);
      WritesPlayed(data[1..], ignore, s, p.(acks := p.acks + 1));
    }
  }

  lemma {:induction false} ReadsPlayed(n: nat, s: Slave, p: Pos)
    ensures Play(Reads(n), s, p) == (None, RecvFrames(n, s, p.bytes), p.(bytes := p.bytes + n))
  {
    if n > 0 {
      assert Reads(n)[1..] == Reads(n - 1);
      ReadsPlayed(n - 1, s, p.(bytes := p.bytes + 1));
    }
  }

  lemma MessagePlayed(m: Msg, first: bool, retries: nat, s: Slave, p: Pos)
    ensures Message(m, first, retries, s, p) == Play(MessagePlan(m, first, retries), s, p)
  {
    hide Play, AddressPhase, AddressPlan, SendBytes, RecvFrames, Writes, Reads;
    var restart: seq<Action> := if first || m.noStart then [] else [Again];
    var address := if m.noStart then [] else AddressPlan(m, retries);
    var body := if m.read then Reads(|m.data|) else Writes(m.data, m.ignoreNack);
    PlayAgain(s, p);
    PhasePlayed(m, retries, s, p);
    PlayBoth(restart, address, s, p);
    var p1 := Play(address, s, p).2;
    WritesPlayed(m.data, m.ignoreNack, s, p1);
    ReadsPlayed(|m.data|, s, p1);
    PlayBoth(restart + address, body, s, p);
    assert MessagePlan(m, first, retries) == restart + address + body;
  }

  /** No message asks to go on after a missing acknowledge. */
  predicate Strict(msgs: seq<Msg>) {
    forall i :: 0 <= i < |msgs| ==> !msgs[i].ignoreNack
  }

  function Outcome(r: Option<Ret>, n: nat): Ret {
    if r.None? then Done(n) else r.value
  }

  /** Whatever the slave answers, a transfer is the plan of its messages carried out. */
  lemma {:induction false} MessagesPlayed(msgs: seq<Msg>, i: nat, retries: nat, s: Slave, p: Pos)
    requires i <= |msgs|
    ensures var (r, fs, p1) := Play(Plan(msgs, i, retries), s, p);
            Messages(msgs, i, retries, s, p) == (Outcome(r, |msgs|), fs, p1)
    decreases |msgs| - i
  {
    hide Message, MessagePlan;
    if i < |msgs| {
      MessagePlayed(msgs[i], i == 0, retries, s, p);
      var (r, fs, p1) := Play(MessagePlan(msgs[i], i == 0, retries), s, p);
      PlayBoth(MessagePlan(msgs[i], i == 0, retries), Plan(msgs, i + 1, retries), s, p);
      if r.None? {
        MessagesPlayed(msgs, i + 1, retries, s, p1);
      }
    }
  }

  // ---------------------------------------------------------------- cut off at the first missing acknowledge

  /** Acknowledge slots of the slave in a plan. */
  function Slots(plan: seq<Action>): nat {
    if plan == [] then 0 else (if plan[0].Write? then 1 else 0) + Slots(plan[1..])
  }

  function Obliging(s: Slave): Slave {
    s.(ack := _ => true)
  }

  /** The same frames up to a written byte, which is not acknowledged. */
  predicate CutOff(fs: seq<Frame>, full: seq<Frame>) {
    var n := |fs| - 1;
    0 <= n < |full| && fs[..n] == full[..n] && full[n].FByte? && full[n].ack && fs[n] == full[n].(ack := false)
  }

  lemma CutOffMore(f: Frame, fs: seq<Frame>, full: seq<Frame>)
    requires CutOff(fs, full)
    ensures CutOff([f] + fs, [f] + full)
  {
    var n := |fs| - 1;
    assert ([f] + fs)[..n + 1] == [f] + fs[..n];
    assert ([f] + full)[..n + 1] == [f] + full[..n];
  }

  /** Every byte is sent once and must be acknowledged. */
  ghost predicate Simple(plan: seq<Action>) {
    forall i :: 0 <= i < |plan| ==> plan[i].Write? ==> plan[i].tries == 0 && !plan[i].ignore
  }

  lemma {:induction false} PlanSimple(msgs: seq<Msg>, i: nat)
    requires i <= |msgs| && Strict(msgs)
    ensures Simple(Plan(msgs, i, 0))
    decreases |msgs| - i
  {
    hide MessagePlan, Simple;
    if i < |msgs| {
      PlanSimple(msgs, i + 1);
      MessageSimple(msgs[i], i == 0);
      SimpleBoth(MessagePlan(msgs[i], i == 0, 0), Plan(msgs, i + 1, 0));
    } else {
      EmptySimple();
    }
  }

  lemma EmptySimple()
    ensures Simple([])
  {
  }

  lemma SimpleBoth(a: seq<Action>, b: seq<Action>)
    requires Simple(a) && Simple(b)
    ensures Simple(a + b)
  {
  }

  lemma MessageSimple(m: Msg, first: bool)
    requires !m.ignoreNack
    ensures Simple(MessagePlan(m, first, 0))
  {
    hide Writes, Reads;
    WritesSimple(m.data);
    ReadsSimple(|m.data|);
    SimpleBoth(if m.noStart then [] else (if first then [] else [Again]) + AddressPlan(m, 0),
               if m.read then Reads(|m.data|) else Writes(m.data, false));
  }

  lemma {:induction false} WritesSimple(data: seq<Byte>)
    ensures Simple(Writes(data, false))
  {
    if data != [] {
      WritesSimple(data[1..]);
    }
  }

  lemma {:induction false} ReadsSimple(n: nat)
    ensures Simple(Reads(n))
  {
    if n > 0 {
      ReadsSimple(n - 1);
    }
  }

  /** The plan is carried out whole if and only if every slot is acknowledged; otherwise it stops at
      the first slot that is not. */
  lemma {:induction false} PlayExactly(plan: seq<Action>, s: Slave, p: Pos)
    requires Simple(plan)
    ensures var (r, fs, p1) := Play(plan, s, p);
            var full := Play(plan, Obliging(s), p).1;
            (r.None? <==> AllAcks(s, p.acks, Slots(plan))) &&
            (r.None? ==> fs == full) &&
            (r.Some? ==> CutOff(fs, full) && FirstRefusal(s, p.acks, p1.acks))
  {
    hide Refusals, Repeated, CutOff;
    if plan != [] {
      SimpleRest(plan);
      match plan[0]
      case Again =>
        PlayExactly(plan[1..], s, p);
        PlayStep(plan, s, p, FStart, p);
      case Write(v, _, _, _) =>
        var p1 := p.(acks := p.acks + 1);
        PlayExactly(plan[1..], s, p1);
        WriteExactly(plan, s, p);
      case Read(more) =>
        var p1 := p.(bytes := p.bytes + 1);
        PlayExactly(plan[1..], s, p1);
        PlayStep(plan, s, p, FByte(s.byte(p.bytes) as int, more), p1);
    }
  }

  lemma SimpleRest(plan: seq<Action>)
    requires Simple(plan) && plan != []
    ensures Simple(plan[1..]) && (plan[0].Write? ==> plan[0].tries == 0 && !plan[0].ignore)
  {
    assert forall i :: 0 <= i < |plan[1..]| ==> plan[1..][i] == plan[i + 1];
  }

  lemma WritePlayed(plan: seq<Action>, s: Slave, p: Pos)
    requires plan != [] && plan[0].Write? && plan[0].tries == 0 && !plan[0].ignore
    ensures var a, p1 := plan[0], p.(acks := p.acks + 1);
            Play(plan, s, p) ==
            if !s.ack(p.acks) then (Some(if a.address then Eio else Nacked), [FByte(a.value, false)], p1) else
            var (r, fs, p2) := Play(plan[1..], s, p1);
            (r, [FByte(a.value, true)] + fs, p2)
  {
    NoTries(s, p.acks, plan[0].value);
  }

  lemma WriteExactly(plan: seq<Action>, s: Slave, p: Pos)
    requires Simple(plan) && plan != [] && plan[0].Write?
    requires var p1 := p.(acks := p.acks + 1);
             var (r, fs, p2) := Play(plan[1..], s, p1);
             var full := Play(plan[1..], Obliging(s), p1).1;
             (r.None? <==> AllAcks(s, p1.acks, Slots(plan[1..]))) &&
             (r.None? ==> fs == full) &&
             (r.Some? ==> CutOff(fs, full) && FirstRefusal(s, p1.acks, p2.acks))
    ensures var (r, fs, p1) := Play(plan, s, p);
            var full := Play(plan, Obliging(s), p).1;
            (r.None? <==> AllAcks(s, p.acks, Slots(plan))) &&
            (r.None? ==> fs == full) &&
            (r.Some? ==> CutOff(fs, full) && FirstRefusal(s, p.acks, p1.acks))
  {
    hide Play, Simple, AllAcks;
    var v, p1 := plan[0].value, p.(acks := p.acks + 1);
    SimpleRest(plan);
    WritePlayed(plan, s, p);
    WritePlayed(plan, Obliging(s), p);
    AcksShift(s, p.acks, Slots(plan));
    if s.ack(p.acks) {
      PlayStep(plan, s, p, FByte(v, true), p1);
      RefusalLater(s, p.acks, Play(plan[1..], s, p1).2.acks);
    } else {
      NoneBefore(s, p.acks);
    }
  }

  lemma NoneBefore(s: Slave, from: nat)
    requires !s.ack(from)
    ensures FirstRefusal(s, from, from + 1)
  {
  }

  /** One frame that goes well. */
  lemma PlayStep(plan: seq<Action>, s: Slave, p: Pos, f: Frame, p1: Pos)
    requires plan != [] && Play(plan, s, p).1 == [f] + Play(plan[1..], s, p1).1
    requires Play(plan, Obliging(s), p).1 == [f] + Play(plan[1..], Obliging(s), p1).1
    ensures CutOff(Play(plan[1..], s, p1).1, Play(plan[1..], Obliging(s), p1).1) ==>
              CutOff(Play(plan, s, p).1, Play(plan, Obliging(s), p).1)
  {
    hide Play, CutOff;
    if CutOff(Play(plan[1..], s, p1).1, Play(plan[1..], Obliging(s), p1).1) {
      CutOffMore(f, Play(plan[1..], s, p1).1, Play(plan[1..], Obliging(s), p1).1);
    }
  }

  /** Of the slots in from..to the last one, and no other, is not acknowledged. */
  ghost predicate FirstRefusal(s: Slave, from: nat, to: nat) {
    from < to && AllAcks(s, from, to - 1 - from) && !s.ack(to - 1)
  }

  lemma RefusalLater(s: Slave, from: nat, to: nat)
    requires s.ack(from)
    ensures FirstRefusal(s, from + 1, to) ==> FirstRefusal(s, from, to)
  {
    if FirstRefusal(s, from + 1, to) {
      AcksShift(s, from, to - 1 - from);
    }
  }

  lemma {:induction false} ExpectedSame(msgs: seq<Msg>, i: nat, s: Slave, k: nat)
    requires i <= |msgs|
    ensures Expected(msgs, i, Obliging(s), k) == Expected(msgs, i, s, k)
    decreases |msgs| - i
  {
    if i < |msgs| {
      assert ReadFrames(|msgs[i].data|, Obliging(s), k) == ReadFrames(|msgs[i].data|, s, k);
      ExpectedSame(msgs, i + 1, s, if msgs[i].read then k + |msgs[i].data| else k);
    }
  }

  /** Whatever the slave answers, without retries and without flags to ignore it: the transfer is
      done if and only if every address and data byte is acknowledged, and then the bus has seen all
      the frames of the messages; otherwise it has seen the same frames up to the first byte that is
      not acknowledged, and a STOP. */
  lemma XferExactly(msgs: seq<Msg>, s: Slave, p: Pos)
    requires Strict(msgs)
    ensures var (r, fs, p1) := Xfer(msgs, 0, s, p);
            var full := Expected(msgs, 0, s, p.bytes);
            (r.Done? <==> AllAcks(s, p.acks, Slots(Plan(msgs, 0, 0)))) &&
            (r.Done? ==> r == Done(|msgs|) && fs == [FStart] + full + [FStop]) &&
            (!r.Done? ==> FirstRefusal(s, p.acks, p1.acks) &&
                          exists cut :: CutOff(cut, full) && fs == [FStart] + cut + [FStop])
  {
    hide Messages, Play, Plan, Expected, CutOff;
    var ideal := Obliging(s);
    PlanSimple(msgs, 0);
    MessagesPlayed(msgs, 0, 0, s, p);
    MessagesPlayed(msgs, 0, 0, ideal, p);
    PlayErrors(Plan(msgs, 0, 0), s, p);
    PlayExactly(Plan(msgs, 0, 0), s, p);
    MessagesAcked(msgs, 0, 0, ideal, p);
    ExpectedSame(msgs, 0, s, p.bytes);
  }

  lemma {:induction false} PlayErrors(plan: seq<Action>, s: Slave, p: Pos)
    ensures Play(plan, s, p).0.Some? ==> !Play(plan, s, p).0.value.Done?
  {
    if plan != [] {
      PlayErrors(plan[1..], s, Next(plan[0], s, p));
    }
  }

  // ---------------------------------------------------------------- the buffers

  /** The buffers from message i on after a transfer: a read message that was gone through has the
      bytes received, the others are as they were. */
  function Buffers(msgs: seq<Msg>, i: nat, retries: nat, s: Slave, p: Pos): (bufs: seq<seq<Byte>>)
    requires i <= |msgs|
    ensures |bufs| == |msgs| - i
    decreases |msgs| - i
  {
    if i == |msgs| then [] else
    var (r, _, p1) := Message(msgs[i], i == 0, retries, s, p);
    if r.Some? then Unchanged(msgs, i)
    else [if msgs[i].read then RecvData(|msgs[i].data|, s, AfterAddress(msgs[i], retries, s, p)) else msgs[i].data] +
         Buffers(msgs, i + 1, retries, s, p1)
  }

  function Unchanged(msgs: seq<Msg>, i: nat): (bufs: seq<seq<Byte>>)
    requires i <= |msgs|
    ensures |bufs| == |msgs| - i
    ensures forall j :: 0 <= j < |bufs| ==> bufs[j] == msgs[i + j].data
  {
    seq(|msgs| - i, j requires 0 <= j < |msgs| - i => msgs[i + j].data)
  }

  /** How many messages were gone through. */
  function Reached(msgs: seq<Msg>, i: nat, retries: nat, s: Slave, p: Pos): (n: nat)
    requires i <= |msgs|
    ensures i <= n <= |msgs|
    decreases |msgs| - i
  {
    if i == |msgs| then i else
    var (r, _, p1) := Message(msgs[i], i == 0, retries, s, p);
    if r.Some? then i else Reached(msgs, i + 1, retries, s, p1)
  }

  /** What the read messages in i..n hold, in order. */
  function Gathered(msgs: seq<Msg>, bufs: seq<seq<Byte>>, i: nat, n: nat): seq<Byte>
    requires i <= n <= |msgs| == |bufs|
    decreases n - i
  {
    if i == n then [] else (if msgs[i].read then bufs[i] else []) + Gathered(msgs, bufs, i + 1, n)
  }

  /** n bytes of the slave from its k-th on. */
  function Sent(s: Slave, k: nat, n: nat): seq<Byte> {
    seq(n, j requires 0 <= j => s.byte(k + j))
  }

  lemma AddressBytes(m: Msg, retries: nat, s: Slave, p: Pos)
    ensures AddressPhase(m, retries, s, p).2.bytes == p.bytes
  {
    hide Short, High, I2cModel.Low;
    SendBytesSame(Short(m.addr, m.read), if m.ignoreNack then 0 else retries, s, p);
    SendBytesSame(High(m.addr), if m.ignoreNack then 0 else retries, s, p);
    var p1 := SendAddress(High(m.addr), if m.ignoreNack then 0 else retries, s, p).2;
    SendBytesSame(High(m.addr) + 1, if m.ignoreNack then 0 else retries, s, p1.(acks := p1.acks + 1));
  }

  lemma {:induction false} SendBytesSame(addr: int, retries: nat, s: Slave, p: Pos)
    ensures SendAddress(addr, retries, s, p).2.bytes == p.bytes
    decreases retries
  {
    if retries > 0 {
      SendBytesSame(addr, retries - 1, s, p.(acks := p.acks + 1));
    }
  }

  lemma {:induction false} WriteBytesSame(data: seq<Byte>, ignoreNack: bool, s: Slave, p: Pos)
    ensures SendBytes(data, ignoreNack, s, p).2.bytes == p.bytes
  {
    if data != [] {
      WriteBytesSame(data[1..], ignoreNack, s, p.(acks := p.acks + 1));
    }
  }

  /** A message moves the slave on by the bytes it reads, if it is gone through. */
  lemma MessageBytes(m: Msg, first: bool, retries: nat, s: Slave, p: Pos)
    ensures var (r, _, p1) := Message(m, first, retries, s, p);
            p1.bytes == p.bytes + if r.None? && m.read then |m.data| else 0
    ensures AfterAddress(m, retries, s, p) == p.bytes
  {
    hide AddressPhase, SendBytes, RecvFrames;
    AddressBytes(m, retries, s, p);
    WriteBytesSame(m.data, m.ignoreNack, s, if m.noStart then p else AddressPhase(m, retries, s, p).2);
  }

  /** Whatever happens on the bus, the buffers of the read messages that were gone through hold, one
      after the other, exactly the bytes the slave sent, and every other buffer is as it was. */
  lemma {:induction false} BuffersExactly(msgs: seq<Msg>, i: nat, retries: nat, s: Slave, p: Pos, bufs: seq<seq<Byte>>)
    requires i <= |msgs| == |bufs| && bufs[i..] == Buffers(msgs, i, retries, s, p)
    ensures var n := Reached(msgs, i, retries, s, p);
            var p1 := Messages(msgs, i, retries, s, p).2;
            p.bytes <= p1.bytes && Gathered(msgs, bufs, i, n) == Sent(s, p.bytes, p1.bytes - p.bytes) &&
            (n == |msgs| <==> Messages(msgs, i, retries, s, p).0.Done?) &&
            forall j :: i <= j < |msgs| && (j >= n || !msgs[j].read) ==> bufs[j] == msgs[j].data
    decreases |msgs| - i
  {
    hide Message, RecvData, Sent;
    SentNone(s, p.bytes);
    assert forall j :: i <= j < |msgs| ==> bufs[j] == bufs[i..][j - i];
    if i < |msgs| {
      var m := msgs[i];
      var (r, _, p1) := Message(m, i == 0, retries, s, p);
      MessageBytes(m, i == 0, retries, s, p);
      MessageError(m, i == 0, retries, s, p);
      if r.None? {
        assert bufs[i + 1..] == bufs[i..][1..] == Buffers(msgs, i + 1, retries, s, p1);
        BuffersExactly(msgs, i + 1, retries, s, p1, bufs);
        var p2 := Messages(msgs, i + 1, retries, s, p1).2;
        if m.read {
          SentBoth(s, p.bytes, |m.data|, p2.bytes - p1.bytes);
        }
      }
    }
  }

  lemma MessageError(m: Msg, first: bool, retries: nat, s: Slave, p: Pos)
    ensures var r := Message(m, first, retries, s, p).0; r.Some? ==> !r.value.Done?
  {
  }

  lemma SentNone(s: Slave, k: nat)
    ensures Sent(s, k, 0) == []
  {
  }

  lemma SentBoth(s: Slave, k: nat, a: nat, b: nat)
    ensures RecvData(a, s, k) + Sent(s, k + a, b) == Sent(s, k, a + b)
  {
    RecvAt(a, s, k);
  }

  // ---------------------------------------------------------------- the rule for the data line

  /** The START and STOP conditions of a trace: the moves of SDA while SCL is high. */
  function Conditions(trace: seq<Level>): seq<Frame> {
    if trace == [] then [] else
    var n := |trace| - 1;
    var before := if n == 0 then Level(true, true) else trace[n - 1];
    Conditions(trace[..n]) +
    if before.scl && trace[n].scl && before.sda != trace[n].sda then [if trace[n].sda then FStop else FStart] else []
  }

  function Marks(fs: seq<Frame>): seq<Frame> {
    if fs == [] then [] else
    Marks(fs[..|fs| - 1]) + if fs[|fs| - 1].FByte? then [] else [fs[|fs| - 1]]
  }

  lemma {:induction false} MarksBoth(a: seq<Frame>, b: seq<Frame>)
    ensures Marks(a + b) == Marks(a) + Marks(b)
  {
    if b == [] {
      assert a + b == a;
    } else {
      var n := |b| - 1;
      assert (a + b)[..|a + b| - 1] == a + b[..n];
      MarksBoth(a, b[..n]);
    }
  }

  /** SDA moves under a high clock only for the STARTs and STOPs that the receiver sees. */
  lemma {:induction false} ConditionsSeen(trace: seq<Level>)
    ensures Conditions(trace) == Marks(Receive(trace).frames)
    ensures Receive(trace).line == if trace == [] then Level(true, true) else trace[|trace| - 1]
  {
    if trace != [] {
      var n := |trace| - 1;
      ConditionsSeen(trace[..n]);
      var r := Receive(trace[..n]);
      FedMarks(r, trace[n]);
    }
  }

  lemma FedMarks(r: Receiver, l: Level)
    ensures Marks(Feed(r, l).frames) ==
            Marks(r.frames) +
            if r.line.scl && l.scl && r.line.sda != l.sda then [if l.sda then FStop else FStart] else []
  {
    hide ValueOf, Marks;
    MarksMore(r.frames, FStart);
    MarksMore(r.frames, FStop);
    MarksMore(r.frames, FByte(ValueOf(r.bits), !l.sda));
  }

  lemma MarksMore(fs: seq<Frame>, f: Frame)
    ensures Marks(fs + [f]) == Marks(fs) + if f.FByte? then [] else [f]
  {
    assert (fs + [f])[..|fs|] == fs;
  }
}
