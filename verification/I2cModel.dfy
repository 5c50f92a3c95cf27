/** The I2C bus as a receiver sees it, and what a transfer of the bit-banging master puts on it. */
module I2cModel {
  import opened Basics

  // ---------------------------------------------------------------- the receiver

  /** The levels of the two lines, true for high. */
  datatype Level = Level(scl: bool, sda: bool)

  /** START or repeated START, a byte with its acknowledge bit, STOP. */
  datatype Frame = FStart | FByte(value: int, ack: bool) | FStop

  /** A receiver by UM10204: a falling SDA while SCL is high is a START, a rising one a STOP
      (section 3.1.4), a bit is valid when SCL goes high (section 3.1.3), and nine bits are a byte,
      most significant bit first, with its acknowledge (sections 3.1.5 and 3.1.6). START and STOP
      drop an unfinished byte. */
  datatype Receiver = Receiver(line: Level, bits: seq<bool>, frames: seq<Frame>)

  function Feed(r: Receiver, l: Level): Receiver {
    if r.line.scl && l.scl && r.line.sda && !l.sda then Receiver(l, [], r.frames + [FStart])
    else if r.line.scl && l.scl && !r.line.sda && l.sda then Receiver(l, [], r.frames + [FStop])
    else if !r.line.scl && l.scl then Sampled(r.(line := l), l.sda)
    else r.(line := l)
  }

  function Sampled(r: Receiver, b: bool): Receiver {
    if |r.bits| < 8 then r.(bits := r.bits + [b])
    else r.(bits := [], frames := r.frames + [FByte(ValueOf(r.bits), !b)])
  }

  /** The receiver after a trace, from an idle bus with both lines high. */
  function Receive(trace: seq<Level>): Receiver {
    if trace == [] then Receiver(Level(true, true), [], [])
    else Feed(Receive(trace[..|trace| - 1]), trace[|trace| - 1])
  }

  /** Between two entries of a trace at most one line moves. */
  ghost predicate OneLine(trace: seq<Level>) {
    forall i :: 0 < i < |trace| ==> Moves(trace[i - 1], trace[i])
  }

  predicate Moves(a: Level, b: Level) {
    a.scl == b.scl || a.sda == b.sda
  }

  // ---------------------------------------------------------------- bits

  function ValueOf(bits: seq<bool>): int {
    if bits == [] then 0 else 2 * ValueOf(bits[..|bits| - 1]) + if bits[|bits| - 1] then 1 else 0
  }

  /** The n low bits of v, most significant first. */
  function BitsOf(v: int, n: nat): (bits: seq<bool>)
    ensures |bits| == n
    decreases n
  {
    if n == 0 then [] else BitsOf(v / 2, n - 1) + [v % 2 == 1]
  }

  function Pow2(n: nat): int {
    if n == 0 then 1 else 2 * Pow2(n - 1)
  }

  /** What is shifted out most significant bit first is what the receiver collects. */
  lemma {:induction false} BitsValue(v: int, n: nat)
    requires 0 <= v < Pow2(n)
    ensures ValueOf(BitsOf(v, n)) == v
  {
    if n > 0 {
      BitsValue(v / 2, n - 1);
      var bits := BitsOf(v, n);
      assert bits[..n - 1] == BitsOf(v / 2, n - 1);
    }
  }

  /** The shift `(v >> i) & 1` selects that bit. */
  lemma {:induction false} ShiftBit(v: int, n: nat, i: nat)
    requires 0 <= v && i < n
    ensures Pow2(i) > 0 && (v / Pow2(i) % 2 == 1 <==> BitsOf(v, n)[n - 1 - i])
  {
    if i > 0 {
      ShiftBit(v / 2, n - 1, i - 1);
      HalfShift(v, Pow2(i - 1));
    }
  }

  lemma HalfShift(v: int, p: int)
    requires 0 <= v && 0 < p
    ensures v / (2 * p) == (v / 2) / p
  {
    var q, r := v / 2 / p, v / 2 % p;
    var s := 2 * r + v % 2;
    assert v == 2 * (v / 2) + v % 2;
    assert v / 2 == p * q + r;
    assert v == (2 * p) * q + s;
    Quotient(v, 2 * p, q, s);
  }

  // ---------------------------------------------------------------- transfers

  /** A message without RT_I2C_NO_READ_ACK. A write sends `data`; a read asks for |data| bytes. */
  datatype Msg = Msg(addr: int, read: bool, tenBit: bool, noStart: bool, ignoreNack: bool, data: seq<Byte>)

  /** What the slave answers: to its k-th acknowledge slot, and as its k-th byte. */
  datatype Slave = Slave(ack: nat -> bool, byte: nat -> Byte)

  /** How far the slave has come. */
  datatype Pos = Pos(acks: nat, bytes: nat)

  datatype Ret = Done(n: nat) | Eio | Nacked

  /** i2c_send_address: up to retries + 1 attempts, with STOP and START between them. */
  function SendAddress(addr: int, retries: nat, s: Slave, p: Pos): (bool, seq<Frame>, Pos)
    decreases retries
  {
    var p1 := p.(acks := p.acks + 1);
    if s.ack(p.acks) || retries == 0 then (s.ack(p.acks), [FByte(addr, s.ack(p.acks))], p1) else
    var (ok, fs, p2) := SendAddress(addr, retries - 1, s, p1);
    (ok, [FByte(addr, false), FStop, FStart] + fs, p2)
  }

  /** First address byte of a 10-bit address, and the second. */
  function High(addr: int): int {
    0xf0 + 2 * (addr / 0x100 % 4)
  }

  function Low(addr: int): int {
    addr % 0x100
  }

  /** The byte of a 7-bit address. */
  function Short(addr: int, read: bool): int {
    2 * addr % 0x100 + if read then 1 else 0
  }

  /** i2c_bit_send_address. */
  function AddressPhase(m: Msg, retries: nat, s: Slave, p: Pos): (bool, seq<Frame>, Pos) {
    var retries' := if m.ignoreNack then 0 else retries;
    if !m.tenBit then
      var (ok, fs, p1) := SendAddress(Short(m.addr, m.read), retries', s, p);
      (ok || m.ignoreNack, fs, p1)
    else
      var (ok1, fs1, p1) := SendAddress(High(m.addr), retries', s, p);
      if !ok1 && !m.ignoreNack then (false, fs1, p1) else
      var ok2 := s.ack(p1.acks);
      var fs2 := fs1 + [FByte(Low(m.addr), ok2)];
      var p2 := p1.(acks := p1.acks + 1);
      if !ok2 && !m.ignoreNack then (false, fs2, p2) else
      if !m.read then (true, fs2, p2) else
      var (ok3, fs3, p3) := SendAddress(High(m.addr) + 1, retries', s, p2);
      (ok3 || m.ignoreNack, fs2 + [FStart] + fs3, p3)
  }

  /** i2c_send_bytes: stops at a byte that is not acknowledged. */
  function SendBytes(data: seq<Byte>, ignoreNack: bool, s: Slave, p: Pos): (bool, seq<Frame>, Pos) {
    if data == [] then (true, [], p) else
    var ack := s.ack(p.acks);
    var p1 := p.(acks := p.acks + 1);
    if !ack && !ignoreNack then (false, [FByte(data[0] as int, false)], p1) else
    var (ok, fs, p2) := SendBytes(data[1..], ignoreNack, s, p1);
    (ok, [FByte(data[0] as int, ack)] + fs, p2)
  }

  /** i2c_recv_bytes: the master acknowledges every byte but the last. */
  function RecvFrames(n: nat, s: Slave, k: nat): seq<Frame> {
    if n == 0 then [] else [FByte(s.byte(k) as int, n > 1)] + RecvFrames(n - 1, s, k + 1)
  }

  function RecvData(n: nat, s: Slave, k: nat): (data: seq<Byte>)
    ensures |data| == n
  {
    if n == 0 then [] else [s.byte(k)] + RecvData(n - 1, s, k + 1)
  }

  /** Where the slave is when the data of a message start. */
  function AfterAddress(m: Msg, retries: nat, s: Slave, p: Pos): nat {
    (if m.noStart then p else AddressPhase(m, retries, s, p).2).bytes
  }

  /** One message; `first` tells the first of the transfer, whose START has been sent. */
  function Message(m: Msg, first: bool, retries: nat, s: Slave, p: Pos): (Option<Ret>, seq<Frame>, Pos) {
    var restart := if !m.noStart && !first then [FStart] else [];
    var (ok, fs, p1) := if m.noStart then (true, [], p) else AddressPhase(m, retries, s, p);
    if !ok then (Some(Eio), restart + fs, p1)
    else if m.read then
      (None, restart + fs + RecvFrames(|m.data|, s, p1.bytes), p1.(bytes := p1.bytes + |m.data|))
    else
      var (ok2, fs2, p2) := SendBytes(m.data, m.ignoreNack, s, p1);
      (if ok2 then None else Some(Nacked), restart + fs + fs2, p2)
  }

  /** The loop of i2c_bit_xfer over the messages from i on. */
  function Messages(msgs: seq<Msg>, i: nat, retries: nat, s: Slave, p: Pos): (Ret, seq<Frame>, Pos)
    requires i <= |msgs|
    decreases |msgs| - i
  {
    if i == |msgs| then (Done(i), [], p) else
    var (r, fs, p1) := Message(msgs[i], i == 0, retries, s, p);
    if r.Some? then (r.value, fs, p1) else
    var (r', fs', p2) := Messages(msgs, i + 1, retries, s, p1);
    (r', fs + fs', p2)
  }

  /** i2c_bit_xfer. */
  function Xfer(msgs: seq<Msg>, retries: nat, s: Slave, p: Pos): (Ret, seq<Frame>, Pos) {
    var (r, fs, p1) := Messages(msgs, 0, retries, s, p);
    (r, [FStart] + fs + [FStop], p1)
  }

  // ---------------------------------------------------------------- transfers that are acknowledged

  function AddressFrames(m: Msg): seq<Frame> {
    if !m.tenBit then [FByte(Short(m.addr, m.read), true)]
    else [FByte(High(m.addr), true), FByte(Low(m.addr), true)] +
         if m.read then [FStart, FByte(High(m.addr) + 1, true)] else []
  }

  function WrittenFrames(data: seq<Byte>): seq<Frame> {
    seq(|data|, j requires 0 <= j < |data| => FByte(data[j] as int, true))
  }

  /** Bytes read from the slave's k-th byte on, all acknowledged but the last. */
  function ReadFrames(n: nat, s: Slave, k: nat): seq<Frame> {
    seq(n, j requires 0 <= j => FByte(s.byte(k + j) as int, j < n - 1))
  }

  /** The frames of the messages from i on, with repeated STARTs between them. */
  function Expected(msgs: seq<Msg>, i: nat, s: Slave, k: nat): seq<Frame>
    requires i <= |msgs|
    decreases |msgs| - i
  {
    if i == |msgs| then [] else
    var m := msgs[i];
    (if m.noStart then [] else (if i > 0 then [FStart] else []) + AddressFrames(m)) +
    (if m.read then ReadFrames(|m.data|, s, k) else WrittenFrames(m.data)) +
    Expected(msgs, i + 1, s, if m.read then k + |m.data| else k)
  }

  lemma {:induction false} RecvAt(n: nat, s: Slave, k: nat)
    ensures RecvFrames(n, s, k) == ReadFrames(n, s, k)
    ensures forall j :: 0 <= j < n ==> RecvData(n, s, k)[j] == s.byte(k + j)
  {
    if n > 0 {
      RecvAt(n - 1, s, k + 1);
      assert ReadFrames(n, s, k) == [FByte(s.byte(k) as int, n > 1)] + ReadFrames(n - 1, s, k + 1);
    }
  }

  ghost predicate AlwaysAcks(s: Slave) {
    forall k: nat :: s.ack(k)
  }

  lemma {:induction false} SendAcked(data: seq<Byte>, ignoreNack: bool, s: Slave, p: Pos)
    requires AlwaysAcks(s)
    ensures SendBytes(data, ignoreNack, s, p) == (true, WrittenFrames(data), p.(acks := p.acks + |data|))
  {
    if data != [] {
      SendAcked(data[1..], ignoreNack, s, p.(acks := p.acks + 1));
      assert WrittenFrames(data) == [FByte(data[0] as int, true)] + WrittenFrames(data[1..]);
    }
  }

  lemma AddressAcked(m: Msg, retries: nat, s: Slave, p: Pos)
    requires AlwaysAcks(s)
    ensures AddressPhase(m, retries, s, p).0 && AddressPhase(m, retries, s, p).1 == AddressFrames(m)
    ensures AddressPhase(m, retries, s, p).2.bytes == p.bytes
  {
  }

  lemma {:induction false} MessagesAcked(msgs: seq<Msg>, i: nat, retries: nat, s: Slave, p: Pos)
    requires i <= |msgs| && AlwaysAcks(s)
    ensures Messages(msgs, i, retries, s, p).0 == Done(|msgs|)
    ensures Messages(msgs, i, retries, s, p).1 == Expected(msgs, i, s, p.bytes)
    decreases |msgs| - i
  {
    hide AddressPhase, SendBytes, RecvFrames, AddressFrames;
    if i < |msgs| {
      var m := msgs[i];
      AddressAcked(m, retries, s, p);
      var p1 := if m.noStart then p else AddressPhase(m, retries, s, p).2;
      RecvAt(|m.data|, s, p.bytes);
      SendAcked(m.data, m.ignoreNack, s, p1);
      var (_, fs, p2) := Message(m, i == 0, retries, s, p);
      MessagesAcked(msgs, i + 1, retries, s, p2);
    }
  }

  /** With a slave that acknowledges, a transfer is exactly: START, the addresses and data bytes of
      all messages in order with repeated STARTs between them, and STOP. */
  lemma XferAcked(msgs: seq<Msg>, retries: nat, s: Slave, p: Pos)
    requires AlwaysAcks(s)
    ensures Xfer(msgs, retries, s, p).0 == Done(|msgs|)
    ensures Xfer(msgs, retries, s, p).1 == [FStart] + Expected(msgs, 0, s, p.bytes) + [FStop]
  {
    MessagesAcked(msgs, 0, retries, s, p);
  }

  // ---------------------------------------------------------------- any slave

  /** The k-th acknowledge from `from` on. */
  predicate Acks(s: Slave, from: nat, k: nat) {
    s.ack(from + k)
  }

  /** The address is accepted if and only if one of the attempts is acknowledged. */
  lemma {:induction false} AddressExactly(addr: int, retries: nat, s: Slave, p: Pos)
    ensures SendAddress(addr, retries, s, p).0 <==> exists k: nat :: k <= retries && Acks(s, p.acks, k)
    decreases retries
  {
    if s.ack(p.acks) {
      assert Acks(s, p.acks, 0);
    } else if retries > 0 {
      var next := p.acks + 1;
      AddressExactly(addr, retries - 1, s, p.(acks := next));
      if k: nat :| k <= retries - 1 && Acks(s, next, k) {
        assert Acks(s, p.acks, k + 1);
      }
      if k: nat :| k <= retries && Acks(s, p.acks, k) {
        assert Acks(s, next, k - 1);
      }
    }
  }

  /** The bytes are sent if and only if all of them are acknowledged or the flag says to go on. */
  lemma {:induction false} BytesExactly(data: seq<Byte>, ignoreNack: bool, s: Slave, p: Pos)
    ensures SendBytes(data, ignoreNack, s, p).0 <==>
            ignoreNack || AllAcks(s, p.acks, |data|)
  {
    if data != [] {
      BytesExactly(data[1..], ignoreNack, s, p.(acks := p.acks + 1));
      AcksShift(s, p.acks, |data|);
    }
  }

  /** The n acknowledges from `from` on all come. */
  ghost predicate AllAcks(s: Slave, from: nat, n: nat) {
    forall k: nat :: k < n ==> Acks(s, from, k)
  }

  lemma AcksShift(s: Slave, from: nat, n: nat)
    requires n > 0
    ensures AllAcks(s, from, n) <==> s.ack(from) && AllAcks(s, from + 1, n - 1)
  {
    var next := from + 1;
    if AllAcks(s, from, n) {
      assert Acks(s, from, 0);
      forall k: nat | k < n - 1
        ensures Acks(s, next, k)
      {
        assert Acks(s, from, k + 1);
      }
    }
    if s.ack(from) && AllAcks(s, from + 1, n - 1) {
      forall k: nat | k < n
        ensures Acks(s, from, k)
      {
        if k > 0 {
          assert Acks(s, next, k - 1);
        }
      }
    }
  }

  /** After a STOP only a START can come. */
  ghost predicate Bracketed(fs: seq<Frame>) {
    forall i :: 0 <= i < |fs| - 1 ==> Follows(fs[i], fs[i + 1])
  }

  predicate Follows(a: Frame, b: Frame) {
    a.FStop? ==> b.FStart?
  }

  /** No STOP at the end, so that anything may follow. */
  ghost predicate Inner(fs: seq<Frame>) {
    Bracketed(fs) && (fs != [] ==> !fs[|fs| - 1].FStop?)
  }

  lemma InnerAppend(a: seq<Frame>, b: seq<Frame>)
    requires Inner(a) && Inner(b)
    ensures Inner(a + b)
  {
    var c := a + b;
    forall i | 0 <= i < |c| - 1
      ensures Follows(c[i], c[i + 1])
    {
      if i + 1 < |a| {
        assert Follows(a[i], a[i + 1]);
      } else if i >= |a| {
        assert Follows(b[i - |a|], b[i - |a| + 1]);
      }
    }
  }

  lemma {:induction false} AddressInner(addr: int, retries: nat, s: Slave, p: Pos)
    ensures Inner(SendAddress(addr, retries, s, p).1)
    decreases retries
  {
    if !s.ack(p.acks) && retries > 0 {
      AddressInner(addr, retries - 1, s, p.(acks := p.acks + 1));
      InnerAppend([FByte(addr, false), FStop, FStart], SendAddress(addr, retries - 1, s, p.(acks := p.acks + 1)).1);
    }
  }

  lemma PhaseInner(m: Msg, retries: nat, s: Slave, p: Pos)
    ensures Inner(AddressPhase(m, retries, s, p).1)
  {
    hide Inner, SendAddress;
    var retries' := if m.ignoreNack then 0 else retries;
    if !m.tenBit {
      AddressInner(Short(m.addr, m.read), retries', s, p);
    } else {
      AddressInner(High(m.addr), retries', s, p);
      var (ok1, fs1, p1) := SendAddress(High(m.addr), retries', s, p);
      var low := [FByte(Low(m.addr), s.ack(p1.acks))];
      InnerOne(low[0]);
      InnerAppend(fs1, low);
      var p2 := p1.(acks := p1.acks + 1);
      AddressInner(High(m.addr) + 1, retries', s, p2);
      InnerOne(FStart);
      InnerAppend(fs1 + low, [FStart]);
      InnerAppend(fs1 + low + [FStart], SendAddress(High(m.addr) + 1, retries', s, p2).1);
    }
  }

  lemma InnerOne(f: Frame)
    requires !f.FStop?
    ensures Inner([f]) && Inner([])
  {
  }

  lemma {:induction false} SendInner(data: seq<Byte>, ignoreNack: bool, s: Slave, p: Pos)
    ensures Inner(SendBytes(data, ignoreNack, s, p).1)
  {
    hide Inner;
    if data == [] {
      InnerOne(FStart);
    } else {
      InnerOne(FByte(data[0] as int, s.ack(p.acks)));
      SendInner(data[1..], ignoreNack, s, p.(acks := p.acks + 1));
      InnerAppend([FByte(data[0] as int, s.ack(p.acks))], SendBytes(data[1..], ignoreNack, s, p.(acks := p.acks + 1)).1);
    }
  }

  lemma RecvInner(n: nat, s: Slave, k: nat)
    ensures Inner(RecvFrames(n, s, k))
  {
    RecvAt(n, s, k);
  }

  lemma MessageInner(m: Msg, first: bool, retries: nat, s: Slave, p: Pos)
    ensures Inner(Message(m, first, retries, s, p).1)
  {
    hide Inner, AddressPhase, SendBytes, RecvFrames;
    var restart := if !m.noStart && !first then [FStart] else [];
    InnerOne(FStart);
    PhaseInner(m, retries, s, p);
    var (ok, fs, p1) := if m.noStart then (true, [], p) else AddressPhase(m, retries, s, p);
    InnerAppend(restart, fs);
    RecvInner(|m.data|, s, p1.bytes);
    SendInner(m.data, m.ignoreNack, s, p1);
    InnerAppend(restart + fs, RecvFrames(|m.data|, s, p1.bytes));
    InnerAppend(restart + fs, SendBytes(m.data, m.ignoreNack, s, p1).1);
  }

  lemma {:induction false} MessagesInner(msgs: seq<Msg>, i: nat, retries: nat, s: Slave, p: Pos)
    requires i <= |msgs|
    ensures Inner(Messages(msgs, i, retries, s, p).1)
    decreases |msgs| - i
  {
    hide Inner, Message;
    InnerOne(FStart);
    if i < |msgs| {
      MessageInner(msgs[i], i == 0, retries, s, p);
      var (r, fs, p1) := Message(msgs[i], i == 0, retries, s, p);
      MessagesInner(msgs, i + 1, retries, s, p1);
      InnerAppend(fs, Messages(msgs, i + 1, retries, s, p1).1);
    }
  }

  /** Whatever the slave answers, a transfer begins with START, every STOP on the way is followed by
      a START, and the last thing on the bus is a STOP. */
  lemma XferBrackets(msgs: seq<Msg>, retries: nat, s: Slave, p: Pos)
    ensures var fs := Xfer(msgs, retries, s, p).1;
            |fs| >= 2 && fs[0] == FStart && fs[|fs| - 1] == FStop && Bracketed(fs)
  {
    hide Messages;
    var fs := Messages(msgs, 0, retries, s, p).1;
    MessagesInner(msgs, 0, retries, s, p);
    InnerOne(FStart);
    InnerAppend([FStart], fs);
    var all := [FStart] + fs + [FStop];
    forall i | 0 <= i < |all| - 1
      ensures Follows(all[i], all[i + 1])
    {
      assert i < |[FStart] + fs| - 1 ==> Follows(([FStart] + fs)[i], ([FStart] + fs)[i + 1]);
    }
  }

  // ---------------------------------------------------------------- address bytes

  /** The address byte names address and direction if and only if the address has seven bits. */
  lemma ShortExactly(addr: int, read: bool)
    requires 0 <= addr < 0x1_0000
    ensures 0 <= Short(addr, read) < 0x100
    ensures (Short(addr, read) / 2 == addr && (Short(addr, read) % 2 == 1 <==> read)) <==> addr < 0x80
  {
  }

  /** The two bytes of a 10-bit address carry the prefix 11110, the address, and the write bit
      (section 3.1.11 of UM10204). */
  lemma TenBitExactly(addr: int)
    requires 0 <= addr < 0x1_0000
    ensures High(addr) / 8 == 0x1e && High(addr) % 2 == 0 && 0 <= Low(addr) < 0x100
    ensures High(addr) / 2 % 4 * 0x100 + Low(addr) == addr <==> addr < 0x400
  {
  }
}
