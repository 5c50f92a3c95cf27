/** The bit-banging I2C master driving the two lines. */
module I2c {
  import opened Basics
  import opened I2cModel
  import opened I2cOutcomes

  class Bus {
    const device: Slave   // what the slave answers
    const retries: nat
    var scl: bool         // the clock line
    var sda: bool         // what the master puts on the data line
    var slave: bool       // what the slave puts on it, true when it lets go
    var pos: Pos          // how far the slave has come
    ghost var trace: seq<Level>

    /** The data line is low when either side pulls it. */
    ghost function Line(): Level
      reads this
    {
      Level(scl, sda && slave)
    }

    /** What the receiver has made of the trace. */
    ghost function Rx(): Receiver
      reads this
    {
      Receive(trace)
    }

    ghost predicate Valid()
      reads this
    {
      Rx().line == Line() && OneLine([Level(true, true)] + trace)
    }

    /** Between transfers both lines are high. */
    ghost predicate Idle()
      reads this
    {
      Valid() && scl && sda && slave && Rx().bits == []
    }

    /** Between bits the clock is low and the slave lets go of the data line. */
    ghost predicate Low()
      reads this
    {
      Valid() && !scl && slave
    }

    /** Between bytes. */
    ghost predicate Ready()
      reads this
    {
      Low() && Rx().bits == []
    }

    constructor (device: Slave, retries: nat)
      ensures Idle() && this.device == device && this.retries == retries && Rx().frames == [] && pos == Pos(0, 0)
    {
      this.device := device;
      this.retries := retries;
      scl := true;
      sda := true;
      slave := true;
      pos := Pos(0, 0);
      trace := [];
    }

    // ------------------------------------------------------------ lines

    /** Note the levels after one line was set. */
    ghost method Record()
      requires Moves(Rx().line, Line()) && OneLine([Level(true, true)] + trace)
      modifies this`trace
      ensures Valid() && Rx() == Feed(old(Rx()), Line())
    {
      hide Receive, OneLine, Feed;
      LineOf(trace);
      OneLineMore(trace, Line());
      ReceiveMore(trace, Line());
      FeedLine(Rx(), Line());
      trace := trace + [Line()];
    }

    /** SET_SDA. */
    method SetSda(v: bool)
      requires Valid()
      modifies this`sda, this`trace
      ensures Valid() && sda == v && Rx() == Feed(old(Rx()), Level(scl, v && slave))
    {
      hide Receive, OneLine;
      sda := v;
      Record();
    }

    /** SCL_L; a slave that held the data line lets go of it while the clock is low. */
    method SclLow()
      requires Valid()
      modifies this`scl, this`slave, this`trace
      ensures Low() && Rx() == old(Rx()).(line := Level(false, sda))
    {
      hide Receive, OneLine;
      scl := false;
      Record();
      slave := true;
      Record();
    }

    /** SCL_H without clock stretching; before the edge the slave puts its level on the data line. */
    method SclHigh(level: bool)
      requires Low()
      modifies this`scl, this`slave, this`trace
      ensures Valid() && scl && slave == level
      ensures Rx() == Sampled(old(Rx()).(line := Level(true, sda && level)), sda && level)
    {
      hide Receive, OneLine;
      slave := level;
      Record();
      scl := true;
      Record();
    }

    // ------------------------------------------------------------ conditions

    /** i2c_start. */
    method Start()
      requires Idle()
      modifies this`scl, this`sda, this`slave, this`trace
      ensures Ready() && Rx().frames == old(Rx().frames) + [FStart]
    {
      hide Receive, OneLine;
      SetSda(false);
      SclLow();
    }

    /** i2c_restart: the high clock before the START looks like a bit, which the START discards. */
    method Restart()
      requires Ready()
      modifies this`scl, this`sda, this`slave, this`trace
      ensures Ready() && Rx().frames == old(Rx().frames) + [FStart]
    {
      hide Receive, OneLine;
      SetSda(true);
      SclHigh(true);
      SetSda(false);
      SclLow();
    }

    /** i2c_stop. */
    method Stop()
      requires Ready()
      modifies this`scl, this`sda, this`slave, this`trace
      ensures Idle() && Rx().frames == old(Rx().frames) + [FStop]
    {
      hide Receive, OneLine;
      SetSda(false);
      SclHigh(true);
      SetSda(true);
    }

    // ------------------------------------------------------------ bytes

    /** i2c_waitack. */
    method WaitAck() returns (ack: bool)
      requires Low() && |Rx().bits| == 8
      modifies this`scl, this`sda, this`slave, this`trace, this`pos
      ensures Ready() && ack == device.ack(old(pos.acks)) && pos == old(pos).(acks := old(pos.acks) + 1)
      ensures Rx().frames == old(Rx().frames) + [FByte(ValueOf(old(Rx().bits)), ack)]
    {
      hide Receive, OneLine, ValueOf;
      SetSda(true);
      SclHigh(!device.ack(pos.acks));
      pos := pos.(acks := pos.acks + 1);
      ack := !(sda && slave);
      SclLow();
    }

    /** i2c_writeb: most significant bit first, then the acknowledge. */
    method WriteB(data: int) returns (ack: bool)
      requires Ready() && 0 <= data < 0x100
      modifies this`scl, this`sda, this`slave, this`trace, this`pos
      ensures Ready() && ack == device.ack(old(pos.acks)) && pos == old(pos).(acks := old(pos.acks) + 1)
      ensures Rx().frames == old(Rx().frames) + [FByte(data, ack)]
    {
      hide Receive, OneLine, ValueOf, BitsOf;
      ghost var bits := BitsOf(data, 8);
      var i := 7;
      while i >= 0
        invariant -1 <= i <= 7 && Valid() && slave && pos == old(pos)
        invariant Rx().bits == bits[..7 - i] && Rx().frames == old(Rx().frames)
      {
        SclLow();
        ShiftBit(data, 8, i);
        var bit := data / Pow2(i) % 2 == 1;
        SetSda(bit);
        SclHigh(true);
        i := i - 1;
      }
      SclLow();
      assert Pow2(8) == 0x100;
      BitsValue(data, 8);
      assert bits[..8] == bits;
      ack := WaitAck();
    }

    /** i2c_readb: eight bits into a byte register. */
    method ReadB() returns (data: int)
      requires Ready()
      modifies this`scl, this`sda, this`slave, this`trace, this`pos
      ensures Low() && sda && data == device.byte(old(pos.bytes)) as int && pos == old(pos).(bytes := old(pos.bytes) + 1)
      ensures Rx().bits == BitsOf(data, 8) && Rx().frames == old(Rx().frames)
    {
      hide Receive, OneLine, ValueOf, BitsOf;
      ghost var byte := device.byte(pos.bytes) as int;
      ghost var bits := BitsOf(byte, 8);
      data := 0;
      SetSda(true);
      var i := 0;
      ValueNone();
      assert bits[..0] == [];
      while i < 8
        invariant 0 <= i <= 8 && Low() && sda && pos == old(pos)
        invariant Rx().bits == bits[..i] && Rx().frames == old(Rx().frames)
        invariant data == ValueOf(bits[..i])
      {
        data := data * 2 % 0x100;
        ValueRange(bits[..i]);
        ValueMore(bits, i);
        SclHigh(BitsOf(device.byte(pos.bytes) as int, 8)[i]);
        if sda && slave {
          data := data + 1;
        }
        SclLow();
        i := i + 1;
      }
      assert bits[..8] == bits;
      assert Pow2(8) == 0x100;
      BitsValue(byte, 8);
      pos := pos.(bytes := pos.bytes + 1);
    }

    /** i2c_send_ack_or_nack: a low data line acknowledges. */
    method SendAckOrNack(ack: bool)
      requires Low() && sda && |Rx().bits| == 8
      modifies this`scl, this`sda, this`slave, this`trace
      ensures Ready() && Rx().frames == old(Rx().frames) + [FByte(ValueOf(old(Rx().bits)), ack)]
    {
      hide Receive, OneLine, ValueOf;
      if ack {
        SetSda(false);
      }
      SclHigh(true);
      SclLow();
    }

    // ------------------------------------------------------------ messages

    /** i2c_send_bytes. */
    method SendBytes(data: seq<Byte>, ignoreNack: bool) returns (n: nat)
      requires Ready()
      modifies this`scl, this`sda, this`slave, this`trace, this`pos
      ensures Ready()
      ensures var (ok, fs, p) := I2cModel.SendBytes(data, ignoreNack, device, old(pos));
              n == (if ok then |data| else 0) && Rx().frames == old(Rx().frames) + fs && pos == p
    {
      hide Receive, OneLine;
      n := 0;
      var count := |data|;
      ghost var done: seq<Frame> := [];
      assert data[0..] == data;
      BehindNone(I2cModel.SendBytes(data, ignoreNack, device, pos));
      while count > 0
        invariant 0 <= count && n + count == |data| && Ready()
        invariant Rx().frames == old(Rx().frames) + done
        invariant I2cModel.SendBytes(data, ignoreNack, device, old(pos)) ==
                  Behind(done, I2cModel.SendBytes(data[n..], ignoreNack, device, pos))
      {
        assert data[n..][1..] == data[n + 1..];
        ghost var middle := done;
        var ack := WriteB(data[n] as int);
        done := done + [FByte(data[n] as int, ack)];
        if !(ack || ignoreNack) {
          return 0;
        }
        BehindTwice(middle, [FByte(data[n] as int, ack)],
                    I2cModel.SendBytes(data[n + 1..], ignoreNack, device, pos));
        count := count - 1;
        n := n + 1;
      }
    }

    /** i2c_recv_bytes. */
    method RecvBytes(len: nat) returns (data: seq<Byte>)
      requires Ready()
      modifies this`scl, this`sda, this`slave, this`trace, this`pos
      ensures Ready() && data == RecvData(len, device, old(pos.bytes))
      ensures Rx().frames == old(Rx().frames) + RecvFrames(len, device, old(pos.bytes))
      ensures pos == old(pos).(bytes := old(pos.bytes) + len)
    {
      hide Receive, OneLine, RecvFrames, RecvData;
      data := [];
      var count := len;
      ghost var done: seq<Frame> := [];
      assert [] + RecvFrames(len, device, pos.bytes) == RecvFrames(len, device, pos.bytes);
      assert [] + RecvData(len, device, pos.bytes) == RecvData(len, device, pos.bytes);
      while count > 0
        invariant 0 <= count && |data| + count == len && Ready()
        invariant pos == old(pos).(bytes := old(pos.bytes) + |data|)
        invariant Rx().frames == old(Rx().frames) + done
        invariant RecvFrames(len, device, old(pos.bytes)) == done + RecvFrames(count, device, pos.bytes)
        invariant RecvData(len, device, old(pos.bytes)) == data + RecvData(count, device, pos.bytes)
      {
        RecvMore(done, data, count, device, pos.bytes);
        var val := ReadOne(count > 1);
        data := data + [val];
        done := done + [FByte(val as int, count > 1)];
        count := count - 1;
      }
      RecvNone(device, pos.bytes);
    }

    /** One byte and the master's answer to it. */
    method ReadOne(ack: bool) returns (val: Byte)
      requires Ready()
      modifies this`scl, this`sda, this`slave, this`trace, this`pos
      ensures Ready() && val == device.byte(old(pos.bytes)) && pos == old(pos).(bytes := old(pos.bytes) + 1)
      ensures Rx().frames == old(Rx().frames) + [FByte(val as int, ack)]
    {
      hide Receive, OneLine, BitsOf, ValueOf;
      var v := ReadB();
      assert Pow2(8) == 0x100;
      BitsValue(v, 8);
      val := v as Byte;
      SendAckOrNack(ack);
    }

    /** i2c_send_address. */
    method SendAddress(addr: int, retries: nat) returns (ack: bool)
      requires Ready() && 0 <= addr < 0x100
      modifies this`scl, this`sda, this`slave, this`trace, this`pos
      ensures Ready()
      ensures var (ok, fs, p) := I2cModel.SendAddress(addr, retries, device, old(pos));
              ack == ok && Rx().frames == old(Rx().frames) + fs && pos == p
    {
      hide Receive, OneLine;
      ack := false;
      var i := 0;
      ghost var done: seq<Frame> := [];
      BehindNone(I2cModel.SendAddress(addr, retries, device, pos));
      while i <= retries
        invariant 0 <= i <= retries && Ready()
        invariant Rx().frames == old(Rx().frames) + done
        invariant I2cModel.SendAddress(addr, retries, device, old(pos)) ==
                  Behind(done, I2cModel.SendAddress(addr, retries - i, device, pos))
        decreases retries - i
      {
        ack := WriteB(addr);
        if ack || i == retries {
          break;
        }
        Stop();
        Start();
        BehindTwice(done, [FByte(addr, false), FStop, FStart],
                    I2cModel.SendAddress(addr, retries - i - 1, device, pos));
        done := done + [FByte(addr, false), FStop, FStart];
        i := i + 1;
      }
    }

    /** i2c_bit_send_address. */
    method BitSendAddress(m: Msg) returns (ok: bool)
      requires Ready() && 0 <= m.addr < 0x1_0000
      modifies this`scl, this`sda, this`slave, this`trace, this`pos
      ensures Ready()
      ensures var (r, fs, p) := AddressPhase(m, retries, device, old(pos));
              ok == r && Rx().frames == old(Rx().frames) + fs && pos == p
    {
      hide Receive, OneLine, I2cModel.SendAddress;
      var tries := if m.ignoreNack then 0 else retries;
      if m.tenBit {
        var addr1 := 0xf0 + m.addr / 0x80 % 8 / 2 * 2;
        var addr2 := m.addr % 0x100;
        TenBitByte(m.addr);
        var ret := SendAddress(addr1, tries);
        if !ret && !m.ignoreNack {
          return false;
        }
        ret := WriteB(addr2);
        if !ret && !m.ignoreNack {
          return false;
        }
        if m.read {
          Restart();
          addr1 := addr1 + 1;
          ret := SendAddress(addr1, tries);
          if !ret && !m.ignoreNack {
            return false;
          }
        }
      } else {
        var addr1 := m.addr * 2 % 0x100;
        if m.read {
          addr1 := addr1 + 1;
        }
        var ret := SendAddress(addr1, tries);
        if !ret && !m.ignoreNack {
          return false;
        }
      }
      ok := true;
    }

    /** One turn of the loop of i2c_bit_xfer. */
    method Transfer(m: Msg, first: bool) returns (r: Option<Ret>, data: seq<Byte>)
      requires Ready() && 0 <= m.addr < 0x1_0000
      modifies this`scl, this`sda, this`slave, this`trace, this`pos
      ensures Ready()
      ensures var (r', fs, p) := Message(m, first, retries, device, old(pos));
              r == r' && Rx().frames == old(Rx().frames) + fs && pos == p
      ensures r.None? && m.read ==> data == RecvData(|m.data|, device, old(AfterAddress(m, retries, device, pos)))
    {
      hide Receive, OneLine, AddressPhase, I2cModel.SendBytes, RecvFrames, RecvData;
      data := m.data;
      ghost var f0, restart := Rx().frames, if !m.noStart && !first then [FStart] else [];
      ghost var fs := if m.noStart then [] else AddressPhase(m, retries, device, pos).1;
      if !m.noStart {
        if !first {
          Restart();
        }
        var ok := BitSendAddress(m);
        assert Rx().frames == f0 + (restart + fs);
        if !ok {
          return Some(Eio), data;
        }
      }
      assert Rx().frames == f0 + (restart + fs);
      if m.read {
        data := RecvBytes(|m.data|);
        if |data| < |m.data| {
          return Some(Eio), data;
        }
      } else {
        SendEmpty(m.data, m.ignoreNack, device, pos);
        var n := SendBytes(m.data, m.ignoreNack);
        if n < |m.data| {
          return Some(Nacked), data;
        }
      }
      r := None;
    }

    /** i2c_bit_xfer: on an idle bus, a transfer puts exactly the frames of the specification on the
        lines as the receiver sees them, moves SDA under a high clock for their STARTs and STOPs only,
        fills the buffers of the read messages, and leaves the bus idle after a STOP. */
    method Xfer(msgs: seq<Msg>) returns (ret: Ret, bufs: seq<seq<Byte>>)
      requires Idle() && forall i :: 0 <= i < |msgs| ==> 0 <= msgs[i].addr < 0x1_0000
      modifies this`scl, this`sda, this`slave, this`trace, this`pos
      ensures Idle()
      ensures var (r, fs, p) := I2cModel.Xfer(msgs, retries, device, old(pos));
              ret == r && Rx().frames == old(Rx().frames) + fs && pos == p &&
              Conditions(trace) == old(Conditions(trace)) + Marks(fs)
      ensures bufs == Buffers(msgs, 0, retries, device, old(pos))
    {
      hide Receive, OneLine, Messages, Conditions, Marks, Buffers;
      ghost var f0, p0, t0 := Rx().frames, pos, trace;
      ConditionsSeen(t0);
      Start();
      ret, bufs := MessageLoop(msgs);
      ghost var fs := Messages(msgs, 0, retries, device, p0).1;
      Stop();
      assert f0 + [FStart] + fs + [FStop] == f0 + ([FStart] + fs + [FStop]);
      ConditionsSeen(trace);
      MarksBoth(f0, [FStart] + fs + [FStop]);
    }

    /** The loop of i2c_bit_xfer. */
    method MessageLoop(msgs: seq<Msg>) returns (ret: Ret, bufs: seq<seq<Byte>>)
      requires Ready() && forall i :: 0 <= i < |msgs| ==> 0 <= msgs[i].addr < 0x1_0000
      modifies this`scl, this`sda, this`slave, this`trace, this`pos
      ensures Ready()
      ensures var (r, fs, p) := Messages(msgs, 0, retries, device, old(pos));
              ret == r && Rx().frames == old(Rx().frames) + fs && pos == p
      ensures bufs == Buffers(msgs, 0, retries, device, old(pos))
    {
      hide Receive, OneLine, Message, Buffers, Filled;
      var i := 0;
      ghost var done: seq<Frame> := [];
      ghost var whole, p0, f0 := Messages(msgs, 0, retries, device, pos), pos, Rx().frames;
      ret := Done(|msgs|);
      bufs := Unchanged(msgs, 0);
      BehindNone(whole);
      BuffersStart(msgs, bufs, retries, device, pos);
      while i < |msgs|
        invariant 0 <= i <= |msgs| && Ready()
        invariant Rx().frames == f0 + done
        invariant whole == Behind(done, Messages(msgs, i, retries, device, pos))
        invariant ret == Done(|msgs|)
        invariant |bufs| == |msgs| && Filled(msgs, bufs, i, retries, device, p0, pos)
      {
        ghost var p := pos;
        ghost var (_, fs, _) := Message(msgs[i], i == 0, retries, device, p);
        var r, data := Transfer(msgs[i], i == 0);
        if r.Some? {
          BuffersFail(msgs, bufs, i, retries, device, p0, p);
          return r.value, bufs;
        }
        BuffersStep(msgs, bufs, i, retries, device, p0, p);
        if msgs[i].read {
          bufs := bufs[i := data];
        }
        BehindTwice(done, fs, Messages(msgs, i + 1, retries, device, pos));
        done := done + fs;
        i := i + 1;
      }
      BuffersEnd(msgs, bufs, retries, device, p0, pos);
    }
  }

  /** The buffers when the messages before i were gone through from p0 to p. */
  ghost predicate Filled(msgs: seq<Msg>, bufs: seq<seq<Byte>>, i: nat, retries: nat, s: Slave, p0: Pos, p: Pos) {
    i <= |msgs| == |bufs| && bufs[i..] == Unchanged(msgs, i) &&
    bufs[..i] + Buffers(msgs, i, retries, s, p) == Buffers(msgs, 0, retries, s, p0)
  }

  lemma BuffersStart(msgs: seq<Msg>, bufs: seq<seq<Byte>>, retries: nat, s: Slave, p: Pos)
    requires bufs == Unchanged(msgs, 0)
    ensures Filled(msgs, bufs, 0, retries, s, p, p)
  {
    hide Buffers, Unchanged;
    assert bufs[0..] == bufs;
    assert bufs[..0] + Buffers(msgs, 0, retries, s, p) == Buffers(msgs, 0, retries, s, p);
  }

  /** A message that fails leaves the buffers as they are. */
  lemma BuffersFail(msgs: seq<Msg>, bufs: seq<seq<Byte>>, i: nat, retries: nat, s: Slave, p0: Pos, p: Pos)
    requires i < |msgs| && Filled(msgs, bufs, i, retries, s, p0, p)
    requires Message(msgs[i], i == 0, retries, s, p).0.Some?
    ensures bufs == Buffers(msgs, 0, retries, s, p0)
  {
    hide Message, RecvData, AfterAddress, Unchanged;
    assert Buffers(msgs, i, retries, s, p) == Unchanged(msgs, i);
    assert bufs == bufs[..i] + bufs[i..];
  }

  /** One that is gone through gets its own buffer filled. */
  lemma BuffersStep(msgs: seq<Msg>, bufs: seq<seq<Byte>>, i: nat, retries: nat, s: Slave, p0: Pos, p: Pos)
    requires i < |msgs| == |bufs| && Filled(msgs, bufs, i, retries, s, p0, p)
    requires Message(msgs[i], i == 0, retries, s, p).0.None?
    ensures var m := msgs[i];
            var p1 := Message(m, i == 0, retries, s, p).2;
            if m.read then
              Filled(msgs, bufs[i := RecvData(|m.data|, s, AfterAddress(m, retries, s, p))], i + 1, retries, s, p0, p1)
            else Filled(msgs, bufs, i + 1, retries, s, p0, p1)
  {
    hide Message, RecvData, AfterAddress, Buffers;
    var m := msgs[i];
    var p1 := Message(m, i == 0, retries, s, p).2;
    var b := if m.read then RecvData(|m.data|, s, AfterAddress(m, retries, s, p)) else m.data;
    var later := Buffers(msgs, i + 1, retries, s, p1);
    BuffersFront(msgs, i, retries, s, p);
    var bufs1 := bufs[i := b];
    assert bufs[i] == bufs[i..][0] == m.data;
    assert bufs1[i + 1..] == bufs[i..][1..] == Unchanged(msgs, i + 1);
    assert bufs[..i] + ([b] + later) == bufs1[..i + 1] + later;
    assert !m.read ==> bufs1 == bufs;
  }

  lemma BuffersFront(msgs: seq<Msg>, i: nat, retries: nat, s: Slave, p: Pos)
    requires i < |msgs| && Message(msgs[i], i == 0, retries, s, p).0.None?
    ensures var m := msgs[i];
            var b := if m.read then RecvData(|m.data|, s, AfterAddress(m, retries, s, p)) else m.data;
            Buffers(msgs, i, retries, s, p) ==
            [b] + Buffers(msgs, i + 1, retries, s, Message(m, i == 0, retries, s, p).2)
  {
    hide Message, RecvData, AfterAddress;
  }

  lemma BuffersEnd(msgs: seq<Msg>, bufs: seq<seq<Byte>>, retries: nat, s: Slave, p0: Pos, p: Pos)
    requires Filled(msgs, bufs, |msgs|, retries, s, p0, p)
    ensures bufs == Buffers(msgs, 0, retries, s, p0)
  {
    assert bufs[..|msgs|] + [] == bufs;
  }

  /** Frames put before those of a continuation. */
  function Behind<T>(done: seq<Frame>, r: (T, seq<Frame>, Pos)): (T, seq<Frame>, Pos) {
    (r.0, done + r.1, r.2)
  }

  lemma BehindTwice<T>(a: seq<Frame>, b: seq<Frame>, r: (T, seq<Frame>, Pos))
    ensures Behind(a, (r.0, b + r.1, r.2)) == Behind(a + b, r)
  {
    assert a + (b + r.1) == a + b + r.1;
  }

  lemma BehindNone<T>(r: (T, seq<Frame>, Pos))
    ensures Behind([], r) == r
  {
    assert [] + r.1 == r.1;
  }

  lemma OneLineMore(trace: seq<Level>, l: Level)
    requires OneLine([Level(true, true)] + trace) && Moves(([Level(true, true)] + trace)[|trace|], l)
    ensures OneLine([Level(true, true)] + (trace + [l]))
  {
    var t := [Level(true, true)] + trace;
    var longer := [Level(true, true)] + (trace + [l]);
    assert longer == t + [l];
    forall i | 0 < i < |longer|
      ensures Moves(longer[i - 1], longer[i])
    {
      if i < |t| {
        assert Moves(t[i - 1], t[i]);
      }
    }
  }

  lemma ReceiveMore(trace: seq<Level>, l: Level)
    ensures Receive(trace + [l]) == Feed(Receive(trace), l)
  {
    assert (trace + [l])[..|trace|] == trace;
  }

  lemma FeedLine(r: Receiver, l: Level)
    ensures Feed(r, l).line == l
  {
  }

  lemma {:induction false} LineOf(trace: seq<Level>)
    ensures Receive(trace).line == ([Level(true, true)] + trace)[|trace|]
  {
  }

  lemma ValueNone()
    ensures ValueOf([]) == 0
  {
  }

  lemma ValueRange(bits: seq<bool>)
    ensures 0 <= ValueOf(bits) && (|bits| <= 7 ==> ValueOf(bits) < 0x80)
  {
    ValueBound(bits, |bits|);
    assert Pow2(7) == 0x80;
    if |bits| <= 7 {
      PowMonotone(|bits|, 7);
    }
  }

  lemma {:induction false} ValueBound(bits: seq<bool>, n: nat)
    requires n == |bits|
    ensures 0 <= ValueOf(bits) < Pow2(n)
  {
    if n > 0 {
      ValueBound(bits[..n - 1], n - 1);
    }
  }

  lemma {:induction false} PowMonotone(a: nat, b: nat)
    requires a <= b
    ensures 0 < Pow2(a) <= Pow2(b)
    decreases b
  {
    if a < b {
      PowMonotone(a, b - 1);
    } else if a > 0 {
      PowMonotone(a - 1, a - 1);
    }
  }

  lemma ValueMore(bits: seq<bool>, i: nat)
    requires i < |bits|
    ensures ValueOf(bits[..i + 1]) == 2 * ValueOf(bits[..i]) + if bits[i] then 1 else 0
  {
    assert bits[..i + 1][..i] == bits[..i];
  }

  lemma TenBitByte(addr: int)
    requires 0 <= addr < 0x1_0000
    ensures 0xf0 + addr / 0x80 % 8 / 2 * 2 == High(addr) <= 0xf6
  {
    var q, b := addr / 0x100, addr / 0x80 % 2;
    assert addr / 0x80 == 2 * q + b;
    EightAndTwo(q, b);
  }

  lemma EightAndTwo(q: int, b: int)
    requires 0 <= q && 0 <= b < 2
    ensures (2 * q + b) % 8 / 2 == q % 4
  {
    assert (2 * q + b) % 8 == 2 * (q % 4) + b;
  }

  lemma RecvMore(done: seq<Frame>, data: seq<Byte>, n: nat, s: Slave, k: nat)
    requires n > 0
    ensures done + RecvFrames(n, s, k) == done + [FByte(s.byte(k) as int, n > 1)] + RecvFrames(n - 1, s, k + 1)
    ensures data + RecvData(n, s, k) == data + [s.byte(k)] + RecvData(n - 1, s, k + 1)
  {
  }

  lemma RecvNone(s: Slave, k: nat)
    ensures RecvFrames(0, s, k) == [] && RecvData(0, s, k) == []
  {
  }

  /** Sending nothing succeeds. */
  lemma SendEmpty(data: seq<Byte>, ignoreNack: bool, s: Slave, p: Pos)
    ensures data == [] ==> I2cModel.SendBytes(data, ignoreNack, s, p).0
  {
  }
}
