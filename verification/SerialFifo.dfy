/** The receive FIFO of a serial device, in interrupt mode and in DMA mode. */
module SerialFifo {
  import opened Basics

  /** The k-th place from `start` on, going round at n. */
  function Place(n: int, start: int, k: int): int {
    if start + k < n then start + k else start + k - n
  }

  /** `count` bytes from `start` on, going round at the end of the buffer. */
  function Window(buf: seq<Byte>, start: int, count: int): (s: seq<Byte>)
    requires 0 <= start < |buf| && 0 <= count <= |buf|
    ensures |s| == count
  {
    seq(count, k requires 0 <= k < count => buf[Place(|buf|, start, k)])
  }

  /** What DMA leaves in the buffer: data from `put` on, going round, all else untouched. */
  ghost predicate Streamed(before: seq<Byte>, after: seq<Byte>, put: int, data: seq<Byte>) {
    |after| == |before| && |data| <= |before| && 0 <= put < |before| &&
    (forall k :: 0 <= k < |data| ==> after[Place(|before|, put, k)] == data[k]) &&
    forall k :: |data| <= k < |before| ==> Unchanged(before, after, Place(|before|, put, k))
  }

  predicate Unchanged(before: seq<Byte>, after: seq<Byte>, i: int)
  {
    0 <= i < |before| && i < |after| && after[i] == before[i]
  }

  /** Streaming behind a window extends it while there is room. */
  lemma StreamFits(buf: seq<Byte>, buf': seq<Byte>, start: int, count: int, data: seq<Byte>)
    requires 0 <= start < |buf| && 0 <= count < |buf| && count + |data| <= |buf|
    requires Streamed(buf, buf', Place(|buf|, start, count), data)
    ensures Window(buf', start, count + |data|) == Window(buf, start, count) + data
  {
    hide Streamed;
    StreamedLength(buf, buf', Place(|buf|, start, count), data);
    forall k | 0 <= k < count + |data|
      ensures buf'[Place(|buf|, start, k)] == (Window(buf, start, count) + data)[k]
    {
      var put := Place(|buf|, start, count);
      if k < count {
        assert Place(|buf|, put, |buf| - count + k) == Place(|buf|, start, k);
        StreamedAt(buf, buf', put, data, |buf| - count + k);
      } else {
        assert Place(|buf|, put, k - count) == Place(|buf|, start, k);
        StreamedAt(buf, buf', put, data, k - count);
      }
    }
  }

  lemma StreamedAt(buf: seq<Byte>, buf': seq<Byte>, put: int, data: seq<Byte>, k: int)
    requires Streamed(buf, buf', put, data) && 0 <= k < |buf|
    ensures var i := Place(|buf|, put, k);
            0 <= i < |buf| == |buf'| && buf'[i] == if k < |data| then data[k] else buf[i]
  {
    if k >= |data| {
      assert Unchanged(buf, buf', Place(|buf|, put, k));
    }
  }

  lemma StreamedLength(buf: seq<Byte>, buf': seq<Byte>, put: int, data: seq<Byte>)
    requires Streamed(buf, buf', put, data)
    ensures |buf'| == |buf| && |data| <= |buf|
  {
  }

  /** Streaming over the end of a window keeps the last bytes, from the new put index on. */
  lemma StreamOver(buf: seq<Byte>, buf': seq<Byte>, start: int, count: int, data: seq<Byte>)
    requires 0 <= start < |buf| && 0 <= count <= |buf| && count + |data| >= |buf|
    requires Streamed(buf, buf', Place(|buf|, start, count), data)
    ensures 0 <= Place(|buf|, Place(|buf|, start, count), |data|) < |buf|
    ensures Window(buf', Place(|buf|, Place(|buf|, start, count), |data|), |buf|) ==
            Suffix(Window(buf, start, count) + data, |buf|)
  {
    var n, put := |buf|, Place(|buf|, start, count);
    var start' := Place(n, put, |data|);
    var all := Window(buf, start, count) + data;
    var drop := |all| - n;
    forall k | 0 <= k < n
      ensures Window(buf', start', n)[k] == all[drop + k]
    {
      if drop + k < count {
        assert Place(n, start', k) == Place(n, put, |data| + k);
        assert Place(n, start', k) == Place(n, start, drop + k);
        assert Unchanged(buf, buf', Place(n, put, |data| + k));
      } else {
        assert Place(n, start', k) == Place(n, put, drop + k - count);
      }
    }
  }

  /** Taking from the front. */
  lemma WindowDrop(buf: seq<Byte>, start: int, count: int, n: int)
    requires 0 <= start < |buf| && 0 <= n <= count <= |buf|
    ensures 0 <= Place(|buf|, start, n) < |buf|
    ensures Window(buf, Place(|buf|, start, n), count - n) == Window(buf, start, count)[n..]
  {
    var rest := Window(buf, Place(|buf|, start, n), count - n);
    forall k | 0 <= k < |rest|
      ensures rest[k] == Window(buf, start, count)[n..][k]
    {
      assert Place(|buf|, Place(|buf|, start, n), k) == Place(|buf|, start, n + k);
    }
  }

  /** The part before the end of the buffer and the part from its start. */
  lemma WindowParts(buf: seq<Byte>, start: int, count: int, n: int)
    requires 0 <= start < |buf| && 0 <= n <= count <= |buf|
    ensures Window(buf, start, count)[..n] ==
            if start + n < |buf| then buf[start..start + n] else buf[start..] + buf[..n - (|buf| - start)]
  {
  }

  // ---------------------------------------------------------------- reading while bytes arrive

  /** Reading one byte at a time out of a queue that keeps the last `capacity` bytes, while
      arrivals[k] come in before the k-th byte is taken; an empty queue ends it. The bytes read and
      the bytes left. */
  function ReadOff(held: seq<Byte>, capacity: nat, arrivals: seq<seq<Byte>>): (seq<Byte>, seq<Byte>)
    decreases |arrivals|
  {
    if arrivals == [] then ([], held) else
    var h := Suffix(held + arrivals[0], capacity);
    if h == [] then ([], []) else Before([h[0]], ReadOff(h[1..], capacity, arrivals[1..]))
  }

  function Before(front: seq<Byte>, r: (seq<Byte>, seq<Byte>)): (seq<Byte>, seq<Byte>) {
    (front + r.0, r.1)
  }

  lemma BeforeNone(r: (seq<Byte>, seq<Byte>))
    ensures Before([], r) == r
  {
    assert [] + r.0 == r.0;
  }

  lemma BeforeTwice(a: seq<Byte>, b: seq<Byte>, r: (seq<Byte>, seq<Byte>))
    ensures Before(a, Before(b, r)) == Before(a + b, r)
  {
    assert a + (b + r.0) == a + b + r.0;
  }

  /** One turn, behind the bytes taken so far. */
  lemma OneRead(held: seq<Byte>, capacity: nat, arrivals: seq<seq<Byte>>, n: nat, taken: seq<Byte>)
    requires n < |arrivals|
    ensures var h := Suffix(held + arrivals[n], capacity);
            Before(taken, ReadOff(held, capacity, arrivals[n..])) ==
            if h == [] then (taken, []) else Before(taken + [h[0]], ReadOff(h[1..], capacity, arrivals[n + 1..]))
  {
    hide Suffix;
    assert arrivals[n..][1..] == arrivals[n + 1..];
    var h := Suffix(held + arrivals[n], capacity);
    if h == [] {
      assert taken + [] == taken;
    } else {
      BeforeTwice(taken, [h[0]], ReadOff(h[1..], capacity, arrivals[n + 1..]));
    }
  }

  lemma OneStored(after: seq<Byte>, taken: seq<Byte>, was: seq<Byte>, ch: Byte)
    requires |taken| < |was| && after == (taken + was[|taken|..])[|taken| := ch]
    ensures after == taken + [ch] + was[|taken| + 1..]
  {
  }

  lemma ReadOver(held: seq<Byte>, capacity: nat, arrivals: seq<seq<Byte>>, taken: seq<Byte>)
    requires arrivals == []
    ensures Before(taken, ReadOff(held, capacity, arrivals)) == (taken, held)
  {
    assert taken + [] == taken;
  }

  /** What came in before the read ended. */
  function Arrived(arrivals: seq<seq<Byte>>, taken: nat): seq<Byte>
    decreases |arrivals|
  {
    if arrivals == [] then [] else
    arrivals[0] + if taken == 0 then [] else Arrived(arrivals[1..], taken - 1)
  }

  /** The bytes that give way to newer ones during the read. */
  function Lost(held: seq<Byte>, capacity: nat, arrivals: seq<seq<Byte>>): nat
    decreases |arrivals|
  {
    if arrivals == [] then 0 else
    var all := held + arrivals[0];
    var h := Suffix(all, capacity);
    |all| - |h| + if h == [] then 0 else Lost(h[1..], capacity, arrivals[1..])
  }

  /** a is b with some elements left out. */
  predicate Sparser(a: seq<Byte>, b: seq<Byte>) {
    a == [] || (b != [] && ((a[0] == b[0] && Sparser(a[1..], b[1..])) || Sparser(a, b[1..])))
  }

  lemma {:induction false} SparserBehind(front: seq<Byte>, a: seq<Byte>, b: seq<Byte>)
    requires Sparser(a, b)
    ensures Sparser(a, front + b)
  {
    if front == [] {
      assert front + b == b;
    } else {
      SparserBehind(front[1..], a, b);
      assert (front + b)[1..] == front[1..] + b;
    }
  }

  lemma SparserFront(x: Byte, a: seq<Byte>, b: seq<Byte>)
    requires Sparser(a, b)
    ensures Sparser([x] + a, [x] + b)
  {
    assert ([x] + a)[1..] == a && ([x] + b)[1..] == b;
  }

  lemma {:induction false} SparserSelf(a: seq<Byte>)
    ensures Sparser(a, a)
  {
    if a != [] {
      SparserSelf(a[1..]);
    }
  }

  lemma {:induction false} SparserBoth(a: seq<Byte>, b: seq<Byte>, c: seq<Byte>)
    requires Sparser(a, b)
    ensures Sparser(a + c, b + c)
    decreases |b|
  {
    if a == [] {
      SparserSelf(c);
      SparserBehind(b, c, c);
      assert [] + c == c;
    } else {
      assert (a + c)[1..] == a[1..] + c && (b + c)[1..] == b[1..] + c;
      if a[0] == b[0] && Sparser(a[1..], b[1..]) {
        SparserBoth(a[1..], b[1..], c);
      } else {
        SparserBoth(a, b[1..], c);
      }
    }
  }

  /** Bytes came in, were taken, are left or were lost. */
  predicate Balanced(came: seq<Byte>, taken: seq<Byte>, left: seq<Byte>, lost: nat) {
    Sparser(taken + left, came) && |taken| + |left| + lost == |came|
  }

  /** Bytes are read in the order in which they came in, and every byte is read, held or lost. */
  lemma {:induction false} ReadConserves(held: seq<Byte>, capacity: nat, arrivals: seq<seq<Byte>>)
    requires |held| <= capacity
    ensures var (taken, left) := ReadOff(held, capacity, arrivals);
            |taken| <= |arrivals| && |left| <= capacity && (|taken| < |arrivals| ==> left == []) &&
            Balanced(held + Arrived(arrivals, |taken|), taken, left, Lost(held, capacity, arrivals))
    decreases |arrivals|
  {
    if arrivals == [] {
      NoneRead(held);
    } else {
      hide ReadOff, Arrived, Lost, Suffix, Balanced;
      var h := Suffix(held + arrivals[0], capacity);
      Unfolded(held, capacity, arrivals);
      if h == [] {
        AllLost(held + arrivals[0]);
      } else {
        ReadConserves(h[1..], capacity, arrivals[1..]);
        var (taken, left) := ReadOff(h[1..], capacity, arrivals[1..]);
        OneBalanced(held, arrivals[0], capacity, taken, left, Arrived(arrivals[1..], |taken|),
                    Lost(h[1..], capacity, arrivals[1..]));
      }
    }
  }

  lemma NoneRead(held: seq<Byte>)
    ensures Balanced(held + [], [], held, 0)
  {
    SparserSelf(held);
    assert held + [] == held && [] + held == held;
  }

  lemma AllLost(came: seq<Byte>)
    ensures Balanced(came, [], [], |came|)
  {
  }

  lemma OneBalanced(held: seq<Byte>, arrival: seq<Byte>, capacity: nat, taken: seq<Byte>, left: seq<Byte>,
                    later: seq<Byte>, lost: nat)
    requires var h := Suffix(held + arrival, capacity); h != [] && Balanced(h[1..] + later, taken, left, lost)
    ensures var h := Suffix(held + arrival, capacity);
            Balanced(held + (arrival + later), [h[0]] + taken, left, |held + arrival| - |h| + lost)
  {
    hide Sparser;
    var h := Suffix(held + arrival, capacity);
    SuffixKept(held, arrival, capacity, taken + left, later);
    assert [h[0]] + (taken + left) == [h[0]] + taken + left;
  }

  /** The first byte of a read. */
  lemma Unfolded(held: seq<Byte>, capacity: nat, arrivals: seq<seq<Byte>>)
    requires arrivals != []
    ensures var h := Suffix(held + arrivals[0], capacity);
            if h == [] then
              ReadOff(held, capacity, arrivals) == ([], []) && Arrived(arrivals, 0) == arrivals[0] &&
              Lost(held, capacity, arrivals) == |held + arrivals[0]|
            else
              var (taken, left) := ReadOff(h[1..], capacity, arrivals[1..]);
              ReadOff(held, capacity, arrivals) == ([h[0]] + taken, left) &&
              Arrived(arrivals, 1 + |taken|) == arrivals[0] + Arrived(arrivals[1..], |taken|) &&
              Lost(held, capacity, arrivals) ==
              |held + arrivals[0]| - |h| + Lost(h[1..], capacity, arrivals[1..])
  {
    hide Suffix;
    assert arrivals[0] + [] == arrivals[0];
  }

  lemma SuffixKept(held: seq<Byte>, arrival: seq<Byte>, capacity: nat, rest: seq<Byte>, later: seq<Byte>)
    requires var h := Suffix(held + arrival, capacity); h != [] && Sparser(rest, h[1..] + later)
    ensures Sparser([Suffix(held + arrival, capacity)[0]] + rest, held + (arrival + later))
  {
    hide Sparser;
    var all := held + arrival;
    var h := Suffix(all, capacity);
    var dropped := all[..|all| - |h|];
    SparserFront(h[0], rest, h[1..] + later);
    assert [h[0]] + (h[1..] + later) == h + later;
    SparserBehind(dropped, [h[0]] + rest, h + later);
    assert dropped + (h + later) == held + (arrival + later);
  }

  /** As long as nothing gives way, what was held and what came in is read and held, in order. */
  lemma ReadLossless(held: seq<Byte>, capacity: nat, arrivals: seq<seq<Byte>>)
    requires |held| <= capacity
    ensures var (taken, left) := ReadOff(held, capacity, arrivals);
            taken + left == held + Arrived(arrivals, |taken|) <==> Lost(held, capacity, arrivals) == 0
  {
    hide ReadOff, Arrived, Lost;
    ReadConserves(held, capacity, arrivals);
    var (taken, left) := ReadOff(held, capacity, arrivals);
    if Lost(held, capacity, arrivals) == 0 {
      SparserSame(taken + left, held + Arrived(arrivals, |taken|));
    }
  }

  lemma {:induction false} SparserSame(a: seq<Byte>, b: seq<Byte>)
    requires Sparser(a, b)
    ensures |a| <= |b| && (|a| == |b| ==> a == b)
    decreases |b|
  {
    if a != [] {
      if a[0] == b[0] && Sparser(a[1..], b[1..]) {
        SparserSame(a[1..], b[1..]);
        assert a == [a[0]] + a[1..] && b == [b[0]] + b[1..];
      } else {
        SparserSame(a, b[1..]);
      }
    }
  }

  /** Without interrupts a read takes the oldest bytes, as many as there are and are asked for. */
  lemma {:induction false} ReadQuiet(held: seq<Byte>, capacity: nat, arrivals: seq<seq<Byte>>)
    requires |held| <= capacity && forall k :: 0 <= k < |arrivals| ==> arrivals[k] == []
    ensures var n := Min(|held|, |arrivals|); ReadOff(held, capacity, arrivals) == (held[..n], held[n..])
    decreases |arrivals|
  {
    if arrivals != [] {
      assert held + arrivals[0] == held;
      if held != [] {
        ReadQuiet(held[1..], capacity, arrivals[1..]);
        var n := Min(|held|, |arrivals|);
        assert [held[0]] + held[1..][..n - 1] == held[..n];
        assert held[1..][n - 1..] == held[n..];
      }
    }
  }

  lemma SuffixNone(held: seq<Byte>, n: nat)
    requires |held| <= n
    ensures Suffix(held + [], n) == held
  {
    assert held + [] == held;
  }

  lemma SuffixMore(held: seq<Byte>, bytes: seq<Byte>, k: nat, n: nat)
    requires k < |bytes| && n > 0
    ensures Suffix(Suffix(held + bytes[..k], n) + [bytes[k]], n) == Suffix(held + bytes[..k + 1], n)
  {
    assert held + bytes[..k + 1] == held + bytes[..k] + [bytes[k]];
    SuffixTwice(held + bytes[..k], bytes[k], n);
  }

  lemma SuffixTwice(s: seq<Byte>, x: Byte, n: nat)
    requires n > 0
    ensures Suffix(Suffix(s, n) + [x], n) == Suffix(s + [x], n)
  {
  }

  /** n bytes copied from `from` to `to`. */
  function Copied(was: seq<Byte>, to: int, bytes: seq<Byte>, from: int, n: int): (r: seq<Byte>)
    requires 0 <= to && 0 <= from && 0 <= n && to + n <= |was| && from + n <= |bytes|
    ensures |r| == |was|
  {
    was[..to] + bytes[from..from + n] + was[to + n..]
  }

  class RxFifo {
    const buffer: array<Byte>
    const bufsz: int
    var putIndex: int    // 16 bits
    var getIndex: int    // 16 bits
    var isFull: bool

    ghost predicate Shape()
      reads this
    {
      0 < bufsz == buffer.Length <= 0x8000 && 0 <= putIndex < bufsz && 0 <= getIndex <= bufsz
    }

    /** A get index at the very end stands for 0. */
    ghost function Start(): int
      reads this
    {
      if getIndex == bufsz then 0 else getIndex
    }

    ghost function Count(): int
      reads this
    {
      if putIndex == getIndex then (if isFull then bufsz else 0)
      else if putIndex > getIndex then putIndex - getIndex
      else bufsz - (getIndex - putIndex)
    }

    /** The unread bytes, oldest first. */
    ghost function Held(): seq<Byte>
      reads this, buffer
      requires Shape()
    {
      Window(buffer[..], Start(), Count())
    }

    /** In DMA mode a full FIFO has both indices together, inside the buffer. */
    ghost predicate DmaValid()
      reads this
    {
      Shape() && (isFull ==> getIndex == putIndex)
    }

    /** In interrupt mode the get index stays inside the buffer, and equal indices mean an empty
        FIFO; only a buffer of one byte uses the flag to tell full from empty. */
    ghost predicate IntValid()
      reads this
    {
      Shape() && getIndex < bufsz && (bufsz >= 2 && getIndex == putIndex ==> !isFull)
    }

    /** How much interrupt mode holds. */
    function IntCapacity(): int
      reads this
    {
      if bufsz == 1 then 1 else bufsz - 1
    }

    /** The set-up in rt_serial_open. */
    constructor (buffer: array<Byte>)
      requires 0 < buffer.Length <= 0x8000
      ensures DmaValid() && IntValid() && Held() == [] && this.buffer == buffer
    {
      this.buffer := buffer;
      bufsz := buffer.Length;
      putIndex := 0;
      getIndex := 0;
      isFull := false;
    }

    /** _serial_fifo_calc_recved_len. */
    method RecvedLen() returns (n: int)
      requires Shape()
      ensures n == |Held()|
    {
      if putIndex == getIndex {
        return if !isFull then 0 else bufsz;
      } else if putIndex > getIndex {
        return putIndex - getIndex;
      } else {
        return bufsz - (getIndex - putIndex);
      }
    }

    // ------------------------------------------------------------ interrupt mode

    /** One character in the receive interrupt: the oldest one gives way. */
    method IntReceive(ch: Byte)
      requires IntValid()
      modifies this, buffer
      ensures IntValid() && Held() == Suffix(old(Held()) + [ch], IntCapacity())
    {
      hide Window, Suffix;
      ghost var before, start, count := buffer[..], Start(), Count();
      buffer[putIndex] := ch;
      assert buffer[..] == before[putIndex := ch];
      StreamOne(before, putIndex, ch);
      OneMore(before, buffer[..], start, count, ch);
      putIndex := putIndex + 1;
      if putIndex >= bufsz {
        putIndex := 0;
      }
      if putIndex == getIndex {
        getIndex := getIndex + 1;
        isFull := true;
        if getIndex >= bufsz {
          getIndex := 0;
        }
      }
    }

    /** The length handed to the receive callback after the interrupt. */
    method IndicatedLen() returns (n: int)
      requires IntValid()
      ensures n == |Held()| <==> !(bufsz == 1 && isFull)
    {
      n := if putIndex >= getIndex then putIndex - getIndex else bufsz - (getIndex - putIndex);
    }

    /** Receive interrupts while a reader has them enabled. */
    method Interrupts(bytes: seq<Byte>)
      requires IntValid()
      modifies this, buffer
      ensures IntValid() && Held() == Suffix(old(Held()) + bytes, IntCapacity())
    {
      hide Window, Suffix;
      ghost var held := Held();
      HeldFits();
      SuffixNone(held, IntCapacity());
      var k := 0;
      while k < |bytes|
        invariant 0 <= k <= |bytes| && IntValid() && Held() == Suffix(held + bytes[..k], IntCapacity())
      {
        IntReceive(bytes[k]);
        SuffixMore(held, bytes, k, IntCapacity());
        k := k + 1;
      }
      assert bytes[..k] == bytes;
    }

    lemma HeldFits()
      requires IntValid()
      ensures |Held()| <= IntCapacity()
    {
    }

    /** _serial_int_rx. Interrupts are disabled for one byte at a time; `arrivals[k]` is what the
        receive interrupt delivers before the k-th byte is taken. */
    method IntRead(data: array<Byte>, length: int, arrivals: seq<seq<Byte>>) returns (n: int)
      requires IntValid() && 0 <= length == |arrivals| <= data.Length && data != buffer
      modifies this, buffer, data
      ensures IntValid() && n == |ReadOff(old(Held()), IntCapacity(), arrivals).0| <= length
      ensures data[..] == ReadOff(old(Held()), IntCapacity(), arrivals).0 + old(data[n..])
      ensures Held() == ReadOff(old(Held()), IntCapacity(), arrivals).1
    {
      hide Window, ReadOff, Suffix, Before;
      ghost var was, held := data[..], Held();
      ghost var all := ReadOff(held, IntCapacity(), arrivals);
      ghost var taken: seq<Byte> := [];
      assert arrivals[0..] == arrivals;
      BeforeNone(all);
      n := 0;
      while n < length
        invariant IntValid() && 0 <= n == |taken| <= length
        invariant all == Before(taken, ReadOff(Held(), IntCapacity(), arrivals[n..]))
        invariant data[..] == taken + was[n..]
      {
        OneRead(Held(), IntCapacity(), arrivals, n, taken);
        var ch := TakeAfter(arrivals[n]);
        if ch.None? {
          return;
        }
        data[n] := ch.value;
        OneStored(data[..], taken, was, ch.value);
        taken := taken + [ch.value];
        n := n + 1;
      }
      ReadOver(Held(), IntCapacity(), arrivals[n..], taken);
    }

    /** One turn: interrupts come in, then one byte is taken. */
    method TakeAfter(arrival: seq<Byte>) returns (ch: Option<Byte>)
      requires IntValid()
      modifies this, buffer
      ensures IntValid()
      ensures var h := Suffix(old(Held()) + arrival, IntCapacity());
              if h == [] then ch == None && Held() == [] else ch == Some(h[0]) && Held() == h[1..]
    {
      hide Window, Suffix;
      Interrupts(arrival);
      ch := TakeOne();
    }

    /** The section of _serial_int_rx with interrupts disabled. */
    method TakeOne() returns (ch: Option<Byte>)
      requires IntValid()
      modifies this`getIndex, this`isFull
      ensures IntValid() && ch == if old(Held()) == [] then None else Some(old(Held())[0])
      ensures Held() == if old(Held()) == [] then [] else old(Held())[1..]
    {
      hide Window;
      if getIndex == putIndex && !isFull {
        return None;
      }
      WindowDrop(buffer[..], Start(), Count(), 1);
      WindowFirst(buffer[..], Start(), Count());
      ch := Some(buffer[getIndex]);
      getIndex := getIndex + 1;
      if getIndex >= bufsz {
        getIndex := 0;
      }
      if isFull {
        isFull := false;
      }
    }

    // ------------------------------------------------------------ DMA mode

    /** rt_dma_recv_update_put_index after the controller has streamed `data` into the buffer: the
        last bytes stay. */
    method DmaReceived(ghost before: seq<Byte>, ghost data: seq<Byte>, len: int)
      requires DmaValid() && len == |data| <= bufsz
      requires |before| == bufsz && Streamed(before, buffer[..], putIndex, data)
      modifies this
      ensures DmaValid() && getIndex < bufsz
      ensures Held() == Suffix(Window(before, old(Start()), old(Count())) + data, bufsz)
    {
      hide Window, Suffix, Streamed;
      DmaKeeps(before, buffer[..], Start(), Count(), putIndex, data);
      UpdatePutIndex(len);
    }

    /** rt_dma_recv_update_put_index. */
    method UpdatePutIndex(len: int)
      requires DmaValid() && 0 <= len <= bufsz
      modifies this
      ensures DmaValid() && getIndex < bufsz && putIndex == Place(bufsz, old(putIndex), len)
      ensures if old(Count()) + len < bufsz then Start() == old(Start()) && Count() == old(Count()) + len
              else Start() == putIndex && Count() == bufsz
    {
      hide Wrap;
      if getIndex <= putIndex {
        putIndex := (putIndex + len) % 0x1_0000;
        if putIndex >= bufsz {
          putIndex := Wrap(putIndex, bufsz);
          if putIndex >= getIndex {
            isFull := true;
          }
        }
      } else {
        putIndex := (putIndex + len) % 0x1_0000;
        if putIndex >= getIndex {
          if putIndex >= bufsz {
            putIndex := Wrap(putIndex, bufsz);
          }
          isFull := true;
        }
      }
      if isFull {
        getIndex := putIndex;
      }
      if getIndex >= bufsz {
        getIndex := 0;
      }
    }

    /** rt_dma_recv_update_get_index: the get index may come to rest at the very end. */
    method DmaConsumed(len: int)
      requires DmaValid() && 0 <= len <= |Held()|
      modifies this
      ensures DmaValid() && Held() == old(Held())[len..]
    {
      hide Window, Wrap;
      WindowDrop(buffer[..], Start(), Count(), len);
      if isFull && len != 0 {
        isFull := false;
      }
      getIndex := (getIndex + len) % 0x1_0000;
      if getIndex > bufsz {
        getIndex := Wrap(getIndex, bufsz);
      }
    }

    /** _serial_dma_rx of a device with a buffer. */
    method DmaRead(data: array<Byte>, length: int) returns (n: int)
      requires DmaValid() && 0 <= length <= data.Length && data != buffer
      modifies this, data
      ensures DmaValid() && n == Min(length, old(|Held()|))
      ensures data[..] == old(Held())[..n] + old(data[n..])
      ensures Held() == old(Held())[n..]
    {
      hide Window, Place;
      var have := RecvedLen();
      n := if length < have then length else have;
      CopyHeld(data, n);
      DmaConsumed(n);
    }

    /** The one or two copies of _serial_dma_rx. */
    method CopyHeld(data: array<Byte>, n: int)
      requires DmaValid() && 0 <= n <= |Held()| && n <= data.Length && data != buffer
      modifies data
      ensures data[..] == Held()[..n] + old(data[n..])
    {
      hide Window, Copied;
      ghost var bytes, was := buffer[..], data[..];
      WindowParts(bytes, Start(), Count(), n);
      if getIndex + n < bufsz {
        CopiedFlat(was, bytes, getIndex, n);
        MemCopy(data, 0, getIndex, n);
        return;
      }
      var first := bufsz - getIndex;
      CopiedTwice(was, bytes, getIndex, n - first);
      MemCopy(data, 0, getIndex, first);
      MemCopy(data, first, 0, n - first);
    }

    /** rt_memcpy out of the buffer. */
    method MemCopy(data: array<Byte>, to: int, from: int, n: int)
      requires data != buffer && 0 <= n && 0 <= from && from + n <= buffer.Length && 0 <= to && to + n <= data.Length
      modifies data
      ensures data[..] == Copied(old(data[..]), to, buffer[..], from, n)
    {
      ghost var bytes, was := buffer[..], data[..];
      assert Copied(was, to, bytes, from, 0) == was;
      var k := 0;
      while k < n
        invariant 0 <= k <= n && buffer[..] == bytes
        invariant data[..] == Copied(was, to, bytes, from, k)
      {
        CopyMore(was, to, bytes, from, k);
        data[to + k] := buffer[from + k];
        assert data[..] == Copied(was, to, bytes, from, k)[to + k := bytes[from + k]];
        k := k + 1;
      }
    }

    /** The readiness test of the poll operation. In DMA mode it is right unless the get index
        rests at the end and the put index at 0: then it calls an empty FIFO readable. */
    method Readable() returns (b: bool)
      requires DmaValid()
      ensures (b <==> Held() != []) <==> !(getIndex == bufsz && putIndex == 0)
    {
      hide Window;
      b := getIndex != putIndex || (getIndex == putIndex && isFull);
    }
  }

  /** The remainder of an index less than twice the size. */
  function Wrap(i: int, n: int): (r: int)
    requires 0 < n <= i <= 2 * n
    ensures r == if i < 2 * n then i - n else 0
  {
    if i < 2 * n then
      assert i == n + (i - n);
      SmallRemainder(i, n);
      i % n
    else i % n
  }

  lemma SmallRemainder(i: int, n: int)
    requires 0 < n <= i < 2 * n
    ensures i % n == i - n
  {
  }

  lemma StreamOne(buf: seq<Byte>, put: int, ch: Byte)
    requires 0 <= put < |buf|
    ensures Streamed(buf, buf[put := ch], put, [ch])
  {
    forall k | 1 <= k < |buf|
      ensures Unchanged(buf, buf[put := ch], Place(|buf|, put, k))
    {
    }
  }

  /** One byte behind a window: it grows, or from n - 1 bytes on (1 for a single place) it moves. */
  lemma OneMore(buf: seq<Byte>, buf': seq<Byte>, start: int, count: int, ch: Byte)
    requires 0 <= start < |buf| && 0 <= count <= |buf| && (|buf| >= 2 ==> count < |buf|)
    requires Streamed(buf, buf', Place(|buf|, start, count), [ch])
    ensures var n := |buf|;
            var capacity := if n == 1 then 1 else n - 1;
            if count < capacity then
              Window(buf', start, count + 1) == Suffix(Window(buf, start, count) + [ch], capacity)
            else if n == 1 then Window(buf', 0, 1) == Suffix(Window(buf, start, count) + [ch], capacity)
            else Window(buf', Place(n, start, 1), n - 1) == Suffix(Window(buf, start, count) + [ch], capacity)
  {
    var n := |buf|;
    var capacity := if n == 1 then 1 else n - 1;
    if count < n {
      StreamFits(buf, buf', start, count, [ch]);
      if count == n - 1 && n >= 2 {
        WindowDrop(buf', start, n, 1);
      }
    } else {
      StreamOver(buf, buf', start, count, [ch]);
    }
  }

  lemma CopyMore(was: seq<Byte>, to: int, bytes: seq<Byte>, from: int, k: int)
    requires 0 <= to && 0 <= from && 0 <= k && to + k < |was| && from + k < |bytes|
    ensures Copied(was, to, bytes, from, k)[to + k := bytes[from + k]] == Copied(was, to, bytes, from, k + 1)
  {
  }

  lemma CopiedFlat(was: seq<Byte>, bytes: seq<Byte>, from: int, n: int)
    requires 0 <= n <= |was| && 0 <= from && from + n <= |bytes|
    ensures Copied(was, 0, bytes, from, n) == bytes[from..from + n] + was[n..]
    ensures from == 0 ==> bytes[from..from + n] == bytes[..n]
  {
  }

  /** Two copies one behind the other. */
  lemma CopiedTwice(was: seq<Byte>, bytes: seq<Byte>, get: int, rest: int)
    requires 0 <= get <= |bytes| && 0 <= rest <= |bytes| && |bytes| - get + rest <= |was|
    ensures var first := |bytes| - get;
            Copied(Copied(was, 0, bytes, get, first), first, bytes, 0, rest) ==
            bytes[get..] + bytes[..rest] + was[first + rest..]
  {
    hide Copied;
    var first := |bytes| - get;
    var once := Copied(was, 0, bytes, get, first);
    CopiedFlat(was, bytes, get, first);
    assert bytes[get..get + first] == bytes[get..];
    CopiedNext(bytes[get..], was[first..], bytes, rest);
    assert was[first..][rest..] == was[first + rest..];
  }

  lemma CopiedNext(a: seq<Byte>, b: seq<Byte>, bytes: seq<Byte>, n: int)
    requires 0 <= n <= |b| && n <= |bytes|
    ensures Copied(a + b, |a|, bytes, 0, n) == a + bytes[..n] + b[n..]
  {
  }

  lemma WindowFirst(buf: seq<Byte>, start: int, count: int)
    requires 0 <= start < |buf| && 0 < count <= |buf|
    ensures Window(buf, start, count)[0] == buf[start]
  {
  }

  lemma DmaKeeps(buf: seq<Byte>, buf': seq<Byte>, start: int, count: int, put: int, data: seq<Byte>)
    requires 0 <= start < |buf| && 0 <= count <= |buf| && put == Place(|buf|, start, count)
    requires Streamed(buf, buf', put, data)
    ensures var n := |buf|;
            var s := Suffix(Window(buf, start, count) + data, n);
            |data| <= n &&
            (count + |data| < n ==> Window(buf', start, count + |data|) == s) &&
            (count + |data| >= n ==> 0 <= Place(n, put, |data|) < n && Window(buf', Place(n, put, |data|), n) == s)
  {
    var n := |buf|;
    hide Window, Streamed;
    StreamedLength(buf, buf', put, data);
    if count + |data| < n {
      StreamFits(buf, buf', start, count, data);
    } else {
      StreamOver(buf, buf', start, count, data);
    }
  }
}
