/** The 16-bit CRC of the WLAN configuration store: generator x^16 + x^12 + x^5 + 1, most
    significant bit first, register starting at 0. */
module WlanCrc {

  const POLY: bv16 := 0x1021

  function Xor16(a: bv16, b: bv16): bv16 {
    a ^ b
  }

  function Shl(c: bv16): bv16 {
    c << 1
  }

  function Top(c: bv16): bool {
    c & 0x8000 != 0
  }

  /** A byte at the upper end of the register. */
  function High(b: bv8): bv16 {
    (b as bv16) << 8
  }

  /** One turn of the inner loop. */
  function Step(c: bv16): bv16 {
    if Top(c) then Xor16(Shl(c), POLY) else Shl(c)
  }

  function Steps(c: bv16, n: nat): bv16 {
    if n == 0 then c else Step(Steps(c, n - 1))
  }

  /** One byte. */
  function ByteIn(c: bv16, b: bv8): bv16 {
    Steps(Xor16(c, High(b)), 8)
  }

  /** The register after the bytes, from c. */
  function CrcFrom(c: bv16, data: seq<bv8>): bv16 {
    if data == [] then c else ByteIn(CrcFrom(c, data[..|data| - 1]), data[|data| - 1])
  }

  function Crc(data: seq<bv8>): bv16 {
    CrcFrom(0, data)
  }

  /** rt_wlan_cal_crc. */
  method CalCrc(buff: seq<bv8>) returns (crc: bv16)
    ensures crc == Crc(buff)
  {
    hide ByteIn;
    crc := 0;
    var k := 0;
    while k < |buff|
      invariant 0 <= k <= |buff|
      invariant crc == CrcFrom(0, buff[..k])
    {
      crc := ShiftIn(crc, buff[k]);
      assert buff[..k + 1][..k] == buff[..k];
      k := k + 1;
    }
    assert buff[..k] == buff;
  }

  /** The inner loop. */
  method ShiftIn(c: bv16, wChar: bv8) returns (crc: bv16)
    ensures crc == ByteIn(c, wChar)
  {
    hide Step, Xor16, High;
    ByteStart(c, wChar);
    crc := c ^ ((wChar as bv16) << 8);
    ghost var start := crc;
    var i := 0;
    while i < 8
      invariant 0 <= i <= 8
      invariant crc == Steps(start, i)
    {
      StepBits(crc);
      if crc & 0x8000 != 0 {
        crc := (crc << 1) ^ 0x1021;
      } else {
        crc := crc << 1;
      }
      i := i + 1;
    }
  }

  lemma ByteStart(c: bv16, b: bv8)
    ensures ByteIn(c, b) == Steps(c ^ ((b as bv16) << 8), 8)
  {
    hide Steps;
  }

  lemma StepBits(c: bv16)
    ensures Step(c) == if c & 0x8000 != 0 then (c << 1) ^ 0x1021 else c << 1
  {
  }

  /** The check value of this CRC: that of the digits 1 to 9. It fixes generator, bit order and the
      register at the start, which is also the CRC of no bytes. */
  lemma CheckValue()
    ensures Crc([]) == 0
    ensures Crc([0x31, 0x32, 0x33, 0x34, 0x35, 0x36, 0x37, 0x38, 0x39]) == 0x31c3
  {
    hide ByteIn;
    var d: seq<bv8> := [0x31, 0x32, 0x33, 0x34, 0x35, 0x36, 0x37, 0x38, 0x39];
    ByteCrc(0x0000, 0x31, 0x2672);
    ByteCrc(0x2672, 0x32, 0x20b5);
    ByteCrc(0x20b5, 0x33, 0x9752);
    ByteCrc(0x9752, 0x34, 0xd789);
    ByteCrc(0xd789, 0x35, 0x546c);
    ByteCrc(0x546c, 0x36, 0x20e4);
    ByteCrc(0x20e4, 0x37, 0x86d6);
    ByteCrc(0x86d6, 0x38, 0x9015);
    ByteCrc(0x9015, 0x39, 0x31c3);
    assert Crc(d[..0]) == 0;
    OneByte(d, 0);
    OneByte(d, 1);
    OneByte(d, 2);
    OneByte(d, 3);
    OneByte(d, 4);
    OneByte(d, 5);
    OneByte(d, 6);
    OneByte(d, 7);
    OneByte(d, 8);
    assert d[..9] == d;
  }

  lemma OneByte(d: seq<bv8>, k: nat)
    requires k < |d|
    ensures Crc(d[..k + 1]) == ByteIn(Crc(d[..k]), d[k])
  {
    hide ByteIn;
    assert d[..k + 1][..k] == d[..k];
  }

  lemma ByteCrc(c: bv16, b: bv8, r: bv16)
    requires (c == 0x0000 && b == 0x31 && r == 0x2672)
          || (c == 0x2672 && b == 0x32 && r == 0x20b5)
          || (c == 0x20b5 && b == 0x33 && r == 0x9752)
          || (c == 0x9752 && b == 0x34 && r == 0xd789)
          || (c == 0xd789 && b == 0x35 && r == 0x546c)
          || (c == 0x546c && b == 0x36 && r == 0x20e4)
          || (c == 0x20e4 && b == 0x37 && r == 0x86d6)
          || (c == 0x86d6 && b == 0x38 && r == 0x9015)
          || (c == 0x9015 && b == 0x39 && r == 0x31c3)
    ensures ByteIn(c, b) == r
  {
    Unrolled(Xor16(c, High(b)));
  }

  // ---------------------------------------------------------------- words of 16 bits

  lemma XorLaws(a: bv16, b: bv16, c: bv16)
    ensures Xor16(a, b) == Xor16(b, a)
    ensures Xor16(Xor16(a, b), c) == Xor16(a, Xor16(b, c))
    ensures Xor16(a, a) == 0 && Xor16(a, 0) == a && Xor16(0, a) == a
  {
    hide Xor16;
    XorCommutes(a, b);
    XorAssociates(a, b, c);
    XorUnits(a);
  }

  lemma XorCommutes(a: bv16, b: bv16)
    ensures Xor16(a, b) == Xor16(b, a)
  {
  }

  lemma XorAssociates(a: bv16, b: bv16, c: bv16)
    ensures Xor16(Xor16(a, b), c) == Xor16(a, Xor16(b, c))
  {
  }

  lemma XorUnits(a: bv16)
    ensures Xor16(a, a) == 0 && Xor16(a, 0) == a && Xor16(0, a) == a
  {
  }

  lemma XorZero(a: bv16, b: bv16)
    ensures Xor16(a, b) == 0 <==> a == b
  {
  }

  /** Four terms regrouped. */
  lemma XorPairs(a: bv16, b: bv16, c: bv16, d: bv16)
    ensures Xor16(Xor16(a, b), Xor16(c, d)) == Xor16(Xor16(a, c), Xor16(b, d))
  {
    hide Xor16;
    XorLaws(a, b, Xor16(c, d));
    XorLaws(b, c, d);
    XorLaws(c, b, d);
    XorLaws(a, c, Xor16(b, d));
  }

  lemma ShlXor(a: bv16, b: bv16)
    ensures Shl(Xor16(a, b)) == Xor16(Shl(a), Shl(b))
  {
  }

  lemma TopXor(a: bv16, b: bv16)
    ensures Top(Xor16(a, b)) <==> Top(a) != Top(b)
  {
  }

  lemma HighXor(x: bv8, y: bv8)
    ensures High(x ^ y) == Xor16(High(x), High(y))
  {
  }

  lemma HighZero(x: bv8)
    ensures High(x) == 0 <==> x == 0
    ensures High(x) & 0x00ff == 0
  {
  }

  lemma XorByte(x: bv8, y: bv8)
    ensures x ^ y == 0 <==> x == y
  {
  }

  // ---------------------------------------------------------------- linearity

  lemma StepLinear(a: bv16, b: bv16)
    ensures Step(Xor16(a, b)) == Xor16(Step(a), Step(b))
  {
    hide Xor16, Shl, Top;
    var p, q := Shl(a), Shl(b);
    ShlXor(a, b);
    TopXor(a, b);
    XorPairs(p, POLY, q, POLY);
    XorLaws(POLY, Xor16(p, q), 0);
    XorLaws(Xor16(p, q), POLY, 0);
    XorLaws(p, POLY, q);
    XorLaws(POLY, q, p);
    XorLaws(p, q, POLY);
  }

  lemma {:induction false} StepsLinear(a: bv16, b: bv16, n: nat)
    ensures Steps(Xor16(a, b), n) == Xor16(Steps(a, n), Steps(b, n))
  {
    hide Step, Xor16;
    if n > 0 {
      StepsLinear(a, b, n - 1);
      StepLinear(Steps(a, n - 1), Steps(b, n - 1));
    }
  }

  /** No register but 0 steps to 0. */
  lemma StepZero(c: bv16)
    ensures Step(c) == 0 <==> c == 0
  {
  }

  lemma {:induction false} StepsZero(c: bv16, n: nat)
    ensures Steps(c, n) == 0 <==> c == 0
  {
    hide Step;
    if n > 0 {
      StepsZero(c, n - 1);
      StepZero(Steps(c, n - 1));
    }
  }

  lemma ByteLinear(a: bv16, b: bv16, x: bv8, y: bv8)
    ensures ByteIn(Xor16(a, b), x ^ y) == Xor16(ByteIn(a, x), ByteIn(b, y))
  {
    hide Steps, Xor16, High;
    HighXor(x, y);
    XorPairs(a, b, High(x), High(y));
    StepsLinear(Xor16(a, High(x)), Xor16(b, High(y)), 8);
  }

  function Xor(a: seq<bv8>, b: seq<bv8>): (r: seq<bv8>)
    requires |a| == |b|
    ensures |r| == |a|
  {
    seq(|a|, i requires 0 <= i < |a| => a[i] ^ b[i])
  }

  /** The CRC is linear over exclusive or, for buffers of one length. */
  lemma {:induction false} CrcLinear(a: bv16, b: bv16, d: seq<bv8>, e: seq<bv8>)
    requires |d| == |e|
    ensures CrcFrom(Xor16(a, b), Xor(d, e)) == Xor16(CrcFrom(a, d), CrcFrom(b, e))
    decreases |d|
  {
    hide ByteIn, Xor16, Xor;
    if d == [] {
      XorParts(d, e);
    } else {
      var n := |d| - 1;
      XorParts(d, e);
      CrcLinear(a, b, d[..n], e[..n]);
      ByteLinear(CrcFrom(a, d[..n]), CrcFrom(b, e[..n]), d[n], e[n]);
    }
  }

  lemma XorParts(d: seq<bv8>, e: seq<bv8>)
    requires |d| == |e|
    ensures d == [] ==> Xor(d, e) == []
    ensures d != [] ==>
              var n := |d| - 1; Xor(d, e)[..n] == Xor(d[..n], e[..n]) && Xor(d, e)[n] == d[n] ^ e[n]
  {
  }

  // ---------------------------------------------------------------- what changes are detected

  lemma ByteInjective(a: bv16, b: bv16, x: bv8)
    ensures ByteIn(a, x) == ByteIn(b, x) <==> a == b
  {
    hide Steps, Xor16, High;
    var u := High(x);
    StepsLinear(Xor16(a, u), Xor16(b, u), 8);
    XorPairs(a, u, b, u);
    XorLaws(u, Xor16(a, b), 0);
    XorLaws(Xor16(a, b), u, 0);
    StepsZero(Xor16(a, b), 8);
    XorZero(a, b);
    XorZero(Steps(Xor16(a, u), 8), Steps(Xor16(b, u), 8));
  }

  /** Equal tails keep different registers different. */
  lemma {:induction false} CrcInjective(a: bv16, b: bv16, d: seq<bv8>)
    ensures CrcFrom(a, d) == CrcFrom(b, d) <==> a == b
    decreases |d|
  {
    hide ByteIn;
    if d != [] {
      var n := |d| - 1;
      CrcInjective(a, b, d[..n]);
      ByteInjective(CrcFrom(a, d[..n]), CrcFrom(b, d[..n]), d[n]);
    }
  }

  lemma {:induction false} CrcAppend(c: bv16, d: seq<bv8>, e: seq<bv8>)
    ensures CrcFrom(c, d + e) == CrcFrom(CrcFrom(c, d), e)
    decreases |e|
  {
    hide ByteIn;
    if e == [] {
      assert d + e == d;
    } else {
      var n := |e| - 1;
      assert (d + e)[..|d + e| - 1] == d + e[..n];
      CrcAppend(c, d, e[..n]);
    }
  }

  lemma PairOf(c: bv16, x: bv8, y: bv8)
    ensures CrcFrom(c, [x, y]) == ByteIn(ByteIn(c, x), y)
  {
    hide ByteIn;
    assert [x, y][..1] == [x];
    assert CrcFrom(c, [x]) == ByteIn(c, x) by {
      assert [x][..0] == [];
    }
  }

  lemma Unrolled(c: bv16)
    ensures Steps(c, 8) == Step(Step(Step(Step(Step(Step(Step(Step(c))))))))
  {
    hide Step;
    assert Steps(c, 1) == Step(c);
    assert Steps(c, 2) == Step(Step(c));
    assert Steps(c, 3) == Step(Step(Step(c)));
    assert Steps(c, 4) == Step(Step(Step(Step(c))));
    assert Steps(c, 5) == Step(Steps(c, 4));
    assert Steps(c, 6) == Step(Steps(c, 5));
    assert Steps(c, 7) == Step(Steps(c, 6));
  }

  /** Eight turns move a low byte up unchanged. */
  lemma LowByte(c: bv16)
    requires c & 0xff00 == 0
    ensures Steps(c, 8) == c << 8
  {
    Unrolled(c);
  }

  /** A byte entering an all-zero register leaves something in the low half. */
  lemma HighByte(c: bv16)
    requires c & 0x00ff == 0 && c != 0
    ensures Steps(c, 8) & 0x00ff != 0
  {
    Unrolled(c);
  }

  /** Two bytes into a zero register: only two zero bytes leave it at zero. */
  lemma TwoBytes(x: bv8, y: bv8)
    ensures ByteIn(ByteIn(0, x), y) == 0 <==> x == 0 && y == 0
  {
    hide Steps, Xor16, High;
    var u, v := High(x), High(y);
    HighZero(x);
    HighZero(y);
    XorLaws(u, 0, 0);
    StepsZero(Xor16(Steps(u, 8), v), 8);
    StepsZero(u, 8);
    XorZero(Steps(u, 8), v);
    if u != 0 {
      HighByte(u);
    }
  }

  /** Two bytes from the same register. */
  lemma PairExactly(c: bv16, x: bv8, y: bv8, x': bv8, y': bv8)
    ensures ByteIn(ByteIn(c, x), y) == ByteIn(ByteIn(c, x'), y') <==> x == x' && y == y'
  {
    hide ByteIn, Xor16;
    var a, b := ByteIn(c, x), ByteIn(c, x');
    ByteLinear(c, c, x, x');
    ByteLinear(a, b, y, y');
    XorLaws(c, 0, 0);
    TwoBytes(x ^ x', y ^ y');
    XorZero(ByteIn(a, y), ByteIn(b, y'));
    XorByte(x, x');
    XorByte(y, y');
  }

  /** Buffers of one length that differ at most in two adjacent bytes, in any way, have the same
      CRC only if they are the same. */
  lemma AdjacentDetected(pre: seq<bv8>, x: bv8, y: bv8, x': bv8, y': bv8, post: seq<bv8>)
    ensures Crc(pre + [x, y] + post) == Crc(pre + [x', y'] + post) <==> x == x' && y == y'
  {
    hide ByteIn, CrcFrom;
    CrcAppend(0, pre + [x, y], post);
    CrcAppend(0, pre + [x', y'], post);
    CrcAppend(0, pre, [x, y]);
    CrcAppend(0, pre, [x', y']);
    var c := CrcFrom(0, pre);
    CrcInjective(CrcFrom(c, [x, y]), CrcFrom(c, [x', y']), post);
    PairOf(c, x, y);
    PairOf(c, x', y');
    PairExactly(c, x, y, x', y');
  }

  // ---------------------------------------------------------------- bursts

  /** Sixteen bits moved up by n bits within three bytes. */
  function Slide(b: bv24, n: nat): bv24 {
    if n == 0 then b else Up(Slide(b, n - 1))
  }

  function Up(b: bv24): bv24 {
    b << 1
  }

  function Byte0(b: bv24): bv8 {
    ((b >> 16) & 0xff) as bv8
  }

  function Byte1(b: bv24): bv8 {
    ((b >> 8) & 0xff) as bv8
  }

  function Byte2(b: bv24): bv8 {
    (b & 0xff) as bv8
  }

  function Low(b: bv8): bv16 {
    b as bv16
  }

  /** Three bytes into a zero register. */
  function Three(b: bv24): bv16 {
    ByteIn(ByteIn(ByteIn(0, Byte0(b)), Byte1(b)), Byte2(b))
  }

  lemma {:induction false} StepsMore(c: bv16, m: nat, n: nat)
    ensures Steps(Steps(c, m), n) == Steps(c, m + n)
    decreases n
  {
    hide Step;
    if n > 0 {
      StepsMore(c, m, n - 1);
    }
  }

  lemma LowHigh(b: bv8)
    ensures Low(b) & 0xff00 == 0 && Low(b) << 8 == High(b)
  {
  }

  /** A byte enters as if it had come in at the lower end eight turns earlier. */
  lemma ByteFrom(c: bv16, b: bv8)
    ensures ByteIn(c, b) == Xor16(Steps(c, 8), Steps(Low(b), 16))
  {
    hide Steps, Xor16, High, Low;
    LowHigh(b);
    LowByte(Low(b));
    StepsLinear(c, High(b), 8);
    StepsMore(Low(b), 8, 8);
  }

  lemma ThreeParts(b: bv24)
    ensures Three(b) == Xor16(Xor16(Steps(Low(Byte0(b)), 32), Steps(Low(Byte1(b)), 24)), Steps(Low(Byte2(b)), 16))
  {
    hide Steps, Xor16, High, Low, ByteIn, Byte0, Byte1, Byte2;
    var x, y, z := Low(Byte0(b)), Low(Byte1(b)), Low(Byte2(b));
    ByteFrom(0, Byte0(b));
    StepsZero(0, 8);
    XorLaws(Steps(x, 16), 0, 0);
    ByteFrom(Steps(x, 16), Byte1(b));
    StepsMore(x, 16, 8);
    ByteFrom(Xor16(Steps(x, 24), Steps(y, 16)), Byte2(b));
    StepsLinear(Steps(x, 24), Steps(y, 16), 8);
    StepsMore(x, 24, 8);
    StepsMore(y, 16, 8);
  }

  function Carry(b: bv8): bv16 {
    (b as bv16) >> 7
  }

  /** Moving three bytes up by one bit, with the carries between them. */
  lemma DoubledBytes(b: bv24)
    requires b & 0x80_0000 == 0
    ensures Low(Byte0(Up(b))) == Xor16(Shl(Low(Byte0(b))), Carry(Byte1(b)))
    ensures Low(Byte1(Up(b))) == Xor16(Xor16(Shl(Low(Byte1(b))), Carry(Byte1(b)) << 8), Carry(Byte2(b)))
    ensures Low(Byte2(Up(b))) == Xor16(Shl(Low(Byte2(b))), Carry(Byte2(b)) << 8)
  {
  }

  lemma LowStep(b: bv8)
    ensures Step(Low(b)) == Shl(Low(b)) && Carry(b) & 0xff00 == 0
  {
  }

  /** Two terms that occur twice. */
  lemma Cancel(a: bv16, b: bv16, c: bv16, p: bv16, q: bv16)
    ensures Xor16(Xor16(Xor16(a, p), Xor16(Xor16(b, p), q)), Xor16(c, q)) == Xor16(Xor16(a, b), c)
  {
    hide Xor16;
    var bp := Xor16(b, p);
    XorLaws(Xor16(a, p), bp, q);
    XorPairs(a, p, b, p);
    XorLaws(p, Xor16(a, b), 0);
    XorLaws(Xor16(a, b), p, 0);
    XorPairs(Xor16(a, b), q, c, q);
    XorLaws(q, Xor16(Xor16(a, b), c), 0);
    XorLaws(Xor16(Xor16(a, b), c), q, 0);
  }

  /** The carries cancel out. */
  lemma Doubled(b: bv24)
    requires b & 0x80_0000 == 0
    ensures Three(Up(b)) == Step(Three(b))
  {
    hide Steps, Step, Xor16, Shl, Low, Carry, Three, Byte0, Byte1, Byte2, Up;
    var x, y, z := Low(Byte0(b)), Low(Byte1(b)), Low(Byte2(b));
    var p, q := Carry(Byte1(b)), Carry(Byte2(b));
    DoubledBytes(b);
    ThreeParts(b);
    ThreeParts(Up(b));
    OneUp(Byte0(b), 32);
    OneUp(Byte1(b), 24);
    OneUp(Byte2(b), 16);
    LowStep(Byte1(b));
    LowStep(Byte2(b));
    CarryUp(p, 24);
    CarryUp(q, 16);
    StepsLinear(Shl(x), p, 32);
    StepsLinear(Xor16(Shl(y), p << 8), q, 24);
    StepsLinear(Shl(y), p << 8, 24);
    StepsLinear(Shl(z), q << 8, 16);
    Cancel(Steps(x, 33), Steps(y, 25), Steps(z, 17), Steps(p, 32), Steps(q, 24));
    StepLinear(Xor16(Steps(x, 32), Steps(y, 24)), Steps(z, 16));
    StepLinear(Steps(x, 32), Steps(y, 24));
    OneMore(x, 32);
    OneMore(y, 24);
    OneMore(z, 16);
  }

  lemma OneMore(c: bv16, n: nat)
    ensures Steps(c, n + 1) == Step(Steps(c, n))
  {
    hide Step;
  }

  lemma OneUp(b: bv8, n: nat)
    ensures Steps(Shl(Low(b)), n) == Steps(Low(b), n + 1)
  {
    hide Step, Shl, Low;
    LowStep(b);
    assert Steps(Low(b), 1) == Step(Steps(Low(b), 0));
    StepsMore(Low(b), 1, n);
  }

  lemma CarryUp(c: bv16, n: nat)
    requires c & 0xff00 == 0
    ensures Steps(c << 8, n) == Steps(c, n + 8)
  {
    hide Steps;
    LowByte(c);
    StepsMore(c, 8, n);
  }

  /** The bits above sixteen bits moved up n times. */
  function Room(n: nat): bv24 {
    if n == 0 then 0xff_0000 else Up(Room(n - 1))
  }

  lemma UpClear(b: bv24, m: bv24)
    requires b & m == 0
    ensures Up(b) & Up(m) == 0
  {
  }

  lemma WordRoom(w: bv16)
    ensures (w as bv24) & 0xff_0000 == 0
  {
  }

  lemma {:induction false} SlideRoom(w: bv16, n: nat)
    ensures Slide(w as bv24, n) & Room(n) == 0
  {
    hide Up;
    if n == 0 {
      WordRoom(w);
    } else {
      SlideRoom(w, n - 1);
      UpClear(Slide(w as bv24, n - 1), Room(n - 1));
    }
  }

  lemma RoomTop(n: nat)
    requires n < 8
    ensures Room(n) & 0x80_0000 == 0x80_0000
  {
    assert Room(1) == 0xfe_0000;
    assert Room(2) == 0xfc_0000;
    assert Room(3) == 0xf8_0000;
    assert Room(4) == 0xf0_0000;
    assert Room(5) == 0xe0_0000;
    assert Room(6) == 0xc0_0000;
    assert Room(7) == 0x80_0000;
  }

  lemma TopClear(b: bv24, m: bv24)
    requires b & m == 0 && m & 0x80_0000 == 0x80_0000
    ensures b & 0x80_0000 == 0
  {
  }

  lemma WordBytes(w: bv16)
    ensures Byte0(w as bv24) == 0
    ensures (Byte1(w as bv24) == 0 && Byte2(w as bv24) == 0) <==> w == 0
  {
  }

  lemma {:induction false} BurstLeft(w: bv16, n: nat)
    requires n <= 8
    ensures Three(Slide(w as bv24, n)) == 0 <==> w == 0
  {
    hide Three, Step, Up, Room;
    if n == 0 {
      WordThree(w);
    } else {
      var b := Slide(w as bv24, n - 1);
      BurstLeft(w, n - 1);
      SlideRoom(w, n - 1);
      RoomTop(n - 1);
      TopClear(b, Room(n - 1));
      Doubled(b);
      StepZero(Three(b));
    }
  }

  lemma WordThree(w: bv16)
    ensures Three(w as bv24) == 0 <==> w == 0
  {
    hide Steps, Xor16, High, Byte0, Byte1, Byte2;
    WordBytes(w);
    assert ByteIn(0, 0) == 0 by {
      HighZero(0);
      XorLaws(0, 0, 0);
      StepsZero(0, 8);
    }
    TwoBytes(Byte1(w as bv24), Byte2(w as bv24));
  }

  lemma TripleOf(c: bv16, x: bv8, y: bv8, z: bv8)
    ensures CrcFrom(c, [x, y, z]) == ByteIn(ByteIn(ByteIn(c, x), y), z)
  {
    hide ByteIn;
    assert [x, y, z][..2] == [x, y];
    PairOf(c, x, y);
  }

  /** Three bytes with the bits of b changed. */
  function Hit(x: bv8, y: bv8, z: bv8, b: bv24): seq<bv8> {
    [x ^ Byte0(b), y ^ Byte1(b), z ^ Byte2(b)]
  }

  /** A burst: changes in any way within sixteen consecutive bits, which may lie across three bytes.
      It leaves the CRC the same only if nothing changes. */
  lemma BurstDetected(pre: seq<bv8>, x: bv8, y: bv8, z: bv8, w: bv16, n: nat, post: seq<bv8>)
    requires n <= 8
    ensures Crc(pre + [x, y, z] + post) == Crc(pre + Hit(x, y, z, Slide(w as bv24, n)) + post) <==> w == 0
  {
    hide CrcFrom, Slide, Hit, Three, Xor16;
    var b := Slide(w as bv24, n);
    var hit := Hit(x, y, z, b);
    CrcAppend(0, pre + [x, y, z], post);
    CrcAppend(0, pre + hit, post);
    CrcAppend(0, pre, [x, y, z]);
    CrcAppend(0, pre, hit);
    var c := CrcFrom(0, pre);
    CrcInjective(CrcFrom(c, [x, y, z]), CrcFrom(c, hit), post);
    ThreeMore(c, x, y, z, b);
    BurstLeft(w, n);
    XorSame(CrcFrom(c, [x, y, z]), Three(b));
  }

  lemma ThreeMore(c: bv16, x: bv8, y: bv8, z: bv8, b: bv24)
    ensures CrcFrom(c, Hit(x, y, z, b)) == Xor16(CrcFrom(c, [x, y, z]), Three(b))
  {
    hide ByteIn, Byte0, Byte1, Byte2, Xor16, CrcFrom;
    TripleOf(c, x, y, z);
    TripleOf(c, x ^ Byte0(b), y ^ Byte1(b), z ^ Byte2(b));
    XorLaws(c, 0, 0);
    ByteLinear(c, 0, x, Byte0(b));
    ByteLinear(ByteIn(c, x), ByteIn(0, Byte0(b)), y, Byte1(b));
    ByteLinear(ByteIn(ByteIn(c, x), y), ByteIn(ByteIn(0, Byte0(b)), Byte1(b)), z, Byte2(b));
  }

  lemma XorSame(a: bv16, b: bv16)
    ensures Xor16(a, b) == a <==> b == 0
  {
  }

  // ---------------------------------------------------------------- the CRC behind its data

  function UpperByte(c: bv16): bv8 {
    ((c >> 8) & 0xff) as bv8
  }

  function LowerByte(c: bv16): bv8 {
    (c & 0xff) as bv8
  }

  lemma OwnHigh(c: bv16)
    ensures Xor16(c, High(UpperByte(c))) & 0xff00 == 0
    ensures Xor16(c, High(UpperByte(c))) << 8 == High(LowerByte(c))
  {
  }

  /** Two bytes behind a buffer bring the register to 0 if and only if they are the buffer's CRC,
      high byte first. */
  lemma SelfAppend(d: seq<bv8>, hi: bv8, lo: bv8)
    ensures Crc(d + [hi, lo]) == 0 <==> hi == UpperByte(Crc(d)) && lo == LowerByte(Crc(d))
  {
    hide ByteIn, CrcFrom, UpperByte, LowerByte;
    var c := CrcFrom(0, d);
    CrcAppend(0, d, [hi, lo]);
    PairOf(c, hi, lo);
    OwnCrc(c);
    PairExactly(c, hi, lo, UpperByte(c), LowerByte(c));
  }

  lemma OwnCrc(c: bv16)
    ensures ByteIn(ByteIn(c, UpperByte(c)), LowerByte(c)) == 0
  {
    hide Steps, Xor16, High, UpperByte, LowerByte;
    OwnHigh(c);
    LowByte(Xor16(c, High(UpperByte(c))));
    XorLaws(High(LowerByte(c)), 0, 0);
    StepsZero(0, 8);
  }

  // ---------------------------------------------------------------- parity

  /** Whether the n upper bits hold an odd number of ones. */
  function Odd(c: bv16, n: nat): bool
    decreases n
  {
    if n == 0 then false else Top(c) != Odd(Shl(c), n - 1)
  }

  /** Whether the buffer holds an odd number of ones. */
  function OddBits(d: seq<bv8>): bool {
    if d == [] then false else OddBits(d[..|d| - 1]) != Odd(High(d[|d| - 1]), 16)
  }

  lemma {:induction false} OddXor(a: bv16, b: bv16, n: nat)
    ensures Odd(Xor16(a, b), n) == (Odd(a, n) != Odd(b, n))
    decreases n
  {
    hide Xor16, Shl, Top;
    if n > 0 {
      ShlXor(a, b);
      TopXor(a, b);
      OddXor(Shl(a), Shl(b), n - 1);
    }
  }

  function ShlN(c: bv16, n: nat): bv16
    decreases n
  {
    if n == 0 then c else ShlN(Shl(c), n - 1)
  }

  /** The last of n + 1 bits apart. */
  lemma {:induction false} OddLast(c: bv16, n: nat)
    ensures Odd(c, n + 1) == (Odd(c, n) != Top(ShlN(c, n)))
    decreases n
  {
    hide Shl, Top;
    if n > 0 {
      OddLast(Shl(c), n - 1);
    } else {
      assert Odd(c, 1) == (Top(c) != Odd(Shl(c), 0));
    }
  }

  lemma Shl4(c: bv16)
    ensures ShlN(c, 4) == c << 4
  {
    assert ShlN(c, 4) == ShlN(Shl(c), 3);
    assert ShlN(Shl(c), 3) == ShlN(Shl(Shl(c)), 2);
    assert ShlN(Shl(Shl(c)), 2) == ShlN(Shl(Shl(Shl(c))), 1);
  }

  lemma {:induction false} ShlMore(c: bv16, m: nat, n: nat)
    ensures ShlN(c, m + n) == ShlN(ShlN(c, m), n)
    decreases m
  {
    hide Shl;
    if m > 0 {
      ShlMore(Shl(c), m - 1, n);
    }
  }

  /** After sixteen shifts nothing is left. */
  lemma ShlAll(c: bv16)
    ensures ShlN(c, 16) == 0
  {
    hide ShlN;
    ShlMore(c, 4, 12);
    ShlMore(c << 4, 4, 8);
    ShlMore(c << 4 << 4, 4, 4);
    Shl4(c);
    Shl4(c << 4);
    Shl4(c << 4 << 4);
    Shl4(c << 4 << 4 << 4);
    Gone(c);
  }

  lemma Gone(c: bv16)
    ensures c << 4 << 4 << 4 << 4 == 0
  {
  }

  lemma PolyOdd()
    ensures Odd(POLY, 16)
  {
    assert Odd(0x8000, 1);
    assert Odd(0x4000, 2);
    assert Odd(0x2000, 3);
    assert Odd(0x1000, 4);
    assert Odd(0x0800, 5);
    assert !Odd(0x8400, 6);
    assert !Odd(0x4200, 7);
    assert !Odd(0x2100, 8);
    assert !Odd(0x1080, 9);
    assert !Odd(0x0840, 10);
    assert !Odd(0x0420, 11);
    assert !Odd(0x0210, 12);
    assert Odd(0x8108, 13);
    assert Odd(0x4084, 14);
    assert Odd(0x2042, 15);
  }

  /** The generator has the factor x + 1, so a turn keeps the parity of the register. */
  lemma StepOdd(c: bv16)
    ensures Odd(Step(c), 16) == Odd(c, 16)
  {
    hide Xor16, Shl, Top;
    var s := Shl(c);
    assert Odd(c, 16) == (Top(c) != Odd(s, 15));
    OddLast(s, 15);
    ShlAll(c);
    assert ShlN(c, 16) == ShlN(s, 15);
    TopZero();
    OddXor(s, POLY, 16);
    PolyOdd();
  }

  lemma TopZero()
    ensures !Top(0)
  {
  }

  lemma {:induction false} StepsOdd(c: bv16, n: nat)
    ensures Odd(Steps(c, n), 16) == Odd(c, 16)
  {
    hide Step, Odd;
    if n > 0 {
      StepsOdd(c, n - 1);
      StepOdd(Steps(c, n - 1));
    }
  }

  lemma {:induction false} OddZero(n: nat)
    ensures !Odd(0, n)
  {
    assert Shl(0) == 0 && !Top(0);
    if n > 0 {
      OddZero(n - 1);
    }
  }

  /** The CRC has the parity of the data. */
  lemma {:induction false} CrcParity(d: seq<bv8>)
    ensures Odd(Crc(d), 16) == OddBits(d)
    decreases |d|
  {
    hide Odd, Steps, Xor16, High;
    if d == [] {
      OddZero(16);
    } else {
      var n := |d| - 1;
      CrcParity(d[..n]);
      OddXor(Crc(d[..n]), High(d[n]), 16);
      StepsOdd(Xor16(Crc(d[..n]), High(d[n])), 8);
    }
  }

  /** Buffers of which one has an odd and one an even number of ones have different CRCs. */
  lemma OddDetected(d: seq<bv8>, e: seq<bv8>)
    requires OddBits(d) != OddBits(e)
    ensures Crc(d) != Crc(e)
  {
    hide Odd, OddBits, Crc;
    CrcParity(d);
    CrcParity(e);
  }
}
