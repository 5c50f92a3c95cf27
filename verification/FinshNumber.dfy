/** Conversion of hexadecimal, octal and binary digit strings in two 32-bit limbs. */
module FinshNumber {

  const WORD: int := 0x1_0000_0000

  /** What token_spec_number takes a character for. */
  function DigitOf(c: char): int {
    var t := c as int;
    if 'a' as int <= t <= 'f' as int then t - 'a' as int + 10
    else if 'A' as int <= t <= 'F' as int then t - 'A' as int + 10
    else t - '0' as int
  }

  /** The digits of the bases are the usual ones, in either case. */
  lemma DigitExactly(c: char, d: int)
    requires 0 <= d < 16
    ensures DigitOf(c) == d && (d < 10 || DigitLetter(c)) <==> c == "0123456789abcdef"[d] || c == "0123456789ABCDEF"[d]
  {
  }

  predicate DigitLetter(c: char) {
    'a' <= c <= 'f' || 'A' <= c <= 'F'
  }

  predicate ValidDigits(s: string, base: int) {
    forall i :: 0 <= i < |s| ==> 0 <= DigitOf(s[i]) < base
  }

  /** The positional value. */
  function Value(s: string, base: int): int {
    if s == [] then 0 else base * Value(s[..|s| - 1], base) + DigitOf(s[|s| - 1])
  }

  function ShiftOf(base: int): nat {
    if base == 16 then 4 else if base == 8 then 3 else 1
  }

  function Pow2(n: nat): int {
    if n == 0 then 1 else 2 * Pow2(n - 1)
  }

  /** v << shift in 32 bits; the bits shifted in are clear, so that or-ing in something below
      2^shift is adding it. */
  function ShiftLeft(v: int, shift: nat): int {
    v * Pow2(shift) % WORD
  }

  /** v >> shift. */
  function ShiftRight(v: int, shift: nat): int
    requires Pow2(shift) > 0
  {
    v / Pow2(shift)
  }

  /** A word read as signed. */
  function Signed(v: int): int {
    if v < WORD / 2 then v else v - WORD
  }

  /** The signed word with the same 32 bits. */
  lemma SignedExactly(v: int, d: int)
    requires 0 <= v < 0x1_0000_0000
    ensures d == Signed(v) <==> -0x8000_0000 <= d < 0x8000_0000 && (v == d || v == d + 0x1_0000_0000)
  {
  }

  lemma {:induction false} PowPositive(n: nat)
    ensures Pow2(n) > 0
  {
    if n > 0 {
      PowPositive(n - 1);
    }
  }

  lemma {:induction false} PowAdd(m: nat, n: nat)
    ensures Pow2(m + n) == Pow2(m) * Pow2(n)
  {
    if m > 0 {
      PowAdd(m - 1, n);
    }
  }

  lemma Pow32()
    ensures Pow2(32) == WORD && Pow2(1) == 2 && Pow2(3) == 8 && Pow2(4) == 16
    ensures Pow2(31) == 0x8000_0000 && Pow2(29) == 0x2000_0000 && Pow2(28) == 0x1000_0000
  {
    assert Pow2(8) == 0x100;
    assert Pow2(12) == 0x1000;
    PowAdd(8, 8);
    PowAdd(16, 12);
    assert Pow2(29) == 2 * Pow2(28);
    assert Pow2(30) == 2 * Pow2(29);
    assert Pow2(31) == 2 * Pow2(30);
    assert Pow2(32) == 2 * Pow2(31);
  }

  /** One limb: what is shifted out at the top is what the word loses. */
  lemma LimbShift(base: int, v: int)
    requires base in {2, 8, 16} && 0 <= v < WORD
    ensures Pow2(32 - ShiftOf(base)) > 0
    ensures var low, high := ShiftLeft(v, ShiftOf(base)), ShiftRight(v, 32 - ShiftOf(base));
            base * v == WORD * high + low && 0 <= high < base && 0 <= low <= WORD - base
  {
    Pow32();
    if base == 2 {
      Shifted2(v);
    } else if base == 8 {
      Shifted8(v);
    } else {
      Shifted16(v);
    }
  }

  lemma Shifted2(v: int)
    requires 0 <= v < WORD
    ensures 2 * v == WORD * (v / 0x8000_0000) + v * 2 % WORD && 0 <= v / 0x8000_0000 < 2 && v * 2 % WORD <= WORD - 2
  {
  }

  lemma Shifted8(v: int)
    requires 0 <= v < WORD
    ensures 8 * v == WORD * (v / 0x2000_0000) + v * 8 % WORD && 0 <= v / 0x2000_0000 < 8 && v * 8 % WORD <= WORD - 8
  {
  }

  lemma Shifted16(v: int)
    requires 0 <= v < WORD
    ensures 16 * v == WORD * (v / 0x1000_0000) + v * 16 % WORD && 0 <= v / 0x1000_0000 < 16 && v * 16 % WORD <= WORD - 16
  {
  }

  /** One digit through both limbs: the two words hold base times the value plus the digit, modulo
      2^64. */
  lemma DigitIn(base: int, v0: int, v1: int, t: int)
    requires base in {2, 8, 16} && 0 <= v0 < WORD && 0 <= v1 < WORD && 0 <= t < base
    ensures Pow2(32 - ShiftOf(base)) > 0
    ensures var s := ShiftOf(base);
            var n0, n1 := ShiftLeft(v0, s) + t, ShiftLeft(v1, s) + ShiftRight(v0, 32 - s);
            0 <= n0 < WORD && 0 <= n1 < WORD &&
            n0 + WORD * n1 == (base * (v0 + WORD * v1) + t) % (WORD * WORD)
  {
    hide ShiftLeft, ShiftRight, Pow2;
    LimbShift(base, v0);
    LimbShift(base, v1);
    var s := ShiftOf(base);
    var high := ShiftRight(v1, 32 - s);
    var n0, n1 := ShiftLeft(v0, s) + t, ShiftLeft(v1, s) + ShiftRight(v0, 32 - s);
    var x := base * (v0 + WORD * v1) + t;
    assert base * (v0 + WORD * v1) == base * v0 + WORD * (base * v1) by {
      Distribute(base, v0, v1);
    }
    assert x == (n0 + WORD * n1) + WORD * WORD * high;
  }

  lemma Distribute(base: int, v0: int, v1: int)
    ensures base * (v0 + WORD * v1) == base * v0 + WORD * (base * v1)
  {
  }

  /** Reducing before a step changes nothing. */
  lemma StepMod(base: int, x: int, t: int)
    requires base in {2, 8, 16} && 0 <= x
    ensures (base * (x % (WORD * WORD)) + t) % (WORD * WORD) == (base * x + t) % (WORD * WORD)
  {
  }

  lemma {:induction false} ValueNonNegative(s: string, base: int)
    requires base in {2, 8, 16} && ValidDigits(s, base)
    ensures Value(s, base) >= 0
  {
    if s != [] {
      ValueNonNegative(s[..|s| - 1], base);
    }
  }

  /** token_spec_number: for digits of the base, of any number, the limbs hold the positional value
      modulo 2^64, and the result is that value modulo 2^32 as a signed word. */
  method SpecNumber(s: string, base: int) returns (d: int, ghost limbs: (int, int))
    requires base in {2, 8, 16} && ValidDigits(s, base)
    ensures limbs.0 + WORD * limbs.1 == Value(s, base) % (WORD * WORD)
    ensures d == Signed(Value(s, base) % WORD)
  {
    hide Pow2, ShiftLeft, ShiftRight;
    var shift := ShiftOf(base);
    var bn := new int[2](_ => 0);
    var i := 0;
    while i < |s|
      invariant 0 <= i <= |s| && 0 <= bn[0] < WORD && 0 <= bn[1] < WORD
      invariant bn[0] + WORD * bn[1] == Value(s[..i], base) % (WORD * WORD)
    {
      ghost var v0, v1 := bn[0], bn[1];
      ghost var t0 := DigitOf(s[i]);
      DigitIn(base, v0, v1, t0);
      ValueNonNegative(s[..i], base);
      StepMod(base, Value(s[..i], base), t0);
      assert s[..i + 1][..i] == s[..i];
      LimbShift(base, v1);
      ghost var n0, carry := ShiftLeft(v0, shift) + t0, ShiftRight(v0, 32 - shift);
      var t := DigitOf(s[i]);
      var j := 0;
      while j < 2
        invariant 0 <= j <= 2
        invariant bn[0] == if j == 0 then v0 else n0
        invariant bn[1] == if j < 2 then v1 else ShiftLeft(v1, shift) + carry
        invariant t == if j == 0 then t0 else if j == 1 then carry else t
      {
        var v := bn[j];
        bn[j] := ShiftLeft(v, shift) + t;
        t := ShiftRight(v, 32 - shift);
        j := j + 1;
      }
      i := i + 1;
    }
    assert s[..i] == s;
    limbs := (bn[0], bn[1]);
    ValueNonNegative(s, base);
    LowWord(Value(s, base), bn[0], bn[1]);
    d := if bn[0] < WORD / 2 then bn[0] else bn[0] - WORD;
  }

  lemma LowWord(x: int, v0: int, v1: int)
    requires 0 <= x && 0 <= v0 < WORD && 0 <= v1 < WORD && v0 + WORD * v1 == x % (WORD * WORD)
    ensures x % WORD == v0
  {
    assert x == WORD * WORD * (x / (WORD * WORD)) + v0 + WORD * v1;
  }
}
