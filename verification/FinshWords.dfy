/** Machine words, bytes and the byte-addressed memory that finsh code works on. */
module FinshWords {
  import opened Basics

  newtype Word = x: int | 0 <= x < 0x1_0000_0000

  /** The mapped part of the address space; touching any other address is a fault. */
  type Memory = map<Word, Byte>

  /** FINSH_SET32: little-endian, one byte per shift. */
  function Set32(v: Word): (bs: seq<Byte>)
    ensures |bs| == 4
    ensures Get32(bs[0], bs[1], bs[2], bs[3]) == v
  {
    var v8 := v / 0x100;
    var v16 := v8 / 0x100;
    var v24 := v16 / 0x100;
    [(v % 0x100) as Byte, (v8 % 0x100) as Byte, (v16 % 0x100) as Byte, v24 as Byte]
  }

  /** FINSH_GET32. */
  function Get32(b0: Byte, b1: Byte, b2: Byte, b3: Byte): Word {
    (b0 as int + 0x100 * b1 as int + 0x1_0000 * b2 as int + 0x100_0000 * b3 as int) as Word
  }

  /** Address arithmetic wraps at 2^32. */
  function Offset(a: Word, k: nat): Word {
    ((a as int + k) % 0x1_0000_0000) as Word
  }

  /** Four consecutive bytes are mapped. */
  predicate Mapped(m: Memory, a: Word) {
    a in m && Offset(a, 1) in m && Offset(a, 2) in m && Offset(a, 3) in m
  }

  /** A 32-bit load: None is the fault of an unmapped address. */
  function Load(m: Memory, a: Word): Option<Word> {
    if Mapped(m, a) then Some(Get32(m[a], m[Offset(a, 1)], m[Offset(a, 2)], m[Offset(a, 3)])) else None
  }

  /** A 32-bit store. */
  function Store(m: Memory, a: Word, v: Word): Option<Memory> {
    var bs := Set32(v);
    if Mapped(m, a)
    then Some(m[a := bs[0]][Offset(a, 1) := bs[1]][Offset(a, 2) := bs[2]][Offset(a, 3) := bs[3]])
    else None
  }

  /** What was stored is what is loaded, no other byte changes, and nothing becomes mapped or unmapped. */
  lemma LoadAfterStore(m: Memory, a: Word, v: Word)
    requires Mapped(m, a)
    ensures Store(m, a, v).Some?
    ensures Load(Store(m, a, v).value, a) == Some(v)
    ensures Store(m, a, v).value.Keys == m.Keys
    ensures forall x :: x in m && x !in {a, Offset(a, 1), Offset(a, 2), Offset(a, 3)} ==>
                          Store(m, a, v).value[x] == m[x]
  {
  }

  /** The k-th address from a on, round the end of the address space. */
  predicate Follows(a: Word, k: int, b: Word) {
    b as int == a as int + k || b as int == a as int + k - 0x1_0000_0000
  }

  /** A word is stored in the four bytes from its address on, the lowest byte first. */
  lemma LittleEndian(m: Memory, a: Word, a1: Word, a2: Word, a3: Word, v: Word)
    requires Follows(a, 1, a1) && Follows(a, 2, a2) && Follows(a, 3, a3)
    ensures Store(m, a, v).Some? <==> a in m && a1 in m && a2 in m && a3 in m
    ensures Store(m, a, v).Some? ==>
              var m' := Store(m, a, v).value;
              m'.Keys == m.Keys && (forall x :: x in m && x !in {a, a1, a2, a3} ==> m'[x] == m[x]) &&
              v as int == m'[a] as int + 0x100 * m'[a1] as int + 0x1_0000 * m'[a2] as int + 0x100_0000 * m'[a3] as int
  {
    var bs := Set32(v);
    Composed(bs[0], bs[1], bs[2], bs[3]);
  }

  lemma Composed(b0: Byte, b1: Byte, b2: Byte, b3: Byte)
    ensures Get32(b0, b1, b2, b3) as int == b0 as int + 0x100 * b1 as int + 0x1_0000 * b2 as int + 0x100_0000 * b3 as int
  {
  }

}
