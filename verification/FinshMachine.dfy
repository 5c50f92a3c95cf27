/** The finsh virtual machine as a function of the byte code: one step per opcode of
    `op_table`, iterated until the program counter leaves the text segment. */
module FinshMachine {
  import opened Basics
  import opened FinshWords

  const STACK_MAX: nat := 64
  const TEXT_MAX: nat := 128
  const PARAMETER_MAX: nat := 16

  datatype ArithOp = Add | Sub | Div | Mod | Mul | And | Or | Xor | Shl | Shr

  /** What the machine takes from its host: the meaning of the C operators on two longs
      (None where C leaves it undefined, such as division by zero), of `~`, and of calling the
      code at an address, which returns a value and may change memory. */
  datatype Host = Host(
    arith: (ArithOp, Word, Word) -> Option<Word>,
    complement: Word -> Word,
    call: (Word, seq<Word>, Memory) -> (Word, Memory))

  const NOOP: Byte := 0x00
  const BITWISE_DWORD: Byte := 0x1B
  const LD_DWORD: Byte := 0x24
  const LD_VALUE_DWORD: Byte := 0x27
  const ST_DWORD: Byte := 0x2A
  const POP: Byte := 0x2B
  const SYSCALL: Byte := 0x2C
  const LD_VALUE_DWORD_STACK: Byte := 0x2F

  /** The opcode of the DWORD form of a binary operator. */
  function ArithCode(op: ArithOp): (b: Byte)
    ensures ArithOf(b) == Some(op)
  {
    match op
    case Add => 0x03
    case Sub => 0x06
    case Div => 0x09
    case Mod => 0x0C
    case Mul => 0x0F
    case And => 0x12
    case Or => 0x15
    case Xor => 0x18
    case Shl => 0x1E
    case Shr => 0x21
  }

  /** The operator an opcode applies, by its place in `op_table`. */
  function ArithOf(b: Byte): Option<ArithOp> {
    match b
    case 3 => Some(Add)
    case 6 => Some(Sub)
    case 9 => Some(Div)
    case 12 => Some(Mod)
    case 15 => Some(Mul)
    case 18 => Some(And)
    case 21 => Some(Or)
    case 24 => Some(Xor)
    case 30 => Some(Shl)
    case 33 => Some(Shr)
    case _ => None
  }

  /** op_table has the byte, word and long forms of one operator after the other. */
  lemma OpcodeOrder(k: nat)
    requires k < 11
    ensures var long := 3 * (k + 1);
            if k == 8 then BITWISE_DWORD as int == long
            else ArithCode([Add, Sub, Div, Mod, Mul, And, Or, Xor, Add, Shl, Shr][k]) as int == long
  {
  }

  /** `stack` holds the live cells: those below the stack pointer, slot 0 first. */
  datatype State = State(pc: nat, stack: seq<Word>, mem: Memory)

  function Top(s: State): Word
    requires |s.stack| > 0
  {
    s.stack[|s.stack| - 1]
  }

  function Second(s: State): Word
    requires |s.stack| > 1
  {
    s.stack[|s.stack| - 2]
  }

  /** The machine state after pushing v and moving to pc; None when the stack is full. */
  function Push(s: State, pc: nat, v: Word): Option<State> {
    if |s.stack| < STACK_MAX then Some(State(pc, s.stack + [v], s.mem)) else None
  }

  /** The arguments a call with n parameters passes: a call without parameters passes one zero. */
  function Passed(args: seq<Word>): seq<Word> {
    if args == [] then [0] else args
  }

  /** One turn of the fetch/execute loop. None is a fault: stack overflow or underflow, an
      operand past the end of the text, an unmapped address, an undefined C operation, or an
      opcode outside the DWORD set. */
  function Step(text: seq<Byte>, host: Host, s: State): (r: Option<State>)
    requires s.pc < |text|
    ensures r.Some? ==> s.pc < r.value.pc <= |text|
  {
    var op := text[s.pc];
    var pc := s.pc + 1;
    var n := |s.stack|;
    if op == NOOP then Some(s.(pc := pc))
    else if ArithOf(op).Some? then
      if n < 2 then None else
      var v :- host.arith(ArithOf(op).value, Second(s), Top(s));
      Some(State(pc, s.stack[..n - 2] + [v], s.mem))
    else if op == BITWISE_DWORD then
      if n < 1 then None else Some(State(pc, s.stack[..n - 1] + [host.complement(Top(s))], s.mem))
    else if op == LD_DWORD then
      if pc + 4 > |text| then None else Push(s, pc + 4, Get32(text[pc], text[pc + 1], text[pc + 2], text[pc + 3]))
    else if op == LD_VALUE_DWORD then
      if pc + 4 > |text| then None else
      var v :- Load(s.mem, Get32(text[pc], text[pc + 1], text[pc + 2], text[pc + 3]));
      Push(s, pc + 4, v)
    else if op == LD_VALUE_DWORD_STACK then
      if n < 1 then None else
      var v :- Load(s.mem, Top(s));
      Some(State(pc, s.stack[..n - 1] + [v], s.mem))
    else if op == ST_DWORD then
      if n < 2 then None else
      var m :- Store(s.mem, Second(s), Top(s));
      Some(State(pc, s.stack[..n - 1], m))
    else if op == POP then
      if n < 1 then None else Some(State(pc, s.stack[..n - 1], s.mem))
    else if op == SYSCALL then
      if pc >= |text| then None else
      var k := text[pc] as nat;
      if k > PARAMETER_MAX || n < k + 1 then None else
      var (v, m) := host.call(s.stack[n - k - 1], Passed(s.stack[n - k..]), s.mem);
      Some(State(pc + 1, s.stack[..n - k - 1] + [v], m))
    else None
  }

  /** The run to the end of the text segment: it always ends, as every step advances the pc. */
  function Run(text: seq<Byte>, host: Host, s: State): (r: Option<State>)
    requires s.pc <= |text|
    ensures r.Some? ==> r.value.pc == |text|
    decreases |text| - s.pc
  {
    if s.pc == |text| then Some(s) else
    var s' :- Step(text, host, s);
    Run(text, host, s')
  }

  /** `code` lies in the text segment at pc. */
  predicate Holds(text: seq<Byte>, pc: nat, code: seq<Byte>) {
    pc + |code| <= |text| && text[pc..pc + |code|] == code
  }

  lemma HoldsSplit(text: seq<Byte>, pc: nat, a: seq<Byte>, b: seq<Byte>)
    requires Holds(text, pc, a + b)
    ensures Holds(text, pc, a) && Holds(text, pc + |a|, b)
    ensures pc + |a| + |b| <= |text|
  {
    assert text[pc..pc + |a|] == (a + b)[..|a|] == a;
    assert text[pc + |a|..pc + |a| + |b|] == (a + b)[|a|..] == b;
  }

  lemma HoldsAt(text: seq<Byte>, pc: nat, code: seq<Byte>, k: nat)
    requires Holds(text, pc, code) && k < |code|
    ensures pc + k < |text| && text[pc + k] == code[k]
  {
    assert text[pc + k] == text[pc..pc + |code|][k];
  }

  /** An opcode with a 32-bit operand. */
  function Wide(op: Byte, v: Word): (code: seq<Byte>)
    ensures |code| == 5
  {
    [op] + Set32(v)
  }

  lemma WideOperand(text: seq<Byte>, pc: nat, op: Byte, v: Word)
    requires Holds(text, pc, Wide(op, v))
    ensures pc + 5 <= |text| && text[pc] == op
    ensures Get32(text[pc + 1], text[pc + 2], text[pc + 3], text[pc + 4]) == v
  {
    HoldsAt(text, pc, Wide(op, v), 0);
    HoldsAt(text, pc, Wide(op, v), 1);
    HoldsAt(text, pc, Wide(op, v), 2);
    HoldsAt(text, pc, Wide(op, v), 3);
    HoldsAt(text, pc, Wide(op, v), 4);
  }

  /** A zero-filled tail runs through without effect. */
  lemma {:induction false} ZeroTail(text: seq<Byte>, host: Host, s: State)
    requires s.pc <= |text|
    requires forall k :: s.pc <= k < |text| ==> text[k] == NOOP
    ensures Run(text, host, s) == Some(s.(pc := |text|))
    decreases |text| - s.pc
  {
    if s.pc < |text| {
      ZeroTail(text, host, s.(pc := s.pc + 1));
    }
  }
}
