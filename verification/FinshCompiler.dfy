/** The child/sibling syntax tree of finsh, its meaning, and its translation to byte code. */
module FinshCompiler {
  import opened Basics
  import opened FinshWords
  import opened FinshMachine

  /** FINSH_DATA_TYPE_*: only VOID and DWORD arise in the 32-bit fragment. */
  datatype DataType = Void | Dword

  /** What an identifier resolves to: the value cell of a user variable, or a system call.
      `pointerToVoid` marks a variable of type `void*`. */
  datatype Symbol = Variable(address: Word, pointerToVoid: bool) | Syscall(function_: Word)

  datatype Kind =
    | Id(symbol: Symbol)
    | Value(v: Word)
    | Binary(op: ArithOp)
    | Bitwise
    | Func
    | Assign
    | PreInc
    | PreDec
    | Inc
    | Dec
    | GetValue
    | GetAddr

  /** A node with its list of siblings. `isAddr` and `dataType` are what type checking fills in. */
  datatype Tree = Nil | Node(kind: Kind, isAddr: bool, dataType: DataType, child: Tree, sibling: Tree)

  // ---------------------------------------------------------------- type checking

  /** Which addressing mode a node hands to its child. */
  function ChildMode(kind: Kind, isAddr: bool): bool {
    if kind.Assign? || kind.PreInc? || kind.PreDec? || kind.GetAddr? then true
    else if kind.GetValue? && isAddr then false
    else isAddr
  }

  predicate IsSyscall(kind: Kind) {
    kind.Id? && kind.symbol.Syscall?
  }

  function LeafType(kind: Kind, dataType: DataType): DataType {
    if kind.Value? || (kind.Id? && kind.symbol.Variable?) then Dword else dataType
  }

  /** finsh_type_check. */
  function TypeCheck(t: Tree, isAddr: bool): (r: Tree)
    ensures r.Nil? <==> t.Nil?
  {
    if t.Nil? then Nil else
    var child := TypeCheck(t.child, ChildMode(t.kind, isAddr));
    var sibling := TypeCheck(t.sibling, false);
    Node(t.kind,
         if IsSyscall(t.kind) then t.isAddr else t.isAddr || isAddr,
         if child.Node? then child.dataType else LeafType(t.kind, t.dataType),
         child, sibling)
  }

  // ---------------------------------------------------------------- code generation

  function Length(t: Tree): nat {
    if t.Nil? then 0 else 1 + Length(t.sibling)
  }

  /** Load the variable, add or subtract one, store: the core of `++` and `--`. */
  function StepCode(address: Word, op: ArithOp): (code: seq<Byte>)
    ensures |code| == 12
  {
    Wide(LD_VALUE_DWORD, address) + (Wide(LD_DWORD, 1) + [ArithCode(op), ST_DWORD])
  }

  /** The code a node emits for itself, after its children's and before its siblings'. */
  function OwnCode(t: Tree): seq<Byte>
    requires t.Node?
  {
    match t.kind
    case Id(Syscall(f)) => Wide(LD_DWORD, f)
    case Id(Variable(a, pointerToVoid)) =>
      if pointerToVoid then [] else Wide(if t.isAddr then LD_DWORD else LD_VALUE_DWORD, a)
    case Value(v) => Wide(LD_DWORD, v)
    case Binary(op) => if t.dataType.Dword? then [ArithCode(op)] else []
    case Bitwise => if t.dataType.Dword? then [BITWISE_DWORD] else []
    case Func => if t.child.Node? then [SYSCALL, (Length(t.child.sibling) % 0x100) as Byte] else []
    case Assign =>
      if t.child.Node? && (t.child.kind.Id? || t.child.kind.GetValue?) && t.child.dataType.Dword?
      then [ST_DWORD, LD_VALUE_DWORD_STACK] else []
    case PreInc => if Steps(t) then StepCode(t.child.kind.symbol.address, Add) + [LD_VALUE_DWORD_STACK] else []
    case PreDec => if Steps(t) then StepCode(t.child.kind.symbol.address, Sub) + [LD_VALUE_DWORD_STACK] else []
    case Inc =>
      if Steps(t) then Wide(LD_DWORD, t.child.kind.symbol.address) + (StepCode(t.child.kind.symbol.address, Add) + [POP])
      else []
    case Dec =>
      if Steps(t) then Wide(LD_DWORD, t.child.kind.symbol.address) + (StepCode(t.child.kind.symbol.address, Sub) + [POP])
      else []
    case GetValue => if !t.isAddr && t.dataType.Dword? then [LD_VALUE_DWORD_STACK] else []
    case GetAddr => []
  }

  /** The operand of `++` or `--` is a variable whose width has code. */
  predicate Steps(t: Tree)
    requires t.Node?
  {
    t.child.Node? && t.child.kind.Id? && t.child.kind.symbol.Variable? && t.dataType.Dword?
  }

  /** finsh_compile of a node and its siblings. */
  function Code(t: Tree): seq<Byte>
    decreases t, 1
  {
    if t.Nil? then [] else NodeCode(t) + Code(t.sibling)
  }

  /** finsh_compile of a node cut off from its siblings. */
  function NodeCode(t: Tree): seq<Byte>
    requires t.Node?
    decreases t, 0
  {
    Code(t.child) + OwnCode(t)
  }

  /** FINSH_ERROR_UNKNOWN_TYPE: the target of an assignment has no width. */
  predicate OwnFails(t: Tree)
    requires t.Node?
  {
    t.kind.Assign? && t.child.Node? && (t.child.kind.Id? || t.child.kind.GetValue?) && !t.child.dataType.Dword?
  }

  /** Compiling a node and its siblings sets an error. */
  predicate CodeFails(t: Tree)
    decreases t, 1
  {
    t.Node? && (NodeFails(t) || CodeFails(t.sibling))
  }

  predicate NodeFails(t: Tree)
    requires t.Node?
    decreases t, 0
  {
    CodeFails(t.child) || OwnFails(t)
  }

  /** The statement loop of finsh_compiler_run: a POP between statements, none after the last. */
  function StatementsCode(t: Tree): seq<Byte> {
    if t.Nil? then [] else
    NodeCode(t) + if t.sibling.Nil? then [] else [POP] + StatementsCode(t.sibling)
  }

  // ---------------------------------------------------------------- meaning

  /** The value of an expression and the memory it leaves; None when it faults. Siblings of t
      itself play no part. */
  function Eval(t: Tree, m: Memory, host: Host): Option<(Word, Memory)>
    decreases t, 0
  {
    if t.Nil? then None else
    match t.kind
    case Id(Syscall(f)) => Some((f, m))
    case Id(Variable(a, _)) => var v :- Load(m, a); Some((v, m))
    case Value(v) => Some((v, m))
    case Binary(op) =>
      if t.child.Nil? then None else
      var (x, m1) :- Eval(t.child, m, host);
      var (y, m2) :- Eval(t.child.sibling, m1, host);
      var v :- host.arith(op, x, y);
      Some((v, m2))
    case Bitwise =>
      var (x, m1) :- Eval(t.child, m, host);
      Some((host.complement(x), m1))
    case Func =>
      if t.child.Nil? then None else
      var (f, m1) :- Eval(t.child, m, host);
      var (args, m2) :- EvalList(t.child.sibling, m1, host);
      Some(host.call(f, Passed(args), m2))
    case Assign =>
      if t.child.Nil? then None else
      var (a, m1) :- EvalAddr(t.child, m, host);
      var (v, m2) :- Eval(t.child.sibling, m1, host);
      var m3 :- Store(m2, a, v);
      Some((v, m3))
    case PreInc => var (_, v, m') :- EvalStep(t.child, Add, m, host); Some((v, m'))
    case PreDec => var (_, v, m') :- EvalStep(t.child, Sub, m, host); Some((v, m'))
    case Inc => var (v, _, m') :- EvalStep(t.child, Add, m, host); Some((v, m'))
    case Dec => var (v, _, m') :- EvalStep(t.child, Sub, m, host); Some((v, m'))
    case GetValue =>
      var (a, m1) :- Eval(t.child, m, host);
      var v :- Load(m1, a);
      Some((v, m1))
    case GetAddr => EvalAddr(t.child, m, host)
  }

  /** The address an lvalue designates: of a variable, of `*e`, or of a system call. */
  function EvalAddr(t: Tree, m: Memory, host: Host): Option<(Word, Memory)>
    decreases t, 0
  {
    if t.Nil? then None else
    match t.kind
    case Id(Syscall(f)) => Some((f, m))
    case Id(Variable(a, _)) => Some((a, m))
    case GetValue => Eval(t.child, m, host)
    case _ => None
  }

  /** Old value, new value and memory of a variable stepped by one. */
  function EvalStep(t: Tree, op: ArithOp, m: Memory, host: Host): Option<(Word, Word, Memory)> {
    if t.Nil? || !t.kind.Id? || !t.kind.symbol.Variable? then None else
    var v :- Load(m, t.kind.symbol.address);
    var v' :- host.arith(op, v, 1);
    var m' :- Store(m, t.kind.symbol.address, v');
    Some((v, v', m'))
  }

  /** Arguments, evaluated and collected in source order. */
  function EvalList(t: Tree, m: Memory, host: Host): Option<(seq<Word>, Memory)>
    decreases t, 1
  {
    if t.Nil? then Some(([], m)) else
    var (v, m1) :- Eval(t, m, host);
    var (vs, m2) :- EvalList(t.sibling, m1, host);
    Some(([v] + vs, m2))
  }

  /** A statement list: the last statement's value counts, memory is handed on. */
  function EvalStatements(t: Tree, m: Memory, host: Host): Option<(Word, Memory)> {
    if t.Nil? then None else
    var (v, m1) :- Eval(t, m, host);
    if t.sibling.Nil? then Some((v, m1)) else EvalStatements(t.sibling, m1, host)
  }

  // ---------------------------------------------------------------- the compiled fragment

  /** The data type of the leftmost leaf. */
  function LeftmostType(t: Tree): DataType
    requires t.Node?
  {
    if t.child.Node? then LeftmostType(t.child) else LeafType(t.kind, t.dataType)
  }

  predicate PlainVariable(t: Tree) {
    t.Node? && !t.isAddr && t.child.Nil? && t.kind.Id? && t.kind.symbol.Variable? && !t.kind.symbol.pointerToVoid
  }

  /** A single operand of type DWORD. */
  predicate Only(t: Tree) {
    t.Node? && t.sibling.Nil?
  }

  /** Expressions the compiler translates as they are meant: an operator's leftmost leaf is not a
      system call, no `void*` variable occurs, `++` and `--` apply to variables, the target of an
      assignment is a variable or `*e`, calls have at most sixteen arguments. */
  predicate WellTyped(t: Tree)
    decreases t, 0
  {
    t.Node? && !t.isAddr &&
    match t.kind
    case Id(Syscall(_)) => t.child.Nil?
    case Id(Variable(_, _)) => PlainVariable(t)
    case Value(_) => t.child.Nil?
    case Binary(_) =>
      t.child.Node? && Only(t.child.sibling) && WellTyped(t.child) && WellTyped(t.child.sibling) &&
      LeftmostType(t.child).Dword?
    case Bitwise => Only(t.child) && WellTyped(t.child) && LeftmostType(t.child).Dword?
    case Func =>
      t.child.Node? && WellTyped(t.child) && WellTypedList(t.child.sibling) &&
      Length(t.child.sibling) <= PARAMETER_MAX
    case Assign =>
      t.child.Node? && Only(t.child.sibling) && WellTypedTarget(t.child) && WellTyped(t.child.sibling) &&
      LeftmostType(t.child).Dword?
    case PreInc => Only(t.child) && PlainVariable(t.child)
    case PreDec => Only(t.child) && PlainVariable(t.child)
    case Inc => Only(t.child) && PlainVariable(t.child)
    case Dec => Only(t.child) && PlainVariable(t.child)
    case GetValue => Only(t.child) && WellTyped(t.child) && LeftmostType(t.child).Dword?
    case GetAddr => Only(t.child) && WellTypedTarget(t.child)
  }

  /** Expressions with an address: variables, system calls and `*e`. */
  predicate WellTypedTarget(t: Tree)
    decreases t, 0
  {
    t.Node? && !t.isAddr &&
    match t.kind
    case Id(Syscall(_)) => t.child.Nil?
    case Id(Variable(_, _)) => PlainVariable(t)
    case GetValue => Only(t.child) && WellTyped(t.child)
    case _ => false
  }

  /** Argument and statement lists. */
  predicate WellTypedList(t: Tree)
    decreases t, 1
  {
    t.Node? ==> WellTyped(t) && WellTypedList(t.sibling)
  }

  function Max(a: nat, b: nat): nat {
    if a < b then b else a
  }

  /** Stack cells the code of an expression needs. */
  function Depth(t: Tree): nat
    decreases t, 0
  {
    if t.Nil? then 0 else
    match t.kind
    case Id(_) => 1
    case Value(_) => 1
    case Binary(_) => if t.child.Nil? then 0 else Max(Depth(t.child), 1 + Depth(t.child.sibling))
    case Bitwise => Depth(t.child)
    case Func => if t.child.Nil? then 0 else Max(Depth(t.child), 1 + ListDepth(t.child.sibling))
    case Assign => if t.child.Nil? then 0 else Max(Depth(t.child), 1 + Depth(t.child.sibling))
    case PreInc => 3
    case PreDec => 3
    case Inc => 4
    case Dec => 4
    case GetValue => Depth(t.child)
    case GetAddr => Depth(t.child)
  }

  /** Stack cells a list needs when every value stays on the stack. */
  function ListDepth(t: Tree): nat
    decreases t, 1
  {
    if t.Nil? then 0 else Max(Depth(t), 1 + ListDepth(t.sibling))
  }

  /** Stack cells a statement list needs: every value but the last is popped. */
  function StatementsDepth(t: Tree): nat {
    if t.Nil? then 0 else Max(Depth(t), StatementsDepth(t.sibling))
  }
}
