/** Compiler correctness: running the code of a well-typed tree is evaluating the tree. */
module FinshCorrect {
  import opened Basics
  import opened FinshWords
  import opened FinshMachine
  import opened FinshCompiler

  /** The rest of the run once an expression has produced its value on top of `stack`. */
  function Continue(text: seq<Byte>, host: Host, pc: nat, stack: seq<Word>, r: Option<(Word, Memory)>): Option<State>
    requires pc <= |text|
  {
    match r
    case None => None
    case Some((v, m)) => Run(text, host, State(pc, stack + [v], m))
  }

  // ---------------------------------------------------------------- single instructions

  /** The first turn of a run. */
  lemma RunStep(text: seq<Byte>, host: Host, s: State)
    requires s.pc < |text|
    ensures Run(text, host, s) ==
            match Step(text, host, s)
            case None => None
            case Some(s') => Run(text, host, s')
  {
    hide Step;
  }

  lemma RunLoadConstant(text: seq<Byte>, host: Host, s: State, v: Word)
    requires Holds(text, s.pc, Wide(LD_DWORD, v)) && |s.stack| < STACK_MAX
    ensures Run(text, host, s) == Run(text, host, State(s.pc + 5, s.stack + [v], s.mem))
  {
    hide Run, Holds, Wide, Load;
    WideOperand(text, s.pc, LD_DWORD, v);
    RunStep(text, host, s);
  }

  lemma RunLoadVariable(text: seq<Byte>, host: Host, s: State, a: Word)
    requires Holds(text, s.pc, Wide(LD_VALUE_DWORD, a)) && |s.stack| < STACK_MAX
    ensures Run(text, host, s) ==
            match Load(s.mem, a)
            case None => None
            case Some(v) => Run(text, host, State(s.pc + 5, s.stack + [v], s.mem))
  {
    hide Run, Holds, Wide, Load;
    WideOperand(text, s.pc, LD_VALUE_DWORD, a);
    RunStep(text, host, s);
  }

  lemma RunArith(text: seq<Byte>, host: Host, pc: nat, stack: seq<Word>, x: Word, y: Word, m: Memory, op: ArithOp)
    requires Holds(text, pc, [ArithCode(op)])
    ensures Run(text, host, State(pc, stack + [x] + [y], m)) ==
            match host.arith(op, x, y)
            case None => None
            case Some(v) => Run(text, host, State(pc + 1, stack + [v], m))
  {
    hide Run, Holds;
    HoldsAt(text, pc, [ArithCode(op)], 0);
    var s := State(pc, stack + [x] + [y], m);
    assert Second(s) == x && Top(s) == y;
    assert s.stack[..|s.stack| - 2] == stack;
    RunStep(text, host, s);
  }

  lemma RunComplement(text: seq<Byte>, host: Host, pc: nat, stack: seq<Word>, x: Word, m: Memory)
    requires Holds(text, pc, [BITWISE_DWORD])
    ensures Run(text, host, State(pc, stack + [x], m)) ==
            Run(text, host, State(pc + 1, stack + [host.complement(x)], m))
  {
    hide Run, Holds;
    HoldsAt(text, pc, [BITWISE_DWORD], 0);
    assert (stack + [x])[..|stack|] == stack;
    RunStep(text, host, State(pc, stack + [x], m));
  }

  lemma RunLoadIndirect(text: seq<Byte>, host: Host, pc: nat, stack: seq<Word>, a: Word, m: Memory)
    requires Holds(text, pc, [LD_VALUE_DWORD_STACK])
    ensures Run(text, host, State(pc, stack + [a], m)) ==
            match Load(m, a)
            case None => None
            case Some(v) => Run(text, host, State(pc + 1, stack + [v], m))
  {
    hide Run, Holds, Load;
    HoldsAt(text, pc, [LD_VALUE_DWORD_STACK], 0);
    assert (stack + [a])[..|stack|] == stack;
    RunStep(text, host, State(pc, stack + [a], m));
  }

  lemma RunStore(text: seq<Byte>, host: Host, pc: nat, stack: seq<Word>, a: Word, v: Word, m: Memory)
    requires Holds(text, pc, [ST_DWORD])
    ensures Run(text, host, State(pc, stack + [a] + [v], m)) ==
            match Store(m, a, v)
            case None => None
            case Some(m') => Run(text, host, State(pc + 1, stack + [a], m'))
  {
    hide Run, Holds, Store;
    HoldsAt(text, pc, [ST_DWORD], 0);
    var s := State(pc, stack + [a] + [v], m);
    assert Second(s) == a && Top(s) == v;
    assert s.stack[..|s.stack| - 1] == stack + [a];
    RunStep(text, host, s);
  }

  lemma RunPop(text: seq<Byte>, host: Host, pc: nat, stack: seq<Word>, v: Word, m: Memory)
    requires Holds(text, pc, [POP])
    ensures Run(text, host, State(pc, stack + [v], m)) == Run(text, host, State(pc + 1, stack, m))
  {
    hide Run, Holds;
    HoldsAt(text, pc, [POP], 0);
    assert (stack + [v])[..|stack|] == stack;
    RunStep(text, host, State(pc, stack + [v], m));
  }

  lemma RunCall(text: seq<Byte>, host: Host, pc: nat, stack: seq<Word>, f: Word, args: seq<Word>, m: Memory)
    requires |args| <= PARAMETER_MAX && Holds(text, pc, [SYSCALL, |args| as Byte])
    ensures Run(text, host, State(pc, stack + [f] + args, m)) ==
            Continue(text, host, pc + 2, stack, Some(host.call(f, Passed(args), m)))
  {
    hide Run, Holds;
    HoldsAt(text, pc, [SYSCALL, |args| as Byte], 0);
    HoldsAt(text, pc, [SYSCALL, |args| as Byte], 1);
    var s := State(pc, stack + [f] + args, m);
    var n := |s.stack|;
    assert s.stack[n - |args|..] == args;
    assert s.stack[n - |args| - 1] == f;
    assert s.stack[..n - |args| - 1] == stack;
    RunStep(text, host, s);
  }

  // ---------------------------------------------------------------- compound instructions

  /** ST; LD_VALUE_STACK leaves the stored value. */
  lemma RunStoreReload(text: seq<Byte>, host: Host, pc: nat, stack: seq<Word>, a: Word, v: Word, m: Memory)
    requires Holds(text, pc, [ST_DWORD, LD_VALUE_DWORD_STACK])
    ensures Run(text, host, State(pc, stack + [a] + [v], m)) ==
            match Store(m, a, v)
            case None => None
            case Some(m') => Run(text, host, State(pc + 2, stack + [v], m'))
  {
    assert [ST_DWORD, LD_VALUE_DWORD_STACK] == [ST_DWORD] + [LD_VALUE_DWORD_STACK];
    HoldsSplit(text, pc, [ST_DWORD], [LD_VALUE_DWORD_STACK]);
    RunStore(text, host, pc, stack, a, v, m);
    if Mapped(m, a) {
      LoadAfterStore(m, a, v);
      RunLoadIndirect(text, host, pc + 1, stack, a, Store(m, a, v).value);
    }
  }

  /** With its address on the stack, a variable is stepped; the address stays. */
  lemma RunStepCode(text: seq<Byte>, host: Host, pc: nat, stack: seq<Word>, t: Tree, op: ArithOp, m: Memory)
    requires PlainVariable(t) && |stack| + 3 <= STACK_MAX
    requires Holds(text, pc, StepCode(t.kind.symbol.address, op))
    ensures Run(text, host, State(pc, stack + [t.kind.symbol.address], m)) ==
            match EvalStep(t, op, m, host)
            case None => None
            case Some((_, _, m')) => Run(text, host, State(pc + 12, stack + [t.kind.symbol.address], m'))
    ensures match EvalStep(t, op, m, host)
            case None => true
            case Some((_, v, m')) => Load(m', t.kind.symbol.address) == Some(v)
  {
    hide Holds, Run, Step;
    var a := t.kind.symbol.address;
    HoldsSplit(text, pc, Wide(LD_VALUE_DWORD, a), Wide(LD_DWORD, 1) + [ArithCode(op), ST_DWORD]);
    HoldsSplit(text, pc + 5, Wide(LD_DWORD, 1), [ArithCode(op), ST_DWORD]);
    assert [ArithCode(op), ST_DWORD] == [ArithCode(op)] + [ST_DWORD];
    HoldsSplit(text, pc + 10, [ArithCode(op)], [ST_DWORD]);
    RunLoadVariable(text, host, State(pc, stack + [a], m), a);
    if Load(m, a).Some? {
      var v := Load(m, a).value;
      RunLoadConstant(text, host, State(pc + 5, stack + [a] + [v], m), 1);
      RunArith(text, host, pc + 10, stack + [a], v, 1, m, op);
      if host.arith(op, v, 1).Some? {
        RunStore(text, host, pc + 11, stack, a, host.arith(op, v, 1).value, m);
        LoadAfterStore(m, a, host.arith(op, v, 1).value);
      }
    }
  }

  lemma RunPreStep(text: seq<Byte>, host: Host, pc: nat, stack: seq<Word>, t: Tree, op: ArithOp, m: Memory)
    requires PlainVariable(t) && |stack| + 3 <= STACK_MAX
    requires Holds(text, pc, Wide(LD_DWORD, t.kind.symbol.address) +
                             (StepCode(t.kind.symbol.address, op) + [LD_VALUE_DWORD_STACK]))
    ensures Run(text, host, State(pc, stack, m)) ==
            match EvalStep(t, op, m, host)
            case None => None
            case Some((_, v, m')) => Run(text, host, State(pc + 18, stack + [v], m'))
  {
    hide Holds, Run, Step, EvalStep, StepCode, Wide, Load;
    var a := t.kind.symbol.address;
    HoldsSplit(text, pc, Wide(LD_DWORD, a), StepCode(a, op) + [LD_VALUE_DWORD_STACK]);
    HoldsSplit(text, pc + 5, StepCode(a, op), [LD_VALUE_DWORD_STACK]);
    RunLoadConstant(text, host, State(pc, stack, m), a);
    RunStepCode(text, host, pc + 5, stack, t, op, m);
    match EvalStep(t, op, m, host)
    case None =>
    case Some((_, v, m')) =>
      RunLoadIndirect(text, host, pc + 17, stack, a, m');
  }

  lemma RunPostStep(text: seq<Byte>, host: Host, pc: nat, stack: seq<Word>, t: Tree, op: ArithOp, m: Memory)
    requires PlainVariable(t) && |stack| + 4 <= STACK_MAX
    requires Holds(text, pc, Wide(LD_VALUE_DWORD, t.kind.symbol.address) +
                             (Wide(LD_DWORD, t.kind.symbol.address) + (StepCode(t.kind.symbol.address, op) + [POP])))
    ensures Run(text, host, State(pc, stack, m)) ==
            match EvalStep(t, op, m, host)
            case None => None
            case Some((v, _, m')) => Run(text, host, State(pc + 23, stack + [v], m'))
  {
    hide Holds, Run, Step, StepCode, Wide;
    var a := t.kind.symbol.address;
    HoldsSplit(text, pc, Wide(LD_VALUE_DWORD, a), Wide(LD_DWORD, a) + (StepCode(a, op) + [POP]));
    HoldsSplit(text, pc + 5, Wide(LD_DWORD, a), StepCode(a, op) + [POP]);
    HoldsSplit(text, pc + 10, StepCode(a, op), [POP]);
    RunLoadVariable(text, host, State(pc, stack, m), a);
    if Load(m, a).Some? {
      var v := Load(m, a).value;
      RunLoadConstant(text, host, State(pc + 5, stack + [v], m), a);
      RunStepCode(text, host, pc + 10, stack + [v], t, op, m);
      match EvalStep(t, op, m, host)
      case None =>
      case Some((_, _, m')) =>
        RunPop(text, host, pc + 22, stack + [v], a, m');
    }
  }

  // ---------------------------------------------------------------- expressions

  /** The code of a well-typed expression, from any stack and memory, either faults exactly when
      evaluation does, or pushes exactly the value of the expression, leaves every cell below
      untouched and memory as evaluation leaves it. */
  lemma {:induction false} ValueCorrect(t: Tree, text: seq<Byte>, host: Host, pc: nat, stack: seq<Word>, m: Memory)
    requires WellTyped(t) && |stack| + Depth(t) <= STACK_MAX
    requires Holds(text, pc, NodeCode(TypeCheck(t, false)))
    ensures Run(text, host, State(pc, stack, m)) ==
            Continue(text, host, pc + |NodeCode(TypeCheck(t, false))|, stack, Eval(t, m, host))
    decreases t, 1
  {
    hide Holds, Run, Step, TypeCheck, NodeCode, Code, OwnCode, Wide, StepCode;
    match t.kind
    case Id(Syscall(f)) => LeafCode(t); RunLoadConstant(text, host, State(pc, stack, m), f);
    case Id(Variable(a, _)) => LeafCode(t); RunLoadVariable(text, host, State(pc, stack, m), a);
    case Value(v) => LeafCode(t); RunLoadConstant(text, host, State(pc, stack, m), v);
    case Binary(_) => BinaryCorrect(t, text, host, pc, stack, m);
    case Func => CallCorrect(t, text, host, pc, stack, m);
    case Assign => AssignCorrect(t, text, host, pc, stack, m);
    case PreInc => StepTree(t); RunPreStep(text, host, pc, stack, t.child, Add, m);
    case PreDec => StepTree(t); RunPreStep(text, host, pc, stack, t.child, Sub, m);
    case Inc => StepTree(t); RunPostStep(text, host, pc, stack, t.child, Add, m);
    case Dec => StepTree(t); RunPostStep(text, host, pc, stack, t.child, Sub, m);
    case Bitwise => UnaryCorrect(t, text, host, pc, stack, m);
    case GetValue => UnaryCorrect(t, text, host, pc, stack, m);
    case GetAddr => UnaryCorrect(t, text, host, pc, stack, m);
  }

  /** A leaf compiles to one load. */
  lemma LeafCode(t: Tree)
    requires WellTyped(t) && (t.kind.Id? || t.kind.Value?)
    ensures NodeCode(TypeCheck(t, false)) ==
            match t.kind
            case Id(Variable(a, _)) => Wide(LD_VALUE_DWORD, a)
            case Id(Syscall(f)) => Wide(LD_DWORD, f)
            case Value(v) => Wide(LD_DWORD, v)
            case _ => []
  {
    hide Step, Wide;
    var t' := TypeCheck(t, false);
    assert t'.child == Nil;
    assert NodeCode(t') == [] + OwnCode(t') == OwnCode(t');
  }

  lemma {:induction false} BinaryCorrect(t: Tree, text: seq<Byte>, host: Host, pc: nat, stack: seq<Word>, m: Memory)
    requires t.Node? && WellTyped(t) && t.kind.Binary? && |stack| + Depth(t) <= STACK_MAX
    requires Holds(text, pc, NodeCode(TypeCheck(t, false)))
    ensures Run(text, host, State(pc, stack, m)) ==
            Continue(text, host, pc + |NodeCode(TypeCheck(t, false))|, stack, Eval(t, m, host))
    decreases t, 0
  {
    hide Holds, Run, Step;
    var t' := TypeCheck(t, false);
    TypeCheckType(t.child, false);
    HoldsSplit(text, pc, Code(t'.child), OwnCode(t'));
    PairCorrect(t.child, text, host, pc, stack, m);
    if Eval(t.child, m, host).Some? {
      var (x, m1) := Eval(t.child, m, host).value;
      if Eval(t.child.sibling, m1, host).Some? {
        var (y, m2) := Eval(t.child.sibling, m1, host).value;
        RunArith(text, host, pc + |Code(t'.child)|, stack, x, y, m2, t.kind.op);
      }
    }
  }

  lemma {:induction false} UnaryCorrect(t: Tree, text: seq<Byte>, host: Host, pc: nat, stack: seq<Word>, m: Memory)
    requires t.Node? && WellTyped(t) && (t.kind.Bitwise? || t.kind.GetValue? || t.kind.GetAddr?)
    requires |stack| + Depth(t) <= STACK_MAX
    requires Holds(text, pc, NodeCode(TypeCheck(t, false)))
    ensures Run(text, host, State(pc, stack, m)) ==
            Continue(text, host, pc + |NodeCode(TypeCheck(t, false))|, stack, Eval(t, m, host))
    decreases t, 0
  {
    hide Holds, Run, Step, Eval, EvalAddr, Depth, WellTyped, WellTypedTarget, TypeCheck, Code, NodeCode, OwnCode;
    var mode := t.kind.GetAddr?;
    var c := Code(TypeCheck(t.child, mode));
    var own := UnaryOwn(t.kind);
    UnaryShape(t, m, host);
    HoldsSplit(text, pc, c, own);
    if t.kind.GetAddr? {
      OnlyTargetCorrect(t.child, text, host, pc, stack, m);
    } else {
      OnlyCorrect(t.child, text, host, pc, stack, m);
      if Eval(t.child, m, host).Some? {
        var (x, m1) := Eval(t.child, m, host).value;
        if t.kind.Bitwise? {
          RunComplement(text, host, pc + |c|, stack, x, m1);
        } else {
          RunLoadIndirect(text, host, pc + |c|, stack, x, m1);
        }
      }
    }
  }

  function UnaryOwn(kind: Kind): seq<Byte> {
    if kind.GetAddr? then [] else if kind.Bitwise? then [BITWISE_DWORD] else [LD_VALUE_DWORD_STACK]
  }

  /** What a well-typed unary node compiles to and means, in terms of its operand. */
  lemma UnaryShape(t: Tree, m: Memory, host: Host)
    requires WellTyped(t) && (t.kind.Bitwise? || t.kind.GetValue? || t.kind.GetAddr?)
    ensures NodeCode(TypeCheck(t, false)) == Code(TypeCheck(t.child, t.kind.GetAddr?)) + UnaryOwn(t.kind)
    ensures Only(t.child) && Depth(t.child) == Depth(t)
    ensures if t.kind.GetAddr? then WellTypedTarget(t.child) else WellTyped(t.child)
    ensures Eval(t, m, host) ==
            if t.kind.GetAddr? then EvalAddr(t.child, m, host) else
            match Eval(t.child, m, host)
            case None => None
            case Some((x, m1)) =>
              if t.kind.Bitwise? then Some((host.complement(x), m1)) else
              match Load(m1, x)
              case None => None
              case Some(v) => Some((v, m1))
  {
    TypeCheckType(t.child, ChildMode(t.kind, false));
  }

  /** Type checking gives every node the type of its leftmost leaf. */
  lemma {:induction false} TypeCheckType(t: Tree, isAddr: bool)
    requires t.Node?
    ensures TypeCheck(t, isAddr).dataType == LeftmostType(t)
  {
    hide Step;
    if t.child.Node? {
      TypeCheckType(t.child, ChildMode(t.kind, isAddr));
    }
  }

  /** No error is set for what the compiler translates as it is meant. */
  lemma {:induction false} ValueCompiles(t: Tree)
    requires WellTyped(t)
    ensures !NodeFails(TypeCheck(t, false))
    decreases t, 0
  {
    hide LeftmostType;
    match t.kind
    case Id(_) =>
    case Value(_) =>
    case Binary(_) => ValueCompiles(t.child); OnlyCompiles(t.child.sibling);
    case Bitwise => OnlyCompiles(t.child);
    case Func => ValueCompiles(t.child); ListCompiles(t.child.sibling);
    case Assign =>
      TargetCompiles(t.child);
      OnlyCompiles(t.child.sibling);
      TypeCheckType(t.child, true);
    case PreInc => VariableCompiles(t.child, true);
    case PreDec => VariableCompiles(t.child, true);
    case Inc => VariableCompiles(t.child, false);
    case Dec => VariableCompiles(t.child, false);
    case GetValue => OnlyCompiles(t.child);
    case GetAddr => TargetCompiles(t.child); assert !CodeFails(TypeCheck(t.child, true));
  }

  lemma VariableCompiles(t: Tree, isAddr: bool)
    requires Only(t) && PlainVariable(t)
    ensures !CodeFails(TypeCheck(t, isAddr))
  {
    var t' := TypeCheck(t, isAddr);
    assert t' == Node(t.kind, t.isAddr || isAddr, Dword, Nil, Nil);
    assert !NodeFails(t');
  }

  lemma {:induction false} OnlyCompiles(t: Tree)
    requires Only(t) && WellTyped(t)
    ensures !CodeFails(TypeCheck(t, false))
    decreases t, 1
  {
    hide WellTyped, NodeFails;
    ValueCompiles(t);
  }

  lemma {:induction false} TargetCompiles(t: Tree)
    requires WellTypedTarget(t)
    ensures !NodeFails(TypeCheck(t, true))
    decreases t, 0
  {
    if t.kind.GetValue? {
      OnlyCompiles(t.child);
    }
  }

  lemma {:induction false} ListCompiles(t: Tree)
    requires WellTypedList(t)
    ensures !CodeFails(TypeCheck(t, false))
    decreases t, 1
  {
    hide WellTyped, NodeFails;
    if t.Node? {
      ValueCompiles(t);
      ListCompiles(t.sibling);
    }
  }

  /** The code of `++`/`--` on a plain variable, child and own part together. */
  lemma StepTree(t: Tree)
    requires WellTyped(t) && (t.kind.PreInc? || t.kind.PreDec? || t.kind.Inc? || t.kind.Dec?)
    ensures var a := t.child.kind.symbol.address;
            NodeCode(TypeCheck(t, false)) ==
            match t.kind
            case PreInc => Wide(LD_DWORD, a) + (StepCode(a, Add) + [LD_VALUE_DWORD_STACK])
            case PreDec => Wide(LD_DWORD, a) + (StepCode(a, Sub) + [LD_VALUE_DWORD_STACK])
            case Inc => Wide(LD_VALUE_DWORD, a) + (Wide(LD_DWORD, a) + (StepCode(a, Add) + [POP]))
            case _ => Wide(LD_VALUE_DWORD, a) + (Wide(LD_DWORD, a) + (StepCode(a, Sub) + [POP]))
  {
    hide Step;
    var a := t.child.kind.symbol.address;
    var t' := TypeCheck(t, false);
    var c := TypeCheck(t.child, ChildMode(t.kind, false));
    assert t'.child == c;
    assert c == Node(t.child.kind, ChildMode(t.kind, false), Dword, Nil, Nil);
    assert t'.dataType == Dword;
    assert OwnCode(c) == Wide(if c.isAddr then LD_DWORD else LD_VALUE_DWORD, a);
    assert Code(c) == [] + OwnCode(c) + [] == OwnCode(c);
    assert Steps(t');
  }

  /** A lone operand: its code is the code of its list. */
  lemma {:induction false} OnlyCorrect(t: Tree, text: seq<Byte>, host: Host, pc: nat, stack: seq<Word>, m: Memory)
    requires Only(t) && WellTyped(t) && |stack| + Depth(t) <= STACK_MAX
    requires Holds(text, pc, Code(TypeCheck(t, false)))
    ensures Run(text, host, State(pc, stack, m)) ==
            Continue(text, host, pc + |Code(TypeCheck(t, false))|, stack, Eval(t, m, host))
    decreases t, 2
  {
    hide Holds, Run, Step, Eval, WellTyped, Depth, OwnCode;
    assert Code(TypeCheck(t, false)) == NodeCode(TypeCheck(t, false)) + [] == NodeCode(TypeCheck(t, false));
    ValueCorrect(t, text, host, pc, stack, m);
  }

  lemma {:induction false} OnlyTargetCorrect(t: Tree, text: seq<Byte>, host: Host, pc: nat, stack: seq<Word>, m: Memory)
    requires Only(t) && WellTypedTarget(t) && |stack| + Depth(t) <= STACK_MAX
    requires Holds(text, pc, Code(TypeCheck(t, true)))
    ensures Run(text, host, State(pc, stack, m)) ==
            Continue(text, host, pc + |Code(TypeCheck(t, true))|, stack, EvalAddr(t, m, host))
    decreases t, 2
  {
    hide Holds, Run, Step, Eval, EvalAddr, WellTyped, WellTypedTarget, Depth, OwnCode;
    assert Code(TypeCheck(t, true)) == NodeCode(TypeCheck(t, true)) + [] == NodeCode(TypeCheck(t, true));
    TargetCorrect(t, text, host, pc, stack, m);
  }

  /** In address mode the code of an lvalue pushes its address. */
  lemma {:induction false} TargetCorrect(t: Tree, text: seq<Byte>, host: Host, pc: nat, stack: seq<Word>, m: Memory)
    requires WellTypedTarget(t) && |stack| + Depth(t) <= STACK_MAX
    requires Holds(text, pc, NodeCode(TypeCheck(t, true)))
    ensures Run(text, host, State(pc, stack, m)) ==
            Continue(text, host, pc + |NodeCode(TypeCheck(t, true))|, stack, EvalAddr(t, m, host))
    decreases t, 0
  {
    hide Holds, Run, Step;
    var t' := TypeCheck(t, true);
    HoldsSplit(text, pc, Code(t'.child), OwnCode(t'));
    match t.kind
    case Id(Syscall(f)) => RunLoadConstant(text, host, State(pc, stack, m), f);
    case Id(Variable(a, _)) => RunLoadConstant(text, host, State(pc, stack, m), a);
    case GetValue => OnlyCorrect(t.child, text, host, pc, stack, m);
  }

  /** Two operands one after the other. */
  lemma {:induction false} PairCorrect(t: Tree, text: seq<Byte>, host: Host, pc: nat, stack: seq<Word>, m: Memory)
    requires t.Node? && WellTyped(t) && Only(t.sibling) && WellTyped(t.sibling)
    requires |stack| + Max(Depth(t), 1 + Depth(t.sibling)) <= STACK_MAX
    requires Holds(text, pc, Code(TypeCheck(t, false)))
    ensures Run(text, host, State(pc, stack, m)) ==
            match Eval(t, m, host)
            case None => None
            case Some((x, m1)) =>
              Continue(text, host, pc + |Code(TypeCheck(t, false))|, stack + [x], Eval(t.sibling, m1, host))
    decreases t, 2
  {
    hide Holds, Run, Step, Eval, WellTyped, Depth, OwnCode;
    var t' := TypeCheck(t, false);
    assert t.Node? && t'.sibling == TypeCheck(t.sibling, false);
    HoldsSplit(text, pc, NodeCode(t'), Code(t'.sibling));
    ValueCorrect(t, text, host, pc, stack, m);
    match Eval(t, m, host)
    case None =>
    case Some((x, m1)) =>
      OnlyCorrect(t.sibling, text, host, pc + |NodeCode(t')|, stack + [x], m1);
  }

  lemma {:induction false} AssignCorrect(t: Tree, text: seq<Byte>, host: Host, pc: nat, stack: seq<Word>, m: Memory)
    requires t.Node? && t.child.Node? && WellTyped(t) && t.kind.Assign? && |stack| + Depth(t) <= STACK_MAX
    requires Holds(text, pc, NodeCode(TypeCheck(t, false)))
    ensures Run(text, host, State(pc, stack, m)) ==
            Continue(text, host, pc + |NodeCode(TypeCheck(t, false))|, stack, Eval(t, m, host))
    decreases t, 0
  {
    hide Holds, Run, Step, Eval, EvalAddr, Depth, WellTyped, WellTypedTarget, TypeCheck, OwnCode;
    var c := TypeCheck(t.child, true);
    var rhs := t.child.sibling;
    AssignShape(t, m, host);
    HoldsSplit(text, pc, Code(c), [ST_DWORD, LD_VALUE_DWORD_STACK]);
    HoldsSplit(text, pc, NodeCode(c), Code(c.sibling));
    TargetCorrect(t.child, text, host, pc, stack, m);
    if EvalAddr(t.child, m, host).Some? {
      var (a, m1) := EvalAddr(t.child, m, host).value;
      OnlyCorrect(rhs, text, host, pc + |NodeCode(c)|, stack + [a], m1);
      if Eval(rhs, m1, host).Some? {
        var (v, m2) := Eval(rhs, m1, host).value;
        RunStoreReload(text, host, pc + |Code(c)|, stack, a, v, m2);
      }
    }
  }

  /** What a well-typed assignment compiles to and means, in terms of its target and right side. */
  lemma AssignShape(t: Tree, m: Memory, host: Host)
    requires WellTyped(t) && t.kind.Assign?
    ensures WellTypedTarget(t.child) && Only(t.child.sibling) && WellTyped(t.child.sibling)
    ensures NodeCode(TypeCheck(t, false)) == Code(TypeCheck(t.child, true)) + [ST_DWORD, LD_VALUE_DWORD_STACK]
    ensures TypeCheck(t.child, true).sibling == TypeCheck(t.child.sibling, false)
    ensures Depth(t) == Max(Depth(t.child), 1 + Depth(t.child.sibling))
    ensures Eval(t, m, host) ==
            match EvalAddr(t.child, m, host)
            case None => None
            case Some((a, m1)) =>
              match Eval(t.child.sibling, m1, host)
              case None => None
              case Some((v, m2)) =>
                match Store(m2, a, v)
                case None => None
                case Some(m3) => Some((v, m3))
  {
    TypeCheckType(t.child, true);
  }

  lemma {:induction false} CallCorrect(t: Tree, text: seq<Byte>, host: Host, pc: nat, stack: seq<Word>, m: Memory)
    requires t.Node? && t.child.Node? && WellTyped(t) && t.kind.Func? && |stack| + Depth(t) <= STACK_MAX
    requires Holds(text, pc, NodeCode(TypeCheck(t, false)))
    ensures Run(text, host, State(pc, stack, m)) ==
            Continue(text, host, pc + |NodeCode(TypeCheck(t, false))|, stack, Eval(t, m, host))
    decreases t, 0
  {
    hide Holds, Run, Step, Eval, EvalList, Depth, ListDepth, WellTyped, WellTypedList, TypeCheck, OwnCode;
    var c := TypeCheck(t.child, false);
    var args := t.child.sibling;
    CallShape(t, m, host);
    HoldsSplit(text, pc, Code(c), [SYSCALL, Length(args) as Byte]);
    HoldsSplit(text, pc, NodeCode(c), Code(c.sibling));
    ValueCorrect(t.child, text, host, pc, stack, m);
    if Eval(t.child, m, host).Some? {
      var (f, m1) := Eval(t.child, m, host).value;
      ListCorrect(args, text, host, pc + |NodeCode(c)|, stack + [f], m1);
      EvalListLength(args, m1, host);
      if EvalList(args, m1, host).Some? {
        var (vs, m2) := EvalList(args, m1, host).value;
        RunCall(text, host, pc + |Code(c)|, stack, f, vs, m2);
      }
    }
  }

  /** What a well-typed call compiles to and means, in terms of its function and arguments. */
  lemma CallShape(t: Tree, m: Memory, host: Host)
    requires WellTyped(t) && t.kind.Func?
    ensures WellTyped(t.child) && WellTypedList(t.child.sibling) && Length(t.child.sibling) <= PARAMETER_MAX
    ensures NodeCode(TypeCheck(t, false)) == Code(TypeCheck(t.child, false)) + [SYSCALL, Length(t.child.sibling) as Byte]
    ensures TypeCheck(t.child, false).sibling == TypeCheck(t.child.sibling, false)
    ensures t.child.Node? && Depth(t) == Max(Depth(t.child), 1 + ListDepth(t.child.sibling))
    ensures Eval(t, m, host) ==
            match Eval(t.child, m, host)
            case None => None
            case Some((f, m1)) =>
              match EvalList(t.child.sibling, m1, host)
              case None => None
              case Some((args, m2)) => Some(host.call(f, Passed(args), m2))
  {
    TypeCheckLength(t.child.sibling, false);
  }

  lemma {:induction false} TypeCheckLength(t: Tree, isAddr: bool)
    ensures Length(TypeCheck(t, isAddr)) == Length(t)
  {
    hide Step;
    if t.Node? {
      TypeCheckLength(t.sibling, false);
    }
  }

  lemma {:induction false} EvalListLength(t: Tree, m: Memory, host: Host)
    ensures EvalList(t, m, host).Some? ==> |EvalList(t, m, host).value.0| == Length(t)
  {
    hide Step;
    if t.Node? && Eval(t, m, host).Some? {
      EvalListLength(t.sibling, Eval(t, m, host).value.1, host);
    }
  }

  /** The arguments of a call end up on the stack in source order. */
  lemma {:induction false} ListCorrect(t: Tree, text: seq<Byte>, host: Host, pc: nat, stack: seq<Word>, m: Memory)
    requires WellTypedList(t) && |stack| + ListDepth(t) <= STACK_MAX
    requires Holds(text, pc, Code(TypeCheck(t, false)))
    ensures Run(text, host, State(pc, stack, m)) ==
            match EvalList(t, m, host)
            case None => None
            case Some((vs, m')) => Run(text, host, State(pc + |Code(TypeCheck(t, false))|, stack + vs, m'))
    decreases t, 2
  {
    hide Holds, Run, Step, Eval, WellTyped, Depth, OwnCode;
    if t.Nil? {
      assert stack + [] == stack;
    } else {
      var t' := TypeCheck(t, false);
      HoldsSplit(text, pc, NodeCode(t'), Code(t'.sibling));
      ValueCorrect(t, text, host, pc, stack, m);
      match Eval(t, m, host)
      case None =>
      case Some((v, m1)) =>
        ListCorrect(t.sibling, text, host, pc + |NodeCode(t')|, stack + [v], m1);
        match EvalList(t.sibling, m1, host)
        case None =>
        case Some((vs, m2)) =>
          assert stack + [v] + vs == stack + ([v] + vs);
    }
  }

  // ---------------------------------------------------------------- statement lists

  lemma {:induction false} StatementsCorrect(t: Tree, text: seq<Byte>, host: Host, pc: nat, m: Memory)
    requires t.Node? && WellTypedList(t) && StatementsDepth(t) <= STACK_MAX
    requires Holds(text, pc, StatementsCode(TypeCheck(t, false)))
    ensures Run(text, host, State(pc, [], m)) ==
            Continue(text, host, pc + |StatementsCode(TypeCheck(t, false))|, [], EvalStatements(t, m, host))
  {
    hide Holds, Run, Step, Eval, WellTyped, Depth, OwnCode;
    var t' := TypeCheck(t, false);
    var rest := if t'.sibling.Nil? then [] else [POP] + StatementsCode(t'.sibling);
    HoldsSplit(text, pc, NodeCode(t'), rest);
    ValueCorrect(t, text, host, pc, [], m);
    if t.sibling.Node? {
      HoldsSplit(text, pc + |NodeCode(t')|, [POP], StatementsCode(t'.sibling));
      match Eval(t, m, host)
      case None =>
      case Some((v, m1)) =>
        RunPop(text, host, pc + |NodeCode(t')|, [], v, m1);
        StatementsCorrect(t.sibling, text, host, pc + |NodeCode(t')| + 1, m1);
    }
  }

  /** The text segment after compilation: the code, then zeros. */
  predicate TextOf(text: seq<Byte>, code: seq<Byte>) {
    |text| == TEXT_MAX && Holds(text, 0, code) && forall k :: |code| <= k < |text| ==> text[k] == NOOP
  }

  lemma CodeFits(text: seq<Byte>, code: seq<Byte>)
    requires Holds(text, 0, code)
    ensures |code| <= |text|
  {
  }

  /** Compiler correctness. A well-typed statement list that fits the text segment and the stack,
      compiled and run from an empty stack, ends with exactly one live cell, slot 0, holding the
      value of its last statement, and with the memory evaluation leaves; it faults exactly when
      evaluation does. */
  lemma CompilerCorrect(t: Tree, text: seq<Byte>, host: Host, m: Memory)
    requires t.Node? && WellTypedList(t) && StatementsDepth(t) <= STACK_MAX
    requires TextOf(text, StatementsCode(TypeCheck(t, false)))
    ensures Run(text, host, State(0, [], m)) ==
            match EvalStatements(t, m, host)
            case None => None
            case Some((v, m')) => Some(State(TEXT_MAX, [v], m'))
  {
    hide Step, Run, Holds, EvalStatements, StatementsDepth, StatementsCode, TypeCheck, WellTypedList;
    var n := |StatementsCode(TypeCheck(t, false))|;
    StatementsCorrect(t, text, host, 0, m);
    CodeFits(text, StatementsCode(TypeCheck(t, false)));
    match EvalStatements(t, m, host)
    case None =>
    case Some((v, m')) =>
      assert [] + [v] == [v];
      ZeroTail(text, host, State(n, [] + [v], m'));
  }
}
