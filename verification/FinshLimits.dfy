/** Where finsh's code is not what the expression means: an operator takes its width from its
    leftmost leaf, and a system call there has none. */
module FinshLimits {
  import opened Basics
  import opened FinshWords
  import opened FinshMachine
  import opened FinshCompiler
  import opened FinshCorrect

  /** Both operands of a binary operator are compiled as they are meant. */
  predicate OperandsWellTyped(t: Tree) {
    t.Node? && !t.isAddr && t.child.Node? && Only(t.child.sibling) && WellTyped(t.child) && WellTyped(t.child.sibling)
  }

  lemma BinaryShape(t: Tree)
    requires OperandsWellTyped(t) && t.kind.Binary?
    ensures NodeCode(TypeCheck(t, false)) ==
            Code(TypeCheck(t.child, false)) + if LeftmostType(t.child).Dword? then [ArithCode(t.kind.op)] else []
    ensures Depth(t) == Max(Depth(t.child), 1 + Depth(t.child.sibling))
  {
    TypeCheckType(t.child, false);
  }

  lemma RunEnds(text: seq<Byte>, host: Host, s: State)
    requires s.pc == |text|
    ensures Run(text, host, s) == Some(s)
  {
  }

  /** For operands that are compiled correctly and evaluate, the code of `x op y` pushes its value
      if and only if the leftmost leaf of x has a width; otherwise both operands stay on the stack. */
  lemma OperatorExactly(t: Tree, host: Host, stack: seq<Word>, m: Memory, x: Word, m1: Memory, y: Word, m2: Memory)
    requires OperandsWellTyped(t) && t.kind.Binary? && |stack| + Depth(t) <= STACK_MAX
    requires Eval(t.child, m, host) == Some((x, m1)) && Eval(t.child.sibling, m1, host) == Some((y, m2))
    requires host.arith(t.kind.op, x, y).Some?
    ensures var code := NodeCode(TypeCheck(t, false));
            var v := host.arith(t.kind.op, x, y).value;
            Run(code, host, State(0, stack, m)) ==
            Some(State(|code|, if LeftmostType(t.child).Dword? then stack + [v] else stack + [x] + [y], m2))
    ensures var code := NodeCode(TypeCheck(t, false));
            (Run(code, host, State(0, stack, m)) == Continue(code, host, |code|, stack, Eval(t, m, host))) <==>
            LeftmostType(t.child).Dword?
  {
    hide Run, Step, TypeCheck, NodeCode, Code, OwnCode, WellTyped, Depth;
    var code := NodeCode(TypeCheck(t, false));
    var c := Code(TypeCheck(t.child, false));
    var own: seq<Byte> := if LeftmostType(t.child).Dword? then [ArithCode(t.kind.op)] else [];
    var v := host.arith(t.kind.op, x, y).value;
    BinaryShape(t);
    assert code[0..|code|] == c + own;
    HoldsSplit(code, 0, c, own);
    PairCorrect(t.child, code, host, 0, stack, m);
    RunEnds(code, host, State(|code|, stack + [v], m2));
    if LeftmostType(t.child).Dword? {
      RunArith(code, host, |c|, stack, x, y, m2, t.kind.op);
    } else {
      RunEnds(code, host, State(|code|, stack + [x] + [y], m2));
      assert |stack + [x] + [y]| != |stack + [v]|;
    }
  }

  /** No error is set for an operator, with or without a width. */
  lemma OperatorCompiles(t: Tree)
    requires (OperandsWellTyped(t) && t.kind.Binary?) || OperandWellTyped(t)
    ensures !NodeFails(TypeCheck(t, false))
  {
    hide LeftmostType, WellTyped;
    if t.kind.Binary? {
      ValueCompiles(t.child);
      OnlyCompiles(t.child.sibling);
    } else {
      OnlyCompiles(t.child);
    }
  }

  /** An assignment whose target and right side are compiled correctly. */
  predicate SidesWellTyped(t: Tree) {
    t.Node? && !t.isAddr && t.child.Node? && Only(t.child.sibling) && WellTypedTarget(t.child) && WellTyped(t.child.sibling)
  }

  lemma AssignmentShape(t: Tree)
    requires SidesWellTyped(t) && t.kind.Assign?
    ensures NodeCode(TypeCheck(t, false)) ==
            Code(TypeCheck(t.child, true)) +
            if LeftmostType(t.child).Dword? then [ST_DWORD, LD_VALUE_DWORD_STACK] else []
    ensures Depth(t) == Max(Depth(t.child), 1 + Depth(t.child.sibling))
    ensures TypeCheck(t.child, true).sibling == TypeCheck(t.child.sibling, false)
    ensures TypeCheck(t.child, true).Node?
  {
    TypeCheckType(t.child, true);
  }

  lemma AssignmentMeans(t: Tree, host: Host, m: Memory, a: Word, m1: Memory, v: Word, m2: Memory)
    requires SidesWellTyped(t) && t.kind.Assign? && Mapped(m2, a)
    requires EvalAddr(t.child, m, host) == Some((a, m1)) && Eval(t.child.sibling, m1, host) == Some((v, m2))
    ensures Eval(t, m, host) == Some((v, Store(m2, a, v).value))
  {
  }

  /** Without a width an assignment is refused by the compiler, which sets an error for it; this is
      the only place where a missing width is noticed. */
  lemma AssignmentRefused(t: Tree)
    requires SidesWellTyped(t) && t.kind.Assign?
    ensures NodeFails(TypeCheck(t, false)) <==> !LeftmostType(t.child).Dword?
  {
    hide NodeFails, LeftmostType;
    TypeCheckType(t.child, true);
    TargetCompiles(t.child);
    ValueCompiles(t.child.sibling);
    AssignmentParts(t);
  }

  lemma AssignmentParts(t: Tree)
    requires SidesWellTyped(t) && t.kind.Assign?
    ensures TypeCheck(t.child, true).Node? && TypeCheck(t.child.sibling, false).Node?
    ensures NodeFails(TypeCheck(t, false)) <==>
            NodeFails(TypeCheck(t.child, true)) || NodeFails(TypeCheck(t.child.sibling, false)) ||
            !TypeCheck(t.child, true).dataType.Dword?
  {
    var c := TypeCheck(t.child, true);
    var v := TypeCheck(t.child.sibling, false);
    assert c.sibling == v && v.sibling == Nil;
    assert CodeFails(v) <==> NodeFails(v);
  }

  /** The code emitted for `target = e` stores and pushes the value if and only if the leftmost leaf
      of the target has a width; otherwise, were it run, memory would stay as e leaves it and address
      and value would stay on the stack. */
  lemma AssignmentExactly(t: Tree, host: Host, stack: seq<Word>, m: Memory, a: Word, m1: Memory, v: Word, m2: Memory)
    requires SidesWellTyped(t) && t.kind.Assign? && |stack| + Depth(t) <= STACK_MAX
    requires EvalAddr(t.child, m, host) == Some((a, m1)) && Eval(t.child.sibling, m1, host) == Some((v, m2))
    requires Mapped(m2, a)
    ensures var code := NodeCode(TypeCheck(t, false));
            Run(code, host, State(0, stack, m)) ==
            Some(if LeftmostType(t.child).Dword? then State(|code|, stack + [v], Store(m2, a, v).value)
                 else State(|code|, stack + [a] + [v], m2))
    ensures var code := NodeCode(TypeCheck(t, false));
            (Run(code, host, State(0, stack, m)) == Continue(code, host, |code|, stack, Eval(t, m, host))) <==>
            LeftmostType(t.child).Dword?
  {
    hide Run, Step, TypeCheck, NodeCode, OwnCode, WellTyped, WellTypedTarget, Depth, Eval, EvalAddr, Load;
    AssignmentMeans(t, host, m, a, m1, v, m2);
    var code := NodeCode(TypeCheck(t, false));
    var c := TypeCheck(t.child, true);
    var own: seq<Byte> := if LeftmostType(t.child).Dword? then [ST_DWORD, LD_VALUE_DWORD_STACK] else [];
    AssignmentShape(t);
    LoadAfterStore(m2, a, v);
    var m3 := Store(m2, a, v).value;
    assert code[0..|code|] == Code(c) + own;
    HoldsSplit(code, 0, Code(c), own);
    HoldsSplit(code, 0, NodeCode(c), Code(c.sibling));
    TargetCorrect(t.child, code, host, 0, stack, m);
    OnlyCorrect(t.child.sibling, code, host, |NodeCode(c)|, stack + [a], m1);
    RunEnds(code, host, State(|code|, stack + [v], m3));
    if LeftmostType(t.child).Dword? {
      RunStoreReload(code, host, |Code(c)|, stack, a, v, m2);
    } else {
      RunEnds(code, host, State(|code|, stack + [a] + [v], m2));
      assert |stack + [a] + [v]| != |stack + [v]|;
    }
  }

  /** `~e` and `*e` with an operand that is compiled correctly. */
  predicate OperandWellTyped(t: Tree) {
    t.Node? && !t.isAddr && (t.kind.Bitwise? || t.kind.GetValue?) && Only(t.child) && WellTyped(t.child)
  }

  lemma UnaryParts(t: Tree)
    requires OperandWellTyped(t)
    ensures NodeCode(TypeCheck(t, false)) ==
            Code(TypeCheck(t.child, false)) + if LeftmostType(t.child).Dword? then UnaryOwn(t.kind) else []
    ensures Depth(t.child) == Depth(t)
  {
    TypeCheckType(t.child, false);
  }

  /** What `~e` and `*e` do with the value of e. */
  function Applied(kind: Kind, host: Host, x: Word, m: Memory): Option<Word> {
    if kind.Bitwise? then Some(host.complement(x)) else Load(m, x)
  }

  /** For an operand that is compiled correctly and evaluates to x, the code of `~e` or `*e` applies
      the operator if the leftmost leaf of e has a width and leaves x as it is if not; so it is right
      if and only if there is a width or the operator does not change x. */
  lemma UnaryExactly(t: Tree, host: Host, stack: seq<Word>, m: Memory, x: Word, m1: Memory)
    requires OperandWellTyped(t) && |stack| + Depth(t) <= STACK_MAX
    requires Eval(t.child, m, host) == Some((x, m1))
    ensures var code := NodeCode(TypeCheck(t, false));
            Run(code, host, State(0, stack, m)) ==
            match if LeftmostType(t.child).Dword? then Applied(t.kind, host, x, m1) else Some(x)
            case None => None
            case Some(v) => Some(State(|code|, stack + [v], m1))
    ensures var code := NodeCode(TypeCheck(t, false));
            (Run(code, host, State(0, stack, m)) == Continue(code, host, |code|, stack, Eval(t, m, host))) <==>
            LeftmostType(t.child).Dword? || Applied(t.kind, host, x, m1) == Some(x)
  {
    hide Run, Step, TypeCheck, NodeCode, Code, OwnCode, WellTyped, Depth, Load;
    var code := NodeCode(TypeCheck(t, false));
    var c := Code(TypeCheck(t.child, false));
    var own: seq<Byte> := if LeftmostType(t.child).Dword? then UnaryOwn(t.kind) else [];
    UnaryParts(t);
    assert code[0..|code|] == c + own;
    HoldsSplit(code, 0, c, own);
    OnlyCorrect(t.child, code, host, 0, stack, m);
    RunEnds(code, host, State(|code|, stack + [x], m1));
    var r := Applied(t.kind, host, x, m1);
    if r.Some? {
      RunEnds(code, host, State(|code|, stack + [r.value], m1));
      assert (stack + [r.value])[|stack|] == r.value && (stack + [x])[|stack|] == x;
    }
    if LeftmostType(t.child).Dword? {
      if t.kind.Bitwise? {
        RunComplement(code, host, |c|, stack, x, m1);
      } else {
        RunLoadIndirect(code, host, |c|, stack, x, m1);
      }
    }
  }

  /** A variable emits code if and only if it is not a `void*`; without code its value is missing. */
  lemma VariableExactly(address: Word, pointerToVoid: bool, host: Host, stack: seq<Word>, m: Memory)
    requires Mapped(m, address) && |stack| < STACK_MAX
    ensures var t := Node(Id(Variable(address, pointerToVoid)), false, Void, Nil, Nil);
            var code := NodeCode(TypeCheck(t, false));
            (Run(code, host, State(0, stack, m)) == Continue(code, host, |code|, stack, Eval(t, m, host))) <==>
            !pointerToVoid
  {
    hide Step;
    var t := Node(Id(Variable(address, pointerToVoid)), false, Void, Nil, Nil);
    var code := NodeCode(TypeCheck(t, false));
    var v := Load(m, address).value;
    RunEnds(code, host, State(|code|, stack + [v], m));
    if pointerToVoid {
      assert code == [];
      RunEnds(code, host, State(0, stack, m));
      assert |stack| != |stack + [v]|;
    } else {
      assert code == [] + Wide(LD_VALUE_DWORD, address) == Wide(LD_VALUE_DWORD, address);
      assert code[0..|code|] == code;
      RunLoadVariable(code, host, State(0, stack, m), address);
    }
  }

  /** The input `f() + 1`, f returning 41: 42 is meant, 41 and 1 are left. */
  lemma CallPlusOne(f: Word, m: Memory, host: Host)
    requires host.call(f, [0], m) == (41, m) && host.arith(Add, 41, 1) == Some(42)
    ensures var name := Node(Id(Syscall(f)), false, Void, Nil, Nil);
            var call := Node(Func, false, Void, name, Node(Value(1), false, Void, Nil, Nil));
            var t := Node(Binary(Add), false, Void, call, Nil);
            Eval(t, m, host) == Some((42, m)) &&
            var code := NodeCode(TypeCheck(t, false));
            Run(code, host, State(0, [], m)) == Some(State(|code|, [41, 1], m))
  {
    hide Run, Step, NodeCode, Code;
    var one := Node(Value(1), false, Void, Nil, Nil);
    var name := Node(Id(Syscall(f)), false, Void, Nil, Nil);
    var call := Node(Func, false, Void, name, one);
    var t := Node(Binary(Add), false, Void, call, Nil);
    assert Eval(name, m, host) == Some((f, m));
    assert Passed([]) == [0];
    assert Eval(call, m, host) == Some((41, m));
    assert Eval(one, m, host) == Some((1, m));
    assert Depth(name) == 1 && Depth(one) == 1;
    assert Depth(call) == 1;
    assert WellTyped(name) && WellTyped(one) && WellTyped(call);
    OperatorExactly(t, host, [], m, 41, m, 1, m);
    assert [] + [41 as Word] + [1] == [41, 1];
  }
}
