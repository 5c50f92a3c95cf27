/** Which expressions the compiler translates as they are meant, said on what is written. */
module FinshPlain {
  import opened Basics
  import opened FinshWords
  import opened FinshMachine
  import opened FinshCompiler
  import opened FinshGrammar

  /** An expression has a width if its leftmost operand is a number or a variable, and a leading minus
      gives it one; the name of a system call has none. */
  predicate HasWidth(e: Expr, lookup: Lookup)
    requires Known(e, lookup)
  {
    match e
    case Ident(id) => lookup(id).value.Variable?
    case Const(_) => true
    case Infix(_, l, _) => HasWidth(l, lookup)
    case Assignment(l, _) => HasWidth(l, lookup)
    case Prefixed(p, x) => p.Minus? || HasWidth(x, lookup)
    case Postfixed(_, x) => HasWidth(x, lookup)
    case Call(f, _) => HasWidth(f, lookup)
  }

  /** A variable that is not a `void*`, perhaps with plus signs in front. */
  predicate IsVariable(e: Expr, lookup: Lookup)
    requires Known(e, lookup)
  {
    match e
    case Ident(id) => lookup(id).value.Variable? && !lookup(id).value.pointerToVoid
    case Prefixed(Plus, x) => IsVariable(x, lookup)
    case _ => false
  }

  /** Operators apply to something with a width, `++` and `--` to variables, calls have at most
      sixteen arguments, and there is no `void*` variable. */
  predicate Plain(e: Expr, lookup: Lookup)
    requires Known(e, lookup)
  {
    match e
    case Ident(id) => lookup(id).value.Syscall? || !lookup(id).value.pointerToVoid
    case Const(_) => true
    case Infix(_, l, r) => Plain(l, lookup) && HasWidth(l, lookup) && Plain(r, lookup)
    case Assignment(l, r) => Target(l, lookup) && HasWidth(l, lookup) && Plain(r, lookup)
    case Prefixed(Plus, x) => Plain(x, lookup)
    case Prefixed(Minus, x) => Plain(x, lookup)
    case Prefixed(BeforeInc, x) => IsVariable(x, lookup)
    case Prefixed(BeforeDec, x) => IsVariable(x, lookup)
    case Prefixed(AddressOf, x) => Target(x, lookup)
    case Prefixed(_, x) => Plain(x, lookup) && HasWidth(x, lookup)
    case Postfixed(_, x) => IsVariable(x, lookup)
    case Call(f, args) => Plain(f, lookup) && PlainArgs(args, lookup) && Count(args) <= 16
  }

  predicate PlainArgs(args: Args, lookup: Lookup)
    requires KnownArgs(args, lookup)
  {
    args.Arg? ==> Plain(args.first, lookup) && PlainArgs(args.rest, lookup)
  }

  function Count(args: Args): nat {
    if args.NoArgs? then 0 else 1 + Count(args.rest)
  }

  /** What can be assigned to, or have its address taken: a name, or what `*` makes of a plain expression. */
  predicate Target(e: Expr, lookup: Lookup)
    requires Known(e, lookup)
  {
    match e
    case Ident(id) => lookup(id).value.Syscall? || !lookup(id).value.pointerToVoid
    case Prefixed(Plus, x) => Target(x, lookup)
    case Prefixed(Deref, x) => Plain(x, lookup)
    case _ => false
  }

  /** Siblings do not count. */
  lemma Alone(t: Tree, u: Tree)
    requires t.Node?
    ensures WellTyped(t.(sibling := u)) <==> WellTyped(t)
    ensures WellTypedTarget(t.(sibling := u)) <==> WellTypedTarget(t)
    ensures LeftmostType(t.(sibling := u)) == LeftmostType(t)
  {
  }

  /** The type of the tree is the width of the expression. */
  lemma {:induction false} WidthExactly(e: Expr, lookup: Lookup)
    requires Known(e, lookup)
    ensures LeftmostType(TreeOf(e, lookup)).Dword? <==> HasWidth(e, lookup)
  {
    hide WellTyped, WellTypedTarget;
    match e
    case Ident(_) =>
    case Const(_) =>
    case Infix(_, l, r) => WidthExactly(l, lookup); Alone(TreeOf(l, lookup), TreeOf(r, lookup));
    case Assignment(l, r) => WidthExactly(l, lookup); Alone(TreeOf(l, lookup), TreeOf(r, lookup));
    case Prefixed(_, x) => WidthExactly(x, lookup); Alone(TreeOf(x, lookup), Nil);
    case Postfixed(_, x) => WidthExactly(x, lookup); Alone(TreeOf(x, lookup), Nil);
    case Call(f, args) => WidthExactly(f, lookup); Alone(TreeOf(f, lookup), ArgsTree(args, lookup));
  }

  lemma {:induction false} VariableExactly(e: Expr, lookup: Lookup)
    requires Known(e, lookup)
    ensures PlainVariable(TreeOf(e, lookup)) <==> IsVariable(e, lookup)
  {
    match e
    case Prefixed(Plus, x) => VariableExactly(x, lookup);
    case _ =>
  }

  /** An expression is translated as it is meant exactly if it is plain. */
  lemma {:induction false} PlainExactly(e: Expr, lookup: Lookup)
    requires Known(e, lookup)
    ensures WellTyped(TreeOf(e, lookup)) <==> Plain(e, lookup)
    decreases e, 1
  {
    hide LeftmostType, HasWidth, WellTypedTarget, Target, PlainVariable, IsVariable;
    match e
    case Ident(_) => LeafPlain(e, lookup);
    case Const(_) => LeafPlain(e, lookup);
    case Infix(_, l, r) =>
      PlainExactly(l, lookup);
      PlainExactly(r, lookup);
      WidthExactly(l, lookup);
      Alone(TreeOf(l, lookup), TreeOf(r, lookup));
    case Assignment(l, r) =>
      TargetExactly(l, lookup);
      PlainExactly(r, lookup);
      WidthExactly(l, lookup);
      Alone(TreeOf(l, lookup), TreeOf(r, lookup));
    case Prefixed(_, _) => PrefixedPlain(e, lookup);
    case Postfixed(_, x) =>
      VariableExactly(x, lookup);
      SameAlone(TreeOf(x, lookup));
    case Call(f, args) =>
      PlainExactly(f, lookup);
      ArgsExactly(args, lookup);
      Alone(TreeOf(f, lookup), ArgsTree(args, lookup));
  }

  lemma SameAlone(t: Tree)
    requires t.Node? && t.sibling.Nil?
    ensures t.(sibling := Nil) == t
  {
  }

  lemma LeafPlain(e: Expr, lookup: Lookup)
    requires Known(e, lookup) && (e.Ident? || e.Const?)
    ensures WellTyped(TreeOf(e, lookup)) <==> Plain(e, lookup)
  {
  }

  lemma {:induction false} PrefixedPlain(e: Expr, lookup: Lookup)
    requires e.Prefixed? && Known(e, lookup)
    ensures WellTyped(TreeOf(e, lookup)) <==> Plain(e, lookup)
    decreases e, 0
  {
    hide HasWidth, WellTypedTarget, Target, PlainVariable, IsVariable;
    var x := e.operand;
    SameAlone(TreeOf(x, lookup));
    match e.prefix
    case Plus => PlainExactly(x, lookup);
    case Minus => PlainExactly(x, lookup); ZeroPlain(TreeOf(x, lookup));
    case BeforeInc => VariableExactly(x, lookup);
    case BeforeDec => VariableExactly(x, lookup);
    case Complement => PlainExactly(x, lookup); WidthExactly(x, lookup);
    case Deref => PlainExactly(x, lookup); WidthExactly(x, lookup);
    case AddressOf => TargetExactly(x, lookup);
  }

  /** The 0 a minus sign subtracts from. */
  lemma ZeroPlain(x: Tree)
    requires x.Node? && x.sibling.Nil?
    ensures WellTyped(Sys(Binary(Sub), Leaf(Value(0)), x)) <==> WellTyped(x)
  {
    var leaf := Leaf(Value(0));
    var zero := leaf.(sibling := x);
    assert WellTyped(zero) && LeftmostType(zero).Dword?;
  }

  lemma {:induction false} TargetExactly(e: Expr, lookup: Lookup)
    requires Known(e, lookup)
    ensures WellTypedTarget(TreeOf(e, lookup)) <==> Target(e, lookup)
    decreases e, 1
  {
    hide LeftmostType, HasWidth, WellTyped, Plain;
    match e
    case Prefixed(Plus, x) => TargetExactly(x, lookup);
    case Prefixed(Deref, x) => PlainExactly(x, lookup); SameAlone(TreeOf(x, lookup));
    case _ =>
  }

  lemma {:induction false} ArgsExactly(args: Args, lookup: Lookup)
    requires KnownArgs(args, lookup)
    ensures WellTypedList(ArgsTree(args, lookup)) <==> PlainArgs(args, lookup)
    ensures FinshCompiler.Length(ArgsTree(args, lookup)) == Count(args)
    decreases args, 2
  {
    hide WellTyped, Plain;
    if args.Arg? {
      PlainExactly(args.first, lookup);
      ArgsExactly(args.rest, lookup);
      Alone(TreeOf(args.first, lookup), ArgsTree(args.rest, lookup));
    }
  }

  ghost predicate PlainLine(es: seq<Expr>, lookup: Lookup)
    requires LineKnown(es, lookup)
  {
    forall i :: 0 <= i < |es| ==> Plain(es[i], lookup)
  }

  /** The same for the statements of a line. */
  lemma {:induction false} LineExactly(es: seq<Expr>, lookup: Lookup)
    requires LineKnown(es, lookup)
    ensures WellTypedList(LineTree(es, lookup)) <==> PlainLine(es, lookup)
  {
    hide WellTyped, Plain, TreeOf, Known, Fits;
    if es != [] {
      assert forall i :: 0 <= i < |es[1..]| ==> es[1..][i] == es[i + 1];
      PlainExactly(es[0], lookup);
      LineExactly(es[1..], lookup);
      Alone(TreeOf(es[0], lookup), LineTree(es[1..], lookup));
    }
  }

  // ---------------------------------------------------------------- what is refused

  /** A name, or what `*` makes of an expression, perhaps with plus signs in front. */
  predicate Assignable(e: Expr) {
    match e
    case Ident(_) => true
    case Prefixed(Plus, x) => Assignable(x)
    case Prefixed(Deref, _) => true
    case _ => false
  }

  /** Somewhere in the expression something without a width is assigned to. */
  predicate Refused(e: Expr, lookup: Lookup)
    requires Known(e, lookup)
  {
    match e
    case Ident(_) => false
    case Const(_) => false
    case Infix(_, l, r) => Refused(l, lookup) || Refused(r, lookup)
    case Assignment(l, r) => Refused(l, lookup) || Refused(r, lookup) || (Assignable(l) && !HasWidth(l, lookup))
    case Prefixed(_, x) => Refused(x, lookup)
    case Postfixed(_, x) => Refused(x, lookup)
    case Call(f, args) => Refused(f, lookup) || RefusedArgs(args, lookup)
  }

  predicate RefusedArgs(args: Args, lookup: Lookup)
    requires KnownArgs(args, lookup)
  {
    args.Arg? && (Refused(args.first, lookup) || RefusedArgs(args.rest, lookup))
  }

  /** Compiling a node in front of its siblings. */
  lemma FailsTogether(t: Tree, u: Tree, isAddr: bool)
    requires t.Node?
    ensures TypeCheck(t, isAddr).Node? && TypeCheck(t.(sibling := u), isAddr).Node?
    ensures CodeFails(TypeCheck(t.(sibling := u), isAddr)) <==>
            NodeFails(TypeCheck(t, isAddr)) || CodeFails(TypeCheck(u, false))
    ensures TypeCheck(t.(sibling := u), isAddr).dataType == TypeCheck(t, isAddr).dataType
    ensures TypeCheck(t.(sibling := u), isAddr).kind == t.kind
  {
    var a, b := TypeCheck(t, isAddr), TypeCheck(t.(sibling := u), isAddr);
    assert b == a.(sibling := TypeCheck(u, false));
    assert NodeFails(a) <==> NodeFails(b);
  }

  /** The compiler sets an error for an expression exactly if something without a width is assigned to. */
  lemma {:induction false} RefusedExactly(e: Expr, isAddr: bool, lookup: Lookup)
    requires Known(e, lookup)
    ensures NodeFails(TypeCheck(TreeOf(e, lookup), isAddr)) <==> Refused(e, lookup)
    decreases e, 1
  {
    hide LeftmostType, HasWidth, Assignable;
    match e
    case Ident(_) => LeafCompiles(e, isAddr, lookup);
    case Const(_) => LeafCompiles(e, isAddr, lookup);
    case Infix(op, l, r) =>
      RefusedExactly(l, isAddr, lookup);
      RefusedExactly(r, false, lookup);
      SysFails(Binary(op), TreeOf(l, lookup), TreeOf(r, lookup), isAddr);
      OneFails(TreeOf(r, lookup), false);
    case Assignment(l, r) =>
      RefusedExactly(l, true, lookup);
      RefusedExactly(r, false, lookup);
      WidthExactly(l, lookup);
      TypeOf(TreeOf(l, lookup), true);
      AssignableExactly(l, lookup);
      SysFails(Assign, TreeOf(l, lookup), TreeOf(r, lookup), isAddr);
      OneFails(TreeOf(r, lookup), false);
    case Prefixed(_, _) => PrefixedRefused(e, isAddr, lookup);
    case Postfixed(inc, x) =>
      RefusedExactly(x, isAddr, lookup);
      SysFails(if inc then Inc else Dec, TreeOf(x, lookup), Nil, isAddr);
    case Call(f, args) =>
      RefusedExactly(f, isAddr, lookup);
      ArgsRefused(args, lookup);
      SysFails(Func, TreeOf(f, lookup), ArgsTree(args, lookup), isAddr);
  }

  lemma LeafCompiles(e: Expr, isAddr: bool, lookup: Lookup)
    requires Known(e, lookup) && (e.Ident? || e.Const?)
    ensures !NodeFails(TypeCheck(TreeOf(e, lookup), isAddr))
  {
  }

  /** An operator node fails with its operands, or on its own. */
  lemma SysFails(kind: Kind, t: Tree, u: Tree, isAddr: bool)
    requires t.Node?
    ensures var mode := ChildMode(kind, isAddr);
            TypeCheck(t, mode).Node? &&
            (NodeFails(TypeCheck(Sys(kind, t, u), isAddr)) <==>
             NodeFails(TypeCheck(t, mode)) || CodeFails(TypeCheck(u, false)) ||
             (kind.Assign? && (t.kind.Id? || t.kind.GetValue?) && !TypeCheck(t, mode).dataType.Dword?))
  {
    hide NodeFails;
    var mode := ChildMode(kind, isAddr);
    FailsTogether(t, u, mode);
    var s := TypeCheck(Sys(kind, t, u), isAddr);
    assert s.child == TypeCheck(t.(sibling := u), mode);
    NodeFailsIs(s);
  }

  lemma NodeFailsIs(t: Tree)
    requires t.Node?
    ensures NodeFails(t) <==> CodeFails(t.child) || OwnFails(t)
  {
  }

  lemma OneFails(t: Tree, isAddr: bool)
    requires t.Node? && t.sibling.Nil?
    ensures CodeFails(TypeCheck(t, isAddr)) <==> NodeFails(TypeCheck(t, isAddr))
    ensures !CodeFails(TypeCheck(Nil, isAddr))
  {
    SameAlone(t);
    FailsTogether(t, Nil, isAddr);
  }

  lemma {:induction false} TypeOf(t: Tree, isAddr: bool)
    requires t.Node?
    ensures TypeCheck(t, isAddr).dataType == LeftmostType(t)
  {
    if t.child.Node? {
      TypeOf(t.child, ChildMode(t.kind, isAddr));
    }
  }

  lemma {:induction false} AssignableExactly(e: Expr, lookup: Lookup)
    requires Known(e, lookup)
    ensures TreeOf(e, lookup).kind.Id? || TreeOf(e, lookup).kind.GetValue? <==> Assignable(e)
  {
    match e
    case Prefixed(Plus, x) => AssignableExactly(x, lookup);
    case _ =>
  }

  lemma {:induction false} PrefixedRefused(e: Expr, isAddr: bool, lookup: Lookup)
    requires e.Prefixed? && Known(e, lookup)
    ensures NodeFails(TypeCheck(TreeOf(e, lookup), isAddr)) <==> Refused(e, lookup)
    decreases e, 0
  {
    hide NodeFails, CodeFails, TypeCheck;
    var x := TreeOf(e.operand, lookup);
    OneFails(x, false);
    match e.prefix
    case Plus => RefusedExactly(e.operand, isAddr, lookup);
    case Minus =>
      RefusedExactly(e.operand, false, lookup);
      SysFails(Binary(Sub), Leaf(Value(0)), x, isAddr);
      LeafCompiles(Const(0), ChildMode(Binary(Sub), isAddr), lookup);
    case BeforeInc => RefusedExactly(e.operand, true, lookup); SysFails(PreInc, x, Nil, isAddr);
    case BeforeDec => RefusedExactly(e.operand, true, lookup); SysFails(PreDec, x, Nil, isAddr);
    case Complement => RefusedExactly(e.operand, isAddr, lookup); SysFails(Bitwise, x, Nil, isAddr);
    case Deref => RefusedExactly(e.operand, ChildMode(GetValue, isAddr), lookup); SysFails(GetValue, x, Nil, isAddr);
    case AddressOf => RefusedExactly(e.operand, true, lookup); SysFails(GetAddr, x, Nil, isAddr);
  }

  lemma {:induction false} ArgsRefused(args: Args, lookup: Lookup)
    requires KnownArgs(args, lookup)
    ensures CodeFails(TypeCheck(ArgsTree(args, lookup), false)) <==> RefusedArgs(args, lookup)
    decreases args, 2
  {
    hide NodeFails, TypeCheck;
    if args.Arg? {
      RefusedExactly(args.first, false, lookup);
      ArgsRefused(args.rest, lookup);
      FailsTogether(TreeOf(args.first, lookup), ArgsTree(args.rest, lookup), false);
    } else {
      OneFails(Leaf(Value(0)), false);
    }
  }

  ghost predicate RefusedLine(es: seq<Expr>, lookup: Lookup)
    requires LineKnown(es, lookup)
  {
    exists i :: 0 <= i < |es| && Refused(es[i], lookup)
  }

  lemma {:induction false} LineRefused(es: seq<Expr>, lookup: Lookup)
    requires LineKnown(es, lookup)
    ensures CodeFails(TypeCheck(LineTree(es, lookup), false)) <==> RefusedLine(es, lookup)
  {
    hide NodeFails, TypeCheck, TreeOf, Known, Fits, Refused;
    if es != [] {
      assert forall i :: 0 <= i < |es[1..]| ==> es[1..][i] == es[i + 1];
      RefusedExactly(es[0], false, lookup);
      LineRefused(es[1..], lookup);
      FailsTogether(TreeOf(es[0], lookup), LineTree(es[1..], lookup), false);
    } else {
      OneFails(Leaf(Value(0)), false);
    }
  }
}
