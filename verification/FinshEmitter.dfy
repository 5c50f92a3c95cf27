/** The code emitter: finsh_compile and finsh_compiler_run writing into the text segment. */
module FinshEmitter {
  import opened Basics
  import opened FinshWords
  import opened FinshMachine
  import opened FinshCompiler
  import opened FinshNodes

  class Emitter {
    const text: array<Byte>  // text_segment
    var pc: nat              // finsh_compile_pc, as an index into text
    var failed: bool         // FINSH_ERROR_UNKNOWN_TYPE was set

    /** The written part is followed by the zeros of the initial clearing. */
    ghost predicate Valid()
      reads this, text
    {
      pc <= text.Length && forall k :: pc <= k < text.Length ==> text[k] == NOOP
    }

    ghost function Written(): seq<Byte>
      reads this, text
      requires Valid()
    {
      text[..pc]
    }

    constructor (size: nat)
      ensures Valid() && Written() == [] && text.Length == size && fresh(text) && !failed
    {
      text := new Byte[size](_ => NOOP);
      pc := 0;
      failed := false;
    }

    /** Clearing the text segment. */
    method Clear()
      modifies this, text
      ensures Valid() && Written() == [] && failed == old(failed)
    {
      var i := 0;
      while i < text.Length
        invariant i <= text.Length && failed == old(failed)
        invariant forall k :: 0 <= k < i ==> text[k] == NOOP
      {
        text[i] := NOOP;
        i := i + 1;
      }
      pc := 0;
    }

    /** finsh_code_byte. */
    method EmitByte(b: Byte)
      requires Valid() && pc < text.Length
      modifies this, text
      ensures Valid() && failed == old(failed) && Written() == old(Written()) + [b]
    {
      text[pc] := b;
      pc := pc + 1;
    }

    /** finsh_code_byte of an opcode followed by finsh_code_dword of its operand. */
    method EmitWide(op: Byte, v: Word)
      requires Valid() && pc + 5 <= text.Length
      modifies this, text
      ensures Valid() && failed == old(failed) && Written() == old(Written()) + Wide(op, v)
    {
      var bs := Set32(v);
      EmitByte(op);
      EmitByte(bs[0]);
      EmitByte(bs[1]);
      EmitByte(bs[2]);
      EmitByte(bs[3]);
      assert Written() == old(Written()) + [op] + [bs[0]] + [bs[1]] + [bs[2]] + [bs[3]];
      assert bs == [bs[0]] + [bs[1]] + [bs[2]] + [bs[3]];
    }

    /** Load a variable, add or subtract one, store. */
    method EmitStep(address: Word, op: ArithOp)
      requires Valid() && pc + 12 <= text.Length
      modifies this, text
      ensures Valid() && failed == old(failed) && Written() == old(Written()) + StepCode(address, op)
    {
      EmitWide(LD_VALUE_DWORD, address);
      EmitWide(LD_DWORD, 1);
      EmitByte(ArithCode(op));
      EmitByte(ST_DWORD);
      assert Written() == old(Written()) + Wide(LD_VALUE_DWORD, address) + Wide(LD_DWORD, 1) + [ArithCode(op)] + [ST_DWORD];
      assert [ArithCode(op)] + [ST_DWORD] == [ArithCode(op), ST_DWORD];
    }

    /** The parameter count of a call: the siblings of its first child. */
    method CountSiblings(nodes: array<Record>, p: int, ghost t: Tree) returns (n: nat)
      requires Represents(nodes[..], p, t)
      ensures n == Length(t)
    {
      n := 0;
      var sibling := p;
      ghost var rest := t;
      while sibling != NULL
        invariant Represents(nodes[..], sibling, rest)
        invariant n + Length(rest) == Length(t)
        decreases rest
      {
        n := n + 1;
        sibling := nodes[sibling].sibling;
        rest := rest.sibling;
      }
    }

    /** The switch of finsh_compile: the code of the node itself. */
    method EmitOwn(nodes: array<Record>, p: int, ghost t: Tree)
      requires Valid() && t.Node? && Represents(nodes[..], p, t) && pc + |OwnCode(t)| <= text.Length
      modifies this, text
      ensures Valid() && Written() == old(Written()) + OwnCode(t) && failed == (old(failed) || OwnFails(t))
    {
      hide Wide, StepCode, Footprint, Length;
      var node := nodes[p];
      assert t.child.Node? ==> nodes[node.child].kind == t.child.kind && nodes[node.child].dataType == t.child.dataType;
      match node.kind
      case Id(Syscall(f)) => EmitWide(LD_DWORD, f);
      case Id(Variable(a, pointerToVoid)) =>
        if !pointerToVoid {
          if node.isAddr {
            EmitWide(LD_DWORD, a);
          } else {
            EmitWide(LD_VALUE_DWORD, a);
          }
        }
      case Value(v) => EmitWide(LD_DWORD, v);
      case Binary(op) =>
        if node.dataType.Dword? {
          EmitByte(ArithCode(op));
        }
      case Bitwise =>
        if node.dataType.Dword? {
          EmitByte(BITWISE_DWORD);
        }
      case Func =>
        if node.child != NULL {
          var parameters := CountSiblings(nodes, nodes[node.child].sibling, t.child.sibling);
          EmitByte(SYSCALL);
          EmitByte((parameters % 0x100) as Byte);
        }
      case Assign =>
        if node.child != NULL && (nodes[node.child].kind.Id? || nodes[node.child].kind.GetValue?) {
          if nodes[node.child].dataType.Dword? {
            EmitByte(ST_DWORD);
            EmitByte(LD_VALUE_DWORD_STACK);
          } else {
            failed := true;
          }
        }
      case PreInc =>
        if node.child != NULL {
          EmitPreStep(nodes[node.child].kind, node.dataType, Add);
        }
      case PreDec =>
        if node.child != NULL {
          EmitPreStep(nodes[node.child].kind, node.dataType, Sub);
        }
      case Inc =>
        if node.child != NULL {
          EmitPostStep(nodes[node.child].kind, node.dataType, Add);
        }
      case Dec =>
        if node.child != NULL {
          EmitPostStep(nodes[node.child].kind, node.dataType, Sub);
        }
      case GetValue =>
        if !node.isAddr {
          if node.dataType.Dword? {
            EmitByte(LD_VALUE_DWORD_STACK);
          }
        }
      case GetAddr =>
    }

    predicate Steppable(kind: Kind, dataType: DataType) {
      kind.Id? && kind.symbol.Variable? && dataType.Dword?
    }

    method EmitPreStep(kind: Kind, dataType: DataType, op: ArithOp)
      requires Valid() && (Steppable(kind, dataType) ==> pc + 13 <= text.Length)
      modifies this, text
      ensures Valid() && failed == old(failed)
      ensures Written() == old(Written()) +
                           if Steppable(kind, dataType) then StepCode(kind.symbol.address, op) + [LD_VALUE_DWORD_STACK]
                           else []
    {
      if Steppable(kind, dataType) {
        EmitStep(kind.symbol.address, op);
        EmitByte(LD_VALUE_DWORD_STACK);
      }
    }

    method EmitPostStep(kind: Kind, dataType: DataType, op: ArithOp)
      requires Valid() && (Steppable(kind, dataType) ==> pc + 18 <= text.Length)
      modifies this, text
      ensures Valid() && failed == old(failed)
      ensures Written() == old(Written()) +
                           if Steppable(kind, dataType)
                           then Wide(LD_DWORD, kind.symbol.address) + (StepCode(kind.symbol.address, op) + [POP])
                           else []
    {
      if Steppable(kind, dataType) {
        EmitWide(LD_DWORD, kind.symbol.address);
        EmitStep(kind.symbol.address, op);
        EmitByte(POP);
      }
    }

    /** finsh_compile: child, node, sibling. An assignment without a width sets an error and the
        compilation goes on. */
    method Compile(nodes: array<Record>, p: int, ghost t: Tree)
      requires Valid() && Represents(nodes[..], p, t) && pc + |Code(t)| <= text.Length
      modifies this, text
      ensures Valid() && Written() == old(Written()) + Code(t) && failed == (old(failed) || CodeFails(t))
      decreases t
    {
      hide OwnCode, Footprint;
      ghost var table := nodes[..];
      if p != NULL {
        CodeParts(t);
        Compile(nodes, nodes[p].child, t.child);
        assert nodes[..] == table;
        EmitOwn(nodes, p, t);
        assert nodes[..] == table;
        Compile(nodes, nodes[p].sibling, t.sibling);
      }
    }

    /** finsh_compiler_run: check types, clear the text, compile statement by statement with each
        statement cut off from the next, a POP after every statement but the last. */
    method CompilerRun(nodes: array<Record>, root: int, ghost t: Tree)
      requires Represents(nodes[..], root, t)
      requires |StatementsCode(TypeCheck(t, false))| <= text.Length
      modifies this, text, nodes
      ensures Valid() && Written() == StatementsCode(TypeCheck(t, false))
      ensures failed == (old(failed) || CodeFails(TypeCheck(t, false)))
    {
      CheckTypes(nodes, root, false, t);
      Clear();
      ghost var all := StatementsCode(TypeCheck(t, false));
      ghost var rest := TypeCheck(t, false);
      var sibling := root;
      while sibling != NULL
        invariant Valid()
        invariant Represents(nodes[..], sibling, rest)
        invariant Written() + StatementsCode(rest) == all
        invariant (failed || CodeFails(rest)) == (old(failed) || CodeFails(TypeCheck(t, false)))
        decreases rest
      {
        sibling := CompileStatement(nodes, sibling, rest);
        rest := rest.sibling;
      }
    }

    /** One turn of the statement loop. */
    method CompileStatement(nodes: array<Record>, current: int, ghost t: Tree) returns (sibling: int)
      requires Valid() && t.Node? && Represents(nodes[..], current, t)
      requires pc + |StatementsCode(t)| <= text.Length
      modifies this, text, nodes
      ensures Valid() && Represents(nodes[..], sibling, t.sibling)
      ensures Written() + StatementsCode(t.sibling) == old(Written()) + StatementsCode(t)
      ensures failed == (old(failed) || NodeFails(t))
    {
      hide OwnCode, TypeCheck;
      ghost var before := nodes[..];
      sibling := nodes[current].sibling;
      nodes[current] := nodes[current].(sibling := NULL);
      ghost var after := nodes[..];
      Cut(before, after, current, t);
      StatementParts(t);
      StatementFails(t);
      Compile(nodes, current, t.(sibling := Nil));
      assert nodes[..] == after;
      if sibling != NULL {
        EmitByte(POP);
        assert nodes[..] == after;
      }
    }
  }

  /** A statement's code and the separator after it. */
  lemma StatementParts(t: Tree)
    requires t.Node?
    ensures Code(t.(sibling := Nil)) == NodeCode(t)
    ensures StatementsCode(t) ==
            NodeCode(t) + (if t.sibling.Nil? then [] else [POP]) + StatementsCode(t.sibling)
  {
    hide OwnCode;
    var alone := t.(sibling := Nil);
    OwnCodeAlone(t);
    assert Code(alone) == NodeCode(alone) + [] == NodeCode(alone);
    if t.sibling.Nil? {
      assert NodeCode(t) + [] + [] == NodeCode(t) + [];
    } else {
      assert NodeCode(t) + ([POP] + StatementsCode(t.sibling)) == NodeCode(t) + [POP] + StatementsCode(t.sibling);
    }
  }

  lemma StatementFails(t: Tree)
    requires t.Node?
    ensures CodeFails(t.(sibling := Nil)) <==> NodeFails(t)
  {
    var alone := t.(sibling := Nil);
    assert !CodeFails(Nil);
    assert NodeFails(alone) <==> NodeFails(t);
  }

  lemma OwnCodeAlone(t: Tree)
    requires t.Node?
    ensures OwnCode(t.(sibling := Nil)) == OwnCode(t)
  {
  }

  lemma CodeParts(t: Tree)
    requires t.Node?
    ensures Code(t) == Code(t.child) + OwnCode(t) + Code(t.sibling)
  {
  }

  /** Cutting a node off from its siblings leaves both halves represented. */
  lemma Cut(before: seq<Record>, after: seq<Record>, p: int, t: Tree)
    requires t.Node? && Represents(before, p, t)
    requires after == before[p := before[p].(sibling := NULL)]
    ensures Represents(after, p, t.(sibling := Nil))
    ensures Represents(after, before[p].sibling, t.sibling)
  {
    Frame(before, after, before[p].child, t.child);
    Frame(before, after, before[p].sibling, t.sibling);
  }
}
