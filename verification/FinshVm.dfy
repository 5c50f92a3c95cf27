/** The interpreter loop over the mutable stack and program counter, and the whole command line. */
module FinshVm {
  import opened Basics
  import opened FinshWords
  import opened FinshMachine
  import opened FinshCompiler
  import opened FinshNodes
  import opened FinshEmitter
  import opened FinshCorrect

  class Vm {
    const stack: array<Word>  // finsh_vm_stack
    const text: array<Byte>   // text_segment
    var pc: nat               // finsh_pc
    var sp: nat               // finsh_sp
    var mem: Memory           // what the operations load and store

    ghost predicate Valid()
      reads this
    {
      stack.Length == STACK_MAX && sp <= STACK_MAX && pc <= text.Length
    }

    ghost function View(): State
      reads this, stack
      requires Valid()
    {
      State(pc, stack[..sp], mem)
    }

    constructor (text: array<Byte>, mem: Memory)
      ensures Valid() && this.text == text && this.mem == mem && fresh(stack)
      ensures View() == State(0, [], mem)
      ensures stack[0] == 0
    {
      stack := new Word[STACK_MAX](_ => 0);
      this.text := text;
      this.mem := mem;
      pc := 0;
      sp := 0;
    }

    /** Write a value above the live cells. */
    method Push(v: Word) returns (ok: bool)
      requires Valid()
      modifies this`sp, stack
      ensures Valid() && ok == (old(sp) < STACK_MAX)
      ensures ok ==> View() == old(View()).(stack := old(stack[..sp]) + [v])
      ensures ok ==> stack[old(sp)] == v
    {
      ok := sp < STACK_MAX;
      if ok {
        stack[sp] := v;
        sp := sp + 1;
      }
    }

    /** FINSH_GET32 at the program counter, which moves past the operand. */
    method FetchWide() returns (ok: bool, v: Word)
      requires Valid()
      modifies this`pc
      ensures Valid() && ok == (old(pc) + 4 <= text.Length)
      ensures ok ==> pc == old(pc) + 4 &&
                     v == Get32(text[old(pc)], text[old(pc) + 1], text[old(pc) + 2], text[old(pc) + 3])
    {
      ok := pc + 4 <= text.Length;
      v := 0;
      if ok {
        v := Get32(text[pc], text[pc + 1], text[pc + 2], text[pc + 3]);
        pc := pc + 4;
      }
    }

    /** OP_ld_dword. */
    method OpLoadConstant() returns (ok: bool)
      requires Valid()
      modifies this`pc, this`sp, stack
      ensures Valid() && ok == (old(pc) + 4 <= text.Length && old(sp) < STACK_MAX)
      ensures ok ==>
                View() == State(old(pc) + 4, old(stack[..sp]) +
                                [Get32(text[old(pc)], text[old(pc) + 1], text[old(pc) + 2], text[old(pc) + 3])], mem)
    {
      hide Get32;
      var v;
      ok, v := FetchWide();
      if ok {
        ok := Push(v);
      }
    }

    /** OP_ld_value_dword. */
    method OpLoadVariable() returns (ok: bool)
      requires Valid()
      modifies this`pc, this`sp, stack
      ensures Valid()
      ensures ok == (old(pc) + 4 <= text.Length && old(sp) < STACK_MAX &&
                     Load(mem, Get32(text[old(pc)], text[old(pc) + 1], text[old(pc) + 2], text[old(pc) + 3])).Some?)
      ensures ok ==>
                View() == State(old(pc) + 4, old(stack[..sp]) +
                                [Load(mem, Get32(text[old(pc)], text[old(pc) + 1], text[old(pc) + 2], text[old(pc) + 3])).value], mem)
    {
      hide Load, Get32;
      var v;
      ok, v := FetchWide();
      if ok {
        var r := Load(mem, v);
        ok := r.Some?;
        if ok {
          ok := Push(r.value);
        }
      }
    }

    /** OP_pop. */
    method OpPop() returns (ok: bool)
      requires Valid()
      modifies this`sp
      ensures Valid() && ok == (old(sp) >= 1)
      ensures ok ==> View() == old(View()).(stack := old(stack[..sp - 1]))
    {
      ok := sp >= 1;
      if ok {
        sp := sp - 1;
      }
    }

    /** OP_BIN_DWORD. */
    method OpBinary(op: ArithOp, host: Host) returns (ok: bool)
      requires Valid()
      modifies this`sp, stack
      ensures Valid()
      ensures ok == (old(sp) >= 2 && host.arith(op, old(stack[sp - 2]), old(stack[sp - 1])).Some?)
      ensures ok ==>
                View() == old(View()).(stack := old(stack[..sp - 2]) +
                                       [host.arith(op, old(stack[sp - 2]), old(stack[sp - 1])).value])
    {
      if sp < 2 {
        return false;
      }
      var r := host.arith(op, stack[sp - 2], stack[sp - 1]);
      ok := r.Some?;
      if ok {
        stack[sp - 2] := r.value;
        sp := sp - 1;
      }
    }

    /** OP_bw_dword. */
    method OpComplement(host: Host) returns (ok: bool)
      requires Valid()
      modifies stack
      ensures Valid() && ok == (sp >= 1)
      ensures ok ==> View() == old(View()).(stack := old(stack[..sp - 1]) + [host.complement(old(stack[sp - 1]))])
    {
      ok := sp >= 1;
      if ok {
        stack[sp - 1] := host.complement(stack[sp - 1]);
      }
    }

    /** OP_ld_value_dword_stack. */
    method OpLoadIndirect() returns (ok: bool)
      requires Valid()
      modifies stack
      ensures Valid() && ok == (sp >= 1 && Load(mem, old(stack[sp - 1])).Some?)
      ensures ok ==> View() == old(View()).(stack := old(stack[..sp - 1]) + [Load(mem, old(stack[sp - 1])).value])
    {
      if sp < 1 {
        return false;
      }
      var r := Load(mem, stack[sp - 1]);
      ok := r.Some?;
      if ok {
        stack[sp - 1] := r.value;
      }
    }

    /** OP_st_dword: the address stays on the stack. */
    method OpStore() returns (ok: bool)
      requires Valid()
      modifies this`sp, this`mem
      ensures Valid()
      ensures ok == (old(sp) >= 2 && Store(old(mem), old(stack[sp - 2]), old(stack[sp - 1])).Some?)
      ensures ok ==>
                View() == State(pc, old(stack[..sp - 1]), Store(old(mem), old(stack[sp - 2]), old(stack[sp - 1])).value)
    {
      if sp < 2 {
        return false;
      }
      var r := Store(mem, stack[sp - 2], stack[sp - 1]);
      ok := r.Some?;
      if ok {
        mem := r.value;
        sp := sp - 1;
      }
    }

    /** OP_call: pops the parameters into a buffer back to front, calls, pushes the result. */
    method OpCall(host: Host) returns (ok: bool)
      requires Valid()
      modifies this, stack
      ensures Valid()
      ensures ok == (old(pc) < text.Length &&
                     var k := text[old(pc)] as nat; k <= PARAMETER_MAX && old(sp) >= k + 1)
      ensures ok ==>
                var k := text[old(pc)] as nat;
                var n := old(sp);
                var (v, m) := host.call(old(stack[..])[n - k - 1],
                                        if k == 0 then [0] else old(stack[..])[n - k..n], old(mem));
                View() == State(old(pc) + 1, old(stack[..])[..n - k - 1] + [v], m)
    {
      if pc >= text.Length {
        return false;
      }
      var parameters := text[pc] as nat;
      pc := pc + 1;
      if parameters > PARAMETER_MAX || sp < parameters + 1 {
        return false;
      }
      var parameterv := new Word[PARAMETER_MAX](_ => 0);
      ghost var before := stack[..];
      ghost var n := sp;
      var i := 0;
      sp := sp - 1;
      while i < parameters
        invariant i <= parameters && sp == n - 1 - i && pc == old(pc) + 1 && mem == old(mem)
        invariant stack[..] == before
        invariant forall j :: parameters - i <= j < parameters ==> parameterv[j] == before[n - parameters + j]
      {
        parameterv[parameters - 1 - i] := stack[sp];
        sp := sp - 1;
        i := i + 1;
      }
      assert parameterv[..parameters] == before[n - parameters..n];
      var f := stack[sp];
      var (r, m) := host.call(f, if parameters == 0 then [0] else parameterv[..parameters], mem);
      mem := m;
      stack[sp] := r;
      sp := sp + 1;
      ok := true;
    }

    /** One turn of the loop of finsh_vm_run: fetch, then the operation at that place of op_table. */
    method Turn(host: Host) returns (ok: bool)
      requires Valid() && pc < text.Length
      modifies this, stack
      ensures Valid()
      ensures ok == Step(text[..], host, old(View())).Some?
      ensures ok ==> View() == Step(text[..], host, old(View())).value
      ensures old(text[pc]) == NOOP ==> stack[..] == old(stack[..])
    {
      hide Load, Store, Get32, Run, Passed;
      ghost var code := text[..];
      var op := text[pc];
      pc := pc + 1;
      ok := false;
      if op == NOOP {
        ok := true;
      } else if ArithOf(op).Some? {
        ok := OpBinary(ArithOf(op).value, host);
      } else if op == BITWISE_DWORD {
        ok := OpComplement(host);
      } else {
        ok := TurnMemory(op, host);
      }
    }

    /** The operations of op_table that load, store, pop or call. */
    method TurnMemory(op: Byte, host: Host) returns (ok: bool)
      requires Valid() && 0 < pc && text[pc - 1] == op && op != NOOP && ArithOf(op).None? && op != BITWISE_DWORD
      modifies this, stack
      ensures Valid()
      ensures var r := Step(text[..], host, old(View()).(pc := old(pc) - 1));
              ok == r.Some? && (ok ==> View() == r.value)
    {
      hide Load, Store, Get32, Run;
      ghost var code := text[..];
      ok := false;
      if op == LD_DWORD {
        ok := OpLoadConstant();
      } else if op == LD_VALUE_DWORD {
        ok := OpLoadVariable();
      } else if op == LD_VALUE_DWORD_STACK {
        ok := OpLoadIndirect();
      } else if op == ST_DWORD {
        ok := OpStore();
      } else if op == POP {
        ok := OpPop();
      } else if op == SYSCALL {
        ok := OpCall(host);
      }
    }

    /** finsh_vm_run. */
    method VmRun(host: Host) returns (ok: bool)
      requires Valid()
      modifies this, stack
      ensures Valid()
      ensures var r := Run(text[..], host, State(0, [], old(mem)));
              ok == r.Some? && (ok ==> View() == r.value)
      ensures (forall k :: 0 <= k < text.Length ==> text[k] == NOOP) ==> stack[..] == old(stack[..])
    {
      sp := 0;
      pc := 0;
      ok := true;
      ghost var code := text[..];
      ghost var start := View();
      while pc < text.Length
        invariant Valid() && text[..] == code
        invariant Run(code, host, start) == Run(code, host, View())
        invariant (forall k :: 0 <= k < text.Length ==> text[k] == NOOP) ==> stack[..] == old(stack[..])
        decreases text.Length - pc
      {
        ghost var s := View();
        ok := Turn(host);
        if !ok {
          return;
        }
      }
    }

    /** finsh_stack_bottom. */
    method StackBottom() returns (v: Word)
      requires Valid()
      ensures v == stack[0]
    {
      v := stack[0];
    }
  }

  /** A command line after parsing: compile the tree at root and run it. For a well-typed line
      that fits text segment and stack, the stack bottom is the value of the last statement and
      memory is what evaluating the statements leaves; the run faults exactly when evaluation
      does. An empty line leaves zero. A line for which the compiler sets an error is not run. */
  method RunLine(nodes: array<Record>, root: int, ghost t: Tree, host: Host, mem: Memory)
      returns (ok: bool, bottom: Word, after: Memory)
    requires Represents(nodes[..], root, t) && |StatementsCode(TypeCheck(t, false))| <= TEXT_MAX
    requires CodeFails(TypeCheck(t, false)) || (WellTypedList(t) && StatementsDepth(t) <= STACK_MAX)
    modifies nodes
    ensures CodeFails(TypeCheck(t, false)) ==> !ok && bottom == 0 && after == mem
    ensures WellTypedList(t) ==> !CodeFails(TypeCheck(t, false))
    ensures WellTypedList(t) && t.Node? ==> ok == EvalStatements(t, mem, host).Some?
    ensures ok && t.Node? ==> (bottom, after) == EvalStatements(t, mem, host).value
    ensures t.Nil? ==> ok && bottom == 0 && after == mem
  {
    hide Run, EvalStatements, StatementsDepth, StatementsCode, TypeCheck, WellTypedList;
    var emitter := new Emitter(TEXT_MAX);
    emitter.CompilerRun(nodes, root, t);
    if WellTypedList(t) {
      ListCompiles(t);
    }
    if emitter.failed {
      return false, 0, mem;
    }
    var vm := new Vm(emitter.text, mem);
    ghost var text := emitter.text[..];
    assert vm.text[..] == text;
    LineCorrect(t, text, host, mem);
    ok := vm.VmRun(host);
    after := vm.mem;
    bottom := vm.StackBottom();
    assert ok && t.Node? ==> vm.View().stack[0] == vm.stack[0];
  }

  /** The run of a compiled line; an empty line is all no-ops. */
  lemma LineCorrect(t: Tree, text: seq<Byte>, host: Host, mem: Memory)
    requires WellTypedList(t) && StatementsDepth(t) <= STACK_MAX
    requires |text| == TEXT_MAX
    requires var code := StatementsCode(TypeCheck(t, false));
             |code| <= |text| && text[..|code|] == code && forall k :: |code| <= k < |text| ==> text[k] == NOOP
    ensures t.Nil? ==> forall k :: 0 <= k < |text| ==> text[k] == NOOP
    ensures Run(text, host, State(0, [], mem)) ==
            if t.Nil? then Some(State(TEXT_MAX, [], mem)) else
            match EvalStatements(t, mem, host)
            case None => None
            case Some((v, m')) => Some(State(TEXT_MAX, [v], m'))
  {
    hide Step;
    if t.Nil? {
      ZeroTail(text, host, State(0, [], mem));
    } else {
      var code := StatementsCode(TypeCheck(t, false));
      assert text[0..0 + |code|] == code;
      CompilerCorrect(t, text, host, mem);
    }
  }
}
