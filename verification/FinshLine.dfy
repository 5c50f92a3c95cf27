/** A whole command line: tokens are parsed into the node table, the tree is compiled, and the code
    is run. */
module FinshLine {
  import opened Basics
  import opened FinshWords
  import opened FinshMachine
  import opened FinshCompiler
  import opened FinshNodes
  import opened FinshGrammar
  import opened FinshLines
  import FinshPlain
  import opened FinshParser
  import FinshVm

  lemma {:induction false} NoEofItems(items: seq<Item>)
    ensures Eof !in PrintRuns(items)
  {
    if items != [] {
      PrintInside(items[0].e);
      NoEofSemis(items[0].empties);
      NoEofItems(items[1..]);
    }
  }

  lemma {:induction false} NoEofSemis(k: nat)
    ensures Eof !in Semis(k)
  {
    if k > 0 {
      NoEofSemis(k - 1);
    }
  }

  lemma {:induction false} AllFree(nodes: seq<Record>)
    requires forall i :: 0 <= i < |nodes| ==> nodes[i].Unused?
    ensures FreeCount(nodes) == |nodes|
  {
    if nodes != [] {
      AllFree(nodes[..|nodes| - 1]);
    }
  }

  // ---------------------------------------------------------------- the stack is large enough

  /** An expression needs at most two cells for each of its nodes. */
  lemma {:induction false} DepthBound(t: Tree)
    requires WellTyped(t) || WellTypedTarget(t)
    ensures Depth(t) <= 2 * (1 + Size(t.child))
    decreases t, 0
  {
    match t.kind
    case Id(_) =>
    case Value(_) =>
    case Binary(_) => DepthBound(t.child); DepthBound(t.child.sibling);
    case Bitwise => DepthBound(t.child);
    case Func => DepthBound(t.child); ListDepthBound(t.child.sibling);
    case Assign => DepthBound(t.child); DepthBound(t.child.sibling);
    case PreInc =>
    case PreDec =>
    case Inc =>
    case Dec =>
    case GetValue => DepthBound(t.child);
    case GetAddr => DepthBound(t.child);
  }

  lemma {:induction false} ListDepthBound(t: Tree)
    requires WellTypedList(t)
    ensures ListDepth(t) <= 2 * Size(t)
    decreases t, 1
  {
    if t.Node? {
      DepthBound(t);
      ListDepthBound(t.sibling);
    }
  }

  /** A line that fits the node table cannot overflow the stack. */
  lemma {:induction false} StackSuffices(t: Tree)
    requires WellTypedList(t)
    ensures StatementsDepth(t) <= 2 * Size(t)
    ensures Size(t) <= NODE_MAX ==> StatementsDepth(t) <= STACK_MAX
  {
    if t.Node? {
      DepthBound(t);
      StackSuffices(t.sibling);
    }
  }

  // ---------------------------------------------------------------- from text to value

  /** The printed form of any list of plain statements that fits the node table and the text segment
      runs to the value of the last statement and the memory the statements leave, and faults exactly
      when evaluating them does. Empty statements may stand where they are harmless. A line in which
      something without a width is assigned to changes nothing. */
  method ExecuteLine(tokens: seq<Token>, ghost items: seq<Item>, lookup: Lookup, host: Host, mem: Memory)
      returns (ok: bool, bottom: Word, after: Memory)
    requires LineKnown(Statements(items), lookup) && tokens == PrintRuns(items) && Kept(items)
    requires var t := LineTree(Statements(items), lookup);
             Size(t) <= NODE_MAX && |StatementsCode(TypeCheck(t, false))| <= TEXT_MAX &&
             (FinshPlain.PlainLine(Statements(items), lookup) || FinshPlain.RefusedLine(Statements(items), lookup))
    ensures items == [] ==> ok && bottom == 0 && after == mem
    ensures items != [] && FinshPlain.PlainLine(Statements(items), lookup) ==>
              ok == EvalStatements(LineTree(Statements(items), lookup), mem, host).Some?
    ensures items != [] && ok ==>
              EvalStatements(LineTree(Statements(items), lookup), mem, host) == Some((bottom, after))
    ensures FinshPlain.RefusedLine(Statements(items), lookup) ==> !ok && bottom == 0 && after == mem
  {
    hide EvalStatements, StatementsDepth, StatementsCode, TypeCheck, WellTypedList, Size, FreeCount, Lines, Represents,
      LineKnown, PrintRuns, Kept, FinshPlain.PlainLine, FinshPlain.RefusedLine, CodeFails;
    var nodes := new Record[NODE_MAX](_ => Unused);
    AllFree(nodes[..]);
    NoEofItems(items);
    LineExactly(0, items, lookup);
    assert Semis(0) + PrintRuns(items) == PrintRuns(items);
    FinshPlain.LineExactly(Statements(items), lookup);
    FinshPlain.LineRefused(Statements(items), lookup);
    if WellTypedList(LineTree(Statements(items), lookup)) {
      StackSuffices(LineTree(Statements(items), lookup));
    }
    var parser := new Parser(tokens, lookup, nodes);
    var parsed, root := parser.ParserRun();
    ok, bottom, after := false, 0, mem;
    if parsed {
      ok, bottom, after := FinshVm.RunLine(nodes, root, LineTree(Statements(items), lookup), host, mem);
    }
  }
}
