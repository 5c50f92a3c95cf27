/** The node table: trees laid out in a fixed array, with indices for pointers. */
module FinshNodes {
  import opened Basics
  import opened FinshWords
  import opened FinshMachine
  import opened FinshCompiler

  const NODE_MAX: nat := 16

  /** The null pointer. */
  const NULL: int := -1

  /** An entry of global_node_table; Unused has node type FINSH_NODE_UNKNOWN. */
  datatype Record = Unused | Used(kind: Kind, isAddr: bool, dataType: DataType, child: int, sibling: int)

  /** The entries that make up the tree at p. */
  ghost function Footprint(nodes: seq<Record>, p: int, t: Tree): set<int>
    decreases t
  {
    if t.Nil? || !(0 <= p < |nodes|) || nodes[p].Unused? then {} else
    {p} + Footprint(nodes, nodes[p].child, t.child) + Footprint(nodes, nodes[p].sibling, t.sibling)
  }

  /** The table represents t at p; no entry is used twice. */
  ghost predicate Represents(nodes: seq<Record>, p: int, t: Tree)
    decreases t
  {
    if t.Nil? then p == NULL else
    0 <= p < |nodes| && nodes[p].Used? &&
    nodes[p].kind == t.kind && nodes[p].isAddr == t.isAddr && nodes[p].dataType == t.dataType &&
    Represents(nodes, nodes[p].child, t.child) &&
    Represents(nodes, nodes[p].sibling, t.sibling) &&
    p !in Footprint(nodes, nodes[p].child, t.child) &&
    p !in Footprint(nodes, nodes[p].sibling, t.sibling) &&
    Footprint(nodes, nodes[p].child, t.child) !! Footprint(nodes, nodes[p].sibling, t.sibling)
  }

  /** Changing entries outside a tree leaves the tree. */
  lemma {:induction false} Frame(nodes: seq<Record>, nodes': seq<Record>, p: int, t: Tree)
    requires |nodes| == |nodes'| && Represents(nodes, p, t)
    requires forall q :: q in Footprint(nodes, p, t) && 0 <= q < |nodes| ==> nodes'[q] == nodes[q]
    ensures Represents(nodes', p, t) && Footprint(nodes', p, t) == Footprint(nodes, p, t)
    decreases t
  {
    if t.Node? {
      Frame(nodes, nodes', nodes[p].child, t.child);
      Frame(nodes, nodes', nodes[p].sibling, t.sibling);
    }
  }

  /** Everything outside `touched` is as before. */
  ghost predicate SameOutside(before: seq<Record>, after: seq<Record>, touched: set<int>) {
    |before| == |after| && forall q :: 0 <= q < |before| && q !in touched ==> after[q] == before[q]
  }

  /** Rewriting the entry of a node over two represented, disjoint subtrees. */
  lemma Rewrite(nodes: seq<Record>, p: int, r: Record, child: Tree, sibling: Tree)
    requires 0 <= p < |nodes| && r.Used?
    requires Represents(nodes, r.child, child) && Represents(nodes, r.sibling, sibling)
    requires p !in Footprint(nodes, r.child, child) && p !in Footprint(nodes, r.sibling, sibling)
    requires Footprint(nodes, r.child, child) !! Footprint(nodes, r.sibling, sibling)
    ensures Represents(nodes[p := r], p, Node(r.kind, r.isAddr, r.dataType, child, sibling))
    ensures Footprint(nodes[p := r], p, Node(r.kind, r.isAddr, r.dataType, child, sibling)) ==
            {p} + Footprint(nodes, r.child, child) + Footprint(nodes, r.sibling, sibling)
  {
    Frame(nodes, nodes[p := r], r.child, child);
    Frame(nodes, nodes[p := r], r.sibling, sibling);
  }

  /** The part of finsh_type_check after both recursive calls. */
  method SetAttributes(nodes: array<Record>, p: int, isAddr: bool)
    requires 0 <= p < nodes.Length && nodes[p].Used?
    requires nodes[p].child == NULL || (0 <= nodes[p].child < nodes.Length && nodes[nodes[p].child].Used? && nodes[p].child != p)
    modifies nodes
    ensures nodes[..] == old(nodes[..])[p := old(nodes[p].(
                           isAddr := if IsSyscall(nodes[p].kind) then nodes[p].isAddr else nodes[p].isAddr || isAddr,
                           dataType := if nodes[p].child != NULL then nodes[nodes[p].child].dataType
                           else LeafType(nodes[p].kind, nodes[p].dataType)))]
  {
    var kind, child := nodes[p].kind, nodes[p].child;
    if !IsSyscall(kind) {
      nodes[p] := nodes[p].(isAddr := nodes[p].isAddr || isAddr);
    }
    if child != NULL {
      nodes[p] := nodes[p].(dataType := nodes[child].dataType);
    } else if kind.Id? {
      if kind.symbol.Variable? {
        nodes[p] := nodes[p].(dataType := Dword);
      }
    } else if kind.Value? {
      nodes[p] := nodes[p].(dataType := Dword);
    }
  }

  /** finsh_type_check: fills in addressing mode and data type in place. */
  method CheckTypes(nodes: array<Record>, p: int, isAddr: bool, ghost t: Tree)
    requires Represents(nodes[..], p, t)
    modifies nodes
    ensures Represents(nodes[..], p, TypeCheck(t, isAddr))
    ensures Footprint(nodes[..], p, TypeCheck(t, isAddr)) == old(Footprint(nodes[..], p, t))
    ensures SameOutside(old(nodes[..]), nodes[..], old(Footprint(nodes[..], p, t)))
    decreases t
  {
    if p != NULL {
      var kind, child, sibling := nodes[p].kind, nodes[p].child, nodes[p].sibling;
      ghost var before := nodes[..];
      var mode := isAddr;
      if kind.Assign? || kind.PreInc? || kind.PreDec? || kind.GetAddr? {
        mode := true;
      } else if kind.GetValue? && isAddr {
        mode := false;
      }
      CheckTypes(nodes, child, mode, t.child);
      ghost var middle := nodes[..];
      Frame(before, middle, sibling, t.sibling);
      CheckTypes(nodes, sibling, false, t.sibling);
      ghost var late := nodes[..];
      Frame(middle, late, child, TypeCheck(t.child, mode));
      assert late[p] == before[p];
      SetAttributes(nodes, p, isAddr);
      assert nodes[..] == late[p := nodes[p]];
      Finished(before, late, nodes[p], p, t, isAddr);
    }
  }

  /** Both subtrees checked and the entry rewritten: the whole tree is checked. */
  lemma Finished(before: seq<Record>, late: seq<Record>, r: Record, p: int, t: Tree, isAddr: bool)
    requires t.Node? && Represents(before, p, t) && |late| == |before|
    requires late[p] == before[p]
    requires var c := TypeCheck(t.child, ChildMode(t.kind, isAddr));
             var s := TypeCheck(t.sibling, false);
             Represents(late, late[p].child, c) && Represents(late, late[p].sibling, s) &&
             Footprint(late, late[p].child, c) == Footprint(before, before[p].child, t.child) &&
             Footprint(late, late[p].sibling, s) == Footprint(before, before[p].sibling, t.sibling) &&
             r == late[p].(isAddr := if IsSyscall(t.kind) then t.isAddr else t.isAddr || isAddr,
                           dataType := if c.Node? then c.dataType else LeafType(t.kind, t.dataType))
    ensures Represents(late[p := r], p, TypeCheck(t, isAddr))
    ensures Footprint(late[p := r], p, TypeCheck(t, isAddr)) == Footprint(before, p, t)
  {
    Rewrite(late, p, r, TypeCheck(t.child, ChildMode(t.kind, isAddr)), TypeCheck(t.sibling, false));
  }
}
