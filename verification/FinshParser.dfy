/** The recursive descent parser over the node table, with its single token of replay. */
module FinshParser {
  import opened Basics
  import opened FinshWords
  import opened FinshMachine
  import opened FinshCompiler
  import opened FinshNodes
  import opened FinshGrammar

  // ---------------------------------------------------------------- the table while it grows

  /** Entries of type FINSH_NODE_UNKNOWN. */
  function FreeCount(nodes: seq<Record>): nat {
    if nodes == [] then 0 else
    FreeCount(nodes[..|nodes| - 1]) + if nodes[|nodes| - 1].Unused? then 1 else 0
  }

  /** Nodes of a tree. */
  function Size(t: Tree): nat {
    if t.Nil? then 0 else 1 + Size(t.child) + Size(t.sibling)
  }

  lemma {:induction false} FreeCountUpdate(nodes: seq<Record>, i: int, r: Record)
    requires 0 <= i < |nodes|
    ensures FreeCount(nodes[i := r]) ==
            FreeCount(nodes) - (if nodes[i].Unused? then 1 else 0) + if r.Unused? then 1 else 0
  {
    var n := |nodes| - 1;
    if i < n {
      assert nodes[i := r][..n] == nodes[..n][i := r];
      FreeCountUpdate(nodes[..n], i, r);
    } else {
      assert nodes[i := r][..n] == nodes[..n];
    }
  }

  lemma {:induction false} NoneFree(nodes: seq<Record>)
    requires forall i :: 0 <= i < |nodes| ==> nodes[i].Used?
    ensures FreeCount(nodes) == 0
  {
    if nodes != [] {
      NoneFree(nodes[..|nodes| - 1]);
    }
  }

  /** t was built at p from entries that were unused; all others are as before. */
  ghost predicate Grown(before: seq<Record>, after: seq<Record>, p: int, t: Tree) {
    |after| == |before| && Represents(after, p, t) &&
    (forall q :: 0 <= q < |before| && before[q].Used? ==> after[q] == before[q]) &&
    (forall q :: q in Footprint(after, p, t) ==> 0 <= q < |before| && before[q].Unused?) &&
    FreeCount(after) + Size(t) == FreeCount(before)
  }

  /** Two trees built one after the other. */
  ghost predicate Both(before: seq<Record>, after: seq<Record>, p: int, t: Tree, q: int, u: Tree) {
    |after| == |before| && Represents(after, p, t) && Represents(after, q, u) &&
    Footprint(after, p, t) !! Footprint(after, q, u) &&
    (forall x :: 0 <= x < |before| && before[x].Used? ==> after[x] == before[x]) &&
    (forall x :: x in Footprint(after, p, t) + Footprint(after, q, u) ==> 0 <= x < |before| && before[x].Unused?) &&
    FreeCount(after) + Size(t) + Size(u) == FreeCount(before)
  }

  lemma {:induction false} FootprintUsed(nodes: seq<Record>, p: int, t: Tree, q: int)
    requires Represents(nodes, p, t) && q in Footprint(nodes, p, t)
    ensures 0 <= q < |nodes| && nodes[q].Used?
    decreases t
  {
    if q != p {
      if q in Footprint(nodes, nodes[p].child, t.child) {
        FootprintUsed(nodes, nodes[p].child, t.child, q);
      } else {
        FootprintUsed(nodes, nodes[p].sibling, t.sibling, q);
      }
    }
  }

  /** A later tree leaves an earlier one alone. */
  lemma GrownBoth(before: seq<Record>, middle: seq<Record>, after: seq<Record>, p: int, t: Tree, q: int, u: Tree)
    requires Grown(before, middle, p, t) && Grown(middle, after, q, u)
    ensures Both(before, after, p, t, q, u)
  {
    hide Represents, Footprint, FreeCount, Size;
    forall x | x in Footprint(middle, p, t)
      ensures 0 <= x < |middle| && middle[x].Used?
    {
      FootprintUsed(middle, p, t, x);
    }
    Frame(middle, after, p, t);
    forall x | x in Footprint(after, q, u)
      ensures 0 <= x < |before| && before[x].Unused?
    {
      assert middle[x].Unused?;
    }
    forall x | x in Footprint(after, q, u)
      ensures x !in Footprint(middle, p, t)
    {
      assert middle[x].Unused?;
    }
    assert Footprint(after, p, t) == Footprint(middle, p, t);
  }

  lemma GrownAlone(before: seq<Record>, after: seq<Record>, p: int, t: Tree)
    requires Grown(before, after, p, t)
    ensures Both(before, after, p, t, NULL, Nil)
  {
  }

  /** The entry of a root is rewritten to have a sibling. */
  lemma SetSibling(nodes: seq<Record>, p: int, t: Tree, q: int, u: Tree)
    requires t.Node? && t.sibling.Nil? && Represents(nodes, p, t) && Represents(nodes, q, u)
    requires Footprint(nodes, p, t) !! Footprint(nodes, q, u)
    ensures var nodes' := nodes[p := nodes[p].(sibling := q)];
            Represents(nodes', p, t.(sibling := u)) &&
            Footprint(nodes', p, t.(sibling := u)) == Footprint(nodes, p, t) + Footprint(nodes, q, u)
  {
    assert Footprint(nodes, nodes[p].sibling, t.sibling) == {};
    Rewrite(nodes, p, nodes[p].(sibling := q), t.child, u);
  }

  lemma SizeSibling(t: Tree, u: Tree)
    requires t.Node? && t.sibling.Nil?
    ensures Size(t.(sibling := u)) == Size(t) + Size(u)
  {
  }

  /** The entry that becomes the parent, and the new sibling link. */
  lemma Adopted(before: seq<Record>, nodes: seq<Record>, i: int, kind: Kind, p: int, t: Tree, q: int, u: Tree)
    requires Both(before, nodes, p, t, q, u) && t.Node? && t.sibling.Nil?
    requires 0 <= i < |nodes| && nodes[i].Unused?
    ensures 0 <= p < |nodes| && nodes[p].Used? && i != p
    ensures var n1 := nodes[i := Used(kind, false, Void, p, NULL)];
            var n2 := n1[p := nodes[p].(sibling := q)];
            Grown(before, n2, i, Sys(kind, t, u))
  {
    hide Represents, Footprint, FreeCount;
    RootUsed(nodes, p, t);
    OutsideFootprint(nodes, p, t, i);
    OutsideFootprint(nodes, q, u, i);
    var r := Used(kind, false, Void, p, NULL);
    var n1 := nodes[i := r];
    Frame(nodes, n1, p, t);
    Frame(nodes, n1, q, u);
    SetSibling(n1, p, t, q, u);
    var n2 := n1[p := n1[p].(sibling := q)];
    NilRepresents(n2);
    RootIn(nodes, p, t);
    assert n2 == n2[i := r];
    Rewrite(n2, i, r, t.(sibling := u), Nil);
    FreeCountUpdate(nodes, i, r);
    FreeCountUpdate(n1, p, n1[p].(sibling := q));
    SizeSibling(t, u);
    assert before[i].Unused?;
    assert before[p].Unused?;
  }

  lemma RootUsed(nodes: seq<Record>, p: int, t: Tree)
    requires Represents(nodes, p, t) && t.Node?
    ensures 0 <= p < |nodes| && nodes[p].Used?
  {
  }

  lemma RootIn(nodes: seq<Record>, p: int, t: Tree)
    requires Represents(nodes, p, t) && t.Node?
    ensures p in Footprint(nodes, p, t)
  {
  }

  lemma NilRepresents(nodes: seq<Record>)
    ensures Represents(nodes, NULL, Nil) && Footprint(nodes, NULL, Nil) == {}
  {
  }

  lemma OutsideFootprint(nodes: seq<Record>, p: int, t: Tree, i: int)
    requires Represents(nodes, p, t) && 0 <= i < |nodes| && nodes[i].Unused?
    ensures i !in Footprint(nodes, p, t)
  {
    if i in Footprint(nodes, p, t) {
      FootprintUsed(nodes, p, t, i);
      assert false;
    }
  }

  lemma LeafGrown(nodes: seq<Record>, i: int, kind: Kind)
    requires 0 <= i < |nodes| && nodes[i].Unused?
    ensures Grown(nodes, nodes[i := Used(kind, false, Void, NULL, NULL)], i, Leaf(kind))
  {
    hide FreeCount;
    var r := Used(kind, false, Void, NULL, NULL);
    FreeCountUpdate(nodes, i, r);
    NilRepresents(nodes);
    Rewrite(nodes, i, r, Nil, Nil);
    assert Size(Leaf(kind)) == 1;
  }

  // ---------------------------------------------------------------- sizes

  lemma SysSize(kind: Kind, t: Tree, u: Tree)
    requires t.Node? && t.sibling.Nil?
    ensures Size(Sys(kind, t, u)) == 1 + Size(t) + Size(u)
  {
    SizeSibling(t, u);
  }

  lemma {:induction false} AppendSize(t: Tree, u: Tree)
    ensures Size(Append(t, u)) == Size(t) + Size(u)
  {
    if t.Node? {
      AppendSize(t.sibling, u);
    }
  }

  lemma {:induction false} TailSize(level: nat, a: Tree, ts: seq<Token>, lookup: Lookup)
    requires 1 <= level <= MULTIPLICATIVE && a.Node? && a.sibling.Nil?
    ensures Tail(level, a, ts, lookup).Some? ==> Size(Tail(level, a, ts, lookup).value.0) >= Size(a)
    decreases |ts|
  {
    hide Parse, Size;
    if OpAt(level, Head(ts)).Some? && Parse(level + 1, ts[1..], lookup).Some? {
      var (b, ts1) := Parse(level + 1, ts[1..], lookup).value;
      var t := Sys(Binary(OpAt(level, Head(ts)).value), a, b);
      SysSize(Binary(OpAt(level, Head(ts)).value), a, b);
      TailSize(level, t, ts1, lookup);
    }
  }

  lemma {:induction false} PostSize(a: Tree, ts: seq<Token>, lookup: Lookup)
    requires a.Node? && a.sibling.Nil?
    ensures PostTail(a, ts, lookup).Some? ==> Size(PostTail(a, ts, lookup).value.0) >= Size(a)
    decreases |ts|
  {
    hide ParseParams, Size;
    if Head(ts).TokInc? || Head(ts).TokDec? {
      var kind := if Head(ts).TokInc? then Inc else Dec;
      SysSize(kind, a, Nil);
      PostSize(Sys(kind, a, Nil), ts[1..], lookup);
    } else if Head(ts).LeftParen? && ParseParams(ts[1..], lookup).Some? {
      var (args, ts1) := ParseParams(ts[1..], lookup).value;
      SysSize(Func, a, args);
      PostSize(Sys(Func, a, args), ts1, lookup);
    }
  }

  /** The statement loop after one more expression statement. */
  function LinesAfter(list: Tree, r: Parsed, lookup: Lookup): Option<Tree> {
    if r.None? || Head(r.value.1) != Semicolon then None
    else Lines(Append(list, r.value.0), r.value.1[1..], lookup)
  }

  predicate StartsStatement(t: Token) {
    !t.Eof? && !t.Bad? && !t.Semicolon?
  }

  lemma LinesStep(list: Tree, ts: seq<Token>, lookup: Lookup)
    requires StartsStatement(Head(ts))
    ensures Lines(list, ts, lookup) == LinesAfter(list, Parse(ASSIGN, ts, lookup), lookup)
  {
    hide Parse;
  }

  lemma LinesOther(list: Tree, ts: seq<Token>, lookup: Lookup)
    requires !StartsStatement(Head(ts))
    ensures Lines(list, ts, lookup) ==
            if !Head(ts).Semicolon? || list.Nil? then Some(list) else Lines(list, Drop(ts[1..]), lookup)
  {
  }

  lemma {:induction false} LinesSize(list: Tree, ts: seq<Token>, lookup: Lookup)
    ensures Lines(list, ts, lookup).Some? ==> Size(Lines(list, ts, lookup).value) >= Size(list)
    decreases |ts|
  {
    hide Parse, Size, Lines;
    if StartsStatement(Head(ts)) {
      LinesStep(list, ts, lookup);
      if Parse(ASSIGN, ts, lookup).Some? && Head(Parse(ASSIGN, ts, lookup).value.1) == Semicolon {
        var (t, ts1) := Parse(ASSIGN, ts, lookup).value;
        AppendSize(list, t);
        LinesSize(Append(list, t), ts1[1..], lookup);
      }
    } else {
      LinesOther(list, ts, lookup);
      if Head(ts).Semicolon? && list.Node? {
        LinesSize(list, Drop(ts[1..]), lookup);
      }
    }
  }

  /** The parameter loop once `list` has been read. */
  function ArgsFrom(list: Tree, ts: seq<Token>, lookup: Lookup): Parsed {
    if Head(ts) != Comma then Some((list, ts)) else
    var (u, rest) :- ParseArgs(ts[1..], lookup);
    Some((Append(list, u), rest))
  }

  /** The loop after one more parameter. */
  function ArgsAfter(list: Tree, r: Parsed, lookup: Lookup): Parsed {
    if r.None? then None else ArgsFrom(Append(list, r.value.0), r.value.1, lookup)
  }

  lemma ArgsStep(list: Tree, ts: seq<Token>, lookup: Lookup)
    requires Head(ts) == Comma
    ensures ArgsFrom(list, ts, lookup) == ArgsAfter(list, Parse(ASSIGN, ts[1..], lookup), lookup)
  {
    hide Parse;
    if Parse(ASSIGN, ts[1..], lookup).Some? {
      var (a, ts1) := Parse(ASSIGN, ts[1..], lookup).value;
      if Head(ts1) == Comma && ParseArgs(ts1[1..], lookup).Some? {
        AppendTwice(list, a, ParseArgs(ts1[1..], lookup).value.0);
      }
    }
  }

  lemma ArgsFirst(ts: seq<Token>, lookup: Lookup)
    ensures ParseArgs(ts, lookup) == ArgsAfter(Nil, Parse(ASSIGN, ts, lookup), lookup)
  {
    hide Parse;
    if Parse(ASSIGN, ts, lookup).Some? {
      var (a, ts1) := Parse(ASSIGN, ts, lookup).value;
      if Head(ts1) == Comma && ParseArgs(ts1[1..], lookup).Some? {
        AppendOne(a, ParseArgs(ts1[1..], lookup).value.0);
      }
    }
  }

  lemma AppendOne(t: Tree, u: Tree)
    requires t.Node? && t.sibling.Nil?
    ensures Append(t, u) == t.(sibling := u)
  {
  }

  lemma ArgsFromSize(list: Tree, ts: seq<Token>, lookup: Lookup)
    ensures ArgsFrom(list, ts, lookup).Some? ==> Size(ArgsFrom(list, ts, lookup).value.0) >= Size(list)
  {
    hide ParseArgs, Size;
    if Head(ts) == Comma && ParseArgs(ts[1..], lookup).Some? {
      AppendSize(list, ParseArgs(ts[1..], lookup).value.0);
    }
  }

  // ---------------------------------------------------------------- sibling lists in the table

  /** Entry of the last sibling. */
  ghost function LastAt(nodes: seq<Record>, p: int, t: Tree): int
    requires Represents(nodes, p, t)
    decreases t
  {
    if t.Nil? || t.sibling.Nil? then p else LastAt(nodes, nodes[p].sibling, t.sibling)
  }

  /** Linking u behind the last sibling appends it. */
  lemma {:induction false} AppendAt(nodes: seq<Record>, p: int, t: Tree, q: int, u: Tree)
    requires t.Node? && Represents(nodes, p, t) && Represents(nodes, q, u)
    requires Footprint(nodes, p, t) !! Footprint(nodes, q, u)
    ensures var k := LastAt(nodes, p, t);
            k in Footprint(nodes, p, t) && 0 <= k < |nodes| && nodes[k].Used? &&
            var nodes' := nodes[k := nodes[k].(sibling := q)];
            Represents(nodes', p, Append(t, u)) &&
            Footprint(nodes', p, Append(t, u)) == Footprint(nodes, p, t) + Footprint(nodes, q, u) &&
            (u.Node? && u.sibling.Nil? ==> LastAt(nodes', p, Append(t, u)) == q)
    decreases t
  {
    var k := LastAt(nodes, p, t);
    if t.sibling.Nil? {
      SetSibling(nodes, p, t, q, u);
    } else {
      var s := nodes[p].sibling;
      AppendAt(nodes, s, t.sibling, q, u);
      var nodes' := nodes[k := nodes[k].(sibling := q)];
      Frame(nodes, nodes', nodes[p].child, t.child);
      assert nodes'[p] == nodes[p];
      Rewrite(nodes', p, nodes[p], t.child, Append(t.sibling, u));
      assert nodes'[p := nodes[p]] == nodes';
    }
  }

  /** Two grown parts joined into one list. */
  lemma JoinedGrown(before: seq<Record>, nodes: seq<Record>, p: int, t: Tree, q: int, u: Tree)
    requires Both(before, nodes, p, t, q, u) && t.Node?
    ensures var k := LastAt(nodes, p, t);
            0 <= k < |nodes| && nodes[k].Used? &&
            var nodes' := nodes[k := nodes[k].(sibling := q)];
            Grown(before, nodes', p, Append(t, u)) && Represents(nodes', p, Append(t, u)) &&
            (u.Node? && u.sibling.Nil? ==> LastAt(nodes', p, Append(t, u)) == q)
  {
    hide Represents, Footprint, FreeCount, LastAt;
    AppendAt(nodes, p, t, q, u);
    var k := LastAt(nodes, p, t);
    FreeCountUpdate(nodes, k, nodes[k].(sibling := q));
    AppendSize(t, u);
    assert before[k].Unused?;
  }

  // ---------------------------------------------------------------- the parser

  /** Not enough unused entries for the tree that the input stands for. */
  ghost predicate Short(nodes: seq<Record>, r: Parsed) {
    r.Some? ==> FreeCount(nodes) < Size(r.value.0)
  }

  /** Without an error, the tree of the parse function was built and its remainder is left; an error
      means that the input does not parse or the table is too small. */
  ghost predicate Outcome(r: Parsed, ok: bool, p: int, before: seq<Record>, after: seq<Record>, rest: seq<Token>) {
    |after| == |before| &&
    (ok ==> r.Some? && rest == r.value.1 && Grown(before, after, p, r.value.0)) &&
    (!ok ==> Short(before, r))
  }

  class Parser {
    const tokens: seq<Token>   // what the lexer delivers for the line
    const lookup: Lookup
    const nodes: array<Record> // global_node_table
    var position: nat
    var replay: bool
    var current: Token         // current_token

    ghost predicate Valid()
      reads this
    {
      position <= |tokens| && Eof !in tokens && (current.Eof? ==> position == |tokens|)
    }

    /** The tokens still to come. */
    ghost function Rest(): seq<Token>
      reads this
      requires Valid()
    {
      if replay && !current.Eof? then [current] + tokens[position..] else tokens[position..]
    }

    constructor (tokens: seq<Token>, lookup: Lookup, nodes: array<Record>)
      requires Eof !in tokens
      ensures Valid() && Rest() == tokens && this.tokens == tokens && this.lookup == lookup && this.nodes == nodes
    {
      this.tokens := tokens;
      this.lookup := lookup;
      this.nodes := nodes;
      position := 0;
      replay := false;
      current := Bad;
    }

    /** The token just taken from ts. */
    ghost predicate Took(t: Token, ts: seq<Token>)
      reads this
    {
      Valid() && !replay && current == t && t == Head(ts) && Rest() == Drop(ts) && Eof !in ts
    }

    /** finsh_token_token. */
    method NextToken() returns (t: Token)
      requires Valid()
      modifies this`position, this`replay, this`current
      ensures Took(t, old(Rest()))
    {
      if replay {
        replay := false;
      } else if position < |tokens| {
        current := tokens[position];
        position := position + 1;
      } else {
        current := Eof;
      }
      t := current;
    }

    /** finsh_token_replay: the token taken last comes again. */
    method Replay(ghost ts: seq<Token>)
      requires Took(current, ts)
      modifies this`replay
      ensures Valid() && Rest() == ts
    {
      replay := true;
    }

    /** finsh_node_allocate: the first unused entry. */
    method AllocateNode(kind: Kind) returns (i: int)
      modifies nodes
      ensures i == NULL ==> FreeCount(nodes[..]) == 0 && nodes[..] == old(nodes[..])
      ensures i != NULL ==>
                0 <= i < nodes.Length && old(nodes[i]).Unused? &&
                nodes[..] == old(nodes[..])[i := Used(kind, false, Void, NULL, NULL)]
    {
      i := 0;
      while i < nodes.Length
        invariant 0 <= i <= nodes.Length
        invariant forall k :: 0 <= k < i ==> nodes[k].Used?
      {
        if nodes[i].Unused? {
          break;
        }
        i := i + 1;
      }
      if i == nodes.Length {
        NoneFree(nodes[..]);
        return NULL;
      }
      nodes[i] := Used(kind, false, Void, NULL, NULL);
    }

    /** finsh_node_new_id, finsh_node_new_int and finsh_node_new_long. */
    method NewLeaf(kind: Kind) returns (ok: bool, p: int)
      modifies nodes
      ensures |nodes[..]| == |old(nodes[..])|
      ensures ok ==> Grown(old(nodes[..]), nodes[..], p, Leaf(kind))
      ensures !ok ==> FreeCount(old(nodes[..])) == 0
    {
      hide Grown, FreeCount;
      p := AllocateNode(kind);
      ok := p != NULL;
      if ok {
        LeafGrown(old(nodes[..]), p, kind);
      }
    }

    /** make_sys_node. */
    method MakeSysNode(kind: Kind, node1: int, node2: int, ghost base: seq<Record>, ghost t: Tree, ghost u: Tree)
        returns (ok: bool, p: int)
      requires Both(base, nodes[..], node1, t, node2, u) && t.Node? && t.sibling.Nil?
      modifies nodes
      ensures |nodes[..]| == |base|
      ensures ok ==> Grown(base, nodes[..], p, Sys(kind, t, u))
      ensures !ok ==> FreeCount(base) < Size(Sys(kind, t, u))
    {
      hide Represents, Footprint, FreeCount, Size, Grown;
      ghost var before := nodes[..];
      SysSize(kind, t, u);
      p := AllocateNode(kind);
      ok := p != NULL;
      if ok {
        Adopted(base, before, p, kind, node1, t, node2, u);
        nodes[p] := nodes[p].(child := node1);
        nodes[node1] := nodes[node1].(sibling := node2);
        assert nodes[..] == before[p := Used(kind, false, Void, node1, NULL)][node1 := before[node1].(sibling := node2)];
      }
    }

    /** The function of a level: proc_assign_expr, the six binary levels, proc_cast_expr and below. */
    method Proc(level: nat) returns (ok: bool, p: int)
      requires Valid() && level <= PRIMARY
      modifies this`position, this`replay, this`current, nodes
      ensures Valid()
      ensures Outcome(Parse(level, old(Rest()), lookup), ok, p, old(nodes[..]), nodes[..], Rest())
      decreases |Rest()|, PRIMARY - level, 1
    {
      hide Parse, Outcome;
      if level == ASSIGN {
        ok, p := ProcAssign();
      } else if level <= MULTIPLICATIVE {
        ok, p := ProcBinary(level);
      } else if level == CAST {
        ok, p := ProcCast();
      } else if level == UNARY {
        ok, p := ProcUnary();
      } else if level == POSTFIX {
        ok, p := ProcPostfix();
      } else {
        ok, p := ProcPrimary();
      }
    }

    /** proc_assign_expr. */
    method ProcAssign() returns (ok: bool, p: int)
      requires Valid()
      modifies this`position, this`replay, this`current, nodes
      ensures Valid()
      ensures Outcome(Parse(ASSIGN, old(Rest()), lookup), ok, p, old(nodes[..]), nodes[..], Rest())
      decreases |Rest()|, PRIMARY, 0
    {
      hide Parse, Grown, FreeCount, Size, Both;
      ghost var base, ts0 := nodes[..], Rest();
      AssignLevel(ts0, lookup);
      ok, p := Proc(1);
      if !ok {
        return;
      }
      ghost var a, ts := Parse(1, ts0, lookup).value.0, Rest();
      var token := NextToken();
      if token == TokAssign {
        ghost var middle := nodes[..];
        var q;
        ok, q := Proc(ASSIGN);
        GrownCount(base, middle, p, a);
        if !ok {
          return;
        }
        ghost var b := Parse(ASSIGN, ts[1..], lookup).value.0;
        GrownBoth(base, middle, nodes[..], p, a, q, b);
        ok, p := MakeSysNode(Assign, p, q, base, a, b);
      } else {
        Replay(ts);
      }
    }

    /** The binary levels, proc_inclusive_or_expr to proc_multiplicative_expr: one loop each, over
        the operators of the level. */
    method ProcBinary(level: nat) returns (ok: bool, p: int)
      requires Valid() && 1 <= level <= MULTIPLICATIVE
      modifies this`position, this`replay, this`current, nodes
      ensures Valid()
      ensures Outcome(Parse(level, old(Rest()), lookup), ok, p, old(nodes[..]), nodes[..], Rest())
      decreases |Rest()|, PRIMARY - level, 0
    {
      hide Parse, Tail, Grown, FreeCount, Size, Both, OpAt;
      ghost var base, ts0 := nodes[..], Rest();
      BinaryStart(level, ts0, lookup);
      ok, p := Proc(level + 1);
      if !ok {
        return;
      }
      ghost var a, ts := Parse(level + 1, ts0, lookup).value.0, Rest();
      var token := NextToken();
      while OpAt(level, token).Some?
        invariant Took(token, ts) && |ts| < |ts0|
        invariant |nodes[..]| == |base| && Grown(base, nodes[..], p, a) && a.Node? && a.sibling.Nil?
        invariant Parse(level, ts0, lookup) == Tail(level, a, ts, lookup)
        decreases |ts|
      {
        TailMore(level, a, ts, lookup);
        ghost var b := Parse(level + 1, ts[1..], lookup);
        ok, p := BinaryStep(level, OpAt(level, token).value, p, base, a, ts);
        if !ok {
          return;
        }
        a := Sys(Binary(OpAt(level, token).value), a, b.value.0);
        ts := Rest();
        token := NextToken();
      }
      TailLast(level, a, ts, lookup);
      Replay(ts);
      ok := true;
    }

    /** One turn of such a loop: the right operand and the node. */
    method BinaryStep(level: nat, op: ArithOp, node1: int, ghost base: seq<Record>, ghost a: Tree, ghost ts: seq<Token>)
        returns (ok: bool, p: int)
      requires Valid() && 1 <= level <= MULTIPLICATIVE && OpAt(level, Head(ts)) == Some(op) && ts != [] && Rest() == ts[1..]
      requires |nodes[..]| == |base| && Grown(base, nodes[..], node1, a) && a.Node? && a.sibling.Nil?
      modifies this`position, this`replay, this`current, nodes
      ensures Valid() && |nodes[..]| == |base|
      ensures !ok ==> Short(base, Tail(level, a, ts, lookup))
      ensures ok ==>
                var second := Parse(level + 1, ts[1..], lookup);
                second.Some? && Rest() == second.value.1 && Grown(base, nodes[..], p, Sys(Binary(op), a, second.value.0))
      decreases |Rest()|, PRIMARY - level, 0
    {
      hide Parse, Tail, Grown, FreeCount, Size, Both, OpAt;
      ghost var middle := nodes[..];
      GrownCount(base, middle, node1, a);
      TailMore(level, a, ts, lookup);
      var q;
      ok, q := Proc(level + 1);
      if !ok {
        return false, NULL;
      }
      ghost var b := Parse(level + 1, ts[1..], lookup).value.0;
      GrownBoth(base, middle, nodes[..], node1, a, q, b);
      ok, p := MakeSysNode(Binary(op), node1, q, base, a, b);
    }

    /** proc_cast_expr where no token is a type: a left parenthesis is an error. */
    method ProcCast() returns (ok: bool, p: int)
      requires Valid()
      modifies this`position, this`replay, this`current, nodes
      ensures Valid()
      ensures Outcome(Parse(CAST, old(Rest()), lookup), ok, p, old(nodes[..]), nodes[..], Rest())
      decreases |Rest()|, PRIMARY - CAST, 0
    {
      hide Parse, Grown, FreeCount, Size;
      ghost var ts0 := Rest();
      CastLevel(ts0, lookup);
      var token := NextToken();
      if token == LeftParen {
        return false, NULL;
      }
      Replay(ts0);
      ok, p := ProcUnary();
    }

    /** proc_unary_expr. */
    method ProcUnary() returns (ok: bool, p: int)
      requires Valid()
      modifies this`position, this`replay, this`current, nodes
      ensures Valid()
      ensures Outcome(Parse(UNARY, old(Rest()), lookup), ok, p, old(nodes[..]), nodes[..], Rest())
      decreases |Rest()|, PRIMARY - UNARY, 0
    {
      hide Parse, Grown, FreeCount, Size, Both;
      ghost var base, ts0 := nodes[..], Rest();
      UnaryLevel(ts0, lookup);
      var token := NextToken();
      if PrefixOf(token).None? {
        Replay(ts0);
        ok, p := ProcPostfix();
        return;
      }
      ok, p := ProcCast();
      if !ok {
        return;
      }
      ghost var x := Parse(CAST, ts0[1..], lookup).value.0;
      ok, p := PrefixNode(PrefixOf(token).value, p, base, x);
    }

    /** The node of a prefix operator: none for plus, a subtraction from a new 0 for minus. */
    method PrefixNode(prefix: Prefix, operand: int, ghost base: seq<Record>, ghost x: Tree) returns (ok: bool, p: int)
      requires Grown(base, nodes[..], operand, x) && x.Node? && x.sibling.Nil?
      modifies nodes
      ensures |nodes[..]| == |base|
      ensures ok ==> Grown(base, nodes[..], p, PrefixTree(prefix, x))
      ensures !ok ==> FreeCount(base) < Size(PrefixTree(prefix, x))
    {
      hide Grown, FreeCount, Size, Both;
      ghost var middle := nodes[..];
      GrownCount(base, middle, operand, x);
      GrownAlone(base, middle, operand, x);
      match prefix
      case Plus => ok, p := true, operand;
      case Minus =>
        var zero;
        ok, zero := NewLeaf(Value(0));
        SysSize(Binary(Sub), Leaf(Value(0)), x);
        LeafSize(Value(0));
        if !ok {
          return false, NULL;
        }
        GrownBoth(base, middle, nodes[..], operand, x, zero, Leaf(Value(0)));
        BothSwap(base, nodes[..], operand, x, zero, Leaf(Value(0)));
        ok, p := MakeSysNode(Binary(Sub), zero, operand, base, Leaf(Value(0)), x);
      case BeforeInc => ok, p := MakeSysNode(PreInc, operand, NULL, base, x, Nil);
      case BeforeDec => ok, p := MakeSysNode(PreDec, operand, NULL, base, x, Nil);
      case Complement => ok, p := MakeSysNode(Bitwise, operand, NULL, base, x, Nil);
      case Deref => ok, p := MakeSysNode(GetValue, operand, NULL, base, x, Nil);
      case AddressOf => ok, p := MakeSysNode(GetAddr, operand, NULL, base, x, Nil);
    }

    /** proc_postfix_expr. */
    method ProcPostfix() returns (ok: bool, p: int)
      requires Valid()
      modifies this`position, this`replay, this`current, nodes
      ensures Valid()
      ensures Outcome(Parse(POSTFIX, old(Rest()), lookup), ok, p, old(nodes[..]), nodes[..], Rest())
      decreases |Rest()|, PRIMARY - POSTFIX, 0
    {
      hide Parse, PostTail, ParseParams, Grown, FreeCount, Size, Both;
      ghost var base, ts0 := nodes[..], Rest();
      PostfixStart(ts0, lookup);
      ok, p := ProcPrimary();
      if !ok {
        return;
      }
      ghost var a, ts := Parse(PRIMARY, ts0, lookup).value.0, Rest();
      var token := NextToken();
      while token == TokInc || token == TokDec || token == LeftParen
        invariant Took(token, ts) && |ts| < |ts0|
        invariant |nodes[..]| == |base| && Grown(base, nodes[..], p, a) && a.Node? && a.sibling.Nil?
        invariant Parse(POSTFIX, ts0, lookup) == PostTail(a, ts, lookup)
        decreases |ts|
      {
        ghost var middle := nodes[..];
        GrownCount(base, middle, p, a);
        PostMore(a, ts, lookup);
        if token == LeftParen {
          var q;
          ok, q := ProcParams();
          if !ok {
            return;
          }
          ghost var b := ParseParams(ts[1..], lookup).value.0;
          GrownBoth(base, middle, nodes[..], p, a, q, b);
          ok, p := MakeSysNode(Func, p, q, base, a, b);
          a := Sys(Func, a, b);
        } else {
          GrownAlone(base, middle, p, a);
          ok, p := MakeSysNode(if token == TokInc then Inc else Dec, p, NULL, base, a, Nil);
          a := Sys(if token == TokInc then Inc else Dec, a, Nil);
        }
        if !ok {
          return;
        }
        ts := Rest();
        token := NextToken();
      }
      PostLast(a, ts, lookup);
      Replay(ts);
      ok := true;
    }

    /** The parameters of a call, after the left parenthesis. */
    method ProcParams() returns (ok: bool, p: int)
      requires Valid()
      modifies this`position, this`replay, this`current, nodes
      ensures Valid()
      ensures Outcome(ParseParams(old(Rest()), lookup), ok, p, old(nodes[..]), nodes[..], Rest())
      decreases |Rest()|, PRIMARY + 3, 0
    {
      hide Parse, ParseArgs, Grown, FreeCount, Size;
      ghost var base, ts0 := nodes[..], Rest();
      var token := NextToken();
      if token == RightParen {
        NilGrown(base);
        return true, NULL;
      }
      Replay(ts0);
      ok, p := ProcParamList();
      if !ok {
        return;
      }
      token := NextToken();
      ok := token == RightParen;
    }

    /** proc_param_list: each parameter becomes the sibling of the one before. */
    method ProcParamList() returns (ok: bool, p: int)
      requires Valid()
      modifies this`position, this`replay, this`current, nodes
      ensures Valid()
      ensures Outcome(ParseArgs(old(Rest()), lookup), ok, p, old(nodes[..]), nodes[..], Rest())
      decreases |Rest()|, PRIMARY + 2, 0
    {
      hide Parse, ParseArgs, ArgsFrom, Grown, FreeCount, Size, Both, LastAt, Represents;
      ghost var base, ts0 := nodes[..], Rest();
      ArgsBegin(ts0, lookup);
      ok, p := ProcAssign();
      if !ok {
        return;
      }
      ghost var list, ts := Parse(ASSIGN, ts0, lookup).value.0, Rest();
      var last := p;
      OnlyLast(base, nodes[..], p, list);
      var token := NextToken();
      while token == Comma
        invariant Took(token, ts) && |ts| < |ts0|
        invariant |nodes[..]| == |base| && Grown(base, nodes[..], p, list) && list.Node?
        invariant Represents(nodes[..], p, list) && last == LastAt(nodes[..], p, list)
        invariant ParseArgs(ts0, lookup) == ArgsFrom(list, ts, lookup)
        decreases |ts|
      {
        ghost var middle := nodes[..];
        GrownCount(base, middle, p, list);
        ArgsMore(list, ts, lookup);
        var q;
        ok, q := ProcAssign();
        if !ok {
          return;
        }
        ghost var b := Parse(ASSIGN, ts[1..], lookup).value.0;
        GrownBoth(base, middle, nodes[..], p, list, q, b);
        LastKept(base, middle, nodes[..], p, list, q, b);
        LinkLast(last, q, base, p, list, b);
        last := q;
        list := Append(list, b);
        ts := Rest();
        token := NextToken();
      }
      ArgsLast(list, ts, lookup);
      Replay(ts);
      ok := true;
    }

    /** Link a tree behind the last entry of a list. */
    method LinkLast(last: int, q: int, ghost base: seq<Record>, ghost p: int, ghost t: Tree, ghost u: Tree)
      requires Both(base, nodes[..], p, t, q, u) && t.Node? && u.Node? && u.sibling.Nil?
      requires Represents(nodes[..], p, t) && last == LastAt(nodes[..], p, t)
      modifies nodes
      ensures |nodes[..]| == |base| && Grown(base, nodes[..], p, Append(t, u))
      ensures Represents(nodes[..], p, Append(t, u)) && LastAt(nodes[..], p, Append(t, u)) == q
    {
      hide Grown, FreeCount, LastAt, Append, Represents, Both;
      ghost var before := nodes[..];
      JoinedGrown(base, before, p, t, q, u);
      BothLength(base, before, p, t, q, u);
      nodes[last] := nodes[last].(sibling := q);
      assert nodes[..] == before[last := before[last].(sibling := q)];
    }

    /** proc_primary_expr. */
    method ProcPrimary() returns (ok: bool, p: int)
      requires Valid()
      modifies this`position, this`replay, this`current, nodes
      ensures Valid()
      ensures Outcome(Parse(PRIMARY, old(Rest()), lookup), ok, p, old(nodes[..]), nodes[..], Rest())
      decreases |Rest()|, 0, 0
    {
      hide Parse, Grown, FreeCount, Size;
      ghost var ts0 := Rest();
      PrimaryLevel(ts0, lookup);
      var token := NextToken();
      match token
      case Name(id) =>
        var symbol := lookup(id);
        if symbol.None? {
          return false, NULL;
        }
        LeafSize(Id(symbol.value));
        ok, p := NewLeaf(Id(symbol.value));
      case Number(v) =>
        LeafSize(Value(v));
        ok, p := NewLeaf(Value(v));
      case LeftParen =>
        ok, p := ProcAssign();
        if !ok {
          return;
        }
        token := NextToken();
        ok := token == RightParen;
      case _ => return false, NULL;
    }

    /** proc_expr_statement: an expression and its semicolon, or a semicolon alone. */
    method ProcExprStatement() returns (ok: bool, p: int)
      requires Valid()
      modifies this`position, this`replay, this`current, nodes
      ensures Valid() && |nodes[..]| == |old(nodes[..])|
      ensures Head(old(Rest())) == Semicolon ==>
                ok && p == NULL && nodes[..] == old(nodes[..]) && Rest() == Drop(old(Rest()))
      ensures Head(old(Rest())) != Semicolon ==>
                var r := Parse(ASSIGN, old(Rest()), lookup);
                (ok ==> r.Some? && Head(r.value.1) == Semicolon && Rest() == r.value.1[1..] &&
                        Grown(old(nodes[..]), nodes[..], p, r.value.0)) &&
                (!ok ==> r.None? || Head(r.value.1) != Semicolon || FreeCount(old(nodes[..])) < Size(r.value.0))
    {
      hide Parse, Grown, FreeCount, Size;
      ghost var ts0 := Rest();
      var token := NextToken();
      if token == Semicolon {
        return true, NULL;
      }
      Replay(ts0);
      ok, p := ProcAssign();
      if !ok {
        return;
      }
      token := NextToken();
      ok := token == Semicolon;
    }

    /** The sibling of the last statement is set to NULL, which it is already. */
    method HangNothing(node: int, ghost root: int, ghost list: Tree)
      requires Represents(nodes[..], root, list) && list.Node? && node == LastAt(nodes[..], root, list)
      modifies nodes
      ensures nodes[..] == old(nodes[..])
    {
      hide Represents, LastAt;
      ghost var before := nodes[..];
      LastSibling(before, root, list);
      nodes[node] := nodes[node].(sibling := NULL);
      assert nodes[..] == before;
    }

    /** A statement behind the last one, or as the root. */
    method HangStatement(root: int, node: int, q: int, ghost base: seq<Record>, ghost middle: seq<Record>,
                         ghost list: Tree, ghost t: Tree)
        returns (root': int)
      requires Hanging(base, middle, root, node, list) && Grown(middle, nodes[..], q, t) && t.Node? && t.sibling.Nil?
      modifies nodes
      ensures |nodes[..]| == |base| && Hanging(base, nodes[..], root', q, Append(list, t)) && root' != NULL
    {
      hide Grown, FreeCount, Size, Both, LastAt, Represents;
      GrownCount(base, middle, root, list);
      GrownCount(middle, nodes[..], q, t);
      GrownRoot(middle, nodes[..], q, t);
      root' := root;
      if root != NULL {
        GrownBoth(base, middle, nodes[..], root, list, q, t);
        LastKept(base, middle, nodes[..], root, list, q, t);
        LinkLast(node, q, base, root, list, t);
      } else {
        GrownFirst(base, middle, nodes[..], q, t);
        OnlyLast(base, nodes[..], q, t);
        root' := q;
      }
    }

    /** finsh_parser_run: without an error the statement list of the line hangs at the root; an
        error means that the line does not parse or needs more nodes than there are. */
    method ParserRun() returns (ok: bool, root: int)
      requires Valid()
      modifies this`position, this`replay, this`current, nodes
      ensures Valid() && |nodes[..]| == |old(nodes[..])|
      ensures ok ==> Lines(Nil, old(Rest()), lookup).Some? &&
                     Grown(old(nodes[..]), nodes[..], root, Lines(Nil, old(Rest()), lookup).value)
      ensures !ok && Lines(Nil, old(Rest()), lookup).Some? ==>
                FreeCount(old(nodes[..])) < Size(Lines(Nil, old(Rest()), lookup).value)
    {
      hide Parse, Lines, Grown, FreeCount, Size, Hanging, Append;
      ghost var base, ts0 := nodes[..], Rest();
      HangingNone(base);
      root := NULL;
      var node := NULL;
      ghost var list, ts := Nil, Rest();
      var token := NextToken();
      while token != Eof && token != Bad
        invariant Took(token, ts) && |nodes[..]| == |base| && Hanging(base, nodes[..], root, node, list)
        invariant Lines(Nil, ts0, lookup) == Lines(list, ts, lookup)
        decreases |ts|
      {
        Replay(ts);
        ghost var middle := nodes[..];
        HangingFacts(base, middle, root, node, list);
        LinesNext(list, ts, lookup);
        var q;
        ok, q := ProcExprStatement();
        if !ok {
          return;
        }
        if token == Semicolon {
          if root == NULL {
            return true, NULL;
          }
          HangNothing(node, root, list);
          token := NextToken();
        } else {
          ghost var t := Parse(ASSIGN, ts, lookup).value.0;
          root := HangStatement(root, node, q, base, middle, list, t);
          node := q;
          list := Append(list, t);
        }
        ts := Rest();
        token := NextToken();
      }
      HangingFacts(base, nodes[..], root, node, list);
      LinesEnd(list, ts, lookup);
      ok := true;
    }
  }

  /** The statements so far hang at the root, the last of them at `node`. */
  ghost predicate Hanging(base: seq<Record>, nodes: seq<Record>, root: int, node: int, list: Tree) {
    Grown(base, nodes, root, list) && (root == NULL <==> list.Nil?) &&
    (list.Node? ==> Represents(nodes, root, list) && node == LastAt(nodes, root, list))
  }

  lemma HangingNone(nodes: seq<Record>)
    ensures Hanging(nodes, nodes, NULL, NULL, Nil)
  {
  }

  lemma HangingFacts(base: seq<Record>, nodes: seq<Record>, root: int, node: int, list: Tree)
    requires Hanging(base, nodes, root, node, list)
    ensures Grown(base, nodes, root, list) && FreeCount(nodes) + Size(list) == FreeCount(base)
    ensures root == NULL <==> list.Nil?
    ensures list.Node? ==> Represents(nodes, root, list) && node == LastAt(nodes, root, list)
  {
  }

  /** The statement loop, one statement further. */
  lemma LinesNext(list: Tree, ts: seq<Token>, lookup: Lookup)
    requires !Head(ts).Eof? && !Head(ts).Bad?
    ensures ts != []
    ensures var r := Lines(list, ts, lookup);
            if Head(ts) == Semicolon then r == if list.Nil? then Some(Nil) else Lines(list, Drop(ts[1..]), lookup) else
            var s := Parse(ASSIGN, ts, lookup);
            (s.None? || Head(s.value.1) != Semicolon ==> r.None?) &&
            (s.Some? && Head(s.value.1) == Semicolon ==>
               r == Lines(Append(list, s.value.0), s.value.1[1..], lookup) &&
               (r.Some? ==> Size(r.value) >= Size(list) + Size(s.value.0)))
  {
    hide Parse, Lines, Size;
    if StartsStatement(Head(ts)) {
      LinesStep(list, ts, lookup);
      if Parse(ASSIGN, ts, lookup).Some? && Head(Parse(ASSIGN, ts, lookup).value.1) == Semicolon {
        var (t, ts1) := Parse(ASSIGN, ts, lookup).value;
        AppendSize(list, t);
        LinesSize(Append(list, t), ts1[1..], lookup);
      }
    } else {
      LinesOther(list, ts, lookup);
    }
  }

  lemma LinesEnd(list: Tree, ts: seq<Token>, lookup: Lookup)
    requires Head(ts).Eof? || Head(ts).Bad?
    ensures Lines(list, ts, lookup) == Some(list)
  {
  }

  lemma GrownRoot(before: seq<Record>, after: seq<Record>, p: int, t: Tree)
    requires Grown(before, after, p, t) && t.Node?
    ensures p != NULL && Represents(after, p, t)
  {
  }

  /** Nothing was built before. */
  lemma GrownFirst(base: seq<Record>, middle: seq<Record>, after: seq<Record>, q: int, t: Tree)
    requires Grown(base, middle, NULL, Nil) && Grown(middle, after, q, t)
    ensures Grown(base, after, q, t)
  {
    hide Represents, FreeCount;
  }

  lemma {:induction false} LastSibling(nodes: seq<Record>, p: int, t: Tree)
    requires Represents(nodes, p, t) && t.Node?
    ensures var k := LastAt(nodes, p, t); 0 <= k < |nodes| && nodes[k].Used? && nodes[k].sibling == NULL
    decreases t
  {
    if t.sibling.Node? {
      LastSibling(nodes, nodes[p].sibling, t.sibling);
    }
  }

  // ---------------------------------------------------------------- the parse function, level by level

  lemma GrownCount(before: seq<Record>, after: seq<Record>, p: int, t: Tree)
    requires Grown(before, after, p, t)
    ensures |after| == |before| && FreeCount(after) + Size(t) == FreeCount(before)
  {
  }

  lemma BothLength(before: seq<Record>, after: seq<Record>, p: int, t: Tree, q: int, u: Tree)
    requires Both(before, after, p, t, q, u)
    ensures |after| == |before|
  {
  }

  lemma NilGrown(nodes: seq<Record>)
    ensures Grown(nodes, nodes, NULL, Nil)
  {
  }

  lemma LeafSize(kind: Kind)
    ensures Size(Leaf(kind)) == 1
  {
  }

  lemma BothSwap(before: seq<Record>, after: seq<Record>, p: int, t: Tree, q: int, u: Tree)
    requires Both(before, after, p, t, q, u)
    ensures Both(before, after, q, u, p, t)
  {
    hide Represents, Footprint, FreeCount, Size;
    assert Footprint(after, p, t) + Footprint(after, q, u) == Footprint(after, q, u) + Footprint(after, p, t);
  }

  /** An expression is at least as large as its part. */
  predicate AtLeast(r: Parsed, n: nat) {
    r.Some? ==> Size(r.value.0) >= n
  }

  lemma AssignLevel(ts: seq<Token>, lookup: Lookup)
    ensures var first := Parse(1, ts, lookup);
            var r := Parse(ASSIGN, ts, lookup);
            (first.None? ==> r.None?) &&
            (first.Some? ==>
               var (a, ts1) := first.value;
               AtLeast(r, Size(a)) &&
               if Head(ts1) != TokAssign then r == Some((a, ts1)) else
               var second := Parse(ASSIGN, ts1[1..], lookup);
               (second.None? ==> r.None?) &&
               (second.Some? ==> r == Some((Sys(Assign, a, second.value.0), second.value.1)) &&
                                 Size(r.value.0) == 1 + Size(a) + Size(second.value.0)))
  {
    hide Size;
    if Parse(1, ts, lookup).Some? {
      var (a, ts1) := Parse(1, ts, lookup).value;
      if Head(ts1) == TokAssign && Parse(ASSIGN, ts1[1..], lookup).Some? {
        SysSize(Assign, a, Parse(ASSIGN, ts1[1..], lookup).value.0);
      }
    }
  }

  lemma BinaryStart(level: nat, ts: seq<Token>, lookup: Lookup)
    requires 1 <= level <= MULTIPLICATIVE
    ensures var first := Parse(level + 1, ts, lookup);
            var r := Parse(level, ts, lookup);
            (first.None? ==> r.None?) &&
            (first.Some? ==> r == Tail(level, first.value.0, first.value.1, lookup) && AtLeast(r, Size(first.value.0)))
  {
    hide Size, Tail, Parse;
    BinaryLevel(level, ts, lookup);
    if Parse(level + 1, ts, lookup).Some? {
      var (a, ts1) := Parse(level + 1, ts, lookup).value;
      TailSize(level, a, ts1, lookup);
    }
  }

  lemma TailMore(level: nat, a: Tree, ts: seq<Token>, lookup: Lookup)
    requires 1 <= level <= MULTIPLICATIVE && a.Node? && a.sibling.Nil? && OpAt(level, Head(ts)).Some?
    ensures ts != []
    ensures var second := Parse(level + 1, ts[1..], lookup);
            var r := Tail(level, a, ts, lookup);
            (second.None? ==> r.None?) &&
            (second.Some? ==>
               var t := Sys(Binary(OpAt(level, Head(ts)).value), a, second.value.0);
               r == Tail(level, t, second.value.1, lookup) && AtLeast(r, Size(t)) &&
               Size(t) == 1 + Size(a) + Size(second.value.0))
  {
    hide Size, Parse;
    if Parse(level + 1, ts[1..], lookup).Some? {
      var (b, ts1) := Parse(level + 1, ts[1..], lookup).value;
      var t := Sys(Binary(OpAt(level, Head(ts)).value), a, b);
      SysSize(Binary(OpAt(level, Head(ts)).value), a, b);
      TailSize(level, t, ts1, lookup);
    }
  }

  lemma TailLast(level: nat, a: Tree, ts: seq<Token>, lookup: Lookup)
    requires 1 <= level <= MULTIPLICATIVE && a.Node? && a.sibling.Nil? && OpAt(level, Head(ts)).None?
    ensures Tail(level, a, ts, lookup) == Some((a, ts))
  {
  }

  lemma CastLevel(ts: seq<Token>, lookup: Lookup)
    ensures Parse(CAST, ts, lookup) == if Head(ts) == LeftParen then None else Parse(UNARY, ts, lookup)
  {
  }

  lemma UnaryLevel(ts: seq<Token>, lookup: Lookup)
    ensures if PrefixOf(Head(ts)).None? then Parse(UNARY, ts, lookup) == Parse(POSTFIX, ts, lookup) else
            ts != [] &&
            var x := Parse(CAST, ts[1..], lookup);
            var r := Parse(UNARY, ts, lookup);
            (x.None? ==> r.None?) &&
            (x.Some? ==> r == Some((PrefixTree(PrefixOf(Head(ts)).value, x.value.0), x.value.1)) &&
                         Size(r.value.0) >= Size(x.value.0))
  {
    hide Size;
    if PrefixOf(Head(ts)).Some? && Parse(CAST, ts[1..], lookup).Some? {
      PrefixSize(PrefixOf(Head(ts)).value, Parse(CAST, ts[1..], lookup).value.0);
    }
  }

  lemma PrefixSize(p: Prefix, x: Tree)
    requires x.Node? && x.sibling.Nil?
    ensures Size(PrefixTree(p, x)) >= Size(x)
  {
    hide Size;
    SysSize(Binary(Sub), Leaf(Value(0)), x);
    SysSize(PreInc, x, Nil);
    SysSize(PreDec, x, Nil);
    SysSize(Bitwise, x, Nil);
    SysSize(GetValue, x, Nil);
    SysSize(GetAddr, x, Nil);
  }

  lemma PostfixStart(ts: seq<Token>, lookup: Lookup)
    ensures var first := Parse(PRIMARY, ts, lookup);
            var r := Parse(POSTFIX, ts, lookup);
            (first.None? ==> r.None?) &&
            (first.Some? ==> r == PostTail(first.value.0, first.value.1, lookup) && AtLeast(r, Size(first.value.0)))
  {
    hide Size, PostTail;
    if Parse(PRIMARY, ts, lookup).Some? {
      var (a, ts1) := Parse(PRIMARY, ts, lookup).value;
      PostSize(a, ts1, lookup);
    }
  }

  lemma PostMore(a: Tree, ts: seq<Token>, lookup: Lookup)
    requires a.Node? && a.sibling.Nil? && Head(ts) in {TokInc, TokDec, LeftParen}
    ensures ts != []
    ensures var r := PostTail(a, ts, lookup);
            if Head(ts) == LeftParen then
              var args := ParseParams(ts[1..], lookup);
              (args.None? ==> r.None?) &&
              (args.Some? ==>
                 var t := Sys(Func, a, args.value.0);
                 r == PostTail(t, args.value.1, lookup) && AtLeast(r, Size(t)) &&
                 Size(t) == 1 + Size(a) + Size(args.value.0))
            else
              var t := Sys(if Head(ts) == TokInc then Inc else Dec, a, Nil);
              r == PostTail(t, ts[1..], lookup) && AtLeast(r, Size(t)) && Size(t) == 1 + Size(a)
  {
    hide Size, ParseParams;
    if Head(ts) == LeftParen {
      if ParseParams(ts[1..], lookup).Some? {
        var (args, ts1) := ParseParams(ts[1..], lookup).value;
        SysSize(Func, a, args);
        PostSize(Sys(Func, a, args), ts1, lookup);
      }
    } else {
      var kind := if Head(ts) == TokInc then Inc else Dec;
      SysSize(kind, a, Nil);
      NilSize();
      PostSize(Sys(kind, a, Nil), ts[1..], lookup);
    }
  }

  lemma NilSize()
    ensures Size(Nil) == 0
  {
  }

  lemma PostLast(a: Tree, ts: seq<Token>, lookup: Lookup)
    requires a.Node? && a.sibling.Nil? && Head(ts) !in {TokInc, TokDec, LeftParen}
    ensures PostTail(a, ts, lookup) == Some((a, ts))
  {
  }

  lemma ArgsBegin(ts: seq<Token>, lookup: Lookup)
    ensures var first := Parse(ASSIGN, ts, lookup);
            var r := ParseArgs(ts, lookup);
            (first.None? ==> r.None?) &&
            (first.Some? ==> r == ArgsFrom(first.value.0, first.value.1, lookup) && AtLeast(r, Size(first.value.0)))
  {
    hide Size, Parse, ArgsFrom, ParseArgs;
    ArgsFirst(ts, lookup);
    if Parse(ASSIGN, ts, lookup).Some? {
      var (a, ts1) := Parse(ASSIGN, ts, lookup).value;
      ArgsFromSize(a, ts1, lookup);
    }
  }

  lemma ArgsMore(list: Tree, ts: seq<Token>, lookup: Lookup)
    requires Head(ts) == Comma
    ensures ts != []
    ensures var second := Parse(ASSIGN, ts[1..], lookup);
            var r := ArgsFrom(list, ts, lookup);
            (second.None? ==> r.None?) &&
            (second.Some? ==>
               var t := Append(list, second.value.0);
               r == ArgsFrom(t, second.value.1, lookup) && AtLeast(r, Size(t)) &&
               Size(t) == Size(list) + Size(second.value.0))
  {
    hide Size, Parse, ArgsFrom, ParseArgs;
    ArgsStep(list, ts, lookup);
    if Parse(ASSIGN, ts[1..], lookup).Some? {
      var (a, ts1) := Parse(ASSIGN, ts[1..], lookup).value;
      AppendSize(list, a);
      ArgsFromSize(Append(list, a), ts1, lookup);
    }
  }

  lemma ArgsLast(list: Tree, ts: seq<Token>, lookup: Lookup)
    requires Head(ts) != Comma
    ensures ArgsFrom(list, ts, lookup) == Some((list, ts))
  {
  }

  lemma PrimaryLevel(ts: seq<Token>, lookup: Lookup)
    ensures var r := Parse(PRIMARY, ts, lookup);
            match Head(ts)
            case Name(id) => r == if lookup(id).None? then None else Some((Leaf(Id(lookup(id).value)), Drop(ts)))
            case Number(v) => r == Some((Leaf(Value(v)), Drop(ts)))
            case LeftParen =>
              ts != [] &&
              var e := Parse(ASSIGN, ts[1..], lookup);
              r == if e.None? || Head(e.value.1) != RightParen then None else Some((e.value.0, e.value.1[1..]))
            case _ => r.None?
  {
  }

  // ---------------------------------------------------------------- the end of a list

  lemma OnlyLast(before: seq<Record>, after: seq<Record>, p: int, t: Tree)
    requires Grown(before, after, p, t) && t.Node? && t.sibling.Nil?
    ensures Represents(after, p, t) && LastAt(after, p, t) == p
  {
  }

  /** A later tree does not move the end of an earlier list. */
  lemma LastKept(before: seq<Record>, middle: seq<Record>, after: seq<Record>, p: int, t: Tree, q: int, u: Tree)
    requires Grown(before, middle, p, t) && Grown(middle, after, q, u)
    ensures Represents(after, p, t) && Represents(middle, p, t)
    ensures LastAt(after, p, t) == LastAt(middle, p, t)
  {
    hide Represents, Footprint, FreeCount, Size, LastAt;
    GrownBoth(before, middle, after, p, t, q, u);
    forall x | x in Footprint(middle, p, t)
      ensures 0 <= x < |middle| && after[x] == middle[x]
    {
      FootprintUsed(middle, p, t, x);
    }
    LastFrame(middle, after, p, t);
  }

  lemma {:induction false} LastFrame(nodes: seq<Record>, nodes': seq<Record>, p: int, t: Tree)
    requires Represents(nodes, p, t) && Represents(nodes', p, t) && |nodes'| == |nodes|
    requires forall x :: x in Footprint(nodes, p, t) ==> 0 <= x < |nodes| && nodes'[x] == nodes[x]
    ensures LastAt(nodes', p, t) == LastAt(nodes, p, t)
    decreases t
  {
    if t.Node? && t.sibling.Node? {
      assert p in Footprint(nodes, p, t);
      assert Footprint(nodes, nodes[p].sibling, t.sibling) <= Footprint(nodes, p, t);
      LastFrame(nodes, nodes', nodes[p].sibling, t.sibling);
    }
  }
}
