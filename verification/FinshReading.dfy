/** How the parser reads operators, said without its tables: the order of the binary operators as
    the C language has it, and the node that each operator builds. */
module FinshReading {
  import opened Basics
  import opened FinshWords
  import opened FinshMachine
  import opened FinshCompiler
  import opened FinshGrammar

  // ---------------------------------------------------------------- the order of the operators

  /** The binary operators from the weakest to the strongest. */
  const ORDER: seq<seq<Token>> :=
    [[TokOr], [TokXor], [TokAnd], [TokShl, TokShr], [TokAdd, TokSub], [TokMul, TokDiv, TokMod]]

  predicate At(t: Token, i: int) {
    0 <= i < |ORDER| && t in ORDER[i]
  }

  /** b stands strictly after a in the order. */
  ghost predicate Tighter(b: Token, a: Token) {
    exists i, j :: i < j && At(a, i) && At(b, j)
  }

  ghost predicate Operator(t: Token) {
    exists i :: At(t, i)
  }

  /** The operation of a binary operator. */
  function Meaning(t: Token): ArithOp {
    match t
    case TokOr => Or
    case TokXor => Xor
    case TokAnd => And
    case TokShl => Shl
    case TokShr => Shr
    case TokSub => Sub
    case TokMul => Mul
    case TokDiv => Div
    case TokMod => Mod
    case _ => Add
  }

  /** What can follow an operand: no `++`, `--` or call of it. */
  predicate Loose(t: Token) {
    t != TokInc && t != TokDec && t != LeftParen
  }

  /** What can follow an expression. */
  ghost predicate Ending(t: Token) {
    Loose(t) && t != TokAssign && !Operator(t)
  }

  /** The tokens are read as the tree where an operand of a binary operator is expected. */
  ghost predicate Operand(ts: seq<Token>, t: Tree, lookup: Lookup) {
    t.Node? && t.sibling == Nil &&
    forall rest :: Loose(Head(rest)) ==> Parse(CAST, ts + rest, lookup) == Some((t, rest))
  }

  /** The tokens are read as the tree where an expression is expected. */
  ghost predicate Reading(ts: seq<Token>, t: Tree, lookup: Lookup) {
    t.Node? && t.sibling == Nil &&
    forall rest :: Ending(Head(rest)) ==> Parse(ASSIGN, ts + rest, lookup) == Some((t, rest))
  }

  /** The node of `a o b`. */
  function Two(o: Token, a: Tree, b: Tree): Tree
    requires a.Node?
  {
    Node(Binary(Meaning(o)), false, Void, a.(sibling := b), Nil)
  }

  lemma OrderLevel(t: Token, i: int)
    requires 0 <= i < |ORDER|
    ensures At(t, i) <==> OpOf(t).Some? && OpLevel(OpOf(t).value) == i + 1
    ensures At(t, i) ==> OpOf(t) == Some(Meaning(t))
  {
  }

  lemma AtRange(t: Token, i: int)
    requires At(t, i)
    ensures 0 <= i < |ORDER|
  {
  }

  lemma OperatorLevel(t: Token)
    ensures Operator(t) <==> OpOf(t).Some?
    ensures Operator(t) ==> OpOf(t) == Some(Meaning(t))
  {
    hide At, OpLevel, OpOf, Meaning;
    if OpOf(t).Some? {
      OrderLevel(t, OpLevel(OpOf(t).value) - 1);
    }
    if i :| At(t, i) {
      AtRange(t, i);
      OrderLevel(t, i);
    }
  }

  lemma TighterLevel(b: Token, a: Token)
    requires Operator(a) && Operator(b)
    ensures OpOf(a) == Some(Meaning(a)) && OpOf(b) == Some(Meaning(b))
    ensures Tighter(b, a) <==> OpLevel(Meaning(b)) > OpLevel(Meaning(a))
  {
    hide OpLevel, OpOf, Meaning, At, Tighter, Operator;
    OperatorLevel(a);
    OperatorLevel(b);
    var i, j := OpLevel(Meaning(a)) - 1, OpLevel(Meaning(b)) - 1;
    OrderLevel(a, i);
    OrderLevel(b, j);
    if i < j {
      TighterAt(b, a, i, j);
    }
    if Tighter(b, a) {
      var k, l := TighterPlaces(b, a);
      OrderLevel(a, k);
      OrderLevel(b, l);
    }
  }

  lemma TighterAt(b: Token, a: Token, i: int, j: int)
    requires i < j && At(a, i) && At(b, j)
    ensures Tighter(b, a)
  {
  }

  lemma TighterPlaces(b: Token, a: Token) returns (i: int, j: int)
    requires Tighter(b, a)
    ensures 0 <= i < j < |ORDER| && At(a, i) && At(b, j)
  {
    i, j :| i < j && At(a, i) && At(b, j);
  }

  // ---------------------------------------------------------------- two operators

  /** What one level reads, the weaker ones pass on up to the next operator of theirs. */
  lemma {:induction false} PassDown(hi: nat, lo: nat, ts: seq<Token>, t: Tree, rest: seq<Token>, lookup: Lookup)
    requires 1 <= lo <= hi <= CAST && Parse(hi, ts, lookup) == Some((t, rest))
    requires OpOf(Head(rest)).Some? ==> OpLevel(OpOf(Head(rest)).value) < lo
    ensures Parse(lo, ts, lookup) == Some((t, rest))
    decreases hi - lo
  {
    hide OpLevel, OpOf;
    if lo < hi {
      PassDown(hi, lo + 1, ts, t, rest, lookup);
      assert OpAt(lo, Head(rest)).None?;
    }
  }

  /** The loop of a level takes an operator of its own. */
  lemma OneTurn(level: nat, a: Tree, o: Token, more: seq<Token>, b: Tree, rest: seq<Token>, lookup: Lookup)
    requires 1 <= level <= MULTIPLICATIVE && a.Node? && a.sibling.Nil?
    requires OpOf(o) == Some(Meaning(o)) && OpLevel(Meaning(o)) == level
    requires Parse(level + 1, more, lookup) == Some((b, rest))
    ensures Tail(level, a, [o] + more, lookup) == Tail(level, Two(o, a, b), rest, lookup)
  {
    hide Parse, OpLevel, OpOf, Meaning;
    assert ([o] + more)[1..] == more;
    assert OpAt(level, o) == Some(Meaning(o));
  }

  lemma LoopEnds(level: nat, a: Tree, rest: seq<Token>, lookup: Lookup)
    requires 1 <= level <= MULTIPLICATIVE && a.Node? && a.sibling.Nil?
    requires OpOf(Head(rest)).Some? ==> OpLevel(OpOf(Head(rest)).value) < level
    ensures Tail(level, a, rest, lookup) == Some((a, rest))
  {
    hide Parse, OpLevel, OpOf;
  }

  lemma Level(level: nat, ts: seq<Token>, a: Tree, rest: seq<Token>, lookup: Lookup)
    requires 1 <= level <= MULTIPLICATIVE && Parse(level + 1, ts, lookup) == Some((a, rest))
    ensures Parse(level, ts, lookup) == Tail(level, a, rest, lookup)
  {
    hide Tail;
  }

  lemma AtTop(ts: seq<Token>, t: Tree, rest: seq<Token>, lookup: Lookup)
    requires Parse(1, ts, lookup) == Some((t, rest)) && Head(rest) != TokAssign
    ensures Parse(ASSIGN, ts, lookup) == Some((t, rest))
  {
  }

  /** An operand in front of an operator of a weaker level, or of none. */
  lemma OperandAt(level: nat, ts: seq<Token>, t: Tree, rest: seq<Token>, lookup: Lookup)
    requires Operand(ts, t, lookup) && 1 <= level <= CAST && Loose(Head(rest))
    requires OpOf(Head(rest)).Some? ==> OpLevel(OpOf(Head(rest)).value) < level
    ensures Parse(level, ts + rest, lookup) == Some((t, rest))
  {
    hide Parse, OpLevel, OpOf;
    PassDown(CAST, level, ts + rest, t, rest, lookup);
  }

  /** a o b in front of something weaker than o. */
  lemma Pair(a: seq<Token>, ta: Tree, o: Token, more: seq<Token>, tb: Tree, rest: seq<Token>, lookup: Lookup)
    requires Operand(a, ta, lookup) && Operator(o)
    requires OpOf(o) == Some(Meaning(o)) && Parse(OpLevel(Meaning(o)) + 1, more, lookup) == Some((tb, rest))
    ensures Parse(OpLevel(Meaning(o)), a + ([o] + more), lookup) ==
            Tail(OpLevel(Meaning(o)), Two(o, ta, tb), rest, lookup)
  {
    hide Parse, Tail, OpLevel, Meaning;
    var l := OpLevel(Meaning(o));
    OperandAt(l + 1, a, ta, [o] + more, lookup);
    Level(l, a + ([o] + more), ta, [o] + more, lookup);
    OneTurn(l, ta, o, more, tb, rest, lookup);
  }

  /** The second operator binds tighter. */
  lemma ReadRight(a: seq<Token>, ta: Tree, o1: Token, b: seq<Token>, tb: Tree, o2: Token, c: seq<Token>, tc: Tree,
                  rest: seq<Token>, lookup: Lookup)
    requires Operand(a, ta, lookup) && Operand(b, tb, lookup) && Operand(c, tc, lookup)
    requires Operator(o1) && Operator(o2) && Ending(Head(rest)) && Tighter(o2, o1)
    ensures Parse(ASSIGN, a + ([o1] + (b + ([o2] + (c + rest)))), lookup) == Some((Two(o1, ta, Two(o2, tb, tc)), rest))
  {
    hide Parse, Tail, OpLevel, Meaning, OpOf, Operator, Tighter;
    TighterLevel(o2, o1);
    OperatorLevel(Head(rest));
    var l1, l2 := OpLevel(Meaning(o1)), OpLevel(Meaning(o2));
    var right := b + ([o2] + (c + rest));
    OperandAt(l2 + 1, c, tc, rest, lookup);
    Pair(b, tb, o2, c + rest, tc, rest, lookup);
    LoopEnds(l2, Two(o2, tb, tc), rest, lookup);
    PassDown(l2, l1 + 1, right, Two(o2, tb, tc), rest, lookup);
    Pair(a, ta, o1, right, Two(o2, tb, tc), rest, lookup);
    LoopEnds(l1, Two(o1, ta, Two(o2, tb, tc)), rest, lookup);
    PassDown(l1, 1, a + ([o1] + right), Two(o1, ta, Two(o2, tb, tc)), rest, lookup);
    AtTop(a + ([o1] + right), Two(o1, ta, Two(o2, tb, tc)), rest, lookup);
  }

  /** It does not. */
  lemma ReadLeft(a: seq<Token>, ta: Tree, o1: Token, b: seq<Token>, tb: Tree, o2: Token, c: seq<Token>, tc: Tree,
                 rest: seq<Token>, lookup: Lookup)
    requires Operand(a, ta, lookup) && Operand(b, tb, lookup) && Operand(c, tc, lookup)
    requires Operator(o1) && Operator(o2) && Ending(Head(rest)) && !Tighter(o2, o1)
    ensures Parse(ASSIGN, a + ([o1] + (b + ([o2] + (c + rest)))), lookup) == Some((Two(o2, Two(o1, ta, tb), tc), rest))
  {
    hide Parse, Tail, OpLevel, Meaning, OpOf, Operator, Tighter;
    TighterLevel(o2, o1);
    OperatorLevel(Head(rest));
    var l1, l2 := OpLevel(Meaning(o1)), OpLevel(Meaning(o2));
    var more := [o2] + (c + rest);
    var all := a + ([o1] + (b + more));
    var first := Two(o1, ta, tb);
    var both := Two(o2, first, tc);
    OperandLoose(o2);
    OperandAt(l1 + 1, b, tb, more, lookup);
    Pair(a, ta, o1, b + more, tb, more, lookup);
    OperandAt(l2 + 1, c, tc, rest, lookup);
    OneTurn(l2, first, o2, c + rest, tc, rest, lookup);
    LoopEnds(l2, both, rest, lookup);
    if l2 < l1 {
      LoopEnds(l1, first, more, lookup);
      PassDown(l1, l2 + 1, all, first, more, lookup);
      Level(l2, all, first, more, lookup);
    }
    PassDown(l2, 1, all, both, rest, lookup);
    AtTop(all, both, rest, lookup);
  }

  lemma OperandLoose(o: Token)
    requires Operator(o)
    ensures Loose(o) && OpOf(o) == Some(Meaning(o))
  {
    OperatorLevel(o);
  }

  /** Length of the chain of first children. */
  function Spine(t: Tree): nat {
    if t.Nil? then 0 else 1 + Spine(t.child)
  }

  lemma SpineTwo(o: Token, a: Tree, b: Tree)
    requires a.Node?
    ensures Spine(Two(o, a, b)) == 1 + Spine(a)
  {
    assert Spine(a.(sibling := b)) == 1 + Spine(a.child) == Spine(a);
  }

  /** The two readings are different trees. */
  lemma ReadingsDiffer(o1: Token, o2: Token, a: Tree, b: Tree, c: Tree)
    requires a.Node? && b.Node?
    ensures Two(o1, a, Two(o2, b, c)) != Two(o2, Two(o1, a, b), c)
  {
    SpineTwo(o1, a, Two(o2, b, c));
    SpineTwo(o1, a, b);
    SpineTwo(o2, Two(o1, a, b), c);
  }

  /** Precedence and associativity: `a o1 b o2 c` is read as `a o1 (b o2 c)` if and only if o2 stands
      strictly after o1 in the order, and as `(a o1 b) o2 c` otherwise. */
  lemma Precedence(a: seq<Token>, ta: Tree, o1: Token, b: seq<Token>, tb: Tree, o2: Token, c: seq<Token>, tc: Tree,
                   rest: seq<Token>, lookup: Lookup)
    requires Operand(a, ta, lookup) && Operand(b, tb, lookup) && Operand(c, tc, lookup)
    requires Operator(o1) && Operator(o2) && Ending(Head(rest))
    ensures var r := Parse(ASSIGN, a + ([o1] + (b + ([o2] + (c + rest)))), lookup);
            (r == Some((Two(o1, ta, Two(o2, tb, tc)), rest)) <==> Tighter(o2, o1)) &&
            (r == Some((Two(o2, Two(o1, ta, tb), tc), rest)) <==> !Tighter(o2, o1))
  {
    hide Parse, Operator, Tighter, Meaning, Ending;
    ReadingsDiffer(o1, o2, ta, tb, tc);
    if Tighter(o2, o1) {
      ReadRight(a, ta, o1, b, tb, o2, c, tc, rest, lookup);
    } else {
      ReadLeft(a, ta, o1, b, tb, o2, c, tc, rest, lookup);
    }
  }

  /** One operator. */
  lemma OneOperator(a: seq<Token>, ta: Tree, o: Token, b: seq<Token>, tb: Tree, lookup: Lookup)
    requires Operand(a, ta, lookup) && Operand(b, tb, lookup) && Operator(o)
    ensures Reading(a + ([o] + b), Two(o, ta, tb), lookup)
  {
    hide Parse, Tail, OpLevel, Meaning, OpOf, Operator;
    var l := OpLevel(Meaning(o));
    OperatorLevel(o);
    forall rest | Ending(Head(rest))
      ensures Parse(ASSIGN, a + ([o] + b) + rest, lookup) == Some((Two(o, ta, tb), rest))
    {
      OperatorLevel(Head(rest));
      assert a + ([o] + b) + rest == a + ([o] + (b + rest));
      OperandAt(l + 1, b, tb, rest, lookup);
      Pair(a, ta, o, b + rest, tb, rest, lookup);
      LoopEnds(l, Two(o, ta, tb), rest, lookup);
      PassDown(l, 1, a + ([o] + (b + rest)), Two(o, ta, tb), rest, lookup);
      AtTop(a + ([o] + (b + rest)), Two(o, ta, tb), rest, lookup);
    }
  }

  // ---------------------------------------------------------------- operands

  /** A number or a known name is an operand. */
  lemma LeafReads(t: Token, lookup: Lookup)
    ensures t.Number? ==> Operand([t], Node(Value(t.v), false, Void, Nil, Nil), lookup)
    ensures t.Name? && lookup(t.id).Some? ==> Operand([t], Node(Id(lookup(t.id).value), false, Void, Nil, Nil), lookup)
  {
    forall rest | Loose(Head(rest))
      ensures t.Number? ==> Parse(CAST, [t] + rest, lookup) == Some((Node(Value(t.v), false, Void, Nil, Nil), rest))
      ensures t.Name? && lookup(t.id).Some? ==>
                Parse(CAST, [t] + rest, lookup) == Some((Node(Id(lookup(t.id).value), false, Void, Nil, Nil), rest))
    {
      assert ([t] + rest)[1..] == rest;
      if t.Number? || (t.Name? && lookup(t.id).Some?) {
        AtomReads(t, rest, lookup);
      }
    }
  }

  lemma AtomReads(t: Token, rest: seq<Token>, lookup: Lookup)
    requires Loose(Head(rest)) && (t.Number? || (t.Name? && lookup(t.id).Some?))
    ensures Parse(CAST, [t] + rest, lookup) ==
            Some((Node(if t.Number? then Value(t.v) else Id(lookup(t.id).value), false, Void, Nil, Nil), rest))
  {
    assert ([t] + rest)[1..] == rest;
    var leaf := Leaf(if t.Number? then Value(t.v) else Id(lookup(t.id).value));
    assert Parse(PRIMARY, [t] + rest, lookup) == Some((leaf, rest));
    assert PostTail(leaf, rest, lookup) == Some((leaf, rest));
    assert Parse(POSTFIX, [t] + rest, lookup) == Some((leaf, rest));
    assert Parse(UNARY, [t] + rest, lookup) == Some((leaf, rest));
  }

  /** The node of a prefix operator: plus builds none, minus subtracts from 0. */
  function Before(t: Token, x: Tree): Tree {
    match t
    case TokAdd => x
    case TokSub => Node(Binary(Sub), false, Void, Node(Value(0), false, Void, Nil, x), Nil)
    case TokInc => Node(PreInc, false, Void, x, Nil)
    case TokDec => Node(PreDec, false, Void, x, Nil)
    case TokMul => Node(GetValue, false, Void, x, Nil)
    case TokAnd => Node(GetAddr, false, Void, x, Nil)
    case _ => Node(Bitwise, false, Void, x, Nil)
  }

  /** A prefix operator takes the operand behind it, so it binds tighter than every binary one. */
  lemma PrefixReads(t: Token, ts: seq<Token>, x: Tree, lookup: Lookup)
    requires Operand(ts, x, lookup) && t in {TokAdd, TokSub, TokInc, TokDec, TokMul, TokAnd, TokBitwise}
    ensures Operand([t] + ts, Before(t, x), lookup)
  {
    assert x.(sibling := Nil) == x;
    forall rest | Loose(Head(rest))
      ensures Parse(CAST, [t] + ts + rest, lookup) == Some((Before(t, x), rest))
    {
      assert ([t] + ts + rest)[1..] == ts + rest;
      PrefixTreeIs(t, x);
      assert Parse(UNARY, [t] + ts + rest, lookup) == Some((Before(t, x), rest));
    }
  }

  lemma PrefixTreeIs(t: Token, x: Tree)
    requires t in {TokAdd, TokSub, TokInc, TokDec, TokMul, TokAnd, TokBitwise} && x.Node? && x.sibling == Nil
    ensures PrefixOf(t).Some? && PrefixTree(PrefixOf(t).value, x) == Before(t, x)
  {
    assert x.(sibling := Nil) == x;
  }

  /** `x++` and `x--`, for anything that is not itself prefixed or infixed. */
  lemma PostfixReads(e: Expr, lookup: Lookup)
    requires Fits(e, POSTFIX) && Known(e, lookup)
    ensures exists x ::
              Operand(Print(e), x, lookup) &&
              Operand(Print(e) + [TokInc], Node(Inc, false, Void, x, Nil), lookup) &&
              Operand(Print(e) + [TokDec], Node(Dec, false, Void, x, Nil), lookup)
  {
    hide Parse, TreeOf, Print, Fits, Known, Operand;
    var x := TreeOf(e, lookup);
    FitsLower(e);
    PostOperand(e, lookup);
    PostStep(e, true, lookup);
    PostStep(e, false, lookup);
  }

  lemma PostStep(e: Expr, increment: bool, lookup: Lookup)
    requires Fits(e, POSTFIX) && Known(e, lookup)
    ensures Operand(Print(e) + [if increment then TokInc else TokDec],
                    Node(if increment then Inc else Dec, false, Void, TreeOf(e, lookup), Nil), lookup)
  {
    var x := TreeOf(e, lookup);
    assert x.(sibling := Nil) == x;
    PostOperand(Postfixed(increment, e), lookup);
  }

  lemma PostOperand(e: Expr, lookup: Lookup)
    requires Fits(e, CAST) && Known(e, lookup)
    ensures Operand(Print(e), TreeOf(e, lookup), lookup)
  {
    hide Parse, TreeOf, Print, Known;
    forall rest | Loose(Head(rest))
      ensures Parse(CAST, Print(e) + rest, lookup) == Some((TreeOf(e, lookup), rest))
    {
      RoundTrip(e, CAST, rest, lookup);
    }
  }

  /** The k-th of a list of siblings, alone. */
  function Nth(list: Tree, k: nat): Tree {
    if list.Nil? then Nil else if k == 0 then list.(sibling := Nil) else Nth(list.sibling, k - 1)
  }

  function Joined(es: seq<Expr>): seq<Token> {
    if es == [] then [] else if |es| == 1 then Print(es[0]) else Print(es[0]) + ([Comma] + Joined(es[1..]))
  }

  function Listed(es: seq<Expr>): Args {
    if es == [] then NoArgs else Arg(es[0], Listed(es[1..]))
  }

  /** A call hangs the function first and behind it the arguments in order, as many as there are. */
  lemma CallReads(f: Expr, es: seq<Expr>, lookup: Lookup)
    requires Fits(f, POSTFIX) && Known(f, lookup) && LineKnown(es, lookup)
    ensures exists x, list ::
              Operand(Print(f), x, lookup) &&
              Operand(Print(f) + ([LeftParen] + (Joined(es) + [RightParen])),
                      Node(Func, false, Void, x.(sibling := list), Nil), lookup) &&
              FinshCompiler.Length(list) == |es| && forall k :: 0 <= k < |es| ==> Reading(Print(es[k]), Nth(list, k), lookup)
  {
    hide Parse, TreeOf, Print, Operand, Reading, Fits;
    var x := TreeOf(f, lookup);
    FitsLower(f);
    PostOperand(f, lookup);
    ListedFits(es, lookup);
    var list := ArgsTree(Listed(es), lookup);
    CallOperand(f, es, lookup);
    ListedReads(es, lookup);
  }

  lemma FitsLower(e: Expr)
    requires Fits(e, POSTFIX)
    ensures Fits(e, CAST)
  {
  }

  lemma {:induction false} ListedFits(es: seq<Expr>, lookup: Lookup)
    requires LineKnown(es, lookup)
    ensures FitArgs(Listed(es)) && KnownArgs(Listed(es), lookup) && PrintArgs(Listed(es)) == Joined(es)
  {
    hide Fits, Known, Print;
    if es != [] {
      assert forall k :: 0 <= k < |es[1..]| ==> es[1..][k] == es[k + 1];
      ListedFits(es[1..], lookup);
      assert |es| > 1 ==> Listed(es[1..]).Arg?;
    }
  }

  lemma CallOperand(f: Expr, es: seq<Expr>, lookup: Lookup)
    requires Fits(f, POSTFIX) && Known(f, lookup) && LineKnown(es, lookup)
    requires FitArgs(Listed(es)) && KnownArgs(Listed(es), lookup) && PrintArgs(Listed(es)) == Joined(es)
    ensures var x := TreeOf(f, lookup);
            Operand(Print(f) + ([LeftParen] + (Joined(es) + [RightParen])),
                    Node(Func, false, Void, x.(sibling := ArgsTree(Listed(es), lookup)), Nil), lookup)
  {
    hide Operand, Listed, LineKnown, Joined;
    PostOperand(Call(f, Listed(es)), lookup);
  }

  lemma {:induction false} ListedReads(es: seq<Expr>, lookup: Lookup)
    requires LineKnown(es, lookup) && KnownArgs(Listed(es), lookup)
    ensures var list := ArgsTree(Listed(es), lookup);
            FinshCompiler.Length(list) == |es| && forall k :: 0 <= k < |es| ==> Reading(Print(es[k]), Nth(list, k), lookup)
  {
    hide Parse, TreeOf, Print, Reading, Fits, Known;
    if es != [] {
      var list := ArgsTree(Listed(es), lookup);
      assert forall k :: 0 <= k < |es[1..]| ==> es[1..][k] == es[k + 1];
      ListedReads(es[1..], lookup);
      ExprReads(es[0], lookup);
      forall k | 0 <= k < |es|
        ensures Reading(Print(es[k]), Nth(list, k), lookup)
      {
        if k > 0 {
          assert es[k] == es[1..][k - 1];
        } else {
          assert Nth(list, 0) == TreeOf(es[0], lookup);
        }
      }
    }
  }

  lemma ExprReads(e: Expr, lookup: Lookup)
    requires Fits(e, ASSIGN) && Known(e, lookup)
    ensures Reading(Print(e), TreeOf(e, lookup), lookup)
  {
    hide Parse, TreeOf, Print, Known, Fits;
    forall rest | Ending(Head(rest))
      ensures Parse(ASSIGN, Print(e) + rest, lookup) == Some((TreeOf(e, lookup), rest))
    {
      OperatorLevel(Head(rest));
      RoundTrip(e, ASSIGN, rest, lookup);
    }
  }

  /** An assignment takes the whole expression behind it, further assignments included. */
  lemma AssignReads(a: seq<Token>, ta: Tree, v: seq<Token>, tv: Tree, lookup: Lookup)
    requires Operand(a, ta, lookup) && Reading(v, tv, lookup)
    ensures Reading(a + ([TokAssign] + v), Node(Assign, false, Void, ta.(sibling := tv), Nil), lookup)
  {
    forall rest | Ending(Head(rest))
      ensures Parse(ASSIGN, a + ([TokAssign] + v) + rest, lookup) ==
              Some((Node(Assign, false, Void, ta.(sibling := tv), Nil), rest))
    {
      hide Tail;
      var more := [TokAssign] + (v + rest);
      assert a + ([TokAssign] + v) + rest == a + more;
      assert more[1..] == v + rest;
      OperandAt(1, a, ta, more, lookup);
    }
  }

  // ---------------------------------------------------------------- arithmetic

  /** What a line of two operators on numbers is worth, down to the arguments of the operators. */
  lemma ArithmeticMeans(a: Word, o1: Token, b: Word, o2: Token, c: Word, lookup: Lookup, host: Host, m: Memory)
    requires Operator(o1) && Operator(o2)
    ensures var r := Parse(ASSIGN, [Number(a), o1, Number(b), o2, Number(c), Semicolon], lookup);
            r.Some? && r.value.1 == [Semicolon] &&
            Eval(r.value.0, m, host) ==
            if Tighter(o2, o1) then
              match host.arith(Meaning(o2), b, c)
              case None => None
              case Some(x) =>
                match host.arith(Meaning(o1), a, x)
                case None => None
                case Some(y) => Some((y, m))
            else
              match host.arith(Meaning(o1), a, b)
              case None => None
              case Some(x) =>
                match host.arith(Meaning(o2), x, c)
                case None => None
                case Some(y) => Some((y, m))
  {
    hide Parse, Operator, Tighter, Meaning, Operand;
    var ta, tb, tc := Number3(a), Number3(b), Number3(c);
    LeafReads(Number(a), lookup);
    LeafReads(Number(b), lookup);
    LeafReads(Number(c), lookup);
    assert Ending(Semicolon) by { OperatorLevel(Semicolon); }
    Precedence([Number(a)], ta, o1, [Number(b)], tb, o2, [Number(c)], tc, [Semicolon], lookup);
    assert [Number(a)] + ([o1] + ([Number(b)] + ([o2] + ([Number(c)] + [Semicolon])))) ==
           [Number(a), o1, Number(b), o2, Number(c), Semicolon];
    TwoMeans(o2, tb, b, tc, c, m, host);
    TwoMeans(o1, ta, a, tb, b, m, host);
    if Tighter(o2, o1) {
      OuterRight(o1, ta, a, Two(o2, tb, tc), m, host);
    } else {
      OuterLeft(o2, Two(o1, ta, tb), tc, c, m, host);
    }
  }

  function Number3(v: Word): Tree {
    Node(Value(v), false, Void, Nil, Nil)
  }

  lemma TwoMeans(o: Token, x: Tree, v: Word, y: Tree, w: Word, m: Memory, host: Host)
    requires x == Number3(v) && y == Number3(w)
    ensures Eval(Two(o, x, y), m, host) ==
            match host.arith(Meaning(o), v, w)
            case None => None
            case Some(z) => Some((z, m))
  {
    hide Meaning;
    assert Eval(x.(sibling := y), m, host) == Some((v, m));
  }

  lemma OuterRight(o: Token, x: Tree, v: Word, y: Tree, m: Memory, host: Host)
    requires x == Number3(v) && y.Node? && (Eval(y, m, host).Some? ==> Eval(y, m, host).value.1 == m)
    ensures Eval(Two(o, x, y), m, host) ==
            match Eval(y, m, host)
            case None => None
            case Some(r) =>
              match host.arith(Meaning(o), v, r.0)
              case None => None
              case Some(z) => Some((z, m))
  {
    hide Meaning;
    assert Eval(x.(sibling := y), m, host) == Some((v, m));
  }

  lemma OuterLeft(o: Token, x: Tree, y: Tree, w: Word, m: Memory, host: Host)
    requires y == Number3(w) && x.Node? && x.kind.Binary? && (Eval(x, m, host).Some? ==> Eval(x, m, host).value.1 == m)
    ensures Eval(Two(o, x, y), m, host) ==
            match Eval(x, m, host)
            case None => None
            case Some(r) =>
              match host.arith(Meaning(o), r.0, w)
              case None => None
              case Some(z) => Some((z, m))
  {
    hide Meaning;
    var t := x.(sibling := y);
    assert t.child == x.child && t.kind == x.kind;
    assert Eval(t, m, host) == Eval(x, m, host);
  }
}
