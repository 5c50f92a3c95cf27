/** Lines with empty statements: the parser skips the token after an empty statement, and this says
    exactly when a line survives it. */
module FinshLines {
  import opened Basics
  import opened FinshWords
  import opened FinshMachine
  import opened FinshCompiler
  import opened FinshGrammar

  // ---------------------------------------------------------------- runs of semicolons

  function Semis(k: nat): seq<Token> {
    if k == 0 then [] else [Semicolon] + Semis(k - 1)
  }

  lemma OneEmpty(list: Tree, ts: seq<Token>, lookup: Lookup)
    requires list.Node?
    ensures Lines(list, [Semicolon] + ts, lookup) == Lines(list, Drop(ts), lookup)
  {
    hide Parse, Append, Drop;
    assert ([Semicolon] + ts)[1..] == ts;
  }

  /** Behind a statement, a run of empty statements vanishes if their number is even; an odd run
      takes exactly the next token with it. */
  lemma {:induction false} EmptyRun(list: Tree, k: nat, ts: seq<Token>, lookup: Lookup)
    requires list.Node?
    ensures Lines(list, Semis(k) + ts, lookup) == Lines(list, if k % 2 == 0 then ts else Drop(ts), lookup)
    decreases k
  {
    hide Parse, Lines;
    if k == 0 {
      assert Semis(k) + ts == ts;
    } else {
      var rest := Semis(k - 1) + ts;
      assert Semis(k) + ts == [Semicolon] + rest;
      OneEmpty(list, rest, lookup);
      if k == 1 {
        assert rest == ts;
      } else {
        assert Drop(rest) == Semis(k - 2) + ts;
        EmptyRun(list, k - 2, ts, lookup);
      }
    }
  }

  // ---------------------------------------------------------------- a first token that does not matter

  /** The first token can be left out without changing the tree: a leading plus, or the 0 of a
      leading `0 - x` that means the same as `-x`. */
  predicate Redundant(e: Expr) {
    match e
    case Infix(op, l, r) => (op == Sub && l == Const(0) && Level(r) >= CAST) || Redundant(l)
    case Assignment(l, _) => Redundant(l)
    case Prefixed(p, _) => p.Plus?
    case _ => false
  }

  function Shortened(e: Expr): Expr
    requires Redundant(e)
  {
    match e
    case Infix(op, l, r) => if Redundant(l) then Infix(op, Shortened(l), r) else Prefixed(Minus, r)
    case Assignment(l, r) => Assignment(Shortened(l), r)
    case Prefixed(_, x) => x
  }

  /** Leaving such a token out leaves an expression with the same tree. */
  lemma {:induction false} ShortenedSame(e: Expr, level: nat, lookup: Lookup)
    requires Redundant(e) && Fits(e, level) && Known(e, lookup) && level <= UNARY
    ensures Fits(Shortened(e), level) && Known(Shortened(e), lookup)
    ensures Print(e)[1..] == Print(Shortened(e)) && TreeOf(e, lookup) == TreeOf(Shortened(e), lookup)
  {
    match e
    case Infix(op, l, r) =>
      if Redundant(l) {
        ShortenedSame(l, OpLevel(op), lookup);
        Behead(Print(l), [OpToken(op)] + Print(r));
      } else {
        assert Print(e) == [Number(0)] + ([TokSub] + Print(r));
      }
    case Assignment(l, r) =>
      ShortenedSame(l, 1, lookup);
      Behead(Print(l), [TokAssign] + Print(r));
    case Prefixed(_, x) =>
  }

  lemma Behead(a: seq<Token>, b: seq<Token>)
    requires a != []
    ensures (a + b)[1..] == a[1..] + b
  {
  }

  // ---------------------------------------------------------------- what a lost token changes

  /** A weight that tokens and nodes share. */
  function KindWeight(kind: Kind): nat {
    if kind.Inc? || kind.Dec? then 3 else 1
  }

  function TreeWeight(t: Tree): nat {
    if t.Nil? then 0 else KindWeight(t.kind) + TreeWeight(t.child) + TreeWeight(t.sibling)
  }

  /** The weight of tokens read after an operand or where one is expected. */
  function TokenWeight(ts: seq<Token>, after: bool): int {
    if ts == [] then 0 else
    var rest := ts[1..];
    match ts[0]
    case Name(_) => 1 + TokenWeight(rest, true)
    case Number(_) => 1 + TokenWeight(rest, true)
    case TokInc => if after then 3 + TokenWeight(rest, true) else 1 + TokenWeight(rest, false)
    case TokDec => if after then 3 + TokenWeight(rest, true) else 1 + TokenWeight(rest, false)
    case TokAdd => (if after then 1 else 0) + TokenWeight(rest, false)
    case TokSub => (if after then 1 else 2) + TokenWeight(rest, false)
    case RightParen => TokenWeight(rest, true)
    case Comma => TokenWeight(rest, false)
    case _ => 1 + TokenWeight(rest, false)
  }

  lemma SysWeight(kind: Kind, t: Tree, u: Tree)
    requires t.Node? && t.sibling.Nil?
    ensures TreeWeight(Sys(kind, t, u)) == KindWeight(kind) + TreeWeight(t) + TreeWeight(u)
  {
    SiblingWeight(t, u);
  }

  lemma SiblingWeight(t: Tree, u: Tree)
    requires t.Node? && t.sibling.Nil?
    ensures TreeWeight(t.(sibling := u)) == TreeWeight(t) + TreeWeight(u)
  {
  }

  lemma PushWeight(t: Token, ts: seq<Token>)
    ensures ([t] + ts)[1..] == ts && ([t] + ts)[0] == t
  {
  }

  lemma NilWeight()
    ensures TreeWeight(Nil) == 0
  {
  }

  lemma LeafWeight(kind: Kind)
    requires !kind.Inc? && !kind.Dec?
    ensures TreeWeight(Leaf(kind)) == 1
  {
  }

  lemma PrefixWeight(p: Prefix, x: Tree)
    requires x.Node? && x.sibling.Nil?
    ensures TreeWeight(PrefixTree(p, x)) ==
            TreeWeight(x) + if p.Plus? then 0 else if p.Minus? then 2 else 1
  {
    hide TreeWeight;
    NilWeight();
    LeafWeight(Value(0));
    SysWeight(Binary(Sub), Leaf(Value(0)), x);
    SysWeight(PreInc, x, Nil);
    SysWeight(PreDec, x, Nil);
    SysWeight(Bitwise, x, Nil);
    SysWeight(GetValue, x, Nil);
    SysWeight(GetAddr, x, Nil);
  }

  /** Two operands with an operator of weight one between them. */
  lemma JoinWeight(l: seq<Token>, t: Token, r: seq<Token>, rest: seq<Token>, x: nat, y: nat)
    requires t.TokAssign? || OpOf(t).Some?
    requires TokenWeight(l + ([t] + (r + rest)), false) == x + TokenWeight([t] + (r + rest), true)
    requires TokenWeight(r + rest, false) == y + TokenWeight(rest, true)
    ensures TokenWeight(l + ([t] + r) + rest, false) == x + 1 + y + TokenWeight(rest, true)
  {
    Regroup(l, [t] + r, rest);
    Regroup([t], r, rest);
    PushWeight(t, r + rest);
  }

  /** The tokens of an expression weigh what its tree weighs. */
  lemma {:induction false} WeightOf(e: Expr, rest: seq<Token>, lookup: Lookup)
    requires Known(e, lookup)
    ensures TokenWeight(Print(e) + rest, false) == TreeWeight(TreeOf(e, lookup)) + TokenWeight(rest, true)
    decreases e, 1
  {
    hide TreeWeight;
    match e
    case Ident(id) => LeafWeight(Id(lookup(id).value)); PushWeight(Name(id), rest);
    case Const(v) => LeafWeight(Value(v)); PushWeight(Number(v), rest);
    case Infix(op, l, r) => InfixWeight(e, rest, lookup);
    case Assignment(l, r) => AssignmentWeight(e, rest, lookup);
    case Prefixed(p, x) => PrefixedWeight(e, rest, lookup);
    case Postfixed(inc, x) => PostfixedWeight(e, rest, lookup);
    case Call(f, args) => CallWeight(e, rest, lookup);
  }

  lemma {:induction false} InfixWeight(e: Expr, rest: seq<Token>, lookup: Lookup)
    requires e.Infix? && Known(e, lookup)
    ensures TokenWeight(Print(e) + rest, false) == TreeWeight(TreeOf(e, lookup)) + TokenWeight(rest, true)
    decreases e, 0
  {
    hide TreeWeight, TokenWeight;
    var t, l, r := OpToken(e.op), TreeOf(e.left, lookup), TreeOf(e.right, lookup);
    WeightOf(e.left, [t] + (Print(e.right) + rest), lookup);
    WeightOf(e.right, rest, lookup);
    JoinWeight(Print(e.left), t, Print(e.right), rest, TreeWeight(l), TreeWeight(r));
    SysWeight(Binary(e.op), l, r);
  }

  lemma {:induction false} AssignmentWeight(e: Expr, rest: seq<Token>, lookup: Lookup)
    requires e.Assignment? && Known(e, lookup)
    ensures TokenWeight(Print(e) + rest, false) == TreeWeight(TreeOf(e, lookup)) + TokenWeight(rest, true)
    decreases e, 0
  {
    hide TreeWeight, TokenWeight;
    var l, r := TreeOf(e.target, lookup), TreeOf(e.value, lookup);
    WeightOf(e.target, [TokAssign] + (Print(e.value) + rest), lookup);
    WeightOf(e.value, rest, lookup);
    JoinWeight(Print(e.target), TokAssign, Print(e.value), rest, TreeWeight(l), TreeWeight(r));
    SysWeight(Assign, l, r);
  }

  lemma {:induction false} PrefixedWeight(e: Expr, rest: seq<Token>, lookup: Lookup)
    requires e.Prefixed? && Known(e, lookup)
    ensures TokenWeight(Print(e) + rest, false) == TreeWeight(TreeOf(e, lookup)) + TokenWeight(rest, true)
    decreases e, 0
  {
    hide TreeWeight, PrefixTree;
    var t := PrefixToken(e.prefix);
    WeightOf(e.operand, rest, lookup);
    Regroup([t], Print(e.operand), rest);
    PushWeight(t, Print(e.operand) + rest);
    PrefixWeight(e.prefix, TreeOf(e.operand, lookup));
  }

  lemma {:induction false} PostfixedWeight(e: Expr, rest: seq<Token>, lookup: Lookup)
    requires e.Postfixed? && Known(e, lookup)
    ensures TokenWeight(Print(e) + rest, false) == TreeWeight(TreeOf(e, lookup)) + TokenWeight(rest, true)
    decreases e, 0
  {
    hide TreeWeight;
    var t := if e.increment then TokInc else TokDec;
    Regroup(Print(e.operand), [t], rest);
    WeightOf(e.operand, [t] + rest, lookup);
    PushWeight(t, rest);
    NilWeight();
    SysWeight(if e.increment then Inc else Dec, TreeOf(e.operand, lookup), Nil);
  }

  lemma {:induction false} CallWeight(e: Expr, rest: seq<Token>, lookup: Lookup)
    requires e.Call? && Known(e, lookup)
    ensures TokenWeight(Print(e) + rest, false) == TreeWeight(TreeOf(e, lookup)) + TokenWeight(rest, true)
    decreases e, 0
  {
    hide TreeWeight;
    var close := [RightParen] + rest;
    var inner := PrintArgs(e.args) + close;
    assert Print(e) + rest == Print(e.function_) + ([LeftParen] + inner);
    WeightOf(e.function_, [LeftParen] + inner, lookup);
    PushWeight(LeftParen, inner);
    PushWeight(RightParen, rest);
    NilWeight();
    if e.args.NoArgs? {
      assert inner == close;
    } else {
      ArgsWeight(e.args, close, lookup);
    }
    SysWeight(Func, TreeOf(e.function_, lookup), ArgsTree(e.args, lookup));
  }

  lemma {:induction false} ArgsWeight(args: Args, rest: seq<Token>, lookup: Lookup)
    requires args.Arg? && KnownArgs(args, lookup)
    ensures TokenWeight(PrintArgs(args) + rest, false) == TreeWeight(ArgsTree(args, lookup)) + TokenWeight(rest, true)
    decreases args, 0
  {
    hide TreeWeight;
    SiblingWeight(TreeOf(args.first, lookup), ArgsTree(args.rest, lookup));
    if args.rest.NoArgs? {
      WeightOf(args.first, rest, lookup);
      NilWeight();
    } else {
      var more := PrintArgs(args.rest) + rest;
      assert PrintArgs(args) + rest == Print(args.first) + ([Comma] + more);
      WeightOf(args.first, [Comma] + more, lookup);
      PushWeight(Comma, more);
      ArgsWeight(args.rest, rest, lookup);
    }
  }

  /** Only a minus weighs less behind an operand than in front of one. */
  lemma {:induction false} WeightGap(ts: seq<Token>)
    ensures TokenWeight(ts, true) >= TokenWeight(ts, false) - 1
    ensures TokenWeight(ts, true) == TokenWeight(ts, false) - 1 ==> ts != [] && ts[0] == TokSub
  {
    if ts != [] && (ts[0].TokInc? || ts[0].TokDec?) {
      WeightGap(ts[1..]);
    }
  }

  // ---------------------------------------------------------------- the first two tokens

  /** The tokens an expression can start with. */
  predicate Opening(t: Token) {
    t.Name? || t.Number? || PrefixOf(t).Some?
  }

  /** No statement ends inside an expression. */
  predicate Inside(ts: seq<Token>) {
    forall i :: 0 <= i < |ts| ==> ts[i] !in {Semicolon, Bad, Eof}
  }

  lemma {:induction false} PrintInside(e: Expr)
    ensures Inside(Print(e))
  {
    match e
    case Ident(_) =>
    case Const(_) =>
    case Infix(_, l, r) => PrintInside(l); PrintInside(r);
    case Assignment(l, r) => PrintInside(l); PrintInside(r);
    case Prefixed(_, x) => PrintInside(x);
    case Postfixed(_, x) => PrintInside(x);
    case Call(f, args) => PrintInside(f); ArgsInside(args);
  }

  lemma {:induction false} ArgsInside(args: Args)
    ensures Inside(PrintArgs(args))
  {
    if args.Arg? {
      PrintInside(args.first);
      ArgsInside(args.rest);
    }
  }

  lemma {:induction false} StartsOpening(e: Expr)
    ensures Opening(Print(e)[0])
  {
    match e
    case Ident(_) =>
    case Const(_) =>
    case Infix(_, l, _) => StartsOpening(l);
    case Assignment(l, _) => StartsOpening(l);
    case Prefixed(_, _) =>
    case Postfixed(_, x) => StartsOpening(x);
    case Call(f, _) => StartsOpening(f);
  }

  /** A postfix expression starts with its operand, which nothing can stand in front of. */
  lemma {:induction false} PostStart(e: Expr)
    requires Fits(e, POSTFIX)
    ensures Print(e)[0].Name? || Print(e)[0].Number?
    ensures |Print(e)| > 1 ==> Print(e)[1] in {TokInc, TokDec, LeftParen}
  {
    match e
    case Ident(_) =>
    case Const(_) =>
    case Postfixed(_, x) => PostStart(x);
    case Call(f, _) => PostStart(f);
  }

  /** A leading plus is a plus sign in front of the leftmost operand. */
  lemma {:induction false} LeadingPlus(e: Expr)
    requires Fits(e, ASSIGN) && Print(e)[0] == TokAdd
    ensures Redundant(e)
  {
    match e
    case Ident(_) =>
    case Const(_) =>
    case Infix(op, l, _) => LeadingPlus(l);
    case Assignment(l, _) => LeadingPlus(l);
    case Prefixed(_, _) =>
    case Postfixed(_, x) => PostStart(e);
    case Call(f, _) => PostStart(e);
  }

  /** The leaf a tree has at the end of its child links. */
  function Leftmost(t: Tree): Kind
    requires t.Node?
  {
    if t.child.Nil? then t.kind else Leftmost(t.child)
  }

  lemma LeftmostSys(kind: Kind, t: Tree, u: Tree)
    requires t.Node?
    ensures Leftmost(Sys(kind, t, u)) == Leftmost(t)
  {
  }

  /** The leftmost leaf is the first token; a leading minus is a 0 there. */
  lemma {:induction false} LeftmostFirst(e: Expr, lookup: Lookup)
    requires Fits(e, ASSIGN) && Known(e, lookup)
    ensures Print(e)[0].Name? ==> Leftmost(TreeOf(e, lookup)).Id?
    ensures Print(e)[0].Number? ==> Leftmost(TreeOf(e, lookup)) == Value(Print(e)[0].v)
    ensures Print(e)[0] == TokSub ==> Leftmost(TreeOf(e, lookup)) == Value(0)
  {
    hide Leftmost;
    match e
    case Ident(id) => LeafLeftmost(Id(lookup(id).value));
    case Const(v) => LeafLeftmost(Value(v));
    case Infix(op, l, r) =>
      LeftmostFirst(l, lookup);
      LeftmostSys(Binary(op), TreeOf(l, lookup), TreeOf(r, lookup));
    case Assignment(l, r) =>
      LeftmostFirst(l, lookup);
      LeftmostSys(Assign, TreeOf(l, lookup), TreeOf(r, lookup));
    case Prefixed(p, x) =>
      LeafLeftmost(Value(0));
      LeftmostSys(Binary(Sub), Leaf(Value(0)), TreeOf(x, lookup));
    case Postfixed(inc, x) =>
      PostStart(x);
      LeftmostFirst(x, lookup);
      LeftmostSys(if inc then Inc else Dec, TreeOf(x, lookup), Nil);
    case Call(f, args) =>
      PostStart(f);
      LeftmostFirst(f, lookup);
      LeftmostSys(Func, TreeOf(f, lookup), ArgsTree(args, lookup));
  }

  lemma LeafLeftmost(kind: Kind)
    ensures Leftmost(Leaf(kind)) == kind
  {
  }

  // ---------------------------------------------------------------- a leading 0 minus

  /** The leftmost operation is a subtraction from 0. */
  predicate ZeroMinus(e: Expr) {
    match e
    case Infix(op, l, _) => (op == Sub && l == Const(0)) || ZeroMinus(l)
    case Assignment(l, _) => ZeroMinus(l)
    case _ => false
  }

  lemma {:induction false} StartsZeroMinus(e: Expr)
    requires Fits(e, ASSIGN) && |Print(e)| > 1 && Print(e)[0] == Number(0) && Print(e)[1] == TokSub
    ensures ZeroMinus(e)
  {
    match e
    case Infix(op, l, _) =>
      if |Print(l)| == 1 {
        OneToken(l);
      } else {
        StartsZeroMinus(l);
      }
    case Assignment(l, _) =>
      if |Print(l)| == 1 {
        OneToken(l);
      } else {
        StartsZeroMinus(l);
      }
    case Prefixed(_, _) =>
    case Postfixed(_, _) => PostStart(e);
    case Call(_, _) => PostStart(e);
  }

  lemma OneToken(e: Expr)
    requires |Print(e)| == 1
    ensures e.Ident? || e.Const?
  {
  }

  /** The minus sign in front of a product stands in front of its first factor. */
  function Negated(r: Expr): Expr {
    match r
    case Infix(op, l, x) => Infix(op, Negated(l), x)
    case _ => Prefixed(Minus, r)
  }

  lemma {:induction false} NegatedFits(r: Expr, lookup: Lookup)
    requires Fits(r, MULTIPLICATIVE) && Known(r, lookup)
    ensures Fits(Negated(r), MULTIPLICATIVE) && Known(Negated(r), lookup)
    ensures Print(Negated(r)) == [TokSub] + Print(r)
  {
    if r.Infix? {
      NegatedFits(r.left, lookup);
      Regroup([TokSub], Print(r.left), [OpToken(r.op)] + Print(r.right));
    }
  }

  /** What a leading `0 - x` reads as without the 0. */
  function Turned(e: Expr): Expr
    requires ZeroMinus(e)
  {
    match e
    case Infix(op, l, r) => if ZeroMinus(l) then Infix(op, Turned(l), r) else Negated(r)
    case Assignment(l, r) => Assignment(Turned(l), r)
  }

  lemma {:induction false} TurnedFits(e: Expr, level: nat, lookup: Lookup)
    requires ZeroMinus(e) && Fits(e, level) && Known(e, lookup) && level <= MULTIPLICATIVE
    ensures Fits(Turned(e), level) && Known(Turned(e), lookup) && Print(Turned(e)) == Print(e)[1..]
  {
    match e
    case Infix(op, l, r) =>
      if ZeroMinus(l) {
        TurnedFits(l, OpLevel(op), lookup);
        Behead(Print(l), [OpToken(op)] + Print(r));
      } else {
        NegatedFits(r, lookup);
        FitsBelow(Negated(r), MULTIPLICATIVE, level);
      }
    case Assignment(l, r) =>
      TurnedFits(l, 1, lookup);
      Behead(Print(l), [TokAssign] + Print(r));
  }

  lemma FitsBelow(e: Expr, level: nat, lower: nat)
    requires Fits(e, level) && lower <= level
    ensures Fits(e, lower)
  {
  }

  /** Read without the 0 the tree is the same only if the minus sign takes the whole operand. */
  lemma {:induction false} TurnedSame(e: Expr, lookup: Lookup)
    requires ZeroMinus(e) && Fits(e, ASSIGN) && Known(e, lookup)
    requires Known(Turned(e), lookup) && TreeOf(Turned(e), lookup) == TreeOf(e, lookup)
    ensures Redundant(e)
  {
    match e
    case Infix(op, l, r) =>
      if ZeroMinus(l) {
        SysInjective(Binary(op), TreeOf(Turned(l), lookup), TreeOf(l, lookup), TreeOf(r, lookup));
        TurnedSame(l, lookup);
      }
    case Assignment(l, r) =>
      SysInjective(Assign, TreeOf(Turned(l), lookup), TreeOf(l, lookup), TreeOf(r, lookup));
      TurnedSame(l, lookup);
  }

  lemma SysInjective(kind: Kind, t: Tree, u: Tree, r: Tree)
    requires t.Node? && u.Node? && t.sibling.Nil? && u.sibling.Nil? && Sys(kind, t, r) == Sys(kind, u, r)
    ensures t == u
  {
    assert t.(sibling := r) == u.(sibling := r);
  }

  /** Only a redundant first token can be lost: an expression that loses another one reads as
      another tree, if it reads at all. */
  lemma RedundantOnly(e: Expr, f: Expr, lookup: Lookup)
    requires Fits(e, ASSIGN) && Known(e, lookup) && Fits(f, ASSIGN) && Known(f, lookup)
    requires Print(f) == Print(e)[1..] && TreeOf(f, lookup) == TreeOf(e, lookup)
    ensures Redundant(e)
  {
    hide TreeWeight, TreeOf, Fits, Known, Redundant, Print, TokenWeight;
    LostToken(e, f, lookup);
    if Print(e)[0] == TokAdd {
      LeadingPlus(e);
    } else {
      LeftmostFirst(e, lookup);
      LeftmostFirst(f, lookup);
      assert Print(e)[1] == Print(f)[0];
      StartsZeroMinus(e);
      TurnedFits(e, ASSIGN, lookup);
      PrintedOnce(f, Turned(e), lookup);
      TurnedSame(e, lookup);
    }
  }

  lemma LostToken(e: Expr, f: Expr, lookup: Lookup)
    requires Known(e, lookup) && Known(f, lookup)
    requires Print(f) == Print(e)[1..] && TreeOf(f, lookup) == TreeOf(e, lookup)
    ensures Print(e)[0] == TokAdd || ((Print(e)[0].Name? || Print(e)[0].Number?) && Print(f)[0] == TokSub)
  {
    hide TreeWeight, TreeOf, Fits, Known, Print;
    WeightOf(e, [], lookup);
    WeightOf(f, [], lookup);
    NilTail(Print(e));
    NilTail(Print(f));
    StartsOpening(e);
    WeightGap(Print(f));
  }

  lemma NilTail(ts: seq<Token>)
    ensures ts + [] == ts
  {
  }

  // ---------------------------------------------------------------- counting statements

  /** How many statements a line can hold at most: the places where one ends. */
  function Ends(ts: seq<Token>): nat {
    if |ts| < 2 then 0 else (if ts[0] != Semicolon && ts[1] == Semicolon then 1 else 0) + Ends(ts[1..])
  }

  function Length(t: Tree): nat {
    if t.Nil? then 0 else 1 + Length(t.sibling)
  }

  lemma EndsPush(x: seq<Token>)
    ensures Ends([Semicolon] + x) == Ends(x)
  {
    assert ([Semicolon] + x)[1..] == x;
  }

  lemma {:induction false} EndsPrint(p: seq<Token>, x: seq<Token>)
    requires p != [] && Inside(p)
    ensures Ends(p + ([Semicolon] + x)) == 1 + Ends(x)
  {
    var ts := p + ([Semicolon] + x);
    EndsPush(x);
    Behead(p, [Semicolon] + x);
    if |p| == 1 {
      assert p[1..] == [];
      assert ts[1..] == [Semicolon] + x;
    } else {
      assert ts[1] == p[1];
      assert Inside(p[1..]);
      EndsPrint(p[1..], x);
    }
  }

  lemma {:induction false} LengthAppend(t: Tree, u: Tree)
    ensures Length(Append(t, u)) == Length(t) + Length(u)
  {
    if t.Node? {
      LengthAppend(t.sibling, u);
    }
  }

  /** The result of the loop: the statements read so far, then at most as many as there are ends. */
  ghost predicate Extends(r: Option<Tree>, list: Tree, more: nat) {
    r.Some? ==> exists u :: r.value == Append(list, u) && Length(u) <= more
  }

  lemma {:induction false} LinesExtend(list: Tree, ts: seq<Token>, lookup: Lookup)
    ensures Extends(Lines(list, ts, lookup), list, Ends(ts))
    decreases |ts|
  {
    hide Parse;
    AppendNil(list);
    var h := Head(ts);
    if h == Eof || h == Bad {
      assert Length(Nil) == 0;
    } else if h == Semicolon {
      if list.Node? {
        LinesExtend(list, Drop(ts[1..]), lookup);
      } else {
        assert Length(Nil) == 0;
      }
    } else {
      var p := Parse(ASSIGN, ts, lookup);
      if p.Some? && Head(p.value.1) == Semicolon {
        StatementExtends(list, ts, p.value.0, p.value.1, lookup);
      }
    }
  }

  lemma {:induction false} StatementExtends(list: Tree, ts: seq<Token>, t: Tree, ts1: seq<Token>, lookup: Lookup)
    requires Parse(ASSIGN, ts, lookup) == Some((t, ts1)) && Head(ts1) == Semicolon
    ensures Extends(Lines(Append(list, t), ts1[1..], lookup), list, Ends(ts))
    decreases |ts|, 0
  {
    hide Parse, Lines, Ends, Length, TreeOf, Print, Fits, Known;
    var e := Sound(ASSIGN, ts, t, ts1, lookup);
    PrintInside(e);
    EndsPrint(Print(e), ts1[1..]);
    assert ts1 == [Semicolon] + ts1[1..];
    LinesExtend(Append(list, t), ts1[1..], lookup);
    var r := Lines(Append(list, t), ts1[1..], lookup);
    if r.Some? {
      var u :| r.value == Append(Append(list, t), u) && Length(u) <= Ends(ts1[1..]);
      AppendTwice(list, t, u);
      LengthAppend(t, u);
      assert Length(t) == 1 by { LengthOne(t); }
    }
  }

  lemma LengthOne(t: Tree)
    requires t.Node? && t.sibling.Nil?
    ensures Length(t) == 1
  {
  }

  lemma {:induction false} AppendCancel(t: Tree, u: Tree, v: Tree)
    requires Append(t, u) == Append(t, v)
    ensures u == v
  {
    if t.Node? {
      AppendCancel(t.sibling, u, v);
    }
  }

  // ---------------------------------------------------------------- whole lines

  /** A statement, its semicolon, and the empty statements behind it. */
  datatype Item = Item(e: Expr, empties: nat)

  function PrintRuns(items: seq<Item>): seq<Token> {
    if items == [] then [] else
    Print(items[0].e) + ([Semicolon] + (Semis(items[0].empties) + PrintRuns(items[1..])))
  }

  predicate ItemsKnown(items: seq<Item>, lookup: Lookup) {
    items != [] ==> Fits(items[0].e, ASSIGN) && Known(items[0].e, lookup) && ItemsKnown(items[1..], lookup)
  }

  /** The statements of the line as written. */
  function ItemsTree(items: seq<Item>, lookup: Lookup): (t: Tree)
    requires ItemsKnown(items, lookup)
  {
    if items == [] then Nil else
    var t := TreeOf(items[0].e, lookup);
    t.(sibling := ItemsTree(items[1..], lookup))
  }

  /** Every odd run of empty statements stands at the end or in front of a redundant token. */
  predicate Kept(items: seq<Item>) {
    |items| <= 1 || ((items[0].empties % 2 == 0 || Redundant(items[1].e)) && Kept(items[1..]))
  }

  lemma {:induction false} ItemsEnds(items: seq<Item>)
    ensures Ends(PrintRuns(items)) == |items|
  {
    if items != [] {
      hide Print;
      var rest := Semis(items[0].empties) + PrintRuns(items[1..]);
      ItemsEnds(items[1..]);
      SemisEnds(items[0].empties, PrintRuns(items[1..]));
      PrintInside(items[0].e);
      EndsPrint(Print(items[0].e), rest);
    }
  }

  lemma {:induction false} SemisEnds(k: nat, ts: seq<Token>)
    ensures Ends(Semis(k) + ts) == Ends(ts)
  {
    if k == 0 {
      assert Semis(0) + ts == ts;
    } else {
      Regroup([Semicolon], Semis(k - 1), ts);
      EndsPush(Semis(k - 1) + ts);
      SemisEnds(k - 1, ts);
    }
  }

  lemma {:induction false} ItemsLength(items: seq<Item>, lookup: Lookup)
    requires ItemsKnown(items, lookup)
    ensures Length(ItemsTree(items, lookup)) == |items|
  {
    if items != [] {
      ItemsLength(items[1..], lookup);
    }
  }

  lemma StatementRead(list: Tree, e: Expr, ts: seq<Token>, lookup: Lookup)
    requires Fits(e, ASSIGN) && Known(e, lookup)
    ensures Lines(list, Print(e) + ([Semicolon] + ts), lookup) == Lines(Append(list, TreeOf(e, lookup)), ts, lookup)
  {
    hide Parse, TreeOf, Known, Fits, Print, Append, Drop;
    var rest := [Semicolon] + ts;
    StartsOpen(e, rest);
    RoundTrip(e, ASSIGN, rest, lookup);
    assert rest[1..] == ts;
  }

  /** A statement without its semicolon is an error, as is anything that starts like one and does not
      parse; the end of the line and a token the lexer rejects end it with what was read so far. */
  lemma LineErrors(list: Tree, ts: seq<Token>, lookup: Lookup)
    ensures Head(ts) in {Eof, Bad} ==> Lines(list, ts, lookup) == Some(list)
    ensures Head(ts) !in {Eof, Bad, Semicolon} ==>
              (Lines(list, ts, lookup) != None ==>
               exists e, rest :: Fits(e, ASSIGN) && Known(e, lookup) && ts == Print(e) + ([Semicolon] + rest))
  {
    hide Print, TreeOf, Fits, Known, Append;
    if Head(ts) !in {Eof, Bad, Semicolon} && Lines(list, ts, lookup) != None {
      var (t, ts1) := Parse(ASSIGN, ts, lookup).value;
      var e := Sound(ASSIGN, ts, t, ts1, lookup);
      assert ts1 == [Semicolon] + ts1[1..];
    }
  }

  /** What stands behind the first statement, read with that statement on the list. */
  lemma FirstStatement(list: Tree, items: seq<Item>, lookup: Lookup)
    requires items != [] && ItemsKnown(items, lookup)
    ensures var list1 := Append(list, TreeOf(items[0].e, lookup));
            var more := PrintRuns(items[1..]);
            Lines(list, PrintRuns(items), lookup) ==
            Lines(list1, if items[0].empties % 2 == 0 then more else Drop(more), lookup)
  {
    hide Lines, TreeOf, Known, Fits, Print, Semis;
    var e, k, more := items[0].e, items[0].empties, PrintRuns(items[1..]);
    StatementRead(list, e, Semis(k) + more, lookup);
    EmptyRun(Append(list, TreeOf(e, lookup)), k, more, lookup);
  }

  /** Without its first token, a statement that needs it leaves another line. */
  lemma SwallowChanges(list: Tree, items: seq<Item>, lookup: Lookup)
    requires items != [] && ItemsKnown(items, lookup) && !Redundant(items[0].e)
    ensures Lines(list, Drop(PrintRuns(items)), lookup) != Some(Append(list, ItemsTree(items, lookup)))
  {
    hide Parse, Lines, TreeOf, Known, Fits, Print, Semis, Redundant, Ends, Length, Inside;
    var e := items[0].e;
    var rest := Semis(items[0].empties) + PrintRuns(items[1..]);
    Behead(Print(e), [Semicolon] + rest);
    if |Print(e)| == 1 {
      SwallowAll(list, items, lookup);
    } else if Lines(list, Drop(PrintRuns(items)), lookup) == Some(Append(list, ItemsTree(items, lookup))) {
      SwallowPart(list, e, rest, TreeOf(e, lookup), ItemsTree(items[1..], lookup), lookup);
    }
  }

  lemma SwallowAll(list: Tree, items: seq<Item>, lookup: Lookup)
    requires items != [] && ItemsKnown(items, lookup) && |Print(items[0].e)| == 1
    ensures Lines(list, Drop(PrintRuns(items)), lookup) != Some(Append(list, ItemsTree(items, lookup)))
  {
    hide Parse, Lines, TreeOf, Known, Fits, Print, Semis, Ends, Length, ItemsTree;
    var rest := Semis(items[0].empties) + PrintRuns(items[1..]);
    Behead(Print(items[0].e), [Semicolon] + rest);
    var ts := [Semicolon] + rest;
    assert Drop(PrintRuns(items)) == ts;
    EndsPush(rest);
    SemisEnds(items[0].empties, PrintRuns(items[1..]));
    ItemsEnds(items[1..]);
    ItemsLength(items, lookup);
    LinesExtend(list, ts, lookup);
    if Lines(list, ts, lookup) == Some(Append(list, ItemsTree(items, lookup))) {
      var u :| Append(list, ItemsTree(items, lookup)) == Append(list, u) && Length(u) <= Ends(ts);
      AppendCancel(list, u, ItemsTree(items, lookup));
    }
  }

  lemma SwallowPart(list: Tree, e: Expr, rest: seq<Token>, t0: Tree, others: Tree, lookup: Lookup)
    requires Fits(e, ASSIGN) && Known(e, lookup) && |Print(e)| > 1 && t0 == TreeOf(e, lookup) && t0.Node?
    requires Lines(list, Print(e)[1..] + ([Semicolon] + rest), lookup) == Some(Append(list, t0.(sibling := others)))
    ensures Redundant(e)
  {
    hide Parse, TreeOf, Known, Fits, Print, Redundant;
    var ts := Print(e)[1..] + ([Semicolon] + rest);
    PrintInside(e);
    assert Head(ts) == Print(e)[1];
    var (t, ts1) := Parse(ASSIGN, ts, lookup).value;
    var f := Sound(ASSIGN, ts, t, ts1, lookup);
    PrintInside(f);
    FirstEnd(Print(e)[1..], rest, Print(f), ts1[1..]);
    FirstTree(list, t, ts1[1..], t0, others, lookup);
    RedundantOnly(e, f, lookup);
  }

  /** The first semicolon is found in one way only. */
  lemma FirstEnd(p: seq<Token>, x: seq<Token>, q: seq<Token>, y: seq<Token>)
    requires Inside(p) && Inside(q) && p + ([Semicolon] + x) == q + ([Semicolon] + y)
    ensures p == q
  {
    var ts := p + ([Semicolon] + x);
    assert ts[|p|] == Semicolon && ts[|q|] == Semicolon;
    assert forall i :: 0 <= i < |p| ==> ts[i] == p[i];
    assert forall i :: 0 <= i < |q| ==> ts[i] == q[i];
    assert ts[..|p|] == p && ts[..|q|] == q;
  }

  lemma FirstTree(list: Tree, t: Tree, ts: seq<Token>, u: Tree, others: Tree, lookup: Lookup)
    requires t.Node? && t.sibling.Nil? && u.Node? && u.sibling.Nil?
    requires Lines(Append(list, t), ts, lookup) == Some(Append(list, u.(sibling := others)))
    ensures t == u
  {
    hide Lines, Ends;
    LinesExtend(Append(list, t), ts, lookup);
    var v :| Append(list, u.(sibling := others)) == Append(Append(list, t), v) && Length(v) <= Ends(ts);
    AppendTwice(list, t, v);
    AppendCancel(list, u.(sibling := others), Append(t, v));
    AppendLeaf(t, v);
    assert u.(sibling := others).(sibling := Nil) == u;
  }

  lemma AppendLeaf(t: Tree, v: Tree)
    requires t.Node? && t.sibling.Nil?
    ensures Append(t, v) == t.(sibling := v) && t.(sibling := v).(sibling := Nil) == t
  {
  }

  lemma ShortenFirst(items: seq<Item>, lookup: Lookup) returns (short: seq<Item>)
    requires items != [] && ItemsKnown(items, lookup) && Redundant(items[0].e)
    ensures |short| == |items| && ItemsKnown(short, lookup) && ItemsTree(short, lookup) == ItemsTree(items, lookup)
    ensures PrintRuns(short) == Drop(PrintRuns(items)) && (Kept(short) <==> Kept(items))
  {
    hide TreeOf, Known, Fits, Print, Semis, Redundant, Shortened;
    var e := items[0].e;
    ShortenedSame(e, ASSIGN, lookup);
    short := [Item(Shortened(e), items[0].empties)] + items[1..];
    assert short[1..] == items[1..];
    Behead(Print(e), [Semicolon] + (Semis(items[0].empties) + PrintRuns(items[1..])));
  }

  /** Read behind any statements, the statements of a line are all kept exactly if every odd run of
      empty statements stands at the end or in front of a redundant token. */
  lemma {:induction false} RunsExactly(list: Tree, items: seq<Item>, lookup: Lookup)
    requires ItemsKnown(items, lookup)
    ensures Lines(list, PrintRuns(items), lookup) == Some(Append(list, ItemsTree(items, lookup))) <==> Kept(items)
    decreases |items|
  {
    if items == [] {
      AppendNil(list);
      assert Lines(list, [], lookup) == Some(list);
    } else {
      hide Lines, TreeOf, Known, Fits, Print, Semis, Redundant;
      var t := TreeOf(items[0].e, lookup);
      var list1, rest := Append(list, t), items[1..];
      FirstStatement(list, items, lookup);
      AppendTwice(list, t, ItemsTree(rest, lookup));
      AppendLeaf(t, ItemsTree(rest, lookup));
      if items[0].empties % 2 == 0 {
        RunsExactly(list1, rest, lookup);
      } else if rest == [] {
        AppendNil(list1);
      } else if Redundant(rest[0].e) {
        var short := ShortenFirst(rest, lookup);
        RunsExactly(list1, short, lookup);
      } else {
        SwallowChanges(list1, rest, lookup);
      }
    }
  }

  /** The statements of a line. */
  function Statements(items: seq<Item>): seq<Expr> {
    if items == [] then [] else [items[0].e] + Statements(items[1..])
  }

  lemma {:induction false} ItemsLine(items: seq<Item>, lookup: Lookup)
    requires LineKnown(Statements(items), lookup)
    ensures ItemsKnown(items, lookup) && ItemsTree(items, lookup) == LineTree(Statements(items), lookup)
  {
    hide TreeOf, Known, Fits;
    if items != [] {
      var es := Statements(items);
      assert es[0] == items[0].e && es[1..] == Statements(items[1..]);
      assert forall i :: 0 <= i < |es[1..]| ==> es[1..][i] == es[i + 1];
      ItemsLine(items[1..], lookup);
    }
  }

  /** A line with empty statements anywhere parses to the list of all its statements if and only if
      it does not start with an empty statement (or has nothing else), and every odd run of empty
      statements stands at the end or in front of a redundant token. */
  lemma LineExactly(leading: nat, items: seq<Item>, lookup: Lookup)
    requires LineKnown(Statements(items), lookup)
    ensures Lines(Nil, Semis(leading) + PrintRuns(items), lookup) == Some(LineTree(Statements(items), lookup)) <==>
            (leading == 0 || items == []) && Kept(items)
  {
    hide Parse, TreeOf, Known, Fits, Print;
    ItemsLine(items, lookup);
    var ts := Semis(leading) + PrintRuns(items);
    if leading == 0 {
      assert ts == PrintRuns(items);
      RunsExactly(Nil, items, lookup);
    } else {
      assert Head(ts) == Semicolon;
    }
  }
}
