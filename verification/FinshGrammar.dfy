/** The expression grammar of finsh: tokens, surface expressions with their precedence, the tree
    each stands for, and the parser as a function of the token sequence. */
module FinshGrammar {
  import opened Basics
  import opened FinshWords
  import opened FinshMachine
  import opened FinshCompiler

  /** The tokens of cast-free expressions. */
  datatype Token =
    | LeftParen | RightParen | Comma | Semicolon
    | TokMul | TokAdd | TokInc | TokSub | TokDec | TokDiv | TokMod | TokAssign
    | TokAnd | TokOr | TokXor | TokBitwise | TokShl | TokShr
    | Number(v: Word) | Name(id: string) | Bad | Eof

  /** Symbol lookup: user variables, then system variables, then system calls. */
  type Lookup = string -> Option<Symbol>

  datatype Prefix = Plus | Minus | BeforeInc | BeforeDec | Complement | Deref | AddressOf

  datatype Expr =
    | Ident(id: string)
    | Const(v: Word)
    | Infix(op: ArithOp, left: Expr, right: Expr)
    | Assignment(target: Expr, value: Expr)
    | Prefixed(prefix: Prefix, operand: Expr)
    | Postfixed(increment: bool, operand: Expr)
    | Call(function_: Expr, args: Args)

  datatype Args = NoArgs | Arg(first: Expr, rest: Args)

  // ---------------------------------------------------------------- levels

  const ASSIGN: nat := 0
  const MULTIPLICATIVE: nat := 6
  const CAST: nat := 7
  const UNARY: nat := 8
  const POSTFIX: nat := 9
  const PRIMARY: nat := 10

  /** Inclusive or, exclusive or, and, shift, additive, multiplicative: 1 to 6. */
  function OpLevel(op: ArithOp): (l: nat)
    ensures 1 <= l <= MULTIPLICATIVE
  {
    match op
    case Or => 1
    case Xor => 2
    case And => 3
    case Shl => 4
    case Shr => 4
    case Add => 5
    case Sub => 5
    case Mul => 6
    case Div => 6
    case Mod => 6
  }

  function OpToken(op: ArithOp): (t: Token)
    ensures OpOf(t) == Some(op)
  {
    match op
    case Or => TokOr
    case Xor => TokXor
    case And => TokAnd
    case Shl => TokShl
    case Shr => TokShr
    case Add => TokAdd
    case Sub => TokSub
    case Mul => TokMul
    case Div => TokDiv
    case Mod => TokMod
  }

  function OpOf(t: Token): Option<ArithOp> {
    match t
    case TokOr => Some(Or)
    case TokXor => Some(Xor)
    case TokAnd => Some(And)
    case TokShl => Some(Shl)
    case TokShr => Some(Shr)
    case TokAdd => Some(Add)
    case TokSub => Some(Sub)
    case TokMul => Some(Mul)
    case TokDiv => Some(Div)
    case TokMod => Some(Mod)
    case _ => None
  }

  /** The binary operator a token stands for at a level. */
  function OpAt(level: nat, t: Token): Option<ArithOp> {
    var op :- OpOf(t);
    if OpLevel(op) == level then Some(op) else None
  }

  function PrefixToken(p: Prefix): Token {
    match p
    case Plus => TokAdd
    case Minus => TokSub
    case BeforeInc => TokInc
    case BeforeDec => TokDec
    case Complement => TokBitwise
    case Deref => TokMul
    case AddressOf => TokAnd
  }

  function PrefixOf(t: Token): Option<Prefix> {
    match t
    case TokAdd => Some(Plus)
    case TokSub => Some(Minus)
    case TokInc => Some(BeforeInc)
    case TokDec => Some(BeforeDec)
    case TokBitwise => Some(Complement)
    case TokMul => Some(Deref)
    case TokAnd => Some(AddressOf)
    case _ => None
  }

  function Level(e: Expr): nat {
    match e
    case Ident(_) => PRIMARY
    case Const(_) => PRIMARY
    case Infix(op, _, _) => OpLevel(op)
    case Assignment(_, _) => ASSIGN
    case Prefixed(_, _) => UNARY
    case Postfixed(_, _) => POSTFIX
    case Call(_, _) => POSTFIX
  }

  /** An expression that needs no parentheses where something of at least `level` is expected. */
  predicate Fits(e: Expr, level: nat) {
    Level(e) >= level &&
    match e
    case Ident(_) => true
    case Const(_) => true
    case Infix(op, l, r) => Fits(l, OpLevel(op)) && Fits(r, OpLevel(op) + 1)
    case Assignment(l, r) => Fits(l, 1) && Fits(r, ASSIGN)
    case Prefixed(_, x) => Fits(x, CAST)
    case Postfixed(_, x) => Fits(x, POSTFIX)
    case Call(f, args) => Fits(f, POSTFIX) && FitArgs(args)
  }

  predicate FitArgs(args: Args) {
    args.Arg? ==> Fits(args.first, ASSIGN) && FitArgs(args.rest)
  }

  /** Every identifier has a symbol. */
  predicate Known(e: Expr, lookup: Lookup) {
    match e
    case Ident(id) => lookup(id).Some?
    case Const(_) => true
    case Infix(_, l, r) => Known(l, lookup) && Known(r, lookup)
    case Assignment(l, r) => Known(l, lookup) && Known(r, lookup)
    case Prefixed(_, x) => Known(x, lookup)
    case Postfixed(_, x) => Known(x, lookup)
    case Call(f, args) => Known(f, lookup) && KnownArgs(args, lookup)
  }

  predicate KnownArgs(args: Args, lookup: Lookup) {
    args.Arg? ==> Known(args.first, lookup) && KnownArgs(args.rest, lookup)
  }

  // ---------------------------------------------------------------- printing

  function Print(e: Expr): (ts: seq<Token>)
    ensures ts != []
  {
    match e
    case Ident(id) => [Name(id)]
    case Const(v) => [Number(v)]
    case Infix(op, l, r) => Print(l) + ([OpToken(op)] + Print(r))
    case Assignment(l, r) => Print(l) + ([TokAssign] + Print(r))
    case Prefixed(p, x) => [PrefixToken(p)] + Print(x)
    case Postfixed(inc, x) => Print(x) + [if inc then TokInc else TokDec]
    case Call(f, args) => Print(f) + ([LeftParen] + (PrintArgs(args) + [RightParen]))
  }

  function PrintArgs(args: Args): seq<Token> {
    match args
    case NoArgs => []
    case Arg(e, NoArgs) => Print(e)
    case Arg(e, rest) => Print(e) + ([Comma] + PrintArgs(rest))
  }

  // ---------------------------------------------------------------- trees

  /** make_sys_node: the second operand becomes the sibling of the first. */
  function Sys(kind: Kind, first: Tree, second: Tree): Tree
    requires first.Node?
  {
    Node(kind, false, Void, first.(sibling := second), Nil)
  }

  function Leaf(kind: Kind): Tree {
    Node(kind, false, Void, Nil, Nil)
  }

  /** The node a prefix operator builds: none for plus, a subtraction from 0 for minus. */
  function PrefixTree(p: Prefix, x: Tree): (t: Tree)
    requires x.Node? && x.sibling.Nil?
    ensures t.Node? && t.sibling.Nil?
  {
    match p
    case Plus => x
    case Minus => Sys(Binary(Sub), Leaf(Value(0)), x)
    case BeforeInc => Sys(PreInc, x, Nil)
    case BeforeDec => Sys(PreDec, x, Nil)
    case Complement => Sys(Bitwise, x, Nil)
    case Deref => Sys(GetValue, x, Nil)
    case AddressOf => Sys(GetAddr, x, Nil)
  }

  /** The tree an expression stands for. */
  function TreeOf(e: Expr, lookup: Lookup): (t: Tree)
    requires Known(e, lookup)
    ensures t.Node? && t.sibling.Nil?
  {
    match e
    case Ident(id) => Leaf(Id(lookup(id).value))
    case Const(v) => Leaf(Value(v))
    case Infix(op, l, r) => Sys(Binary(op), TreeOf(l, lookup), TreeOf(r, lookup))
    case Assignment(l, r) => Sys(Assign, TreeOf(l, lookup), TreeOf(r, lookup))
    case Prefixed(p, x) => PrefixTree(p, TreeOf(x, lookup))
    case Postfixed(inc, x) => Sys(if inc then Inc else Dec, TreeOf(x, lookup), Nil)
    case Call(f, args) => Sys(Func, TreeOf(f, lookup), ArgsTree(args, lookup))
  }

  /** Arguments as a list of siblings. */
  function ArgsTree(args: Args, lookup: Lookup): (t: Tree)
    requires KnownArgs(args, lookup)
    ensures t.Nil? <==> args.NoArgs?
  {
    match args
    case NoArgs => Nil
    case Arg(e, rest) => TreeOf(e, lookup).(sibling := ArgsTree(rest, lookup))
  }

  // ---------------------------------------------------------------- parsing

  type Parsed = Option<(Tree, seq<Token>)>

  function Head(ts: seq<Token>): Token {
    if ts == [] then Eof else ts[0]
  }

  predicate Good(r: Parsed, ts: seq<Token>) {
    r.Some? ==> r.value.0.Node? && r.value.0.sibling.Nil? && |r.value.1| < |ts|
  }

  /** The parse of an expression at a level: the tree and the remaining tokens, or None if an error
      is set. */
  function Parse(level: nat, ts: seq<Token>, lookup: Lookup): (r: Parsed)
    requires level <= PRIMARY
    ensures Good(r, ts)
    decreases |ts|, PRIMARY - level
  {
    if level == ASSIGN then
      var (a, ts1) :- Parse(1, ts, lookup);
      if Head(ts1) != TokAssign then Some((a, ts1)) else
      var (b, ts2) :- Parse(ASSIGN, ts1[1..], lookup);
      Some((Sys(Assign, a, b), ts2))
    else if level <= MULTIPLICATIVE then
      var (a, ts1) :- Parse(level + 1, ts, lookup);
      Tail(level, a, ts1, lookup)
    else if level == CAST then
      if Head(ts) == LeftParen then None else Parse(UNARY, ts, lookup)
    else if level == UNARY then
      if PrefixOf(Head(ts)).None? then Parse(POSTFIX, ts, lookup) else
      var (x, ts1) :- Parse(CAST, ts[1..], lookup);
      Some((PrefixTree(PrefixOf(Head(ts)).value, x), ts1))
    else if level == POSTFIX then
      var (a, ts1) :- Parse(PRIMARY, ts, lookup);
      PostTail(a, ts1, lookup)
    else
      match Head(ts)
      case Name(id) =>
        var symbol :- lookup(id);
        Some((Leaf(Id(symbol)), ts[1..]))
      case Number(v) => Some((Leaf(Value(v)), ts[1..]))
      case LeftParen =>
        var (e, ts1) :- Parse(ASSIGN, ts[1..], lookup);
        if Head(ts1) == RightParen then Some((e, ts1[1..])) else None
      case _ => None
  }

  /** The loop of a binary level, which folds to the left. */
  function Tail(level: nat, a: Tree, ts: seq<Token>, lookup: Lookup): (r: Parsed)
    requires 1 <= level <= MULTIPLICATIVE && a.Node? && a.sibling.Nil?
    ensures r.Some? ==> r.value.0.Node? && r.value.0.sibling.Nil? && |r.value.1| <= |ts|
    decreases |ts|, PRIMARY + 1
  {
    if OpAt(level, Head(ts)).None? then Some((a, ts)) else
    var (b, ts1) :- Parse(level + 1, ts[1..], lookup);
    Tail(level, Sys(Binary(OpAt(level, Head(ts)).value), a, b), ts1, lookup)
  }

  /** The loop of the postfix operators and calls. */
  function PostTail(a: Tree, ts: seq<Token>, lookup: Lookup): (r: Parsed)
    requires a.Node? && a.sibling.Nil?
    ensures r.Some? ==> r.value.0.Node? && r.value.0.sibling.Nil? && |r.value.1| <= |ts|
    decreases |ts|, PRIMARY + 1
  {
    match Head(ts)
    case TokInc => PostTail(Sys(Inc, a, Nil), ts[1..], lookup)
    case TokDec => PostTail(Sys(Dec, a, Nil), ts[1..], lookup)
    case LeftParen =>
      var (args, ts1) :- ParseParams(ts[1..], lookup);
      PostTail(Sys(Func, a, args), ts1, lookup)
    case _ => Some((a, ts))
  }

  /** Parameters up to the right parenthesis. */
  function ParseParams(ts: seq<Token>, lookup: Lookup): (r: Parsed)
    ensures r.Some? ==> |r.value.1| < |ts|
    decreases |ts|, PRIMARY + 3
  {
    if Head(ts) == RightParen then Some((Nil, ts[1..])) else
    var (args, ts1) :- ParseArgs(ts, lookup);
    if Head(ts1) == RightParen then Some((args, ts1[1..])) else None
  }

  /** A parameter list, as siblings. */
  function ParseArgs(ts: seq<Token>, lookup: Lookup): (r: Parsed)
    ensures r.Some? ==> r.value.0.Node? && |r.value.1| < |ts|
    decreases |ts|, PRIMARY + 2
  {
    var (a, ts1) :- Parse(ASSIGN, ts, lookup);
    if Head(ts1) != Comma then Some((a, ts1)) else
    var (rest, ts2) :- ParseArgs(ts1[1..], lookup);
    Some((a.(sibling := rest), ts2))
  }

  // ---------------------------------------------------------------- the round trip

  /** A token that ends an expression of a level. */
  predicate Stops(t: Token, level: nat) {
    (level <= POSTFIX ==> !t.TokInc? && !t.TokDec? && !t.LeftParen?) &&
    (OpOf(t).Some? ==> OpLevel(OpOf(t).value) < level) &&
    (level == ASSIGN ==> !t.TokAssign?)
  }

  /** Tokens an expression at level 7 or above but not prefixed starts with. */
  lemma {:induction false} FirstToken(e: Expr, after: seq<Token>)
    requires Fits(e, CAST)
    ensures Head(Print(e) + after) != LeftParen
    ensures Level(e) != UNARY ==> PrefixOf(Head(Print(e) + after)).None?
  {
    match e
    case Ident(_) =>
    case Const(_) =>
    case Prefixed(_, _) =>
    case Postfixed(inc, x) =>
      FirstToken(x, [if inc then TokInc else TokDec] + after);
      Regroup(Print(x), [if inc then TokInc else TokDec], after);
    case Call(f, args) =>
      FirstToken(f, [LeftParen] + (PrintArgs(args) + [RightParen]) + after);
      Regroup(Print(f), [LeftParen] + (PrintArgs(args) + [RightParen]), after);
  }

  lemma Regroup(a: seq<Token>, b: seq<Token>, c: seq<Token>)
    ensures a + b + c == a + (b + c)
  {
  }

  /** An expression does not start with a closing or separating token. */
  lemma {:induction false} StartsOpen(e: Expr, after: seq<Token>)
    ensures Head(Print(e) + after) !in {RightParen, Comma, Semicolon, Bad, Eof}
  {
    hide Fits, Known;
    match e
    case Ident(_) =>
    case Const(_) =>
    case Infix(op, l, r) =>
      StartsOpen(l, [OpToken(op)] + Print(r) + after);
      Regroup(Print(l), [OpToken(op)] + Print(r), after);
    case Assignment(l, r) =>
      StartsOpen(l, [TokAssign] + Print(r) + after);
      Regroup(Print(l), [TokAssign] + Print(r), after);
    case Prefixed(_, _) =>
    case Postfixed(inc, x) =>
      StartsOpen(x, [if inc then TokInc else TokDec] + after);
      Regroup(Print(x), [if inc then TokInc else TokDec], after);
    case Call(f, args) =>
      StartsOpen(f, [LeftParen] + (PrintArgs(args) + [RightParen]) + after);
      Regroup(Print(f), [LeftParen] + (PrintArgs(args) + [RightParen]), after);
  }

  /** The precedence round trip: printed and followed by any token that ends it, an expression
      parses back to exactly its tree, and nothing of what follows is consumed. */
  lemma {:induction false} RoundTrip(e: Expr, level: nat, after: seq<Token>, lookup: Lookup)
    requires level <= PRIMARY && Fits(e, level) && Known(e, lookup) && Stops(Head(after), level)
    ensures Parse(level, Print(e) + after, lookup) == Some((TreeOf(e, lookup), after))
    decreases e, PRIMARY - level, 1
  {
    if level == PRIMARY {
      LeafTrip(e, after, lookup);
    } else if Level(e) > level {
      RoundTrip(e, level + 1, after, lookup);
      Descend(e, level, after, lookup);
    } else if level == ASSIGN {
      AssignTrip(e, after, lookup);
    } else if level <= MULTIPLICATIVE {
      TailThrough(e, level, after, lookup);
    } else if level == UNARY {
      PrefixTrip(e, after, lookup);
    } else {
      PostThrough(e, after, lookup);
    }
  }

  lemma LeafTrip(e: Expr, after: seq<Token>, lookup: Lookup)
    requires Fits(e, PRIMARY) && Known(e, lookup)
    ensures Parse(PRIMARY, Print(e) + after, lookup) == Some((TreeOf(e, lookup), after))
  {
    assert (Print(e) + after)[1..] == after;
  }

  /** What a level above accepts, this level passes on. */
  lemma Descend(e: Expr, level: nat, after: seq<Token>, lookup: Lookup)
    requires level < PRIMARY && Fits(e, level + 1) && Known(e, lookup) && Stops(Head(after), level)
    requires Parse(level + 1, Print(e) + after, lookup) == Some((TreeOf(e, lookup), after))
    ensures Parse(level, Print(e) + after, lookup) == Some((TreeOf(e, lookup), after))
  {
    hide TreeOf, Print, Known;
    if level == CAST || level == UNARY {
      FirstToken(e, after);
    }
  }

  lemma {:induction false} AssignTrip(e: Expr, after: seq<Token>, lookup: Lookup)
    requires e.Assignment? && Fits(e, ASSIGN) && Known(e, lookup) && Stops(Head(after), ASSIGN)
    ensures Parse(ASSIGN, Print(e) + after, lookup) == Some((TreeOf(e, lookup), after))
    decreases e, PRIMARY, 0
  {
    var rest := [TokAssign] + Print(e.value) + after;
    Regroup(Print(e.target), [TokAssign] + Print(e.value), after);
    RoundTrip(e.target, 1, rest, lookup);
    RoundTrip(e.value, ASSIGN, after, lookup);
    assert rest[1..] == Print(e.value) + after;
  }

  lemma BinaryLevel(level: nat, ts: seq<Token>, lookup: Lookup)
    requires 1 <= level <= MULTIPLICATIVE
    ensures Parse(level, ts, lookup) ==
            match Parse(level + 1, ts, lookup)
            case None => None
            case Some((a, ts1)) => Tail(level, a, ts1, lookup)
  {
    hide Tail;
  }

  lemma TailStep(level: nat, a: Tree, op: ArithOp, rest: seq<Token>, b: Tree, after: seq<Token>, lookup: Lookup)
    requires OpLevel(op) == level && a.Node? && a.sibling.Nil? && b.Node? && b.sibling.Nil?
    requires Parse(level + 1, rest, lookup) == Some((b, after))
    ensures Tail(level, a, [OpToken(op)] + rest, lookup) == Tail(level, Sys(Binary(op), a, b), after, lookup)
  {
    hide Parse;
    var ts := [OpToken(op)] + rest;
    assert ts[1..] == rest && Head(ts) == OpToken(op);
  }

  lemma TailEnd(level: nat, a: Tree, ts: seq<Token>, lookup: Lookup)
    requires 1 <= level <= MULTIPLICATIVE && a.Node? && a.sibling.Nil?
    ensures Stops(Head(ts), level) ==> Tail(level, a, ts, lookup) == Some((a, ts))
  {
    hide Parse;
  }

  /** A binary level reads the expression and is then in its loop. */
  lemma {:induction false} TailThrough(e: Expr, level: nat, after: seq<Token>, lookup: Lookup)
    requires 1 <= level <= MULTIPLICATIVE && Fits(e, level) && Known(e, lookup) && Stops(Head(after), level + 1)
    ensures Parse(level, Print(e) + after, lookup) == Tail(level, TreeOf(e, lookup), after, lookup)
    ensures Stops(Head(after), level) ==> Tail(level, TreeOf(e, lookup), after, lookup) == Some((TreeOf(e, lookup), after))
    decreases e, PRIMARY - level, 0
  {
    hide Parse, Tail, Stops;
    BinaryLevel(level, Print(e) + after, lookup);
    TailEnd(level, TreeOf(e, lookup), after, lookup);
    if Level(e) > level {
      RoundTrip(e, level + 1, after, lookup);
    } else {
      var rest := Print(e.right) + after;
      Regroup([OpToken(e.op)], Print(e.right), after);
      Regroup(Print(e.left), [OpToken(e.op)] + Print(e.right), after);
      OpStops(e.op, rest);
      TailThrough(e.left, level, [OpToken(e.op)] + rest, lookup);
      RoundTrip(e.right, level + 1, after, lookup);
      BinaryLevel(level, Print(e.left) + ([OpToken(e.op)] + rest), lookup);
      TailStep(level, TreeOf(e.left, lookup), e.op, rest, TreeOf(e.right, lookup), after, lookup);
    }
  }

  /** An operator ends the operand on its left. */
  lemma OpStops(op: ArithOp, rest: seq<Token>)
    ensures Stops(Head([OpToken(op)] + rest), OpLevel(op) + 1)
  {
  }

  lemma {:induction false} PrefixTrip(e: Expr, after: seq<Token>, lookup: Lookup)
    requires e.Prefixed? && Fits(e, UNARY) && Known(e, lookup) && Stops(Head(after), UNARY)
    ensures Parse(UNARY, Print(e) + after, lookup) == Some((TreeOf(e, lookup), after))
    decreases e, PRIMARY - UNARY, 0
  {
    RoundTrip(e.operand, CAST, after, lookup);
    assert (Print(e) + after)[1..] == Print(e.operand) + after;
  }

  /** The postfix level reads the expression and is then in its loop. */
  lemma {:induction false} PostThrough(e: Expr, after: seq<Token>, lookup: Lookup)
    requires Fits(e, POSTFIX) && Known(e, lookup)
    ensures Parse(POSTFIX, Print(e) + after, lookup) == PostTail(TreeOf(e, lookup), after, lookup)
    decreases e, PRIMARY - POSTFIX, 0
  {
    match e
    case Ident(_) => LeafTrip(e, after, lookup);
    case Const(_) => LeafTrip(e, after, lookup);
    case Postfixed(inc, x) =>
      var rest := [if inc then TokInc else TokDec] + after;
      Regroup(Print(x), [if inc then TokInc else TokDec], after);
      PostThrough(x, rest, lookup);
      assert rest[1..] == after;
    case Call(f, args) => CallThrough(e, after, lookup);
  }

  lemma {:induction false} CallThrough(e: Expr, after: seq<Token>, lookup: Lookup)
    requires e.Call? && Fits(e, POSTFIX) && Known(e, lookup)
    ensures Parse(POSTFIX, Print(e) + after, lookup) == PostTail(TreeOf(e, lookup), after, lookup)
    decreases e, 0, 0
  {
    hide Parse;
    var inner := PrintArgs(e.args) + ([RightParen] + after);
    var rest := [LeftParen] + inner;
    assert Print(e) + after == Print(e.function_) + rest;
    PostThrough(e.function_, rest, lookup);
    assert rest[1..] == inner;
    ParamsThrough(e.args, after, lookup);
  }

  lemma {:induction false} ParamsThrough(args: Args, after: seq<Token>, lookup: Lookup)
    requires FitArgs(args) && KnownArgs(args, lookup)
    ensures ParseParams(PrintArgs(args) + ([RightParen] + after), lookup) == Some((ArgsTree(args, lookup), after))
    decreases args, 0, 1
  {
    hide Parse, ParseArgs;
    var rest := [RightParen] + after;
    assert rest[1..] == after;
    if args.NoArgs? {
      assert PrintArgs(args) + rest == rest;
    } else {
      ArgsThrough(args, rest, lookup);
      ArgsStart(args, rest);
    }
  }

  lemma ArgsStart(args: Args, after: seq<Token>)
    requires args.Arg?
    ensures Head(PrintArgs(args) + after) != RightParen
  {
    if args.rest.NoArgs? {
      StartsOpen(args.first, after);
    } else {
      StartsOpen(args.first, [Comma] + PrintArgs(args.rest) + after);
      Regroup(Print(args.first), [Comma] + PrintArgs(args.rest), after);
    }
  }

  lemma {:induction false} ArgsThrough(args: Args, after: seq<Token>, lookup: Lookup)
    requires args.Arg? && FitArgs(args) && KnownArgs(args, lookup) && Head(after) == RightParen
    ensures ParseArgs(PrintArgs(args) + after, lookup) == Some((ArgsTree(args, lookup), after))
    decreases args, 0, 0
  {
    hide Parse;
    if args.rest.NoArgs? {
      RoundTrip(args.first, ASSIGN, after, lookup);
    } else {
      var rest := [Comma] + PrintArgs(args.rest) + after;
      Regroup(Print(args.first), [Comma] + PrintArgs(args.rest), after);
      RoundTrip(args.first, ASSIGN, rest, lookup);
      ArgsThrough(args.rest, after, lookup);
      assert rest[1..] == PrintArgs(args.rest) + after;
    }
  }

  /** Printing loses no structure: expressions with the same tokens stand for the same tree. */
  lemma PrintedOnce(e: Expr, f: Expr, lookup: Lookup)
    requires Fits(e, ASSIGN) && Fits(f, ASSIGN) && Known(e, lookup) && Known(f, lookup) && Print(e) == Print(f)
    ensures TreeOf(e, lookup) == TreeOf(f, lookup)
  {
    RoundTrip(e, ASSIGN, [Semicolon], lookup);
    RoundTrip(f, ASSIGN, [Semicolon], lookup);
  }

  /** The grammar of the source has parenthesised expressions, but no expression that starts with a
      parenthesis is accepted where an expression may stand: the cast level takes it for a cast. */
  lemma {:induction false} ParenRefused(level: nat, ts: seq<Token>, lookup: Lookup)
    requires level <= CAST && Head(ts) == LeftParen
    ensures Parse(level, ts, lookup).None?
    decreases CAST - level
  {
    hide Tail;
    if level < CAST {
      ParenRefused(level + 1, ts, lookup);
    }
  }

  // ---------------------------------------------------------------- the converse

  /** What a parse result stands for: a printed expression and what follows it. */
  ghost predicate Reads(e: Expr, level: nat, ts: seq<Token>, t: Tree, rest: seq<Token>, lookup: Lookup) {
    Fits(e, level) && Known(e, lookup) && ts == Print(e) + rest && t == TreeOf(e, lookup) && Stops(Head(rest), level)
  }

  /** Whatever parses is a printed expression, and the parser stops only where it must. */
  lemma {:induction false} Sound(level: nat, ts: seq<Token>, t: Tree, rest: seq<Token>, lookup: Lookup) returns (e: Expr)
    requires level <= PRIMARY && Parse(level, ts, lookup) == Some((t, rest))
    requires level <= CAST || Head(ts) != LeftParen
    ensures Reads(e, level, ts, t, rest, lookup)
    decreases |ts|, PRIMARY - level, 1
  {
    hide Tail, PostTail;
    if level == ASSIGN {
      var (a, ts1) := Parse(1, ts, lookup).value;
      e := Sound(1, ts, a, ts1, lookup);
      if Head(ts1) == TokAssign {
        var (b, ts2) := Parse(ASSIGN, ts1[1..], lookup).value;
        var v := Sound(ASSIGN, ts1[1..], b, ts2, lookup);
        SoundAssign(e, v, ts, ts1, rest);
        e := Assignment(e, v);
      }
    } else if level <= MULTIPLICATIVE {
      var (a, ts1) := Parse(level + 1, ts, lookup).value;
      e := Sound(level + 1, ts, a, ts1, lookup);
      e := TailSound(level, e, ts, ts1, t, rest, lookup);
    } else if level == CAST {
      e := Sound(UNARY, ts, t, rest, lookup);
    } else if level == UNARY {
      e := UnarySound(ts, t, rest, lookup);
    } else if level == POSTFIX {
      var (a, ts1) := Parse(PRIMARY, ts, lookup).value;
      e := Sound(PRIMARY, ts, a, ts1, lookup);
      e := PostSound(e, ts, ts1, t, rest, lookup);
    } else {
      e := PrimarySound(ts, t, rest, lookup);
    }
  }

  lemma {:induction false} UnarySound(ts: seq<Token>, t: Tree, rest: seq<Token>, lookup: Lookup) returns (e: Expr)
    requires Parse(UNARY, ts, lookup) == Some((t, rest)) && Head(ts) != LeftParen
    ensures Reads(e, UNARY, ts, t, rest, lookup)
    decreases |ts|, PRIMARY - UNARY, 0
  {
    hide Tail, PostTail;
    if PrefixOf(Head(ts)).None? {
      e := Sound(POSTFIX, ts, t, rest, lookup);
    } else {
      var (x, ts1) := Parse(CAST, ts[1..], lookup).value;
      e := Sound(CAST, ts[1..], x, ts1, lookup);
      e := Prefixed(PrefixOf(Head(ts)).value, e);
      assert ts == [Head(ts)] + ts[1..];
    }
  }

  lemma PrimarySound(ts: seq<Token>, t: Tree, rest: seq<Token>, lookup: Lookup) returns (e: Expr)
    requires Parse(PRIMARY, ts, lookup) == Some((t, rest)) && Head(ts) != LeftParen
    ensures Reads(e, PRIMARY, ts, t, rest, lookup)
  {
    e := if Head(ts).Name? then Ident(Head(ts).id) else Const(Head(ts).v);
    assert ts == [Head(ts)] + ts[1..];
  }

  lemma SoundAssign(e: Expr, v: Expr, ts: seq<Token>, ts1: seq<Token>, rest: seq<Token>)
    requires ts == Print(e) + ts1 && Head(ts1) == TokAssign && ts1[1..] == Print(v) + rest
    ensures ts == Print(Assignment(e, v)) + rest
  {
    assert ts1 == [TokAssign] + ts1[1..];
  }

  lemma {:induction false} TailSound(level: nat, a: Expr, ts: seq<Token>, ts1: seq<Token>, t: Tree, rest: seq<Token>,
                                     lookup: Lookup)
      returns (e: Expr)
    requires 1 <= level <= MULTIPLICATIVE && Fits(a, level) && Known(a, lookup)
    requires ts == Print(a) + ts1 && Stops(Head(ts1), level + 1)
    requires Tail(level, TreeOf(a, lookup), ts1, lookup) == Some((t, rest))
    ensures Reads(e, level, ts, t, rest, lookup)
    decreases |ts1|, PRIMARY + 1
  {
    hide Parse;
    if OpAt(level, Head(ts1)).None? {
      e := a;
    } else {
      var op := OpAt(level, Head(ts1)).value;
      var (b, ts2) := Parse(level + 1, ts1[1..], lookup).value;
      var r := Sound(level + 1, ts1[1..], b, ts2, lookup);
      assert ts1 == [OpToken(op)] + ts1[1..];
      assert ts == Print(Infix(op, a, r)) + ts2;
      e := TailSound(level, Infix(op, a, r), ts, ts2, t, rest, lookup);
    }
  }

  lemma {:induction false} PostSound(a: Expr, ts: seq<Token>, ts1: seq<Token>, t: Tree, rest: seq<Token>, lookup: Lookup)
      returns (e: Expr)
    requires Fits(a, POSTFIX) && Known(a, lookup) && ts == Print(a) + ts1
    requires PostTail(TreeOf(a, lookup), ts1, lookup) == Some((t, rest))
    ensures Reads(e, POSTFIX, ts, t, rest, lookup)
    decreases |ts1|, PRIMARY + 1
  {
    hide Parse, ParseParams;
    var h := Head(ts1);
    if h.TokInc? || h.TokDec? {
      assert ts1 == [h] + ts1[1..];
      var p := Postfixed(h.TokInc?, a);
      assert ts == Print(p) + ts1[1..];
      e := PostSound(p, ts, ts1[1..], t, rest, lookup);
    } else if h.LeftParen? {
      var (argsTree, ts2) := ParseParams(ts1[1..], lookup).value;
      var args := ParamsSound(ts1[1..], argsTree, ts2, lookup);
      assert ts1 == [LeftParen] + ts1[1..];
      var c := Call(a, args);
      assert ts == Print(c) + ts2;
      e := PostSound(c, ts, ts2, t, rest, lookup);
    } else {
      e := a;
    }
  }

  lemma {:induction false} ParamsSound(ts: seq<Token>, t: Tree, rest: seq<Token>, lookup: Lookup) returns (args: Args)
    requires ParseParams(ts, lookup) == Some((t, rest))
    ensures FitArgs(args) && KnownArgs(args, lookup) && t == ArgsTree(args, lookup)
    ensures ts == PrintArgs(args) + [RightParen] + rest
    decreases |ts|, PRIMARY + 3
  {
    hide Parse, ParseArgs;
    if Head(ts) == RightParen {
      args := NoArgs;
      assert ts == [RightParen] + ts[1..];
    } else {
      var (a, ts1) := ParseArgs(ts, lookup).value;
      args := ArgsSound(ts, a, ts1, lookup);
      assert ts1 == [RightParen] + ts1[1..];
    }
  }

  lemma {:induction false} ArgsSound(ts: seq<Token>, t: Tree, rest: seq<Token>, lookup: Lookup) returns (args: Args)
    requires ParseArgs(ts, lookup) == Some((t, rest))
    ensures args.Arg? && FitArgs(args) && KnownArgs(args, lookup) && t == ArgsTree(args, lookup)
    ensures ts == PrintArgs(args) + rest
    decreases |ts|, PRIMARY + 2
  {
    hide Parse;
    var (a, ts1) := Parse(ASSIGN, ts, lookup).value;
    var e := Sound(ASSIGN, ts, a, ts1, lookup);
    if Head(ts1) == Comma {
      var (b, ts2) := ParseArgs(ts1[1..], lookup).value;
      var more := ArgsSound(ts1[1..], b, ts2, lookup);
      args := Arg(e, more);
      assert ts1 == [Comma] + ts1[1..];
      Regroup(Print(e), [Comma] + PrintArgs(more), rest);
    } else {
      args := Arg(e, NoArgs);
    }
  }

  /** The parser accepts exactly the printed paren-free expressions: it returns a tree and a
      remainder if and only if the input is an expression followed by a token that ends it, and then
      the tree is that expression's. */
  lemma ParsesExactly(ts: seq<Token>, t: Tree, rest: seq<Token>, lookup: Lookup)
    ensures Parse(ASSIGN, ts, lookup) == Some((t, rest)) <==>
            exists e :: Reads(e, ASSIGN, ts, t, rest, lookup)
  {
    hide Parse;
    if Parse(ASSIGN, ts, lookup) == Some((t, rest)) {
      var e := Sound(ASSIGN, ts, t, rest, lookup);
    }
    if e :| Reads(e, ASSIGN, ts, t, rest, lookup) {
      RoundTrip(e, ASSIGN, rest, lookup);
    }
  }

  // ---------------------------------------------------------------- statement lists

  function Drop(ts: seq<Token>): seq<Token> {
    if ts == [] then [] else ts[1..]
  }

  /** u behind the last sibling of t. */
  function Append(t: Tree, u: Tree): (r: Tree)
    ensures t.Node? || u.Node? ==> r.Node?
  {
    if t.Nil? then u else t.(sibling := Append(t.sibling, u))
  }

  lemma {:induction false} AppendTwice(t: Tree, u: Tree, v: Tree)
    ensures Append(Append(t, u), v) == Append(t, Append(u, v))
  {
    if t.Node? {
      AppendTwice(t.sibling, u, v);
    }
  }

  /** The loop of finsh_parser_run, with the statements read so far. An empty first statement ends
      it; after an empty later one, one more token is skipped. */
  function Lines(list: Tree, ts: seq<Token>, lookup: Lookup): (r: Option<Tree>)
    decreases |ts|
  {
    match Head(ts)
    case Eof => Some(list)
    case Bad => Some(list)
    case Semicolon => if list.Nil? then Some(Nil) else Lines(list, Drop(ts[1..]), lookup)
    case _ =>
      var (t, ts1) :- Parse(ASSIGN, ts, lookup);
      if Head(ts1) != Semicolon then None else Lines(Append(list, t), ts1[1..], lookup)
  }

  function PrintLine(es: seq<Expr>): seq<Token> {
    if es == [] then [] else Print(es[0]) + ([Semicolon] + PrintLine(es[1..]))
  }

  predicate LineKnown(es: seq<Expr>, lookup: Lookup) {
    forall i :: 0 <= i < |es| ==> Fits(es[i], ASSIGN) && Known(es[i], lookup)
  }

  function LineTree(es: seq<Expr>, lookup: Lookup): (t: Tree)
    requires LineKnown(es, lookup)
    ensures t.Nil? <==> es == []
  {
    if es == [] then Nil else
    var t := TreeOf(es[0], lookup);
    t.(sibling := LineTree(es[1..], lookup))
  }

  lemma {:induction false} LineTripFrom(list: Tree, es: seq<Expr>, lookup: Lookup)
    requires LineKnown(es, lookup)
    ensures Lines(list, PrintLine(es), lookup) == Some(Append(list, LineTree(es, lookup)))
    decreases |es|
  {
    hide Parse, TreeOf, Known, Fits;
    if es == [] {
      AppendNil(list);
    } else {
      var t := TreeOf(es[0], lookup);
      var rest := [Semicolon] + PrintLine(es[1..]);
      StartsOpen(es[0], rest);
      RoundTrip(es[0], ASSIGN, rest, lookup);
      assert rest[1..] == PrintLine(es[1..]);
      LineTripFrom(Append(list, t), es[1..], lookup);
      AppendTwice(list, t, LineTree(es[1..], lookup));
    }
  }

  lemma {:induction false} AppendNil(t: Tree)
    ensures Append(t, Nil) == t
  {
    if t.Node? {
      AppendNil(t.sibling);
    }
  }

  /** A line of statements, each followed by a semicolon, parses to the list of their trees. */
  lemma LineTrip(es: seq<Expr>, lookup: Lookup)
    requires LineKnown(es, lookup)
    ensures Lines(Nil, PrintLine(es), lookup) == Some(LineTree(es, lookup))
  {
    LineTripFrom(Nil, es, lookup);
  }

  /** The input `x; ; y;`: the token after the empty statement is lost, and y with it. */
  lemma EmptyStatementSwallows(x: string, y: string, lookup: Lookup)
    requires lookup(x).Some? && lookup(y).Some?
    ensures Lines(Nil, [Name(x), Semicolon, Semicolon, Name(y), Semicolon], lookup) == Some(Leaf(Id(lookup(x).value)))
  {
    hide Parse;
    var ts := [Name(x), Semicolon, Semicolon, Name(y), Semicolon];
    var rest := [Semicolon, Semicolon, Name(y), Semicolon];
    assert ts == Print(Ident(x)) + rest;
    RoundTrip(Ident(x), ASSIGN, rest, lookup);
    var ts1: seq<Token> := [Semicolon, Name(y), Semicolon];
    assert rest[1..] == ts1;
    assert Drop(ts1[1..]) == [Semicolon];
    assert Drop([Semicolon][1..]) == [];
    var list := Leaf(Id(lookup(x).value));
    assert Lines(list, [], lookup) == Some(list);
    assert Lines(list, [Semicolon], lookup) == Some(list);
    assert Lines(list, ts1, lookup) == Some(list);
  }
}
