/** exp::eval and doexp::dofunexp: the stack machine, the value of a tree, and the theorem that running
    the postfix of a tree gives its value. */
module ExpEval {
  import opened Wrappers
  import opened ExpSyntax
  import opened ExpTree
  import opened ExpCompile

  // What the callers supply: variables and functions; None is their failure.
  datatype Env = Env(getvar: string -> Option<Val>, dofun: (string, seq<Val>) -> Option<Val>)

  // ---- the operators ----

  function Truncated(r: real): int { if r >= 0.0 then r.Floor else -(-r).Floor }

  function GetInt64(v: Val): int {
    match v
    case IntV(i) => i
    case DblV(d) => Truncated(d)
    case StrV(_) => 0
  }

  function GetDbl(v: Val): real {
    match v
    case IntV(i) => i as real
    case DblV(d) => d
    case StrV(_) => 0.0
  }

  function Truth(b: bool): Val { IntV(if b then 1 else 0) }

  function Bits(x: int): bv64 { (x % 0x1_0000_0000_0000_0000) as bv64 }

  function FromBits(b: bv64): Val { IntV(Signed64(b as int)) }

  // C++ integer division and remainder truncate towards zero.
  function Quotient(a: int, b: int): int
    requires b != 0
  {
    var q := (if a < 0 then -a else a) / (if b < 0 then -b else b);
    if (a < 0) == (b < 0) then q else -q
  }

  function Power2(k: nat): (p: nat) ensures p > 0 { if k == 0 then 1 else 2 * Power2(k - 1) }

  // A binary operator on two values; None where its function returns false.
  function Apply2(op: Op, a: Val, b: Val): Option<Val> {
    if a.StrV? || b.StrV? then None else
    var ints := a.IntV? && b.IntV?;
    var i, j, x, y := GetInt64(a), GetInt64(b), GetDbl(a), GetDbl(b);
    match op
    case LogOr => Some(Truth(if ints then i != 0 || j != 0 else x != 0.0 || y != 0.0))
    case LogAnd => Some(Truth(if ints then i != 0 && j != 0 else x != 0.0 && y != 0.0))
    case BitOr => Some(FromBits(Bits(i) | Bits(j)))
    case BitXor => Some(FromBits(Bits(i) ^ Bits(j)))
    case BitAnd => Some(FromBits(Bits(i) & Bits(j)))
    case Eq => Some(Truth(if ints then i == j else x == y))
    case NotEq => Some(Truth(if ints then i != j else x != y))
    case Less => Some(Truth(if ints then i < j else x < y))
    case LessEq => Some(Truth(if ints then i <= j else x <= y))
    case Great => Some(Truth(if ints then i > j else x > y))
    case GreatEq => Some(Truth(if ints then i >= j else x >= y))
    case LBit => Some(IntV(Signed64(i * Power2(j % 64))))
    case RBit => Some(IntV(i / Power2(j % 64)))
    case Add => Some(if ints then IntV(Signed64(i + j)) else DblV(x + y))
    case Dec => Some(if ints then IntV(Signed64(i - j)) else DblV(x - y))
    case Mult => Some(if ints then IntV(Signed64(i * j)) else DblV(x * y))
    case Div =>
      if ints then if j == 0 then None else Some(IntV(Signed64(Quotient(i, j))))
      else if y == 0.0 then None else Some(DblV(x / y))
    case Mod => if j == 0 then None else Some(IntV(i - j * Quotient(i, j)))
    case Unval | BitNot | LogNot => None
  }

  function Apply1(op: Op, a: Val): Option<Val> {
    if a.StrV? then None else
    match op
    case Unval => Some(if a.DblV? then DblV(-a.d) else IntV(Signed64(-GetInt64(a))))
    case BitNot => Some(IntV(-1 - GetInt64(a)))
    case LogNot => Some(Truth(if a.DblV? then a.d == 0.0 else GetInt64(a) == 0))
    case _ => None
  }

  // ---- the machine ----

  // One operator node on the stack.
  function Operate(op: Op, stk: seq<Val>): (r: Option<seq<Val>>)
    ensures r.Some? ==> 0 < |r.value| <= |stk|
  {
    if IsPrefixOp(op) || op.LogNot? then
      if stk == [] then None else
      var v := Apply1(op, stk[|stk| - 1]);
      if v.None? then None else Some(stk[..|stk| - 1] + [v.value])
    else
      if |stk| < 2 then None else
      var v := Apply2(op, stk[|stk| - 2], stk[|stk| - 1]);
      if v.None? then None else Some(stk[..|stk| - 2] + [v.value])
  }

  // eval from a stack on; nodes of other types are passed over.
  function Run(nodes: seq<Node>, env: Env, stk: seq<Val>): Option<seq<Val>>
    decreases nodes, 0
  {
    if nodes == [] then Some(stk) else
    var n := nodes[0];
    match n
    case Data(v) => Run(nodes[1..], env, stk + [v])
    case Var(name) =>
      var v := env.getvar(name);
      if v.None? then None else Run(nodes[1..], env, stk + [v.value])
    case Fun(f, args) =>
      var vals := RunArgs(args, env);
      if vals.None? then None else
      var v := env.dofun(f, vals.value);
      if v.None? then None else Run(nodes[1..], env, stk + [v.value])
    case Opt(op) =>
      var s := Operate(op, stk);
      if s.None? then None else Run(nodes[1..], env, s.value)
    case Left => Run(nodes[1..], env, stk)
  }

  function Evaluated(nodes: seq<Node>, env: Env): Option<Val>
    decreases nodes, 1
  {
    var s := Run(nodes, env, []);
    if s.Some? && |s.value| == 1 then Some(s.value[0]) else None
  }

  // dofunexp: the arguments in order.
  function RunArgs(args: seq<Arg>, env: Env): Option<seq<Val>>
    decreases args
  {
    if args == [] then Some([]) else
    var v := Evaluated(args[0].nodes, env);
    if v.None? then None else
    var vs := RunArgs(args[1..], env);
    if vs.None? then None else Some([v.value] + vs.value)
  }

  // ---- the value of a tree ----

  function LeafValue(key: string, env: Env): Option<Val> {
    var n := Leaf(key).0;
    if n.Var? then env.getvar(n.name) else if n.Data? then Some(n.v) else None
  }

  function Value(e: Expr, env: Env): Option<Val>
    decreases e
  {
    match e
    case Atom(a) => LeafValue(a, env)
    case Call(f, args) =>
      var vals := Values(args, env);
      if vals.None? then None else env.dofun(f, vals.value)
    case Group(x) => Value(x, env)
    case Bin(op, l, r) =>
      var a := Value(l, env);
      if a.None? then None else
      var b := Value(r, env);
      if b.None? then None else Apply2(op, a.value, b.value)
    case Prefix(op, x) =>
      var a := Value(x, env);
      if a.None? then None else Apply1(op, a.value)
  }

  function Values(args: seq<Expr>, env: Env): Option<seq<Val>>
    decreases args
  {
    if args == [] then Some([]) else
    var v := Value(args[0], env);
    if v.None? then None else
    var vs := Values(args[1..], env);
    if vs.None? then None else Some([v.value] + vs.value)
  }

  // Running one part after the other.
  function Then(s: Option<seq<Val>>, nodes: seq<Node>, env: Env): Option<seq<Val>> {
    if s.None? then None else Run(nodes, env, s.value)
  }

  lemma {:induction false} RunConcat(a: seq<Node>, b: seq<Node>, env: Env, stk: seq<Val>)
    ensures Run(a + b, env, stk) == Then(Run(a, env, stk), b, env)
    decreases |a|
  {
    hide Operate, RunArgs;
    if a == [] {
      assert a + b == b;
    } else {
      assert (a + b)[0] == a[0] && (a + b)[1..] == a[1..] + b;
      match a[0]
      case Data(v) => RunConcat(a[1..], b, env, stk + [v]);
      case Var(name) => if env.getvar(name).Some? { RunConcat(a[1..], b, env, stk + [env.getvar(name).value]); }
      case Fun(f, args) =>
        var vals := RunArgs(args, env);
        if vals.Some? && env.dofun(f, vals.value).Some? {
          RunConcat(a[1..], b, env, stk + [env.dofun(f, vals.value).value]);
        }
      case Opt(op) => if Operate(op, stk).Some? { RunConcat(a[1..], b, env, Operate(op, stk).value); }
      case Left => RunConcat(a[1..], b, env, stk);
    }
  }

  function Pushed(stk: seq<Val>, v: Option<Val>): Option<seq<Val>> {
    if v.None? then None else Some(stk + [v.value])
  }

  lemma RunOperator(op: Op, env: Env, stk: seq<Val>)
    ensures Run([Opt(op)], env, stk) == Operate(op, stk)
  {
    var s := Operate(op, stk);
    assert [Opt(op)][1..] == [];
  }

  lemma RunLeaf(key: string, env: Env, stk: seq<Val>)
    ensures Run([Leaf(key).0], env, stk) == Pushed(stk, LeafValue(key, env))
  {
    hide Leaf;
    assert [Leaf(key).0][1..] == [];
  }

  lemma RunFun(f: string, args: seq<Arg>, env: Env, stk: seq<Val>)
    ensures var vals := RunArgs(args, env);
            Run([Fun(f, args)], env, stk) == if vals.None? then None else Pushed(stk, env.dofun(f, vals.value))
  {
    hide RunArgs;
    assert [Fun(f, args)][1..] == [];
  }

  lemma OperateBinary(op: Op, stk: seq<Val>, a: Val, b: Val)
    requires IsBinaryOp(op)
    ensures Operate(op, stk + [a] + [b]) == Pushed(stk, Apply2(op, a, b))
  {
    hide Apply2, Apply1;
    var s := stk + [a] + [b];
    assert s[..|s| - 2] == stk;
  }

  lemma OperatePrefix(op: Op, stk: seq<Val>, a: Val)
    requires IsPrefixOp(op)
    ensures Operate(op, stk + [a]) == Pushed(stk, Apply1(op, a))
  {
    hide Apply2, Apply1;
    var s := stk + [a];
    assert s[..|s| - 1] == stk;
  }

  /** On any stack the postfix of a tree pushes the value of the tree, or fails where the tree has none. */
  lemma {:induction false} RunPostfix(e: Expr, env: Env, stk: seq<Val>)
    requires WellFormed(e)
    ensures Run(Postfix(e), env, stk) == Pushed(stk, Value(e, env))
    decreases e
  {
    hide Run, Operate, Apply1, Apply2, Leaf, RunArgs, LeafValue;
    match e
    case Atom(a) => RunLeaf(a, env, stk);
    case Call(f, args) =>
      RunFun(f, PostfixArgs(args), env, stk);
      RunPostfixArgs(args, env);
    case Group(x) => RunPostfix(x, env, stk);
    case Bin(op, l, r) =>
      RunConcat(Postfix(l) + Postfix(r), [Opt(op)], env, stk);
      RunConcat(Postfix(l), Postfix(r), env, stk);
      RunPostfix(l, env, stk);
      var a := Value(l, env);
      if a.Some? {
        RunPostfix(r, env, stk + [a.value]);
        var b := Value(r, env);
        if b.Some? {
          RunOperator(op, env, stk + [a.value] + [b.value]);
          OperateBinary(op, stk, a.value, b.value);
        }
      }
    case Prefix(op, x) =>
      RunConcat(Postfix(x), [Opt(op)], env, stk);
      RunPostfix(x, env, stk);
      var a := Value(x, env);
      if a.Some? {
        RunOperator(op, env, stk + [a.value]);
        OperatePrefix(op, stk, a.value);
      }
  }

  lemma {:induction false} RunPostfixArgs(args: seq<Expr>, env: Env)
    requires forall i :: 0 <= i < |args| ==> WellFormed(args[i])
    ensures RunArgs(PostfixArgs(args), env) == Values(args, env)
    decreases args
  {
    hide Run, Postfix, Value, WellFormed;
    if args != [] {
      RunPostfix(args[0], env, []);
      RunPostfixArgs(args[1..], env);
      assert PostfixArgs(args)[0].nodes == Postfix(args[0]) && PostfixArgs(args)[1..] == PostfixArgs(args[1..]);
    }
  }

  /** Parsing and evaluating the text of a plain tree gives the value of the tree. */
  lemma MeaningPreserved(e: Expr, env: Env)
    requires WellFormed(e) && Plain(e)
    ensures var p := Parsed(Text(e, [])); p.Some? && Evaluated(p.value, env) == Value(e, env)
  {
    hide Run, Value, Postfix, Text, Parsed, WellFormed, Plain;
    CompilesToPostfix(e);
    RunPostfix(e, env, []);
  }

  /** Where a prefix operator p stands on another one after a binary operator, the text compiles without
      an error, but p is applied to the left operand instead. */
  lemma PrefixMovesLeft(op: Op, l: Expr, p: Op, q: Op, x: Expr, env: Env)
    requires WellFormed(Bin(op, l, Prefix(p, Prefix(q, x)))) && Plain(l) && Plain(x) && !x.Prefix? && !l.Prefix?
    ensures var c := Parsed(Text(Bin(op, l, Prefix(p, Prefix(q, x))), []));
            c.Some? && Evaluated(c.value, env) == Value(Bin(op, Prefix(p, l), Prefix(q, x)), env)
  {
    hide Run, Value, Text, Parsed;
    var e := Bin(op, Prefix(p, l), Prefix(q, x));
    ParseText(Bin(op, l, Prefix(p, Prefix(q, x))));
    PlainIffPostfix(l);
    PlainIffPostfix(x);
    assert Emitted(Prefix(p, Prefix(q, x))) == [Opt(p)] + Emitted(Prefix(q, x)) && Emitted(Prefix(q, x)) == Emitted(x) + [Opt(q)];
    assert Postfix(e) == Postfix(Prefix(p, l)) + Postfix(Prefix(q, x)) + [Opt(op)];
    assert Emitted(l) + ([Opt(p)] + (Emitted(x) + [Opt(q)])) + [Opt(op)] == (Emitted(l) + [Opt(p)]) + (Emitted(x) + [Opt(q)]) + [Opt(op)];
    RunPostfix(e, env, []);
  }

  /** For instance 5---3, which is 2, is evaluated to -2, the value of -5 - -3. */
  lemma Misread(env: Env)
    ensures var e := Bin(Dec, Atom("5"), Prefix(Unval, Prefix(Unval, Atom("3"))));
            var c := Parsed("5---3");
            && Text(e, []) == "5---3" && Value(e, env) == Some(IntV(2))
            && c.Some? && Evaluated(c.value, env) == Some(IntV(-2))
  {
    hide Run, Value, Parsed, Evaluated;
    var l, x := Atom("5"), Atom("3");
    var e := Bin(Dec, l, Prefix(Unval, Prefix(Unval, x)));
    DigitIsKey('5');
    DigitIsKey('3');
    assert Text(e, []) == "5---3" by {
      MisreadText();
    }
    PrefixMovesLeft(Dec, l, Unval, Unval, x, env);
    MisreadInstance(env);
  }

  lemma DigitIsKey(c: char)
    requires '0' <= c <= '9'
    ensures IsKey([c])
  {
  }

  lemma MisreadText()
    ensures Text(Bin(Dec, Atom("5"), Prefix(Unval, Prefix(Unval, Atom("3")))), []) == "5---3"
  {
    var x := Prefix(Unval, Atom("3"));
    assert Text(x, []) == "-3";
    assert Text(Prefix(Unval, x), []) == "--3";
  }

  lemma MisreadInstance(env: Env)
    ensures Value(Bin(Dec, Atom("5"), Prefix(Unval, Prefix(Unval, Atom("3")))), env) == Some(IntV(2))
    ensures Value(Bin(Dec, Prefix(Unval, Atom("5")), Prefix(Unval, Atom("3"))), env) == Some(IntV(-2))
  {
    hide Value;
    MinusMinus(env);
    MinusOfMinus(env);
  }

  lemma DigitValueOf(c: char, env: Env)
    requires '0' <= c <= '9'
    ensures Value(Atom([c]), env) == Some(IntV(c as int - '0' as int))
  {
    hide Leaf;
    KeyOfDigit(c);
  }

  lemma NegativeOf(x: Expr, v: int, env: Env)
    requires Value(x, env) == Some(IntV(v)) && -10 < v < 10
    ensures Value(Prefix(Unval, x), env) == Some(IntV(-v))
  {
    hide Leaf, Quotient, Power2, Signed64;
    SignedSmall(-v);
  }

  lemma DifferenceOf(l: Expr, r: Expr, v: int, w: int, env: Env)
    requires Value(l, env) == Some(IntV(v)) && Value(r, env) == Some(IntV(w)) && -10 < v < 10 && -10 < w < 10
    ensures Value(Bin(Dec, l, r), env) == Some(IntV(v - w))
  {
    hide Leaf, Quotient, Power2, Signed64;
    SignedSmall(v - w);
  }

  lemma MinusMinus(env: Env)
    ensures Value(Bin(Dec, Atom("5"), Prefix(Unval, Prefix(Unval, Atom("3")))), env) == Some(IntV(2))
  {
    hide Value;
    DigitValueOf('5', env);
    DigitValueOf('3', env);
    NegativeOf(Atom("3"), 3, env);
    NegativeOf(Prefix(Unval, Atom("3")), -3, env);
    DifferenceOf(Atom("5"), Prefix(Unval, Prefix(Unval, Atom("3"))), 5, 3, env);
  }

  lemma MinusOfMinus(env: Env)
    ensures Value(Bin(Dec, Prefix(Unval, Atom("5")), Prefix(Unval, Atom("3"))), env) == Some(IntV(-2))
  {
    hide Value;
    DigitValueOf('5', env);
    DigitValueOf('3', env);
    NegativeOf(Atom("5"), 5, env);
    NegativeOf(Atom("3"), 3, env);
    DifferenceOf(Prefix(Unval, Atom("5")), Prefix(Unval, Atom("3")), -5, -3, env);
  }

  lemma SignedSmall(x: int)
    requires -100 < x < 100
    ensures Signed64(x) == x
  {
  }

  lemma KeyOfDigit(c: char)
    requires '0' <= c <= '9'
    ensures Leaf([c]).0 == Data(IntV(c as int - '0' as int))
  {
    assert [c][..0] == [] && [c][1..] == [];
    assert Count([c], '.') == 0 && IndexOf([c], '.') == 1;
    assert Number([c], 10) == Number([c][..0], 10) * 10 + DigitValue(c);
  }
}
