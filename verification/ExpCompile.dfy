/** Parsing the text of a tree: every tree, whatever surrounds it, leaves behind its output and only
    operators that bind at least as strongly as it does. */
module ExpCompile {
  import opened Wrappers
  import opened ExpSyntax
  import opened ExpTree

  // ---- the operator stack ----

  // The order in which the stack is popped.
  function Reversed(p: seq<Node>): seq<Node> {
    if p == [] then [] else [p[|p| - 1]] + Reversed(p[..|p| - 1])
  }

  lemma {:induction false} ReversedCons(n: Node, p: seq<Node>)
    ensures Reversed([n] + p) == Reversed(p) + [n]
  {
    var s := [n] + p;
    if p == [] {
      assert s[..0] == [];
    } else {
      assert s[|s| - 1] == p[|p| - 1] && s[..|s| - 1] == [n] + p[..|p| - 1];
      ReversedCons(n, p[..|p| - 1]);
    }
  }

  ghost predicate Pending(p: seq<Node>, level: nat) {
    forall i :: 0 <= i < |p| ==> p[i].Opt? && OptLevel(p[i].op) >= level
  }

  // A tree of this level may stand here: what is on top binds less.
  ghost predicate Below(base: seq<Node>, level: nat) {
    base == [] || base[|base| - 1].Left? || (base[|base| - 1].Opt? && OptLevel(base[|base| - 1].op) < level)
  }

  lemma {:induction false} PopPending(out: seq<Node>, base: seq<Node>, p: seq<Node>, level: nat)
    requires Below(base, level) && Pending(p, level)
    ensures Popped(out, base + p, level) == (out + Reversed(p), base)
    decreases |p|
  {
    hide OptLevel;
    var s := base + p;
    if p == [] {
      assert s == base && out + [] == out;
    } else {
      assert s[|s| - 1] == p[|p| - 1] && s[..|s| - 1] == base + p[..|p| - 1];
      PopPending(out + [p[|p| - 1]], base, p[..|p| - 1], level);
      assert out + [p[|p| - 1]] + Reversed(p[..|p| - 1]) == out + Reversed(p);
    }
  }

  lemma {:induction false} ClosePending(out: seq<Node>, base: seq<Node>, p: seq<Node>)
    requires Pending(p, 0)
    ensures Closed(out, base + [Left] + p) == Some((out + Reversed(p), base))
    decreases |p|
  {
    var s := base + [Left] + p;
    if p == [] {
      assert s == base + [Left] && s[..|s| - 1] == base && out + [] == out;
    } else {
      assert s[|s| - 1] == p[|p| - 1] && s[..|s| - 1] == base + [Left] + p[..|p| - 1];
      ClosePending(out + [p[|p| - 1]], base, p[..|p| - 1]);
      assert out + [p[|p| - 1]] + Reversed(p[..|p| - 1]) == out + Reversed(p);
    }
  }

  lemma {:induction false} EmptyPending(out: seq<Node>, p: seq<Node>)
    requires Pending(p, 0)
    ensures Emptied(out, p) == Some(out + Reversed(p))
    decreases |p|
  {
    if p == [] {
      assert out + [] == out;
    } else {
      EmptyPending(out + [p[|p| - 1]], p[..|p| - 1]);
      assert out + [p[|p| - 1]] + Reversed(p[..|p| - 1]) == out + Reversed(p);
    }
  }

  // ---- states ----

  // A tree may start here; held is a prefix operator just before it, or nothing.
  ghost predicate Expecting(st: State, base: seq<Node>, held: seq<Node>) {
    && st.key == "" && (st.prev.KOpt? || st.prev.KLeft?) && st.stk == base + held
    && (held == [] || (|held| == 1 && held[0].Opt? && IsPrefixOp(held[0].op)))
  }

  // A tree has been read: once its pending operators are out, the output is total.
  ghost predicate Read(st: State, total: seq<Node>, base: seq<Node>, p: seq<Node>, level: nat) {
    var f := Flushed(st);
    f.stk == base + p && f.out + Reversed(p) == total && Pending(p, level) && !f.prev.KOpt? && !f.prev.KLeft?
  }

  // ---- one token ----

  lemma {:induction false} ReadKey(a: string, rest: string, st: State)
    requires forall i :: 0 <= i < |a| ==> IsKeyChar(a[i])
    ensures Scan(a + rest, st) == Scan(rest, State(st.out, st.stk, st.key + a, st.prev))
    decreases |a|
  {
    hide Flushed, Emptied, Popped, Closed, Quoted, FunText, ParsedArgs, OperatorAt, IsNumber, IsHex16;
    if a == [] {
      assert a + rest == rest && st.key + a == st.key;
    } else {
      var t := a + rest;
      assert t[0] == a[0] && t[1..] == a[1..] + rest;
      assert IsKeyChar(a[0]);
      ReadKey(a[1..], rest, State(st.out, st.stk, st.key + [a[0]], st.prev));
      assert st.key + [a[0]] + a[1..] == st.key + a;
    }
  }

  // The text after an operator does not make it longer.
  ghost predicate Separate(u: string) {
    u != [] && u[0] != '=' && u[0] != '<' && u[0] != '>' && u[0] != '|' && u[0] != '&'
  }

  lemma OperatorRead(op: Op, u: string, prev: Kind)
    requires Separate(u) && (IsBinaryOp(op) || IsPrefixOp(op))
    requires (prev.KOpt? || prev.KLeft?) <==> IsPrefixOp(op)
    ensures var t := OpText(op) + u; IsOperatorChar(t[0]) && !IsBlank(t[0]) && t[0] != '(' && OperatorAt(t, prev) == Some((op, |OpText(op)|))
  {
    var o := OpText(op);
    var t := o + u;
    assert t[0] == o[0] && t[1] == if |o| > 1 then o[1] else u[0];
    hide OpText;
    if |o| == 1 {
      OneCharRead(op, t, prev);
    } else {
      TwoCharsRead(op, t, prev);
    }
  }

  lemma OneCharRead(op: Op, t: string, prev: Kind)
    requires |t| > 1 && |OpText(op)| == 1 && t[0] == OpText(op)[0] && Separate(t[1..]) && (IsBinaryOp(op) || IsPrefixOp(op))
    requires (prev.KOpt? || prev.KLeft?) <==> IsPrefixOp(op)
    ensures IsOperatorChar(t[0]) && !IsBlank(t[0]) && t[0] != '(' && OperatorAt(t, prev) == Some((op, 1))
  {
    assert t[1..][0] == t[1];
  }

  lemma TwoCharsRead(op: Op, t: string, prev: Kind)
    requires |t| > 1 && |OpText(op)| != 1 && t[0] == OpText(op)[0] && t[1] == OpText(op)[1] && (IsBinaryOp(op) || IsPrefixOp(op))
    ensures IsOperatorChar(t[0]) && !IsBlank(t[0]) && t[0] != '(' && OperatorAt(t, prev) == Some((op, |OpText(op)|))
  {
  }

  lemma ReadOperator(op: Op, u: string, st: State, out: seq<Node>, stk: seq<Node>)
    requires Separate(u) && (IsBinaryOp(op) || IsPrefixOp(op))
    requires (Flushed(st).prev.KOpt? || Flushed(st).prev.KLeft?) <==> IsPrefixOp(op)
    requires Popped(Flushed(st).out, Flushed(st).stk, OptLevel(op)) == (out, stk)
    ensures Scan(OpText(op) + u, st) == Scan(u, State(out, stk + [Opt(op)], "", KOpt))
  {
    hide Flushed, Emptied, Popped, Closed, Quoted, FunText, ParsedArgs, OperatorAt, OpText, IsOperatorChar, IsBlank;
    OperatorRead(op, u, Flushed(st).prev);
    assert (OpText(op) + u)[|OpText(op)|..] == u;
  }

  lemma ReadBinary(op: Op, u: string, st: State, total: seq<Node>, base: seq<Node>, p: seq<Node>, level: nat)
    requires IsBinaryOp(op) && Separate(u) && Read(st, total, base, p, level) && OptLevel(op) <= level && Below(base, OptLevel(op))
    ensures Scan(OpText(op) + u, st) == Scan(u, State(total, base + [Opt(op)], "", KOpt))
  {
    hide Scan, Popped, OpText, Flushed, Reversed, OptLevel;
    PopPending(Flushed(st).out, base, p, OptLevel(op));
    ReadOperator(op, u, st, total, base);
  }

  // A prefix operator pushes out the one held before it.
  lemma ReadPrefix(op: Op, u: string, st: State, base: seq<Node>, held: seq<Node>)
    requires IsPrefixOp(op) && Separate(u) && Expecting(st, base, held) && Below(base, OptLevel(op))
    ensures Scan(OpText(op) + u, st) == Scan(u, State(st.out + held, base + [Opt(op)], "", KOpt))
  {
    hide Scan, Popped, OpText;
    PopPending(st.out, base, held, OptLevel(op));
    assert Reversed(held) == held;
    ReadOperator(op, u, st, st.out + held, base);
  }

  lemma ReadOpen(u: string, st: State)
    requires st.key == ""
    ensures Scan(['('] + u, st) == Scan(u, State(st.out, st.stk + [Left], "", KLeft))
  {
    hide Flushed, Emptied, Popped, Closed, Quoted, FunText, ParsedArgs, OperatorAt;
    assert (['('] + u)[1..] == u;
  }

  lemma ReadClose(u: string, st: State, total: seq<Node>, base: seq<Node>, p: seq<Node>)
    requires Read(st, total, base + [Left], p, 0)
    ensures Scan([')'] + u, st) == Scan(u, State(total, base, "", Flushed(st).prev))
  {
    hide Flushed, Emptied, Popped, Closed, Quoted, FunText, ParsedArgs, OperatorAt, Reversed;
    ClosePending(Flushed(st).out, base, p);
    assert ([')'] + u)[1..] == u;
  }

  lemma ReadCall(u: string, rest: string, st: State, args: seq<Arg>)
    requires st.key != ""
    requires FunText(['('] + (u + [')'] + rest), 1, 1, 0) == Some(1 + |u|) && ParsedArgs(u, 0, 0, 0, []) == Some(args)
    ensures Scan(['('] + (u + [')'] + rest), st) == Scan(rest, State(st.out + [Fun(st.key, args)], st.stk, "", KFun))
  {
    hide Flushed, Emptied, Popped, Closed, Quoted, FunText, ParsedArgs, OperatorAt;
    var t := ['('] + (u + [')'] + rest);
    assert t[1..1 + |u|] == u && t[|u| + 2..] == rest;
  }

  // ---- texts ----

  lemma {:induction false} TextAppend(e: Expr, rest: string)
    ensures Text(e, rest) == Text(e, []) + rest
    decreases e, 0
  {
    match e
    case Atom(a) => assert a + [] + rest == a + rest;
    case Call(f, args) =>
      ArgsAppend(args, [')'] + rest);
      ArgsAppend(args, [')'] + []);
      assert f + ['('] + (ArgsText(args, []) + ([')'] + rest)) == f + ['('] + (ArgsText(args, []) + ([')'] + [])) + rest;
    case Group(x) =>
      TextAppend(x, [')'] + rest);
      TextAppend(x, [')'] + []);
      assert ['('] + (Text(x, []) + ([')'] + rest)) == ['('] + (Text(x, []) + ([')'] + [])) + rest;
    case Bin(op, l, r) =>
      var level := OptLevel(op);
      var u := OperandText(r, level + 1, []);
      OperandAppend(r, level + 1, rest);
      OperandAppend(l, level, OpText(op) + (u + rest));
      OperandAppend(l, level, OpText(op) + u);
      var v := OperandText(l, level, []);
      assert v + (OpText(op) + (u + rest)) == v + (OpText(op) + u) + rest;
    case Prefix(op, x) =>
      OperandAppend(x, OptLevel(op), rest);
      var u := OperandText(x, OptLevel(op), []);
      assert OpText(op) + (u + rest) == OpText(op) + u + rest;
  }

  lemma {:induction false} OperandAppend(e: Expr, least: nat, rest: string)
    ensures OperandText(e, least, rest) == OperandText(e, least, []) + rest
    decreases e, 1
  {
    TextAppend(e, rest);
    TextAppend(e, [')'] + rest);
    TextAppend(e, [')'] + []);
    assert ['('] + (Text(e, []) + ([')'] + rest)) == ['('] + (Text(e, []) + ([')'] + [])) + rest;
  }

  lemma {:induction false} ArgsAppend(args: seq<Expr>, rest: string)
    ensures ArgsText(args, rest) == ArgsText(args, []) + rest
    decreases args
  {
    if args == [] {
      assert [] + rest == rest;
    } else if |args| == 1 {
      TextAppend(args[0], rest);
    } else {
      ArgsAppend(args[1..], rest);
      var u := ArgsText(args[1..], []);
      TextAppend(args[0], [','] + (u + rest));
      TextAppend(args[0], [','] + u);
      var v := Text(args[0], []);
      assert v + ([','] + (u + rest)) == v + ([','] + u) + rest;
    }
  }

  // Every text starts with a key, a parenthesis or a prefix operator.
  lemma {:induction false} TextStarts(e: Expr, rest: string)
    requires WellFormed(e)
    ensures Separate(Text(e, rest))
    decreases e
  {
    match e
    case Atom(a) => assert IsKeyChar(a[0]);
    case Call(f, _) => assert IsKeyChar(f[0]);
    case Group(_) =>
    case Bin(op, l, r) => TextStarts(l, OpText(op) + OperandText(r, OptLevel(op) + 1, rest));
    case Prefix(_, _) =>
  }

  lemma OperandStarts(e: Expr, least: nat, rest: string)
    requires WellFormed(e)
    ensures Separate(OperandText(e, least, rest))
  {
    TextStarts(e, rest);
  }

  // ---- the arguments of a call ----

  // Both scans of a call, getfunexpstr and parsefunexp, get from n to m.
  ghost predicate Passes(t: string, n: nat, open: nat, m: nat, open': nat) {
    && n <= m <= |t|
    && (open > 0 && open' > 0 ==> FunText(t, n, open, 0) == FunText(t, m, open', 0))
    && forall args :: ParsedArgs(t, n, 0, open, args) == ParsedArgs(t, m, 0, open', args)
  }

  lemma PassesOn(t: string, n: nat, a: nat, m: nat, b: nat, k: nat, c: nat)
    requires Passes(t, n, a, m, b) && Passes(t, m, b, k, c) && (a > 0 && c > 0 ==> b > 0)
    ensures Passes(t, n, a, k, c)
  {
    hide FunText, ParsedArgs;
  }

  lemma PassOne(t: string, n: nat, open: nat)
    requires n < |t| && t[n] != '"' && (t[n] == ')' ==> open > 0) && (t[n] == ',' ==> open > 0)
    ensures Passes(t, n, open, n + 1, if t[n] == '(' then open + 1 else if t[n] == ')' then open - 1 else open)
  {
    hide Parsed;
  }

  lemma {:induction false} PassKey(t: string, n: nat, u: string, v: string, open: nat)
    requires n <= |t| && t[n..] == u + v && forall i :: 0 <= i < |u| ==> u[i] != '(' && u[i] != ')' && u[i] != '"' && u[i] != ','
    ensures n + |u| <= |t| && Passes(t, n, open, n + |u|, open) && t[n + |u|..] == v
    decreases |u|
  {
    hide FunText, ParsedArgs;
    if u == [] {
      assert u + v == v;
    } else {
      assert t[n] == t[n..][0] == u[0];
      PassOne(t, n, open);
      assert t[n + 1..] == t[n..][1..] == u[1..] + v;
      PassKey(t, n + 1, u[1..], v, open);
    }
  }

  lemma PassChar(t: string, n: nat, c: char, v: string, open: nat)
    requires n <= |t| && t[n..] == [c] + v && c != '"' && (c == ')' ==> open > 0) && (c == ',' ==> open > 0)
    ensures n < |t| && Passes(t, n, open, n + 1, if c == '(' then open + 1 else if c == ')' then open - 1 else open) && t[n + 1..] == v
  {
    hide FunText, ParsedArgs;
    assert t[n] == t[n..][0] == c;
    assert t[n + 1..] == t[n..][1..] == v;
    PassOne(t, n, open);
  }

  lemma QuietOp(op: Op)
    ensures var u := OpText(op); forall i :: 0 <= i < |u| ==> u[i] != '(' && u[i] != ')' && u[i] != '"' && u[i] != ','
  {
  }

  // The text of a tree is passed over as a whole.
  lemma {:induction false} PassText(t: string, n: nat, e: Expr, v: string, open: nat) returns (m: nat)
    requires WellFormed(e) && n <= |t| && t[n..] == Text(e, v)
    ensures m <= |t| && Passes(t, n, open, m, open) && t[m..] == v
    decreases e, 0
  {
    hide Passes, OptLevel, OpText, ArgsText, OperandText;
    match e
    case Atom(a) =>
      assert forall i :: 0 <= i < |a| ==> IsKeyChar(a[i]);
      PassKey(t, n, a, v, open);
      m := n + |a|;
    case Call(f, args) =>
      assert forall i :: 0 <= i < |f| ==> IsKeyChar(f[i]);
      var u, at := ArgsText(args, [')'] + v), n + |f|;
      assert t[n..] == f + (['('] + u);
      PassKey(t, n, f, ['('] + u, open);
      PassChar(t, at, '(', u, open);
      PassesOn(t, n, open, at, open, at + 1, open + 1);
      var end := PassArgs(t, at + 1, args, [')'] + v, open + 1);
      m := PassClose(t, n, at + 1, end, v, open);
    case Group(x) =>
      PassChar(t, n, '(', Text(x, [')'] + v), open);
      var end := PassText(t, n + 1, x, [')'] + v, open + 1);
      m := PassClose(t, n, n + 1, end, v, open);
    case Bin(op, l, r) =>
      var u := OperandText(r, OptLevel(op) + 1, v);
      var a := PassOperand(t, n, l, OptLevel(op), OpText(op) + u, open);
      var b := a + |OpText(op)|;
      QuietOp(op);
      PassKey(t, a, OpText(op), u, open);
      PassesOn(t, n, open, a, open, b, open);
      m := PassOperand(t, b, r, OptLevel(op) + 1, v, open);
      PassesOn(t, n, open, b, open, m, open);
    case Prefix(op, x) =>
      var a := n + |OpText(op)|;
      QuietOp(op);
      PassKey(t, n, OpText(op), OperandText(x, OptLevel(op), v), open);
      m := PassOperand(t, a, x, OptLevel(op), v, open);
      PassesOn(t, n, open, a, open, m, open);
  }

  // Behind the contents of a pair of parentheses.
  lemma PassClose(t: string, n: nat, at: nat, end: nat, v: string, open: nat) returns (m: nat)
    requires end <= |t| && Passes(t, n, open, at, open + 1) && Passes(t, at, open + 1, end, open + 1) && t[end..] == [')'] + v
    ensures m == end + 1 <= |t| && Passes(t, n, open, m, open) && t[m..] == v
  {
    hide Passes;
    PassChar(t, end, ')', v, open + 1);
    PassesOn(t, n, open, at, open + 1, end, open + 1);
    PassesOn(t, n, open, end, open + 1, end + 1, open);
    m := end + 1;
  }

  lemma {:induction false} PassOperand(t: string, n: nat, e: Expr, least: nat, v: string, open: nat) returns (m: nat)
    requires WellFormed(e) && n <= |t| && t[n..] == OperandText(e, least, v)
    ensures m <= |t| && Passes(t, n, open, m, open) && t[m..] == v
    decreases e, 1
  {
    hide FunText, ParsedArgs, Text, WellFormed;
    if Level(e) < least {
      PassChar(t, n, '(', Text(e, [')'] + v), open);
      var end := PassText(t, n + 1, e, [')'] + v, open + 1);
      m := PassClose(t, n, n + 1, end, v, open);
    } else {
      m := PassText(t, n, e, v, open);
    }
  }

  lemma {:induction false} PassArgs(t: string, n: nat, args: seq<Expr>, v: string, open: nat) returns (m: nat)
    requires (forall i :: 0 <= i < |args| ==> WellFormed(args[i])) && open > 0 && n <= |t| && t[n..] == ArgsText(args, v)
    ensures m <= |t| && Passes(t, n, open, m, open) && t[m..] == v
    decreases args
  {
    hide FunText, ParsedArgs, Text, WellFormed;
    if args == [] {
      m := n;
    } else if |args| == 1 {
      m := PassText(t, n, args[0], v, open);
    } else {
      var u := ArgsText(args[1..], v);
      m := PassText(t, n, args[0], [','] + u, open);
      PassChar(t, m, ',', u, open);
      m := PassArgs(t, m + 1, args[1..], v, open);
    }
  }

  // ---- trees ----

  lemma PendingUp(p: seq<Node>, level: nat, op: Op, below: nat)
    requires Pending(p, level) && below <= level && below <= OptLevel(op)
    ensures Pending([Opt(op)] + p, below)
  {
  }

  // The operator and what is pending behind it, after the right operand.
  lemma ReadBehind(st: State, total: seq<Node>, base: seq<Node>, op: Op, p: seq<Node>, level: nat)
    requires Read(st, total, base + [Opt(op)], p, level) && OptLevel(op) <= level
    ensures Read(st, total + [Opt(op)], base, [Opt(op)] + p, OptLevel(op))
  {
    hide Reversed, Flushed;
    PendingUp(p, level, op, OptLevel(op));
    ReversedCons(Opt(op), p);
    var f := Flushed(st);
    assert base + [Opt(op)] + p == base + ([Opt(op)] + p);
    assert f.out + (Reversed(p) + [Opt(op)]) == f.out + Reversed(p) + [Opt(op)];
  }

  /** Wherever it stands, the text of a tree adds Emitted(e) to the output, some of it still pending. */
  lemma {:induction false} ReadText(e: Expr, rest: string, st: State, base: seq<Node>, held: seq<Node>) returns (st': State, p: seq<Node>)
    requires WellFormed(e) && Expecting(st, base, held) && Below(base, Level(e)) && (held != [] ==> e.Prefix?)
    ensures Scan(Text(e, rest), st) == Scan(rest, st') && Read(st', st.out + held + Emitted(e), base, p, Level(e))
    decreases e, 3
  {
    hide Scan, Flushed, OpText, Reversed, Leaf, Expecting, Below, Read;
    match e
    case Atom(a) => st', p := ReadAtom(a, rest, st, base);
    case Call(f, args) => st', p := ReadCallText(f, args, rest, st, base);
    case Group(x) => st', p := ReadGroup(x, rest, st, base);
    case Bin(op, l, r) =>
      st', p := ReadBin(op, l, r, rest, st, base);
      assert st.out + held + Emitted(e) == st.out + Emitted(l) + Emitted(r) + [Opt(op)];
    case Prefix(op, x) => st', p := ReadPrefixed(op, x, rest, st, base, held);
  }

  lemma {:induction false} ReadBin(op: Op, l: Expr, r: Expr, rest: string, st: State, base: seq<Node>) returns (st': State, p: seq<Node>)
    requires IsBinaryOp(op) && WellFormed(l) && WellFormed(r) && Expecting(st, base, []) && Below(base, OptLevel(op))
    ensures Scan(OperandText(l, OptLevel(op), OpText(op) + OperandText(r, OptLevel(op) + 1, rest)), st) == Scan(rest, st')
    ensures Read(st', st.out + Emitted(l) + Emitted(r) + [Opt(op)], base, p, OptLevel(op))
    decreases Bin(op, l, r), 2
  {
    hide Scan, Flushed, OpText, Reversed, Leaf, OptLevel, OperandText, Emitted, Read;
    var level := OptLevel(op);
    var u := OperandText(r, level + 1, rest);
    st', p := ReadOperand(l, level, OpText(op) + u, st, base, []);
    OperandStarts(r, level + 1, rest);
    var total := st.out + Emitted(l);
    assert st.out + [] == st.out && total + [] == total;
    ReadBinary(op, u, st', total, base, p, level);
    var st1 := State(total, base + [Opt(op)], "", KOpt);
    assert base + [Opt(op)] + [] == base + [Opt(op)];
    st', p := ReadOperand(r, level + 1, rest, st1, base + [Opt(op)], []);
    ReadBehind(st', total + Emitted(r), base, op, p, level + 1);
    p := [Opt(op)] + p;
  }

  lemma {:induction false} ReadPrefixed(op: Op, x: Expr, rest: string, st: State, base: seq<Node>, held: seq<Node>)
    returns (st': State, p: seq<Node>)
    requires IsPrefixOp(op) && WellFormed(x) && Expecting(st, base, held) && Below(base, OptLevel(op))
    ensures Scan(OpText(op) + OperandText(x, OptLevel(op), rest), st) == Scan(rest, st')
    ensures Read(st', st.out + held + Emitted(Prefix(op, x)), base, p, OptLevel(op))
    decreases Prefix(op, x), 2
  {
    hide Scan, Flushed, OpText, Reversed, Leaf, OperandText, Read;
    var level := OptLevel(op);
    var u := OperandText(x, level, rest);
    OperandStarts(x, level, rest);
    ReadPrefix(op, u, st, base, held);
    var st1 := State(st.out + held, base + [Opt(op)], "", KOpt);
    if x.Prefix? {
      st', p := ReadOperand(x, level, rest, st1, base, [Opt(op)]);
      assert st.out + held + [Opt(op)] + Emitted(x) == st.out + held + Emitted(Prefix(op, x));
    } else {
      assert base + [Opt(op)] + [] == base + [Opt(op)];
      st', p := ReadOperand(x, level, rest, st1, base + [Opt(op)], []);
      ReadBehind(st', st.out + held + [] + Emitted(x), base, op, p, level);
      p := [Opt(op)] + p;
      assert st.out + held + [] + Emitted(x) + [Opt(op)] == st.out + held + Emitted(Prefix(op, x));
    }
  }

  lemma ReadAtom(a: string, rest: string, st: State, base: seq<Node>) returns (st': State, p: seq<Node>)
    requires IsKey(a) && Expecting(st, base, [])
    ensures Scan(a + rest, st) == Scan(rest, st') && Read(st', st.out + [] + [Leaf(a).0], base, p, TOP)
  {
    hide Scan, Leaf;
    ReadKey(a, rest, st);
    assert st.key + a == a;
    st', p := State(st.out, st.stk, a, st.prev), [];
  }

  lemma {:induction false} ReadGroup(x: Expr, rest: string, st: State, base: seq<Node>) returns (st': State, p: seq<Node>)
    requires WellFormed(x) && Expecting(st, base, [])
    ensures Scan(['('] + Text(x, [')'] + rest), st) == Scan(rest, st') && Read(st', st.out + [] + Emitted(x), base, p, TOP)
    decreases x, 4
  {
    hide Scan, Text, Emitted;
    ReadOpen(Text(x, [')'] + rest), st);
    assert base + [] == base && base + [Left] + [] == base + [Left];
    var st1 := State(st.out, base + [Left], "", KLeft);
    var st2, q := ReadText(x, [')'] + rest, st1, base + [Left], []);
    ReadClose(rest, st2, st.out + [] + Emitted(x), base, q);
    st', p := State(st.out + [] + Emitted(x), base, "", Flushed(st2).prev), [];
  }

  lemma {:induction false} ReadOperand(e: Expr, least: nat, rest: string, st: State, base: seq<Node>, held: seq<Node>)
    returns (st': State, p: seq<Node>)
    requires WellFormed(e) && Expecting(st, base, held) && least <= TOP && (held != [] ==> e.Prefix? && least <= Level(e))
    requires least <= Level(e) ==> Below(base, Level(e))
    ensures Scan(OperandText(e, least, rest), st) == Scan(rest, st') && Read(st', st.out + held + Emitted(e), base, p, least)
    decreases e, 5
  {
    hide Scan, Text, Emitted, Flushed, Reversed;
    if Level(e) < least {
      st', p := ReadGroup(e, rest, st, base);
    } else {
      st', p := ReadText(e, rest, st, base, held);
    }
  }

  lemma {:induction false} ReadCallText(f: string, args: seq<Expr>, rest: string, st: State, base: seq<Node>)
    returns (st': State, p: seq<Node>)
    requires WellFormed(Call(f, args)) && Expecting(st, base, [])
    ensures Scan(Text(Call(f, args), rest), st) == Scan(rest, st')
    ensures Read(st', st.out + [] + [Fun(f, EmittedArgs(args))], base, p, TOP)
    decreases args, 1
  {
    hide Scan, FunText, ParsedArgs;
    var u := ArgsText(args, []);
    ArgsAppend(args, [')'] + rest);
    assert u + ([')'] + rest) == u + [')'] + rest;
    var t := ['('] + (u + [')'] + rest);
    assert Text(Call(f, args), rest) == f + t;
    ReadKey(f, t, st);
    assert st.key + f == f;
    FindCall(u, rest, args);
    ReadArgs(u, args, []);
    assert [] + EmittedArgs(args) == EmittedArgs(args);
    ReadCall(u, rest, State(st.out, st.stk, f, st.prev), EmittedArgs(args));
    st', p := State(st.out + [Fun(f, EmittedArgs(args))], st.stk, "", KFun), [];
  }

  lemma FindCall(u: string, rest: string, args: seq<Expr>)
    requires (forall i :: 0 <= i < |args| ==> WellFormed(args[i])) && u == ArgsText(args, [])
    ensures FunText(['('] + (u + [')'] + rest), 1, 1, 0) == Some(1 + |u|)
  {
    hide ParsedArgs, ArgsText, WellFormed;
    var t := ['('] + (u + [')'] + rest);
    ArgsAppend(args, [')'] + rest);
    assert t[1..] == u + ([')'] + rest);
    var m := PassArgs(t, 1, args, [')'] + rest, 1);
    assert |t[m..]| == 1 + |rest|;
    assert t[m] == t[m..][0];
  }

  // parsefunexp: each argument is compiled on its own.
  lemma {:induction false} ReadArgs(t: string, args: seq<Expr>, done: seq<Arg>)
    requires (forall i :: 0 <= i < |args| ==> WellFormed(args[i])) && t == ArgsText(args, [])
    ensures ParsedArgs(t, 0, 0, 0, done) == Some(done + EmittedArgs(args))
    decreases args, 0
  {
    hide ParsedArgs, Text, Emitted, WellFormed;
    if args == [] {
      NoArgs(t, done);
      assert done + [] == done;
    } else if |args| == 1 {
      LastArg(t, args[0], done);
      assert EmittedArgs(args) == [Arg(Emitted(args[0]))];
    } else {
      var u := ArgsText(args[1..], []);
      NextArg(t, args[0], u, done);
      ReadArgs(u, args[1..], done + [Arg(Emitted(args[0]))]);
      assert done + [Arg(Emitted(args[0]))] + EmittedArgs(args[1..]) == done + EmittedArgs(args);
    }
  }

  lemma NoArgs(t: string, done: seq<Arg>)
    requires t == []
    ensures ParsedArgs(t, 0, 0, 0, done) == Some(done)
  {
  }

  lemma {:induction false} LastArg(t: string, e: Expr, done: seq<Arg>)
    requires WellFormed(e) && t == Text(e, [])
    ensures ParsedArgs(t, 0, 0, 0, done) == Some(done + [Arg(Emitted(e))])
    decreases e, 5
  {
    hide Text, Emitted, Parsed, FunText;
    assert t[0..] == t;
    var m := PassText(t, 0, e, [], 0);
    assert |t[m..]| == 0;
    TextStarts(e, []);
    ParseText(e);
  }

  lemma {:induction false} NextArg(t: string, e: Expr, u: string, done: seq<Arg>)
    requires WellFormed(e) && t == Text(e, [','] + u)
    ensures ParsedArgs(t, 0, 0, 0, done) == ParsedArgs(u, 0, 0, 0, done + [Arg(Emitted(e))])
    decreases e, 5
  {
    hide Text, Emitted, Parsed, FunText;
    assert t[0..] == t;
    var m := PassText(t, 0, e, [','] + u, 0);
    TextAppend(e, [','] + u);
    assert |t[m..]| == 1 + |u|;
    assert t[m] == t[m..][0] && t[m + 1..] == t[m..][1..] == u;
    assert t[..m] == Text(e, []);
    ParseText(e);
  }

  /** Compiling the text of a tree gives exactly what the tree emits. */
  lemma {:induction false} ParseText(e: Expr)
    requires WellFormed(e)
    ensures Parsed(Text(e, [])) == Some(Emitted(e))
    decreases e, 4
  {
    hide Text, Emitted, Popped, Reversed;
    var st', p := ReadText(e, [], START, [], []);
    EmptyPending(Flushed(st').out, p);
    assert [] + p == p && [] + [] + Emitted(e) == Emitted(e);
  }

  /** The text of a tree compiles to its postfix if and only if no prefix operator stands on another one. */
  lemma CompilesToPostfix(e: Expr)
    requires WellFormed(e)
    ensures Parsed(Text(e, [])) == Some(Postfix(e)) <==> Plain(e)
  {
    hide *;
    ParseText(e);
    PlainIffPostfix(e);
  }
}
