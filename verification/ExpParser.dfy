/** The loops of exp::parse, getfunexpstr, parsefunexp, getstring and eval, and class doexp, proved equal
    to the functions the theorems are about. */
module ExpParser {
  import opened Wrappers
  import opened ExpSyntax
  import opened ExpTree
  import opened ExpCompile
  import opened ExpEval

  // getfunexpstr at an opening parenthesis: the text of the arguments and where it ends.
  method GetFunExpStr(s: string, ps: nat) returns (ok: bool, end: nat, text: string)
    requires ps < |s|
    ensures var n := FunText(s[ps..], 1, 1, 0); ok == n.Some? && (ok ==> end == ps + n.value && end < |s| && text == s[ps + 1..end])
  {
    var quotes, open := 0, 1;
    ghost var t := s[ps..];
    end, text := ps + 1, "";
    while end < |s| && open > 0
      invariant ps < end <= |s| && open > 0
      invariant text == s[ps + 1..end] && FunText(t, end - ps, open, quotes) == FunText(t, 1, 1, 0)
    {
      assert t[end - ps] == s[end];
      if quotes % 2 == 0 {
        if s[end] == '(' {
          open := open + 1;
        } else if s[end] == ')' {
          open := open - 1;
          if open == 0 {
            return true, end, text;
          }
        }
      }
      if s[end] == '"' {
        quotes := quotes + 1;
      }
      text := text + [s[end]];
      end := end + 1;
    }
    ok := false;
  }

  // getstring at an opening quote: the string and where its closing quote stands.
  method GetString(s: string, ps: nat) returns (ok: bool, end: nat, text: string)
    requires ps < |s|
    ensures var q := Quoted(s[ps + 1..]); ok == q.Some? && (ok ==> end == ps + 1 + q.value.1 && end < |s| && text == q.value.0)
  {
    hide Quoted, Escaped;
    end, text := ps + 1, "";
    while end < |s|
      invariant ps < end <= |s| && StringSoFar(s, ps + 1, end, text)
    {
      QuotedStep(s, ps + 1, end, text);
      if s[end] == '\\' {
        if end + 1 == |s| {
          return true, end, text;
        }
        text := text + Escaped(s[end + 1]);
        end := end + 2;
      } else if s[end] == '"' {
        return true, end, text;
      } else {
        text := text + [s[end]];
        end := end + 1;
      }
    }
    NotClosed(s, ps + 1, text);
    ok := false;
  }

  // From a to end the characters of the string have been collected in text.
  ghost predicate StringSoFar(s: string, a: nat, end: nat, text: string)
    requires a <= |s| && end <= |s|
  {
    var q, r := Quoted(s[a..]), Quoted(s[end..]);
    r.Some? == q.Some? && (q.Some? ==> text + r.value.0 == q.value.0 && end + r.value.1 == a + q.value.1)
  }

  lemma QuotedStep(s: string, a: nat, end: nat, text: string)
    requires a <= end < |s| && StringSoFar(s, a, end, text)
    ensures var q := Quoted(s[a..]);
            if s[end] == '\\' then
              if end + 1 == |s| then q == Some((text, end - a)) else StringSoFar(s, a, end + 2, text + Escaped(s[end + 1]))
            else if s[end] == '"' then q == Some((text, end - a))
            else StringSoFar(s, a, end + 1, text + [s[end]])
  {
    hide Escaped;
    var t := s[end..];
    assert t[0] == s[end] && t[1..] == s[end + 1..];
    assert |t| > 1 ==> t[1] == s[end + 1] && t[2..] == s[end + 2..];
    var q, r := Quoted(s[a..]), Quoted(t);
    assert q.Some? ==> text + r.value.0 == q.value.0;
    assert text + "" == text;
    if q.Some? && s[end] == '\\' && end + 1 < |s| {
      assert text + (Escaped(s[end + 1]) + Quoted(s[end + 2..]).value.0) == text + Escaped(s[end + 1]) + Quoted(s[end + 2..]).value.0;
    } else if q.Some? && s[end] != '"' && s[end] != '\\' {
      assert text + ([s[end]] + Quoted(s[end + 1..]).value.0) == text + [s[end]] + Quoted(s[end + 1..]).value.0;
    }
  }

  lemma NotClosed(s: string, a: nat, text: string)
    requires a <= |s| && StringSoFar(s, a, |s|, text)
    ensures Quoted(s[a..]).None?
  {
  }

  // The pop loop of an operator.
  method PopOperators(out0: seq<Node>, stk0: seq<Node>, level: nat) returns (out: seq<Node>, stk: seq<Node>)
    ensures (out, stk) == Popped(out0, stk0, level)
  {
    out, stk := out0, stk0;
    while stk != []
      invariant Popped(out, stk, level) == Popped(out0, stk0, level)
      decreases |stk|
    {
      if stk[|stk| - 1].Left? {
        break;
      }
      var level2 := LevelOf(stk[|stk| - 1]);
      if level2 < level || (level2 == level && level2 >= OPT_UNVAL) {
        break;
      }
      out := out + [stk[|stk| - 1]];
      stk := stk[..|stk| - 1];
    }
  }

  // The pop loop of a closing parenthesis.
  method PopToLeft(out0: seq<Node>, stk0: seq<Node>) returns (ok: bool, out: seq<Node>, stk: seq<Node>)
    ensures var c := Closed(out0, stk0); ok == c.Some? && (ok ==> (out, stk) == c.value)
  {
    out, stk, ok := out0, stk0, false;
    while stk != []
      invariant Closed(out, stk) == Closed(out0, stk0) && !ok
      decreases |stk|
    {
      if stk[|stk| - 1].Left? {
        stk := stk[..|stk| - 1];
        ok := true;
        break;
      }
      out := out + [stk[|stk| - 1]];
      stk := stk[..|stk| - 1];
    }
  }

  // The pop loop at the end.
  method PopAll(out0: seq<Node>, stk0: seq<Node>) returns (r: Option<seq<Node>>)
    ensures r == Emptied(out0, stk0)
  {
    var out, stk := out0, stk0;
    while stk != []
      invariant Emptied(out, stk) == Emptied(out0, stk0)
      decreases |stk|
    {
      if stk[|stk| - 1].Left? {
        return None;
      }
      out := out + [stk[|stk| - 1]];
      stk := stk[..|stk| - 1];
    }
    return Some(out);
  }

  /** parse, on the characters of the given text. */
  method ParseExp(s: string) returns (r: Option<seq<Node>>)
    ensures r == Parsed(s)
    decreases |s|, 1
  {
    var st := START;
    var ps := 0;
    assert s[0..] == s;
    while ps < |s|
      invariant ps <= |s| && Scan(s[ps..], st) == Parsed(s)
    {
      var ok;
      ok, ps, st := ParseToken(s, ps, st);
      if !ok {
        return None;
      }
    }
    var f := Flushed(st);
    r := PopAll(f.out, f.stk);
  }

  // '(' behind a name.
  method ParseCall(s: string, ps0: nat, st0: State) returns (ok: bool, ps: nat, st: State)
    requires ps0 < |s| && s[ps0] == '(' && st0.key != ""
    ensures if ok then ps0 < ps <= |s| && Scan(s[ps0..], st0) == Scan(s[ps..], st) else Scan(s[ps0..], st0) == None
    decreases |s|, 0, 0
  {
    hide Flushed, Popped, Closed, Emptied, Parsed, Leaf, Quoted, FunText, ParsedArgs, OperatorAt;
    ghost var t := s[ps0..];
    ps, st := ps0, st0;
    var end, text;
    ok, end, text := GetFunExpStr(s, ps0);
    if !ok {
      return;
    }
    assert text == t[1..end - ps0] && s[end + 1..] == t[end - ps0 + 1..];
    var args := ParseFunExp(text);
    if args.None? {
      ok := false;
      return;
    }
    st := State(st.out + [Fun(st.key, args.value)], st.stk, "", KFun);
    ps := end + 1;
  }

  method ParseOperator(s: string, ps0: nat, st0: State) returns (ok: bool, ps: nat, st: State)
    requires ps0 < |s| && IsOperatorChar(s[ps0])
    ensures if ok then ps0 < ps <= |s| && Scan(s[ps0..], st0) == Scan(s[ps..], st) else Scan(s[ps0..], st0) == None
  {
    hide Flushed, Popped, Closed, Emptied, Parsed, Leaf, Quoted, FunText, ParsedArgs, OperatorAt;
    ghost var t := s[ps0..];
    ok, ps, st := true, ps0, st0;
    var f := Flushed(st);
    var opt := OperatorAt(s[ps0..], f.prev);
    if opt.None? {
      ok := false;
      return;
    }
    var (op, n) := opt.value;
    var out, stk := PopOperators(f.out, f.stk, OptLevel(op));
    st := State(out, stk + [Opt(op)], "", KOpt);
    ps := ps0 + n;
    assert s[ps..] == t[n..];
  }

  method ParseQuoted(s: string, ps0: nat, st0: State) returns (ok: bool, ps: nat, st: State)
    requires ps0 < |s| && s[ps0] == '"'
    ensures if ok then ps0 < ps <= |s| && Scan(s[ps0..], st0) == Scan(s[ps..], st) else Scan(s[ps0..], st0) == None
  {
    hide Flushed, Popped, Closed, Emptied, Parsed, Leaf, Quoted, FunText, ParsedArgs, OperatorAt;
    ghost var t := s[ps0..];
    ps, st := ps0, st0;
    var end, text;
    ok, end, text := GetString(s, ps0);
    if !ok {
      return;
    }
    assert s[end + 1..] == t[end - ps0 + 1..];
    st := State(st.out, st.stk + [Data(StrV(text))], st.key, st.prev);
    ps := end + 1;
  }

  // One turn of the loop of parse.
  method ParseToken(s: string, ps0: nat, st0: State) returns (ok: bool, ps: nat, st: State)
    requires ps0 < |s|
    ensures if ok then ps0 < ps <= |s| && Scan(s[ps0..], st0) == Scan(s[ps..], st) else Scan(s[ps0..], st0) == None
    decreases |s|, 0
  {
    hide Flushed, Popped, Closed, Emptied, Parsed, Leaf, Quoted, FunText, ParsedArgs, OperatorAt;
    ghost var t := s[ps0..];
    var c := s[ps0];
    assert t[0] == c && t[1..] == s[ps0 + 1..];
    ok, ps, st := true, ps0 + 1, st0;
    if c == ' ' || c == '\n' || c == '\r' || c == '\t' {
    } else if c == '(' {
      if st.key != "" {
        ok, ps, st := ParseCall(s, ps0, st0);
      } else {
        st := State(st.out, st.stk + [Left], "", KLeft);
      }
    } else if IsOperatorChar(c) {
      ok, ps, st := ParseOperator(s, ps0, st0);
    } else if c == ')' {
      var f := Flushed(st);
      var out, stk;
      ok, out, stk := PopToLeft(f.out, f.stk);
      st := State(out, stk, "", f.prev);
    } else if c == '"' {
      ok, ps, st := ParseQuoted(s, ps0, st0);
    } else {
      st := State(st.out, st.stk, st.key + [c], st.prev);
    }
  }

  /** parsefunexp: the arguments between top-level commas, each parsed on its own. */
  method ParseFunExp(s: string) returns (r: Option<seq<Arg>>)
    ensures r == ParsedArgs(s, 0, 0, 0, [])
    decreases |s|, 2
  {
    hide Parsed;
    var pc, ps, quotes, open := 0, 0, 0, 0;
    var args: seq<Arg> := [];
    assert s[0..] == s;
    while pc < |s|
      invariant ps <= pc <= |s|
      invariant ParsedArgs(s[ps..], pc - ps, quotes, open, args) == ParsedArgs(s, 0, 0, 0, [])
    {
      ghost var t := s[ps..];
      assert t[pc - ps] == s[pc] && t[..pc - ps] == s[ps..pc] && t[pc - ps + 1..] == s[pc + 1..];
      match s[pc] {
      case '"' => quotes := quotes + 1;
      case '(' => open := open + 1;
      case ')' => open := open - 1;
      case ',' =>
        if quotes % 2 == 0 && open == 0 {
          var arg := ParseExp(s[ps..pc]);
          if arg.None? {
            return None;
          }
          if arg.value != [] {
            args := args + [Arg(arg.value)];
          }
          ps := pc + 1;
        }
      case _ =>
      }
      pc := pc + 1;
    }
    if pc > ps {
      assert s[ps..pc] == s[ps..];
      var arg := ParseExp(s[ps..pc]);
      if arg.None? {
        return None;
      }
      if arg.value != [] {
        args := args + [Arg(arg.value)];
      }
    }
    return Some(args);
  }

  /** eval: the value on the stack when it is the only one left. */
  method EvalNodes(nodes: seq<Node>, env: Env) returns (r: Option<Val>)
    ensures r == Evaluated(nodes, env)
    decreases nodes, 1
  {
    hide Operate;
    var stk: seq<Val> := [];
    var i := 0;
    assert nodes[0..] == nodes;
    while i < |nodes|
      invariant i <= |nodes| && Run(nodes[i..], env, stk) == Run(nodes, env, [])
    {
      assert nodes[i..][0] == nodes[i] && nodes[i..][1..] == nodes[i + 1..];
      match nodes[i] {
      case Data(v) => stk := stk + [v];
      case Var(name) =>
        var v := env.getvar(name);
        if v.None? {
          return None;
        }
        stk := stk + [v.value];
      case Fun(f, args) =>
        var v := DoFunExp(f, args, env);
        if v.None? {
          return None;
        }
        stk := stk + [v.value];
      case Opt(op) =>
        var s := Operate(op, stk);
        if s.None? {
          return None;
        }
        stk := s.value;
      case Left =>
      }
      i := i + 1;
    }
    if |stk| != 1 {
      return None;
    }
    return Some(stk[|stk| - 1]);
  }

  ghost function Joined(vals: seq<Val>, rest: Option<seq<Val>>): Option<seq<Val>> {
    if rest.None? then None else Some(vals + rest.value)
  }

  /** dofunexp: the arguments from the first to the last, then the function. */
  method DoFunExp(f: string, args: seq<Arg>, env: Env) returns (r: Option<Val>)
    ensures var vals := RunArgs(args, env); r == if vals.None? then None else env.dofun(f, vals.value)
    decreases args
  {
    hide Evaluated;
    var vals: seq<Val> := [];
    var i := 0;
    assert args[0..] == args && (RunArgs(args, env).Some? ==> [] + RunArgs(args, env).value == RunArgs(args, env).value);
    while i < |args|
      invariant i <= |args|
      invariant RunArgs(args, env) == Joined(vals, RunArgs(args[i..], env))
    {
      ghost var a := args[i..];
      assert a[0] == args[i] && a[1..] == args[i + 1..];
      assert args[i] in args;
      var v := EvalNodes(args[i].nodes, env);
      if v.None? {
        return None;
      }
      ghost var rest := RunArgs(args[i + 1..], env);
      assert rest.Some? ==> vals + ([v.value] + rest.value) == vals + [v.value] + rest.value;
      vals := vals + [v.value];
      i := i + 1;
    }
    assert args[i..] == [] && vals + [] == vals;
    r := env.dofun(f, vals);
  }

  class DoExp {
    var vo: seq<Node>

    constructor ()
      ensures vo == []
    {
      vo := [];
    }

    /** parse: what was compiled before is gone; after a failure some part of the new output stays. */
    method Parse(s: string) returns (ok: bool)
      modifies this
      ensures ok == Parsed(s).Some? && (ok ==> vo == Parsed(s).value)
    {
      var r := ParseExp(s);
      ok := r.Some?;
      if ok {
        vo := r.value;
      } else {
        var part: seq<Node> := *;
        vo := part;
      }
    }

    method Eval(env: Env) returns (r: Option<Val>)
      ensures r == Evaluated(vo, env)
    {
      r := EvalNodes(vo, env);
    }
  }

  /** A plain tree, compiled from its text and evaluated, has its own value. */
  method Calculate(e: Expr, env: Env) returns (r: Option<Val>)
    requires WellFormed(e) && Plain(e)
    ensures r == Value(e, env)
  {
    hide *;
    var d := new DoExp();
    var ok := d.Parse(Text(e, []));
    MeaningPreserved(e, env);
    r := d.Eval(env);
  }
}
