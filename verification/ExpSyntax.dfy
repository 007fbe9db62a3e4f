/** Class exp of ec_exp.h: operators, nodes and what parse computes from a text. The text is read
    front to back; a state holds the output, the operator stack, the key being read and the kind of
    the node before. */
module ExpSyntax {
  import opened Wrappers

  datatype Op = LogOr | LogAnd | BitOr | BitXor | BitAnd | Eq | NotEq | Less | LessEq | Great | GreatEq
              | LBit | RBit | Add | Dec | Mult | Div | Mod | Unval | BitNot | LogNot

  const OPT_UNVAL := 18     // the enumerator the right-to-left test of parse compares a level with

  function OptLevel(op: Op): (l: nat)
    ensures l <= 10
  {
    match op
    case LogOr => 0
    case LogAnd => 1
    case BitOr => 2
    case BitXor => 3
    case BitAnd => 4
    case Eq | NotEq => 5
    case Less | LessEq | Great | GreatEq => 6
    case LBit | RBit => 7
    case Add | Dec => 8
    case Mult | Div | Mod => 9
    case Unval | BitNot | LogNot => 10
  }

  datatype Val = IntV(i: int) | DblV(d: real) | StrV(s: string)

  datatype Node = Data(v: Val) | Var(name: string) | Fun(fun: string, args: seq<Arg>) | Opt(op: Op) | Left
  datatype Arg = Arg(nodes: seq<Node>)

  datatype Kind = KData | KVar | KFun | KOpt | KLeft

  // ---- keys: numbers, hexadecimal numbers, variables ----

  function Count(s: string, c: char): nat {
    if s == [] then 0 else (if s[0] == c then 1 else 0) + Count(s[1..], c)
  }

  predicate IsNumber(s: string) {
    (forall i :: 0 <= i < |s| ==> '0' <= s[i] <= '9' || s[i] == '.') && Count(s, '.') <= 1
  }

  predicate IsHexDigit(c: char) { '0' <= c <= '9' || 'a' <= c <= 'f' || 'A' <= c <= 'F' }

  predicate IsHex16(s: string) {
    && |s| >= 3 && s[0] == '0' && (s[1] == 'x' || s[1] == 'X')
    && forall i :: 2 <= i < |s| ==> IsHexDigit(s[i])
  }

  function DigitValue(c: char): int {
    if '0' <= c <= '9' then c as int - '0' as int
    else if 'a' <= c <= 'f' then c as int - 'a' as int + 10
    else c as int - 'A' as int + 10
  }

  function Number(s: string, base: nat): int {
    if s == [] then 0 else Number(s[..|s| - 1], base) * base + DigitValue(s[|s| - 1])
  }

  function Tenths(s: string): real {
    if s == [] then 0.0 else (DigitValue(s[0]) as real + Tenths(s[1..])) / 10.0
  }

  function IndexOf(s: string, c: char): (i: nat)
    ensures i <= |s|
  {
    if s == [] || s[0] == c then 0 else 1 + IndexOf(s[1..], c)
  }

  function Signed64(x: int): int {
    var u := x % 0x1_0000_0000_0000_0000;
    if u < 0x8000_0000_0000_0000 then u else u - 0x1_0000_0000_0000_0000
  }

  // parse_outvar: the node and the kind for a key.
  function Leaf(key: string): (r: (Node, Kind))
    ensures !r.0.Opt? && !r.0.Left? && !r.0.Fun? && !r.1.KOpt? && !r.1.KLeft?
  {
    if IsNumber(key) then
      var p := IndexOf(key, '.');
      (Data(if p < |key| then DblV(Number(key[..p], 10) as real + Tenths(key[p + 1..])) else IntV(Number(key, 10))), KData)
    else if IsHex16(key) then (Data(IntV(Signed64(Number(key[2..], 16)))), KData)
    else (Var(key), KVar)
  }

  // ---- operators in the text ----

  predicate IsBlank(c: char) { c == ' ' || c == '\n' || c == '\r' || c == '\t' }

  predicate IsOperatorChar(c: char) { c in "+-*/%<>&|~^=!" }

  // The operator a text starts with and its length; past the end nothing that makes a longer operator follows.
  function OperatorAt(t: string, prev: Kind): (r: Option<(Op, nat)>)
    requires t != [] && IsOperatorChar(t[0])
    ensures r.Some? ==> 1 <= r.value.1 <= |t|
  {
    var c := t[0];
    var d := if |t| > 1 then t[1] else '\0';
    match c
    case '<' => Some(if d == '=' then (LessEq, 2) else if d == '<' then (LBit, 2) else (Less, 1))
    case '>' => Some(if d == '=' then (GreatEq, 2) else if d == '>' then (RBit, 2) else (Great, 1))
    case '|' => Some(if d == '|' then (LogOr, 2) else (BitOr, 1))
    case '&' => Some(if d == '&' then (LogAnd, 2) else (BitAnd, 1))
    case '-' => Some(if prev.KOpt? || prev.KLeft? then (Unval, 1) else (Dec, 1))
    case '=' => if d == '=' then Some((Eq, 2)) else None
    case '!' => Some(if d == '=' then (NotEq, 2) else (NotEq, 1))
    case '^' => Some((BitXor, 1))
    case '+' => Some((Add, 1))
    case '*' => Some((Mult, 1))
    case '/' => Some((Div, 1))
    case '%' => Some((Mod, 1))
    case _ => Some((BitNot, 1))
  }

  // ---- the stack ----

  function LevelOf(n: Node): int { if n.Opt? then OptLevel(n.op) else -1 }

  // A new operator of this level stops at the node.
  predicate Stops(n: Node, level: nat) {
    n.Left? || LevelOf(n) < level || (LevelOf(n) == level && LevelOf(n) >= OPT_UNVAL)
  }

  // What a new operator moves from the stack to the output.
  function Popped(out: seq<Node>, stk: seq<Node>, level: nat): (r: (seq<Node>, seq<Node>))
    ensures |r.1| <= |stk|
    decreases |stk|
  {
    if stk == [] || Stops(stk[|stk| - 1], level) then (out, stk)
    else Popped(out + [stk[|stk| - 1]], stk[..|stk| - 1], level)
  }

  // ')': everything down to the opening parenthesis.
  function Closed(out: seq<Node>, stk: seq<Node>): Option<(seq<Node>, seq<Node>)>
    decreases |stk|
  {
    if stk == [] then None
    else if stk[|stk| - 1].Left? then Some((out, stk[..|stk| - 1]))
    else Closed(out + [stk[|stk| - 1]], stk[..|stk| - 1])
  }

  // The end of the text: everything, unless a parenthesis is open.
  function Emptied(out: seq<Node>, stk: seq<Node>): Option<seq<Node>>
    decreases |stk|
  {
    if stk == [] then Some(out)
    else if stk[|stk| - 1].Left? then None
    else Emptied(out + [stk[|stk| - 1]], stk[..|stk| - 1])
  }

  // ---- parse ----

  datatype State = State(out: seq<Node>, stk: seq<Node>, key: string, prev: Kind)

  const START := State([], [], "", KLeft)

  function Flushed(st: State): (f: State)
    ensures f.key == ""
  {
    if st.key == "" then st else
    var (n, k) := Leaf(st.key);
    State(st.out + [n], st.stk, "", k)
  }

  // getfunexpstr, n characters in: where the parenthesis that closes the call stands.
  function FunText(t: string, n: nat, open: nat, quotes: nat): (r: Option<nat>)
    requires n <= |t|
    ensures r.Some? ==> n <= r.value < |t|
    decreases |t| - n
  {
    if n == |t| then None
    else if quotes % 2 == 0 && t[n] == ')' && open <= 1 then Some(n)
    else
      var open' := if quotes % 2 == 0 && t[n] == '(' then open + 1
                   else if quotes % 2 == 0 && t[n] == ')' then open - 1 else open;
      FunText(t, n + 1, open', if t[n] == '"' then quotes + 1 else quotes)
  }

  function Escaped(c: char): string {
    if c == 't' then "\t" else if c == 'n' then "\n" else if c == '\'' then "'" else if c == '"' then "\""
    else if c == 'r' then "\r" else if c == '\\' then "\\" else ""
  }

  // getstring, after the opening quote: the string and the length of its text, without the closing quote.
  function Quoted(t: string): (r: Option<(string, nat)>)
    ensures r.Some? ==> r.value.1 < |t|
  {
    if t == [] then None
    else if t[0] == '\\' then
      if |t| == 1 then Some(("", 0)) else
      var r := Quoted(t[2..]);
      if r.Some? then Some((Escaped(t[1]) + r.value.0, r.value.1 + 2)) else None
    else if t[0] == '"' then Some(("", 0))
    else
      var r := Quoted(t[1..]);
      if r.Some? then Some(([t[0]] + r.value.0, r.value.1 + 1)) else None
  }

  function Parsed(s: string): Option<seq<Node>>
    decreases |s|, 1, 0
  {
    Scan(s, START)
  }

  function Scan(t: string, st: State): Option<seq<Node>>
    decreases |t|, 0, 0
  {
    if t == [] then
      var f := Flushed(st);
      Emptied(f.out, f.stk)
    else if IsBlank(t[0]) then Scan(t[1..], st)
    else if t[0] == '(' then
      if st.key != "" then
        var n := FunText(t, 1, 1, 0);
        if n.None? then None else
        var args := ParsedArgs(t[1..n.value], 0, 0, 0, []);
        if args.None? then None else
        Scan(t[n.value + 1..], State(st.out + [Fun(st.key, args.value)], st.stk, "", KFun))
      else Scan(t[1..], State(st.out, st.stk + [Left], "", KLeft))
    else if IsOperatorChar(t[0]) then
      var f := Flushed(st);
      var opt := OperatorAt(t, f.prev);
      if opt.None? then None else
      var (op, n) := opt.value;
      var (out, stk) := Popped(f.out, f.stk, OptLevel(op));
      Scan(t[n..], State(out, stk + [Opt(op)], "", KOpt))
    else if t[0] == ')' then
      var f := Flushed(st);
      var c := Closed(f.out, f.stk);
      if c.None? then None else Scan(t[1..], State(c.value.0, c.value.1, "", f.prev))
    else if t[0] == '"' then
      var q := Quoted(t[1..]);
      if q.None? then None else
      Scan(t[q.value.1 + 2..], State(st.out, st.stk + [Data(StrV(q.value.0))], st.key, st.prev))
    else Scan(t[1..], State(st.out, st.stk, st.key + [t[0]], st.prev))
  }

  // parsefunexp, n characters into the argument at the start of t: split at commas outside quotes and
  // parentheses; empty arguments are dropped.
  function ParsedArgs(t: string, n: nat, quotes: nat, open: int, args: seq<Arg>): Option<seq<Arg>>
    requires n <= |t|
    decreases |t|, 2, |t| - n
  {
    if n == |t| then
      if n == 0 then Some(args) else
      var a := Parsed(t);
      if a.None? then None else Some(WithArg(args, a.value))
    else if t[n] == ',' && quotes % 2 == 0 && open == 0 then
      var a := Parsed(t[..n]);
      if a.None? then None else ParsedArgs(t[n + 1..], 0, quotes, open, WithArg(args, a.value))
    else
      ParsedArgs(t, n + 1, if t[n] == '"' then quotes + 1 else quotes,
                 if t[n] == '(' then open + 1 else if t[n] == ')' then open - 1 else open, args)
  }

  function WithArg(args: seq<Arg>, nodes: seq<Node>): seq<Arg> {
    if nodes == [] then args else args + [Arg(nodes)]
  }
}
