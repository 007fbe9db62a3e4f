/** The HTTP framing of ec_http.h: what package::parse makes of the bytes received so far, and that its
    verdict does not depend on how the stream is cut. */
module HttpPackage {
  import opened Wrappers

  const LINESIZE := 4000             // EC_HTTP_STARTHEAD_LINESIZE
  const MAXBODY := 1024 * 1024       // MAXSIZE_RCVHTTPBODY
  const MAXHEADS := 128

  const E_ERR := -1
  const E_LINESIZE := -3
  const E_METHOD := -4
  const E_URL := -5
  const E_VER := -6
  const E_HEAD := -7
  const E_BODYSIZE := -8

  // ---- characters ----

  predicate IsSpace(c: char) { c == ' ' || c == '\t' }

  predicate IsSkipped(c: char) { IsSpace(c) || c == '\r' || c == '\n' }

  function Lower(c: char): char { if 'A' <= c <= 'Z' then (c as int + 32) as char else c }

  predicate IEq(a: string, b: string) { |a| == |b| && forall i :: 0 <= i < |a| ==> Lower(a[i]) == Lower(b[i]) }

  // The number of leading characters up to a space, up to the character c, and of those skip() passes.
  function ToSpace(s: string): (n: nat)
    ensures n <= |s|
  {
    if s == "" || IsSpace(s[0]) then 0 else 1 + ToSpace(s[1..])
  }

  function ToChar(s: string, c: char): (n: nat)
    ensures n <= |s|
  {
    if s == "" || s[0] == c then 0 else 1 + ToChar(s[1..], c)
  }

  function Skipped(s: string): (n: nat)
    ensures n <= |s|
  {
    if s == "" || !IsSkipped(s[0]) then 0 else 1 + Skipped(s[1..])
  }

  function TrimmedLeft(s: string): (n: nat)
    ensures n <= |s|
  {
    if s == "" || !IsSpace(s[0]) then 0 else 1 + TrimmedLeft(s[1..])
  }

  function TrimmedRight(s: string): (n: nat)
    ensures n <= |s|
  {
    if s == "" || !IsSkipped(s[|s| - 1]) then |s| else TrimmedRight(s[..|s| - 1])
  }

  function Trim(s: string): string {
    var t := s[TrimmedLeft(s)..];
    t[..TrimmedRight(t)]
  }

  // ---- atoi of at most 31 characters ----

  function Digits(s: string, acc: nat): nat
    decreases |s|
  {
    if s == "" || !('0' <= s[0] <= '9') then acc else Digits(s[1..], 10 * acc + (s[0] as nat - '0' as nat))
  }

  predicate IsBlank(c: char) { IsSkipped(c) || c == '\U{0B}' || c == '\U{0C}' }

  function Blanks(s: string): (n: nat)
    ensures n <= |s|
  {
    if s == "" || !IsBlank(s[0]) then 0 else 1 + Blanks(s[1..])
  }

  // strtol saturates at 64 bits, the cast to int keeps the low 32.
  function Int32(x: int): int {
    var w := if x > 0x7FFF_FFFF_FFFF_FFFF then 0x7FFF_FFFF_FFFF_FFFF else if x < -0x8000_0000_0000_0000 then -0x8000_0000_0000_0000 else x;
    var u := w % 0x1_0000_0000;
    if u < 0x8000_0000 then u else u - 0x1_0000_0000
  }

  function STOI(v: string): int {
    var s := if |v| > 31 then v[..31] else v;
    var t := s[Blanks(s)..];
    if t != "" && t[0] == '-' then Int32(-(Digits(t[1..], 0) as int))
    else if t != "" && t[0] == '+' then Int32(Digits(t[1..], 0))
    else Int32(Digits(t, 0))
  }

  // ---- lines ----

  datatype Line = LWait | LBad(code: int) | LGot(n: nat)

  // getline, k characters into the line that starts at pos.
  function ScanLine(s: string, pos: nat, k: nat): (r: Line)
    requires pos + k <= |s|
    ensures r.LGot? ==> k + 2 <= r.n <= LINESIZE && pos + r.n <= |s|
    decreases |s| - (pos + k)
  {
    if |s| - (pos + k) <= 1 then if k > LINESIZE then LBad(E_LINESIZE) else LWait
    else if s[pos + k] == '\r' then
      if s[pos + k + 1] != '\n' then LBad(E_HEAD) else if k + 2 > LINESIZE then LBad(E_LINESIZE) else LGot(k + 2)
    else ScanLine(s, pos, k + 1)
  }

  datatype Request = Request(verb: string, url: string, ver: string)

  // The word at the front, and what follows it and the space behind it.
  function Word(t: string): string { t[..ToSpace(t)] }

  function After(t: string): string {
    var r := t[ToSpace(t)..];
    r[Skipped(r)..]
  }

  const NOREQ := Request("", "", "")

  // req_line::parse on the trimmed start line.
  function ReqLine(l: string): (r: (int, Request))
    ensures r.0 <= 0
  {
    var m, u, w := Word(l), Word(After(l)), After(After(l));
    if l == "" then (E_ERR, NOREQ)
    else if m == "" then (E_METHOD, NOREQ)
    else if IEq(m, "HTTP/1.1") || IEq(m, "HTTP/1.0") then
      if u == "" then (E_URL, NOREQ) else (0, Request(m, u, w[..ToChar(w, '\r')]))
    else if !IEq(m, "get") && !IEq(m, "head") && !IEq(m, "put") && !IEq(m, "post") then (E_METHOD, NOREQ)
    else if u == "" then (E_URL, NOREQ)
    else if IEq(Word(w), "http/1.1") || IEq(Word(w), "http/1.0") then (0, Request(m, u, Word(w)))
    else if Word(w) == "" && (IEq(u, "http/1.1") || IEq(u, "http/1.0")) then (E_URL, NOREQ)
    else (E_VER, NOREQ)
  }

  // headitem: the key and where in the line the value starts.
  function HeadItem(l: string): (r: Option<(string, nat)>)
    ensures r.Some? ==> r.value.1 < |l|
  {
    var c := ToChar(l, ':');
    if c == 0 || c == |l| then None else
    var at := c + 1 + Skipped(l[c + 1..]);
    var key := Trim(l[..c]);
    if key == "" || at == |l| then None else Some((key, at))
  }

  // ---- package::parse ----

  // A head item, its value as a stretch of the text.
  datatype Item = Item(key: string, at: nat, size: nat)

  datatype Package = Package(req: Request, heads: seq<(string, string)>, body: string)

  datatype Verdict = Wait | Bad(code: int) | Done(n: nat, pkg: Package)

  predicate Within(heads: seq<Item>, n: nat) {
    forall i :: 0 <= i < |heads| ==> heads[i].at + heads[i].size <= n
  }

  function Values(s: string, heads: seq<Item>): (r: seq<(string, string)>)
    requires Within(heads, |s|)
  {
    if heads == [] then [] else
    var h := heads[0];
    [(h.key, Trim(s[h.at..h.at + h.size]))] + Values(s, heads[1..])
  }

  // The end of the head: a package when the body is there.
  function HeadEnd(s: string, pos: nat, req: Request, heads: seq<Item>, bodysize: nat): (v: Verdict)
    requires pos <= |s| && Within(heads, pos)
    ensures !v.Bad? && (v.Done? ==> pos <= v.n <= |s|)
  {
    if |s| - pos >= bodysize then Done(pos + bodysize, Package(req, Values(s, heads), s[pos..pos + bodysize])) else Wait
  }

  // A head line that is neither a continuation nor the end: the heads with it, and the size of the body.
  function AddItem(s: string, pos: nat, n: nat, heads: seq<Item>, bodysize: nat): (r: (int, seq<Item>, nat))
    requires pos + n <= |s| && Within(heads, pos)
    ensures Within(r.1, pos + n) && (r.0 >= 0 ==> EndsAt(r.1, pos + n))
  {
    var i := HeadItem(s[pos..pos + n]);
    if i.None? || |heads| == MAXHEADS then (E_HEAD, [], 0) else
    var (key, at) := i.value;
    var added := heads + [Item(key, pos + at, n - at)];
    if IEq(key, "Content-Length") then
      var len := STOI(s[pos + at..pos + n]);
      if len < 0 || len > MAXBODY then (E_BODYSIZE, [], 0) else (0, added, len)
    else (0, added, bodysize)
  }

  function Continued(heads: seq<Item>, n: nat): (r: seq<Item>)
    requires heads != []
  {
    heads[|heads| - 1 := heads[|heads| - 1].(size := heads[|heads| - 1].size + n)]
  }

  // The last value reaches up to pos: only then can a line continue it.
  predicate EndsAt(heads: seq<Item>, pos: nat) {
    heads != [] ==> heads[|heads| - 1].at + heads[|heads| - 1].size == pos
  }

  // The loop over the head lines.
  function HeadLines(s: string, pos: nat, req: Request, heads: seq<Item>, bodysize: nat): Verdict
    requires pos <= |s| && Within(heads, pos) && EndsAt(heads, pos)
    decreases |s| - pos
  {
    match ScanLine(s, pos, 0)
    case LWait => Wait
    case LBad(c) => Bad(c)
    case LGot(n) =>
      if IsSpace(s[pos]) then
        if heads == [] then Bad(E_HEAD) else
        HeadLines(s, pos + n, req, Continued(heads, n), bodysize)
      else if n == 2 then HeadEnd(s, pos + n, req, heads, bodysize)
      else
        var (e, added, size) := AddItem(s, pos, n, heads, bodysize);
        if e < 0 then Bad(e) else HeadLines(s, pos + n, req, added, size)
  }

  function Parse(s: string): Verdict {
    if s == "" then Wait else
    match ScanLine(s, 0, 0)
    case LWait => Wait
    case LBad(c) => Bad(c)
    case LGot(n) =>
      var (e, req) := ReqLine(Trim(s[..n]));
      if e < 0 then Bad(e) else HeadLines(s, n, req, [], 0)
  }

  // ---- the verdict and the cut of the stream ----

  // A line once read stays what it is; an error stays one.
  lemma {:induction false} LineExtended(s: string, t: string, pos: nat, k: nat)
    requires s <= t && pos + k <= |s|
    ensures ScanLine(s, pos, k).LGot? ==> ScanLine(t, pos, k) == ScanLine(s, pos, k)
    ensures ScanLine(s, pos, k).LBad? ==> ScanLine(t, pos, k).LBad?
    decreases |s| - (pos + k)
  {
    if |s| - (pos + k) <= 1 {
      if k > LINESIZE {
        LongLine(t, pos, k);
      }
    } else if s[pos + k] != '\r' {
      LineExtended(s, t, pos, k + 1);
    }
  }

  lemma {:induction false} LongLine(t: string, pos: nat, k: nat)
    requires pos + k <= |t| && k > LINESIZE
    ensures ScanLine(t, pos, k).LBad?
    decreases |t| - (pos + k)
  {
    if |t| - (pos + k) > 1 && t[pos + k] != '\r' {
      LongLine(t, pos, k + 1);
    }
  }

  // Cut before its end, a line is waited for.
  lemma {:induction false} LineCut(s: string, pos: nat, k: nat, c: nat)
    requires pos + k <= c <= |s| && ScanLine(s, pos, k).LGot? && c < pos + ScanLine(s, pos, k).n
    ensures ScanLine(s[..c], pos, k) == LWait
    decreases |s| - (pos + k)
  {
    if c - (pos + k) > 1 {
      LineCut(s, pos, k + 1, c);
    }
  }

  lemma SameText(s: string, t: string, a: nat, b: nat)
    requires s <= t && a <= b <= |s|
    ensures t[a..b] == s[a..b]
  {
  }

  lemma {:induction false} ValuesSame(s: string, t: string, heads: seq<Item>)
    requires s <= t && Within(heads, |s|)
    ensures Values(t, heads) == Values(s, heads)
    decreases |heads|
  {
    hide Trim;
    if heads != [] {
      var h := heads[0];
      assert Within(heads[1..], |s|) && h.at + h.size <= |s|;
      SameText(s, t, h.at, h.at + h.size);
      ValuesSame(s, t, heads[1..]);
    }
  }

  lemma EndExtended(s: string, t: string, pos: nat, req: Request, heads: seq<Item>, bodysize: nat)
    requires s <= t && pos <= |s| && Within(heads, pos)
    ensures var v := HeadEnd(s, pos, req, heads, bodysize); v.Done? ==> HeadEnd(t, pos, req, heads, bodysize) == v && v.n <= |s|
  {
    hide Values;
    ValuesSame(s, t, heads);
    if |s| - pos >= bodysize {
      SameText(s, t, pos, pos + bodysize);
    }
  }

  lemma EndCut(s: string, c: nat, pos: nat, req: Request, heads: seq<Item>, bodysize: nat)
    requires pos <= c <= |s| && Within(heads, pos) && HeadEnd(s, pos, req, heads, bodysize).Done?
    ensures var v := HeadEnd(s, pos, req, heads, bodysize); HeadEnd(s[..c], pos, req, heads, bodysize) == if c < v.n then Wait else v
  {
    hide Values;
    ValuesSame(s[..c], s, heads);
    if c - pos >= bodysize {
      SameText(s[..c], s, pos, pos + bodysize);
    }
  }

  // More text does not change a verdict that is not to wait.
  lemma {:induction false} HeadExtended(s: string, t: string, pos: nat, req: Request, heads: seq<Item>, bodysize: nat)
    requires s <= t && pos <= |s| && Within(heads, pos) && EndsAt(heads, pos)
    ensures var v := HeadLines(s, pos, req, heads, bodysize);
            && (v.Done? ==> HeadLines(t, pos, req, heads, bodysize) == v && v.n <= |s|)
            && (v.Bad? ==> HeadLines(t, pos, req, heads, bodysize).Bad?)
    decreases |s| - pos
  {
    hide Trim, HeadItem, STOI, IEq, Values, ScanLine, HeadEnd, AddItem;
    LineExtended(s, t, pos, 0);
    var l := ScanLine(s, pos, 0);
    if l.LGot? {
      SameText(s, t, pos, pos + l.n);
      if IsSpace(s[pos]) {
        if heads != [] {
          HeadExtended(s, t, pos + l.n, req, Continued(heads, l.n), bodysize);
        }
      } else if l.n == 2 {
        EndExtended(s, t, pos + 2, req, heads, bodysize);
      } else {
        ItemSame(s, t, pos, l.n, heads, bodysize);
        var (e, added, size) := AddItem(s, pos, l.n, heads, bodysize);
        if e >= 0 {
          HeadExtended(s, t, pos + l.n, req, added, size);
        }
      }
    }
  }

  lemma ItemSame(s: string, t: string, pos: nat, n: nat, heads: seq<Item>, bodysize: nat)
    requires s <= t && pos + n <= |s| && Within(heads, pos)
    ensures AddItem(t, pos, n, heads, bodysize) == AddItem(s, pos, n, heads, bodysize)
  {
    hide HeadItem, STOI, IEq;
    SameText(s, t, pos, pos + n);
    var i := HeadItem(s[pos..pos + n]);
    if i.Some? {
      SameText(s, t, pos + i.value.1, pos + n);
    }
  }

  // Less text than the package needs means to wait; as much means the package.
  lemma {:induction false} HeadCut(s: string, c: nat, pos: nat, req: Request, heads: seq<Item>, bodysize: nat)
    requires pos <= c <= |s| && Within(heads, pos) && EndsAt(heads, pos) && HeadLines(s, pos, req, heads, bodysize).Done?
    ensures var v := HeadLines(s, pos, req, heads, bodysize);
            HeadLines(s[..c], pos, req, heads, bodysize) == if c < v.n then Wait else v
    decreases |s| - pos
  {
    hide Trim, HeadItem, STOI, IEq, Values, ScanLine, HeadEnd, AddItem;
    var l := ScanLine(s, pos, 0);
    var t := s[..c];
    HeadLonger(s, pos, req, heads, bodysize);
    if c < pos + l.n {
      LineCut(s, pos, 0, c);
    } else {
      LineKept(s, pos, 0, c);
      SameText(t, s, pos, pos + l.n);
      if IsSpace(s[pos]) {
        HeadCut(s, c, pos + l.n, req, Continued(heads, l.n), bodysize);
      } else if l.n == 2 {
        EndCut(s, c, pos + 2, req, heads, bodysize);
      } else {
        ItemSame(t, s, pos, l.n, heads, bodysize);
        var (e, added, size) := AddItem(s, pos, l.n, heads, bodysize);
        HeadCut(s, c, pos + l.n, req, added, size);
      }
    }
  }

  lemma {:induction false} LineKept(s: string, pos: nat, k: nat, c: nat)
    requires pos + k <= c <= |s| && ScanLine(s, pos, k).LGot? && pos + ScanLine(s, pos, k).n <= c
    ensures ScanLine(s[..c], pos, k) == ScanLine(s, pos, k)
    decreases |s| - (pos + k)
  {
    if s[pos + k] != '\r' {
      LineKept(s, pos, k + 1, c);
    }
  }

  // A package ends behind the line that is read next.
  lemma {:induction false} HeadLonger(s: string, pos: nat, req: Request, heads: seq<Item>, bodysize: nat)
    requires pos <= |s| && Within(heads, pos) && EndsAt(heads, pos) && HeadLines(s, pos, req, heads, bodysize).Done?
    ensures ScanLine(s, pos, 0).LGot? && pos + ScanLine(s, pos, 0).n <= HeadLines(s, pos, req, heads, bodysize).n
    decreases |s| - pos
  {
    hide Trim, HeadItem, STOI, IEq, Values, ScanLine;
    var l := ScanLine(s, pos, 0);
    if IsSpace(s[pos]) {
      HeadLonger(s, pos + l.n, req, Continued(heads, l.n), bodysize);
    } else if l.n != 2 {
      var (e, added, size) := AddItem(s, pos, l.n, heads, bodysize);
      HeadLonger(s, pos + l.n, req, added, size);
    }
  }

  /** A package is found again, the same, in every extension and in exactly its own bytes; every shorter
      prefix says wait. */
  lemma PrefixStable(s: string, t: string)
    requires Parse(s).Done? && s <= t
    ensures var v := Parse(s);
            && v.n <= |s| && Parse(t) == v && Parse(s[..v.n]) == v && forall c :: 0 <= c < v.n ==> Parse(s[..c]) == Wait
  {
    hide Trim, ReqLine, HeadLines, ScanLine;
    LineExtended(s, t, 0, 0);
    var l := ScanLine(s, 0, 0);
    SameText(s, t, 0, l.n);
    var req := ReqLine(Trim(s[..l.n])).1;
    HeadExtended(s, t, l.n, req, [], 0);
    HeadLonger(s, l.n, req, [], 0);
    var v := Parse(s);
    forall c | 0 <= c <= v.n ensures Parse(s[..c]) == if c < v.n then Wait else v {
      CutParse(s, c);
    }
  }

  lemma CutParse(s: string, c: nat)
    requires Parse(s).Done? && c <= |s|
    ensures Parse(s[..c]) == if c < Parse(s).n then Wait else Parse(s)
  {
    hide Trim, ReqLine, HeadLines, ScanLine;
    var l := ScanLine(s, 0, 0);
    var req := ReqLine(Trim(s[..l.n])).1;
    HeadLonger(s, l.n, req, [], 0);
    if c < l.n {
      if c > 0 {
        LineCut(s, 0, 0, c);
      }
    } else {
      LineKept(s, 0, 0, c);
      SameText(s[..c], s, 0, l.n);
      HeadCut(s, c, l.n, req, [], 0);
    }
  }

  /** An error stays an error whatever follows. */
  lemma BadStays(s: string, t: string)
    requires Parse(s).Bad? && s <= t
    ensures Parse(t).Bad?
  {
    hide Trim, ReqLine, HeadLines, ScanLine;
    LineExtended(s, t, 0, 0);
    var l := ScanLine(s, 0, 0);
    if l.LGot? {
      SameText(s, t, 0, l.n);
      HeadExtended(s, t, l.n, ReqLine(Trim(s[..l.n])).1, [], 0);
    }
  }

  // ---- messages of a stream ----

  // The messages taken off so far, what is left in the buffer, whether the connection was given up.
  datatype Received = Received(msgs: seq<Package>, rest: string, failed: bool)

  lemma PackageSize(s: string)
    requires Parse(s).Done?
    ensures 0 < Parse(s).n <= |s|
  {
    PrefixStable(s, s);
    assert s[..0] == "";
  }

  // Parse and take off packages until there is none.
  function Split(buf: string): Received
    decreases |buf|
  {
    match Parse(buf)
    case Wait => Received([], buf, false)
    case Bad(_) => Received([], "", true)
    case Done(n, pkg) =>
      PackageSize(buf);
      var r := Split(buf[n..]);
      Received([pkg] + r.msgs, r.rest, r.failed)
  }

  // One more piece of the stream arrives.
  function Feed(r: Received, chunk: string): Received {
    if r.failed then r else
    var q := Split(r.rest + chunk);
    Received(r.msgs + q.msgs, q.rest, q.failed)
  }

  function FeedAll(r: Received, chunks: seq<string>): Received
    decreases |chunks|
  {
    if chunks == [] then r else FeedAll(Feed(r, chunks[0]), chunks[1..])
  }

  function Joined(chunks: seq<string>): string {
    if chunks == [] then "" else chunks[0] + Joined(chunks[1..])
  }

  lemma {:induction false} SplitAppend(a: string, b: string)
    ensures Split(a + b) == Feed(Split(a), b)
    decreases |a|
  {
    hide Parse;
    assert a <= a + b;
    match Parse(a)
    case Wait =>
      assert [] + Split(a + b).msgs == Split(a + b).msgs;
    case Bad(_) =>
      BadStays(a, a + b);
    case Done(n, pkg) =>
      PackageSize(a);
      PrefixStable(a, a + b);
      assert (a + b)[n..] == a[n..] + b;
      SplitAppend(a[n..], b);
      var r := Split(a[n..]);
      assert !r.failed ==> [pkg] + (r.msgs + Split(r.rest + b).msgs) == [pkg] + r.msgs + Split(r.rest + b).msgs;
  }

  lemma {:induction false} FedInPieces(a: string, chunks: seq<string>)
    ensures FeedAll(Split(a), chunks) == Split(a + Joined(chunks))
    decreases |chunks|
  {
    hide Split, Feed;
    if chunks == [] {
      assert a + "" == a;
    } else {
      SplitAppend(a, chunks[0]);
      FedInPieces(a + chunks[0], chunks[1..]);
      assert a + chunks[0] + Joined(chunks[1..]) == a + Joined(chunks);
    }
  }

  /** Pipelined messages come out the same, and a broken stream fails after the same messages, however the
      stream is cut into pieces. */
  lemma CutsDoNotMatter(chunks: seq<string>)
    ensures FeedAll(Received([], "", false), chunks) == Split(Joined(chunks))
  {
    hide Joined;
    assert Split("") == Received([], "", false);
    FedInPieces("", chunks);
    assert "" + Joined(chunks) == Joined(chunks);
  }
}
