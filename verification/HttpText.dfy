/** Messages as text: what package::parse of ec_http.h makes of a message written out, and of a pipeline of
    such messages cut anywhere. */
module HttpText {
  import opened Wrappers
  import opened HttpPackage

  // ---- messages written out ----

  predicate NoReturn(s: string) { forall i :: 0 <= i < |s| ==> s[i] != '\r' }

  predicate NoBlank(s: string) { forall i :: 0 <= i < |s| ==> !IsSpace(s[i]) }

  // Neither end is a character that trimming or skipping takes off.
  predicate Tight(s: string) { s != "" && !IsSkipped(s[0]) && !IsSkipped(s[|s| - 1]) }

  function StartLine(r: Request): string { r.verb + " " + r.url + (if r.ver == "" then "" else " " + r.ver) }

  predicate IsVersion(s: string) { IEq(s, "HTTP/1.1") || IEq(s, "HTTP/1.0") }

  predicate IsVerb(s: string) { IEq(s, "get") || IEq(s, "head") || IEq(s, "put") || IEq(s, "post") }

  // A response has a version, a code and any status text; a request one of four verbs, an address and a version.
  predicate GoodStart(r: Request) {
    && Tight(r.verb) && Tight(r.url) && NoBlank(r.verb) && NoBlank(r.url) && (r.ver == "" || Tight(r.ver))
    && NoReturn(StartLine(r)) && |StartLine(r)| + 2 <= LINESIZE
    && (IsVersion(r.verb) || (IsVerb(r.verb) && NoBlank(r.ver) && (IEq(r.ver, "http/1.1") || IEq(r.ver, "http/1.0"))))
  }

  function HeadLine(h: (string, string)): string { h.0 + ": " + h.1 + "\r\n" }

  predicate GoodHead(h: (string, string)) {
    && Tight(h.0) && ToChar(h.0, ':') == |h.0| && NoReturn(h.0)
    && Tight(h.1) && NoReturn(h.1)
    && |HeadLine(h)| <= LINESIZE
    && (IEq(h.0, "Content-Length") ==> 0 <= STOI(h.1 + "\r\n") <= MAXBODY)
  }

  function HeadText(heads: seq<(string, string)>): string {
    if heads == [] then "" else HeadLine(heads[0]) + HeadText(heads[1..])
  }

  function HeadSize(h: (string, string), size: nat): nat
    requires GoodHead(h)
  {
    if IEq(h.0, "Content-Length") then STOI(h.1 + "\r\n") else size
  }

  // The body size after these head lines.
  function BodySize(heads: seq<(string, string)>, size: nat): nat
    requires forall i :: 0 <= i < |heads| ==> GoodHead(heads[i])
  {
    if heads == [] then size else BodySize(heads[1..], HeadSize(heads[0], size))
  }

  // The body is as long as the last Content-Length says, and empty without one.
  predicate Good(p: Package) {
    && GoodStart(p.req) && |p.heads| <= MAXHEADS
    && (forall i :: 0 <= i < |p.heads| ==> GoodHead(p.heads[i]))
    && BodySize(p.heads, 0) == |p.body|
  }

  function Text(p: Package): string {
    StartLine(p.req) + "\r\n" + HeadText(p.heads) + "\r\n" + p.body
  }

  // ---- lines ----

  // A line of the text is read with its end.
  lemma {:induction false} LineRead(s: string, pos: nat, k: nat, l: string)
    requires pos + k <= |s| && k <= |l| && NoReturn(l) && |l| + 2 <= LINESIZE
    requires pos + |l| + 2 <= |s| && s[pos..pos + |l| + 2] == l + "\r\n"
    ensures ScanLine(s, pos, k) == LGot(|l| + 2)
    decreases |l| - k
  {
    var t := l + "\r\n";
    assert s[pos + k] == t[k] && s[pos + k + 1] == t[k + 1];
    if k < |l| {
      LineRead(s, pos, k + 1, l);
    }
  }

  lemma TrimLine(l: string)
    requires l != "" && !IsSpace(l[0]) && !IsSkipped(l[|l| - 1])
    ensures Trim(l + "\r\n") == l
  {
    var t := l + "\r\n";
    assert t[0] == l[0] && t[0..] == t;
    assert t[..|l| + 1] == l + "\r" && (l + "\r")[..|l|] == l;
    assert TrimmedRight(l) == |l|;
    assert TrimmedRight(l + "\r") == TrimmedRight(l);
    assert TrimmedRight(t) == TrimmedRight(l + "\r");
  }

  lemma TrimTight(l: string)
    requires l != "" && !IsSpace(l[0]) && !IsSkipped(l[|l| - 1])
    ensures Trim(l) == l
  {
  }

  // ---- the start line ----

  lemma {:induction false} WordEnds(a: string, rest: string)
    requires NoBlank(a) && (rest == "" || IsSpace(rest[0]))
    ensures ToSpace(a + rest) == |a|
    decreases |a|
  {
    if a == "" {
      assert a + rest == rest;
    } else {
      assert (a + rest)[1..] == a[1..] + rest;
      WordEnds(a[1..], rest);
    }
  }

  // The first word, and the text behind it.
  lemma WordRead(a: string, b: string)
    requires NoBlank(a) && (b == "" || !IsSkipped(b[0]))
    ensures Word(a + " " + b) == a && After(a + " " + b) == b
    ensures Word(a) == a && After(a) == ""
  {
    var t := a + " " + b;
    assert t == a + (" " + b) && a + "" == a;
    WordEnds(a, " " + b);
    WordEnds(a, "");
    assert t[|a|..] == " " + b && (" " + b)[1..] == b;
    assert Skipped(" " + b) == 1 + Skipped(b);
    assert a[|a|..] == "";
  }

  lemma {:induction false} NoReturnWhole(s: string)
    requires NoReturn(s)
    ensures ToChar(s, '\r') == |s|
    decreases |s|
  {
    if s != "" {
      NoReturnWhole(s[1..]);
    }
  }

  // No word is both a version and a verb.
  lemma VersionIsNoVerb(s: string)
    ensures IsVersion(s) ==> !IsVerb(s)
  {
    assert |"HTTP/1.1"| == 8 && |"HTTP/1.0"| == 8 && |"get"| == 3 && |"head"| == 4 && |"put"| == 3 && |"post"| == 4;
  }

  lemma StartRead(r: Request)
    requires GoodStart(r)
    ensures ReqLine(StartLine(r)) == (0, r)
  {
    hide Word, After, IEq, ToChar;
    var tail := if r.ver == "" then r.url else r.url + " " + r.ver;
    assert StartLine(r) == r.verb + " " + tail;
    assert tail[0] == r.url[0];
    WordRead(r.verb, tail);
    WordRead(r.url, r.ver);
    if !IsVersion(r.verb) {
      WordRead(r.ver, "");
    }
    VersionIsNoVerb(r.verb);
    assert NoReturn(r.ver) by {
      assert r.ver != "" ==> StartLine(r)[|r.verb| + |r.url| + 2..] == r.ver;
    }
    NoReturnWhole(r.ver);
    assert r.ver[..|r.ver|] == r.ver;
  }

  lemma StartEnds(r: Request)
    requires GoodStart(r)
    ensures var l := StartLine(r); l != "" && !IsSpace(l[0]) && !IsSkipped(l[|l| - 1])
  {
    var l := StartLine(r);
    assert l[0] == r.verb[0];
    if r.ver == "" {
      assert l == r.verb + " " + r.url;
    }
  }

  // ---- a head line ----

  lemma {:induction false} KeyEnds(k: string, rest: string)
    requires ToChar(k, ':') == |k|
    ensures ToChar(k + (":" + rest), ':') == |k|
    decreases |k|
  {
    var t := k + (":" + rest);
    if k == "" {
      assert t[0] == ':';
    } else {
      assert t[1..] == k[1..] + (":" + rest);
      KeyEnds(k[1..], rest);
    }
  }

  lemma HeadRead(h: (string, string))
    requires GoodHead(h)
    ensures HeadItem(HeadLine(h)) == Some((h.0, |h.0| + 2))
  {
    hide STOI, IEq;
    var (k, v) := h;
    var l, tail := HeadLine(h), " " + v + "\r\n";
    assert l == k + (":" + tail);
    KeyEnds(k, tail);
    assert l[|k| + 1..] == tail && tail[1..] == v + "\r\n" && (v + "\r\n")[0] == v[0];
    assert Skipped(v + "\r\n") == 0;
    assert Skipped(tail) == 1 + Skipped(tail[1..]);
    assert l[..|k|] == k;
    TrimTight(k);
  }

  lemma {:induction false} ValuesAppend(s: string, a: seq<Item>, h: Item)
    requires Within(a + [h], |s|)
    ensures Within(a, |s|) && h.at + h.size <= |s|
    ensures Values(s, a + [h]) == Values(s, a) + [(h.key, Trim(s[h.at..h.at + h.size]))]
    decreases |a|
  {
    hide Trim;
    assert (a + [h])[|a|] == h && forall i :: 0 <= i < |a| ==> (a + [h])[i] == a[i];
    if a == [] {
      assert a + [h] == [h];
    } else {
      assert (a + [h])[1..] == a[1..] + [h];
      assert Within(a[1..] + [h], |s|) by {
        assert forall i :: 0 <= i < |a| ==> (a[1..] + [h])[i] == (a + [h])[i + 1];
      }
      ValuesAppend(s, a[1..], h);
    }
  }

  // A head line in the text is a line, and is added with its value.
  lemma HeadScanned(s: string, pos: nat, h: (string, string))
    requires GoodHead(h) && pos + |HeadLine(h)| <= |s| && s[pos..pos + |HeadLine(h)|] == HeadLine(h)
    ensures ScanLine(s, pos, 0) == LGot(|HeadLine(h)|) && |HeadLine(h)| > 2 && !IsSpace(s[pos])
  {
    hide STOI, IEq, ScanLine, ToChar;
    var l := HeadLine(h);
    assert s[pos] == l[0] == h.0[0];
    HeadIsLine(h);
    LineRead(s, pos, 0, h.0 + ": " + h.1);
  }

  lemma HeadAdded(s: string, pos: nat, h: (string, string), items: seq<Item>, size: nat)
    requires GoodHead(h) && pos + |HeadLine(h)| <= |s| && s[pos..pos + |HeadLine(h)|] == HeadLine(h)
    requires Within(items, pos) && |items| < MAXHEADS
    ensures AddItem(s, pos, |HeadLine(h)|, items, size) == (0, items + [ItemOf(pos, h)], HeadSize(h, size))
  {
    hide STOI, IEq, HeadItem, ToChar, NoReturn, Tight;
    var l, n := HeadLine(h), |HeadLine(h)|;
    HeadRead(h);
    var at := pos + |h.0| + 2;
    assert s[at..pos + n] == l[|h.0| + 2..] == h.1 + "\r\n";
  }

  function ItemOf(pos: nat, h: (string, string)): Item { Item(h.0, pos + |h.0| + 2, |h.1| + 2) }

  lemma ValueAt(s: string, pos: nat, h: (string, string))
    requires pos + |HeadLine(h)| <= |s| && s[pos..pos + |HeadLine(h)|] == HeadLine(h)
    ensures var i := ItemOf(pos, h); s[i.at..i.at + i.size] == h.1 + "\r\n"
  {
    var l, i := HeadLine(h), ItemOf(pos, h);
    assert s[i.at..i.at + i.size] == l[|h.0| + 2..];
  }

  lemma HeadValue(s: string, pos: nat, h: (string, string), items: seq<Item>)
    requires GoodHead(h) && pos + |HeadLine(h)| <= |s| && s[pos..pos + |HeadLine(h)|] == HeadLine(h)
    requires Within(items, pos)
    ensures var added := items + [ItemOf(pos, h)];
            Within(added, pos + |HeadLine(h)|) && EndsAt(added, pos + |HeadLine(h)|) && Values(s, added) == Values(s, items) + [h]
  {
    hide STOI, IEq, Trim, ToChar, Values, NoReturn;
    var i := ItemOf(pos, h);
    ValueAt(s, pos, h);
    TrimLine(h.1);
    ValuesAppend(s, items, i);
  }

  lemma HeadIsLine(h: (string, string))
    requires GoodHead(h)
    ensures NoReturn(h.0 + ": " + h.1)
  {
    hide STOI, IEq, ToChar;
    var l := h.0 + ": " + h.1;
    forall i | 0 <= i < |l| ensures l[i] != '\r' {
      if i >= |h.0| + 2 {
        assert l[i] == h.1[i - |h.0| - 2];
      }
    }
  }

  // ---- a whole message ----

  lemma {:induction false} HeadsRead(s: string, pos: nat, req: Request, items: seq<Item>, size: nat, heads: seq<(string, string)>, body: string)
    requires pos <= |s| && Within(items, pos) && EndsAt(items, pos) && |items| + |heads| <= MAXHEADS
    requires (forall i :: 0 <= i < |heads| ==> GoodHead(heads[i])) && BodySize(heads, size) == |body|
    requires s[pos..] == HeadText(heads) + "\r\n" + body
    ensures HeadLines(s, pos, req, items, size) == Done(|s|, Package(req, Values(s, items) + heads, body))
    decreases |heads|
  {
    hide GoodHead, Values, AddItem, ScanLine, STOI, IEq, HeadLine, HeadSize, HeadLines, ItemOf;
    if heads == [] {
      EndRead(s, pos, req, items, size, body);
      assert Values(s, items) + [] == Values(s, items);
    } else {
      var h, n := heads[0], |HeadLine(heads[0])|;
      var t := s[pos..];
      assert t[..n] == HeadLine(h) == s[pos..pos + n];
      assert t[n..] == HeadText(heads[1..]) + "\r\n" + body == s[pos + n..];
      HeadTurn(s, pos, req, items, size, h);
      HeadValue(s, pos, h, items);
      HeadsRead(s, pos + n, req, items + [ItemOf(pos, h)], HeadSize(h, size), heads[1..], body);
      assert Values(s, items) + [h] + heads[1..] == Values(s, items) + heads;
    }
  }

  // The line that ends the head.
  lemma EndRead(s: string, pos: nat, req: Request, items: seq<Item>, size: nat, body: string)
    requires pos <= |s| && Within(items, pos) && EndsAt(items, pos) && size == |body| && s[pos..] == "" + "\r\n" + body
    ensures HeadLines(s, pos, req, items, size) == Done(|s|, Package(req, Values(s, items), body))
  {
    hide Values, ScanLine;
    var t := s[pos..];
    assert s[pos..pos + 2] == t[..2] == "" + "\r\n";
    LineRead(s, pos, 0, "");
    assert s[pos] == t[0] == '\r';
    assert s[pos + 2..] == t[2..] == body;
    assert s[pos + 2..pos + 2 + size] == s[pos + 2..];
  }

  // One head line further.
  lemma HeadTurn(s: string, pos: nat, req: Request, items: seq<Item>, size: nat, h: (string, string))
    requires GoodHead(h) && pos + |HeadLine(h)| <= |s| && s[pos..pos + |HeadLine(h)|] == HeadLine(h)
    requires Within(items, pos) && EndsAt(items, pos) && |items| < MAXHEADS
    ensures var added, next := items + [ItemOf(pos, h)], pos + |HeadLine(h)|;
            Within(added, next) && EndsAt(added, next) && HeadLines(s, pos, req, items, size) == HeadLines(s, next, req, added, HeadSize(h, size))
  {
    hide GoodHead, AddItem, ScanLine, HeadLine, HeadSize, Values;
    HeadScanned(s, pos, h);
    HeadAdded(s, pos, h, items, size);
    HeadValue(s, pos, h, items);
  }

  /** A message written out is parsed to itself, whatever follows it. */
  lemma TextParsed(p: Package, rest: string)
    requires Good(p)
    ensures Parse(Text(p) + rest) == Done(|Text(p)|, p)
  {
    hide Parse, Good, Text;
    TextRead(p);
    PrefixStable(Text(p), Text(p) + rest);
  }

  lemma TextRead(p: Package)
    requires Good(p)
    ensures Parse(Text(p)) == Done(|Text(p)|, p)
  {
    hide GoodStart, GoodHead, HeadLines, ScanLine, ReqLine, Trim, STOI, IEq, StartLine;
    var s, l := Text(p), StartLine(p.req);
    assert s[..|l| + 2] == l + "\r\n" == s[0..0 + |l| + 2];
    assert s[|l| + 2..] == HeadText(p.heads) + "\r\n" + p.body;
    StartIsLine(p.req);
    LineRead(s, 0, 0, l);
    StartEnds(p.req);
    TrimLine(l);
    StartRead(p.req);
    HeadsRead(s, |l| + 2, p.req, [], 0, p.heads, p.body);
    assert [] + p.heads == p.heads;
  }

  lemma StartIsLine(r: Request)
    requires GoodStart(r)
    ensures NoReturn(StartLine(r)) && |StartLine(r)| + 2 <= LINESIZE
  {
  }

  function Pipeline(ps: seq<Package>): string {
    if ps == [] then "" else Text(ps[0]) + Pipeline(ps[1..])
  }

  lemma {:induction false} PipelineSplit(ps: seq<Package>)
    requires forall i :: 0 <= i < |ps| ==> Good(ps[i])
    ensures Split(Pipeline(ps)) == Received(ps, "", false)
    decreases |ps|
  {
    hide Good, Parse, Text;
    if ps == [] {
      assert Parse("") == Wait by {
        NothingParsed();
      }
    } else {
      TextParsed(ps[0], Pipeline(ps[1..]));
      PipelineSplit(ps[1..]);
      var s := Pipeline(ps);
      assert s[|Text(ps[0])|..] == Pipeline(ps[1..]);
      assert [ps[0]] + ps[1..] == ps;
    }
  }

  lemma NothingParsed()
    ensures Parse("") == Wait
  {
  }

  /** Messages sent one after the other and received in any pieces are exactly those messages. */
  lemma PipelineReceived(ps: seq<Package>, chunks: seq<string>)
    requires (forall i :: 0 <= i < |ps| ==> Good(ps[i])) && Joined(chunks) == Pipeline(ps)
    ensures FeedAll(Received([], "", false), chunks) == Received(ps, "", false)
  {
    hide Good, Pipeline, Joined, FeedAll, Split;
    CutsDoNotMatter(chunks);
    PipelineSplit(ps);
  }

  // ---- body sizes in decimal ----

  function Decimal(n: nat): (s: string)
    ensures s != "" && forall i :: 0 <= i < |s| ==> '0' <= s[i] <= '9'
  {
    (if n < 10 then "" else Decimal(n / 10)) + [('0' as int + n % 10) as char]
  }

  lemma {:induction false} DigitsAppend(s: string, c: char, rest: string, acc: nat)
    requires (forall i :: 0 <= i < |s| ==> '0' <= s[i] <= '9') && '0' <= c <= '9' && (rest == "" || !('0' <= rest[0] <= '9'))
    ensures Digits(s + [c] + rest, acc) == 10 * Digits(s, acc) + (c as nat - '0' as nat)
    decreases |s|
  {
    var t := s + [c] + rest;
    if s == "" {
      assert t[0] == c && t[1..] == rest;
      assert Digits(rest, 10 * acc + (c as nat - '0' as nat)) == 10 * acc + (c as nat - '0' as nat);
    } else {
      assert t[1..] == s[1..] + [c] + rest;
      DigitsAppend(s[1..], c, rest, 10 * acc + (s[0] as nat - '0' as nat));
    }
  }

  lemma {:induction false} DecimalReads(n: nat, rest: string)
    requires rest == "" || !('0' <= rest[0] <= '9')
    ensures Digits(Decimal(n) + rest, 0) == n
    decreases n
  {
    var c := ('0' as int + n % 10) as char;
    if n < 10 {
      DigitsAppend("", c, rest, 0);
      assert Decimal(n) + rest == "" + [c] + rest;
    } else {
      DecimalReads(n / 10, "");
      var s := Decimal(n / 10);
      assert s + "" == s;
      DigitsAppend(s, c, rest, 0);
    }
  }

  lemma {:induction false} DecimalLength(n: nat, k: nat)
    requires 0 < k && n < Power(k)
    ensures |Decimal(n)| <= k
    decreases k
  {
    if n >= 10 {
      DecimalLength(n / 10, k - 1);
    }
  }

  function Power(k: nat): nat { if k == 0 then 1 else 10 * Power(k - 1) }

  /** A body size in decimal digits is read as that size. */
  lemma SizeReads(n: nat)
    requires n <= MAXBODY
    ensures STOI(Decimal(n) + "\r\n") == n
  {
    hide Digits, Decimal, Int32;
    var s := Decimal(n) + "\r\n";
    assert Power(7) == 10_000_000;
    DecimalLength(n, 7);
    assert s[0] == Decimal(n)[0];
    assert Blanks(s) == 0 && s[0..] == s;
    DecimalReads(n, "\r\n");
    SmallInt(n);
  }

  lemma SmallInt(n: nat)
    requires n <= MAXBODY
    ensures Int32(n) == n
  {
  }

  // ---- what is refused ----

  predicate AllSkipped(s: string) { forall i :: 0 <= i < |s| ==> IsSkipped(s[i]) }

  lemma {:induction false} SkippedAll(s: string)
    ensures Skipped(s) == |s| <==> AllSkipped(s)
    decreases |s|
  {
    if s != "" && IsSkipped(s[0]) {
      SkippedAll(s[1..]);
      assert forall i :: 1 <= i < |s| ==> s[i] == s[1..][i - 1];
    }
  }

  /** A line is a head item if and only if it has a colon, a key other than blanks before the first one, and a
      value other than blanks behind it: an empty value, which section 3.2 of RFC 7230 allows, is refused. */
  lemma HeadItemExactly(l: string)
    ensures var c := ToChar(l, ':'); HeadItem(l).Some? <==> c < |l| && Trim(l[..c]) != "" && !AllSkipped(l[c + 1..])
  {
    hide ToChar, Trim;
    var c := ToChar(l, ':');
    if c < |l| {
      SkippedAll(l[c + 1..]);
      if c == 0 {
        TrimNothing();
      }
    }
  }

  lemma TrimNothing()
    ensures Trim("") == ""
  {
  }

  /** The same of a key without a colon and what follows the colon. */
  lemma EmptyRefused(k: string, v: string)
    requires ToChar(k, ':') == |k|
    ensures HeadItem(k) == None
    ensures HeadItem(k + ":" + v).Some? <==> Trim(k) != "" && !AllSkipped(v)
  {
    hide ToChar, Trim, HeadItem, AllSkipped;
    var l := k + ":" + v;
    assert l == k + (":" + v);
    KeyEnds(k, v);
    HeadItemExactly(k);
    HeadItemExactly(l);
    KeyAndValue(k, v);
  }

  // For instance a head with nothing behind its colon.
  lemma EmptyHead()
    ensures HeadItem("Host" + ":" + " ") == None
  {
    hide HeadItem;
    assert ToChar("Host", ':') == 4 by { assert "Host"[1..] == "ost" && "ost"[1..] == "st" && "st"[1..] == "t" && "t"[1..] == ""; }
    EmptyRefused("Host", " ");
  }

  lemma KeyAndValue(k: string, v: string)
    ensures var l := k + ":" + v; l[..|k|] == k && l[|k| + 1..] == v && |k| < |l|
  {
    var l := k + ":" + v;
    assert l[|k| + 1..] == v;
  }
}
