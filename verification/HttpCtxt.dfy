/** Classes ctxt and package of ec_http.h: text with a length, consumed from the front, and the loop over
    the head lines, proved to give the verdict and the fields of HttpPackage. */
module HttpCtxt {
  import opened Wrappers
  import opened HttpPackage

  // A stretch of a text: _s and _size.
  class Ctxt {
    var s: nat
    var size: nat

    constructor (at: nat, n: nat)
      ensures s == at && size == n
    {
      s, size := at, n;
    }

    ghost predicate In(text: string)
      reads this
    {
      s + size <= |text|
    }

    ghost function Str(text: string): string
      requires In(text)
      reads this
    {
      text[s..s + size]
    }

    method Trim(text: string)
      requires In(text)
      modifies this
      ensures In(text) && Str(text) == HttpPackage.Trim(old(Str(text)))
    {
      hide TrimmedLeft, TrimmedRight;
      TrimLeft(text);
      TrimRight(text);
    }

    method TrimLeft(text: string)
      requires In(text)
      modifies this
      ensures In(text) && Str(text) == old(Str(text))[TrimmedLeft(old(Str(text)))..]
    {
      ghost var t := Str(text);
      while size > 0
        invariant In(text) && s + size == old(s + size) && old(s) <= s && TrimmedLeft(t) == s - old(s) + TrimmedLeft(Str(text))
        decreases size
      {
        if text[s] != ' ' && text[s] != '\t' {
          break;
        }
        assert Str(text)[1..] == text[s + 1..s + size];
        s := s + 1;
        size := size - 1;
      }
    }

    method TrimRight(text: string)
      requires In(text)
      modifies this
      ensures In(text) && Str(text) == old(Str(text))[..TrimmedRight(old(Str(text)))]
    {
      ghost var t := Str(text);
      while size > 0
        invariant In(text) && s == old(s) && size <= old(size) && TrimmedRight(t) == TrimmedRight(Str(text))
        decreases size
      {
        if !IsSkipped(text[s + size - 1]) {
          break;
        }
        assert Str(text)[..size - 1] == text[s..s + (size - 1)];
        size := size - 1;
      }
    }

    // get2sp: up to a space or the end.
    method Get2Sp(text: string, pout: Ctxt) returns (ok: bool)
      requires In(text) && pout != this
      modifies this, pout
      ensures In(text) && pout.In(text) && ok == (pout.size > 0)
      ensures var t := old(Str(text)); pout.Str(text) == t[..ToSpace(t)] && Str(text) == t[ToSpace(t)..]
    {
      Count2Sp(text, pout);
      ghost var t, n := old(Str(text)), pout.size;
      assert pout.Str(text) == t[..n] && Str(text) == t[n..];
      ok := pout.size > 0;
    }

    method Count2Sp(text: string, pout: Ctxt)
      requires In(text) && pout != this
      modifies this, pout
      ensures s + size == old(s + size) && pout.s == old(s) && pout.size == ToSpace(old(Str(text))) && s == old(s) + pout.size
    {
      ghost var t := Str(text);
      pout.s, pout.size := s, 0;
      while size > 0
        invariant In(text) && pout.s + pout.size == s && pout.s == old(s) && s + size == old(s + size)
        invariant ToSpace(t) == pout.size + ToSpace(Str(text))
        decreases size
      {
        if text[s] == ' ' || text[s] == '\t' {
          return;
        }
        assert Str(text)[1..] == text[s + 1..s + size];
        s := s + 1;
        size := size - 1;
        pout.size := pout.size + 1;
      }
    }

    // get2c: up to the character, which is skipped.
    method Get2C(text: string, pout: Ctxt, c: char) returns (ok: bool)
      requires In(text) && pout != this
      modifies this, pout
      ensures In(text) && pout.In(text) && s + size == old(s + size)
      ensures var t := old(Str(text)); var n := ToChar(t, c);
              && pout.Str(text) == t[..n] && ok == (0 < n < |t|)
              && if n < |t| then s == old(s) + n + 1 && Str(text) == t[n + 1..] else size == 0
    {
      ok := Count2C(text, pout, c);
      ghost var t, n := old(Str(text)), pout.size;
      assert pout.Str(text) == t[..n];
      assert n < |t| ==> Str(text) == t[n + 1..];
    }

    method Count2C(text: string, pout: Ctxt, c: char) returns (ok: bool)
      requires In(text) && pout != this
      modifies this, pout
      ensures s + size == old(s + size) && pout.s == old(s) && pout.size == ToChar(old(Str(text)), c)
      ensures if pout.size < old(size) then s == old(s) + pout.size + 1 && ok == (pout.size > 0) else size == 0 && !ok
    {
      hide ToChar;
      ghost var t := Str(text);
      pout.s, pout.size := s, 0;
      while size > 0
        invariant In(text) && pout.s + pout.size == s && pout.s == old(s) && s + size == old(s + size)
        invariant ToChar(t, c) == pout.size + ToChar(Str(text), c)
        decreases size
      {
        CharStep(text, s, size, c);
        if text[s] == c {
          s := s + 1;
          size := size - 1;
          return pout.size > 0;
        }
        s := s + 1;
        size := size - 1;
        pout.size := pout.size + 1;
      }
      ok := false;
    }

    static lemma CharStep(text: string, s: nat, n: nat, c: char)
      requires 0 < n && s + n <= |text|
      ensures ToChar(text[s..s + n], c) == if text[s] == c then 0 else 1 + ToChar(text[s + 1..s + n], c)
    {
      assert text[s..s + n][1..] == text[s + 1..s + n];
    }

    // skip
    method Skip(text: string)
      requires In(text)
      modifies this
      ensures In(text) && s + size == old(s + size) && s == old(s) + Skipped(old(Str(text)))
      ensures Str(text) == old(Str(text))[Skipped(old(Str(text)))..]
    {
      ghost var t := Str(text);
      while size > 0
        invariant In(text) && s + size == old(s + size) && old(s) <= s
        invariant Skipped(t) == s - old(s) + Skipped(Str(text))
        decreases size
      {
        if text[s] != '\n' && text[s] != ' ' && text[s] != '\t' && text[s] != '\r' {
          break;
        }
        assert Str(text)[1..] == text[s + 1..s + size];
        s := s + 1;
        size := size - 1;
      }
    }

    /** getline: <0 an error, 0 to wait, >0 the size of the line with its end. */
    method GetLine(text: string, pout: Ctxt) returns (n: int)
      requires s + size == |text| && pout != this
      modifies this, pout
      ensures s + size == |text|
      ensures match ScanLine(text, old(s), 0)
              case LWait => n == 0
              case LBad(c) => n == c
              case LGot(k) => n == k && pout.s == old(s) && pout.size == k && s == old(s) + k
    {
      pout.s, pout.size := s, 0;
      while size > 1
        invariant s + size == |text| && pout.s == old(s) && pout.s + pout.size == s
        invariant ScanLine(text, old(s), pout.size) == ScanLine(text, old(s), 0)
        decreases size
      {
        if text[s] == '\r' {
          if text[s + 1] != '\n' {
            return E_HEAD;
          }
          s := s + 2;
          size := size - 2;
          pout.size := pout.size + 2;
          return if pout.size > LINESIZE then E_LINESIZE else pout.size;
        }
        s := s + 1;
        size := size - 1;
        pout.size := pout.size + 1;
      }
      n := if pout.size > LINESIZE then E_LINESIZE else 0;
    }

    // headitem: this is the line; the value is what is left after the colon and the space behind it.
    method HeadItem(text: string, key: Ctxt, val: Ctxt) returns (ok: bool)
      requires In(text) && key != this && val != this && key != val
      modifies this, key, val
      ensures var l := old(Str(text)); var i := HttpPackage.HeadItem(l);
              && ok == i.Some?
              && (ok ==> key.In(text) && key.Str(text) == i.value.0 && val.s == old(s) + i.value.1 && val.s + val.size == old(s + size))
    {
      hide HttpPackage.Trim, Skipped, ToChar;
      ok := Get2C(text, key, ':');
      if !ok {
        return;
      }
      Skip(text);
      val.s, val.size := s, size;
      key.Trim(text);
      ok := key.size != 0 && val.size != 0;
    }
  }

  // The token up to a space, the rest skipped to the next one: a step of req_line::parse.
  method Token(c: Ctxt, text: string) returns (tok: string)
    requires c.In(text)
    modifies c
    ensures c.In(text)
    ensures tok == Word(old(c.Str(text))) && c.Str(text) == After(old(c.Str(text)))
  {
    hide ToSpace, Skipped;
    var p := new Ctxt(0, 0);
    var ok := c.Get2Sp(text, p);
    tok := text[p.s..p.s + p.size];
    c.Skip(text);
  }

  /** req_line::parse on the trimmed start line: <0 an error, else its size. */
  method ParseReqLine(l: string) returns (e: int, req: Request)
    ensures var (code, r) := ReqLine(l); if code < 0 then e == code else e == |l| > 0 && req == r
  {
    hide Word, After, IEq, ToChar;
    req := Request("", "", "");
    if |l| == 0 {
      return E_ERR, req;
    }
    var c := new Ctxt(0, |l|);
    assert c.Str(l) == l;
    var m := Token(c, l);
    if |m| == 0 {
      return E_METHOD, req;
    }
    if IEq(m, "HTTP/1.1") || IEq(m, "HTTP/1.0") {
      var u := Token(c, l);
      if |u| == 0 {
        return E_URL, req;
      }
      var v := new Ctxt(0, 0);
      var ok := c.Get2C(l, v, '\r');
      return |l|, Request(m, u, l[v.s..v.s + v.size]);
    }
    if !IEq(m, "get") && !IEq(m, "head") && !IEq(m, "put") && !IEq(m, "post") {
      return E_METHOD, req;
    }
    var u := Token(c, l);
    if |u| == 0 {
      return E_URL, req;
    }
    var v := Token(c, l);
    if !IEq(v, "http/1.1") && !IEq(v, "http/1.0") {
      if |v| == 0 && (IEq(u, "http/1.1") || IEq(u, "http/1.0")) {
        return E_URL, req;
      }
      return E_VER, req;
    }
    e, req := |l|, Request(m, u, v);
  }

  // ---- package ----

  // The verdicts to wait and of an error are told from a package by the sign.
  lemma {:induction false} LineCode(s: string, pos: nat, k: nat)
    requires pos + k <= |s|
    ensures ScanLine(s, pos, k).LBad? ==> ScanLine(s, pos, k).code < 0
    decreases |s| - (pos + k)
  {
    if |s| - (pos + k) > 1 && s[pos + k] != '\r' {
      LineCode(s, pos, k + 1);
    }
  }

  // The heads read so far and the line that starts at pos: what is left to parse decides the package.
  ghost predicate Reading(text: string, pos: nat, req: Request, heads: seq<Item>, bodysize: nat) {
    && pos <= |text|
    && Within(heads, pos)
    && EndsAt(heads, pos)
    && Parse(text) == HeadLines(text, pos, req, heads, bodysize)
  }

  // What a line of n characters at pos makes of the heads.
  ghost predicate Turned(text: string, pos: nat, n: nat, req: Request, heads: seq<Item>, bodysize: nat)
    requires pos < pos + n <= |text| && Within(heads, pos)
  {
    if IsSpace(text[pos]) then
      if heads == [] then Parse(text) == Bad(E_HEAD) else Reading(text, pos + n, req, Continued(heads, n), bodysize)
    else if n == 2 then Parse(text) == HeadEnd(text, pos + n, req, heads, bodysize)
    else
      var (e, added, size) := AddItem(text, pos, n, heads, bodysize);
      if e < 0 then Parse(text) == Bad(e) else Reading(text, pos + n, req, added, size)
  }

  lemma Turn(text: string, pos: nat, req: Request, heads: seq<Item>, bodysize: nat)
    requires Reading(text, pos, req, heads, bodysize) && ScanLine(text, pos, 0).LGot?
    ensures Turned(text, pos, ScanLine(text, pos, 0).n, req, heads, bodysize)
  {
    hide Parse, ScanLine, HeadEnd, AddItem;
  }

  lemma Stopped(text: string, pos: nat, req: Request, heads: seq<Item>, bodysize: nat)
    requires Reading(text, pos, req, heads, bodysize) && !ScanLine(text, pos, 0).LGot?
    ensures var r := ScanLine(text, pos, 0); Parse(text) == if r.LWait? then Wait else Bad(r.code)
  {
    hide Parse, ScanLine;
  }

  // What getline returned for the line that starts at pos.
  ghost predicate GotLine(text: string, pos: nat, n: int, c: Ctxt, l: Ctxt)
    requires pos <= |text|
    reads c, l
  {
    match ScanLine(text, pos, 0)
    case LWait => n == 0
    case LBad(k) => n == k < 0
    case LGot(k) => n == k && l.s == pos && l.size == k && c.s == pos + k
  }

  method NextLine(text: string, c: Ctxt, l: Ctxt) returns (n: int)
    requires c != l && c.s + c.size == |text|
    modifies c, l
    ensures c.s + c.size == |text| && GotLine(text, old(c.s), n, c, l)
  {
    hide ScanLine;
    LineCode(text, c.s, 0);
    n := c.GetLine(text, l);
  }

  // What package::parse returned for a verdict.
  ghost predicate Returns(n: int, v: Verdict) {
    match v
    case Wait => n == 0
    case Bad(c) => n == c < 0
    case Done(k, _) => n == k > 0
  }

  // Every value trimmed, as a stretch of the text.
  ghost predicate TrimmedTo(text: string, was: seq<Item>, now: seq<Item>, upTo: nat) {
    && |was| == |now|
    && Within(was, |text|)
    && Within(now, |text|)
    && (forall i :: 0 <= i < |was| && i < upTo ==> TrimmedItem(text, was[i], now[i]))
    && (forall i :: upTo <= i < |was| ==> now[i] == was[i])
  }

  ghost predicate TrimmedItem(text: string, was: Item, now: Item)
    requires was.at + was.size <= |text| && now.at + now.size <= |text|
  {
    now.key == was.key && text[now.at..now.at + now.size] == HttpPackage.Trim(text[was.at..was.at + was.size])
  }

  // The items with their values read out of the text.
  ghost function ReadOut(text: string, heads: seq<Item>): (r: seq<(string, string)>)
    requires Within(heads, |text|)
    ensures |r| == |heads|
  {
    seq(|heads|, i requires 0 <= i < |heads| => (heads[i].key, text[heads[i].at..heads[i].at + heads[i].size]))
  }

  lemma {:induction false} ValuesReadOut(text: string, was: seq<Item>, now: seq<Item>)
    requires TrimmedTo(text, was, now, |was|)
    ensures ReadOut(text, now) == Values(text, was)
    decreases |was|
  {
    hide HttpPackage.Trim;
    if was != [] {
      assert TrimmedItem(text, was[0], now[0]);
      assert Within(was[1..], |text|) && Within(now[1..], |text|);
      forall i | 0 <= i < |was| - 1
        ensures TrimmedItem(text, was[1..][i], now[1..][i])
      {
        assert TrimmedItem(text, was[i + 1], now[i + 1]);
      }
      ValuesReadOut(text, was[1..], now[1..]);
      assert ReadOut(text, now) == [ReadOut(text, now)[0]] + ReadOut(text, now[1..]);
    }
  }

  lemma TrimmedWithin(text: string, was: seq<Item>, now: seq<Item>)
    requires TrimmedTo(text, was, now, |was|)
    ensures Within(was, |text|) && Within(now, |text|) && |now| == |was|
  {
  }

  class Package {
    var req: Request
    var heads: seq<Item>
    var bodyAt: nat
    var bodySize: nat

    constructor ()
    {
      req, heads, bodyAt, bodySize := NOREQ, [], 0, 0;
    }

    ghost predicate In(text: string)
      reads this
    {
      Within(heads, |text|) && bodyAt + bodySize <= |text|
    }

    ghost function View(text: string): HttpPackage.Package
      requires In(text)
      reads this
    {
      HttpPackage.Package(req, ReadOut(text, heads), text[bodyAt..bodyAt + bodySize])
    }

    method Clear()
      modifies this
      ensures heads == [] && bodySize == 0
    {
      req, heads, bodyAt, bodySize := NOREQ, [], 0, 0;
    }

    // The values of the head items are trimmed in place.
    method TrimValues(text: string)
      requires Within(heads, |text|)
      modifies this`heads
      ensures |heads| == |old(heads)| && TrimmedTo(text, old(heads), heads, |heads|)
    {
      hide HttpPackage.Trim;
      var i := 0;
      var v := new Ctxt(0, 0);
      while i < |heads|
        invariant 0 <= i <= |heads| && TrimmedTo(text, old(heads), heads, i)
      {
        v.s, v.size := heads[i].at, heads[i].size;
        v.Trim(text);
        heads := heads[i := heads[i].(at := v.s, size := v.size)];
        assert TrimmedItem(text, old(heads)[i], heads[i]);
        i := i + 1;
      }
    }

    // The end of the head lines.
    method Ended(text: string, at: nat) returns (n: int)
      requires 0 < at <= |text| && Within(heads, at)
      modifies this
      ensures var v := HeadEnd(text, at, old(req), old(heads), old(bodySize));
              Returns(n, v) && (v.Done? ==> In(text) && View(text) == v.pkg)
    {
      hide Values, ReadOut, TrimmedTo;
      if |text| - at >= bodySize {
        bodyAt := at;
        ghost var was := heads;
        TrimValues(text);
        ghost var now := heads;
        TrimmedWithin(text, was, now);
        ValuesReadOut(text, was, now);
        return bodyAt + bodySize;
      }
      n := 0;
    }

    // A head item.
    method AddHead(text: string, l: Ctxt, ghost at: nat) returns (e: int)
      requires l.s == at && l.In(text) && Within(heads, at)
      modifies this, l
      ensures req == old(req)
      ensures var r := AddItem(text, at, old(l.size), old(heads), old(bodySize));
              if r.0 < 0 then e == r.0 else e == 0 && heads == r.1 && bodySize == r.2
    {
      hide HttpPackage.HeadItem, STOI, IEq;
      var key := new Ctxt(0, 0);
      var val := new Ctxt(0, 0);
      ghost var k := l.size;
      assert l.Str(text) == text[at..at + k];
      var ok := l.HeadItem(text, key, val);
      if !ok {
        return E_HEAD;
      }
      if |heads| == MAXHEADS {
        return E_HEAD;
      }
      var name := text[key.s..key.s + key.size];
      heads := heads + [Item(name, val.s, val.size)];
      if IEq(name, "Content-Length") {
        var len := STOI(text[val.s..val.s + val.size]);
        if len < 0 || len > MAXBODY {
          return E_BODYSIZE;
        }
        bodySize := len;
      }
      e := 0;
    }

    // The loop over the head lines.
    method HeadLoop(text: string, c: Ctxt, l: Ctxt) returns (n: int)
      requires c != l && c.s + c.size == |text| && c.s > 0
      requires Reading(text, c.s, req, heads, bodySize)
      modifies this, c, l
      ensures var v := HttpPackage.Parse(text);
              Returns(n, v) && (v.Done? ==> In(text) && View(text) == v.pkg)
    {
      hide HttpPackage.Parse, ScanLine, HeadLines, HeadEnd, AddItem;
      ghost var pos := c.s;
      n := NextLine(text, c, l);
      while n > 0
        invariant c.s + c.size == |text|
        invariant 0 < pos && Reading(text, pos, req, heads, bodySize)
        invariant GotLine(text, pos, n, c, l)
        decreases |text| - pos
      {
        Turn(text, pos, req, heads, bodySize);
        ghost var next := pos + n;
        if text[l.s] == ' ' || text[l.s] == '\t' {
          if |heads| == 0 {
            return E_HEAD;
          }
          heads := Continued(heads, l.size);
        } else if l.size == 2 {
          n := Ended(text, c.s);
          return;
        } else {
          var e := AddHead(text, l, pos);
          if e < 0 {
            return e;
          }
        }
        pos := next;
        n := NextLine(text, c, l);
      }
      Stopped(text, pos, req, heads, bodySize);
    }

    /** package::parse: <0 an error, 0 to wait, else the size of the package, whose fields are then set. */
    method Parse(text: string) returns (n: int)
      modifies this
      ensures var v := HttpPackage.Parse(text);
              Returns(n, v) && (v.Done? ==> In(text) && View(text) == v.pkg)
    {
      hide HttpPackage.Trim, ReqLine, ScanLine, HeadLines;
      Clear();
      if |text| == 0 {
        return 0;
      }
      var c := new Ctxt(0, |text|);
      var l := new Ctxt(0, 0);
      LineCode(text, 0, 0);
      n := c.GetLine(text, l);
      if n <= 0 {
        return;
      }
      assert l.Str(text) == text[..n];
      l.Trim(text);
      var e, r := ParseReqLine(text[l.s..l.s + l.size]);
      if e <= 0 {
        return e;
      }
      req := r;
      n := HeadLoop(text, c, l);
    }
  }
}
