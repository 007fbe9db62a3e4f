/** record_file of ec_recfile.h: pages allocated by a bitmap that is kept on disk too, and framed records
    on the pages, as a map from positions to contents. Reads and writes of the file succeed. */
module RecordFiles {
  import opened Bytes
  import opened Wrappers
  import opened RecordTable

  const MINRECS := 1024
  const MAXRECS := 1024 * 1024 * 16
  const MINBLKSIZE := 256
  const MAXBLKSIZE := 1024 * 16
  const RECHEAD := 8

  const ERR_PARAM := 7
  const ERR_PHTABLE := 8
  const ERR_RECFULL := 9

  // The table on disk is the one in memory, and every page before the hint is used.
  ghost predicate TableOk(head: seq<byte>, t: seq<byte>, hint: nat, disk: seq<byte>) {
    hint <= 8 * |t| && Mirror(head, t, disk) && AllUsed(t, hint)
  }

  // The used pages are those with a record, and each holds its record.
  ghost predicate RecsOk(t: seq<byte>, sizeblk: nat, disk: seq<byte>, recs: map<nat, seq<byte>>) {
    && (forall p: nat :: p in recs <==> Used(t, p))
    && forall p :: p in recs ==> OnPage(disk, |t|, sizeblk, p, recs[p])
  }

  // Every record but that of page p is on its page.
  ghost predicate OthersOn(n: nat, s: nat, disk: seq<byte>, recs: map<nat, seq<byte>>, p: nat) {
    forall q :: q in recs && q != p ==> OnPage(disk, n, s, q, recs[q])
  }

  // A byte of the table is written: no record is touched.
  lemma TableWriteKeeps(n: nat, s: nat, disk: seq<byte>, recs: map<nat, seq<byte>>, i: nat, u: byte)
    requires i < n && forall q :: q in recs ==> OnPage(disk, n, s, q, recs[q])
    ensures forall q :: q in recs ==> OnPage(WrittenTo(disk, HEADSIZE + i, [u]), n, s, q, recs[q])
  {
    hide OnPage, WrittenTo;
    forall q | q in recs ensures OnPage(WrittenTo(disk, HEADSIZE + i, [u]), n, s, q, recs[q]) {
      PageKept(disk, n, s, q, recs[q], HEADSIZE + i, [u]);
    }
  }

  // Page p is written, within its block: the other records stay.
  lemma OthersStay(n: nat, s: nat, disk: seq<byte>, recs: map<nat, seq<byte>>, p: nat, d: seq<byte>)
    requires |d| <= s && OthersOn(n, s, disk, recs, p)
    ensures OthersOn(n, s, WrittenTo(disk, PageAt(n, s, p), d), recs, p)
  {
    hide OnPage, WrittenTo, PageAt;
    forall q | q in recs && q != p ensures OnPage(WrittenTo(disk, PageAt(n, s, p), d), n, s, q, recs[q]) {
      if q < p {
        PagesApart(n, s, q, p);
      } else {
        PagesApart(n, s, p, q);
      }
      PageKept(disk, n, s, q, recs[q], PageAt(n, s, p), d);
    }
  }

  // A page taken and its record written.
  lemma Added(t: seq<byte>, s: nat, disk0: seq<byte>, recs: map<nat, seq<byte>>, p: nat, c: seq<byte>, disk: seq<byte>)
    requires p / 8 < |t| && RecsOk(t, s, disk0, recs) && OthersOn(|t|, s, disk, recs, p) && OnPage(disk, |t|, s, p, c)
    ensures RecsOk(Taken(t, p), s, disk, recs[p := c])
  {
    hide Used, Taken, OnPage;
    forall q: nat ensures q in recs[p := c] <==> Used(Taken(t, p), q) {
      TakenUsed(t, p, q);
    }
  }

  lemma Removed(t: seq<byte>, s: nat, disk: seq<byte>, recs: map<nat, seq<byte>>, p: nat)
    requires p / 8 < |t| && (forall q: nat :: q in recs <==> Used(t, q)) && forall q :: q in recs ==> OnPage(disk, |t|, s, q, recs[q])
    ensures RecsOk(Given(t, p), s, disk, recs - {p})
  {
    hide Used, Given, OnPage;
    forall q: nat ensures q in recs - {p} <==> Used(Given(t, p), q) {
      GivenUsed(t, p, q);
    }
  }

  // out lists the records before position n, in the order of the positions.
  ghost predicate Listed(out: seq<(seq<byte>, nat)>, recs: map<nat, seq<byte>>, n: nat) {
    && (forall k :: 0 <= k < |out| ==> out[k].1 in recs && out[k].1 < n && out[k].0 == recs[out[k].1])
    && (forall j, k :: 0 <= j < k < |out| ==> out[j].1 < out[k].1)
    && (forall p :: p in recs && p < n ==> exists k :: 0 <= k < |out| && out[k].1 == p)
  }

  lemma ListedNext(out: seq<(seq<byte>, nat)>, recs: map<nat, seq<byte>>, n: nat)
    requires Listed(out, recs, n)
    ensures Listed(if n in recs then out + [(recs[n], n)] else out, recs, n + 1)
  {
    if n in recs {
      var next := out + [(recs[n], n)];
      forall k | 0 <= k < |next| ensures next[k].1 in recs && next[k].1 < n + 1 && next[k].0 == recs[next[k].1] {
        assert k < |out| ==> next[k] == out[k];
      }
      forall j, k | 0 <= j < k < |next| ensures next[j].1 < next[k].1 {
        assert next[j] == out[j] && (k < |out| ==> next[k] == out[k]);
      }
      assert next[|out|].1 == n;
      forall p | p in recs && p < n ensures exists k :: 0 <= k < |next| && next[k].1 == p {
        var k :| 0 <= k < |out| && out[k].1 == p;
        assert next[k].1 == p;
      }
    }
  }

  lemma {:induction false} ListedSkip(out: seq<(seq<byte>, nat)>, recs: map<nat, seq<byte>>, n: nat, m: nat)
    requires Listed(out, recs, n) && n <= m && forall p :: n <= p < m ==> p !in recs
    ensures Listed(out, recs, m)
  {
  }

  function Length(lo: byte, hi: byte): nat { hi as nat * 256 + lo as nat }

  predicate Checked(lo: byte, hi: byte, check: byte) { check == lo ^ hi }

  // The header of a framed record gives back its length.
  lemma FrameReads(b: seq<byte>, c: seq<byte>)
    requires Framed(b, c)
    ensures |b| >= 8 && Length(b[4], b[5]) == |c| && Checked(b[4], b[5], b[7]) && b[8..8 + |c|] == c
  {
    hide Lo, Length;
    LengthReads(|c|);
  }

  lemma LengthReads(n: nat)
    requires n < 0x1_0000
    ensures Length(Lo(n), Lo(n / 256)) == n
  {
    hide Lo;
    TwoBytes(n);
  }

  // A file that holds these records.
  ghost predicate Stored(file: seq<byte>, mr: nat, sb: nat, app: seq<byte>, crc: seq<byte> -> bv32, rs: map<nat, seq<byte>>) {
    var n := SizePageTable(mr);
    && |app| == 64 && MINRECS <= mr <= MAXRECS && MINBLKSIZE <= sb <= MAXBLKSIZE && HEADSIZE + n <= |file|
    && file[..HEADSIZE] == Head(mr, sb, app, crc) && RecsOk(file[HEADSIZE..HEADSIZE + n], sb, file, rs)
  }

  class RecordFile {
    var maxrecs: nat
    var sizeblk: nat
    var pgtab: array<byte>
    var nextpgpos: nat
    var filesize: nat
    const tmpblk: array<byte>
    var errcode: int
    var disk: seq<byte>                      // the bytes of the file
    ghost var head: seq<byte>                // its head
    ghost var recs: map<nat, seq<byte>>      // the records that live in it

    ghost predicate Shape()
      reads this`maxrecs, this`sizeblk, this`pgtab, this`nextpgpos, this`filesize, this`disk, this`head, pgtab
    {
      && tmpblk.Length == MAXBLKSIZE && pgtab != tmpblk
      && RECHEAD < sizeblk <= MAXBLKSIZE && pgtab.Length == SizePageTable(maxrecs)
      && filesize == |disk| && TableOk(head, pgtab[..], nextpgpos, disk)
    }

    ghost predicate Valid()
      reads this`maxrecs, this`sizeblk, this`pgtab, this`nextpgpos, this`filesize, this`disk, this`head, this`recs, pgtab
    {
      Shape() && RecsOk(pgtab[..], sizeblk, disk, recs)
    }

    // One byte of the table, on disk and in memory.
    method PutTable(i: nat, u: byte)
      requires i < pgtab.Length && Mirror(head, pgtab[..], disk)
      modifies this`disk, pgtab
      ensures pgtab[..] == old(pgtab[..])[i := u] && disk == WrittenTo(old(disk), HEADSIZE + i, [u]) && |disk| == |old(disk)|
      ensures Mirror(head, pgtab[..], disk)
    {
      hide WrittenTo, Mirror;
      TableWritten(head, disk, pgtab[..], i, u);
      disk := WrittenTo(disk, HEADSIZE + i, [u]);
      pgtab[i] := u;
    }

    // The inner loop of alloc_page: the first free page of a byte of the table that is not full.
    method FirstFree(i: nat) returns (j: nat)
      requires i < pgtab.Length && pgtab[i] != 0xFF
      ensures j < 8 && !Bit(pgtab[i], j) && forall k :: 0 <= k < j ==> Bit(pgtab[i], k)
    {
      FullByte(pgtab[i]);
      j := 0;
      while j < 8
        invariant j <= 8 && forall k :: 0 <= k < j ==> Bit(pgtab[i], k)
      {
        if Mask(j) & pgtab[i] == 0 {
          return;
        }
        j := j + 1;
      }
      assert false;
    }

    /** alloc_page: the lowest free page, or an error when there is none. */
    method AllocPage() returns (pos: Option<nat>)
      requires Shape()
      modifies this`nextpgpos, this`errcode, this`disk, pgtab
      ensures Shape() && |disk| == |old(disk)|
      ensures pos.None? ==> unchanged(`nextpgpos) && unchanged(`disk) && unchanged(pgtab) && errcode == ERR_RECFULL
      ensures pos.None? ==> AllUsed(pgtab[..], 8 * pgtab.Length)
      ensures pos.Some? ==> pos.value / 8 < pgtab.Length && !Used(old(pgtab[..]), pos.value) && errcode == 0
      ensures pos.Some? ==> AllUsed(old(pgtab[..]), pos.value)
      ensures pos.Some? ==> pgtab[..] == Taken(old(pgtab[..]), pos.value)
      ensures pos.Some? ==> disk == WrittenTo(old(disk), HEADSIZE + pos.value / 8, [pgtab[pos.value / 8]])
    {
      hide Used, Mask, Bit, WrittenTo, SizePageTable, Mirror, AllUsed;
      HintFloor(nextpgpos);
      ghost var t := pgtab[..];
      errcode := 0;
      var i, umaxpg := nextpgpos / 8, SizePageTable(maxrecs);
      while i < umaxpg
        invariant i <= umaxpg && Shape() && unchanged(`nextpgpos) && unchanged(`disk) && unchanged(pgtab) && errcode == 0
        invariant AllUsed(t, 8 * i)
      {
        if pgtab[i] != 0xFF {
          var j := FirstFree(i);
          ghost var p := 8 * i + j;
          LowestFree(t, i, j);
          HintTaken(t, p);
          PutTable(i, pgtab[i] | Mask(j));
          assert pgtab[..] == Taken(t, p);
          nextpgpos := i * 8 + j + 1;
          return Some(i * 8 + j);
        }
        FullAfter(t, i);
        i := i + 1;
      }
      assert pgtab[..] == t;
      errcode := ERR_RECFULL;
      return None;
    }

    lemma HintFloor(hint: nat)
      requires AllUsed(pgtab[..], hint) && hint <= 8 * pgtab.Length
      ensures AllUsed(pgtab[..], 8 * (hint / 8)) && hint / 8 <= pgtab.Length
    {
    }

    // A used page is given back; the hint moves down to it.
    method Unset(upos: nat, u: byte)
      requires Shape() && upos / 8 < pgtab.Length && pgtab[..][upos / 8 := u] == Given(pgtab[..], upos)
      modifies this`nextpgpos, this`disk, pgtab
      ensures Shape() && pgtab[..] == Given(old(pgtab[..]), upos) && |disk| == |old(disk)|
      ensures disk == WrittenTo(old(disk), HEADSIZE + upos / 8, [pgtab[upos / 8]])
    {
      hide WrittenTo, SizePageTable, Mirror, AllUsed, Given;
      HintGiven(pgtab[..], upos, nextpgpos);
      PutTable(upos / 8, u);
      if nextpgpos > upos {
        nextpgpos := upos;
      }
    }

    lemma UsedTest(t: seq<byte>, p: nat)
      ensures Used(t, p) <==> p / 8 < |t| && t[p / 8] & Mask(p % 8) != 0
    {
      hide Mask;
      assert p / 8 < |t| ==> t[p / 8] & Mask(p % 8) == Mask(p % 8) & t[p / 8];
    }

    // free_page.
    method FreePage(upos: nat) returns (ok: bool)
      requires Shape()
      modifies this`nextpgpos, this`errcode, this`disk, pgtab
      ensures Shape() && |disk| == |old(disk)| && errcode == 0 && ok
      ensures if Used(old(pgtab[..]), upos)
              then pgtab[..] == Given(old(pgtab[..]), upos) && disk == WrittenTo(old(disk), HEADSIZE + upos / 8, [pgtab[upos / 8]])
              else pgtab[..] == old(pgtab[..]) && disk == old(disk)
    {
      hide Mask, WrittenTo, SizePageTable, Used, Bit, TableOk;
      UsedTest(pgtab[..], upos);
      errcode := 0;
      var ub, ui := upos / 8, upos % 8;
      if ub >= SizePageTable(maxrecs) {
        return true;
      }
      var u := pgtab[ub];
      if u & Mask(ui) != 0 {
        Unset(upos, u & (0xFF ^ Mask(ui)));
      }
      return true;
    }

    /** delete_record: the record at the position is gone, if there was one. */
    method DeleteRecord(upos: nat) returns (ok: bool)
      requires Valid()
      modifies this`nextpgpos, this`errcode, this`disk, this`recs, pgtab
      ensures Valid() && ok && recs == old(recs) - {upos}
    {
      hide Shape, RecsOk, Used, WrittenTo, Given;
      ghost var t, file := pgtab[..], disk;
      ok := FreePage(upos);
      DeleteKeeps(t, file, upos, if upos / 8 < |pgtab[..]| then pgtab[upos / 8] else 0);
      recs := recs - {upos};
    }

    lemma DeleteKeeps(t: seq<byte>, file: seq<byte>, upos: nat, u: byte)
      requires RecsOk(t, sizeblk, file, recs)
      ensures if Used(t, upos)
              then upos / 8 < |t| && RecsOk(Given(t, upos), sizeblk, WrittenTo(file, HEADSIZE + upos / 8, [u]), recs - {upos})
              else recs - {upos} == recs
    {
      hide OnPage, WrittenTo, Given;
      if Used(t, upos) {
        TableWriteKeeps(|t|, sizeblk, file, recs, upos / 8, u);
        Removed(t, sizeblk, WrittenTo(file, HEADSIZE + upos / 8, [u]), recs, upos);
      } else {
        assert upos !in recs;
      }
    }

    // The header and the content in the block buffer.
    method FrameRecord(prec: seq<byte>)
      requires tmpblk.Length == MAXBLKSIZE && |prec| + RECHEAD <= MAXBLKSIZE
      modifies tmpblk
      ensures forall n :: RECHEAD + |prec| <= n <= MAXBLKSIZE ==> Framed(tmpblk[..n], prec)
    {
      hide Lo, Framed;
      forall i | 0 <= i < RECHEAD {
        tmpblk[i] := 0;
      }
      tmpblk[4] := Lo(|prec|);
      tmpblk[5] := Lo(|prec| / 256);
      tmpblk[7] := tmpblk[4] ^ tmpblk[5];
      forall i | 0 <= i < |prec| {
        tmpblk[RECHEAD + i] := prec[i];
      }
      forall n | RECHEAD + |prec| <= n <= MAXBLKSIZE ensures Framed(tmpblk[..n], prec) {
        FramedBy(tmpblk[..n], prec);
      }
    }

    lemma FramedBy(b: seq<byte>, c: seq<byte>)
      requires RECHEAD + |c| <= |b| && |c| < 0x1_0000
      requires b[4] == Lo(|c|) && b[5] == Lo(|c| / 256) && b[7] == b[4] ^ b[5] && forall i :: 0 <= i < |c| ==> b[RECHEAD + i] == c[i]
      ensures Framed(b, c)
    {
      hide Lo;
      assert forall i :: 0 <= i < |c| ==> b[8..8 + |c|][i] == c[i];
    }

    // The second half of write_record: the framed record onto page upos, as a whole block past the end.
    method PutRecord(prec: seq<byte>, upos: nat)
      requires Shape() && |prec| + RECHEAD <= sizeblk && OthersOn(pgtab.Length, sizeblk, disk, recs, upos)
      modifies this`errcode, this`filesize, this`disk, tmpblk
      ensures Shape() && OthersOn(pgtab.Length, sizeblk, disk, recs, upos) && OnPage(disk, pgtab.Length, sizeblk, upos, prec)
      ensures errcode == 0 && pgtab[..] == old(pgtab[..])
    {
      hide OnPage, WrittenTo, Framed, AllUsed, OthersOn;
      FrameRecord(prec);
      var lpos := PageAt(SizePageTable(maxrecs), sizeblk, upos);
      var nsize := if lpos + sizeblk > filesize then sizeblk else |prec| + RECHEAD;
      ghost var file := disk;
      OthersStay(pgtab.Length, sizeblk, file, recs, upos, tmpblk[..nsize]);
      PageWritten(file, pgtab.Length, sizeblk, upos, prec, tmpblk[..nsize]);
      disk := WrittenTo(disk, lpos, tmpblk[..nsize]);
      MirrorKept(head, pgtab[..], file, lpos, tmpblk[..nsize]);
      if lpos + sizeblk > filesize {
        filesize := lpos + sizeblk;
      }
      errcode := 0;
    }

    // After alloc_page: the records are still on their pages.
    lemma AllocKeeps(t: seq<byte>, file: seq<byte>, p: nat, u: byte)
      requires RecsOk(t, sizeblk, file, recs) && p / 8 < |t|
      ensures OthersOn(|t|, sizeblk, WrittenTo(file, HEADSIZE + p / 8, [u]), recs, p)
    {
      hide OnPage, WrittenTo;
      TableWriteKeeps(|t|, sizeblk, file, recs, p / 8, u);
    }

    /** write_record without a position: the record goes to the lowest free page. */
    method AddRecord(prec: seq<byte>) returns (pos: Option<nat>)
      requires Valid()
      modifies this`nextpgpos, this`errcode, this`filesize, this`disk, this`recs, pgtab, tmpblk
      ensures Valid()
      ensures pos.None? <==> |prec| + RECHEAD > sizeblk || AllUsed(old(pgtab[..]), 8 * old(pgtab.Length))
      ensures pos.None? ==> recs == old(recs) && errcode == if |prec| + RECHEAD > sizeblk then ERR_PARAM else ERR_RECFULL
      ensures pos.Some? ==> pos.value !in old(recs) && (forall q :: 0 <= q < pos.value ==> q in old(recs))
      ensures pos.Some? ==> recs == old(recs)[pos.value := prec] && errcode == 0
    {
      if |prec| + RECHEAD > sizeblk {
        errcode := ERR_PARAM;
        return None;
      }
      hide *;
      TableParts();
      ghost var t, file := pgtab[..], disk;
      pos := AllocPage();
      if pos.None? {
        TableWhole();
        return;
      }
      var upos := pos.value;
      SomeFree(t, upos);
      LowestInRecs(t, file, upos);
      PutNew(prec, upos, t, file);
    }

    // The record onto its new page; t and file were table and disk before the page was taken.
    method PutNew(prec: seq<byte>, upos: nat, ghost t: seq<byte>, ghost file: seq<byte>)
      requires Shape() && RecsOk(t, sizeblk, file, recs) && |prec| + RECHEAD <= sizeblk
      requires upos / 8 < |t| && pgtab[..] == Taken(t, upos) && disk == WrittenTo(file, HEADSIZE + upos / 8, [pgtab[upos / 8]])
      modifies this`errcode, this`filesize, this`disk, this`recs, tmpblk
      ensures Valid() && recs == old(recs)[upos := prec] && errcode == 0
    {
      hide *;
      AllocKeeps(t, file, upos, pgtab[upos / 8]);
      PutRecord(prec, upos);
      Added(t, sizeblk, file, recs, upos, prec, disk);
      recs := recs[upos := prec];
      TableWhole();
    }

    lemma SomeFree(t: seq<byte>, p: nat)
      requires !Used(t, p) && p / 8 < |t|
      ensures !AllUsed(t, 8 * |t|)
    {
    }

    lemma TableParts()
      requires Valid()
      ensures Shape() && RecsOk(pgtab[..], sizeblk, disk, recs)
    {
    }

    lemma TableWhole()
      requires Shape() && RecsOk(pgtab[..], sizeblk, disk, recs)
      ensures Valid()
    {
    }

    lemma LowestInRecs(t: seq<byte>, file: seq<byte>, p: nat)
      requires RecsOk(t, sizeblk, file, recs) && !Used(t, p) && AllUsed(t, p)
      ensures p !in recs && forall q :: 0 <= q < p ==> q in recs
    {
    }

    // A record written onto a page without touching the table.
    method WriteAt(prec: seq<byte>, upos: nat)
      requires Valid() && |prec| + RECHEAD <= sizeblk
      modifies this`errcode, this`filesize, this`disk, this`recs, tmpblk
      ensures Valid() && errcode == 0
      ensures recs == if upos in old(recs) then old(recs)[upos := prec] else old(recs)
    {
      hide *;
      TableParts();
      ghost var file := disk;
      AllOthersOn(upos);
      PutRecord(prec, upos);
      Replaced(pgtab[..], sizeblk, file, recs, upos, prec, disk);
      recs := if upos in recs then recs[upos := prec] else recs;
      TableWhole();
    }

    lemma AllOthersOn(p: nat)
      requires Valid()
      ensures OthersOn(pgtab.Length, sizeblk, disk, recs, p)
    {
    }

    lemma Replaced(t: seq<byte>, s: nat, disk0: seq<byte>, rs: map<nat, seq<byte>>, p: nat, c: seq<byte>, file: seq<byte>)
      requires RecsOk(t, s, disk0, rs) && OthersOn(|t|, s, file, rs, p) && OnPage(file, |t|, s, p, c)
      ensures RecsOk(t, s, file, if p in rs then rs[p := c] else rs)
    {
      hide Used, OnPage;
    }

    /** write_record: to the lowest free page without a position, else over the record at the position; a
        position without a record stays without one. */
    method WriteRecord(prec: seq<byte>, pos: Option<nat>) returns (r: Option<nat>)
      requires Valid()
      modifies this`nextpgpos, this`errcode, this`filesize, this`disk, this`recs, pgtab, tmpblk
      ensures Valid()
      ensures r.None? ==> recs == old(recs) && errcode != 0
      ensures |prec| + RECHEAD > sizeblk ==> r.None?
      ensures pos.Some? && |prec| + RECHEAD <= sizeblk ==> r == pos && errcode == 0
      ensures pos.Some? && r.Some? ==> r == pos && recs == if pos.value in old(recs) then old(recs)[pos.value := prec] else old(recs)
      ensures pos.None? && r.Some? ==> r.value !in old(recs) && recs == old(recs)[r.value := prec] && forall q :: 0 <= q < r.value ==> q in old(recs)
    {
      hide Valid, AllUsed;
      if pos.None? {
        r := AddRecord(prec);
      } else if |prec| + RECHEAD > sizeblk {
        errcode := ERR_PARAM;
        r := None;
      } else {
        WriteAt(prec, pos.value);
        r := pos;
      }
    }

    // One page of load_records.
    method ReadRecord(p: nat) returns (ok: bool, c: seq<byte>)
      requires Valid() && Used(pgtab[..], p)
      modifies tmpblk
      ensures ok && p in recs && c == recs[p]
    {
      hide *;
      PageFramed(p);
      ReadFrom(PageAt(SizePageTable(maxrecs), sizeblk, p));
      ok, c := Unframe(recs[p]);
    }

    method ReadFrom(at: nat)
      requires at + sizeblk <= |disk| && sizeblk <= tmpblk.Length
      modifies tmpblk
      ensures tmpblk[..sizeblk] == disk[at..at + sizeblk]
    {
      forall i | 0 <= i < sizeblk {
        tmpblk[i] := disk[at + i];
      }
    }

    // The content of the block buffer by its header.
    method Unframe(ghost rec: seq<byte>) returns (ok: bool, c: seq<byte>)
      requires 8 + |rec| <= sizeblk <= tmpblk.Length && Framed(tmpblk[..sizeblk], rec)
      ensures ok && c == rec
    {
      hide Framed, Length, Checked;
      ghost var b := tmpblk[..sizeblk];
      FrameReads(b, rec);
      assert tmpblk[4] == b[4] && tmpblk[5] == b[5] && tmpblk[7] == b[7];
      var ulen := Length(tmpblk[4], tmpblk[5]);
      if ulen > sizeblk || !Checked(tmpblk[4], tmpblk[5], tmpblk[7]) {
        return false, [];
      }
      assert tmpblk[8..8 + ulen] == b[8..8 + ulen];
      ok, c := true, tmpblk[8..8 + ulen];
    }

    lemma PageFramed(p: nat)
      requires Valid() && Used(pgtab[..], p)
      ensures var at := PageAt(SizePageTable(maxrecs), sizeblk, p);
              && at + sizeblk <= |disk| && p in recs && 8 + |recs[p]| <= sizeblk <= tmpblk.Length && Framed(disk[at..at + sizeblk], recs[p])
    {
      hide Framed, PageAt, Used;
      assert p in recs;
      assert OnPage(disk, pgtab.Length, sizeblk, p, recs[p]);
      FrameFits(disk[PageAt(pgtab.Length, sizeblk, p)..PageAt(pgtab.Length, sizeblk, p) + sizeblk], recs[p]);
    }

    lemma FrameFits(b: seq<byte>, c: seq<byte>)
      requires Framed(b, c)
      ensures 8 + |c| <= |b|
    {
    }

    // The records of the pages of one byte of the table.
    method LoadByte(i: nat, out0: seq<(seq<byte>, nat)>) returns (ok: bool, out: seq<(seq<byte>, nat)>)
      requires Valid() && i < pgtab.Length && Listed(out0, recs, 8 * i)
      modifies tmpblk
      ensures ok && Valid() && Listed(out, recs, 8 * (i + 1))
    {
      hide Listed, Valid;
      out := out0;
      var j := 0;
      while j < 8
        invariant j <= 8 && Valid() && Listed(out, recs, 8 * i + j)
      {
        UsedMeans(i, j);
        ListedNext(out, recs, 8 * i + j);
        if Mask(j) & pgtab[i] != 0 {
          var c;
          ok, c := ReadRecord(8 * i + j);
          if !ok {
            return;
          }
          out := out + [(c, 8 * i + j)];
        }
        j := j + 1;
      }
      ok := true;
    }

    lemma UsedMeans(i: nat, j: nat)
      requires Valid() && i < pgtab.Length && j < 8
      ensures Mask(j) & pgtab[i] != 0 <==> Used(pgtab[..], 8 * i + j)
      ensures Used(pgtab[..], 8 * i + j) <==> 8 * i + j in recs
      ensures pgtab !in {tmpblk}
    {
      UsedAt(pgtab[..], i, j);
    }

    /** load_records: exactly the records, each once, with its position and the content last written there. */
    method LoadRecords() returns (ok: bool, out: seq<(seq<byte>, nat)>)
      requires Valid()
      modifies this`errcode, tmpblk
      ensures ok && Valid() && errcode == 0
      ensures forall k :: 0 <= k < |out| ==> out[k].1 in recs && out[k].0 == recs[out[k].1]
      ensures forall j, k :: 0 <= j < k < |out| ==> out[j].1 < out[k].1
      ensures forall p :: p in recs ==> exists k :: 0 <= k < |out| && out[k].1 == p
    {
      hide Valid;
      out := [];
      var urecs := SizePageTable(maxrecs);
      TableLength();
      var i := 0;
      while i < urecs
        invariant i <= urecs == pgtab.Length && Valid() && Listed(out, recs, 8 * i)
      {
        if pgtab[i] == 0 {
          NothingIn(i);
          ListedSkip(out, recs, 8 * i, 8 * (i + 1));
        } else {
          ok, out := LoadByte(i, out);
          if !ok {
            return;
          }
        }
        i := i + 1;
      }
      InTable();
      errcode := 0;
      ok := true;
    }

    lemma TableLength()
      requires Valid()
      ensures pgtab.Length == SizePageTable(maxrecs) && pgtab != tmpblk
    {
    }

    lemma InTable()
      requires Valid()
      ensures forall p :: p in recs ==> p < 8 * pgtab.Length
    {
    }

    lemma NothingIn(i: nat)
      requires Valid() && i < pgtab.Length && pgtab[i] == 0
      ensures forall p :: 8 * i <= p < 8 * (i + 1) ==> p !in recs
    {
      hide Shape, Bit, OnPage;
      forall p | 8 * i <= p < 8 * (i + 1) ensures p !in recs {
        ZeroByte(p % 8);
        assert p / 8 == i;
        assert !Used(pgtab[..], p);
      }
    }

    constructor ()
      ensures fresh(pgtab) && fresh(tmpblk) && tmpblk.Length == MAXBLKSIZE
    {
      maxrecs, sizeblk, nextpgpos, filesize, errcode := 1024 * 1024, 1024, 0, 0, 0;
      pgtab := new byte[0];
      tmpblk := new byte[MAXBLKSIZE];
      disk, head, recs := [], [], map[];
    }

    /** create_file: an empty store, when the sizes are in range. */
    method CreateFile(records: nat, blksize: nat, app: seq<byte>, crc: seq<byte> -> bv32) returns (ok: bool)
      requires tmpblk.Length == MAXBLKSIZE && |app| == 64
      modifies this
      ensures ok <==> MINBLKSIZE <= blksize <= MAXBLKSIZE && MINRECS <= records <= MAXRECS
      ensures ok ==> Valid() && recs == map[] && maxrecs == records && sizeblk == blksize && head == Head(records, blksize, app, crc)
      ensures ok ==> fresh(pgtab)
      ensures !ok ==> errcode == ERR_PARAM
    {
      hide Head, SizePageTable, Used, RecsOk;
      if blksize < MINBLKSIZE || blksize > MAXBLKSIZE || records < MINRECS || records > MAXRECS {
        errcode := ERR_PARAM;
        return false;
      }
      maxrecs, sizeblk, nextpgpos := records, blksize, 0;
      pgtab := new byte[SizePageTable(maxrecs)](i => 0);
      var h := Head(records, blksize, app, crc);
      head := h;
      disk := h + pgtab[..];
      filesize := |disk|;
      recs := map[];
      errcode := 0;
      NoneUsed(pgtab[..], sizeblk, disk);
      InFront(h, pgtab[..], disk);
      ok := true;
    }

    // A head and a table, one behind the other.
    lemma InFront(h: seq<byte>, t: seq<byte>, file: seq<byte>)
      requires |h| == HEADSIZE && file == h + t
      ensures TableOk(h, t, 0, file)
    {
    }

    lemma NoneUsed(t: seq<byte>, s: nat, file: seq<byte>)
      requires forall i :: 0 <= i < |t| ==> t[i] == 0
      ensures RecsOk(t, s, file, map[])
    {
      hide Bit;
      forall p: nat ensures !Used(t, p) {
        if p / 8 < |t| {
          ZeroByte(p % 8);
        }
      }
    }

    // The scan of open_file: the hint is the first free page, or the end of the table.
    method ScanTable() returns (hint: nat)
      ensures hint <= 8 * pgtab.Length && AllUsed(pgtab[..], hint)
      ensures hint < 8 * pgtab.Length ==> !Used(pgtab[..], hint)
    {
      hide Used, AllUsed, Mask, Bit;
      NoPages(pgtab[..]);
      var i := 0;
      while i < pgtab.Length
        invariant i <= pgtab.Length && AllUsed(pgtab[..], 8 * i)
      {
        if pgtab[i] != 0xFF {
          var j := FirstFree(i);
          LowestFree(pgtab[..], i, j);
          return 8 * i + j;
        }
        FullAfter(pgtab[..], i);
        i := i + 1;
      }
      hint := 8 * pgtab.Length;
    }

    lemma NoPages(t: seq<byte>)
      ensures AllUsed(t, 0)
    {
    }

    // The table read from the file.
    method ReadTable(file: seq<byte>, urecs: nat)
      requires HEADSIZE + urecs <= |file|
      modifies this`pgtab
      ensures fresh(pgtab) && pgtab[..] == file[HEADSIZE..HEADSIZE + urecs]
    {
      pgtab := new byte[urecs];
      forall i | 0 <= i < urecs {
        pgtab[i] := file[HEADSIZE + i];
      }
    }

    /** open_file, with mr, sb, app and rs whatever the file may hold: it opens exactly when its head is in
        order and its table complete, and then the store is the one that was closed; a store with another
        application flag than the one wanted is refused. */
    method OpenFile(file: seq<byte>, crc: seq<byte> -> bv32, want: Option<seq<byte>>,
        ghost mr: nat, ghost sb: nat, ghost app: seq<byte>, ghost rs: map<nat, seq<byte>>)
      returns (ok: bool)
      requires tmpblk.Length == MAXBLKSIZE
      modifies this
      ensures ok <==> ReadHead(file, crc, want).Opened? && HEADSIZE + SizePageTable(ReadHead(file, crc, want).maxrecs) <= |file|
      ensures Stored(file, mr, sb, app, crc, rs) && FlagWanted(want, app) ==>
                ok && Valid() && recs == rs && maxrecs == mr && sizeblk == sb && disk == file
      ensures Stored(file, mr, sb, app, crc, rs) && !FlagWanted(want, app) ==> !ok && errcode == ERR_APPFLAG
      ensures ok ==> fresh(pgtab) && head == file[..HEADSIZE]
    {
      hide Stored, ReadHead, FlagWanted, SizePageTable, AllUsed, Used;
      StoredHead(file, mr, sb, app, crc, rs, want);
      var h := ReadHead(file, crc, want);
      if h.Failed? {
        errcode := h.code;
        return false;
      }
      maxrecs, sizeblk := h.maxrecs, h.sizeblk;
      var urecs := SizePageTable(maxrecs);
      if HEADSIZE + urecs > |file| {
        errcode := ERR_PHTABLE;
        return false;
      }
      ReadTable(file, urecs);
      nextpgpos := ScanTable();
      disk, head, recs := file, file[..HEADSIZE], rs;
      filesize := |file|;
      errcode := 0;
      if Stored(file, mr, sb, app, crc, rs) && FlagWanted(want, app) {
        StoredValid(mr, sb, app, crc);
      }
      ok := true;
    }

    lemma StoredHead(file: seq<byte>, mr: nat, sb: nat, app: seq<byte>, crc: seq<byte> -> bv32, rs: map<nat, seq<byte>>, want: Option<seq<byte>>)
      ensures Stored(file, mr, sb, app, crc, rs) ==>
                && ReadHead(file, crc, want) == (if FlagWanted(want, app) then Opened(mr, sb) else Failed(ERR_APPFLAG))
                && HEADSIZE + SizePageTable(mr) <= |file|
    {
      hide RecsOk, ReadHead, Head, FlagWanted, SizePageTable;
      if Stored(file, mr, sb, app, crc, rs) {
        Pow256Of4();
        HeadReads(file, mr, sb, app, crc, want);
      }
    }

    lemma Pow256Of4()
      ensures Pow256(4) == 0x1_0000_0000
    {
      assert Pow256(2) == 0x1_0000;
    }

    lemma StoredValid(mr: nat, sb: nat, app: seq<byte>, crc: seq<byte> -> bv32)
      requires Stored(disk, mr, sb, app, crc, recs) && maxrecs == mr && sizeblk == sb && filesize == |disk| && tmpblk.Length == MAXBLKSIZE
      requires head == disk[..HEADSIZE] && pgtab[..] == disk[HEADSIZE..HEADSIZE + SizePageTable(mr)] && pgtab != tmpblk
      requires nextpgpos <= 8 * pgtab.Length && AllUsed(pgtab[..], nextpgpos)
      ensures Valid()
    {
      hide RecsOk, Head, AllUsed, SizePageTable;
    }

    /** What is on disk is always the store: opening it again, at any time, gives the same records. */
    lemma OnDisk(app: seq<byte>, crc: seq<byte> -> bv32)
      requires Valid() && |app| == 64 && MINRECS <= maxrecs <= MAXRECS && MINBLKSIZE <= sizeblk && head == Head(maxrecs, sizeblk, app, crc)
      ensures Stored(disk, maxrecs, sizeblk, app, crc, recs)
    {
    }
  }
}
