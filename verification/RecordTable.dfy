/** The page table of ec_recfile.h as bits, and reading and writing a file of bytes. */
module RecordTable {
  import opened Bytes
  import opened Wrappers

  // 0x01 << j
  function Mask(j: nat): byte
    requires j < 8
  {
    if j == 0 then 1 else if j == 1 then 2 else if j == 2 then 4 else if j == 3 then 8
    else if j == 4 then 16 else if j == 5 then 32 else if j == 6 then 64 else 128
  }

  predicate Bit(b: byte, j: nat)
    requires j < 8
  {
    Mask(j) & b != 0
  }

  lemma SetBit(b: byte, j: nat, k: nat)
    requires j < 8 && k < 8
    ensures Bit(b | Mask(j), k) <==> k == j || Bit(b, k)
  {
  }

  lemma ClearBit(b: byte, j: nat, k: nat)
    requires j < 8 && k < 8
    ensures Bit(b & (0xFF ^ Mask(j)), k) <==> k != j && Bit(b, k)
  {
  }

  lemma FullByte(b: byte)
    ensures b == 0xFF <==> forall k :: 0 <= k < 8 ==> Bit(b, k)
  {
    if b != 0xFF {
      assert !(Bit(b, 0) && Bit(b, 1) && Bit(b, 2) && Bit(b, 3) && Bit(b, 4) && Bit(b, 5) && Bit(b, 6) && Bit(b, 7));
    }
  }

  lemma ZeroByte(k: nat)
    requires k < 8
    ensures !Bit(0, k)
  {
  }

  predicate Used(t: seq<byte>, p: nat) {
    p / 8 < |t| && Bit(t[p / 8], p % 8)
  }

  // Every page before n is used.
  ghost predicate AllUsed(t: seq<byte>, n: nat) {
    forall p :: 0 <= p < n ==> Used(t, p)
  }

  // The table with page p taken, and given back.
  function Taken(t: seq<byte>, p: nat): (r: seq<byte>)
    requires p / 8 < |t|
    ensures |r| == |t|
  {
    t[p / 8 := t[p / 8] | Mask(p % 8)]
  }

  function Given(t: seq<byte>, p: nat): (r: seq<byte>)
    requires p / 8 < |t|
    ensures |r| == |t|
  {
    t[p / 8 := t[p / 8] & (0xFF ^ Mask(p % 8))]
  }

  lemma TakenUsed(t: seq<byte>, p: nat, q: nat)
    requires p / 8 < |t|
    ensures Used(Taken(t, p), q) <==> q == p || Used(t, q)
  {
    hide Mask, Bit;
    if q / 8 == p / 8 {
      SetBit(t[p / 8], p % 8, q % 8);
    }
  }

  lemma GivenUsed(t: seq<byte>, p: nat, q: nat)
    requires p / 8 < |t|
    ensures Used(Given(t, p), q) <==> q != p && Used(t, q)
  {
    hide Mask, Bit;
    if q / 8 == p / 8 {
      ClearBit(t[p / 8], p % 8, q % 8);
    }
  }

  lemma UsedAt(t: seq<byte>, i: nat, j: nat)
    requires i < |t| && j < 8
    ensures Used(t, 8 * i + j) <==> Mask(j) & t[i] != 0
  {
  }

  // A full byte of the table after pages that are all used.
  lemma FullAfter(t: seq<byte>, i: nat)
    requires i < |t| && t[i] == 0xFF && AllUsed(t, 8 * i)
    ensures AllUsed(t, 8 * (i + 1))
  {
    FullByte(t[i]);
  }

  // The first free page: all bytes before are full, and so are the bits before.
  lemma LowestFree(t: seq<byte>, i: nat, j: nat)
    requires i < |t| && j < 8 && AllUsed(t, 8 * i) && forall k :: 0 <= k < j ==> Bit(t[i], k)
    requires !Bit(t[i], j)
    ensures (8 * i + j) / 8 == i && (8 * i + j) % 8 == j
    ensures !Used(t, 8 * i + j) && AllUsed(t, 8 * i + j)
  {
    forall p | 8 * i <= p < 8 * i + j ensures Used(t, p) {
      assert Bit(t[i], p - 8 * i);
    }
  }

  // The pages before the hint stay used.
  lemma HintTaken(t: seq<byte>, p: nat)
    requires p / 8 < |t| && AllUsed(t, p)
    ensures AllUsed(Taken(t, p), p + 1)
  {
    forall q | 0 <= q < p + 1 ensures Used(Taken(t, p), q) {
      TakenUsed(t, p, q);
    }
  }

  lemma HintGiven(t: seq<byte>, p: nat, hint: nat)
    requires p / 8 < |t| && AllUsed(t, hint)
    ensures AllUsed(Given(t, p), if hint > p then p else hint)
  {
    forall q | 0 <= q < (if hint > p then p else hint) ensures Used(Given(t, p), q) {
      GivenUsed(t, p, q);
    }
  }

  // The head is on disk, and the table there is the one in memory.
  ghost predicate Mirror(head: seq<byte>, t: seq<byte>, file: seq<byte>) {
    |head| == HEADSIZE && HEADSIZE + |t| <= |file| && file[..HEADSIZE] == head && file[HEADSIZE..HEADSIZE + |t|] == t
  }

  // sizepagetable(): bytes of the table, whole blocks of 512.
  const HEADSIZE := 512

  function SizePageTable(maxrecs: nat): (z: nat)
    ensures z % HEADSIZE == 0
  {
    var z := maxrecs / 8;
    if z % HEADSIZE != 0 then z + (HEADSIZE - z % HEADSIZE) else z
  }

  /** The table has room for maxrecs pages unless maxrecs leaves a remainder that a whole number of blocks
      does not cover. */
  lemma TableCovers(maxrecs: nat)
    ensures 8 * SizePageTable(maxrecs) >= maxrecs <==> maxrecs % 8 == 0 || maxrecs / 8 % HEADSIZE != 0
  {
  }

  // For instance a store for 4097 records has room for 4096.
  lemma TableTooSmall()
    ensures 8 * SizePageTable(4097) == 4096
  {
  }

  // ---- the file ----

  function Zeros(n: nat): (z: seq<byte>)
    ensures |z| == n
  {
    seq(n, i => 0)
  }

  // WriteTo: bytes before off that the file does not have yet become zero.
  function WrittenTo(file: seq<byte>, off: nat, d: seq<byte>): (r: seq<byte>)
    ensures |r| == if off + |d| > |file| then off + |d| else |file|
    ensures r[off..off + |d|] == d
  {
    var f := if off > |file| then file + Zeros(off - |file|) else file;
    f[..off] + d + if off + |d| < |f| then f[off + |d|..] else []
  }

  lemma WrittenAt(file: seq<byte>, off: nat, d: seq<byte>, k: nat)
    requires k < |file| && (k < off || off + |d| <= k)
    ensures k < |WrittenTo(file, off, d)| && WrittenTo(file, off, d)[k] == file[k]
  {
    var f := if off > |file| then file + Zeros(off - |file|) else file;
    assert f[k] == file[k];
    if off + |d| <= k {
      assert f[off + |d|..][k - off - |d|] == f[k];
    }
  }

  // Nothing that lies apart from the written bytes changes.
  lemma WrittenApart(file: seq<byte>, off: nat, d: seq<byte>, a: nat, b: nat)
    requires a <= b <= |file| && (b <= off || off + |d| <= a)
    ensures WrittenTo(file, off, d)[a..b] == file[a..b]
  {
    hide WrittenTo;
    var r := WrittenTo(file, off, d);
    var x, y := r[a..b], file[a..b];
    forall k | 0 <= k < b - a ensures x[k] == y[k] {
      WrittenAt(file, off, d, a + k);
    }
  }

  // A byte of the table on disk is written: the table on disk follows.
  lemma TableWritten(head: seq<byte>, file: seq<byte>, t: seq<byte>, i: nat, b: byte)
    requires i < |t| && Mirror(head, t, file)
    ensures var r := WrittenTo(file, HEADSIZE + i, [b]); |r| == |file| && Mirror(head, t[i := b], r)
  {
    hide WrittenTo;
    var r := WrittenTo(file, HEADSIZE + i, [b]);
    WrittenApart(file, HEADSIZE + i, [b], 0, HEADSIZE);
    var x, y := r[HEADSIZE..HEADSIZE + |t|], t[i := b];
    forall k | 0 <= k < |t| ensures x[k] == y[k] {
      TableByte(file, t, i, b, k);
    }
  }

  lemma TableByte(file: seq<byte>, t: seq<byte>, i: nat, b: byte, k: nat)
    requires i < |t| && k < |t| && HEADSIZE + |t| <= |file| && file[HEADSIZE..HEADSIZE + |t|] == t
    ensures HEADSIZE + k < |WrittenTo(file, HEADSIZE + i, [b])| && WrittenTo(file, HEADSIZE + i, [b])[HEADSIZE + k] == t[i := b][k]
  {
    hide WrittenTo;
    var r := WrittenTo(file, HEADSIZE + i, [b]);
    if k == i {
      assert r[HEADSIZE + i] == r[HEADSIZE + i..HEADSIZE + i + 1][0];
    } else {
      WrittenAt(file, HEADSIZE + i, [b], HEADSIZE + k);
      assert file[HEADSIZE + k] == file[HEADSIZE..HEADSIZE + |t|][k];
    }
  }

  // What is written behind the table leaves head and table alone.
  lemma MirrorKept(head: seq<byte>, t: seq<byte>, file: seq<byte>, at: nat, d: seq<byte>)
    requires Mirror(head, t, file) && at >= HEADSIZE + |t|
    ensures Mirror(head, t, WrittenTo(file, at, d))
  {
    WrittenApart(file, at, d, 0, HEADSIZE);
    WrittenApart(file, at, d, HEADSIZE, HEADSIZE + |t|);
  }

  // ---- pages ----

  function PageAt(n: nat, sizeblk: nat, p: nat): nat { HEADSIZE + n + p * sizeblk }

  lemma PagesApart(n: nat, s: nat, p: nat, q: nat)
    requires p < q
    ensures PageAt(n, s, p) + s <= PageAt(n, s, q)
  {
    assert q * s == p * s + (q - p) * s;
    assert (q - p) * s >= 1 * s by { MulGe(q - p, s); }
  }

  lemma MulGe(a: nat, s: nat)
    requires a >= 1
    ensures a * s >= s
  {
    assert a * s == (a - 1) * s + s;
  }

  // A record in its block: length, check byte, content.
  predicate Framed(b: seq<byte>, c: seq<byte>) {
    && 8 + |c| <= |b| && |c| < 0x1_0000
    && b[4] == Lo(|c|) && b[5] == Lo(|c| / 256) && b[7] == b[4] ^ b[5] && b[8..8 + |c|] == c
  }

  predicate OnPage(file: seq<byte>, n: nat, sizeblk: nat, p: nat, c: seq<byte>) {
    var at := PageAt(n, sizeblk, p);
    at + sizeblk <= |file| && Framed(file[at..at + sizeblk], c)
  }

  // What is not written over stays on its page.
  lemma PageKept(file: seq<byte>, n: nat, s: nat, p: nat, c: seq<byte>, off: nat, d: seq<byte>)
    requires OnPage(file, n, s, p, c) && (PageAt(n, s, p) + s <= off || off + |d| <= PageAt(n, s, p))
    ensures OnPage(WrittenTo(file, off, d), n, s, p, c)
  {
    hide PageAt, Framed, WrittenTo;
    var at := PageAt(n, s, p);
    WrittenApart(file, off, d, at, at + s);
  }

  // Writing the framed record at its page, at least its own bytes, puts it there.
  lemma PageWritten(file: seq<byte>, n: nat, s: nat, p: nat, c: seq<byte>, d: seq<byte>)
    requires 8 + |c| <= |d| <= s && Framed(d, c) && (|d| == s || PageAt(n, s, p) + s <= |file|)
    ensures OnPage(WrittenTo(file, PageAt(n, s, p), d), n, s, p, c)
  {
    hide PageAt, WrittenTo;
    var at := PageAt(n, s, p);
    var r := WrittenTo(file, at, d);
    var b := r[at..at + s];
    assert r[at..at + |d|] == d;
    assert b[..|d|] == d;
    assert b[8..8 + |c|] == d[8..8 + |c|];
  }

  // ---- the head of the file ----

  // "ec_record_file" in a field of 16 bytes
  const SYSFLAG: seq<byte> := [101, 99, 95, 114, 101, 99, 111, 114, 100, 95, 102, 105, 108, 101, 0, 0]

  const ATRECS := 240       // where maxrecs, sizeblk and the checksum over all before lie
  const ATBLK := 244
  const ATCRC := 248

  function HeadFields(maxrecs: nat, sizeblk: nat, app: seq<byte>): (h: seq<byte>)
    requires |app| == 64
    ensures |h| == ATCRC
  {
    SYSFLAG + app + Zeros(160) + LE(maxrecs, 4) + LE(sizeblk, 4)
  }

  function Head(maxrecs: nat, sizeblk: nat, app: seq<byte>, crc: seq<byte> -> bv32): (h: seq<byte>)
    requires |app| == 64
    ensures |h| == HEADSIZE
  {
    var h := HeadFields(maxrecs, sizeblk, app);
    h + WordLE(crc(h)) + Zeros(4 + 256)
  }

  // What open_file makes of a head: the two sizes, or the error.
  datatype Opened = Opened(maxrecs: nat, sizeblk: nat) | Failed(code: int)

  const ERR_CRC32 := 4
  const ERR_APPFLAG := 5
  const ERR_SYSFLAG := 6

  // The characters of a C string, up to its zero.
  function CString(s: seq<byte>): seq<byte> {
    if s == [] || s[0] == 0 then [] else [s[0]] + CString(s[1..])
  }

  // A zero behind the field ends the string there at the latest.
  lemma {:induction false} CStringEnds(s: seq<byte>, z: seq<byte>)
    requires z != [] && z[0] == 0
    ensures CString(s + z) == CString(s)
    decreases |s|
  {
    if s == [] {
      assert s + z == z;
    } else {
      assert (s + z)[1..] == s[1..] + z;
      CStringEnds(s[1..], z);
    }
  }

  // open_file is given the application flag it wants, or none.
  predicate FlagWanted(want: Option<seq<byte>>, app: seq<byte>) {
    want.None? || want.value == CString(app)
  }

  function ReadHead(file: seq<byte>, crc: seq<byte> -> bv32, want: Option<seq<byte>>): Opened {
    if |file| < 256 || file[..15] != SYSFLAG[..15] then Failed(ERR_SYSFLAG)
    else if !FlagWanted(want, file[16..256]) then Failed(ERR_APPFLAG)
    else if UnWordLE(file[ATCRC..ATCRC + 4]) != crc(file[..ATCRC]) then Failed(ERR_CRC32)
    else Opened(UnLE(file[ATRECS..ATBLK]), UnLE(file[ATBLK..ATCRC]))
  }

  /** The head written at creation is read back, unless another application flag is wanted. */
  lemma HeadReads(file: seq<byte>, maxrecs: nat, sizeblk: nat, app: seq<byte>, crc: seq<byte> -> bv32, want: Option<seq<byte>>)
    requires |app| == 64 && maxrecs < Pow256(4) && sizeblk < Pow256(4)
    requires |file| >= HEADSIZE && file[..HEADSIZE] == Head(maxrecs, sizeblk, app, crc)
    ensures ReadHead(file, crc, want) == if FlagWanted(want, app) then Opened(maxrecs, sizeblk) else Failed(ERR_APPFLAG)
  {
    hide Head, HeadFields, WordLE, UnWordLE, LE, UnLE, CString;
    HeadSlices(file, maxrecs, sizeblk, app, crc);
    WordLERoundTrip(crc(HeadFields(maxrecs, sizeblk, app)));
    LERoundTrip(maxrecs, 4);
    LERoundTrip(sizeblk, 4);
    FlagRead(file, app);
  }

  lemma FlagRead(file: seq<byte>, app: seq<byte>)
    requires |file| >= 256 && |app| == 64 && file[16..80] == app && file[80] == 0
    ensures CString(file[16..256]) == CString(app)
  {
    hide CString;
    assert file[16..256] == app + file[80..256];
    CStringEnds(app, file[80..256]);
  }

  lemma HeadSlices(file: seq<byte>, maxrecs: nat, sizeblk: nat, app: seq<byte>, crc: seq<byte> -> bv32)
    requires |app| == 64 && |file| >= HEADSIZE && file[..HEADSIZE] == Head(maxrecs, sizeblk, app, crc)
    ensures file[..15] == SYSFLAG[..15] && file[16..80] == app && file[80] == 0
    ensures file[..ATCRC] == HeadFields(maxrecs, sizeblk, app)
    ensures file[ATCRC..ATCRC + 4] == WordLE(crc(HeadFields(maxrecs, sizeblk, app)))
    ensures file[ATRECS..ATBLK] == LE(maxrecs, 4) && file[ATBLK..ATCRC] == LE(sizeblk, 4)
  {
    hide WordLE, LE, HeadFields;
    var f := HeadFields(maxrecs, sizeblk, app);
    var h := f + WordLE(crc(f)) + Zeros(4 + 256);
    assert file[..ATCRC] == file[..HEADSIZE][..ATCRC] == h[..ATCRC] == f;
    assert file[ATCRC..ATCRC + 4] == file[..HEADSIZE][ATCRC..ATCRC + 4] == h[ATCRC..ATCRC + 4];
    FieldSlices(file[..ATCRC], maxrecs, sizeblk, app);
    assert file[..15] == file[..ATCRC][..15] && file[16..80] == file[..ATCRC][16..80];
    assert file[ATRECS..ATBLK] == file[..ATCRC][ATRECS..ATBLK] && file[ATBLK..ATCRC] == file[..ATCRC][ATBLK..ATCRC];
  }

  lemma FieldSlices(f: seq<byte>, maxrecs: nat, sizeblk: nat, app: seq<byte>)
    requires |app| == 64 && f == HeadFields(maxrecs, sizeblk, app)
    ensures f[..15] == SYSFLAG[..15] && f[16..80] == app && f[80] == 0
    ensures f[ATRECS..ATBLK] == LE(maxrecs, 4) && f[ATBLK..ATCRC] == LE(sizeblk, 4)
  {
    hide LE;
    assert f[..16] == SYSFLAG;
    assert f[..15] == f[..16][..15];
    assert f[80] == Zeros(160)[0];
  }
}
