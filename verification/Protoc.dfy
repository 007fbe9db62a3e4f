/** The loops of ec_protoc.h over output buffers and cursors, proved to write, measure and read what
    ProtocFields says. */
module Protoc {
  import opened Wrappers
  import opened ByteValues
  import opened Bytes
  import opened Outputs
  import opened Powers
  import opened Varints
  import opened ProtocFields

  const SIZE_END := 0x1_0000_0000_0000_0000   // sizes are 64-bit

  // ---- varints ----

  // v >> (nbit + 7) and v >> nbit: what is left after one group.
  lemma NextGroup(v: nat, nbit: nat)
    ensures Shr(v, nbit + 7) == Shr(v, nbit) / 128
    ensures var x := Shr(v, nbit);
            if x < 128 then x / 128 == 0 && Varint(x) == [ByteOf(x)]
            else x / 128 != 0 && Varint(x) == [ByteOf(128 + x % 128)] + Varint(x / 128)
  {
    hide Pow2, ByteOf;
    Shift7(v, nbit);
  }

  // What the last shift leaves is one group.
  lemma LastShift(w: Width, v: nat, nbit: nat)
    requires v < w.Limit() && nbit + 7 >= w.Bits()
    ensures Shr(v, nbit) < 128
  {
    hide Pow2;
    LimitIsPow2(w);
    PowMonotone2(w.Bits(), nbit + 7);
    Shift7(v, nbit);
    assert Shr(v, nbit + 7) == 0;
  }

  lemma NoShift(v: nat)
    ensures Shr(v, 0) == v
  {
    assert Pow2(0) == 1;
  }

  // The groups written and those to write are the varint.
  ghost predicate Writing(before: seq<byte>, data: seq<byte>, v: nat, nbit: nat) {
    data + Varint(Shr(v, nbit)) == before + Varint(v)
  }

  lemma WritingNext(before: seq<byte>, data: seq<byte>, v: nat, nbit: nat)
    requires Writing(before, data, v, nbit)
    ensures var x, more := Shr(v, nbit), Shr(v, nbit + 7);
            if more != 0 then Writing(before, data + [ByteOf(128 + x % 128)], v, nbit + 7) else data + [ByteOf(x % 128)] == before + Varint(v)
  {
    hide Shr, ByteOf, Varint;
    NextGroup(v, nbit);
    var x := Shr(v, nbit);
    if x >= 128 {
      GroupMoved(data, ByteOf(128 + x % 128), Varint(x / 128));
    } else {
      assert x % 128 == x;
    }
  }

  lemma GroupMoved(data: seq<byte>, b: byte, rest: seq<byte>)
    ensures data + [b] + rest == data + ([b] + rest)
  {
  }

  /** out_varint */
  method OutVarint(w: Width, v: nat, pout: Out)
    requires v < w.Limit()
    modifies pout
    ensures pout.data == old(pout.data) + Varint(v)
  {
    hide Shr, Varint, Writing, ByteOf;
    ghost var before := pout.data;
    WritingStart(before, v);
    var nbit, more := 0, true;
    while more
      invariant Shr(v, nbit) == 0 && !more ==> pout.data == before + Varint(v)
      invariant Shr(v, nbit) != 0 || more ==> Writing(before, pout.data, v, nbit)
      invariant !more ==> Shr(v, nbit) == 0 || nbit + 7 >= w.Bits()
      decreases more, w.Bits() - nbit
    {
      var x := Shr(v, nbit);
      WritingNext(before, pout.data, v, nbit);
      nbit := nbit + 7;
      if Shr(v, nbit) != 0 {
        pout.PushBack(ByteOf(128 + x % 128));
        more := nbit + 7 < w.Bits();
      } else {
        pout.PushBack(ByteOf(x % 128));
        more := false;
      }
    }
    var x := Shr(v, nbit);
    if x != 0 {
      LastShift(w, v, nbit);
      WritingLast(before, pout.data, v, nbit);
      pout.PushBack(ByteOf(x % 256));
    }
  }

  lemma WritingStart(before: seq<byte>, v: nat)
    ensures Writing(before, before, v, 0)
  {
    NoShift(v);
  }

  lemma OneGroup(x: nat)
    requires x < 128
    ensures Varint(x) == [ByteOf(x % 256)]
  {
    hide ByteOf;
    assert x % 256 == x;
  }

  lemma WritingLast(before: seq<byte>, data: seq<byte>, v: nat, nbit: nat)
    requires Writing(before, data, v, nbit) && Shr(v, nbit) < 128
    ensures data + [ByteOf(Shr(v, nbit) % 256)] == before + Varint(v)
  {
    hide Shr, ByteOf, Varint;
    OneGroup(Shr(v, nbit));
  }

  /** size_varint: the bytes out_varint writes. */
  method SizeVarint(w: Width, v: nat) returns (n: nat)
    requires v < w.Limit()
    ensures n == |Varint(v)|
  {
    hide Shr, Varint;
    NoShift(v);
    var nbit, more := 0, true;
    n := 0;
    while more
      invariant more ==> n + |Varint(Shr(v, nbit))| == |Varint(v)|
      invariant !more && Shr(v, nbit) != 0 ==> n + |Varint(Shr(v, nbit))| == |Varint(v)| && nbit + 7 >= w.Bits()
      invariant !more && Shr(v, nbit) == 0 ==> n == |Varint(v)|
      decreases more, w.Bits() - nbit
    {
      NextGroup(v, nbit);
      nbit := nbit + 7;
      n := n + 1;
      more := Shr(v, nbit) != 0 && nbit + 7 < w.Bits();
    }
    if Shr(v, nbit) != 0 {
      LastShift(w, v, nbit);
      LastGroup(Shr(v, nbit));
      n := n + 1;
    }
  }

  // ---- cursors ----

  class Cursor {
    var pd: nat
    var len: nat

    constructor (n: nat)
      ensures pd == 0 && len == n
    {
      pd, len := 0, n;
    }

    ghost predicate In(msg: seq<byte>)
      reads this
    {
      pd + len <= |msg|
    }

    ghost function Rest(msg: seq<byte>): seq<byte>
      requires In(msg)
      reads this
    {
      msg[pd..pd + len]
    }

    method Skip(ghost msg: seq<byte>, n: nat)
      requires In(msg) && n <= len
      modifies this
      ensures In(msg) && Rest(msg) == old(Rest(msg))[n..]
    {
      pd, len := pd + n, len - n;
    }
  }

  // The bits that fit.
  function Low(w: Width, x: nat): (r: nat) { x % w.Limit() }

  // What get_varint has made of the groups so far, acc, and what is still to be read.
  ghost predicate Reading(w: Width, s: seq<byte>, rest: seq<byte>, nbit: nat, acc: nat) {
    nbit % 7 == 0 && nbit / 7 + |rest| == |s| && rest == s[nbit / 7..] &&
    Groups(w, s, 0) ==
    match Groups(w, rest, nbit)
    case None => None
    case Some((v, n)) => Some((acc + Shl(v, nbit), n + nbit / 7))
  }

  lemma ReadingStart(w: Width, s: seq<byte>)
    ensures Reading(w, s, s, 0, 0)
  {
    assert Pow2(0) == 1;
    assert s[0..] == s;
  }

  lemma Collect(p: nat, acc: nat, b: nat, v: nat)
    requires b >= 128
    ensures acc + (b - 128) * p + v * (128 * p) == acc + (b - 128 + 128 * v) * p
  {
  }

  lemma ReadingNext(w: Width, s: seq<byte>, rest: seq<byte>, nbit: nat, acc: nat)
    requires Reading(w, s, rest, nbit, acc) && rest != [] && nbit < w.Bits() && rest[0] as nat >= 128
    ensures Reading(w, s, rest[1..], nbit + 7, acc + Shl(rest[0] as nat - 128, nbit))
  {
    hide Pow2;
    Shift7(0, nbit);
    var b := rest[0] as nat;
    var r := Groups(w, rest[1..], nbit + 7);
    assert (nbit + 7) / 7 == nbit / 7 + 1;
    assert rest[1..] == s[(nbit + 7) / 7..];
    if r.Some? {
      Collect(Pow2(nbit), acc, b, r.value.0);
    }
  }

  lemma ReadingLast(w: Width, s: seq<byte>, rest: seq<byte>, nbit: nat, acc: nat)
    requires Reading(w, s, rest, nbit, acc)
    ensures rest == [] || nbit >= w.Bits() ==> ReadVarint(w, s) == None
    ensures rest != [] && nbit < w.Bits() && rest[0] as nat < 128 ==>
              ReadVarint(w, s) == Some((Low(w, acc + Shl(rest[0] as nat, nbit)), 1 + nbit / 7)) && s[nbit / 7 + 1..] == rest[1..]
  {
    hide Shl;
  }

  lemma LowZero(w: Width)
    ensures Low(w, 0) == 0
  {
  }

  lemma AddLow(w: Width, a: nat, b: nat)
    ensures Low(w, Low(w, a) + b) == Low(w, a + b)
  {
    ModAdd(a, b, w.Limit());
  }

  lemma ModAdd(a: nat, b: nat, m: nat)
    requires m > 0
    ensures (a % m + b) % m == (a + b) % m
  {
    var t := a % m + b;
    Together(a, b, m, a / m, a % m, t / m, t % m);
    Quotient(a + b, m, a / m + t / m, t % m);
  }

  lemma Together(a: nat, b: nat, m: nat, q: nat, r: nat, q1: nat, r1: nat)
    requires a == q * m + r && r + b == q1 * m + r1
    ensures a + b == (q + q1) * m + r1
  {
  }

  // The next byte is or-ed in: it ends the number or not.
  lemma ReadingTurn(w: Width, s: seq<byte>, rest: seq<byte>, nbit: nat, acc: nat, out: nat)
    requires Reading(w, s, rest, nbit, acc) && out == Low(w, acc) && rest != [] && nbit < w.Bits()
    ensures var b := rest[0] as nat; var next := Low(w, out + Shl(b % 128, nbit));
            if b < 128 then ReadVarint(w, s) == Some((next, 1 + nbit / 7)) && rest[1..] == s[1 + nbit / 7..]
            else Reading(w, s, rest[1..], nbit + 7, acc + Shl(b % 128, nbit)) && next == Low(w, acc + Shl(b % 128, nbit))
  {
    hide Shl, Low, ReadVarint, Reading;
    var b := rest[0] as nat;
    AddLow(w, acc, Shl(b % 128, nbit));
    if b < 128 {
      ReadingLast(w, s, rest, nbit, acc);
    } else {
      ReadingNext(w, s, rest, nbit, acc);
    }
  }

  /** get_varint. The groups have no bits in common, so that or-ing a group in adds it. */
  method GetVarint(msg: seq<byte>, c: Cursor, w: Width) returns (ok: bool, out: nat)
    requires c.In(msg)
    modifies c
    ensures c.In(msg)
    ensures match ReadVarint(w, old(c.Rest(msg)))
            case None => !ok
            case Some((v, n)) => ok && out == v && c.Rest(msg) == old(c.Rest(msg))[n..]
  {
    hide Shl, Low, ReadVarint, Reading;
    LowZero(w);
    out := 0;
    if c.len <= 0 {
      return false, 0;
    }
    ghost var s := c.Rest(msg);
    var nbit := 0;
    ghost var acc: nat := 0;
    ReadingStart(w, s);
    while true
      invariant c.In(msg) && c.len > 0 && nbit < w.Bits()
      invariant Reading(w, s, c.Rest(msg), nbit, acc) && out == Low(w, acc)
      decreases c.len
    {
      var b := msg[c.pd] as nat;
      ghost var rest := c.Rest(msg);
      ReadingTurn(w, s, rest, nbit, acc, out);
      out := Low(w, out + Shl(b % 128, nbit));
      c.Skip(msg, 1);
      if b < 128 {
        return true, out;
      }
      acc := acc + Shl(b % 128, nbit);
      nbit := nbit + 7;
      if !(c.len > 0 && nbit < w.Bits()) {
        ReadingLast(w, s, c.Rest(msg), nbit, acc);
        return false, 0;
      }
    }
  }

  // ---- parse ----

  // The object of parse, by the calls it gets.
  class Handler {
    var events: seq<Event>

    constructor ()
      ensures events == []
    {
      events := [];
    }

    method On(e: Event)
      modifies this
      ensures events == old(events) + [e]
    {
      events := events + [e];
    }
  }

  // What a step of the loop did, for what ReadField or ReadValue says.
  ghost predicate Took(r: Got, end: End, s: seq<byte>, rest: seq<byte>, was: seq<Event>, now: seq<Event>) {
    match r
    case Lost(e) => end == e != Whole && now == was
    case Got(e, n) => end == Whole && now == was + [e] && n <= |s| && rest == s[n..]
  }

  // case pb_varint
  method TakeVar(msg: seq<byte>, c: Cursor, obj: Handler, id: nat) returns (end: End)
    requires c.In(msg)
    modifies c, obj
    ensures c.In(msg) && Took(ReadVar(id, old(c.Rest(msg))), end, old(c.Rest(msg)), c.Rest(msg), old(obj.events), obj.events)
  {
    hide ReadVarint;
    var ok, u64 := GetVarint(msg, c, W64);
    if !ok {
      return Refused;
    }
    obj.On(OnVar(id, u64));
    end := Whole;
  }

  // case pb_length_delimited, with get_length_delimited
  method TakeDelimited(msg: seq<byte>, c: Cursor, obj: Handler, id: nat) returns (end: End)
    requires c.In(msg)
    modifies c, obj
    ensures c.In(msg) && Took(ReadDelimited(id, old(c.Rest(msg))), end, old(c.Rest(msg)), c.Rest(msg), old(obj.events), obj.events)
  {
    hide ReadVarint;
    ghost var s := c.Rest(msg);
    var ok, ul := GetVarint(msg, c, W32);
    if !ok {
      return Refused;
    }
    if ul >= INT_END {
      return Outside;
    }
    if c.len < ul {
      return Refused;
    }
    ghost var n := ReadVarint(W32, s).value.1;
    assert c.Rest(msg) == s[n..];
    assert msg[c.pd..c.pd + ul] == s[n..][..ul] == s[n..n + ul];
    obj.On(OnCls(id, msg[c.pd..c.pd + ul]));
    c.Skip(msg, ul);
    assert c.Rest(msg) == s[n + ul..];
    end := Whole;
  }

  // case pb_fixed32 and pb_fixed64, with get_fixed on a little-endian machine
  method TakeFixed(msg: seq<byte>, c: Cursor, obj: Handler, id: nat, w: Width) returns (end: End)
    requires c.In(msg)
    modifies c, obj
    ensures c.In(msg) && Took(ReadFixed(id, w, old(c.Rest(msg))), end, old(c.Rest(msg)), c.Rest(msg), old(obj.events), obj.events)
  {
    hide UnLE;
    if c.len < w.Size() {
      return Refused;
    }
    assert msg[c.pd..c.pd + w.Size()] == c.Rest(msg)[..w.Size()];
    obj.On(OnFixed(id, w, UnLE(msg[c.pd..c.pd + w.Size()])));
    c.Skip(msg, w.Size());
    end := Whole;
  }

  method TakeValue(msg: seq<byte>, c: Cursor, obj: Handler, id: nat, wire: nat) returns (end: End)
    requires c.In(msg)
    modifies c, obj
    ensures c.In(msg) && Took(ReadValue(id, wire, old(c.Rest(msg))), end, old(c.Rest(msg)), c.Rest(msg), old(obj.events), obj.events)
  {
    hide ReadVar, ReadDelimited, ReadFixed;
    if wire == VARINT {
      end := TakeVar(msg, c, obj, id);
    } else if wire == DELIMITED {
      end := TakeDelimited(msg, c, obj, id);
    } else if wire == FIXED32 {
      end := TakeFixed(msg, c, obj, id, W32);
    } else if wire == FIXED64 {
      end := TakeFixed(msg, c, obj, id, W64);
    } else {
      end := Refused;   // jump_over knows no other wire type
    }
  }

  // One turn of the loop of parse: get_key and the value.
  method TakeField(msg: seq<byte>, c: Cursor, obj: Handler) returns (end: End)
    requires c.In(msg)
    modifies c, obj
    ensures c.In(msg) && Took(ReadField(old(c.Rest(msg))), end, old(c.Rest(msg)), c.Rest(msg), old(obj.events), obj.events)
  {
    hide ReadVarint, ReadValue;
    ghost var s := c.Rest(msg);
    var ok, key := GetVarint(msg, c, W32);
    if !ok {
      return Refused;
    }
    ghost var n := ReadVarint(W32, s).value.1;
    assert c.Rest(msg) == s[n..];
    end := TakeValue(msg, c, obj, key / 8, key % 8);
    ghost var r := ReadValue(key / 8, key % 8, s[n..]);
    assert r.Got? ==> s[n..][r.n..] == s[n + r.n..];
  }

  // The reports so far and what is left to read.
  ghost predicate Parsing(s: seq<byte>, rest: seq<byte>, events: seq<Event>) {
    ParseFrom(s) == Outcome(ParseFrom(rest).end, events + ParseFrom(rest).events)
  }

  lemma ParsingNext(s: seq<byte>, rest: seq<byte>, events: seq<Event>)
    requires Parsing(s, rest, events) && rest != []
    ensures var r := ReadField(rest); if r.Lost? then ParseFrom(s) == Outcome(r.end, events) else Parsing(s, rest[r.n..], events + [r.e])
  {
    hide ReadField;
    match ReadField(rest)
    case Lost(end) => assert events + [] == events;
    case Got(e, n) => assert events + ([e] + ParseFrom(rest[n..]).events) == events + [e] + ParseFrom(rest[n..]).events;
  }

  /** parse: Whole is true, Refused is false. */
  method ParseMessage(msg: seq<byte>, obj: Handler) returns (end: End)
    modifies obj
    ensures Parse(msg) == Outcome(end, obj.events)
  {
    hide ParseFrom, ReadField, ToSigned;
    obj.events := [];
    if |msg| == 0 {
      return Whole;
    }
    var len := ToSigned(W32, |msg| % 0x1_0000_0000);
    if len <= 0 {
      return Refused;   // get_key on no bytes
    }
    IntLength(|msg|);
    end := ParseLoop(msg, len, obj);
  }

  lemma IntLength(n: nat)
    ensures ToSigned(W32, n % 0x1_0000_0000) <= n
  {
  }

  method ParseLoop(msg: seq<byte>, len: nat, obj: Handler) returns (end: End)
    requires 0 < len <= |msg| && obj.events == []
    modifies obj
    ensures ParseFrom(msg[..len]) == Outcome(end, obj.events)
  {
    hide ParseFrom, ReadField, Parsing;
    var c := new Cursor(len);
    ghost var s := msg[..len];
    assert c.Rest(msg) == s;
    ParsingStart(s);
    while true
      invariant c.In(msg) && c.len > 0 && Parsing(s, c.Rest(msg), obj.events)
      decreases c.len
    {
      ghost var rest := c.Rest(msg);
      ParsingNext(s, rest, obj.events);
      end := TakeField(msg, c, obj);
      if end != Whole {
        return;
      }
      if c.len == 0 {
        ParsingDone(s, obj.events);
        assert c.Rest(msg) == [];
        return Whole;
      }
    }
  }

  lemma ParsingStart(s: seq<byte>)
    ensures Parsing(s, s, [])
  {
  }

  lemma ParsingDone(s: seq<byte>, events: seq<Event>)
    requires Parsing(s, [], events)
    ensures ParseFrom(s) == Outcome(Whole, events)
  {
  }

  // ---- sizes ----

  // (field_number << 3) | wire_type as a 32-bit word
  function KeyWord(id: nat, wire: nat): (k: nat)
    requires wire < 8
    ensures k == Key(id, wire)
  {
    (id * 8) % 0x1_0000_0000 + wire
  }

  method SizeKey(id: nat, wire: nat) returns (n: nat)
    requires wire < 8
    ensures n == |Varint(Key(id, wire))|
  {
    hide Varint;
    n := SizeVarint(W32, KeyWord(id, wire));
  }

  method SizeLengthDelimited(len: nat) returns (n: nat)
    requires len < SIZE_END
    ensures n == if len == 0 then 0 else |Varint(len)| + len
  {
    if len == 0 {
      return 0;
    }
    n := SizeVarint(W64, len);
    n := n + len;
  }

  method SizeVar(id: nat, t: IntType, v: int, zigzag: bool) returns (n: nat)
    requires id < 0x1_0000_0000 && t.Holds(v)
    ensures n == |Emitted(Var(id, t, v, zigzag))|
  {
    hide Varint, Key, Wire;
    if v == 0 {
      return 0;
    }
    var k := SizeKey(id, VARINT);
    n := SizeVarint(t.w, Wire(t, v, zigzag));
    n := k + n;
  }

  method SizeFixed(id: nat, w: Width, ghost bits: nat) returns (n: nat)
    requires id < 0x1_0000_0000 && bits < w.Limit()
    ensures n == |Emitted(Fixed(id, w, bits))|
  {
    hide Varint, Key, LE;
    n := SizeKey(id, FixedWire(w));
    n := n + w.Size();
  }

  // size_cls of data of this size, and what out_cls writes for it
  method SizeCls(id: nat, size: nat, ghost data: seq<byte>) returns (n: nat)
    requires size == |data| < SIZE_END
    ensures n == |Delimited(id, data)|
  {
    hide Varint, Key;
    if size == 0 {
      return 0;
    }
    var k := SizeKey(id, DELIMITED);
    n := SizeLengthDelimited(size);
    n := k + n;
  }

  // The loop of size_varpacket.
  method SizePacked(t: IntType, items: seq<int>, zigzag: bool) returns (zn: nat)
    requires forall i :: 0 <= i < |items| ==> t.Holds(items[i])
    ensures zn == |Packed(t, items, zigzag)|
  {
    hide Varint, Wire;
    zn := 0;
    var i := 0;
    while i < |items|
      invariant 0 <= i <= |items| && zn + |Packed(t, items[i..], zigzag)| == |Packed(t, items, zigzag)|
    {
      var n := SizeVarint(t.w, Wire(t, items[i], zigzag));
      zn := zn + n;
      assert items[i..][1..] == items[i + 1..];
      i := i + 1;
    }
  }

  method SizeVarPacket(id: nat, t: IntType, items: seq<int>, zigzag: bool) returns (n: nat)
    requires FieldOk(VarPacket(id, t, items, zigzag)) && |Packed(t, items, zigzag)| < SIZE_END
    ensures n == |Emitted(VarPacket(id, t, items, zigzag))|
  {
    hide Varint, Key, Wire;
    if |items| == 0 {
      return 0;
    }
    var zn := SizePacked(t, items, zigzag);
    n := SizeCls(id, zn, Packed(t, items, zigzag));
  }

  method SizeFixPacket(id: nat, w: Width, words: seq<nat>) returns (n: nat)
    requires FieldOk(FixPacket(id, w, words)) && |FixedPacked(w, words)| < SIZE_END
    ensures n == |Emitted(FixPacket(id, w, words))|
  {
    hide Varint, Key, LE;
    if |words| == 0 {
      return 0;
    }
    n := SizeCls(id, w.Size() * |words|, FixedPacked(w, words));
  }

  // Every payload fits a size, down to the innermost.
  ghost predicate Sized(f: Field)
    requires FieldOk(f)
    decreases f
  {
    match f
    case Var(_, _, _, _) => true
    case Fixed(_, _, _) => true
    case Object(_, fields) => |Content(fields)| < SIZE_END && AllSized(fields)
    case _ => |Payload(f)| < SIZE_END
  }

  ghost predicate AllSized(fs: seq<Field>)
    requires AllOk(fs)
    decreases fs
  {
    fs == [] || (Sized(fs[0]) && AllSized(fs[1..]))
  }

  /** size_object and the other sizes: what is written for the field. */
  method SizeField(f: Field) returns (n: nat)
    requires FieldOk(f) && Sized(f)
    ensures n == |Emitted(f)|
    decreases f
  {
    hide Varint, Key, Packed, FixedPacked, Wire, LE, Delimited, Content;
    match f {
      case Var(id, t, v, zigzag) => n := SizeVar(id, t, v, zigzag);
      case Fixed(id, w, bits) => n := SizeFixed(id, w, bits);
      case Cls(id, data) => n := SizeCls(id, |data|, data);
      case VarPacket(id, t, items, zigzag) => n := SizeVarPacket(id, t, items, zigzag);
      case FixPacket(id, w, words) => n := SizeFixPacket(id, w, words);
      case Object(id, fields) =>
        var zlen := SizeContent(fields);
        n := SizeCls(id, zlen, Content(fields));
    }
  }

  /** size_content: the length that goes before a nested message is exact. */
  method SizeContent(fs: seq<Field>) returns (n: nat)
    requires AllOk(fs) && AllSized(fs)
    ensures n == |Content(fs)|
    decreases fs
  {
    hide Emitted, FieldOk, Sized;
    n := 0;
    var i := 0;
    while i < |fs|
      invariant 0 <= i <= |fs| && AllOk(fs[i..]) && AllSized(fs[i..]) && n + |Content(fs[i..])| == |Content(fs)|
    {
      assert fs[i..][0] == fs[i] && fs[i..][1..] == fs[i + 1..];
      var m := SizeField(fs[i]);
      n := n + m;
      i := i + 1;
    }
  }

  // ---- output ----

  method OutKey(id: nat, wire: nat, pout: Out)
    requires wire < 8
    modifies pout
    ensures pout.data == old(pout.data) + Varint(Key(id, wire))
  {
    hide Varint;
    OutVarint(W32, KeyWord(id, wire), pout);
  }

  method OutVar(pout: Out, id: nat, t: IntType, v: int, zigzag: bool)
    requires id < 0x1_0000_0000 && t.Holds(v)
    modifies pout
    ensures pout.data == old(pout.data) + Emitted(Var(id, t, v, zigzag))
  {
    hide Varint, Key, Wire;
    if v == 0 {
      return;
    }
    OutKey(id, VARINT, pout);
    OutVarint(t.w, Wire(t, v, zigzag), pout);
  }

  method OutFixed(pout: Out, id: nat, w: Width, bits: nat)
    requires id < 0x1_0000_0000 && bits < w.Limit()
    modifies pout
    ensures pout.data == old(pout.data) + Emitted(Fixed(id, w, bits))
  {
    hide Varint, Key, LE;
    OutKey(id, FixedWire(w), pout);
    pout.Append(LE(bits, w.Size()));
  }

  method OutCls(pout: Out, id: nat, data: seq<byte>)
    requires |data| < SIZE_END
    modifies pout
    ensures pout.data == old(pout.data) + Delimited(id, data)
  {
    hide Varint, Key;
    if |data| == 0 {
      return;
    }
    OutKey(id, DELIMITED, pout);
    OutVarint(W64, |data|, pout);
    pout.Append(data);
  }

  method OutVarPacket(id: nat, t: IntType, items: seq<int>, pout: Out, zigzag: bool)
    requires FieldOk(VarPacket(id, t, items, zigzag)) && |Packed(t, items, zigzag)| < SIZE_END
    modifies pout
    ensures pout.data == old(pout.data) + Emitted(VarPacket(id, t, items, zigzag))
  {
    hide Varint, Key, Wire;
    if |items| == 0 {
      return;
    }
    var zbody := SizePacked(t, items, zigzag);
    OutKey(id, DELIMITED, pout);
    OutVarint(W64, zbody, pout);
    OutPacked(t, items, pout, zigzag);
  }

  // The loop of out_varpacket.
  method OutPacked(t: IntType, items: seq<int>, pout: Out, zigzag: bool)
    requires forall i :: 0 <= i < |items| ==> t.Holds(items[i])
    modifies pout
    ensures pout.data == old(pout.data) + Packed(t, items, zigzag)
  {
    hide Varint, Wire;
    var i := 0;
    while i < |items|
      invariant 0 <= i <= |items| && pout.data + Packed(t, items[i..], zigzag) == old(pout.data) + Packed(t, items, zigzag)
    {
      ghost var data, rest := pout.data, Packed(t, items[i + 1..], zigzag);
      OutVarint(t.w, Wire(t, items[i], zigzag), pout);
      assert items[i..][1..] == items[i + 1..];
      assert pout.data + rest == data + (Varint(Wire(t, items[i], zigzag)) + rest);
      i := i + 1;
    }
  }

  // out_fix32packet, out_fix64packet
  method OutFixPacket(id: nat, w: Width, words: seq<nat>, pout: Out)
    requires FieldOk(FixPacket(id, w, words)) && |FixedPacked(w, words)| < SIZE_END
    modifies pout
    ensures pout.data == old(pout.data) + Emitted(FixPacket(id, w, words))
  {
    hide Varint, Key, LE;
    if |words| == 0 {
      return;
    }
    OutKey(id, DELIMITED, pout);
    OutVarint(W64, w.Size() * |words|, pout);
    OutFixedPacked(w, words, pout);
  }

  method OutFixedPacked(w: Width, words: seq<nat>, pout: Out)
    modifies pout
    ensures pout.data == old(pout.data) + FixedPacked(w, words)
  {
    hide LE;
    var i := 0;
    while i < |words|
      invariant 0 <= i <= |words| && pout.data + FixedPacked(w, words[i..]) == old(pout.data) + FixedPacked(w, words)
    {
      ghost var data, rest := pout.data, FixedPacked(w, words[i + 1..]);
      pout.Append(LE(words[i], w.Size()));
      assert words[i..][1..] == words[i + 1..];
      assert pout.data + rest == data + (LE(words[i], w.Size()) + rest);
      i := i + 1;
    }
  }

  // serialize of an object with an id
  method Serialize(pout: Out, id: nat, fields: seq<Field>)
    requires AllOk(fields) && AllSized(fields) && |Content(fields)| < SIZE_END
    modifies pout
    ensures pout.data == old(pout.data) + Delimited(id, Content(fields))
    decreases fields, 1
  {
    hide Varint, Key, Content, AllOk, AllSized;
    var sizebody := SizeContent(fields);
    if sizebody == 0 {
      return;
    }
    OutKey(id, DELIMITED, pout);
    OutVarint(W64, sizebody, pout);
    OutContent(pout, fields);
  }

  method OutField(pout: Out, f: Field)
    requires FieldOk(f) && Sized(f)
    modifies pout
    ensures pout.data == old(pout.data) + Emitted(f)
    decreases f, 0
  {
    hide Varint, Key, Packed, FixedPacked, Wire, LE, Delimited, Content;
    match f {
      case Var(id, t, v, zigzag) => OutVar(pout, id, t, v, zigzag);
      case Fixed(id, w, bits) => OutFixed(pout, id, w, bits);
      case Cls(id, data) => OutCls(pout, id, data);
      case VarPacket(id, t, items, zigzag) => OutVarPacket(id, t, items, pout, zigzag);
      case FixPacket(id, w, words) => OutFixPacket(id, w, words, pout);
      case Object(id, fields) => Serialize(pout, id, fields);
    }
  }

  /** out_content of an object: its fields one after the other. */
  method OutContent(pout: Out, fs: seq<Field>)
    requires AllOk(fs) && AllSized(fs)
    modifies pout
    ensures pout.data == old(pout.data) + Content(fs)
    decreases fs, 0
  {
    hide Emitted, FieldOk, Sized;
    var i := 0;
    while i < |fs|
      invariant 0 <= i <= |fs| && AllOk(fs[i..]) && AllSized(fs[i..]) && pout.data + Content(fs[i..]) == old(pout.data) + Content(fs)
    {
      ghost var data, rest := pout.data, Content(fs[i + 1..]);
      assert fs[i..][0] == fs[i] && fs[i..][1..] == fs[i + 1..];
      OutField(pout, fs[i]);
      assert pout.data + rest == data + (Emitted(fs[i]) + rest);
      i := i + 1;
    }
  }

  // A message that fits an int has every payload fit a size.
  lemma {:induction false} FitsSized(f: Field)
    requires FieldOk(f) && |Emitted(f)| < SIZE_END
    ensures Sized(f)
    decreases f
  {
    hide Varint, Key, Wire;
    match f {
      case Object(_, fields) => AllFitSized(fields);
      case _ =>
    }
  }

  lemma {:induction false} AllFitSized(fs: seq<Field>)
    requires AllOk(fs) && |Content(fs)| < SIZE_END
    ensures AllSized(fs)
    decreases fs
  {
    hide Emitted, FieldOk, Sized;
    if fs != [] {
      FitsSized(fs[0]);
      AllFitSized(fs[1..]);
    }
  }

  /** Written by out_content and read by parse: the size announced is the size written, and the fields
      come back, nested messages and packets included. */
  method RoundTripped(fs: seq<Field>) returns (size: nat, msg: seq<byte>, end: End, events: seq<Event>)
    requires AllOk(fs) && |Content(fs)| < INT_END
    ensures size == |msg|
    ensures end == Whole && events == Reported(fs) && AllRegained(fs, events)
  {
    hide Content, Reported, AllRegained, AllOk, AllSized, Parse;
    AllFitSized(fs);
    var pout := new Out();
    var obj := new Handler();
    size := SizeContent(fs);
    OutContent(pout, fs);
    msg := pout.data;
    assert msg == Content(fs);
    end := ParseMessage(msg, obj);
    events := obj.events;
    RoundTrip(fs);
    MessageRoundTrip(fs);
  }
}
