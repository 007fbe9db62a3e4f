/** Protobuf messages of ec_protoc.h: the bytes a list of fields is written as, what parse reports for any
    bytes, and that the second undoes the first. */
module ProtocFields {
  import opened Wrappers
  import opened Bytes
  import opened Powers
  import opened Varints

  const VARINT := 0
  const FIXED64 := 1
  const DELIMITED := 2
  const FIXED32 := 5
  const INT_END := 0x8000_0000

  // An integral type: its width, and whether it is signed.
  datatype IntType = IntType(w: Width, signed: bool)
  {
    predicate Holds(v: int) {
      if signed then IsSigned(w, v) else 0 <= v < w.Limit()
    }

    // The cast to the type, of a pattern of its width.
    function Cast(x: nat): (v: int)
      requires x < w.Limit()
      ensures Holds(v)
    {
      if signed then ToSigned(w, x) else x
    }
  }

  // What out_content writes.
  datatype Field =
    | Var(id: nat, t: IntType, v: int, zigzag: bool)
    | Fixed(id: nat, w: Width, bits: nat)
    | Cls(id: nat, data: seq<byte>)
    | VarPacket(id: nat, t: IntType, items: seq<int>, zigzag: bool)
    | FixPacket(id: nat, w: Width, words: seq<nat>)
    | Object(id: nat, fields: seq<Field>)

  // What parse calls: on_var, on_fixed, on_cls.
  datatype Event = OnVar(id: nat, v: nat) | OnFixed(id: nat, w: Width, bits: nat) | OnCls(id: nat, data: seq<byte>)

  predicate FieldOk(f: Field) {
    f.id < 0x1_0000_0000 &&
    match f
    case Var(_, t, v, _) => t.Holds(v)
    case Fixed(_, w, bits) => bits < w.Limit()
    case Cls(_, _) => true
    case VarPacket(_, t, items, _) => forall i :: 0 <= i < |items| ==> t.Holds(items[i])
    case FixPacket(_, w, words) => forall i :: 0 <= i < |words| ==> words[i] < w.Limit()
    case Object(_, fields) => AllOk(fields)
  }

  predicate AllOk(fs: seq<Field>) {
    fs == [] || (FieldOk(fs[0]) && AllOk(fs[1..]))
  }

  // ---- what is written ----

  // (field_number << 3) | wire_type in 32 bits: an id keeps its low 29 bits.
  function Key(id: nat, wire: nat): (k: nat)
    requires wire < 8
    ensures k < 0x1_0000_0000
  {
    (id % 0x2000_0000) * 8 + wire
  }

  function FieldNumber(id: nat): nat { id % 0x2000_0000 }

  function Wire(t: IntType, v: int, zigzag: bool): (u: nat)
    requires t.Holds(v)
    ensures u < t.w.Limit()
  {
    var x := v % t.w.Limit();
    if zigzag then ZigZag(t.w, ToSigned(t.w, x)) else x
  }

  function Packed(t: IntType, items: seq<int>, zigzag: bool): (s: seq<byte>)
    requires forall i :: 0 <= i < |items| ==> t.Holds(items[i])
    ensures items != [] ==> s != []
  {
    if items == [] then [] else Varint(Wire(t, items[0], zigzag)) + Packed(t, items[1..], zigzag)
  }

  function FixedPacked(w: Width, words: seq<nat>): (s: seq<byte>)
    ensures |s| == w.Size() * |words|
  {
    if words == [] then [] else LE(words[0], w.Size()) + FixedPacked(w, words[1..])
  }

  // out_cls: nothing for no data.
  function Delimited(id: nat, data: seq<byte>): seq<byte> {
    if data == [] then [] else Varint(Key(id, DELIMITED)) + Varint(|data|) + data
  }

  function FixedWire(w: Width): (k: nat) ensures k < 8 { if w.W32? then FIXED32 else FIXED64 }

  function Emitted(f: Field): seq<byte>
    requires FieldOk(f)
    decreases f
  {
    match f
    case Var(id, t, v, zigzag) => if v == 0 then [] else Varint(Key(id, VARINT)) + Varint(Wire(t, v, zigzag))
    case Fixed(id, w, bits) => Varint(Key(id, FixedWire(w))) + LE(bits, w.Size())
    case Cls(id, data) => Delimited(id, data)
    case VarPacket(id, t, items, zigzag) => Delimited(id, Packed(t, items, zigzag))
    case FixPacket(id, w, words) => Delimited(id, FixedPacked(w, words))
    case Object(id, fields) => Delimited(id, Content(fields))
  }

  function Content(fs: seq<Field>): seq<byte>
    requires AllOk(fs)
    decreases fs
  {
    if fs == [] then [] else Emitted(fs[0]) + Content(fs[1..])
  }

  // ---- what is read ----

  datatype End = Whole | Refused | Outside

  // How parse ended, and what it reported until then. Outside: a length of 2^31 or more, taken for a
  // negative one, moved the cursor out of the message.
  datatype Outcome = Outcome(end: End, events: seq<Event>)

  datatype Got = Got(e: Event, n: nat) | Lost(end: End)

  function ReadFixed(id: nat, w: Width, s: seq<byte>): (r: Got)
    ensures r.Got? ==> r.n <= |s|
  {
    if |s| < w.Size() then Lost(Refused) else Got(OnFixed(id, w, UnLE(s[..w.Size()])), w.Size())
  }

  function ReadDelimited(id: nat, s: seq<byte>): (r: Got)
    ensures r.Got? ==> r.n <= |s|
  {
    match ReadVarint(W32, s)
    case None => Lost(Refused)
    case Some((ul, n)) =>
      if ul >= INT_END then Lost(Outside)
      else if |s| - n < ul then Lost(Refused)
      else Got(OnCls(id, s[n..n + ul]), n + ul)
  }

  function ReadVar(id: nat, s: seq<byte>): (r: Got)
    ensures r.Got? ==> r.n <= |s|
  {
    match ReadVarint(W64, s)
    case None => Lost(Refused)
    case Some((v, n)) => Got(OnVar(id, v), n)
  }

  // The value of a field, by its wire type.
  function ReadValue(id: nat, wire: nat, s: seq<byte>): (r: Got)
    ensures r.Got? ==> r.n <= |s|
  {
    if wire == VARINT then ReadVar(id, s)
    else if wire == DELIMITED then ReadDelimited(id, s)
    else if wire == FIXED32 then ReadFixed(id, W32, s)
    else if wire == FIXED64 then ReadFixed(id, W64, s)
    else Lost(Refused)
  }

  // A key and the value behind it.
  function ReadField(s: seq<byte>): (r: Got)
    ensures r.Got? ==> 0 < r.n <= |s|
  {
    match ReadVarint(W32, s)
    case None => Lost(Refused)
    case Some((key, n)) =>
      match ReadValue(key / 8, key % 8, s[n..])
      case Lost(end) => Lost(end)
      case Got(e, m) => Got(e, n + m)
  }

  function ParseFrom(s: seq<byte>): Outcome {
    if s == [] then Outcome(Whole, []) else
    match ReadField(s)
    case Lost(end) => Outcome(end, [])
    case Got(e, n) => var r := ParseFrom(s[n..]); Outcome(r.end, [e] + r.events)
  }

  // The length is an int: of a longer message the low 32 bits, as a signed number.
  function Parse(msg: seq<byte>): Outcome {
    if msg == [] then Outcome(Whole, []) else
    var len := ToSigned(W32, |msg| % 0x1_0000_0000);
    if len <= 0 then Outcome(Refused, []) else
    ParseFrom(msg[..len])
  }

  // ---- the fields reported ----

  // Fields at their default are not written.
  predicate Omitted(f: Field) {
    match f
    case Var(_, _, v, _) => v == 0
    case Fixed(_, _, _) => false
    case Cls(_, data) => data == []
    case VarPacket(_, _, items, _) => items == []
    case FixPacket(_, _, words) => words == []
    case Object(_, fields) => AllOmitted(fields)
  }

  predicate AllOmitted(fs: seq<Field>) {
    fs == [] || (Omitted(fs[0]) && AllOmitted(fs[1..]))
  }

  // The data of a length-delimited field.
  function Payload(f: Field): seq<byte>
    requires FieldOk(f) && !f.Var? && !f.Fixed?
  {
    match f
    case Cls(_, data) => data
    case VarPacket(_, t, items, zigzag) => Packed(t, items, zigzag)
    case FixPacket(_, w, words) => FixedPacked(w, words)
    case Object(_, fields) => Content(fields)
  }

  function EventOf(f: Field): Event
    requires FieldOk(f)
  {
    match f
    case Var(id, t, v, zigzag) => OnVar(FieldNumber(id), Wire(t, v, zigzag))
    case Fixed(id, w, bits) => OnFixed(FieldNumber(id), w, bits)
    case _ => OnCls(FieldNumber(f.id), Payload(f))
  }

  function Reported(fs: seq<Field>): seq<Event>
    requires AllOk(fs)
  {
    if fs == [] then [] else (if Omitted(fs[0]) then [] else [EventOf(fs[0])]) + Reported(fs[1..])
  }

  // ---- the round trip ----

  // A field is written as nothing exactly when all of it is at its default.
  lemma {:induction false} OmittedIsEmpty(f: Field)
    requires FieldOk(f)
    ensures Emitted(f) == [] <==> Omitted(f)
    decreases f
  {
    match f
    case Var(_, _, _, _) =>
    case Fixed(_, _, _) =>
    case Cls(_, _) =>
    case VarPacket(_, _, _, _) =>
    case FixPacket(_, w, words) => assert |words| > 0 ==> w.Size() * |words| > 0;
    case Object(_, fields) => AllOmittedIsEmpty(fields);
  }

  lemma {:induction false} AllOmittedIsEmpty(fs: seq<Field>)
    requires AllOk(fs)
    ensures Content(fs) == [] <==> AllOmitted(fs)
    decreases fs
  {
    if fs != [] {
      OmittedIsEmpty(fs[0]);
      AllOmittedIsEmpty(fs[1..]);
    }
  }

  lemma KeyRead(id: nat, wire: nat, value: seq<byte>)
    requires wire < 8
    ensures var s := Varint(Key(id, wire)) + value; var n := |Varint(Key(id, wire))|;
            ReadField(s) == match ReadValue(FieldNumber(id), wire, value) case Lost(end) => Lost(end) case Got(e, m) => Got(e, n + m)
  {
    hide Varint, ReadVarint, ReadValue;
    var k := Varint(Key(id, wire));
    VarintRoundTrip(W32, Key(id, wire), value);
    assert (k + value)[|k|..] == value;
    assert Key(id, wire) / 8 == FieldNumber(id) && Key(id, wire) % 8 == wire;
  }

  lemma VarRead(id: nat, w: Width, u: nat, rest: seq<byte>)
    requires u < w.Limit()
    ensures ReadVar(id, Varint(u) + rest) == Got(OnVar(id, u), |Varint(u)|)
  {
    hide Varint, ReadVarint;
    VarintRoundTrip(W64, u, rest);
  }

  lemma DelimitedRead(id: nat, data: seq<byte>, rest: seq<byte>)
    requires |data| < INT_END
    ensures ReadDelimited(id, Varint(|data|) + data + rest) == Got(OnCls(id, data), |Varint(|data|)| + |data|)
  {
    hide Varint, ReadVarint;
    var v := Varint(|data|);
    VarintRoundTrip(W32, |data|, data + rest);
    assert v + data + rest == v + (data + rest);
    assert (v + data + rest)[|v|..|v| + |data|] == data;
  }

  lemma FixedRead(id: nat, w: Width, bits: nat, rest: seq<byte>)
    requires bits < w.Limit()
    ensures ReadFixed(id, w, LE(bits, w.Size()) + rest) == Got(OnFixed(id, w, bits), w.Size())
  {
    hide LE, UnLE;
    Pow256Limit(w);
    LERoundTrip(bits, w.Size());
    assert (LE(bits, w.Size()) + rest)[..w.Size()] == LE(bits, w.Size());
  }

  lemma Pow256Limit(w: Width)
    ensures Pow256(w.Size()) == w.Limit()
  {
    assert Pow256(4) == 0x1_0000_0000 && Pow256(8) == 0x1_0000_0000_0000_0000;
  }

  // A field written is read, whatever follows.
  lemma FieldRead(f: Field, rest: seq<byte>)
    requires FieldOk(f) && !Omitted(f) && |Emitted(f)| < INT_END
    ensures ReadField(Emitted(f) + rest) == Got(EventOf(f), |Emitted(f)|)
  {
    hide Varint, ReadVarint, ReadField, Omitted, Wire, Packed, FixedPacked, Content, Key, LE, ReadVar, ReadFixed, ReadDelimited;
    OmittedIsEmpty(f);
    match f {
      case Var(id, t, v, zigzag) =>
        var u := Wire(t, v, zigzag);
        KeyRead(id, VARINT, Varint(u) + rest);
        VarRead(FieldNumber(id), t.w, u, rest);
        assert Emitted(f) + rest == Varint(Key(id, VARINT)) + (Varint(u) + rest);
      case Fixed(id, w, bits) =>
        KeyRead(id, FixedWire(w), LE(bits, w.Size()) + rest);
        FixedRead(FieldNumber(id), w, bits, rest);
        assert Emitted(f) + rest == Varint(Key(id, FixedWire(w))) + (LE(bits, w.Size()) + rest);
      case Cls(id, data) => DelimitedFieldRead(id, data, rest);
      case VarPacket(id, t, items, zigzag) => DelimitedFieldRead(id, Payload(f), rest);
      case FixPacket(id, w, words) => DelimitedFieldRead(id, Payload(f), rest);
      case Object(id, fields) => DelimitedFieldRead(id, Payload(f), rest);
    }
  }

  lemma DelimitedFieldRead(id: nat, data: seq<byte>, rest: seq<byte>)
    requires data != [] && |data| < INT_END
    ensures ReadField(Delimited(id, data) + rest) == Got(OnCls(FieldNumber(id), data), |Delimited(id, data)|)
  {
    hide Varint, ReadVarint, ReadField, Key, ReadDelimited;
    var value := Varint(|data|) + data + rest;
    KeyRead(id, DELIMITED, value);
    DelimitedRead(FieldNumber(id), data, rest);
    assert Delimited(id, data) + rest == Varint(Key(id, DELIMITED)) + value;
  }

  lemma {:induction false} ContentRead(fs: seq<Field>)
    requires AllOk(fs) && |Content(fs)| < INT_END
    ensures ParseFrom(Content(fs)) == Outcome(Whole, Reported(fs))
    decreases |fs|
  {
    hide Emitted, EventOf, ReadField, Omitted;
    if fs != [] {
      var f, rest := fs[0], Content(fs[1..]);
      ContentRead(fs[1..]);
      OmittedIsEmpty(f);
      if Omitted(f) {
        assert Content(fs) == rest;
      } else {
        FieldRead(f, rest);
        assert (Emitted(f) + rest)[|Emitted(f)|..] == rest;
      }
    }
  }

  lemma AsInt(n: nat)
    requires n < 0x1_0000_0000
    ensures ToSigned(W32, n % 0x1_0000_0000) == if n < INT_END then n else n - 0x1_0000_0000
  {
  }

  // The fewest bytes that report an event.
  function Cost(e: Event): nat {
    match e
    case OnVar(id, v) => |Varint(id * 8 + VARINT)| + |Varint(v)|
    case OnFixed(id, w, _) => |Varint(id * 8 + FixedWire(w))| + w.Size()
    case OnCls(id, data) => |Varint(id * 8 + DELIMITED)| + |Varint(|data|)| + |data|
  }

  function Costs(es: seq<Event>): nat {
    if es == [] then 0 else Cost(es[0]) + Costs(es[1..])
  }

  lemma ReadCosts(s: seq<byte>)
    requires ReadField(s).Got?
    ensures Cost(ReadField(s).e) <= ReadField(s).n
  {
    hide Varint, ReadVarint;
    var (key, n) := ReadVarint(W32, s).value;
    ShortestVarint(W32, s);
    assert key / 8 * 8 + key % 8 == key;
    var value := s[n..];
    if key % 8 == VARINT {
      ShortestVarint(W64, value);
    } else if key % 8 == DELIMITED {
      ShortestVarint(W32, value);
    }
  }

  lemma LostNotWhole(s: seq<byte>)
    ensures ReadField(s).Lost? ==> ReadField(s).end != Whole
  {
    hide ReadVarint;
  }

  // However it is written, a text that reports these events is no shorter.
  lemma {:induction false} ParseCosts(s: seq<byte>)
    requires ParseFrom(s).end == Whole
    ensures Costs(ParseFrom(s).events) <= |s|
    decreases |s|
  {
    hide ReadField, Cost;
    if s != [] {
      var got := ReadField(s);
      LostNotWhole(s);
      ReadCosts(s);
      ParseCosts(s[got.n..]);
      assert ([got.e] + ParseFrom(s[got.n..]).events)[1..] == ParseFrom(s[got.n..]).events;
    }
  }

  lemma EmittedCosts(f: Field)
    requires FieldOk(f) && !Omitted(f)
    ensures |Emitted(f)| == Cost(EventOf(f))
  {
    hide Varint, Omitted, Wire, Packed, FixedPacked, Content, LE;
    OmittedIsEmpty(f);
  }

  lemma {:induction false} ContentCosts(fs: seq<Field>)
    requires AllOk(fs)
    ensures |Content(fs)| == Costs(Reported(fs))
    decreases |fs|
  {
    hide Emitted, EventOf, Omitted, Cost;
    if fs != [] {
      OmittedIsEmpty(fs[0]);
      ContentCosts(fs[1..]);
      if Omitted(fs[0]) {
        assert Reported(fs) == Reported(fs[1..]);
      } else {
        EmittedCosts(fs[0]);
        assert Reported(fs)[1..] == Reported(fs[1..]);
      }
    }
  }

  // Nothing shorter than the bytes written is reported as the same fields.
  lemma NothingShorter(fs: seq<Field>, s: seq<byte>)
    requires AllOk(fs) && ParseFrom(s) == Outcome(Whole, Reported(fs))
    ensures |Content(fs)| <= |s|
  {
    hide Content, Reported, ParseFrom;
    ParseCosts(s);
    ContentCosts(fs);
  }

  /** parse reports exactly the fields written, in order, without the ones at their default, if and only if
      their bytes have a length that fits an int. Up to 2^32 bytes nothing is reported otherwise. */
  lemma RoundTrip(fs: seq<Field>)
    requires AllOk(fs)
    ensures Parse(Content(fs)) == Outcome(Whole, Reported(fs)) <==> |Content(fs)| < INT_END
    ensures INT_END <= |Content(fs)| < 0x1_0000_0000 ==> Parse(Content(fs)) == Outcome(Refused, [])
  {
    hide Content, Reported, ToSigned, ParseFrom;
    var s := Content(fs);
    if |s| < 0x1_0000_0000 {
      AsInt(|s|);
    }
    if |s| < INT_END {
      ContentRead(fs);
      assert s[..|s|] == s;
      NoBytes(s, fs);
    } else {
      var len := ToSigned(W32, |s| % 0x1_0000_0000);
      if 0 < len && ParseFrom(s[..len]) == Outcome(Whole, Reported(fs)) {
        NothingShorter(fs, s[..len]);
      }
    }
  }

  lemma NoBytes(s: seq<byte>, fs: seq<Field>)
    requires AllOk(fs) && s == Content(fs)
    ensures s == [] ==> ParseFrom(s) == Outcome(Whole, [])
  {
  }

  // For instance a bytes field that fills 2^31 bytes by itself.
  lemma TooLong(data: seq<byte>)
    requires |data| == INT_END
    ensures Parse(Content([Cls(1, data)])) == Outcome(Refused, [])
  {
    hide Parse, Varint;
    var fs := [Cls(1, data)];
    assert FieldOk(fs[0]) && fs[1..] == [];
    assert Content(fs) == Delimited(1, data) + [];
    VarintBytes(10);
    VarintBytes(INT_END);
    RoundTrip(fs);
  }

  lemma VarintBytes(v: nat)
    requires v < 0x1_0000_0000
    ensures |Varint(v)| <= 5
  {
    hide Varint;
    VarintStep(v);
    VarintStep(v / 128);
    VarintStep(v / 128 / 128);
    VarintStep(v / 128 / 128 / 128);
    VarintStep(v / 128 / 128 / 128 / 128);
  }

  // ---- what the handlers make of the reports ----

  // CASE_I32, CASE_U64, CASE_S32, ...: the cast, behind zigzag or not.
  function FromWire(t: IntType, zigzag: bool, u: nat): (v: int)
    ensures t.Holds(v)
  {
    var x := u % t.w.Limit();
    t.Cast(if zigzag then UnZigZag(t.w, x) % t.w.Limit() else x)
  }

  lemma Remain(x: nat, m: nat)
    requires x < m
    ensures x % m == x
  {
  }

  lemma CastBack(t: IntType, v: int)
    requires t.Holds(v)
    ensures t.Cast(v % t.w.Limit()) == v
  {
    match t.w
    case W32 =>
    case W64 =>
  }

  lemma WireRoundTrip(t: IntType, v: int, zigzag: bool)
    requires t.Holds(v)
    ensures FromWire(t, zigzag, Wire(t, v, zigzag)) == v
  {
    hide ZigZag, UnZigZag, ToSigned, IsSigned;
    var x := v % t.w.Limit();
    if zigzag {
      ZigZagMeaning(t.w, ToSigned(t.w, x));
      Remain(Wire(t, v, zigzag), t.w.Limit());
    } else {
      Remain(x, t.w.Limit());
    }
    CastBack(t, v);
  }

  // CASE_VI32: varints up to the end of the data.
  function Unpacked(t: IntType, zigzag: bool, data: seq<byte>): seq<int> {
    if data == [] then [] else
    match ReadVarint(t.w, data)
    case None => []
    case Some((u, n)) => [FromWire(t, zigzag, u)] + Unpacked(t, zigzag, data[n..])
  }

  lemma {:induction false} PackedRoundTrip(t: IntType, items: seq<int>, zigzag: bool)
    requires forall i :: 0 <= i < |items| ==> t.Holds(items[i])
    ensures Unpacked(t, zigzag, Packed(t, items, zigzag)) == items
    decreases |items|
  {
    hide Wire, FromWire, ReadVarint, Varint;
    if items != [] {
      var u, rest := Wire(t, items[0], zigzag), Packed(t, items[1..], zigzag);
      PackedRoundTrip(t, items[1..], zigzag);
      VarintRoundTrip(t.w, u, rest);
      WireRoundTrip(t, items[0], zigzag);
      assert (Varint(u) + rest)[|Varint(u)|..] == rest;
      assert [items[0]] + items[1..] == items;
    }
  }

  // The words of a fixed packet, one get_fixed after the other.
  function FixedUnpacked(w: Width, data: seq<byte>): seq<nat> {
    if |data| < w.Size() then [] else [UnLE(data[..w.Size()])] + FixedUnpacked(w, data[w.Size()..])
  }

  lemma {:induction false} FixedPackedRoundTrip(w: Width, words: seq<nat>)
    requires forall i :: 0 <= i < |words| ==> words[i] < w.Limit()
    ensures FixedUnpacked(w, FixedPacked(w, words)) == words
    decreases |words|
  {
    hide LE, UnLE;
    if words != [] {
      var a, rest := LE(words[0], w.Size()), FixedPacked(w, words[1..]);
      FixedPackedRoundTrip(w, words[1..]);
      Pow256Limit(w);
      LERoundTrip(words[0], w.Size());
      assert FixedPacked(w, words) == a + rest;
      assert (a + rest)[..w.Size()] == a && (a + rest)[w.Size()..] == rest;
      assert [words[0]] + words[1..] == words;
    } else {
      assert FixedPacked(w, words) == [];
    }
  }

  // The report gives the field back: a number by its cast, a packet by unpacking it, an object by parsing it.
  ghost predicate Regained(f: Field, e: Event)
    decreases f
  {
    match f
    case Var(id, t, v, zigzag) => e.OnVar? && e.id == FieldNumber(id) && FromWire(t, zigzag, e.v) == v
    case Fixed(id, w, bits) => e == OnFixed(FieldNumber(id), w, bits)
    case Cls(id, data) => e == OnCls(FieldNumber(id), data)
    case VarPacket(id, t, items, zigzag) => e.OnCls? && e.id == FieldNumber(id) && Unpacked(t, zigzag, e.data) == items
    case FixPacket(id, w, words) => e.OnCls? && e.id == FieldNumber(id) && FixedUnpacked(w, e.data) == words
    case Object(id, fields) => e.OnCls? && e.id == FieldNumber(id) && Parse(e.data).end == Whole && AllRegained(fields, Parse(e.data).events)
  }

  ghost predicate AllRegained(fs: seq<Field>, es: seq<Event>)
    decreases fs
  {
    if fs == [] then es == []
    else if Omitted(fs[0]) then AllRegained(fs[1..], es)
    else es != [] && Regained(fs[0], es[0]) && AllRegained(fs[1..], es[1..])
  }

  lemma {:induction false} EventRegains(f: Field)
    requires FieldOk(f) && !Omitted(f) && |Emitted(f)| < INT_END
    ensures Regained(f, EventOf(f))
    decreases f
  {
    match f {
      case Var(_, t, v, zigzag) => WireRoundTrip(t, v, zigzag);
      case Fixed(_, _, _) =>
      case Cls(_, _) =>
      case VarPacket(_, t, items, zigzag) => PackedRoundTrip(t, items, zigzag);
      case FixPacket(_, w, words) => FixedPackedRoundTrip(w, words);
      case Object(_, fields) =>
        RoundTrip(fields);
        ReportsRegain(fields);
    }
  }

  lemma {:induction false} ReportsRegain(fs: seq<Field>)
    requires AllOk(fs) && |Content(fs)| < INT_END
    ensures AllRegained(fs, Reported(fs))
    decreases fs
  {
    hide Emitted, EventOf, Regained, Omitted;
    if fs != [] {
      ReportsRegain(fs[1..]);
      if Omitted(fs[0]) {
        assert Reported(fs) == Reported(fs[1..]);
      } else {
        EventRegains(fs[0]);
        assert Reported(fs)[1..] == Reported(fs[1..]);
      }
    }
  }

  /** A message of any depth comes back whole: parse accepts the bytes, and what it reports, with packets
      unpacked and nested messages parsed in turn, is the fields that were written. */
  lemma MessageRoundTrip(fs: seq<Field>)
    requires AllOk(fs) && |Content(fs)| < INT_END
    ensures Parse(Content(fs)).end == Whole && AllRegained(fs, Parse(Content(fs)).events)
  {
    hide Content, Reported, AllRegained, Parse;
    RoundTrip(fs);
    ReportsRegain(fs);
  }
}
