/**
 Cast channel messages (cockpit/server/pn_cast_display.py): protocol buffer varints, fields, and the
 six-field message that is sent behind a four-byte length.
 */
module CastMessage {
  import opened Bytes
  import opened Frames

  // ----- Varints -----

  function Varint(n: nat): (r: seq<Byte>)
    ensures |r| > 0
  {
    if n < 0x80 then [n] else [n % 0x80 + 0x80] + Varint(n / 0x80)
  }

  lemma VarintByte(n: nat)
    ensures Varint(n) == if n / 0x80 == 0 then [n % 0x80] else [n % 0x80 + 0x80] + Varint(n / 0x80)
  {
  }

  // The loop of `_varint`.
  method EncodeVarint(n: nat) returns (out: seq<Byte>)
    ensures out == Varint(n)
  {
    out := [];
    var m := n;
    while true
      invariant out + Varint(m) == Varint(n)
      decreases m
    {
      VarintByte(m);
      hide Varint;
      ghost var before := out;
      var b := m % 0x80;
      m := m / 0x80;
      out := out + [if m != 0 then b + 0x80 else b];
      if m == 0 {
        return;
      }
      assert out + Varint(m) == before + ([b + 0x80] + Varint(m));
    }
  }

  // The number that starts at position i and the position behind it; a number cut off by the end of
  // the buffer counts for what is there.
  function ReadVarint(buf: seq<Byte>, i: nat): (r: (nat, nat))
    ensures i <= |buf| ==> i <= r.1 <= |buf|
    ensures i < |buf| ==> i < r.1
    decreases |buf| - i
  {
    if i >= |buf| then (0, i)
    else if buf[i] < 0x80 then (buf[i], i + 1)
    else
      var r := ReadVarint(buf, i + 1);
      (buf[i] - 0x80 + 0x80 * r.0, r.1)
  }

  lemma Shifted(val: nat, unit: nat, low: nat, high: nat)
    ensures val + unit * (low + 0x80 * high) == (val + low * unit) + (unit * 0x80) * high
  {
  }

  lemma VarintStep(buf: seq<Byte>, i: nat)
    requires i < |buf|
    ensures ReadVarint(buf, i).0 == buf[i] % 0x80 + 0x80 * (if buf[i] < 0x80 then 0 else ReadVarint(buf, i + 1).0)
    ensures ReadVarint(buf, i).1 == if buf[i] < 0x80 then i + 1 else ReadVarint(buf, i + 1).1
  {
  }

  // The loop of `_dec_varint`. `unit` is 1 << shift; `val` stays below it, so or-ing adds.
  method DecodeVarint(buf: seq<Byte>, start: nat) returns (val: nat, i: nat)
    requires start <= |buf|
    ensures (val, i) == ReadVarint(buf, start)
  {
    hide ReadVarint;
    val, i := 0, start;
    var unit: nat := 1;
    while i < |buf|
      invariant start <= i <= |buf| && val < unit
      invariant val + unit * ReadVarint(buf, i).0 == ReadVarint(buf, start).0
      invariant ReadVarint(buf, i).1 == ReadVarint(buf, start).1
      decreases |buf| - i
    {
      var b := buf[i];
      VarintStep(buf, i);
      Shifted(val, unit, b % 0x80, if b < 0x80 then 0 else ReadVarint(buf, i + 1).0);
      BelowUnit(val, unit, b % 0x80);
      i := i + 1;
      val := val + (b % 0x80) * unit;
      if b < 0x80 {
        return;
      }
      unit := unit * 0x80;
    }
    PastTheEnd(buf, i);
  }

  lemma PastTheEnd(buf: seq<Byte>, i: nat)
    requires i >= |buf|
    ensures ReadVarint(buf, i) == (0, i)
  {
  }

  lemma BelowUnit(val: nat, unit: nat, low: nat)
    requires val < unit && low < 0x80
    ensures val + low * unit < unit * 0x80
  {
    assert low * unit <= 0x7F * unit;
  }

  // Reading a varint gives the number back, wherever it stands and whatever follows it.
  lemma {:induction false} VarintRoundTrip(before: seq<Byte>, n: nat, rest: seq<Byte>)
    ensures ReadVarint(before + Varint(n) + rest, |before|) == (n, |before| + |Varint(n)|)
    decreases n
  {
    var buf := before + Varint(n) + rest;
    if n >= 0x80 {
      var b := n % 0x80 + 0x80;
      VarintRoundTrip(before + [b], n / 0x80, rest);
      assert (before + [b]) + Varint(n / 0x80) + rest == buf;
    }
  }

  function ShiftedRight(n: nat, sevens: nat): nat {
    if sevens == 0 then n else ShiftedRight(n / 0x80, sevens - 1)
  }

  // Seven bits in each byte, lowest first; the high bit stands in all but the last, and no byte is spare.
  lemma {:induction false} VarintExactly(n: nat)
    ensures var r := Varint(n);
      ShiftedRight(n, |r|) == 0 && (|r| > 1 ==> ShiftedRight(n, |r| - 1) > 0)
      && (forall k :: 0 <= k < |r| - 1 ==> r[k] == ShiftedRight(n, k) % 0x80 + 0x80) && r[|r| - 1] == ShiftedRight(n, |r| - 1)
  {
    if n >= 0x80 {
      VarintExactly(n / 0x80);
      var rest := Varint(n / 0x80);
      assert Varint(n) == [n % 0x80 + 0x80] + rest;
      forall k | 0 < k < |rest|
        ensures Varint(n)[k] == ShiftedRight(n, k) % 0x80 + 0x80
      {
        assert Varint(n)[k] == rest[k - 1];
      }
    }
  }

  // ----- Messages -----

  function StrField(fn: nat, text: string): seq<Byte> {
    Varint(fn * 8 + 2) + Varint(|Utf8(text)|) + Utf8(text)
  }

  function VintField(fn: nat, v: nat): seq<Byte> {
    Varint(fn * 8) + Varint(v)
  }

  // `_encode_castmessage` without the length in front.
  function Body(source: string, dest: string, ns: string, payload: string): seq<Byte> {
    VintField(1, 0) + StrField(2, source) + StrField(3, dest) + StrField(4, ns) + VintField(5, 0) + StrField(6, payload)
  }

  // `struct.pack(">I", …)` refuses a longer body.
  function EncodeMessage(source: string, dest: string, ns: string, payload: string): seq<Byte>
    requires |Body(source, dest, ns, payload)| < 0x1_0000_0000
  {
    BigEndian(|Body(source, dest, ns, payload)|, 4) + Body(source, dest, ns, payload)
  }

  datatype FieldValue = Number(n: nat) | Data(bytes: seq<Byte>)

  type Fields = map<nat, FieldValue>

  // `buf[i:i + n]`, which stops at the end of the buffer.
  function Slice(buf: seq<Byte>, i: nat, n: nat): seq<Byte> {
    if i >= |buf| then [] else if i + n > |buf| then buf[i..] else buf[i..i + n]
  }

  // The field at position i: its number, its value and the position behind it; None for a wire type
  // that ends the loop.
  function ReadField(buf: seq<Byte>, i: nat): (r: Option<(nat, FieldValue, nat)>)
    requires i < |buf|
    ensures r.Some? ==> i < r.value.2
  {
    var (tag, j) := ReadVarint(buf, i);
    var fn, wire := tag / 8, tag % 8;
    if wire == 0 then
      var (v, k) := ReadVarint(buf, j);
      Some((fn, Number(v), k))
    else if wire == 2 then
      var (n, k) := ReadVarint(buf, j);
      Some((fn, Data(Slice(buf, k, n)), k + n))
    else if wire == 5 then Some((fn, Data(Slice(buf, j, 4)), j + 4))
    else if wire == 1 then Some((fn, Data(Slice(buf, j, 8)), j + 8))
    else None
  }

  // The loop of `_decode_castmessage`; the last field of a number wins.
  function ReadFields(buf: seq<Byte>, i: nat, fields: Fields): Fields
    decreases |buf| - i
  {
    if i >= |buf| then fields
    else
      match ReadField(buf, i)
      case None => fields
      case Some((fn, v, k)) => ReadFields(buf, k, fields[fn := v])
  }

  function BytesOf(fields: Fields, fn: nat): seq<Byte> {
    if fn in fields && fields[fn].Data? then fields[fn].bytes else []
  }

  // The namespace and the payload of a message, as the bytes that are then decoded as UTF-8.
  function Decode(buf: seq<Byte>): (seq<Byte>, seq<Byte>) {
    var fields := ReadFields(buf, 0, map[]);
    (BytesOf(fields, 4), BytesOf(fields, 6))
  }

  // `_decode_castmessage`: ends on every input, since every round consumes at least one byte.
  method DecodeCastMessage(buf: seq<Byte>) returns (ns: seq<Byte>, payload: seq<Byte>)
    ensures (ns, payload) == Decode(buf)
  {
    hide ReadVarint;
    var fields: Fields := map[];
    var i := 0;
    while i < |buf|
      invariant ReadFields(buf, i, fields) == ReadFields(buf, 0, map[])
      decreases |buf| - i
    {
      var tag, j := DecodeVarint(buf, i);
      var fn, wire := tag / 8, tag % 8;
      if wire == 0 {
        var v, k := DecodeVarint(buf, j);
        fields, i := fields[fn := Number(v)], k;
      } else if wire == 2 {
        var n, k := DecodeVarint(buf, j);
        fields, i := fields[fn := Data(Slice(buf, k, n))], k + n;
      } else if wire == 5 {
        fields, i := fields[fn := Data(Slice(buf, j, 4))], j + 4;
      } else if wire == 1 {
        fields, i := fields[fn := Data(Slice(buf, j, 8))], j + 8;
      } else {
        break;
      }
    }
    ns, payload := BytesOf(fields, 4), BytesOf(fields, 6);
  }

  lemma StrFieldIsRead(before: seq<Byte>, fn: nat, text: string, rest: seq<Byte>)
    ensures var buf := before + StrField(fn, text) + rest;
      |before| < |buf| &&
      ReadField(buf, |before|) == Some((fn, Data(Utf8(text)), |before + StrField(fn, text)|))
  {
    hide Varint, ReadVarint, Utf8;
    var b := Utf8(text);
    var buf := before + StrField(fn, text) + rest;
    var tag, size := Varint(fn * 8 + 2), Varint(|b|);
    VarintRoundTrip(before, fn * 8 + 2, size + b + rest);
    assert before + tag + (size + b + rest) == buf;
    VarintRoundTrip(before + tag, |b|, b + rest);
    assert before + tag + size + (b + rest) == buf;
    var k := |before + tag + size|;
    assert buf[k..k + |b|] == b;
  }

  lemma VintFieldIsRead(before: seq<Byte>, fn: nat, v: nat, rest: seq<Byte>)
    ensures var buf := before + VintField(fn, v) + rest;
      |before| < |buf| &&
      ReadField(buf, |before|) == Some((fn, Number(v), |before + VintField(fn, v)|))
  {
    hide Varint, ReadVarint;
    var buf := before + VintField(fn, v) + rest;
    VarintRoundTrip(before, fn * 8, Varint(v) + rest);
    assert before + Varint(fn * 8) + (Varint(v) + rest) == buf;
    VarintRoundTrip(before + Varint(fn * 8), v, rest);
    assert before + Varint(fn * 8) + Varint(v) + rest == buf;
  }

  lemma NextField(buf: seq<Byte>, i: nat, fields: Fields, fn: nat, v: FieldValue, k: nat)
    requires i < |buf| && ReadField(buf, i) == Some((fn, v, k))
    ensures ReadFields(buf, i, fields) == ReadFields(buf, k, fields[fn := v])
  {
    hide ReadField;
  }

  lemma NextStr(before: seq<Byte>, fn: nat, text: string, rest: seq<Byte>, fields: Fields)
    ensures var buf := before + StrField(fn, text) + rest;
      ReadFields(buf, |before|, fields) ==
      ReadFields(buf, |before + StrField(fn, text)|, fields[fn := Data(Utf8(text))])
  {
    hide ReadField, StrField;
    StrFieldIsRead(before, fn, text, rest);
    NextField(before + StrField(fn, text) + rest, |before|, fields, fn, Data(Utf8(text)), |before + StrField(fn, text)|);
  }

  lemma NextVint(before: seq<Byte>, fn: nat, v: nat, rest: seq<Byte>, fields: Fields)
    ensures var buf := before + VintField(fn, v) + rest;
      ReadFields(buf, |before|, fields) ==
      ReadFields(buf, |before + VintField(fn, v)|, fields[fn := Number(v)])
  {
    hide ReadField, VintField;
    VintFieldIsRead(before, fn, v, rest);
    NextField(before + VintField(fn, v) + rest, |before|, fields, fn, Number(v), |before + VintField(fn, v)|);
  }

  // The six fields of an encoded message, and so its namespace and its payload, are read back.
  lemma MessageRoundTrip(source: string, dest: string, ns: string, payload: string)
    ensures ReadFields(Body(source, dest, ns, payload), 0, map[]) ==
      map[1 := Number(0), 2 := Data(Utf8(source)), 3 := Data(Utf8(dest)), 4 := Data(Utf8(ns)), 5 := Number(0),
          6 := Data(Utf8(payload))]
    ensures Decode(Body(source, dest, ns, payload)) == (Utf8(ns), Utf8(payload))
  {
    hide StrField, VintField, Utf8, ReadField;
    var a, b, c := VintField(1, 0), StrField(2, source), StrField(3, dest);
    var d, e, f := StrField(4, ns), VintField(5, 0), StrField(6, payload);
    var buf := Body(source, dest, ns, payload);
    assert buf == [] + a + (b + c + d + e + f) == a + b + (c + d + e + f) == a + b + c + (d + e + f);
    assert buf == a + b + c + d + (e + f) == a + b + c + d + e + f + [] && [] + a == a;
    var m1: Fields := map[1 := Number(0)];
    var m2 := m1[2 := Data(Utf8(source))][3 := Data(Utf8(dest))];
    var m3 := m2[4 := Data(Utf8(ns))][5 := Number(0)];
    FirstHalf(buf, a, b, c, d + e + f, source, dest, m2);
    NextStr(a + b + c, 4, ns, e + f, m2);
    NextVint(a + b + c + d, 5, 0, f, m2[4 := Data(Utf8(ns))]);
    NextStr(a + b + c + d + e, 6, payload, [], m3);
    assert ReadFields(buf, 0, map[]) == ReadFields(buf, |buf|, m3[6 := Data(Utf8(payload))]);
  }

  // The bytes of the body: the key of each field, and each text behind its length.
  lemma BodyExactly(source: string, dest: string, ns: string, payload: string)
    ensures Body(source, dest, ns, payload) ==
      [0x08, 0] + [0x12] + Sized(source) + [0x1A] + Sized(dest) + [0x22] + Sized(ns) + [0x28, 0] + [0x32] + Sized(payload)
  {
    hide Utf8;
    assert Varint(0) == [0] && Varint(8) == [0x08] && Varint(0x12) == [0x12] && Varint(0x1A) == [0x1A];
    assert Varint(0x22) == [0x22] && Varint(0x28) == [0x28] && Varint(0x32) == [0x32];
    hide Varint;
  }

  function Sized(text: string): seq<Byte> {
    Varint(|Utf8(text)|) + Utf8(text)
  }

  // Fields of four and of eight bytes are passed over, and any other kind ends the reading.
  lemma OtherFields(before: seq<Byte>, tag: nat, data: seq<Byte>, rest: seq<Byte>)
    ensures var buf := before + Varint(tag) + data + rest;
      |before| < |buf|
      && (((tag % 8 == 5 && |data| == 4) || (tag % 8 == 1 && |data| == 8)) ==>
        ReadField(buf, |before|) == Some((tag / 8, Data(data), |before + Varint(tag) + data|)))
      && (tag % 8 in {3, 4, 6, 7} ==> ReadField(buf, |before|) == None)
  {
    hide Varint, ReadVarint;
    var buf := before + Varint(tag) + data + rest;
    VarintRoundTrip(before, tag, data + rest);
    assert before + Varint(tag) + (data + rest) == buf;
    var k := |before + Varint(tag)|;
    assert buf[k..k + |data|] == data;
  }

  // A field that is longer than the rest of the message holds that rest.
  lemma CutField(before: seq<Byte>, fn: nat, n: nat, data: seq<Byte>)
    requires |data| < n
    ensures var buf, front := before + Varint(fn * 8 + 2) + Varint(n) + data, before + Varint(fn * 8 + 2) + Varint(n);
      |before| < |buf| && ReadField(buf, |before|) == Some((fn, Data(data), |front| + n))
  {
    hide Varint, ReadVarint;
    var tag, size := Varint(fn * 8 + 2), Varint(n);
    var buf := before + tag + size + data;
    VarintRoundTrip(before, fn * 8 + 2, size + data);
    assert before + tag + (size + data) == buf;
    VarintRoundTrip(before + tag, n, data);
    var k := |before + tag + size|;
    assert buf[k..] == data;
  }

  // The receiver takes the body off by the length in front of it.
  lemma LengthInFront(source: string, dest: string, ns: string, payload: string)
    requires |Body(source, dest, ns, payload)| < 0x1_0000_0000
    ensures var m := EncodeMessage(source, dest, ns, payload);
      FromBigEndian(m[..4]) == |m| - 4 && m[4..] == Body(source, dest, ns, payload)
  {
    hide Body;
    var body := Body(source, dest, ns, payload);
    assert Pow256(2) == 65536 && Pow256(4) == 0x1_0000_0000;
    BigEndianRoundTrip(|body|, 4);
    var m := BigEndian(|body|, 4) + body;
    assert m[..4] == BigEndian(|body|, 4);
  }

  lemma FirstHalf(buf: seq<Byte>, a: seq<Byte>, b: seq<Byte>, c: seq<Byte>, rest: seq<Byte>,
                  source: string, dest: string, m: Fields)
    requires a == VintField(1, 0) && b == StrField(2, source) && c == StrField(3, dest)
    requires buf == a + b + c + rest && m == map[1 := Number(0), 2 := Data(Utf8(source)), 3 := Data(Utf8(dest))]
    ensures ReadFields(buf, 0, map[]) == ReadFields(buf, |a + b + c|, m)
  {
    hide StrField, VintField, Utf8, ReadField, ReadFields;
    assert buf == [] + a + (b + c + rest) == a + b + (c + rest) && [] + a == a;
    var m1: Fields := map[1 := Number(0)];
    NextVint([], 1, 0, b + c + rest, map[]);
    NextStr(a, 2, source, c + rest, m1);
    NextStr(a + b, 3, dest, rest, m1[2 := Data(Utf8(source))]);
  }
}
