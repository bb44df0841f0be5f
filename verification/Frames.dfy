/**
 WebSocket frames (RFC 6455, section 5.2): the header, the mask, and a connection that delivers its
 bytes in pieces of any size.
 */
module Frames {
  import opened Bytes

  // ----- Masking -----

  function Pow2(k: nat): (p: nat)
    ensures p >= 1
  {
    if k == 0 then 1 else 2 * Pow2(k - 1)
  }

  // Exclusive or of the lowest k bits.
  function XorBits(a: nat, b: nat, k: nat): (r: nat)
    ensures r < Pow2(k)
  {
    if k == 0 then 0 else 2 * XorBits(a / 2, b / 2, k - 1) + (if a % 2 == b % 2 then 0 else 1)
  }

  lemma {:induction false} XorBitsTwice(a: nat, b: nat, k: nat)
    requires a < Pow2(k)
    ensures XorBits(XorBits(a, b, k), b, k) == a
  {
    if k > 0 {
      XorBitsTwice(a / 2, b / 2, k - 1);
      var c := XorBits(a, b, k);
      assert c / 2 == XorBits(a / 2, b / 2, k - 1) && c % 2 == if a % 2 == b % 2 then 0 else 1;
    }
  }

  lemma EightBits()
    ensures Pow2(8) == 256
  {
    assert Pow2(2) == 4 && Pow2(4) == 16 && Pow2(6) == 64;
  }

  function Xor(a: Byte, b: Byte): Byte {
    EightBits();
    XorBits(a, b, 8)
  }

  type Mask = m: seq<Byte> | |m| == 4 witness [0, 0, 0, 0]

  function Masked(data: seq<Byte>, mask: Mask): (r: seq<Byte>)
    ensures |r| == |data|
  {
    seq(|data|, i requires 0 <= i < |data| => Xor(data[i], mask[i % 4]))
  }

  // Masking twice gives the data back (RFC 6455, section 5.3).
  lemma MaskedTwice(data: seq<Byte>, mask: Mask)
    ensures Masked(Masked(data, mask), mask) == data
  {
    EightBits();
    var m := Masked(data, mask);
    forall i | 0 <= i < |data|
      ensures Masked(m, mask)[i] == data[i]
    {
      XorBitsTwice(data[i], mask[i % 4], 8);
    }
  }

  function Bit(a: nat, i: nat): nat {
    if i == 0 then a % 2 else Bit(a / 2, i - 1)
  }

  lemma {:induction false} XorBitwise(a: nat, b: nat, k: nat, i: nat)
    requires i < k
    ensures Bit(XorBits(a, b, k), i) == if Bit(a, i) == Bit(b, i) then 0 else 1
  {
    var c := XorBits(a, b, k);
    assert c / 2 == XorBits(a / 2, b / 2, k - 1) && c % 2 == if a % 2 == b % 2 then 0 else 1;
    if i > 0 {
      XorBitwise(a / 2, b / 2, k - 1, i - 1);
    }
  }

  // Each bit is flipped exactly where the mask, repeated every four bytes, has a one.
  lemma MaskedBitwise(data: seq<Byte>, mask: Mask, j: nat, i: nat)
    requires j < |data| && i < 8
    ensures Bit(Masked(data, mask)[j], i) == if Bit(mask[j % 4], i) == 0 then Bit(data[j], i) else 1 - Bit(data[j], i)
  {
    XorBitwise(data[j], mask[j % 4], 8, i);
    BitIsBit(data[j], i);
    BitIsBit(mask[j % 4], i);
  }

  lemma {:induction false} BitIsBit(a: nat, i: nat)
    ensures Bit(a, i) <= 1
  {
    if i > 0 {
      BitIsBit(a / 2, i - 1);
    }
  }

  // ----- Big-endian numbers -----

  function BigEndian(n: nat, k: nat): (r: seq<Byte>)
    ensures |r| == k
  {
    if k == 0 then [] else BigEndian(n / 256, k - 1) + [n % 256]
  }

  function FromBigEndian(s: seq<Byte>): nat {
    if s == [] then 0 else FromBigEndian(s[..|s| - 1]) * 256 + s[|s| - 1]
  }

  function Pow256(k: nat): nat {
    if k == 0 then 1 else 256 * Pow256(k - 1)
  }

  lemma {:induction false} BigEndianRoundTrip(n: nat, k: nat)
    requires n < Pow256(k)
    ensures FromBigEndian(BigEndian(n, k)) == n
  {
    if k > 0 {
      BigEndianRoundTrip(n / 256, k - 1);
      assert BigEndian(n, k)[..k - 1] == BigEndian(n / 256, k - 1);
    }
  }

  // ----- The frame -----

  const OP_CONTINUATION: nat := 0x0
  const OP_TEXT: nat := 0x1
  const OP_BINARY: nat := 0x2
  const OP_CLOSE: nat := 0x8
  const OP_PING: nat := 0x9
  const OP_PONG: nat := 0xA

  datatype Frame = Frame(fin: bool, opcode: nat, mask: Option<Mask>, payload: seq<Byte>) {
    // What the layout can carry: four bits of opcode, 64 bits of length.
    predicate Fits() {
      opcode < 16 && |payload| < 0x1_0000_0000_0000_0000
    }
  }

  function LengthBytes(n: nat, maskBit: nat): (r: seq<Byte>)
    requires maskBit == 0 || maskBit == 0x80
  {
    if n < 126 then [maskBit + n]
    else if n < 65536 then [maskBit + 126] + BigEndian(n, 2)
    else [maskBit + 127] + BigEndian(n, 8)
  }

  // The layout of section 5.2.
  function Encode(f: Frame): seq<Byte>
    requires f.Fits()
  {
    [(if f.fin then 0x80 else 0) + f.opcode] +
    (match f.mask
     case None => LengthBytes(|f.payload|, 0) + f.payload
     case Some(mask) => LengthBytes(|f.payload|, 0x80) + mask + Masked(f.payload, mask))
  }

  // A decoded header; `size` counts its bytes up to the mask.
  datatype Header = Header(fin: bool, opcode: nat, masked: bool, length: nat, size: nat)

  // The header at the front of a byte string, if all of it is there.
  function ParseHeader(s: seq<Byte>): (r: Option<Header>)
    ensures r.Some? ==> 2 <= r.value.size <= |s| && r.value.opcode < 16
  {
    if |s| < 2 then None
    else
      var fin, opcode, masked, short := s[0] >= 0x80, s[0] % 16, s[1] >= 0x80, s[1] % 0x80;
      if short == 126 then
        if |s| < 4 then None else Some(Header(fin, opcode, masked, FromBigEndian(s[2..4]), 4))
      else if short == 127 then
        if |s| < 10 then None else Some(Header(fin, opcode, masked, FromBigEndian(s[2..10]), 10))
      else Some(Header(fin, opcode, masked, short, 2))
  }

  // A header with a short length, or with a longer one behind it.
  lemma ParsesShort(a: Byte, b: Byte, rest: seq<Byte>)
    requires b % 0x80 < 126
    ensures ParseHeader([a, b] + rest) == Some(Header(a >= 0x80, a % 16, b >= 0x80, b % 0x80, 2))
  {
  }

  lemma ParsesLong(a: Byte, b: Byte, ext: seq<Byte>, rest: seq<Byte>)
    requires (b % 0x80 == 126 && |ext| == 2) || (b % 0x80 == 127 && |ext| == 8)
    ensures ParseHeader([a, b] + ext + rest) ==
      Some(Header(a >= 0x80, a % 16, b >= 0x80, FromBigEndian(ext), 2 + |ext|))
  {
    hide FromBigEndian;
    Behind([a, b], ext, rest);
  }

  lemma LengthRoundTrip(first: Byte, n: nat, maskBit: nat, rest: seq<Byte>)
    requires (maskBit == 0 || maskBit == 0x80) && n < 0x1_0000_0000_0000_0000
    ensures ParseHeader([first] + LengthBytes(n, maskBit) + rest) ==
      Some(Header(first >= 0x80, first % 16, maskBit == 0x80, n, 1 + |LengthBytes(n, maskBit)|))
  {
    hide BigEndian, FromBigEndian, Pow256, ParseHeader;
    var s := [first] + LengthBytes(n, maskBit) + rest;
    Bounds();
    if n < 126 {
      ParsesShort(first, maskBit + n, rest);
      assert s == [first, maskBit + n] + rest;
    } else if n < 65536 {
      BigEndianRoundTrip(n, 2);
      ParsesLong(first, maskBit + 126, BigEndian(n, 2), rest);
      assert s == [first, maskBit + 126] + BigEndian(n, 2) + rest;
    } else {
      BigEndianRoundTrip(n, 8);
      ParsesLong(first, maskBit + 127, BigEndian(n, 8), rest);
      assert s == [first, maskBit + 127] + BigEndian(n, 8) + rest;
    }
  }

  lemma Behind(a: seq<Byte>, b: seq<Byte>, c: seq<Byte>)
    ensures (a + b + c)[|a|..|a| + |b|] == b && (a + b + c)[..|a|] == a
  {
  }

  lemma Bounds()
    ensures Pow256(2) == 65536 && Pow256(8) == 0x1_0000_0000_0000_0000
  {
    assert Pow256(4) == 0x1_0000_0000 && Pow256(6) == 0x1_0000_0000_0000;
  }

  // What follows the header of an encoded frame.
  function Body(f: Frame): seq<Byte> {
    match f.mask
    case None => f.payload
    case Some(mask) => mask + Masked(f.payload, mask)
  }

  // The header of an encoded frame is recovered whatever follows the frame.
  lemma HeaderRoundTrip(f: Frame, rest: seq<Byte>)
    requires f.Fits()
    ensures var h := ParseHeader(Encode(f) + rest);
      h.Some? && h.value.fin == f.fin && h.value.opcode == f.opcode && h.value.masked == f.mask.Some? &&
      h.value.length == |f.payload| && (Encode(f) + rest)[h.value.size..] == Body(f) + rest
  {
    hide ParseHeader, LengthBytes, Masked;
    var first := (if f.fin then 0x80 else 0) + f.opcode;
    var maskBit := if f.mask.Some? then 0x80 else 0;
    var lengths := LengthBytes(|f.payload|, maskBit);
    LengthRoundTrip(first, |f.payload|, maskBit, Body(f) + rest);
    assert Encode(f) + rest == [first] + lengths + (Body(f) + rest);
  }

  lemma Digit(s: seq<Byte>, k: nat)
    requires k < |s|
    ensures FromBigEndian(s[..k + 1]) == FromBigEndian(s[..k]) * 256 + s[k]
  {
    assert s[..k + 1][..k] == s[..k];
  }

  // The numbers that two and eight bytes stand for, the highest first.
  function Number2(s: seq<Byte>): int
    requires |s| == 2
  {
    s[0] as int * 256 + s[1]
  }

  function Number8(s: seq<Byte>): int
    requires |s| == 8
  {
    ((((((s[0] as int * 256 + s[1]) * 256 + s[2]) * 256 + s[3]) * 256 + s[4]) * 256 + s[5]) * 256 + s[6]) * 256 + s[7]
  }

  lemma FromBigEndianIs(s: seq<Byte>)
    ensures |s| == 2 ==> FromBigEndian(s) == Number2(s)
    ensures |s| == 8 ==> FromBigEndian(s) == Number8(s)
  {
    assert s[..0] == [] && s[..|s|] == s;
    if |s| == 2 || |s| == 8 {
      Digit(s, 0);
      Digit(s, 1);
    }
    if |s| == 8 {
      Digit(s, 2);
      Digit(s, 3);
      Digit(s, 4);
      Digit(s, 5);
      Digit(s, 6);
      Digit(s, 7);
    }
  }

  /**
   The bytes of a frame, as section 5.2 lays them out: the final bit and the opcode, the mask bit and the
   length in one of three forms, and behind them the mask and the payload.
   */
  lemma FrameLayout(f: Frame)
    requires f.Fits()
    ensures var e, n := Encode(f), |f.payload|;
      var size := if n < 126 then 2 else if n < 65536 then 4 else 10;
      |e| >= size
      && e[0] == (if f.fin then 0x80 else 0) + f.opcode
      && e[1] == (if f.mask.Some? then 0x80 else 0) + (if n < 126 then n else if n < 65536 then 126 else 127)
      && (size == 4 ==> Number2(e[2..4]) == n)
      && (size == 10 ==> Number8(e[2..10]) == n)
      && e[size..] == if f.mask.Some? then f.mask.value + Masked(f.payload, f.mask.value) else f.payload
  {
    var n := |f.payload|;
    Bounds();
    hide BigEndian, FromBigEndian, Pow256, Masked;
    var k := if n < 126 then 0 else if n < 65536 then 2 else 8;
    if k > 0 {
      BigEndianRoundTrip(n, k);
      FromBigEndianIs(BigEndian(n, k));
    }
    hide Number2, Number8;
    var lengths := LengthBytes(n, if f.mask.Some? then 0x80 else 0);
    var first: Byte := (if f.fin then 0x80 else 0) + f.opcode;
    assert lengths[1..] == if k == 0 then [] else BigEndian(n, k);
    assert Encode(f) == [first, lengths[0]] + lengths[1..] + Body(f);
    Behind([first, lengths[0]], lengths[1..], Body(f));
  }

  // ----- One frame off a stream -----

  datatype Taken = Short | TooLong(rest: seq<Byte>) | Took(fin: bool, opcode: nat, payload: seq<Byte>, rest: seq<Byte>)

  // The frame at the front of the stream, unmasked; a payload over the limit is not read.
  function TakeFrame(s: seq<Byte>, limit: nat): (r: Taken)
    ensures r.Took? ==> |r.rest| < |s| && |r.payload| <= limit
  {
    match ParseHeader(s)
    case None => Short
    case Some(h) =>
      if h.length > limit then TooLong(s[h.size..])
      else
        var start := if h.masked then h.size + 4 else h.size;
        if |s| < start + h.length then Short
        else
          var raw := s[start..start + h.length];
          Took(h.fin, h.opcode, if h.masked then Masked(raw, s[h.size..start]) else raw, s[start + h.length..])
  }

  lemma SliceChain(s: seq<Byte>, a: nat, b: nat)
    requires a + b <= |s|
    ensures s[a..][..b] == s[a..a + b] && s[a..][b..] == s[a + b..]
  {
  }

  // What is taken once the header is known.
  lemma TakenBehind(s: seq<Byte>, h: Header, limit: nat)
    requires ParseHeader(s) == Some(h) && h.length <= limit
    ensures var start := if h.masked then h.size + 4 else h.size;
      TakeFrame(s, limit) ==
        if |s| < start + h.length then Short
        else Took(h.fin, h.opcode,
                  if h.masked then Masked(s[start..start + h.length], s[h.size..start]) else s[start..start + h.length],
                  s[start + h.length..])
  {
    hide ParseHeader, Masked;
  }

  // Every frame within the limit is taken off again, masked or not, and nothing after it is touched.
  lemma TakesEncoded(f: Frame, rest: seq<Byte>, limit: nat)
    requires f.Fits() && |f.payload| <= limit
    ensures TakeFrame(Encode(f) + rest, limit) == Took(f.fin, f.opcode, f.payload, rest)
  {
    hide Encode, Masked, ParseHeader;
    var s := Encode(f) + rest;
    HeaderRoundTrip(f, rest);
    var h := ParseHeader(s).value;
    var t := s[h.size..];
    if f.mask.Some? {
      var mask := f.mask.value;
      MaskedTwice(f.payload, mask);
      assert s[h.size..h.size + 4] == t[..4] == mask;
      assert s[h.size + 4..h.size + 4 + h.length] == t[4..4 + h.length] == Masked(f.payload, mask);
      assert s[h.size + 4 + h.length..] == t[4 + h.length..] == rest;
    } else {
      assert s[h.size..h.size + h.length] == t[..h.length] == f.payload;
      assert s[h.size + h.length..] == t[h.length..] == rest;
    }
  }

  // A header that is there stays, whatever arrives behind it.
  lemma HeaderStays(s: seq<Byte>, more: seq<Byte>)
    requires ParseHeader(s).Some?
    ensures ParseHeader(s + more) == ParseHeader(s)
  {
    assert |s| >= 4 ==> (s + more)[2..4] == s[2..4];
    assert |s| >= 10 ==> (s + more)[2..10] == s[2..10];
  }

  lemma TakenStays(s: seq<Byte>, more: seq<Byte>, limit: nat)
    requires TakeFrame(s, limit).Took?
    ensures var t := TakeFrame(s, limit);
      TakeFrame(s + more, limit) == Took(t.fin, t.opcode, t.payload, t.rest + more)
  {
    hide ParseHeader, Masked;
    HeaderStays(s, more);
    var h := ParseHeader(s).value;
    var start := if h.masked then h.size + 4 else h.size;
    assert (s + more)[h.size..start] == s[h.size..start];
    assert (s + more)[start..start + h.length] == s[start..start + h.length];
    assert (s + more)[start + h.length..] == s[start + h.length..] + more;
  }

  // Of a frame within the limit all bytes are needed, and one over it is refused by its header.
  lemma CutOrTooLong(f: Frame, rest: seq<Byte>, limit: nat, k: nat)
    requires f.Fits() && k < |Encode(f)|
    ensures |f.payload| <= limit ==> TakeFrame(Encode(f)[..k], limit) == Short
    ensures |f.payload| > limit ==> TakeFrame(Encode(f) + rest, limit) == TooLong(Body(f) + rest)
  {
    hide Encode, ParseHeader, Masked, Body, Frame.Fits;
    HeaderRoundTrip(f, rest);
    var e := Encode(f);
    var s, more := e[..k], e[k..];
    assert s + more == e == e + [];
    if |f.payload| <= limit {
      if ParseHeader(s).Some? {
        HeaderStays(s, more);
        HeaderRoundTrip(f, []);
      }
      TakesEncoded(f, [], limit);
      if TakeFrame(s, limit).Took? {
        TakenStays(s, more, limit);
      }
    }
  }

  function EncodeAll(fs: seq<Frame>): seq<Byte>
    requires forall i :: 0 <= i < |fs| ==> fs[i].Fits()
  {
    if fs == [] then [] else Encode(fs[0]) + EncodeAll(fs[1..])
  }

  // ----- The connection -----

  function Flatten(chunks: seq<seq<Byte>>): seq<Byte> {
    if chunks == [] then [] else chunks[0] + Flatten(chunks[1..])
  }

  // What one `recv` of at most max bytes gives, and the pieces that are still to come.
  function Receive(chunks: seq<seq<Byte>>, max: nat): (r: (seq<Byte>, seq<seq<Byte>>))
    requires max > 0
    ensures r.0 + Flatten(r.1) == Flatten(chunks) && |r.0| <= max
    ensures r.0 != [] ==> |Flatten(r.1)| < |Flatten(chunks)|
  {
    if chunks == [] then ([], [])
    else if |chunks[0]| <= max then (chunks[0], chunks[1..])
    else
      var c := chunks[0];
      assert c[..max] + (c[max..] + Flatten(chunks[1..])) == c + Flatten(chunks[1..]);
      (c[..max], [c[max..]] + chunks[1..])
  }

  /** A socket: the bytes still to come, cut into the pieces in which they arrive, then end of file. */
  class Conn {
    var chunks: seq<seq<Byte>>

    ghost predicate Valid()
      reads this
    {
      forall i :: 0 <= i < |chunks| ==> chunks[i] != []
    }

    ghost function Stream(): seq<Byte>
      reads this
    {
      Flatten(chunks)
    }

    constructor (chunks: seq<seq<Byte>>)
      requires forall i :: 0 <= i < |chunks| ==> chunks[i] != []
      ensures Valid() && Stream() == Flatten(chunks)
    {
      this.chunks := chunks;
    }

    // `recv`: what has arrived, at most max bytes of it; nothing at the end of the stream.
    method Recv(max: nat) returns (b: seq<Byte>)
      requires Valid() && max > 0
      modifies this
      ensures (b, chunks) == Receive(old(chunks), max)
      ensures Valid() && old(Stream()) == b + Stream() && |b| <= max
      ensures b == [] <==> old(Stream()) == []
    {
      if chunks == [] {
        return [];
      }
      var c := chunks[0];
      if |c| <= max {
        chunks := chunks[1..];
        return c;
      }
      b := c[..max];
      chunks := [c[max..]] + chunks[1..];
    }
  }
}
