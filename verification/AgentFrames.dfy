/** The WebSocket client of the Windows input agent (clients/win-agent/win_input_agent.py, `WS`). */
module AgentFrames {
  import opened Bytes
  import opened Frames
  import PortalFrames

  const MAX_FRAME: nat := 8 * 1024 * 1024
  const MAX_MSG: nat := 16 * 1024 * 1024

  type Small = p: seq<Byte> | |p| <= MAX_FRAME witness []

  datatype Failure = Closed | FrameTooLarge | ServerClose | MessageTooLarge

  // What `recv` makes of a stream: the message or the error, the rest of the stream, the pings to answer.
  datatype Received = Received(message: Result<seq<Byte>, Failure>, rest: seq<Byte>, pings: seq<Small>)

  function Answering(ping: Small, r: Received): Received {
    r.(pings := [ping] + r.pings)
  }

  // `recv` from the point where the fragments so far amount to `data`.
  function RecvMessage(s: seq<Byte>, data: seq<Byte>): Received
    decreases |s|
  {
    match TakeFrame(s, MAX_FRAME)
    case Short => Received(Err(Closed), [], [])
    case TooLong(rest) => Received(Err(FrameTooLarge), rest, [])
    case Took(fin, opcode, payload, rest) =>
      if opcode == OP_CLOSE then Received(Err(ServerClose), rest, [])
      else if opcode == OP_PING then Answering(payload, RecvMessage(rest, data))
      else if opcode == OP_PONG then RecvMessage(rest, data)
      else
        var whole := if opcode == OP_CONTINUATION then data + payload else payload;
        if |whole| > MAX_MSG then Received(Err(MessageTooLarge), rest, [])
        else if fin then Received(Ok(whole), rest, [])
        else RecvMessage(rest, whole)
  }

  // ----- Fragmented messages (RFC 6455, section 5.4) -----

  // The frames of one message: data frames, the first text or binary and the others continuations,
  // the last one final, with pings and pongs anywhere between.
  predicate IsMessage(fs: seq<Frame>, started: bool) {
    fs != [] && fs[0].Fits() && |fs[0].payload| <= MAX_FRAME &&
    if fs[0].opcode == OP_PING || fs[0].opcode == OP_PONG then IsMessage(fs[1..], started)
    else
      (if started then fs[0].opcode == OP_CONTINUATION else fs[0].opcode == OP_TEXT || fs[0].opcode == OP_BINARY) &&
      if fs[0].fin then |fs| == 1 else IsMessage(fs[1..], true)
  }

  function MessageData(fs: seq<Frame>): seq<Byte> {
    if fs == [] then []
    else (if fs[0].opcode == OP_PING || fs[0].opcode == OP_PONG then [] else fs[0].payload) + MessageData(fs[1..])
  }

  function PingPayloads(fs: seq<Frame>): seq<seq<Byte>> {
    if fs == [] then []
    else (if fs[0].opcode == OP_PING then [fs[0].payload] else []) + PingPayloads(fs[1..])
  }

  lemma {:induction false} MessageFits(fs: seq<Frame>, started: bool)
    requires IsMessage(fs, started)
    ensures forall i :: 0 <= i < |fs| ==> fs[i].Fits()
  {
    if |fs| > 1 {
      if fs[0].opcode == OP_PING || fs[0].opcode == OP_PONG {
        MessageFits(fs[1..], started);
      } else {
        MessageFits(fs[1..], true);
      }
    }
  }

  /**
   One frame read: a close frame (opcode 8) ends the connection, a ping (9) is answered, a pong (10) is
   passed over; a continuation (0) adds to the message, any other opcode begins one, and a message over
   16 MiB or a frame over 8 MiB is refused.
   */
  lemma RecvStep(f: Frame, tail: seq<Byte>, data: seq<Byte>)
    requires f.Fits()
    ensures var r, whole := RecvMessage(Encode(f) + tail, data), if f.opcode == 0 then data + f.payload else f.payload;
      if |f.payload| > 8 * 1024 * 1024 then r.message == Err(FrameTooLarge) && r.pings == []
      else if f.opcode == 8 then r == Received(Err(ServerClose), tail, [])
      else if f.opcode == 9 then r == Answering(f.payload, RecvMessage(tail, data))
      else if f.opcode == 10 then r == RecvMessage(tail, data)
      else if |whole| > 16 * 1024 * 1024 then r == Received(Err(MessageTooLarge), tail, [])
      else r == if f.fin then Received(Ok(whole), tail, []) else RecvMessage(tail, whole)
  {
    hide Encode, TakeFrame;
    if |f.payload| <= MAX_FRAME {
      TakesEncoded(f, tail, MAX_FRAME);
    } else {
      EncodeSome(f);
      CutOrTooLong(f, tail, MAX_FRAME, 0);
    }
  }

  lemma EncodeSome(f: Frame)
    requires f.Fits()
    ensures |Encode(f)| > 0
  {
  }

  // A frame cut off by the end of the stream yields nothing of its message.
  lemma RecvCut(f: Frame, k: nat, data: seq<Byte>)
    requires f.Fits() && |f.payload| <= 8 * 1024 * 1024 && k < |Encode(f)|
    ensures RecvMessage(Encode(f)[..k], data) == Received(Err(Closed), [], [])
  {
    hide Encode, TakeFrame;
    CutOrTooLong(f, [], MAX_FRAME, k);
  }

  /**
   A message cut into fragments in any way, with pings and pongs in between, is received as the
   concatenation of its fragments; every ping is answered, in order, with its own payload.
   */
  lemma {:induction false} ReceivesMessage(fs: seq<Frame>, started: bool, data: seq<Byte>, rest: seq<Byte>)
    requires IsMessage(fs, started) && (!started ==> data == [])
    requires |data| + |MessageData(fs)| <= MAX_MSG
    ensures forall i :: 0 <= i < |fs| ==> fs[i].Fits()
    ensures var r := RecvMessage(EncodeAll(fs) + rest, data);
      r.message == Ok(data + MessageData(fs)) && r.rest == rest && r.pings == PingPayloads(fs)
  {
    hide Encode, TakeFrame, RecvMessage, Frame.Fits;
    MessageFits(fs, started);
    var f, tail := fs[0], EncodeAll(fs[1..]) + rest;
    assert !started ==> data + f.payload == f.payload;
    RecvStep(f, tail, data);
    assert EncodeAll(fs) + rest == Encode(f) + tail;
    if f.opcode == OP_PING || f.opcode == OP_PONG {
      ReceivesMessage(fs[1..], started, data, rest);
      assert MessageData(fs) == MessageData(fs[1..]);
    } else if f.fin {
      assert fs[1..] == [] && MessageData(fs) == f.payload && tail == rest;
    } else {
      ReceivesMessage(fs[1..], true, data + f.payload, rest);
      assert data + f.payload + MessageData(fs[1..]) == data + MessageData(fs);
    }
  }

  // What `ws_send_text` sends, `recv` gives back.
  lemma ReceivesPortalText(data: seq<Byte>, rest: seq<Byte>)
    requires |data| <= MAX_FRAME
    ensures var f := Frame(true, OP_TEXT, None, data);
      f.Fits() && RecvMessage(Encode(f) + rest, []) == Received(Ok(data), rest, [])
  {
    TakesEncoded(Frame(true, OP_TEXT, None, data), rest, MAX_FRAME);
  }

  // ----- Sending -----

  // The pongs for a list of pings, masked with the masks drawn from position k on.
  function PongBytes(urandom: nat -> Mask, k: nat, pings: seq<Small>): seq<Byte>
    decreases |pings|
  {
    if pings == [] then []
    else Encode(Frame(true, OP_PONG, Some(urandom(k)), pings[0])) + PongBytes(urandom, k + 1, pings[1..])
  }

  // The other end reads one pong for every ping, in order and with its payload.
  lemma PongIsRead(urandom: nat -> Mask, k: nat, pings: seq<Small>, rest: seq<Byte>)
    requires pings != []
    ensures PortalFrames.ReadFrame(PongBytes(urandom, k, pings) + rest) ==
      (Some((OP_PONG, pings[0])), PongBytes(urandom, k + 1, pings[1..]) + rest)
  {
    hide Encode, TakeFrame;
    var f := Frame(true, OP_PONG, Some(urandom(k)), pings[0]);
    var tail := PongBytes(urandom, k + 1, pings[1..]) + rest;
    PortalFrames.ReadsEncoded(f, tail);
    assert PongBytes(urandom, k, pings) + rest == Encode(f) + tail;
  }

  // A frame that has been read and unmasked.
  datatype Plain = Plain(fin: bool, opcode: nat, payload: seq<Byte>)

  /** The client's end of the connection. `drawn` counts the masks taken from `urandom`. */
  class WS {
    const conn: Conn
    const urandom: nat -> Mask
    var buf: seq<Byte>
    var drawn: nat
    var sent: seq<Byte>

    ghost predicate Valid()
      reads this, conn
    {
      conn.Valid()
    }

    // Everything that is still to be read.
    ghost function Stream(): seq<Byte>
      reads this, conn
    {
      buf + conn.Stream()
    }

    constructor (conn: Conn, urandom: nat -> Mask, buf: seq<Byte>)
      requires conn.Valid()
      ensures Valid() && this.conn == conn && this.urandom == urandom
      ensures this.buf == buf && drawn == 0 && sent == []
    {
      this.conn, this.urandom, this.buf, drawn, sent := conn, urandom, buf, 0, [];
    }

    // `_recv_exact`; None stands for the IOError.
    method RecvExact(n: nat) returns (r: Option<seq<Byte>>)
      requires Valid()
      modifies this`buf, conn
      ensures Valid()
      ensures var s := old(Stream());
        if n <= |s| then r == Some(s[..n]) && Stream() == s[n..] else r == None
    {
      while |buf| < n
        invariant Valid() && Stream() == old(Stream())
        decreases |conn.Stream()|
      {
        var d := conn.Recv(65536);
        if d == [] {
          return None;
        }
        buf := buf + d;
      }
      assert Stream()[..n] == buf[..n] && Stream()[n..] == buf[n..] + conn.Stream();
      r := Some(buf[..n]);
      buf := buf[n..];
    }

    // Two header bytes, then the longer length if the short one asks for it.
    method ReadHeader() returns (h: Option<Header>)
      requires Valid()
      modifies this`buf, conn
      ensures Valid() && h == ParseHeader(old(Stream()))
      ensures h.Some? ==> Stream() == old(Stream())[h.value.size..]
    {
      ghost var s := Stream();
      var hdr := RecvExact(2);
      if hdr.None? {
        return None;
      }
      assert s[..2] == hdr.value;
      var b0, b1 := hdr.value[0], hdr.value[1];
      var ln: nat := b1 % 0x80;
      if ln == 126 {
        var ext := RecvExact(2);
        if ext.None? {
          return None;
        }
        assert ext.value == s[2..4] && Stream() == s[4..];
        return Some(Header(b0 >= 0x80, b0 % 16, b1 >= 0x80, FromBigEndian(ext.value), 4));
      }
      if ln == 127 {
        var ext := RecvExact(8);
        if ext.None? {
          return None;
        }
        assert ext.value == s[2..10] && Stream() == s[10..];
        return Some(Header(b0 >= 0x80, b0 % 16, b1 >= 0x80, FromBigEndian(ext.value), 10));
      }
      return Some(Header(b0 >= 0x80, b0 % 16, b1 >= 0x80, ln, 2));
    }

    // The reading part of one round of `recv`.
    method NextFrame() returns (r: Result<Plain, Failure>)
      requires Valid()
      modifies this`buf, conn
      ensures Valid()
      ensures match TakeFrame(old(Stream()), MAX_FRAME)
        case Short => r == Err(Closed)
        case TooLong(rest) => r == Err(FrameTooLarge) && Stream() == rest
        case Took(fin, opcode, payload, rest) => r == Ok(Plain(fin, opcode, payload)) && Stream() == rest
    {
      hide ParseHeader, Masked, Conn.Stream, Conn.Valid;
      ghost var s := Stream();
      var h := ReadHeader();
      if h.None? {
        return Err(Closed);
      }
      if h.value.length > MAX_FRAME {
        return Err(FrameTooLarge);
      }
      TakenBehind(s, h.value, MAX_FRAME);
      hide TakeFrame;
      var mask: seq<Byte> := [];
      ghost var start := h.value.size;
      if h.value.masked {
        var m := RecvExact(4);
        if m.None? {
          return Err(Closed);
        }
        mask, start := m.value, start + 4;
        SliceChain(s, h.value.size, 4);
      }
      var payload := RecvExact(h.value.length);
      if payload.None? {
        return Err(Closed);
      }
      SliceChain(s, start, h.value.length);
      var plain := if h.value.masked then Masked(payload.value, mask) else payload.value;
      return Ok(Plain(h.value.fin, h.value.opcode, plain));
    }

    // `recv`: what it returns depends on the stream and not on how it arrives in pieces.
    method Recv() returns (r: Result<seq<Byte>, Failure>)
      requires Valid()
      modifies this, conn
      ensures Valid()
      ensures var o := RecvMessage(old(Stream()), []);
        r == o.message && (r.Ok? ==> Stream() == o.rest) && drawn == old(drawn) + |o.pings| &&
        sent == old(sent) + PongBytes(urandom, old(drawn), o.pings)
    {
      hide TakeFrame, Encode;
      ghost var whole := RecvMessage(Stream(), []);
      var data: seq<Byte> := [];
      while true
        invariant Valid() && RecvMessage(Stream(), data).message == whole.message
        invariant RecvMessage(Stream(), data).rest == whole.rest
        invariant drawn + |RecvMessage(Stream(), data).pings| == old(drawn) + |whole.pings|
        invariant sent + PongBytes(urandom, drawn, RecvMessage(Stream(), data).pings) ==
          old(sent) + PongBytes(urandom, old(drawn), whole.pings)
        decreases |Stream()|
      {
        var frame := NextFrame();
        if frame.Err? {
          return Err(frame.error);
        }
        var Plain(fin, opcode, payload) := frame.value;
        if opcode == OP_CLOSE {
          return Err(ServerClose);
        }
        if opcode == OP_PING {
          Send(OP_PONG, payload);
        } else if opcode != OP_PONG {
          data := if opcode == OP_CONTINUATION then data + payload else payload;
          if |data| > MAX_MSG {
            return Err(MessageTooLarge);
          }
          if fin {
            return Ok(data);
          }
        }
      }
    }

    // `_send`
    method Send(opcode: nat, data: seq<Byte>)
      requires opcode < 16 && |data| < 0x1_0000_0000_0000_0000
      modifies this`drawn, this`sent
      ensures drawn == old(drawn) + 1
      ensures sent == old(sent) + Encode(Frame(true, opcode, Some(urandom(old(drawn))), data))
    {
      var n := |data|;
      var hdr: seq<Byte> := [0x80 + opcode];
      var mask := urandom(drawn);
      drawn := drawn + 1;
      if n < 126 {
        hdr := hdr + [0x80 + n];
      } else if n < 65536 {
        hdr := hdr + ([0x80 + 126] + BigEndian(n, 2));
      } else {
        hdr := hdr + ([0x80 + 127] + BigEndian(n, 8));
      }
      var masked := Masked(data, mask);
      assert hdr + mask + masked == [0x80 + opcode] + (LengthBytes(n, 0x80) + mask + masked);
      sent := sent + (hdr + mask + masked);
    }
  }
}
