/**
 The incremental frame decoder of the keyboard daemon (clients/pn_naskbd.py, `RfbSink`): frames are
 taken off a growing buffer, and their payloads are handed out in slices of any size.
 */
module KeyboardFrames {
  import opened Bytes
  import opened Frames

  // What taking all complete frames off a buffer yields: their text and binary payloads, and the rest.
  datatype Drained = Drained(payload: seq<Byte>, rest: seq<Byte>, closed: bool)

  // The complete frame at the front of a buffer: its bytes for the reader, and its size.
  datatype Front = NoFrame | OneFrame(payload: seq<Byte>, closing: bool, size: nat)

  // One round of the inner loop of `_wsrecv`. The mask bit is ignored, as the server never masks.
  function FrontOf(b: seq<Byte>): (f: Front)
    ensures f.OneFrame? ==> 0 < f.size <= |b|
  {
    match ParseHeader(b)
    case None => NoFrame
    case Some(h) =>
      if |b| < h.size + h.length then NoFrame
      else
        var data := h.opcode == OP_BINARY || h.opcode == OP_TEXT;
        OneFrame(if data then b[h.size..h.size + h.length] else [], h.opcode == OP_CLOSE, h.size + h.length)
  }

  function Drain(b: seq<Byte>): (d: Drained)
    decreases |b|
  {
    match FrontOf(b)
    case NoFrame => Drained([], b, false)
    case OneFrame(payload, closing, size) =>
      if closing then Drained([], b[size..], true)
      else
        var d := Drain(b[size..]);
        Drained(payload + d.payload, d.rest, d.closed)
  }

  // ----- Bytes that arrive later change nothing about the frames already there -----

  lemma FrontStays(b: seq<Byte>, more: seq<Byte>)
    requires FrontOf(b).OneFrame?
    ensures FrontOf(b + more) == FrontOf(b)
    ensures (b + more)[FrontOf(b).size..] == b[FrontOf(b).size..] + more
  {
    if |b| >= 4 {
      assert (b + more)[2..4] == b[2..4];
    }
    if |b| >= 10 {
      assert (b + more)[2..10] == b[2..10];
    }
    var h := ParseHeader(b).value;
    assert (b + more)[h.size..h.size + h.length] == b[h.size..h.size + h.length];
  }

  // Draining in two steps is draining at once.
  lemma {:induction false} DrainAppend(b: seq<Byte>, more: seq<Byte>)
    requires !Drain(b).closed
    ensures var d := Drain(b);
      var e := Drain(d.rest + more);
      Drain(b + more) == Drained(d.payload + e.payload, e.rest, e.closed)
    decreases |b|
  {
    hide FrontOf;
    var f := FrontOf(b);
    if f.OneFrame? {
      FrontStays(b, more);
      DrainAppend(b[f.size..], more);
      var d := Drain(b[f.size..]);
      var e := Drain(d.rest + more);
      assert f.payload + (d.payload + e.payload) == (f.payload + d.payload) + e.payload;
    } else {
      var e := Drain(b + more);
      assert [] + e.payload == e.payload;
    }
  }

  // What the frames of a stream carry.
  function Carried(fs: seq<Frame>): seq<Byte> {
    if fs == [] then []
    else (if fs[0].opcode == OP_BINARY || fs[0].opcode == OP_TEXT then fs[0].payload else []) + Carried(fs[1..])
  }

  // Draining a stream of unmasked frames without a close frame yields their text and binary payloads.
  lemma {:induction false} DrainsFrames(fs: seq<Frame>)
    requires forall i :: 0 <= i < |fs| ==> fs[i].Fits() && fs[i].mask == None && fs[i].opcode != OP_CLOSE
    ensures Drain(EncodeAll(fs)) == Drained(Carried(fs), [], false)
  {
    hide FrontOf, Encode;
    if fs == [] {
      NoFront();
    } else {
      FrontIs(fs[0], EncodeAll(fs[1..]));
      DrainsFrames(fs[1..]);
    }
  }

  lemma NoFront()
    ensures FrontOf([]) == NoFrame
  {
  }

  lemma FrontIs(f: Frame, rest: seq<Byte>)
    requires f.Fits() && f.mask == None
    ensures var s, front := Encode(f) + rest, FrontOf(Encode(f) + rest);
      front.OneFrame? && front.closing == (f.opcode == OP_CLOSE) && s[front.size..] == rest &&
      front.payload == if f.opcode == OP_BINARY || f.opcode == OP_TEXT then f.payload else []
  {
    hide ParseHeader, Encode;
    var s := Encode(f) + rest;
    HeaderRoundTrip(f, rest);
    var h := ParseHeader(s).value;
    var t := s[h.size..];
    assert t == f.payload + rest;
    assert s[h.size..h.size + h.length] == t[..h.length] == f.payload;
    assert s[h.size + h.length..] == t[h.length..] == rest;
  }

  // ----- One call -----

  const RECV: nat := 65536

  datatype Failure = Eof | WsClosed

  // Undecoded bytes, decoded bytes that have not been asked for, and the pieces still to arrive.
  datatype Sink = Sink(buf: seq<Byte>, rfb: seq<Byte>, chunks: seq<seq<Byte>>)

  datatype Called = Called(answer: Result<seq<Byte>, Failure>, after: Sink)

  // `_wsrecv`: what a call answers, and what it leaves behind.
  function Ask(s: Sink, n: nat): Called
    decreases |Flatten(s.chunks)|
  {
    var d := Drain(s.buf);
    var rfb := s.rfb + d.payload;
    if d.closed then Called(Err(WsClosed), Sink(d.rest, rfb, s.chunks))
    else if |rfb| >= n then Called(Ok(rfb[..n]), Sink(d.rest, rfb[n..], s.chunks))
    else
      var r := Receive(s.chunks, RECV);
      if r.0 == [] then Called(Err(Eof), Sink(d.rest, rfb, r.1)) else Ask(Sink(d.rest + r.0, rfb, r.1), n)
  }

  // ----- The sink -----

  /** `buf` holds undecoded bytes, `rfb` decoded ones that have not been asked for. */
  class RfbSink {
    const conn: Conn
    var buf: seq<Byte>
    var rfb: seq<Byte>

    ghost predicate Valid()
      reads this, conn
    {
      conn.Valid()
    }

    // Whether a close frame lies anywhere ahead.
    ghost predicate CloseAhead()
      reads this, conn
    {
      Drain(buf + conn.Stream()).closed
    }

    // All payload bytes that are still to be handed out, wherever the stream is cut.
    ghost function Pending(): seq<Byte>
      reads this, conn
    {
      rfb + Drain(buf + conn.Stream()).payload
    }

    constructor (conn: Conn, buf: seq<Byte>)
      requires conn.Valid()
      ensures Valid() && this.conn == conn && this.buf == buf && rfb == []
    {
      this.conn, this.buf, rfb := conn, buf, [];
    }

    // The inner loop: every complete frame off the buffer.
    method TakeFrames() returns (closed: bool)
      requires Valid()
      modifies this
      ensures var d := Drain(old(buf));
        closed == d.closed && buf == d.rest && rfb == old(rfb) + d.payload
    {
      hide ParseHeader, FrontOf;
      while true
        invariant Drain(buf).closed == Drain(old(buf)).closed
        invariant Drain(buf).rest == Drain(old(buf)).rest
        invariant rfb + Drain(buf).payload == old(rfb) + Drain(old(buf)).payload
        decreases |buf|
      {
        var h := ParseHeader(buf);
        FrontByHeader(buf);
        if h.None? || |buf| < h.value.size + h.value.length {
          return false;
        }
        var payload := buf[h.value.size..h.value.size + h.value.length];
        buf := buf[h.value.size + h.value.length..];
        if h.value.opcode == OP_BINARY || h.value.opcode == OP_TEXT {
          rfb := rfb + payload;
        } else if h.value.opcode == OP_CLOSE {
          return true;
        }
      }
    }

    ghost function State(): Sink
      reads this, conn
    {
      Sink(buf, rfb, conn.chunks)
    }

    /**
     `_wsrecv`. Without a close frame ahead the calls return consecutive slices of the pending bytes,
     however the stream is cut, and fail exactly when too few are left in all of it. With one ahead a
     call returns the next slice or reports the close.
     */
    method WsRecv(n: nat) returns (r: Result<seq<Byte>, Failure>)
      requires Valid()
      modifies this, conn
      ensures Valid() && Called(r, State()) == Ask(old(State()), n)
      ensures r.Ok? ==> var p := old(Pending());
        n <= |p| && r.value == p[..n] && Pending() == p[n..] && CloseAhead() == old(CloseAhead())
      ensures r.Err? ==> if old(CloseAhead()) then r.error == WsClosed else r.error == Eof && n > |old(Pending())|
    {
      hide FrontOf, Drain;
      ghost var p := Pending();
      while true
        invariant Valid() && CloseAhead() == old(CloseAhead()) && Pending() == p
        invariant Ask(State(), n) == Ask(old(State()), n)
        decreases |conn.Stream()|
      {
        ghost var b, s := buf, conn.Stream();
        var closed := TakeFrames();
        if closed {
          ClosedAhead(b, s);
          return Err(WsClosed);
        }
        DrainAppend(b, s);
        DrainRest(b);
        if |rfb| >= n {
          ghost var ahead := Drain(buf + conn.Stream()).payload;
          assert p == rfb + ahead;
          assert p[..n] == rfb[..n] && p[n..] == rfb[n..] + ahead;
          r := Ok(rfb[..n]);
          rfb := rfb[n..];
          return;
        }
        var c := conn.Recv(RECV);
        if c == [] {
          assert buf + s == buf && buf + conn.Stream() == buf;
          return Err(Eof);
        }
        assert (buf + c) + conn.Stream() == buf + s;
        buf := buf + c;
      }
    }
  }

  // A close frame in the buffer is a close frame ahead.
  lemma {:induction false} ClosedAhead(b: seq<Byte>, more: seq<Byte>)
    requires Drain(b).closed
    ensures Drain(b + more).closed
    decreases |b|
  {
    hide FrontOf;
    var f := FrontOf(b);
    FrontStays(b, more);
    if !f.closing {
      ClosedAhead(b[f.size..], more);
    }
  }

  lemma FrontByHeader(b: seq<Byte>)
    ensures match ParseHeader(b)
      case None => FrontOf(b) == NoFrame
      case Some(h) =>
        if |b| < h.size + h.length then FrontOf(b) == NoFrame
        else FrontOf(b) == OneFrame(
          if h.opcode == OP_BINARY || h.opcode == OP_TEXT then b[h.size..h.size + h.length] else [],
          h.opcode == OP_CLOSE, h.size + h.length)
  {
  }

  // What is left over holds no complete frame.
  lemma {:induction false} DrainRest(b: seq<Byte>)
    requires !Drain(b).closed
    ensures Drain(Drain(b).rest) == Drained([], Drain(b).rest, false)
    decreases |b|
  {
    hide FrontOf;
    if FrontOf(b).OneFrame? {
      DrainRest(b[FrontOf(b).size..]);
    }
  }
}
