/** The server side of the portal's WebSockets (cockpit/server/pn_portal.py). */
module PortalFrames {
  import opened Bytes
  import opened Frames

  const WS_MAX_PAYLOAD: nat := 8 * 1024 * 1024

  // `ws_send_text`: the bytes sent for a payload.
  method SendText(data: seq<Byte>) returns (sent: seq<Byte>)
    requires |data| < 0x1_0000_0000_0000_0000
    ensures sent == Encode(Frame(true, OP_TEXT, None, data))
  {
    var header: seq<Byte> := [0x81];
    var n := |data|;
    if n < 126 {
      header := header + [n];
    } else if n < 65536 {
      header := header + [126];
      header := header + BigEndian(n, 2);
    } else {
      header := header + [127];
      header := header + BigEndian(n, 8);
    }
    sent := header + data;
    assert sent == [0x81] + (LengthBytes(n, 0) + data);
  }

  // What one call reads: the opcode and the payload, or nothing.
  type Reading = Option<(nat, seq<Byte>)>

  // `ws_read_frame` on the whole stream: the result, and what is left of the stream.
  function ReadFrame(s: seq<Byte>): (Reading, seq<Byte>) {
    match TakeFrame(s, WS_MAX_PAYLOAD)
    case Short => (None, [])
    case TooLong(rest) => (None, rest)
    case Took(_, opcode, payload, rest) => (Some((opcode, payload)), rest)
  }

  // `recvn`: exactly n bytes, or nothing when the stream ends before them.
  method RecvN(conn: Conn, n: nat) returns (r: Option<seq<Byte>>)
    requires conn.Valid()
    modifies conn
    ensures conn.Valid()
    ensures var s := old(conn.Stream());
      if n <= |s| then r == Some(s[..n]) && conn.Stream() == s[n..] else r == None && conn.Stream() == []
  {
    var out := [];
    while |out| < n
      invariant conn.Valid() && |out| <= n && old(conn.Stream()) == out + conn.Stream()
      decreases n - |out|
    {
      var ch := conn.Recv(n - |out|);
      if ch == [] {
        return None;
      }
      out := out + ch;
    }
    return Some(out);
  }

  // The header part of `ws_read_frame`: two bytes, then the longer length if the short one asks for it.
  method ReadHeader(conn: Conn) returns (h: Option<Header>)
    requires conn.Valid()
    modifies conn
    ensures conn.Valid() && h == ParseHeader(old(conn.Stream()))
    ensures conn.Stream() == if h.Some? then old(conn.Stream())[h.value.size..] else []
  {
    ghost var s := conn.Stream();
    var hdr := RecvN(conn, 2);
    if hdr.None? {
      return None;
    }
    assert s[..2] == hdr.value;
    var b0, b1 := hdr.value[0], hdr.value[1];
    var length: nat := b1 % 0x80;
    if length == 126 {
      var ext := RecvN(conn, 2);
      if ext.None? {
        return None;
      }
      assert ext.value == s[2..4] && conn.Stream() == s[4..];
      return Some(Header(b0 >= 0x80, b0 % 16, b1 >= 0x80, FromBigEndian(ext.value), 4));
    }
    if length == 127 {
      var ext := RecvN(conn, 8);
      if ext.None? {
        return None;
      }
      assert ext.value == s[2..10] && conn.Stream() == s[10..];
      return Some(Header(b0 >= 0x80, b0 % 16, b1 >= 0x80, FromBigEndian(ext.value), 10));
    }
    return Some(Header(b0 >= 0x80, b0 % 16, b1 >= 0x80, length, 2));
  }

  // `ws_read_frame`: the answer depends on the stream and not on how it arrives in pieces.
  method ReadFrameFrom(conn: Conn) returns (r: Reading)
    requires conn.Valid()
    modifies conn
    ensures conn.Valid() && (r, conn.Stream()) == ReadFrame(old(conn.Stream()))
  {
    hide ParseHeader, Masked, Conn.Stream, Conn.Valid;
    ghost var s := conn.Stream();
    var h := ReadHeader(conn);
    if h.None? || h.value.length > WS_MAX_PAYLOAD {
      return None;
    }
    TakenBehind(s, h.value, WS_MAX_PAYLOAD);
    hide TakeFrame;
    var length := h.value.length;
    var mask: seq<Byte> := [0, 0, 0, 0];
    ghost var start := h.value.size;
    if h.value.masked {
      var m := RecvN(conn, 4);
      if m.None? {
        return None;
      }
      mask, start := m.value, start + 4;
      SliceChain(s, h.value.size, 4);
    }
    var payload := RecvN(conn, length);
    if payload.None? {
      return None;
    }
    SliceChain(s, start, length);
    return Some((h.value.opcode, if h.value.masked then Masked(payload.value, mask) else payload.value));
  }

  // Every frame of at most 8 MiB is read back, masked or not, and nothing after it is touched.
  lemma ReadsEncoded(f: Frame, rest: seq<Byte>)
    requires f.Fits() && |f.payload| <= 8 * 1024 * 1024
    ensures ReadFrame(Encode(f) + rest) == (Some((f.opcode, f.payload)), rest)
  {
    TakesEncoded(f, rest, WS_MAX_PAYLOAD);
  }

  // A longer one is refused, and so is one that the stream cuts off.
  lemma ReadsNothing(f: Frame, rest: seq<Byte>, k: nat)
    requires f.Fits() && k < |Encode(f)|
    ensures |f.payload| > 8 * 1024 * 1024 ==> ReadFrame(Encode(f) + rest).0 == None
    ensures |f.payload| <= 8 * 1024 * 1024 ==> ReadFrame(Encode(f)[..k]) == (None, [])
  {
    CutOrTooLong(f, rest, WS_MAX_PAYLOAD, k);
  }
}
