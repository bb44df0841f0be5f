/**
 When the answer of the keyboard daemon's `_wsrecv` depends on how the stream is cut into pieces
 (clients/pn_naskbd.py): exactly when a close frame ends near enough behind the bytes asked for.
 */
module KeyboardCuts {
  import opened Bytes
  import opened Frames
  import opened KeyboardFrames

  // Where the first close frame ends.
  function CloseEnd(b: seq<Byte>): (k: nat)
    ensures k <= |b|
    decreases |b|
  {
    match FrontOf(b)
    case NoFrame => 0
    case OneFrame(_, closing, size) => if closing then size else size + CloseEnd(b[size..])
  }

  // Where the frame ends that completes the first `need` bytes of payload.
  function PayloadEnd(b: seq<Byte>, need: nat): (k: nat)
    ensures k <= |b|
    decreases |b|
  {
    if need == 0 then 0
    else
      match FrontOf(b)
      case NoFrame => |b|
      case OneFrame(payload, _, size) =>
        size + PayloadEnd(b[size..], if |payload| < need then need - |payload| else 0)
  }

  /* What a prefix of the stream holds */

  lemma FrontOfPrefix(b: seq<Byte>, k: nat)
    requires k <= |b|
    ensures FrontOf(b[..k]) == if FrontOf(b).OneFrame? && FrontOf(b).size <= k then FrontOf(b) else NoFrame
  {
    assert b[..k] + b[k..] == b;
    if FrontOf(b[..k]).OneFrame? {
      FrontStays(b[..k], b[k..]);
    } else if FrontOf(b).OneFrame? && FrontOf(b).size <= k {
      FrontFits(b, k);
    }
  }

  lemma FrontFits(b: seq<Byte>, k: nat)
    requires FrontOf(b).OneFrame? && FrontOf(b).size <= k <= |b|
    ensures FrontOf(b[..k]).OneFrame?
  {
    assert |b| >= 4 && k >= 4 ==> b[..k][2..4] == b[2..4];
    assert |b| >= 10 && k >= 10 ==> b[..k][2..10] == b[2..10];
  }

  lemma {:induction false} PrefixClosed(b: seq<Byte>, k: nat)
    requires k <= |b|
    ensures Drain(b[..k]).closed <==> Drain(b).closed && CloseEnd(b) <= k
    ensures Drain(b[..k]).payload <= Drain(b).payload
    decreases |b|
  {
    hide FrontOf;
    FrontOfPrefix(b, k);
    var f := FrontOf(b);
    if f.OneFrame? && !f.closing {
      if f.size <= k {
        assert b[..k][f.size..] == b[f.size..][..k - f.size];
        PrefixClosed(b[f.size..], k - f.size);
      }
    }
  }

  lemma {:induction false} PrefixEnough(b: seq<Byte>, k: nat, need: nat)
    requires k <= |b| && need <= |Drain(b).payload|
    ensures need <= |Drain(b[..k]).payload| <==> PayloadEnd(b, need) <= k
    decreases |b|
  {
    hide FrontOf;
    FrontOfPrefix(b, k);
    var f := FrontOf(b);
    if need > 0 && f.OneFrame? && f.size <= k {
      assert b[..k][f.size..] == b[f.size..][..k - f.size];
      PrefixEnough(b[f.size..], k - f.size, if |f.payload| < need then need - |f.payload| else 0);
    }
  }

  // Payload that is handed out ends before the close frame does.
  lemma {:induction false} EnoughBeforeClose(b: seq<Byte>, need: nat)
    requires Drain(b).closed && 0 < need <= |Drain(b).payload|
    ensures PayloadEnd(b, need) < CloseEnd(b)
    decreases |b|
  {
    hide FrontOf;
    var f := FrontOf(b);
    if |f.payload| < need {
      EnoughBeforeClose(b[f.size..], need - |f.payload|);
    } else {
      CloseEndPositive(b[f.size..]);
    }
  }

  lemma CloseEndPositive(b: seq<Byte>)
    requires Drain(b).closed
    ensures CloseEnd(b) > 0
  {
  }

  /* A call, seen from everything that has arrived */

  // The answer of a call, every byte since some earlier moment kept in `b`.
  function Answer(b: seq<Byte>, rfb: seq<Byte>, chunks: seq<seq<Byte>>, n: nat): Result<seq<Byte>, Failure>
    decreases |Flatten(chunks)|
  {
    var d := Drain(b);
    if d.closed then Err(WsClosed)
    else if |rfb + d.payload| >= n then Ok((rfb + d.payload)[..n])
    else
      var r := Receive(chunks, RECV);
      if r.0 == [] then Err(Eof) else Answer(b + r.0, rfb, r.1, n)
  }

  lemma {:induction false} AnswerFrom(b: seq<Byte>, more: seq<Byte>, rfb: seq<Byte>, chunks: seq<seq<Byte>>, n: nat)
    requires !Drain(b).closed
    ensures Ask(Sink(Drain(b).rest + more, rfb + Drain(b).payload, chunks), n).answer == Answer(b + more, rfb, chunks, n)
    decreases |Flatten(chunks)|
  {
    hide Drain, Receive;
    DrainAppend(b, more);
    var d, e := Drain(b), Drain(Drain(b).rest + more);
    assert rfb + d.payload + e.payload == rfb + (d.payload + e.payload);
    var r := Receive(chunks, RECV);
    if !e.closed && |rfb + Drain(b + more).payload| < n && r.0 != [] {
      AnswerFrom(b + more, r.0, rfb, r.1, n);
    }
  }

  lemma AskAnswers(buf: seq<Byte>, rfb: seq<Byte>, chunks: seq<seq<Byte>>, n: nat)
    ensures Ask(Sink(buf, rfb, chunks), n).answer == Answer(buf, rfb, chunks, n)
  {
    NoFront();
    assert Drain([]) == Drained([], [], false);
    assert [] + buf == buf && rfb + [] == rfb;
    AnswerFrom([], buf, rfb, chunks, n);
  }

  /* The exact condition */

  ghost predicate IsCut(chunks: seq<seq<Byte>>, s: seq<Byte>) {
    Flatten(chunks) == s && forall i :: 0 <= i < |chunks| ==> chunks[i] != []
  }

  // Two cuts of the same stream on which the call answers differently.
  ghost predicate DependsOnTheCut(buf: seq<Byte>, rfb: seq<Byte>, s: seq<Byte>, n: nat) {
    exists c, d :: IsCut(c, s) && IsCut(d, s)
      && Ask(Sink(buf, rfb, c), n).answer != Ask(Sink(buf, rfb, d), n).answer
  }

  // More is asked for than is there, it is still to come, and a close frame ends so near behind it
  // that one `recv` can span both ends.
  predicate CloseNear(buf: seq<Byte>, rfb: seq<Byte>, s: seq<Byte>, n: nat) {
    var whole := buf + s;
    !Drain(buf).closed && Drain(whole).closed
    && |rfb + Drain(buf).payload| < n <= |rfb + Drain(whole).payload|
    && CloseEnd(whole) - PayloadEnd(whole, n - |rfb|) < RECV
  }

  // What the call answers however the stream is cut, where the cut does not matter.
  function Settled(b: seq<Byte>, rfb: seq<Byte>, s: seq<Byte>, n: nat): Result<seq<Byte>, Failure> {
    var whole := Drain(b + s);
    if Drain(b).closed then Err(WsClosed)
    else if n <= |rfb + whole.payload| then Ok((rfb + whole.payload)[..n])
    else if whole.closed then Err(WsClosed)
    else Err(Eof)
  }

  lemma {:induction false} AnswerSettled(b: seq<Byte>, rfb: seq<Byte>, chunks: seq<seq<Byte>>, n: nat)
    requires forall i :: 0 <= i < |chunks| ==> chunks[i] != []
    requires !CloseNear(b, rfb, Flatten(chunks), n)
    ensures Answer(b, rfb, chunks, n) == Settled(b, rfb, Flatten(chunks), n)
    decreases |Flatten(chunks)|
  {
    hide Drain, CloseEnd, PayloadEnd;
    var s := Flatten(chunks);
    var whole := b + s;
    assert whole[..|b|] == b;
    PrefixClosed(whole, |b|);
    if !Drain(b).closed && |rfb + Drain(b).payload| < n {
      if s == [] {
        assert whole == b;
      } else {
        var r := Receive(chunks, RECV);
        ReceiveSome(chunks);
        assert b + r.0 + Flatten(r.1) == whole;
        assert r.0 + Flatten(r.1) == s;
        StepSettled(b, rfb, r.0, Flatten(r.1), n);
        AnswerSettled(b + r.0, rfb, r.1, n);
      }
    } else {
      var here, all := rfb + Drain(b).payload, rfb + Drain(whole).payload;
      assert here <= all;
      assert n <= |here| ==> here[..n] == all[..n];
    }
  }

  lemma ReceiveSome(chunks: seq<seq<Byte>>)
    requires forall i :: 0 <= i < |chunks| ==> chunks[i] != []
    requires Flatten(chunks) != []
    ensures Receive(chunks, RECV).0 != []
    ensures forall i :: 0 <= i < |Receive(chunks, RECV).1| ==> Receive(chunks, RECV).1[i] != []
  {
  }

  // One more piece neither brings the cut into play nor changes the settled answer.
  lemma StepSettled(b: seq<Byte>, rfb: seq<Byte>, c: seq<Byte>, s: seq<Byte>, n: nat)
    requires !Drain(b).closed && |rfb + Drain(b).payload| < n && |c| <= RECV
    requires !CloseNear(b, rfb, c + s, n)
    ensures !CloseNear(b + c, rfb, s, n)
    ensures Settled(b + c, rfb, s, n) == Settled(b, rfb, c + s, n)
  {
    hide Drain, CloseEnd, PayloadEnd;
    var whole := b + (c + s);
    assert b + c + s == whole && whole[..|b|] == b && whole[..|b + c|] == b + c;
    PrefixClosed(whole, |b|);
    PrefixClosed(whole, |b + c|);
    if n <= |rfb + Drain(whole).payload| {
      PrefixEnough(whole, |b|, n - |rfb|);
    }
  }

  function Pieces(x: seq<Byte>, tail: seq<seq<Byte>>): seq<seq<Byte>> {
    if x == [] then tail else [x] + tail
  }

  // A piece that does not reach beyond the bytes asked for only brings the call there.
  lemma {:induction false} ReadThrough(b: seq<Byte>, rfb: seq<Byte>, x: seq<Byte>, tail: seq<seq<Byte>>, n: nat)
    requires var whole := b + x + Flatten(tail);
      Drain(whole).closed && |rfb| < n <= |rfb + Drain(whole).payload| && |b + x| <= PayloadEnd(whole, n - |rfb|)
    ensures Answer(b, rfb, Pieces(x, tail), n) == Answer(b + x, rfb, tail, n)
    decreases |x|
  {
    hide Drain, CloseEnd, PayloadEnd;
    var whole := b + x + Flatten(tail);
    if x == [] {
      assert b + x == b;
    } else {
      assert whole[..|b|] == b;
      PrefixClosed(whole, |b|);
      PrefixEnough(whole, |b|, n - |rfb|);
      EnoughBeforeClose(whole, n - |rfb|);
      if |x| > RECV {
        assert b + x[..RECV] + x[RECV..] == b + x;
        ReadThrough(b + x[..RECV], rfb, x[RECV..], tail, n);
      }
    }
  }

  lemma FlattenPieces(x: seq<Byte>, tail: seq<seq<Byte>>)
    ensures Flatten(Pieces(x, tail)) == x + Flatten(tail)
    ensures (forall i :: 0 <= i < |tail| ==> tail[i] != []) ==>
      forall i :: 0 <= i < |Pieces(x, tail)| ==> Pieces(x, tail)[i] != []
  {
    assert x == [] ==> x + Flatten(tail) == Flatten(tail);
  }

  // Cut behind the bytes asked for, the stream yields them.
  lemma CutBehind(buf: seq<Byte>, rfb: seq<Byte>, s: seq<Byte>, n: nat) returns (chunks: seq<seq<Byte>>)
    requires CloseNear(buf, rfb, s, n)
    ensures IsCut(chunks, s) && Answer(buf, rfb, chunks, n).Ok?
  {
    hide Drain, CloseEnd, PayloadEnd;
    var whole := buf + s;
    var need := n - |rfb|;
    var e := PayloadEnd(whole, need);
    assert whole[..|buf|] == buf;
    PrefixClosed(whole, |buf|);
    PrefixEnough(whole, |buf|, need);
    PrefixClosed(whole, e);
    PrefixEnough(whole, e, need);
    EnoughBeforeClose(whole, need);
    var x, y := whole[|buf|..e], whole[e..];
    chunks := Pieces(x, Pieces(y, []));
    FlattenPieces(y, []);
    FlattenPieces(x, Pieces(y, []));
    assert x + (y + []) == s && buf + x == whole[..e] && buf + x + (y + []) == whole;
    ReadThrough(buf, rfb, x, Pieces(y, []), n);
  }

  lemma CutTwice(buf: seq<Byte>, s: seq<Byte>, i: nat, j: nat)
    requires |buf| <= i <= j <= |buf + s|
    ensures var w := buf + s;
      w[|buf|..i] + (w[i..j] + w[j..]) == s && buf + w[|buf|..i] == w[..i] && w[..i] + w[i..j] == w[..j]
      && buf + w[|buf|..i] + (w[i..j] + w[j..]) == w
  {
  }

  lemma FirstPiece(y: seq<Byte>, behind: seq<seq<Byte>>)
    requires |y| <= RECV
    ensures Receive([y] + behind, RECV) == (y, behind)
  {
    assert ([y] + behind)[1..] == behind;
  }

  // Cut just before their end, the stream brings the close frame with them.
  lemma CutBefore(buf: seq<Byte>, rfb: seq<Byte>, s: seq<Byte>, n: nat) returns (chunks: seq<seq<Byte>>)
    requires CloseNear(buf, rfb, s, n)
    ensures IsCut(chunks, s) && Answer(buf, rfb, chunks, n) == Err(WsClosed)
  {
    hide Drain, CloseEnd, PayloadEnd;
    var whole := buf + s;
    var need := n - |rfb|;
    var e, f := PayloadEnd(whole, need), CloseEnd(whole);
    assert whole[..|buf|] == buf;
    PrefixClosed(whole, |buf|);
    PrefixEnough(whole, |buf|, need);
    EnoughBeforeClose(whole, need);
    CutTwice(buf, s, e - 1, f);
    PrefixClosed(whole, e - 1);
    PrefixEnough(whole, e - 1, need);
    PrefixClosed(whole, f);
    var x, y, z := whole[|buf|..e - 1], whole[e - 1..f], whole[f..];
    var behind := Pieces(z, []);
    var tail := [y] + behind;
    chunks := Pieces(x, tail);
    FlattenPieces(z, []);
    FlattenPieces(x, tail);
    assert z + [] == z && Flatten(tail) == y + z;
    hide Pieces, Flatten;
    ReadThrough(buf, rfb, x, tail, n);
    FirstPiece(y, behind);
  }

  /**
   The answer depends on the cut exactly when more is asked for than is there, it is still to come,
   and a close frame ends less than one `recv` behind it. Then one cut yields the bytes and another
   reports the close.
   */
  lemma DependsOnTheCutExactly(buf: seq<Byte>, rfb: seq<Byte>, s: seq<Byte>, n: nat)
    ensures DependsOnTheCut(buf, rfb, s, n) <==> CloseNear(buf, rfb, s, n)
  {
    hide CloseNear, Settled, Ask, Answer, Drain;
    if CloseNear(buf, rfb, s, n) {
      var c := CutBehind(buf, rfb, s, n);
      var d := CutBefore(buf, rfb, s, n);
      AskAnswers(buf, rfb, c, n);
      AskAnswers(buf, rfb, d, n);
    } else {
      forall c | IsCut(c, s)
        ensures Ask(Sink(buf, rfb, c), n).answer == Settled(buf, rfb, s, n)
      {
        AskAnswers(buf, rfb, c, n);
        AnswerSettled(buf, rfb, c, n);
      }
    }
  }

  // A text and a close frame: arriving together, the text is lost to the exception; arriving one
  // after the other, it is handed out.
  lemma CloseDependsOnTheCut(payload: seq<Byte>, n: nat)
    requires 0 < n <= |payload| <= 65000
    ensures var text, close := Encode(Frame(true, OP_TEXT, None, payload)), Encode(Frame(true, OP_CLOSE, None, []));
      Ask(Sink([], [], [text + close]), n).answer == Err(WsClosed)
      && Ask(Sink([], [], [text, close]), n).answer == Ok(payload[..n])
  {
    hide FrontOf;
    var text, close := Frame(true, OP_TEXT, None, payload), Frame(true, OP_CLOSE, None, []);
    var t, c := Encode(text), Encode(close);
    FrontIs(text, c);
    FrontIs(text, []);
    FrontIs(close, []);
    NoFront();
    hide Encode;
    assert t + [] == t && c + [] == c;
    assert Drain(t) == Drained(payload, [], false);
    assert Drain(t + c).closed && Drain([]) == Drained([], [], false);
    assert [] + t == t && [] + (t + c) == t + c && [] + payload == payload;
    TwoCuts(t, c, payload, n);
  }

  lemma TwoCuts(t: seq<Byte>, c: seq<Byte>, payload: seq<Byte>, n: nat)
    requires t != [] && |t + c| <= RECV && 0 < n <= |payload|
    requires Drain([]) == Drained([], [], false) && Drain(t) == Drained(payload, [], false) && Drain(t + c).closed
    ensures Ask(Sink([], [], [t + c]), n).answer == Err(WsClosed)
    ensures Ask(Sink([], [], [t, c]), n).answer == Ok(payload[..n])
  {
    hide Drain;
    assert [] + t == t && [] + (t + c) == t + c && [] + payload == payload;
    AskAnswers([], [], [t + c], n);
    AskAnswers([], [], [t, c], n);
    assert Receive([t + c], RECV).0 == t + c && Receive([t, c], RECV).0 == t;
  }
}
