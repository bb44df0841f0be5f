/**
 The transcript cursors (cockpit/server/pn_cell_transcript.py, `transcript_tail` and `bus_tail`): a
 window of the log is read through a shell pipe whose output ends with a sentinel, and the caller
 keeps the offset behind the last complete line. The size reading and the number of output bytes that
 arrive before the time limit are inputs: both come from the guest and may be anything. Output of an
 earlier command is not seen.
 */
module LogTail {
  import opened Bytes
  import opened LogLines

  // "__XT__" and "__BT__"
  const SENTINEL: Text := [0x5F, 0x5F, 0x58, 0x54, 0x5F, 0x5F]
  const BUS_SENTINEL: Text := [0x5F, 0x5F, 0x42, 0x54, 0x5F, 0x5F]

  predicate OccursAt(s: Text, t: Text, i: nat) {
    i <= |s| && t <= s[i..]
  }

  // Where `t` first occurs in `s`; the length of `s` if it does not.
  function Find(s: Text, t: Text): (n: nat)
    ensures n <= |s|
  {
    if s == [] || t <= s then 0 else 1 + Find(s[1..], t)
  }

  lemma {:induction false} FindIsFirst(s: Text, t: Text, i: nat)
    ensures i < Find(s, t) ==> !OccursAt(s, t, i)
    ensures Find(s, t) < |s| ==> OccursAt(s, t, Find(s, t))
  {
    if s != [] && !(t <= s) {
      assert s[1 + Find(s[1..], t)..] == s[1..][Find(s[1..], t)..];
      if i > 0 {
        FindIsFirst(s[1..], t, i - 1);
        assert i <= |s| ==> s[i..] == s[1..][i - 1..];
      } else {
        FindIsFirst(s[1..], t, 0);
      }
    }
  }

  // The part of a text before the first occurrence of `t`.
  function BeforeFirst(s: Text, t: Text): (r: Text)
    ensures r <= s
  {
    s[..Find(s, t)]
  }

  datatype Tail = Tail(lines: seq<Text>, off: nat)

  function Min(a: int, b: int): int {
    if a < b then a else b
  }

  function Want(maxbytes: int): nat {
    var asked := if maxbytes == 0 then 120000 else maxbytes;
    if Min(asked, 900000) < 1024 then 1024 else Min(asked, 900000)
  }

  // `tail -c +(off + 1)`
  function FromOffset(log: Text, off: nat): Text {
    log[Min(off, |log|)..]
  }

  // `head -c want`
  function Head(s: Text, want: nat): Text {
    s[..Min(want, |s|)]
  }

  // What arrives of the pipe's output before the time limit.
  function Received(window: Text, sentinel: Text, arrived: nat): Text {
    Head(window + sentinel + [NEWLINE], arrived)
  }

  // The whole lines in front of the sentinel.
  function Consumed(window: Text, sentinel: Text, arrived: nat): Text {
    CompletePart(BeforeFirst(Received(window, sentinel, arrived), sentinel))
  }

  function Poll(log: Text, off: nat, size: nat, maxbytes: int, arrived: nat): Tail {
    var start := if off > size then 0 else off;
    if start >= size then Tail([], start)
    else
      var chunk := Consumed(Head(FromOffset(log, start), Want(maxbytes)), SENTINEL, arrived);
      Tail(Delivered(chunk, TEXT_SPACE), start + |chunk|)
  }

  function BusPoll(log: Text, off: nat, arrived: nat): Tail {
    var chunk := Consumed(FromOffset(log, off), BUS_SENTINEL, arrived);
    Tail(Delivered(chunk, TEXT_SPACE), off + |chunk|)
  }

  method ReadTranscript(log: Text, offset: int, size: nat, maxbytes: int, arrived: nat) returns (t: Tail)
    ensures t == Poll(log, if offset < 0 then 0 else offset, size, maxbytes, arrived)
  {
    var off: nat := if offset < 0 then 0 else offset;
    if off > size {
      off := 0;
    }
    if off >= size {
      return Tail([], off);
    }
    var want := Want(maxbytes);
    var output := Received(Head(FromOffset(log, off), want), SENTINEL, arrived);
    var complete := CompletePart(BeforeFirst(output, SENTINEL));
    if complete == [] {
      return Tail([], off);
    }
    var lines := SplitLines(complete, TEXT_SPACE);
    t := Tail(lines, off + |complete|);
  }

  method ReadBus(log: Text, off: nat, arrived: nat) returns (t: Tail)
    ensures t == BusPoll(log, off, arrived)
  {
    var complete := CompletePart(BeforeFirst(Received(FromOffset(log, off), BUS_SENTINEL, arrived), BUS_SENTINEL));
    if complete == [] {
      return Tail([], off);
    }
    var lines := SplitLines(complete, TEXT_SPACE);
    t := Tail(lines, off + |complete|);
  }

  /* What one read takes */

  // Cutting at the last newline does not depend on what follows it.
  lemma {:induction false} CompletePartIsLast(s: Text, n: nat)
    requires n <= |s|
    requires NEWLINE !in s[n..]
    ensures |CompletePart(s)| <= n
    decreases |s|
  {
    if n < |s| {
      assert s[|s| - 1] == s[n..][|s| - n - 1];
      assert s[..|s| - 1][n..] <= s[n..];
      CompletePartIsLast(s[..|s| - 1], n);
    }
  }

  // What stands in front of the sentinel is the window, or runs a little into a sentinel that was cut.
  lemma BodyIsWindow(window: Text, sentinel: Text, arrived: nat)
    requires sentinel != []
    ensures var body := BeforeFirst(Received(window, sentinel, arrived), sentinel);
      body <= window + sentinel && (|body| > |window| ==> body[|window|..] <= sentinel)
  {
    hide Find;
    var got := Received(window, sentinel, arrived);
    FindIsFirst(got, sentinel, |window|);
    if |got| > |window + sentinel| {
      assert got[|window|..][..|sentinel|] == sentinel;
      assert OccursAt(got, sentinel, |window|);
    } else {
      assert got <= window + sentinel;
    }
  }

  // The sentinel marks the end of the window, whatever arrives of it: only whole lines of the
  // window are taken, from its start.
  lemma ConsumedIsWindow(window: Text, sentinel: Text, arrived: nat)
    requires sentinel != [] && NEWLINE !in sentinel
    ensures Consumed(window, sentinel, arrived) <= window
    ensures EndsLine(Consumed(window, sentinel, arrived))
  {
    hide BeforeFirst, Received, CompletePart;
    BodyIsWindow(window, sentinel, arrived);
    var body := BeforeFirst(Received(window, sentinel, arrived), sentinel);
    if |body| > |window| {
      CompletePartIsLast(body, |window|);
    }
    PrefixOfFirst(CompletePart(body), body, window, sentinel);
  }

  lemma PrefixOfFirst(a: Text, b: Text, window: Text, sentinel: Text)
    requires a <= b <= window + sentinel && |a| <= |window|
    ensures a <= window
  {
  }

  // A line taken is whole, so another read can only start at the start of a line, and the lines
  // handed out are those between the two offsets.
  lemma PollTakesLines(log: Text, off: nat, size: nat, maxbytes: int, arrived: nat)
    requires Boundary(log, off) && off <= size
    ensures var t := Poll(log, off, size, maxbytes, arrived);
      off <= t.off && Boundary(log, t.off) && t.lines == Delivered(log[off..t.off], TEXT_SPACE)
  {
    hide FirstLength, UnlessBlank, Consumed, CompletePart;
    if off < size {
      var window := Head(FromOffset(log, off), Want(maxbytes));
      ConsumedIsWindow(window, SENTINEL, arrived);
      TakesPrefix(log, off, Consumed(window, SENTINEL, arrived));
    }
  }

  lemma TakesPrefix(log: Text, off: nat, chunk: Text)
    requires Boundary(log, off)
    requires chunk <= log[off..] && EndsLine(chunk)
    ensures Boundary(log, off + |chunk|) && chunk == log[off..off + |chunk|]
  {
  }

  lemma BusPollTakesLines(log: Text, off: nat, arrived: nat)
    requires Boundary(log, off)
    ensures var t := BusPoll(log, off, arrived);
      off <= t.off && Boundary(log, t.off) && t.lines == Delivered(log[off..t.off], TEXT_SPACE)
  {
    hide Delivered, Consumed, CompletePart;
    ConsumedIsWindow(FromOffset(log, off), BUS_SENTINEL, arrived);
    TakesPrefix(log, off, Consumed(FromOffset(log, off), BUS_SENTINEL, arrived));
  }

  // Nothing in front of the sentinel is taken for it.
  ghost predicate Marked(window: Text, sentinel: Text) {
    forall i :: 0 <= i < |window| ==> !OccursAt(window + sentinel + [NEWLINE], sentinel, i)
  }

  // All of the whole lines are taken when all of the output has arrived and the sentinel marks its end.
  lemma TakesWholeLines(window: Text, sentinel: Text, arrived: nat)
    requires sentinel != [] && |window| + |sentinel| <= arrived && Marked(window, sentinel)
    ensures Consumed(window, sentinel, arrived) == CompletePart(window)
  {
    hide Find, CompletePart, Received, OccursAt, Marked;
    ReceivedAll(window, sentinel, arrived);
    var got := Received(window, sentinel, arrived);
    FoundAt(got, sentinel, |window|);
    assert got[..|window|] == window;
  }

  lemma FoundAt(s: Text, t: Text, n: nat)
    requires n < |s| && OccursAt(s, t, n) && forall i :: 0 <= i < n ==> !OccursAt(s, t, i)
    ensures Find(s, t) == n
  {
    hide Find, OccursAt;
    FindIsFirst(s, t, n);
    FindIsFirst(s, t, Find(s, t));
  }

  lemma ReceivedAll(window: Text, sentinel: Text, arrived: nat)
    requires sentinel != [] && |window| + |sentinel| <= arrived && Marked(window, sentinel)
    ensures var got := Received(window, sentinel, arrived);
      window <= got && |window| < |got| && OccursAt(got, sentinel, |window|)
      && forall i :: 0 <= i < |window| ==> !OccursAt(got, sentinel, i)
  {
    var whole, got := window + sentinel + [NEWLINE], Received(window, sentinel, arrived);
    assert window + sentinel <= got <= whole;
    assert got[|window|..][..|sentinel|] == sentinel;
    forall i | 0 <= i < |window|
      ensures !OccursAt(got, sentinel, i)
    {
      assert got[i..] <= whole[i..] && !OccursAt(whole, sentinel, i);
      FrontOfFront(sentinel, got[i..], whole[i..]);
    }
  }

  lemma FrontOfFront(a: Text, b: Text, c: Text)
    requires b <= c
    ensures a <= b ==> a <= c
  {
  }

  /**
   A read in which nothing goes wrong: of the bytes asked for, which are at least 1024 and at most 900000
   (120000 if zero are asked for), the whole lines are handed out, and the cursor moves behind them.
   */
  lemma ReadsWindow(log: Text, off: nat, size: nat, maxbytes: int, arrived: nat)
    requires off < size && off <= |log|
    ensures var asked := if maxbytes == 0 then 120000 else if maxbytes < 1024 then 1024 else if maxbytes > 900000 then 900000 else maxbytes;
      var window := if off + asked < |log| then log[off..off + asked] else log[off..];
      var taken := CompletePart(window);
      Marked(window, SENTINEL) && |window| + 6 <= arrived ==>
        Poll(log, off, size, maxbytes, arrived) == Tail(Delivered(taken, {9, 10, 11, 12, 13, 28, 29, 30, 31, 32}), off + |taken|)
  {
    hide Delivered, CompletePart, Consumed, Marked;
    var asked := if maxbytes == 0 then 120000 else if maxbytes < 1024 then 1024 else if maxbytes > 900000 then 900000 else maxbytes;
    var window := if off + asked < |log| then log[off..off + asked] else log[off..];
    assert Head(FromOffset(log, off), Want(maxbytes)) == window;
    if Marked(window, SENTINEL) && |window| + 6 <= arrived {
      TakesWholeLines(window, SENTINEL, arrived);
    }
  }

  // The other cursor reads all that there is, and hands out its whole lines.
  lemma BusReadsAll(log: Text, off: nat, arrived: nat)
    requires off <= |log| && Marked(log[off..], BUS_SENTINEL) && |log| - off + 6 <= arrived
    ensures var taken := CompletePart(log[off..]);
      BusPoll(log, off, arrived) == Tail(Delivered(taken, {9, 10, 11, 12, 13, 28, 29, 30, 31, 32}), off + |taken|)
  {
    hide Delivered, CompletePart, Consumed, Marked;
    TakesWholeLines(log[off..], BUS_SENTINEL, arrived);
  }

  /* When a read makes progress */

  predicate Contains(s: Text, t: Text) {
    Find(s, t) < |s|
  }

  // Anything that occurs is contained, and what is contained occurs.
  lemma ContainsMeans(s: Text, t: Text, i: nat)
    requires t != []
    ensures OccursAt(s, t, i) ==> Contains(s, t)
    ensures Contains(s, t) ==> OccursAt(s, t, Find(s, t))
  {
    hide Find;
    FindIsFirst(s, t, i);
  }

  // An occurrence within a part is one in the whole.
  lemma FindInPrefix(a: Text, b: Text, t: Text)
    requires t != [] && a <= b && Contains(a, t)
    ensures Find(b, t) <= Find(a, t) && Find(a, t) + |t| <= |a|
  {
    var i := Find(a, t);
    FindIsFirst(a, t, i);
    assert a[i..] <= b[i..];
    FindIsFirst(b, t, i);
  }

  // A text without newline that starts before a newline ends before it.
  lemma FindBeforeNewline(s: Text, t: Text, n: nat)
    requires t != [] && NEWLINE !in t
    requires 0 < n <= |s| && s[n - 1] == NEWLINE && Find(s, t) < n
    ensures Contains(s[..n], t)
  {
    var i := Find(s, t);
    FindIsFirst(s, t, i);
    assert t <= s[..n][i..];
    FindIsFirst(s[..n], t, i);
  }

  // What is taken holds the first line; that line has arrived and does not hold the sentinel.
  lemma TakenLineIsClean(window: Text, sentinel: Text, arrived: nat)
    requires sentinel != [] && NEWLINE !in sentinel
    requires Consumed(window, sentinel, arrived) != []
    ensures NEWLINE in window && FirstLength(window) <= arrived && !Contains(window[..FirstLength(window)], sentinel)
  {
    hide Consumed, Received, FirstLength, Find, Contains, EndsLine;
    var taken, got := Consumed(window, sentinel, arrived), Received(window, sentinel, arrived);
    ConsumedIsWindow(window, sentinel, arrived);
    FrontHoldsLine(taken, window);
    ConsumedIsFront(window, sentinel, arrived);
    ReceivedArrived(window, sentinel, arrived);
    var n := FirstLength(window);
    assert window[..n] == taken[..n] == got[..n];
    if Contains(window[..n], sentinel) {
      FindInPrefix(window[..n], got, sentinel);
      assert false;
    }
  }

  lemma ReceivedArrived(window: Text, sentinel: Text, arrived: nat)
    ensures |Received(window, sentinel, arrived)| <= arrived
    ensures forall n :: 0 <= n <= |window| && n <= arrived ==> window[..n] <= Received(window, sentinel, arrived)
  {
    assert forall n :: 0 <= n <= |window| ==> window[..n] == (window + sentinel + [NEWLINE])[..n];
  }

  lemma FrontHoldsLine(front: Text, s: Text)
    requires front != [] && front <= s && EndsLine(front)
    ensures NEWLINE in s && FirstLength(s) <= |front|
  {
    assert front[|front| - 1] == NEWLINE;
  }

  // What is taken lies in front of the sentinel.
  lemma ConsumedIsFront(window: Text, sentinel: Text, arrived: nat)
    ensures var got := Received(window, sentinel, arrived);
      Consumed(window, sentinel, arrived) <= got && |Consumed(window, sentinel, arrived)| <= Find(got, sentinel)
  {
    hide CompletePart, Find, Received;
  }

  // A line that has arrived in front of the sentinel is taken.
  lemma CleanLineIsTaken(window: Text, sentinel: Text, arrived: nat, n: nat)
    requires sentinel != [] && NEWLINE !in sentinel
    requires n <= arrived
    requires 0 < n <= |window| && window[n - 1] == NEWLINE && !Contains(window[..n], sentinel)
    ensures Consumed(window, sentinel, arrived) != []
  {
    hide CompletePart, Find, Contains, BeforeFirst;
    var got := Received(window, sentinel, arrived);
    hide Received;
    ReceivedArrived(window, sentinel, arrived);
    assert got[..n] == window[..n];
    if Find(got, sentinel) < n {
      FindBeforeNewline(got, sentinel, n);
      assert false;
    }
    LineStays(got, sentinel, n);
  }

  lemma LineStays(s: Text, t: Text, n: nat)
    requires 0 < n <= Find(s, t) && s[n - 1] == NEWLINE
    ensures NEWLINE in BeforeFirst(s, t)
  {
    hide Find;
    assert BeforeFirst(s, t)[n - 1] == NEWLINE;
  }

  // The first line of the window ends in it and has arrived, and the sentinel is not in it.
  predicate Offers(window: Text, sentinel: Text, arrived: nat) {
    NEWLINE in window && FirstLength(window) <= arrived && !Contains(window[..FirstLength(window)], sentinel)
  }

  function Window(log: Text, off: nat, maxbytes: int): Text {
    Head(FromOffset(log, off), Want(maxbytes))
  }

  // The cursor moves exactly when the first line fits the window, has arrived, and does not hold the
  // sentinel.
  lemma AdvancesExactly(log: Text, off: nat, size: nat, maxbytes: int, arrived: nat)
    requires off < size
    ensures Poll(log, off, size, maxbytes, arrived).off > off <==> Offers(Window(log, off, maxbytes), SENTINEL, arrived)
  {
    hide Consumed, Offers, Delivered, Want, Head, FromOffset;
    TakesExactly(Window(log, off, maxbytes), SENTINEL, arrived);
  }

  lemma BusAdvancesExactly(log: Text, off: nat, arrived: nat)
    ensures BusPoll(log, off, arrived).off > off <==> Offers(FromOffset(log, off), BUS_SENTINEL, arrived)
  {
    hide Consumed, Offers, Delivered, FromOffset;
    TakesExactly(FromOffset(log, off), BUS_SENTINEL, arrived);
  }

  lemma TakesExactly(window: Text, sentinel: Text, arrived: nat)
    requires sentinel != [] && NEWLINE !in sentinel
    ensures Consumed(window, sentinel, arrived) != [] <==> Offers(window, sentinel, arrived)
  {
    hide Consumed, Contains, FirstLength;
    if Consumed(window, sentinel, arrived) != [] {
      TakenLineIsClean(window, sentinel, arrived);
    }
    if Offers(window, sentinel, arrived) {
      CleanLineIsTaken(window, sentinel, arrived, FirstLength(window));
    }
  }

  lemma PollOfNothing(log: Text, off: nat, size: nat, maxbytes: int, arrived: nat)
    requires off <= size && Consumed(Window(log, off, maxbytes), SENTINEL, arrived) == []
    ensures Poll(log, off, size, maxbytes, arrived) == Tail([], off)
  {
    hide Consumed, Want, Head, FromOffset;
  }

  // A line that holds the sentinel stops the cursor for good: however the log grows and whatever
  // is asked for or arrives, no later read gets past it.
  lemma SentinelBlocks(log: Text, more: Text, off: nat, size: nat, maxbytes: int, arrived: nat)
    requires off < |log| && off <= size
    requires NEWLINE in log[off..] && Contains(log[off..][..FirstLength(log[off..])], SENTINEL)
    ensures Poll(log + more, off, size, maxbytes, arrived) == Tail([], off)
  {
    var rest := log[off..];
    var window := Window(log + more, off, maxbytes);
    hide CompletePart, Find, Contains, FirstLength, Delivered, Poll;
    assert FromOffset(log + more, off) == rest + more;
    assert window <= rest + more;
    hide Consumed, Contains, FirstLength, Delivered, Want, Head, FromOffset, Window;
    FirstLinePrefix(rest, rest + more);
    if Consumed(window, SENTINEL, arrived) != [] {
      TakenLineIsClean(window, SENTINEL, arrived);
      FirstLinePrefix(window, rest + more);
      assert false;
    }
    assert Consumed(Window(log + more, off, maxbytes), SENTINEL, arrived) == [];
    PollOfNothing(log + more, off, size, maxbytes, arrived);
  }
}
