/**
 Whole runs of the transcript cursors (cockpit/server/pn_cell_transcript.py): when each line of a growing
 log is handed out once and in order.
 */
module LogTailRuns {
  import opened Bytes
  import opened LogLines
  import opened LogTail

  // The log grows, and the caller reads it with either cursor.
  datatype Event = Append(bytes: Text) | Read(size: nat, maxbytes: int, arrived: nat) | Follow(arrived: nat)

  datatype Cursor = Cursor(log: Text, off: nat, delivered: seq<Text>)

  function Handed(c: Cursor, t: Tail): Cursor {
    Cursor(c.log, t.off, c.delivered + t.lines)
  }

  function Step(c: Cursor, e: Event): Cursor {
    match e
    case Append(bytes) => c.(log := c.log + bytes)
    case Read(size, maxbytes, arrived) => Handed(c, Poll(c.log, c.off, size, maxbytes, arrived))
    case Follow(arrived) => Handed(c, BusPoll(c.log, c.off, arrived))
  }

  function Run(c: Cursor, events: seq<Event>): Cursor
    decreases |events|
  {
    if events == [] then c else Run(Step(c, events[0]), events[1..])
  }

  // No size reading falls short of the cursor.
  predicate Covered(c: Cursor, events: seq<Event>)
    decreases |events|
  {
    events == []
    || ((events[0].Read? ==> c.off <= events[0].size) && Covered(Step(c, events[0]), events[1..]))
  }

  // Everything between where reading began and the cursor has been handed out, in order, once.
  ghost predicate UpTo(c: Cursor, start: nat) {
    Boundary(c.log, start) && Boundary(c.log, c.off) && start <= c.off
    && c.delivered == Delivered(c.log[start..c.off], TEXT_SPACE)
  }

  lemma HandedKeeps(c: Cursor, t: Tail, start: nat)
    requires UpTo(c, start)
    requires c.off <= t.off && Boundary(c.log, t.off) && t.lines == Delivered(c.log[c.off..t.off], TEXT_SPACE)
    ensures UpTo(Handed(c, t), start)
  {
    hide Delivered;
    BetweenBoundaries(c.log, start, c.off);
    DeliveredAppend(c.log[start..c.off], c.log[c.off..t.off], TEXT_SPACE);
    assert c.log[start..c.off] + c.log[c.off..t.off] == c.log[start..t.off];
  }

  lemma StepKeeps(c: Cursor, e: Event, start: nat)
    requires UpTo(c, start)
    requires e.Read? ==> c.off <= e.size
    ensures UpTo(Step(c, e), start) && c.log <= Step(c, e).log && c.off <= Step(c, e).off
  {
    hide Delivered, Poll, BusPoll;
    match e
    case Append(bytes) =>
      assert (c.log + bytes)[start..c.off] == c.log[start..c.off];
    case Read(size, maxbytes, arrived) =>
      PollTakesLines(c.log, c.off, size, maxbytes, arrived);
      HandedKeeps(c, Poll(c.log, c.off, size, maxbytes, arrived), start);
    case Follow(arrived) =>
      BusPollTakesLines(c.log, c.off, arrived);
      HandedKeeps(c, BusPoll(c.log, c.off, arrived), start);
  }

  // However appends and reads are interleaved, and wherever a window or the time limit cuts a
  // line, each line that is not blank is handed out once and in order.
  lemma {:induction false} ExactlyOnce(c: Cursor, events: seq<Event>, start: nat)
    requires UpTo(c, start)
    requires Covered(c, events)
    ensures UpTo(Run(c, events), start)
    ensures c.log <= Run(c, events).log && c.off <= Run(c, events).off
    decreases |events|
  {
    hide UpTo, Step;
    if events != [] {
      StepKeeps(c, events[0], start);
      ExactlyOnce(Step(c, events[0]), events[1..], start);
    }
  }

  /* When lines are handed out twice */

  // The reads that a short size reading sends back to the start of the log.
  predicate Rewinds(c: Cursor, e: Event) {
    e.Read? && e.size < c.off
  }

  // The cursor is sent back exactly by a reading below it, and then reads as from the start.
  lemma ShortReadingRewinds(c: Cursor, e: Event)
    requires Boundary(c.log, c.off)
    ensures Step(c, e).off < c.off ==> Rewinds(c, e)
    ensures Rewinds(c, e) ==> Step(c, e) == Handed(c, Poll(c.log, 0, e.size, e.maxbytes, e.arrived))
  {
    hide Consumed, Delivered;
    if e.Read? && c.off <= e.size {
      PollTakesLines(c.log, c.off, e.size, e.maxbytes, e.arrived);
    }
  }

  // The lines in front of a position.
  function LinesBefore(log: Text, k: nat): seq<Text> {
    Delivered(Head(log, k), TEXT_SPACE)
  }

  // Short readings come only while no line in front of the cursor is one to hand out.
  predicate Harmless(c: Cursor, events: seq<Event>)
    decreases |events|
  {
    events == []
    || ((Rewinds(c, events[0]) ==> LinesBefore(c.log, c.off) == []) && Harmless(Step(c, events[0]), events[1..]))
  }

  // What was handed out is what lies between `start` and the cursor, also when the cursor is in front of it.
  ghost predicate Balanced(c: Cursor, start: nat) {
    Boundary(c.log, start) && Boundary(c.log, c.off)
    && LinesBefore(c.log, start) + c.delivered == LinesBefore(c.log, c.off)
  }

  // How many lines were handed out again.
  function Surplus(c: Cursor, start: nat): int {
    |LinesBefore(c.log, start)| + |c.delivered| - |LinesBefore(c.log, c.off)|
  }

  lemma LinesFrom(log: Text, a: nat, b: nat)
    requires Boundary(log, a) && Boundary(log, b) && a <= b
    ensures LinesBefore(log, b) == LinesBefore(log, a) + Delivered(log[a..b], TEXT_SPACE)
  {
    hide Delivered;
    BetweenBoundaries(log, 0, a);
    assert log[0..a] == log[..a];
    DeliveredAppend(log[..a], log[a..b], TEXT_SPACE);
    assert log[..a] + log[a..b] == log[..b];
  }

  lemma UpToIsBalanced(c: Cursor, start: nat)
    ensures UpTo(c, start) <==> start <= c.off && Balanced(c, start)
  {
    hide LinesBefore, Delivered;
    if start <= c.off && Boundary(c.log, start) && Boundary(c.log, c.off) {
      LinesFrom(c.log, start, c.off);
      var front := LinesBefore(c.log, start);
      assert (front + c.delivered)[|front|..] == c.delivered;
      var between := Delivered(c.log[start..c.off], TEXT_SPACE);
      assert (front + between)[|front|..] == between;
    }
  }

  // A read either continues at the cursor or starts again at 0; either way it takes whole lines.
  lemma ReadContinues(c: Cursor, e: Event)
    requires Boundary(c.log, c.off) && !e.Append?
    ensures var d, from := Step(c, e), if Rewinds(c, e) then 0 else c.off;
      d.log == c.log && Boundary(d.log, d.off) && from <= d.off
      && d.delivered == c.delivered + Delivered(c.log[from..d.off], TEXT_SPACE)
  {
    hide Consumed, Delivered;
    match e
    case Read(size, maxbytes, arrived) =>
      if size < c.off {
        PollTakesLines(c.log, 0, size, maxbytes, arrived);
      } else {
        PollTakesLines(c.log, c.off, size, maxbytes, arrived);
      }
    case Follow(arrived) => BusPollTakesLines(c.log, c.off, arrived);
  }

  // One event: the balance is kept or lost for good.
  lemma StepBalance(c: Cursor, e: Event, start: nat)
    requires Boundary(c.log, start) && Boundary(c.log, c.off) && Surplus(c, start) >= 0
    ensures var d := Step(c, e);
      Boundary(d.log, start) && Boundary(d.log, d.off) && Surplus(d, start) >= Surplus(c, start)
    ensures Rewinds(c, e) && LinesBefore(c.log, c.off) != [] ==> Surplus(Step(c, e), start) > 0
    ensures Balanced(c, start) && (Rewinds(c, e) ==> LinesBefore(c.log, c.off) == []) ==>
      Balanced(Step(c, e), start)
  {
    hide Delivered, Poll, BusPoll;
    if e.Append? {
      assert Head(c.log + e.bytes, start) == Head(c.log, start) && Head(c.log + e.bytes, c.off) == Head(c.log, c.off);
    } else {
      ReadContinues(c, e);
      var from := if Rewinds(c, e) then 0 else c.off;
      LinesFrom(c.log, from, Step(c, e).off);
      NothingBefore(c.log);
    }
  }

  lemma NothingBefore(log: Text)
    ensures LinesBefore(log, 0) == []
  {
  }

  lemma {:induction false} RunBalance(c: Cursor, events: seq<Event>, start: nat)
    requires Boundary(c.log, start) && Boundary(c.log, c.off) && Surplus(c, start) >= 0
    ensures var d := Run(c, events);
      Boundary(d.log, start) && Boundary(d.log, d.off) && Surplus(d, start) >= Surplus(c, start)
    ensures !Harmless(c, events) ==> Surplus(Run(c, events), start) > 0
    ensures Balanced(c, start) && Harmless(c, events) ==> Balanced(Run(c, events), start)
    decreases |events|
  {
    hide Step, Surplus, Boundary, Balanced, LinesBefore;
    if events != [] {
      StepBalance(c, events[0], start);
      RunBalance(Step(c, events[0]), events[1..], start);
    }
  }

  lemma BalancedHasNoSurplus(c: Cursor, start: nat)
    requires Balanced(c, start)
    ensures Surplus(c, start) == 0
  {
    hide Delivered;
  }

  lemma UpToBoundaries(c: Cursor, start: nat)
    requires UpTo(c, start)
    ensures Boundary(c.log, start) && Boundary(c.log, c.off)
  {
  }

  /**
   Each line once and in order, exactly. Over any run at all, the lines in front of `start` and those
   handed out are together the lines in front of the cursor if and only if no short reading came while a line in front of the cursor
   was one to hand out; after such a reading some line has been handed out twice, for good.
   */
  lemma OnceExactly(c: Cursor, events: seq<Event>, start: nat)
    requires UpTo(c, start)
    ensures Balanced(Run(c, events), start) <==> Harmless(c, events)
    ensures UpTo(Run(c, events), start) <==> start <= Run(c, events).off && Harmless(c, events)
    ensures !Harmless(c, events) ==> Surplus(Run(c, events), start) > 0
  {
    hide Step, Run, Harmless, Surplus, Balanced, UpTo;
    UpToIsBalanced(c, start);
    BalancedHasNoSurplus(c, start);
    UpToBoundaries(c, start);
    RunBalance(c, events, start);
    UpToIsBalanced(Run(c, events), start);
    if Balanced(Run(c, events), start) {
      BalancedHasNoSurplus(Run(c, events), start);
    }
  }
}
