/**
 Event files that are cut short, removed or written anew (cockpit/server/pn_hpc_safeguard.py,
 `_scan_events`). An offset that lies behind the end of the file is taken for 0; one that the new file
 has outgrown by the next scan is not, and what stands in front of it is never found.
 */
module EventRereads {
  import opened Bytes
  import opened LogLines
  import opened EventScan

  // Where the next scan would begin to read.
  function ReadingAt(s: State, p: Path): (k: nat)
    ensures k <= |Content(s, p)|
  {
    if OffsetOf(s.offsets, p) > |Content(s, p)| then 0 else OffsetOf(s.offsets, p)
  }

  function InFront(s: State, p: Path): Text {
    Content(s, p)[..ReadingAt(s, p)]
  }

  // The lines as they are parsed, without white space around them.
  function Stripped(lines: seq<Text>): (r: seq<Text>)
    ensures |r| == |lines|
  {
    if lines == [] then [] else [Strip(lines[0], BYTE_SPACE)] + Stripped(lines[1..])
  }

  // The offset belongs to an earlier content that was longer.
  predicate Stale(s: State, p: Path) {
    OffsetOf(s.offsets, p) > |Content(s, p)|
  }

  // Reading begins at the start, or behind white space.
  predicate Clean(s: State, p: Path) {
    Blank(InFront(s, p), BYTE_SPACE)
  }

  // No growth takes a file to an offset of an earlier content, unless behind white space.
  predicate Harmless(s: State, hs: seq<Happening>, p: Path)
    decreases |hs|
  {
    hs == []
    || ((hs[0].Grow? && Stale(s, p) ==> Clean(Step(s, hs[0]), p)) && Harmless(Step(s, hs[0]), hs[1..], p))
  }

  /* White space in front of lines */

  lemma {:induction false} StrippedAppend(a: seq<Text>, b: seq<Text>)
    ensures Stripped(a + b) == Stripped(a) + Stripped(b)
  {
    if a == [] {
      assert a + b == b;
    } else {
      assert (a + b)[1..] == a[1..] + b;
      StrippedAppend(a[1..], b);
    }
  }

  lemma FirstLengthOneMore(x: Byte, s: Text)
    ensures FirstLength([x] + s) == if x == NEWLINE || s == [] then 1 else FirstLength(s) + 1
  {
    assert ([x] + s)[1..] == s;
  }

  // A space more in front changes no line as it is parsed.
  lemma OneSpace(x: Byte, s: Text)
    requires x in BYTE_SPACE
    ensures Stripped(Delivered([x] + s, BYTE_SPACE)) == Stripped(Delivered(s, BYTE_SPACE))
  {
    hide Delivered, FirstLength, Stripped, Strip;
    var t := [x] + s;
    FirstLengthOneMore(x, s);
    DeliveredStep(t, BYTE_SPACE);
    if x == NEWLINE || s == [] {
      assert t[..1] == [x] && t[1..] == s;
    } else {
      hide Blank;
      var n := FirstLength(s);
      DeliveredStep(s, BYTE_SPACE);
      assert t[..n + 1] == [x] + s[..n] && t[n + 1..] == s[n..];
      LineOneSpace(x, s[..n]);
      LongerLine(s[..n], [x] + s[..n], Delivered(s[n..], BYTE_SPACE));
    }
  }

  lemma LongerLine(line: Text, longer: Text, rest: seq<Text>)
    requires Strip(longer, BYTE_SPACE) == Strip(line, BYTE_SPACE)
    ensures Stripped([longer] + rest) == Stripped([line] + rest)
  {
    hide Strip;
    assert ([longer] + rest)[1..] == rest && ([line] + rest)[1..] == rest;
  }

  lemma LineOneSpace(x: Byte, line: Text)
    requires x in BYTE_SPACE
    ensures Blank([x] + line, BYTE_SPACE) <==> Blank(line, BYTE_SPACE)
    ensures Strip([x] + line, BYTE_SPACE) == Strip(line, BYTE_SPACE)
  {
    assert ([x] + line)[1..] == line;
    assert forall i :: 0 <= i < |line| ==> line[i] == ([x] + line)[i + 1];
  }

  lemma {:induction false} BlankInFront(a: Text, b: Text)
    requires Blank(a, BYTE_SPACE)
    ensures Stripped(Delivered(a + b, BYTE_SPACE)) == Stripped(Delivered(b, BYTE_SPACE))
  {
    hide Delivered, Stripped;
    if a == [] {
      assert a + b == b;
    } else {
      assert a + b == [a[0]] + (a[1..] + b);
      OneSpace(a[0], a[1..] + b);
      BlankInFront(a[1..], b);
    }
  }

  /* What is not white space is never lost count of */

  function Ink(s: Text): nat {
    if s == [] then 0 else (if s[0] in BYTE_SPACE then 0 else 1) + Ink(s[1..])
  }

  function InkOf(lines: seq<Text>): nat {
    if lines == [] then 0 else Ink(lines[0]) + InkOf(lines[1..])
  }

  lemma {:induction false} InkAppend(a: Text, b: Text)
    ensures Ink(a + b) == Ink(a) + Ink(b)
  {
    if a == [] {
      assert a + b == b;
    } else {
      assert (a + b)[1..] == a[1..] + b;
      InkAppend(a[1..], b);
    }
  }

  lemma {:induction false} InkOfAppend(a: seq<Text>, b: seq<Text>)
    ensures InkOf(a + b) == InkOf(a) + InkOf(b)
  {
    if a == [] {
      assert a + b == b;
    } else {
      assert (a + b)[1..] == a[1..] + b;
      InkOfAppend(a[1..], b);
    }
  }

  lemma {:induction false} NoInk(s: Text)
    ensures Ink(s) == 0 <==> Blank(s, BYTE_SPACE)
  {
    if s != [] {
      NoInk(s[1..]);
      assert forall i :: 0 < i < |s| ==> s[i] == s[1..][i - 1];
    }
  }

  lemma {:induction false} InkDelivered(s: Text)
    ensures InkOf(Delivered(s, BYTE_SPACE)) == Ink(s)
    decreases |s|
  {
    if s == [] {
      NothingDelivered(BYTE_SPACE);
    } else {
      hide Delivered, Blank, Ink;
      var n := FirstLength(s);
      DeliveredStep(s, BYTE_SPACE);
      InkDelivered(s[n..]);
      InkAppend(s[..n], s[n..]);
      assert s[..n] + s[n..] == s;
      NoInk(s[..n]);
      assert ([s[..n]] + Delivered(s[n..], BYTE_SPACE))[1..] == Delivered(s[n..], BYTE_SPACE);
    }
  }

  lemma {:induction false} InkLeft(s: Text)
    ensures Ink(StripLeft(s, BYTE_SPACE)) == Ink(s)
  {
    if s != [] && s[0] in BYTE_SPACE {
      InkLeft(s[1..]);
    }
  }

  lemma {:induction false} InkRight(s: Text)
    ensures Ink(StripRight(s, BYTE_SPACE)) == Ink(s)
    decreases |s|
  {
    if s != [] && s[|s| - 1] in BYTE_SPACE {
      InkRight(s[..|s| - 1]);
      InkAppend(s[..|s| - 1], [s[|s| - 1]]);
      assert s[..|s| - 1] + [s[|s| - 1]] == s;
    }
  }

  lemma {:induction false} InkStripped(lines: seq<Text>)
    ensures InkOf(Stripped(lines)) == InkOf(lines)
  {
    if lines != [] {
      InkStripped(lines[1..]);
      InkLeft(lines[0]);
      InkRight(StripLeft(lines[0], BYTE_SPACE));
    }
  }

  /* One step */

  // What a scan does to a path: it leaves reading where it is and finds nothing, or takes a chunk.
  ghost predicate Takes(s: State, t: State, p: Path, lines: seq<Text>) {
    Content(t, p) == Content(s, p) && LinesOf(t.events, p) == LinesOf(s.events, p) + lines
    && ((lines == [] && OffsetOf(t.offsets, p) in {OffsetOf(s.offsets, p), ReadingAt(s, p)})
        || (OffsetOf(t.offsets, p) == ReadingAt(s, p) + |Chunk(Content(s, p), ReadingAt(s, p))|
            && lines == Delivered(Chunk(Content(s, p), ReadingAt(s, p)), BYTE_SPACE)))
  }

  lemma AloneTakes(d: Disk, s: State, p: Path) returns (lines: seq<Text>)
    requires d.files == s.files
    ensures var f := ScanPath(d, false, Found(s.offsets, []), p);
      LinesOf(f.events, p) == lines && Takes(s, State(s.files, f.offsets, true, s.events + f.events), p, lines)
  {
    hide Delivered, Chunk, Tagged, LinesOf;
    var f := ScanPath(d, false, Found(s.offsets, []), p);
    var chunk := Chunk(Content(s, p), ReadingAt(s, p));
    NothingFound(p);
    lines := if f.events == [] then [] else Delivered(chunk, BYTE_SPACE);
    LinesOfTagged(p, Delivered(chunk, BYTE_SPACE), p);
    assert [] + Tagged(p, Delivered(chunk, BYTE_SPACE)) == Tagged(p, Delivered(chunk, BYTE_SPACE));
    LinesOfAppend(s.events, f.events, p);
  }

  lemma ScanTakes(s: State, h: Happening, p: Path) returns (lines: seq<Text>)
    requires s.baselined && h.Scan? && Distinct(h.paths)
    ensures Takes(s, Step(s, h), p, lines)
  {
    hide ScanPath, ScanPaths, Delivered, Chunk, LinesOf, Tagged, Distinct;
    var d := Disk(s.files, h.unsized, h.unread);
    var f := ScanPaths(d, false, s.offsets, h.paths);
    EachPathAlone(d, false, s.offsets, h.paths, p);
    LinesOfAppend(s.events, f.events, p);
    NothingFound(p);
    if p in h.paths {
      lines := AloneTakes(d, s, p);
      LinesOfAppend(s.events, ScanPath(d, false, Found(s.offsets, []), p).events, p);
    } else {
      lines := [];
    }
  }

  // What has been found accounts for everything in front of the reading, as it is parsed.
  ghost predicate Accounts(s: State, p: Path, found: seq<Text>) {
    Stripped(found) == Stripped(Delivered(InFront(s, p), BYTE_SPACE))
    && (EndsLine(InFront(s, p)) || Clean(s, p))
  }

  // How much stands in front of the reading and was never found.
  function Missed(s: State, p: Path, found: seq<Text>): int {
    Ink(InFront(s, p)) - InkOf(found)
  }

  ghost predicate Tracks(s: State, p: Path, before: seq<Text>, found: seq<Text>) {
    s.baselined && LinesOf(s.events, p) == before + found && (Stale(s, p) ==> found == []) && Missed(s, p, found) >= 0
  }

  // White space in front holds no line.
  lemma CleanAccounts(s: State, p: Path)
    ensures Clean(s, p) ==> Accounts(s, p, [])
    ensures Clean(s, p) <==> Missed(s, p, []) == 0
    ensures Missed(s, p, []) >= 0
  {
    hide Delivered, Ink, Blank, InFront;
    NoInk(InFront(s, p));
    if Clean(s, p) {
      BlankInFront(InFront(s, p), []);
      NothingDelivered(BYTE_SPACE);
      assert InFront(s, p) + [] == InFront(s, p);
    }
  }

  lemma AccountsMissesNothing(s: State, p: Path, found: seq<Text>)
    requires Stripped(found) == Stripped(Delivered(InFront(s, p), BYTE_SPACE))
    ensures Missed(s, p, found) == 0
  {
    hide Delivered, Ink, InFront, Stripped;
    InkStripped(found);
    InkStripped(Delivered(InFront(s, p), BYTE_SPACE));
    InkDelivered(InFront(s, p));
  }

  // A chunk taken adds to what is found just what it adds in front of the reading.
  lemma ChunkAccounts(s: State, t: State, p: Path, found: seq<Text>, chunk: Text)
    requires InFront(t, p) == InFront(s, p) + chunk && EndsLine(chunk)
    ensures var more := found + Delivered(chunk, BYTE_SPACE);
      Missed(t, p, more) == Missed(s, p, found) && (Accounts(s, p, found) ==> Accounts(t, p, more))
  {
    hide Delivered, Ink, InFront, Blank, Stripped;
    var front := InFront(s, p);
    InkAppend(front, chunk);
    InkDelivered(chunk);
    InkOfAppend(found, Delivered(chunk, BYTE_SPACE));
    StrippedAppend(found, Delivered(chunk, BYTE_SPACE));
    if Accounts(s, p, found) {
      if EndsLine(front) {
        DeliveredAppend(front, chunk, BYTE_SPACE);
        StrippedAppend(Delivered(front, BYTE_SPACE), Delivered(chunk, BYTE_SPACE));
      } else {
        BlankInFront(front, chunk);
        BlankInFront(front, []);
        NothingDelivered(BYTE_SPACE);
        assert front + [] == front;
        assert Stripped([]) == [] by { NothingStripped(); }
        assert chunk == [] ==> front + chunk == front;
      }
    }
  }

  lemma NothingStripped()
    ensures Stripped([]) == []
  {
  }

  lemma ScanTracks(s: State, h: Happening, p: Path, before: seq<Text>, found: seq<Text>) returns (more: seq<Text>)
    requires Tracks(s, p, before, found) && h.Scan? && Distinct(h.paths)
    ensures Tracks(Step(s, h), p, before, more) && Missed(Step(s, h), p, more) == Missed(s, p, found)
    ensures Accounts(s, p, found) ==> Accounts(Step(s, h), p, more)
  {
    hide Step, Delivered, Stripped, Blank, Ink, LinesOf, Chunk;
    var t := Step(s, h);
    var lines := ScanTakes(s, h, p);
    ScanBaselines(s, h);
    more := found + lines;
    if OffsetOf(t.offsets, p) in {OffsetOf(s.offsets, p), ReadingAt(s, p)} && lines == [] {
      assert more == found;
    } else {
      var c, r := Content(s, p), ReadingAt(s, p);
      var chunk := Chunk(c, r);
      ChunkIsNext(c, r);
      assert c[..r + |chunk|] == c[..r] + chunk;
      ChunkAccounts(s, t, p, found, chunk);
    }
    assert before + found + lines == before + more;
  }

  lemma ChunkIsNext(content: Text, off: nat)
    requires off <= |content|
    ensures Chunk(content, off) <= content[off..] && EndsLine(Chunk(content, off))
  {
  }

  lemma ScanBaselines(s: State, h: Happening)
    requires h.Scan?
    ensures Step(s, h).baselined
  {
  }

  lemma GrowTracks(s: State, h: Happening, p: Path, before: seq<Text>, found: seq<Text>)
    requires Tracks(s, p, before, found) && !h.Scan? && Stays(h, p)
    ensures var t := Step(s, h);
      Tracks(t, p, before, found) && Missed(t, p, found) >= Missed(s, p, found)
      && (Accounts(s, p, found) && (h.Grow? && Stale(s, p) ==> Clean(t, p)) ==> Accounts(t, p, found))
      && (h.Grow? && Stale(s, p) && !Clean(t, p) ==> Missed(t, p, found) > 0)
  {
    hide Delivered, Stripped, Blank, Ink, LinesOf;
    var t := Step(s, h);
    if Stale(s, p) {
      assert InFront(s, p) == [];
      CleanAccounts(t, p);
      CleanAccounts(s, p);
      assert Clean(s, p) by { EmptyIsBlank(); }
      assert Missed(s, p, found) == 0;
      assert !h.Grow? ==> InFront(t, p) == [];
      assert !h.Grow? ==> Clean(t, p) by { EmptyIsBlank(); }
    } else {
      assert InFront(t, p) == InFront(s, p);
    }
  }

  lemma EmptyIsBlank()
    ensures Blank([], BYTE_SPACE)
  {
  }

  lemma {:induction false} RunTracks(s: State, hs: seq<Happening>, p: Path, before: seq<Text>, found: seq<Text>)
    returns (more: seq<Text>)
    requires Tracks(s, p, before, found)
    requires forall i :: 0 <= i < |hs| ==> Stays(hs[i], p)
    ensures Tracks(Run(s, hs), p, before, more) && Missed(Run(s, hs), p, more) >= Missed(s, p, found)
    ensures Accounts(s, p, found) && Harmless(s, hs, p) ==> Accounts(Run(s, hs), p, more)
    ensures !Harmless(s, hs, p) ==> Missed(Run(s, hs), p, more) > 0
    decreases |hs|
  {
    hide Tracks, Accounts, Missed, Step, Stale, Clean;
    if hs == [] {
      more := found;
    } else {
      var h, t := hs[0], Step(s, hs[0]);
      var next := found;
      if h.Scan? {
        next := ScanTracks(s, h, p, before, found);
      } else {
        GrowTracks(s, h, p, before, found);
      }
      TracksMisses(t, p, before, next);
      more := RunTracks(t, hs[1..], p, before, next);
    }
  }

  lemma TracksMisses(s: State, p: Path, before: seq<Text>, found: seq<Text>)
    requires Tracks(s, p, before, found)
    ensures Missed(s, p, found) >= 0
  {
  }

  // The lines found of a path since some earlier state.
  function FoundSince(s: State, t: State, p: Path): seq<Text>
    requires LinesOf(s.events, p) <= LinesOf(t.events, p)
  {
    LinesOf(t.events, p)[|LinesOf(s.events, p)|..]
  }

  /**
   Each line of whatever content a file has got, exactly. From any state on, and so from right after a
   file was cut, removed or written anew, the lines found are those in front of the reading, as they
   are parsed, if and only if reading begins at the start or behind white space, and no growth takes
   the file to the offset of an earlier, longer content unless behind white space.
   */
  lemma NothingSkippedExactly(s: State, hs: seq<Happening>, p: Path)
    requires s.baselined
    requires forall i :: 0 <= i < |hs| ==> Stays(hs[i], p)
    ensures LinesOf(s.events, p) <= LinesOf(Run(s, hs).events, p)
    ensures Stripped(FoundSince(s, Run(s, hs), p)) == Stripped(Delivered(InFront(Run(s, hs), p), BYTE_SPACE)) <==>
      Clean(s, p) && Harmless(s, hs, p)
  {
    hide Delivered, Stripped, LinesOf, InFront, Harmless, Run, Clean;
    var before, t := LinesOf(s.events, p), Run(s, hs);
    CleanAccounts(s, p);
    assert before + [] == before;
    var found := RunTracks(s, hs, p, before, []);
    assert (before + found)[|before|..] == found;
    if Stripped(found) == Stripped(Delivered(InFront(t, p), BYTE_SPACE)) {
      AccountsMissesNothing(t, p, found);
    }
  }
}
