/**
 The scan of the event files (cockpit/server/pn_hpc_safeguard.py, `_scan_events`): one offset per
 path, files seen before the first scan taken as read, at most a mebibyte of a file per scan.
 A file whose size or content cannot be read at this scan is an input.
 */
module EventScan {
  import opened Bytes
  import opened LogLines

  type Path = string

  type Offsets = map<Path, nat>

  const SCAN_MAX_BYTES: nat := 1024 * 1024

  datatype Disk = Disk(files: map<Path, Text>, unsized: set<Path>, unread: set<Path>)

  datatype Event = Event(source: Path, line: Text)

  datatype Found = Found(offsets: Offsets, events: seq<Event>)

  function Window(content: Text, off: nat): Text
    requires off <= |content|
  {
    if off + SCAN_MAX_BYTES < |content| then content[off..off + SCAN_MAX_BYTES] else content[off..]
  }

  // At most a mebibyte is looked at.
  lemma WindowExactly(content: Text, off: nat)
    requires off <= |content|
    ensures Window(content, off) <= content[off..]
    ensures |Window(content, off)| == if |content| - off < 1_048_576 then |content| - off else 1_048_576
  {
  }

  // `data[:data.rfind(b"\n") + 1]`
  function Chunk(content: Text, off: nat): Text
    requires off <= |content|
  {
    CompletePart(Window(content, off))
  }

  function OffsetOf(offsets: Offsets, p: Path): nat {
    if p in offsets then offsets[p] else 0
  }

  function Tagged(p: Path, lines: seq<Text>): seq<Event> {
    if lines == [] then [] else Tagged(p, lines[..|lines| - 1]) + [Event(p, lines[|lines| - 1])]
  }

  function ScanPath(d: Disk, baselining: bool, f: Found, p: Path): Found {
    if p !in d.files || p in d.unsized then f
    else if baselining && p !in f.offsets then f.(offsets := f.offsets[p := |d.files[p]|])
    else
      var size := |d.files[p]|;
      var off := if size < OffsetOf(f.offsets, p) then 0 else OffsetOf(f.offsets, p);
      if size <= off then f.(offsets := f.offsets[p := off])
      else if p in d.unread || Chunk(d.files[p], off) == [] then f
      else
        var chunk := Chunk(d.files[p], off);
        Found(f.offsets[p := off + |chunk|], f.events + Tagged(p, Delivered(chunk, BYTE_SPACE)))
  }

  function ScanPaths(d: Disk, baselining: bool, offsets: Offsets, paths: seq<Path>): Found {
    if paths == [] then Found(offsets, [])
    else ScanPath(d, baselining, ScanPaths(d, baselining, offsets, paths[..|paths| - 1]), paths[|paths| - 1])
  }

  // Paths that are neither listed nor on disk are forgotten.
  function Remembered(offsets: Offsets, paths: seq<Path>, d: Disk): Offsets {
    map p | p in offsets && (p in paths || p in d.files) :: offsets[p]
  }

  function Scanned(d: Disk, baselined: bool, offsets: Offsets, paths: seq<Path>): Found {
    var f := ScanPaths(d, !baselined, offsets, paths);
    f.(offsets := Remembered(f.offsets, paths, d))
  }

  class EventScanner {
    var offsets: Offsets
    var baselined: bool

    constructor (offsets: Offsets, baselined: bool)
      ensures this.offsets == offsets && this.baselined == baselined
    {
      this.offsets, this.baselined := offsets, baselined;
    }

    // One round of the loop over the paths.
    static method ReadPath(d: Disk, baselining: bool, f: Found, p: Path) returns (g: Found, changed: bool)
      ensures g == ScanPath(d, baselining, f, p)
      ensures !changed ==> g.offsets == f.offsets
    {
      hide Chunk, Delivered;
      if p !in d.files || p in d.unsized {
        return f, false;
      }
      var size := |d.files[p]|;
      if baselining && p !in f.offsets {
        return f.(offsets := f.offsets[p := size]), true;
      }
      var off := OffsetOf(f.offsets, p);
      if size < off {
        off := 0;
      }
      if size <= off {
        if p !in f.offsets || f.offsets[p] != off {
          return f.(offsets := f.offsets[p := off]), true;
        }
        return f, false;
      }
      if p in d.unread {
        return f, false;
      }
      var chunk := Chunk(d.files[p], off);
      if chunk == [] {
        return f, false;
      }
      var lines := SplitLines(chunk, BYTE_SPACE);
      var events := f.events;
      var i := 0;
      while i < |lines|
        invariant 0 <= i <= |lines|
        invariant events == f.events + Tagged(p, lines[..i])
      {
        events := events + [Event(p, lines[i])];
        assert lines[..i + 1][..i] == lines[..i];
        i := i + 1;
      }
      assert lines[..|lines|] == lines;
      return Found(f.offsets[p := off + |chunk|], events), true;
    }

    // `for p in list(offsets): ... offsets.pop(p)`
    static method Forget(offsets: Offsets, paths: seq<Path>, d: Disk) returns (kept: Offsets, changed: bool)
      ensures kept == Remembered(offsets, paths, d)
      ensures !changed ==> kept == offsets
    {
      kept, changed := offsets, false;
      var keys := offsets.Keys;
      while keys != {}
        invariant keys <= offsets.Keys
        invariant kept == map p | p in offsets && (p in keys || p in paths || p in d.files) :: offsets[p]
        invariant !changed ==> kept == offsets
        decreases keys
      {
        var p :| p in keys;
        keys := keys - {p};
        if p !in paths && p !in d.files {
          kept, changed := kept - {p}, true;
        }
      }
    }

    // The offsets are written back only after a change, and nothing is lost by that.
    method ScanEvents(d: Disk, paths: seq<Path>) returns (events: seq<Event>)
      modifies this
      ensures baselined
      ensures Found(offsets, events) == Scanned(d, old(baselined), old(offsets), paths)
    {
      hide ScanPath, Remembered;
      var f := Found(offsets, []);
      var first := !baselined;
      var changed := false;
      var i := 0;
      while i < |paths|
        invariant 0 <= i <= |paths|
        invariant unchanged(this)
        invariant f == ScanPaths(d, first, offsets, paths[..i])
        invariant !changed ==> f.offsets == offsets
      {
        assert paths[..i + 1][..i] == paths[..i];
        var g, moved := ReadPath(d, first, f, paths[i]);
        f, changed := g, changed || moved;
        i := i + 1;
      }
      assert paths[..|paths|] == paths;
      var kept, dropped := Forget(f.offsets, paths, d);
      if changed || dropped || first {
        offsets, baselined := kept, true;
      }
      events := f.events;
    }
  }

  /* What a scan does to one path */

  function LineOf(e: Event, p: Path): seq<Text> {
    if e.source == p then [e.line] else []
  }

  function LinesOf(events: seq<Event>, p: Path): seq<Text> {
    if events == [] then [] else LinesOf(events[..|events| - 1], p) + LineOf(events[|events| - 1], p)
  }

  lemma {:induction false} LinesOfAppend(a: seq<Event>, b: seq<Event>, p: Path)
    ensures LinesOf(a + b, p) == LinesOf(a, p) + LinesOf(b, p)
  {
    if b == [] {
      assert a + b == a;
    } else {
      assert (a + b)[..|a + b| - 1] == a + b[..|b| - 1];
      LinesOfAppend(a, b[..|b| - 1], p);
    }
  }

  lemma {:induction false} LinesOfTagged(q: Path, lines: seq<Text>, p: Path)
    ensures LinesOf(Tagged(q, lines), p) == if p == q then lines else []
  {
    if lines != [] {
      LinesOfTagged(q, lines[..|lines| - 1], p);
    }
  }

  // The same offset and the same lines, as far as one path goes.
  ghost predicate Same(f: Found, g: Found, p: Path) {
    (p in f.offsets <==> p in g.offsets)
    && (p in f.offsets ==> f.offsets[p] == g.offsets[p])
    && LinesOf(f.events, p) == LinesOf(g.events, p)
  }

  // What is found in one path is added to the events under its name.
  lemma EventsAdded(d: Disk, baselining: bool, f: Found, q: Path) returns (lines: seq<Text>)
    ensures ScanPath(d, baselining, f, q).events == f.events + Tagged(q, lines)
  {
    hide Chunk, Delivered;
    lines := [];
    if q in d.files {
      var off := if |d.files[q]| < OffsetOf(f.offsets, q) then 0 else OffsetOf(f.offsets, q);
      if ScanPath(d, baselining, f, q).events != f.events {
        lines := Delivered(Chunk(d.files[q], off), BYTE_SPACE);
      }
    }
  }

  lemma OtherOffset(d: Disk, baselining: bool, f: Found, q: Path, p: Path)
    requires p != q
    ensures p in ScanPath(d, baselining, f, q).offsets <==> p in f.offsets
    ensures p in f.offsets ==> ScanPath(d, baselining, f, q).offsets[p] == f.offsets[p]
  {
    hide Chunk, Delivered, Tagged;
  }

  lemma SamePath(d: Disk, baselining: bool, f: Found, g: Found, p: Path)
    requires Same(f, g, p)
    ensures Same(ScanPath(d, baselining, f, p), ScanPath(d, baselining, g, p), p)
  {
    hide Chunk, Delivered, Tagged, LinesOf;
    if p in d.files {
      var off := if |d.files[p]| < OffsetOf(f.offsets, p) then 0 else OffsetOf(f.offsets, p);
      var lines := Delivered(Chunk(d.files[p], off), BYTE_SPACE);
      LinesOfAppend(f.events, Tagged(p, lines), p);
      LinesOfAppend(g.events, Tagged(p, lines), p);
    }
  }

  // Paths do not disturb each other: each is treated as if it were scanned alone.
  lemma {:induction false} EachPathAlone(d: Disk, baselining: bool, offsets: Offsets, paths: seq<Path>, p: Path)
    requires Distinct(paths)
    ensures p !in paths ==> Same(ScanPaths(d, baselining, offsets, paths), Found(offsets, []), p)
    ensures p in paths ==>
      Same(ScanPaths(d, baselining, offsets, paths), ScanPath(d, baselining, Found(offsets, []), p), p)
  {
    hide ScanPath;
    if paths != [] {
      var front, q := paths[..|paths| - 1], paths[|paths| - 1];
      EachPathAlone(d, baselining, offsets, front, p);
      var f := ScanPaths(d, baselining, offsets, front);
      if p == q {
        SamePath(d, baselining, f, Found(offsets, []), p);
      } else {
        OtherOffset(d, baselining, f, q, p);
        var lines := EventsAdded(d, baselining, f, q);
        LinesOfAppend(f.events, Tagged(q, lines), p);
        LinesOfTagged(q, lines, p);
      }
    }
  }

  /* Whole runs */

  datatype Happening =
    | Grow(path: Path, bytes: Text)
    | Remove(path: Path)
    | Scan(paths: seq<Path>, unsized: set<Path>, unread: set<Path>)

  datatype State = State(files: map<Path, Text>, offsets: Offsets, baselined: bool, events: seq<Event>)

  function Content(s: State, p: Path): Text {
    if p in s.files then s.files[p] else []
  }

  function Step(s: State, h: Happening): State {
    match h
    case Grow(p, bytes) => s.(files := s.files[p := Content(s, p) + bytes])
    case Remove(p) => s.(files := s.files - {p})
    case Scan(paths, unsized, unread) =>
      var f := Scanned(Disk(s.files, unsized, unread), s.baselined, s.offsets, paths);
      State(s.files, f.offsets, true, s.events + f.events)
  }

  function Run(s: State, hs: seq<Happening>): State
    decreases |hs|
  {
    if hs == [] then s else Run(Step(s, hs[0]), hs[1..])
  }

  // Everything of a file between where reading began and its offset has been found, in order, once.
  ghost predicate UpTo(s: State, p: Path, start: nat) {
    start <= OffsetOf(s.offsets, p) <= |Content(s, p)|
    && EndsLine(Content(s, p)[start..OffsetOf(s.offsets, p)])
    && LinesOf(s.events, p) == Delivered(Content(s, p)[start..OffsetOf(s.offsets, p)], BYTE_SPACE)
  }

  // A scan may be of any paths, as long as each is listed once, and files may come, grow and go.
  predicate Stays(h: Happening, p: Path) {
    (h.Remove? ==> h.path != p) && (h.Scan? ==> Distinct(h.paths))
  }

  lemma SliceJoin(s: Text, a: nat, b: nat, c: nat)
    requires a <= b <= c <= |s|
    ensures s[a..b] + s[b..c] == s[a..c]
  {
  }

  // What one scan takes of a file that was not cut short.
  lemma ChunkFollows(content: Text, start: nat, off: nat)
    requires start <= off <= |content| && EndsLine(content[start..off])
    ensures var next := off + |Chunk(content, off)|;
      next <= |content| && Chunk(content, off) == content[off..next]
      && EndsLine(content[start..next])
      && Delivered(content[start..next], BYTE_SPACE)
        == Delivered(content[start..off], BYTE_SPACE) + Delivered(Chunk(content, off), BYTE_SPACE)
  {
    hide Delivered, CompletePart;
    var chunk := Chunk(content, off);
    var next := off + |chunk|;
    assert chunk <= content[off..];
    hide Chunk, Window;
    assert chunk == content[off..next];
    SliceJoin(content, start, off, next);
    DeliveredAppend(content[start..off], chunk, BYTE_SPACE);
  }

  lemma NothingFound(p: Path)
    ensures LinesOf([], p) == []
  {
  }

  lemma AloneIs(d: Disk, s: State, p: Path)
    requires d.files == s.files && OffsetOf(s.offsets, p) <= |Content(s, p)|
    ensures var f := ScanPath(d, false, Found(s.offsets, []), p);
      var off, chunk := OffsetOf(s.offsets, p), Chunk(Content(s, p), OffsetOf(s.offsets, p));
      (OffsetOf(f.offsets, p) == off && f.events == [])
      || (OffsetOf(f.offsets, p) == off + |chunk| && f.events == Tagged(p, Delivered(chunk, BYTE_SPACE)))
  {
    hide Delivered, Chunk, Tagged;
  }

  lemma AloneKeeps(d: Disk, s: State, p: Path, start: nat)
    requires d.files == s.files && UpTo(s, p, start)
    ensures var f := ScanPath(d, false, Found(s.offsets, []), p);
      var next := OffsetOf(f.offsets, p);
      start <= next <= |Content(s, p)| && EndsLine(Content(s, p)[start..next])
      && LinesOf(s.events, p) + LinesOf(f.events, p) == Delivered(Content(s, p)[start..next], BYTE_SPACE)
  {
    hide Delivered, Chunk, LinesOf, Tagged, ScanPath;
    var off := OffsetOf(s.offsets, p);
    AloneIs(d, s, p);
    NothingFound(p);
    var lines := Delivered(Chunk(Content(s, p), off), BYTE_SPACE);
    ChunkFollows(Content(s, p), start, off);
    LinesOfTagged(p, lines, p);
  }

  lemma ScanKeeps(s: State, h: Happening, p: Path, start: nat)
    requires h.Scan? && Distinct(h.paths)
    requires s.baselined && UpTo(s, p, start)
    ensures UpTo(Step(s, h), p, start)
  {
    hide ScanPath, ScanPaths, Delivered, Chunk, LinesOf, Tagged, Distinct;
    var d := Disk(s.files, h.unsized, h.unread);
    var f := ScanPaths(d, false, s.offsets, h.paths);
    EachPathAlone(d, false, s.offsets, h.paths, p);
    LinesOfAppend(s.events, f.events, p);
    AloneKeeps(d, s, p, start);
    NothingFound(p);
    assert p !in s.files ==> Content(s, p) == [];
  }

  lemma StepKeeps(s: State, h: Happening, p: Path, start: nat)
    requires s.baselined && UpTo(s, p, start) && Stays(h, p)
    ensures Step(s, h).baselined && UpTo(Step(s, h), p, start)
  {
    hide Delivered, Distinct, LinesOf, Scanned;
    if h.Scan? {
      ScanKeeps(s, h, p, start);
    } else if h.Grow? && h.path == p {
      assert Content(Step(s, h), p)[start..OffsetOf(s.offsets, p)] == Content(s, p)[start..OffsetOf(s.offsets, p)];
    }
  }

  // However the files grow between scans, whatever cannot be read in between, and wherever the
  // window cuts a line, each line of a file that is not blank is found once and in order.
  lemma {:induction false} ExactlyOnce(s: State, hs: seq<Happening>, p: Path, start: nat)
    requires s.baselined && UpTo(s, p, start)
    requires forall i :: 0 <= i < |hs| ==> Stays(hs[i], p)
    ensures UpTo(Run(s, hs), p, start)
    decreases |hs|
  {
    hide UpTo, Step, Stays;
    if hs != [] {
      StepKeeps(s, hs[0], p, start);
      ExactlyOnce(Step(s, hs[0]), hs[1..], p, start);
    }
  }

  // Where reading of a path begins when this is the first scan.
  function FirstOffset(s: State, h: Happening, p: Path): nat
    requires h.Scan?
  {
    if p in h.paths && p in s.files && p !in h.unsized then |s.files[p]| else 0
  }

  // The first scan finds nothing; it passes over exactly the files it can size, and any other
  // file will be read from its start.
  lemma FirstScan(s: State, h: Happening, p: Path)
    requires h.Scan? && Distinct(h.paths)
    requires !s.baselined && p !in s.offsets && LinesOf(s.events, p) == []
    ensures Step(s, h).baselined && Step(s, h).files == s.files
    ensures OffsetOf(Step(s, h).offsets, p) == FirstOffset(s, h, p)
    ensures LinesOf(Step(s, h).events, p) == []
  {
    hide ScanPaths, Chunk, LinesOf, Tagged, Distinct;
    var d := Disk(s.files, h.unsized, h.unread);
    var f := ScanPaths(d, true, s.offsets, h.paths);
    EachPathAlone(d, true, s.offsets, h.paths, p);
    LinesOfAppend(s.events, f.events, p);
    NothingFound(p);
  }

  // Where nothing has been found of a file yet, finding starts at its offset.
  lemma StartsAtOffset(s: State, p: Path)
    requires OffsetOf(s.offsets, p) <= |Content(s, p)| && LinesOf(s.events, p) == []
    ensures UpTo(s, p, OffsetOf(s.offsets, p))
  {
  }

  /**
   From the first scan on: what a file held when it was first sized is passed over, and each later
   line that is not blank is found once and in order; of any other file, each line is.
   */
  lemma OnceFromFirstScan(s: State, h: Happening, hs: seq<Happening>, p: Path)
    requires h.Scan? && Distinct(h.paths)
    requires !s.baselined && p !in s.offsets && LinesOf(s.events, p) == []
    requires forall i :: 0 <= i < |hs| ==> Stays(hs[i], p)
    ensures LinesOf(Step(s, h).events, p) == []
    ensures UpTo(Run(Step(s, h), hs), p, FirstOffset(s, h, p))
  {
    hide Step, Run, UpTo, LinesOf, Distinct;
    FirstScan(s, h, p);
    StartsAtOffset(Step(s, h), p);
    ExactlyOnce(Step(s, h), hs, p, FirstOffset(s, h, p));
  }

  // A file that was gone at a scan is read from its start when it comes back.
  lemma GoneIsForgotten(s: State, h: Happening, p: Path)
    requires h.Scan? && p !in s.files && p !in h.paths
    ensures p !in Step(s, h).offsets
  {
  }

  // The offset moves exactly when the file can be read and its next line ends within the window.
  lemma AdvancesExactly(s: State, h: Happening, p: Path)
    requires h.Scan? && Distinct(h.paths) && s.baselined
    requires OffsetOf(s.offsets, p) <= |Content(s, p)|
    ensures OffsetOf(Step(s, h).offsets, p) > OffsetOf(s.offsets, p) <==>
      (p in h.paths && p !in h.unsized && p !in h.unread
       && NEWLINE in Window(Content(s, p), OffsetOf(s.offsets, p)))
  {
    hide ScanPaths, Delivered, LinesOf, Tagged, Distinct, CompletePart;
    var d := Disk(s.files, h.unsized, h.unread);
    EachPathAlone(d, false, s.offsets, h.paths, p);
  }
}
