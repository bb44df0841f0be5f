/**
 The package index on disk (cockpit/server/pn_pkg.py, `cmd_update` and `_lookup`): one line of
 tab-separated fields per record, and a table of byte offsets in which the last line of a name wins.
 */
module PackageIndex {
  import opened Bytes
  import opened LogLines

  const TAB: Byte := 9

  // name, version, filename, size, depends, description
  type Fields = r: seq<Text> | |r| == 6 witness [[], [], [], [], [], []]

  // ----- Writing -----

  function JoinTabs(fields: seq<Text>): Text {
    if fields == [] then [] else if |fields| == 1 then fields[0] else fields[0] + [TAB] + JoinTabs(fields[1..])
  }

  function WriteRecord(r: Fields): Text {
    JoinTabs(r) + [NEWLINE]
  }

  function WriteIndex(rs: seq<Fields>): Text {
    if rs == [] then [] else WriteRecord(rs[0]) + WriteIndex(rs[1..])
  }

  // ----- Reading -----

  // The lines of a file as iterating over it yields them.
  function Lines(s: Text): seq<Text>
    decreases |s|
  {
    if s == [] then [] else [s[..FirstLength(s)]] + Lines(s[FirstLength(s)..])
  }

  // What comes before the first tab.
  function FirstField(line: Text): Text {
    if line == [] || line[0] == TAB then [] else [line[0]] + FirstField(line[1..])
  }

  function SplitTabs(s: Text): (r: seq<Text>)
    ensures r != []
  {
    if s == [] then [[]]
    else if s[0] == TAB then [[]] + SplitTabs(s[1..])
    else
      var r := SplitTabs(s[1..]);
      [[s[0]] + r[0]] + r[1..]
  }

  // `line.rstrip("\n")`
  function StripNewlines(s: Text): Text {
    if s != [] && s[|s| - 1] == NEWLINE then StripNewlines(s[..|s| - 1]) else s
  }

  // Missing fields are empty, and what follows the sixth is dropped.
  function ParseRecord(line: Text): Fields {
    var parts := SplitTabs(StripNewlines(line));
    (parts + [[], [], [], [], [], []])[..6]
  }

  // The offset table of the lines from position pos on; a later line of the same name wins.
  function Offsets(lines: seq<Text>, pos: nat): map<Text, nat> {
    if lines == [] then map[] else map[FirstField(lines[0]) := pos] + Offsets(lines[1..], pos + |lines[0]|)
  }

  lemma LaterWins(m: map<Text, nat>, k: Text, v: nat, more: map<Text, nat>)
    ensures m[k := v] + more == m + (map[k := v] + more)
  {
  }

  // The loop of `cmd_update` that fills the table.
  method BuildOffsets(file: Text) returns (offs: map<Text, nat>)
    ensures offs == Offsets(Lines(file), 0)
  {
    hide Lines, FirstField;
    offs := map[];
    var pos: nat := 0;
    var lines := Lines(file);
    for i := 0 to |lines|
      invariant offs + Offsets(lines[i..], pos) == Offsets(lines, 0)
    {
      assert lines[i..][1..] == lines[i + 1..];
      LaterWins(offs, FirstField(lines[i]), pos, Offsets(lines[i + 1..], pos + |lines[i]|));
      offs := offs[FirstField(lines[i]) := pos];
      pos := pos + |lines[i]|;
    }
  }

  // `_lookup`: by name, or by the package that provides the name.
  function Lookup(file: Text, offs: map<Text, nat>, virtuals: map<Text, Text>, name: Text): Option<Fields>
    requires forall n :: n in offs ==> offs[n] <= |file|
  {
    if name in offs then Some(ReadAt(file, offs[name]))
    else if name in virtuals && virtuals[name] in offs then Some(ReadAt(file, offs[virtuals[name]]))
    else None
  }

  // `seek` and `readline`
  function ReadAt(file: Text, off: nat): Fields
    requires off <= |file|
  {
    ParseRecord(file[off..][..FirstLength(file[off..])])
  }

  // ----- Reading what was written -----

  predicate Clean(f: Text) {
    TAB !in f && NEWLINE !in f
  }

  predicate AllClean(r: seq<Text>) {
    forall i :: 0 <= i < |r| ==> Clean(r[i])
  }

  lemma {:induction false} JoinHasNoNewline(r: seq<Text>)
    requires AllClean(r)
    ensures NEWLINE !in JoinTabs(r)
  {
    if |r| > 1 {
      JoinHasNoNewline(r[1..]);
    }
  }

  lemma {:induction false} SplitField(f: Text, rest: Text)
    requires Clean(f)
    ensures SplitTabs(f) == [f]
    ensures SplitTabs(f + [TAB] + rest) == [f] + SplitTabs(rest)
  {
    if f == [] {
      assert (f + [TAB] + rest)[1..] == rest;
    } else {
      assert (f + [TAB] + rest)[1..] == f[1..] + [TAB] + rest;
      SplitField(f[1..], rest);
      assert [f[0]] + f[1..] == f;
    }
  }

  lemma {:induction false} SplitJoined(r: seq<Text>)
    requires AllClean(r) && r != []
    ensures SplitTabs(JoinTabs(r)) == r
  {
    if |r| == 1 {
      SplitField(r[0], []);
    } else {
      SplitField(r[0], JoinTabs(r[1..]));
      SplitJoined(r[1..]);
    }
  }

  lemma {:induction false} FirstOf(f: Text, rest: Text)
    requires TAB !in f
    ensures FirstField(f + [TAB] + rest) == f
  {
    if f != [] {
      assert (f + [TAB] + rest)[1..] == f[1..] + [TAB] + rest;
      FirstOf(f[1..], rest);
    }
  }

  lemma RecordRoundTrip(r: Fields)
    requires AllClean(r)
    ensures ParseRecord(WriteRecord(r)) == r && FirstField(WriteRecord(r)) == r[0]
  {
    var s := JoinTabs(r);
    JoinHasNoNewline(r);
    assert WriteRecord(r)[..|s|] == s;
    assert StripNewlines(WriteRecord(r)) == s;
    SplitJoined(r);
    assert WriteRecord(r) == r[0] + [TAB] + (JoinTabs(r[1..]) + [NEWLINE]);
    FirstOf(r[0], JoinTabs(r[1..]) + [NEWLINE]);
  }

  // A line with fewer fields leaves the others empty; of one with more, the first six count.
  lemma ParseExactly(parts: seq<Text>, i: nat)
    requires AllClean(parts) && parts != [] && i < 6
    ensures ParseRecord(JoinTabs(parts) + [NEWLINE])[i] == if i < |parts| then parts[i] else []
  {
    JoinHasNoNewline(parts);
    LineStripped(JoinTabs(parts));
    SplitJoined(parts);
    hide JoinTabs, SplitTabs, StripNewlines, AllClean;
    Padded(parts, i);
  }

  lemma Padded(parts: seq<Text>, i: nat)
    requires i < 6
    ensures (parts + [[], [], [], [], [], []])[..6][i] == if i < |parts| then parts[i] else []
  {
    var whole := parts + [[], [], [], [], [], []];
    assert whole[..6][i] == whole[i];
  }

  lemma LineStripped(s: Text)
    requires NEWLINE !in s
    ensures StripNewlines(s + [NEWLINE]) == s
  {
    assert (s + [NEWLINE])[..|s|] == s;
  }

  // The record that the last line of a name holds.
  function LastNamed(rs: seq<Fields>, name: Text): Option<Fields> {
    if rs == [] then None
    else
      var later := LastNamed(rs[1..], name);
      if later.Some? then later else if rs[0][0] == name then Some(rs[0]) else None
  }

  lemma FirstLineOf(r: Fields, rest: Text)
    requires AllClean(r)
    ensures FirstLength(WriteRecord(r) + rest) == |WriteRecord(r)|
    ensures Lines(WriteRecord(r) + rest) == [WriteRecord(r)] + Lines(rest)
  {
    JoinHasNoNewline(r);
    LineEnds(JoinTabs(r), rest);
    var s := WriteRecord(r) + rest;
    assert s[..|WriteRecord(r)|] == WriteRecord(r) && s[|WriteRecord(r)|..] == rest;
  }

  lemma ReadHere(before: Text, r: Fields, rest: Text)
    requires AllClean(r)
    ensures ReadAt(before + (WriteRecord(r) + rest), |before|) == r
  {
    hide ParseRecord, WriteRecord;
    var line := WriteRecord(r);
    FirstLineOf(r, rest);
    RecordRoundTrip(r);
    assert (before + (line + rest))[|before|..] == line + rest;
    assert (line + rest)[..|line|] == line;
  }

  lemma FirstOffset(r: Fields, rest: Text, pos: nat)
    requires AllClean(r)
    ensures Offsets(Lines(WriteRecord(r) + rest), pos) == map[r[0] := pos] + Offsets(Lines(rest), pos + |WriteRecord(r)|)
  {
    hide ParseRecord, WriteRecord, FirstField;
    FirstLineOf(r, rest);
    RecordRoundTrip(r);
    assert ([WriteRecord(r)] + Lines(rest))[1..] == Lines(rest);
  }

  lemma NoLines(pos: nat)
    ensures Lines([]) == [] && Offsets([], pos) == map[]
  {
  }

  lemma {:induction false} OffsetsPointAtLast(before: Text, rs: seq<Fields>, name: Text)
    requires forall i :: 0 <= i < |rs| ==> AllClean(rs[i])
    ensures var file, offs := before + WriteIndex(rs), Offsets(Lines(WriteIndex(rs)), |before|);
      (name in offs <==> LastNamed(rs, name).Some?) &&
      (name in offs ==> offs[name] <= |file| && ReadAt(file, offs[name]) == LastNamed(rs, name).value)
    decreases |rs|
  {
    hide ReadAt, WriteRecord, Lines, AllClean, Offsets;
    NoLines(|before|);
    if rs != [] {
      var line, rest := WriteRecord(rs[0]), WriteIndex(rs[1..]);
      FirstOffset(rs[0], rest, |before|);
      ReadHere(before, rs[0], rest);
      OffsetsPointAtLast(before + line, rs[1..], name);
      assert before + line + rest == before + (line + rest);
    }
  }

  /**
   What `cmd_update` writes, `_lookup` reads back: the fields of the last record of the name, or of
   the package that provides it, or nothing.
   */
  lemma LookupReadsLast(rs: seq<Fields>, virtuals: map<Text, Text>, name: Text)
    requires forall i :: 0 <= i < |rs| ==> AllClean(rs[i])
    ensures var file := WriteIndex(rs);
      var offs := Offsets(Lines(file), 0);
      (forall n :: n in offs ==> offs[n] <= |file|) &&
      Lookup(file, offs, virtuals, name) ==
        if LastNamed(rs, name).Some? then LastNamed(rs, name)
        else if name in virtuals then LastNamed(rs, virtuals[name])
        else None
  {
    var file := WriteIndex(rs);
    assert [] + file == file;
    forall n
      ensures var offs := Offsets(Lines(file), 0);
        (n in offs <==> LastNamed(rs, n).Some?) &&
        (n in offs ==> offs[n] <= |file| && ReadAt(file, offs[n]) == LastNamed(rs, n).value)
    {
      OffsetsPointAtLast([], rs, n);
    }
  }
}
