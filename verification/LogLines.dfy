/** Lines of an append-only log, the vocabulary of the cursors over logs. */
module LogLines {
  import opened Bytes

  const NEWLINE: Byte := 10

  type Text = seq<Byte>

  predicate EndsLine(s: Text) {
    s == [] || s[|s| - 1] == NEWLINE
  }

  // Everything up to and including the last newline.
  function CompletePart(s: Text): (r: Text)
    ensures r <= s && EndsLine(r)
    ensures r == [] <==> NEWLINE !in s
  {
    if s == [] || s[|s| - 1] == NEWLINE then s else CompletePart(s[..|s| - 1])
  }

  // No newline is left behind it.
  lemma {:induction false} CompletePartIsAll(s: Text)
    ensures NEWLINE !in s[|CompletePart(s)|..]
  {
    if s != [] && s[|s| - 1] != NEWLINE {
      CompletePartIsAll(s[..|s| - 1]);
      var n := |CompletePart(s)|;
      assert s[n..] == s[..|s| - 1][n..] + [s[|s| - 1]];
    }
  }

  // Length of the first line with its newline, or of everything if there is none.
  function FirstLength(s: Text): (n: nat)
    ensures n <= |s| && (s != [] ==> n > 0)
    ensures NEWLINE in s ==> n > 0 && s[n - 1] == NEWLINE && NEWLINE !in s[..n - 1]
  {
    if s == [] then 0 else if s[0] == NEWLINE then 1 else 1 + FirstLength(s[1..])
  }

  // What `strip` removes from a text and from bytes.
  const TEXT_SPACE: set<Byte> := {9, 10, 11, 12, 13, 28, 29, 30, 31, 32}
  const BYTE_SPACE: set<Byte> := {9, 10, 11, 12, 13, 32}

  predicate Blank(line: Text, space: set<Byte>) {
    forall i :: 0 <= i < |line| ==> line[i] in space
  }

  function StripLeft(s: Text, space: set<Byte>): Text {
    if s != [] && s[0] in space then StripLeft(s[1..], space) else s
  }

  function StripRight(s: Text, space: set<Byte>): Text {
    if s != [] && s[|s| - 1] in space then StripRight(s[..|s| - 1], space) else s
  }

  function Strip(s: Text, space: set<Byte>): Text {
    StripRight(StripLeft(s, space), space)
  }

  function UnlessBlank(line: Text, space: set<Byte>): seq<Text> {
    if Blank(line, space) then [] else [line]
  }

  // The lines that are not blank, in order, each with its newline.
  function Delivered(s: Text, space: set<Byte>): seq<Text>
    decreases |s|
  {
    if s == [] then [] else UnlessBlank(s[..FirstLength(s)], space) + Delivered(s[FirstLength(s)..], space)
  }

  lemma {:induction false} FirstLengthAppend(a: Text, b: Text)
    requires NEWLINE in a
    ensures FirstLength(a + b) == FirstLength(a)
  {
    assert (a + b)[0] == a[0];
    if a[0] != NEWLINE {
      assert (a + b)[1..] == a[1..] + b;
      FirstLengthAppend(a[1..], b);
    }
  }

  lemma FirstLinePrefix(a: Text, b: Text)
    requires a <= b && NEWLINE in a
    ensures FirstLength(a) == FirstLength(b) && a[..FirstLength(a)] == b[..FirstLength(b)]
  {
    FirstLengthAppend(a, b[|a|..]);
    assert a + b[|a|..] == b;
  }

  // A line is delivered as it is, with its newline, unless it holds nothing but white space.
  lemma LineDelivered(line: Text, rest: Text, space: set<Byte>)
    requires NEWLINE !in line && NEWLINE in space
    ensures Delivered(line + [NEWLINE] + rest, space) ==
      (if forall b :: b in line ==> b in space then [] else [line + [NEWLINE]]) + Delivered(rest, space)
  {
    var whole := line + [NEWLINE];
    LineEnds(line, rest);
    assert (whole + rest)[..|whole|] == whole && (whole + rest)[|whole|..] == rest;
    if Blank(whole, space) {
      assert forall b :: b in line ==> b in whole;
    }
  }

  lemma {:induction false} LineEnds(a: Text, rest: Text)
    requires NEWLINE !in a
    ensures FirstLength(a + [NEWLINE] + rest) == |a| + 1
  {
    if a != [] {
      assert (a + [NEWLINE] + rest)[1..] == a[1..] + [NEWLINE] + rest;
      LineEnds(a[1..], rest);
    }
  }

  // Lines are delivered piece by piece as they would be at once.
  lemma {:induction false} DeliveredAppend(a: Text, b: Text, space: set<Byte>)
    requires EndsLine(a)
    ensures Delivered(a + b, space) == Delivered(a, space) + Delivered(b, space)
    decreases |a|
  {
    hide UnlessBlank, FirstLength;
    if a == [] {
      assert a + b == b;
    } else {
      var n := FirstLength(a);
      FirstLengthAppend(a, b);
      assert (a + b)[..n] == a[..n];
      assert (a + b)[n..] == a[n..] + b;
      DeliveredAppend(a[n..], b, space);
    }
  }

  // A position in the log where a line starts.
  predicate Boundary(log: Text, off: nat) {
    off <= |log| && (off == 0 || log[off - 1] == NEWLINE)
  }

  // Between two line starts lie whole lines.
  lemma BetweenBoundaries(log: Text, a: nat, b: nat)
    requires Boundary(log, a) && Boundary(log, b) && a <= b
    ensures EndsLine(log[a..b])
  {
  }

  lemma NothingDelivered(space: set<Byte>)
    ensures Delivered([], space) == []
  {
  }

  lemma DeliveredStep(s: Text, space: set<Byte>)
    requires s != []
    ensures var line, rest := s[..FirstLength(s)], s[FirstLength(s)..];
      Delivered(s, space) == if Blank(line, space) then Delivered(rest, space) else [line] + Delivered(rest, space)
  {
    hide FirstLength, Blank;
  }

  // `[l for l in s.splitlines() if l.strip()]`
  method SplitLines(s: Text, space: set<Byte>) returns (lines: seq<Text>)
    ensures lines == Delivered(s, space)
  {
    hide FirstLength, Delivered, Blank;
    NothingDelivered(space);
    lines := [];
    var rest := s;
    while rest != []
      invariant lines + Delivered(rest, space) == Delivered(s, space)
      decreases |rest|
    {
      DeliveredStep(rest, space);
      var n := FirstLength(rest);
      if !Blank(rest[..n], space) {
        lines := lines + [rest[..n]];
      }
      rest := rest[n..];
    }
  }
}
