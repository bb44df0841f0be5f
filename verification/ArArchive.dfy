/**
 The reader of `ar` archives (cockpit/server/pn_pkg.py, `_ar_members`), the container of a package:
 60 bytes of header per member, a decimal size among them, and data padded to an even length.
 */
module ArArchive {
  import opened Bytes
  import opened LogLines

  const HEADER: nat := 60

  // "!<arch>\n"
  const MAGIC: Text := [0x21, 0x3C, 0x61, 0x72, 0x63, 0x68, 0x3E, 0x0A]

  const SPACE: Byte := 32
  const SLASH: Byte := 47

  datatype Member = Member(name: Text, data: Text)

  datatype WrongMagic = WrongMagic

  // `s[i:j]` as Python reads it, indices from the end included.
  function Clamp(i: int, n: nat): (k: nat)
    ensures k <= n
  {
    if i < 0 then (if i + n < 0 then 0 else i + n) else if i > n then n else i
  }

  function Slice(s: Text, i: int, j: int): Text {
    if Clamp(i, |s|) <= Clamp(j, |s|) then s[Clamp(i, |s|)..Clamp(j, |s|)] else []
  }

  predicate IsDigit(b: Byte) {
    48 <= b <= 57
  }

  // Digits with single underscores between them, as `int` takes them.
  function ParseDigits(s: Text): Option<nat>
    decreases |s|
  {
    if s == [] || !IsDigit(s[|s| - 1]) then None
    else
      var digit: nat := s[|s| - 1] - 48;
      if |s| == 1 then Some(digit)
      else
        match ParseDigits(if s[|s| - 2] == 95 then s[..|s| - 2] else s[..|s| - 1])
        case None => None
        case Some(v) => Some(10 * v + digit)
  }

  // `int(field.decode("ascii").strip())`; bytes that are not ASCII are no digits either.
  function ParseSize(field: Text): Option<int> {
    Signed(Strip(field, TEXT_SPACE))
  }

  function Signed(s: Text): Option<int> {
    var negative := s != [] && s[0] == 45;
    match ParseDigits(if negative || (s != [] && s[0] == 43) then s[1..] else s)
    case None => None
    case Some(v) =>
      var n: int := v;
      Some(if negative then -n else n)
  }

  // The size that the header at a position names.
  function SizeAt(blob: Text, pos: int): Option<int> {
    ParseSize(Slice(Slice(blob, pos, pos + HEADER), 48, 58))
  }

  // The next member and the position behind it.
  function Next(blob: Text, pos: int): Option<(Member, int)> {
    if pos + HEADER > |blob| then None
    else
      var header := Slice(blob, pos, pos + HEADER);
      match SizeAt(blob, pos)
      case None => None
      case Some(size) =>
        Some((Member(StripRight(Strip(Slice(header, 0, 16), TEXT_SPACE), {SLASH}), Slice(blob, pos + HEADER, pos + HEADER + size)),
              pos + HEADER + size + size % 2))
  }

  // The generator: every call of `Next` is one round of its loop.
  class ArReader {
    const blob: Text
    var pos: int
    var failed: bool

    constructor (blob: Text)
      ensures this.blob == blob && pos == 8 && (failed <==> !(MAGIC <= blob))
    {
      this.blob, pos, failed := blob, 8, !(MAGIC <= blob);
    }

    method NextMember() returns (r: Result<Option<Member>, WrongMagic>)
      modifies this`pos
      ensures r.Err? <==> failed
      ensures failed || Next(blob, old(pos)).None? ==> (r.Ok? ==> r.value == None) && pos == old(pos)
      ensures !failed && Next(blob, old(pos)).Some? ==>
        r == Ok(Some(Next(blob, old(pos)).value.0)) && pos == Next(blob, old(pos)).value.1
    {
      if failed {
        return Err(WrongMagic);
      }
      if pos + HEADER > |blob| {
        return Ok(None);
      }
      var header := Slice(blob, pos, pos + HEADER);
      var size := ParseSize(Slice(header, 48, 58));
      if size.None? {
        return Ok(None);
      }
      var name := StripRight(Strip(Slice(header, 0, 16), TEXT_SPACE), {SLASH});
      var data := Slice(blob, pos + HEADER, pos + HEADER + size.value);
      pos := pos + HEADER + size.value + size.value % 2;
      return Ok(Some(Member(name, data)));
    }
  }

  // What the first n calls yield.
  function ReadUpTo(blob: Text, pos: int, n: nat): seq<Member>
    decreases n
  {
    if n == 0 then []
    else
      match Next(blob, pos)
      case None => []
      case Some(step) => [step.0] + ReadUpTo(blob, step.1, n - 1)
  }

  /* Writing */

  function Decimals(n: nat): (r: Text)
    ensures r != []
  {
    if n < 10 then [48 + n] else Decimals(n / 10) + [48 + n % 10]
  }

  function Pad(s: Text, n: nat): Text
    decreases n - |s|
  {
    if |s| >= n then s else Pad(s + [SPACE], n)
  }

  // Times, owner and mode, which the reader does not look at, and the two bytes that end a header.
  datatype Entry = Entry(name: Text, slash: bool, data: Text, middle: Text, end: Text) {
    predicate Fits() {
      name != [] && |name| <= (if slash then 15 else 16)
      && name[0] !in TEXT_SPACE && name[|name| - 1] !in TEXT_SPACE && name[|name| - 1] != SLASH
      && |Decimals(|data|)| <= 10 && |middle| == 32 && |end| == 2
    }
  }

  function WriteEntry(e: Entry): Text {
    Pad(e.name + (if e.slash then [SLASH] else []), 16) + e.middle + Pad(Decimals(|e.data|), 10) + e.end
    + e.data + (if |e.data| % 2 == 1 then [NEWLINE] else [])
  }

  function WriteEntries(es: seq<Entry>): Text {
    if es == [] then [] else WriteEntry(es[0]) + WriteEntries(es[1..])
  }

  /* Reading what was written */

  lemma {:induction false} PadStrips(s: Text, n: nat)
    ensures |s| <= n ==> |Pad(s, n)| == n
    ensures s != [] && s[0] !in TEXT_SPACE && s[|s| - 1] !in TEXT_SPACE ==> Strip(Pad(s, n), TEXT_SPACE) == s
    decreases n - |s|
  {
    assert s + [] == s;
    PadIs(s, n, []);
  }

  // Padding adds spaces behind, which stripping takes off again.
  lemma {:induction false} PadIs(s: Text, n: nat, done: Text)
    requires forall i :: 0 <= i < |done| ==> done[i] == SPACE
    ensures |s + done| <= n ==> |Pad(s + done, n)| == n
    ensures s != [] && s[0] !in TEXT_SPACE && s[|s| - 1] !in TEXT_SPACE ==> Strip(Pad(s + done, n), TEXT_SPACE) == s
    decreases n - |s + done|
  {
    if |s + done| >= n {
      if s != [] {
        assert (s + done)[0] == s[0];
        SpacesOff(s, done);
      }
    } else {
      assert s + done + [SPACE] == s + (done + [SPACE]);
      PadIs(s, n, done + [SPACE]);
    }
  }

  lemma {:induction false} SpacesOff(s: Text, done: Text)
    requires forall i :: 0 <= i < |done| ==> done[i] == SPACE
    ensures s != [] && s[|s| - 1] !in TEXT_SPACE ==> StripRight(s + done, TEXT_SPACE) == s
    decreases |done|
  {
    if done == [] {
      assert s + done == s;
    } else {
      assert (s + done)[..|s + done| - 1] == s + done[..|done| - 1];
      SpacesOff(s, done[..|done| - 1]);
    }
  }

  lemma {:induction false} DecimalsParse(n: nat)
    ensures ParseDigits(Decimals(n)) == Some(n)
    ensures forall i :: 0 <= i < |Decimals(n)| ==> IsDigit(Decimals(n)[i])
  {
    if n >= 10 {
      DecimalsParse(n / 10);
    }
  }

  lemma NotSpace(b: Byte)
    ensures IsDigit(b) || b == 45 ==> b !in TEXT_SPACE
    ensures IsDigit(b) ==> b != 45 && b != 43
  {
  }

  lemma SizeRoundTrip(n: nat)
    ensures ParseSize(Pad(Decimals(n), 10)) == Some(n)
  {
    hide Strip, Pad, Decimals, ParseDigits;
    DecimalsParse(n);
    hide IsDigit;
    var s := Decimals(n);
    NotSpace(s[0]);
    NotSpace(s[|s| - 1]);
    PadStrips(s, 10);
  }

  lemma NameRoundTrip(e: Entry)
    requires e.Fits()
    ensures var field := Pad(e.name + (if e.slash then [SLASH] else []), 16);
      |field| == 16 && StripRight(Strip(field, TEXT_SPACE), {SLASH}) == e.name
  {
    var s := e.name + (if e.slash then [SLASH] else []);
    PadStrips(s, 16);
    assert e.slash ==> s[..|s| - 1] == e.name;
  }

  // The parts of a header that has been written.
  lemma HeaderParts(before: Text, e: Entry, rest: Text)
    requires e.Fits()
    ensures var blob, pos := before + WriteEntry(e) + rest, |before|;
      |before| + HEADER <= |blob|
      && var header := Slice(blob, pos, pos + HEADER);
        Slice(header, 0, 16) == Pad(e.name + (if e.slash then [SLASH] else []), 16)
        && Slice(header, 48, 58) == Pad(Decimals(|e.data|), 10)
        && Slice(blob, pos + HEADER, pos + HEADER + |e.data|) == e.data
  {
    hide Pad, Decimals, Slice;
    PadStrips(e.name + (if e.slash then [SLASH] else []), 16);
    PadStrips(Decimals(|e.data|), 10);
    var a, b := Pad(e.name + (if e.slash then [SLASH] else []), 16), Pad(Decimals(|e.data|), 10);
    var header := a + e.middle + b + e.end;
    var fill: Text := if |e.data| % 2 == 1 then [NEWLINE] else [];
    var blob := before + WriteEntry(e) + rest;
    assert blob == before + header + (e.data + fill + rest);
    CutOut(before, header, e.data + fill + rest);
    assert blob == (before + header) + e.data + (fill + rest);
    CutOut(before + header, e.data, fill + rest);
    assert header == [] + a + (e.middle + b + e.end);
    CutOut([], a, e.middle + b + e.end);
    assert header == (a + e.middle) + b + e.end;
    CutOut(a + e.middle, b, e.end);
  }

  lemma CutOut(a: Text, b: Text, c: Text)
    ensures Slice(a + b + c, |a|, |a| + |b|) == b
  {
  }

  lemma EntryIsRead(before: Text, e: Entry, rest: Text)
    requires e.Fits()
    ensures Next(before + WriteEntry(e) + rest, |before|) == Some((Member(e.name, e.data), |before + WriteEntry(e)|))
  {
    hide Pad, Decimals, ParseSize, Strip, StripRight, Slice;
    HeaderParts(before, e, rest);
    NameRoundTrip(e);
    SizeRoundTrip(|e.data|);
    EntryLength(e);
  }

  lemma EntryLength(e: Entry)
    requires e.Fits()
    ensures |WriteEntry(e)| == HEADER + |e.data| + |e.data| % 2
  {
    hide Pad, Decimals;
    PadStrips(e.name + (if e.slash then [SLASH] else []), 16);
    PadStrips(Decimals(|e.data|), 10);
  }

  function Contents(es: seq<Entry>): seq<Member> {
    if es == [] then [] else [Member(es[0].name, es[0].data)] + Contents(es[1..])
  }

  // Reading a written archive yields its members, names and data, and then ends.
  lemma {:induction false} ReadsEntries(before: Text, es: seq<Entry>, n: nat)
    requires forall i :: 0 <= i < |es| ==> es[i].Fits()
    requires n >= |es|
    ensures ReadUpTo(before + WriteEntries(es), |before|, n) == Contents(es)
    decreases |es|
  {
    hide Next, WriteEntry;
    if es == [] {
      NothingLeft(before);
      assert before + WriteEntries(es) == before;
    } else {
      var rest := WriteEntries(es[1..]);
      EntryIsRead(before, es[0], rest);
      assert before + WriteEntries(es) == before + WriteEntry(es[0]) + rest;
      ReadsEntries(before + WriteEntry(es[0]), es[1..], n - 1);
    }
  }

  lemma NothingLeft(blob: Text)
    ensures Next(blob, |blob|) == None
  {
  }

  lemma MinusStrips(d: Text)
    requires d != [] && IsDigit(d[|d| - 1])
    ensures Strip(Pad([45] + d, 10), TEXT_SPACE) == [45] + d
  {
    hide Strip, Pad, IsDigit;
    var s: Text := [45] + d;
    assert s[0] == 45 && s[|s| - 1] == d[|d| - 1];
    NotSpace(45);
    NotSpace(d[|d| - 1]);
    PadStrips(s, 10);
  }

  lemma SignedMinus(d: Text, n: nat)
    requires ParseDigits(d) == Some(n)
    ensures Signed([45] + d) == Some(0 - n)
  {
    hide ParseDigits;
    assert ([45] + d)[1..] == d;
  }

  // Digits with at most one underscore between two of them.
  predicate Numeral(s: Text) {
    s != [] && IsDigit(s[0]) && IsDigit(s[|s| - 1])
    && (forall i :: 0 <= i < |s| ==> IsDigit(s[i]) || s[i] == 95)
    && forall i :: 0 < i < |s| ==> IsDigit(s[i]) || IsDigit(s[i - 1])
  }

  lemma {:induction false} DigitsExactly(s: Text)
    ensures ParseDigits(s).Some? <==> Numeral(s)
    decreases |s|
  {
    hide IsDigit;
    if |s| > 1 && IsDigit(s[|s| - 1]) {
      DigitIsNoMark(s[|s| - 2]);
      var front := if s[|s| - 2] == 95 then s[..|s| - 2] else s[..|s| - 1];
      DigitsExactly(front);
      if Numeral(front) {
        assert forall i :: 0 <= i < |front| ==> s[i] == front[i];
      }
    }
  }

  lemma DigitIsNoMark(b: Byte)
    ensures IsDigit(b) ==> b != 95
  {
  }

  // A minus sign is read too.
  lemma NegativeSize(size: int)
    requires size <= 0
    ensures ParseSize(Pad([45] + Decimals(-size), 10)) == Some(size)
  {
    var n: nat := -size;
    hide Strip, Pad, Decimals, ParseDigits, IsDigit, Signed;
    DecimalsParse(n);
    var d := Decimals(n);
    MinusStrips(d);
    SignedMinus(d, n);
  }
}
