/**
 When reading an archive ends (cockpit/server/pn_pkg.py, `_ar_members`). Sizes are signed, so the
 reader can go back, and it ends exactly when it never comes to a position twice.
 */
module ArVisits {
  import opened Bytes
  import opened LogLines
  import opened ArArchive
  import opened Orbits

  // From a position to the one behind its member.
  function Behind(blob: Text): Stepper {
    p => if Next(blob, p).Some? then Some(Next(blob, p).value.1) else None
  }

  ghost predicate Ends(blob: Text, pos: int) {
    exists n: nat :: |ReadUpTo(blob, pos, n)| < n
  }

  // As many members are read as there are positions.
  lemma {:induction false} ReadsWhileAt(blob: Text, pos: int, n: nat)
    ensures |ReadUpTo(blob, pos, n)| <= n
    ensures |ReadUpTo(blob, pos, n)| == n <==> At(Behind(blob), pos, n).Some?
    decreases n
  {
    hide Next;
    if n > 0 {
      AtAfterOne(Behind(blob), pos, n - 1);
      if Next(blob, pos).Some? {
        ReadsWhileAt(blob, Next(blob, pos).value.1, n - 1);
      }
    }
  }

  // Far off both ends of the blob there is no header to read.
  lemma PositionsAreNear(blob: Text, pos: int)
    requires Next(blob, pos).Some?
    ensures -|blob| - HEADER < pos <= |blob| - HEADER
  {
    hide ParseDigits;
    if pos <= -|blob| - HEADER {
      assert Slice(blob, pos, pos + HEADER) == [];
      assert Slice([], 48, 58) == [];
      assert ParseSize([]) == ParseDigits([]);
      NoDigits();
    }
  }

  lemma NoDigits()
    ensures ParseDigits([]) == None
  {
  }

  /**
   Reading ends exactly when no position comes back, and exactly when it has ended after twice as
   many members as there are bytes; so a reader that counts can tell.
   */
  lemma EndsExactly(blob: Text, pos: int)
    ensures Ends(blob, pos) <==> !ComesBack(Behind(blob), pos)
    ensures Ends(blob, pos) <==> |ReadUpTo(blob, pos, 2 * |blob| + 1)| <= 2 * |blob|
  {
    hide At, ReadUpTo, ComesBack;
    forall p | Behind(blob)(p).Some?
      ensures 1 - |blob| - HEADER <= p < 1 - |blob| - HEADER + 2 * |blob|
    {
      PositionsAreNear(blob, p);
    }
    Orbits.EndsExactly(Behind(blob), pos, 1 - |blob| - HEADER, 2 * |blob|);
    var most := 2 * |blob| + 1;
    ReadsWhileAt(blob, pos, most);
    if n: nat :| |ReadUpTo(blob, pos, n)| < n {
      ReadsWhileAt(blob, pos, n);
      assert At(Behind(blob), pos, n).None?;
    }
    assert |ReadUpTo(blob, pos, most)| < most ==> Ends(blob, pos);
  }

  /* What the sizes say */

  // The reader moves on exactly for sizes above -60, and stays where it is for two sizes.
  lemma MovesExactly(blob: Text, pos: int)
    requires Next(blob, pos).Some?
    ensures SizeAt(blob, pos).Some?
    ensures Next(blob, pos).value.1 > pos <==> SizeAt(blob, pos).value > -60
    ensures Next(blob, pos).value.1 == pos <==> SizeAt(blob, pos).value in {-60, -61}
  {
    hide SizeAt, Slice, Strip, StripRight;
  }

  // Every header that the reader comes to names a size above -60.
  ghost predicate AllMove(blob: Text, pos: int) {
    forall k: nat :: MovesAt(blob, At(Behind(blob), pos, k))
  }

  predicate MovesAt(blob: Text, p: Option<int>) {
    p.Some? && Next(blob, p.value).Some? ==> SizeAt(blob, p.value).value > -60
  }

  lemma {:induction false} PositionsGrow(blob: Text, pos: int, i: nat, j: nat)
    requires AllMove(blob, pos) && i <= j && At(Behind(blob), pos, j).Some?
    ensures At(Behind(blob), pos, i).Some? && At(Behind(blob), pos, i).value + (j - i) <= At(Behind(blob), pos, j).value
    decreases j
  {
    hide Next, SizeAt;
    if i < j {
      PositionsGrow(blob, pos, i, j - 1);
      assert MovesAt(blob, At(Behind(blob), pos, j - 1));
      MovesExactly(blob, At(Behind(blob), pos, j - 1).value);
    }
  }

  // Then reading ends.
  lemma EndsWhenMoving(blob: Text, pos: int)
    requires AllMove(blob, pos)
    ensures Ends(blob, pos)
  {
    hide At, AllMove, Behind;
    if ComesBack(Behind(blob), pos) {
      var i: nat, j: nat :| i < j && At(Behind(blob), pos, i).Some? && At(Behind(blob), pos, i) == At(Behind(blob), pos, j);
      PositionsGrow(blob, pos, i, j);
    }
    EndsExactly(blob, pos);
  }

  /* Archives that are read for ever */

  // A header with any name, any bytes the reader does not look at, and a size.
  function Header(name: Text, middle: Text, size: int, end: Text): Text {
    name + middle + Pad((if size < 0 then [45] else []) + Decimals(if size < 0 then -size else size), 10) + end
  }

  lemma HeaderIsRead(before: Text, name: Text, middle: Text, size: int, end: Text, rest: Text)
    requires |name| == 16 && |middle| == 32 && |end| == 2 && -1000 < size < 1000
    ensures var h := Header(name, middle, size, end);
      var step := Next(before + h + rest, |before|);
      |h| == HEADER && step.Some? && step.value.1 == |before| + HEADER + size + size % 2
  {
    hide Slice, Pad, Decimals, ParseSize, Strip, StripRight;
    var digits := Decimals(if size < 0 then -size else size);
    var field := Pad((if size < 0 then [45] else []) + digits, 10);
    FieldIsRead(size);
    var h := name + middle + field + end;
    var blob := before + h + rest;
    CutOut(before, h, rest);
    assert h == (name + middle) + field + end;
    CutOut(name + middle, field, end);
  }

  lemma ThreeDigits(n: nat)
    requires n < 1000
    ensures |Decimals(n)| <= 3
  {
    assert n / 10 < 100 && n / 10 / 10 < 10;
    assert n / 10 >= 10 ==> |Decimals(n / 10)| == |Decimals(n / 10 / 10)| + 1;
  }

  lemma FieldIsRead(size: int)
    requires -1000 < size < 1000
    ensures var field := Pad((if size < 0 then [45] else []) + Decimals(if size < 0 then -size else size), 10);
      |field| == 10 && ParseSize(field) == Some(size)
  {
    hide Pad, ParseSize;
    var n: nat := if size < 0 then -size else size;
    ThreeDigits(n);
    PadStrips((if size < 0 then [45] else []) + Decimals(n), 10);
    if size < 0 {
      NegativeSize(size);
    } else {
      SizeRoundTrip(n);
      assert [] + Decimals(n) == Decimals(n);
    }
  }

  // One member of size -60 is yielded without end, and so are two of the sizes 0 and -120.
  lemma ReadForEver(name: Text, middle: Text, end: Text)
    requires |name| == 16 && |middle| == 32 && |end| == 2
    ensures !Ends(MAGIC + Header(name, middle, -60, end), 8)
    ensures !Ends(MAGIC + Header(name, middle, 0, end) + Header(name, middle, -120, end), 8)
  {
    hide Next, Header;
    var stuck := MAGIC + Header(name, middle, -60, end);
    HeaderIsRead(MAGIC, name, middle, -60, end, []);
    assert stuck + [] == stuck;
    assert At(Behind(stuck), 8, 0) == Some(8) && At(Behind(stuck), 8, 1) == Some(8);
    EndsExactly(stuck, 8);
    var first, second := Header(name, middle, 0, end), Header(name, middle, -120, end);
    var both := MAGIC + first + second;
    HeaderIsRead(MAGIC, name, middle, 0, end, second);
    HeaderIsRead(MAGIC + first, name, middle, -120, end, []);
    assert both + [] == both;
    assert At(Behind(both), 8, 0) == Some(8) && At(Behind(both), 8, 1) == Some(68) && At(Behind(both), 8, 2) == Some(8);
    EndsExactly(both, 8);
  }
}
