/**
 Blits into the shared framebuffer (cockpit/server/pn_cell_desk_bridge.py): the raw rectangle and the
 copied rectangle of RFC 6143, sections 7.7.1 and 7.7.2, four bytes to a pixel.
 */
module Framebuffer {
  import opened Bytes

  type Row = seq<Byte>

  // ----- Images as rows -----

  ghost predicate IsImage(rows: seq<Row>, width: nat, height: nat) {
    |rows| == height && forall k :: 0 <= k < height ==> |rows[k]| == 4 * width
  }

  // The row with the bytes from position c on replaced.
  function Paste(row: Row, c: nat, part: Row): (r: Row)
    requires c + |part| <= |row|
    ensures |r| == |row|
  {
    row[..c] + part + row[c + |part|..]
  }

  // A rectangle of pixels with its upper left corner, and the corner it is copied from.
  datatype Copy = Copy(x: nat, y: nat, w: nat, h: nat, sx: nat, sy: nat) {
    predicate Inside(width: nat, height: nat) {
      x + w <= width && y + h <= height && sx + w <= width && sy + h <= height
    }
  }

  // The part of a source row that is copied.
  function SourcePart(row: Row, c: Copy): (r: Row)
    requires 4 * (c.sx + c.w) <= |row|
    ensures |r| == 4 * c.w
  {
    row[4 * c.sx..4 * c.sx + 4 * c.w]
  }

  // Row k of the image after a copy in one step: every pixel comes from where it was before.
  ghost function CopiedRow(rows: seq<Row>, width: nat, height: nat, c: Copy, k: nat): (r: Row)
    requires IsImage(rows, width, height) && c.Inside(width, height) && k < height
    ensures |r| == 4 * width
  {
    if c.y <= k < c.y + c.h then Paste(rows[k], 4 * c.x, SourcePart(rows[c.sy + k - c.y], c)) else rows[k]
  }

  ghost predicate CopiedAtOnce(rows: seq<Row>, width: nat, height: nat, c: Copy, o: seq<Row>)
    requires IsImage(rows, width, height) && c.Inside(width, height)
  {
    |o| == height && forall k :: 0 <= k < height ==> o[k] == CopiedRow(rows, width, height, c, k)
  }

  // Copying row r of the rectangle within the image as it is now.
  ghost function CopyRow(rows: seq<Row>, width: nat, height: nat, c: Copy, r: nat): (o: seq<Row>)
    requires IsImage(rows, width, height) && c.Inside(width, height) && r < c.h
    ensures IsImage(o, width, height)
  {
    rows[c.y + r := Paste(rows[c.y + r], 4 * c.x, SourcePart(rows[c.sy + r], c))]
  }

  // The first n rows of the rectangle from the top, or from the bottom.
  ghost function Downwards(rows: seq<Row>, width: nat, height: nat, c: Copy, n: nat): (o: seq<Row>)
    requires IsImage(rows, width, height) && c.Inside(width, height) && n <= c.h
    ensures IsImage(o, width, height)
  {
    if n == 0 then rows else CopyRow(Downwards(rows, width, height, c, n - 1), width, height, c, n - 1)
  }

  ghost function Upwards(rows: seq<Row>, width: nat, height: nat, c: Copy, n: nat): (o: seq<Row>)
    requires IsImage(rows, width, height) && c.Inside(width, height) && n <= c.h
    ensures IsImage(o, width, height)
  {
    if n == 0 then rows else CopyRow(Upwards(rows, width, height, c, n - 1), width, height, c, c.h - n)
  }

  // The order that `_blit_copyrect` chooses.
  ghost function CopyRect(rows: seq<Row>, width: nat, height: nat, c: Copy): (o: seq<Row>)
    requires IsImage(rows, width, height) && c.Inside(width, height)
    ensures IsImage(o, width, height)
  {
    if c.sy < c.y || (c.sy == c.y && c.sx < c.x) then Downwards(rows, width, height, c, c.h)
    else Upwards(rows, width, height, c, c.h)
  }

  // ----- When an order is safe -----

  predicate ColumnsApart(c: Copy) {
    c.sx + c.w <= c.x || c.x + c.w <= c.sx
  }

  // A row that is not written between two moments stays as it is.
  lemma {:induction false} DownwardsKeeps(rows: seq<Row>, width: nat, height: nat, c: Copy, n: nat, m: nat, k: nat)
    requires IsImage(rows, width, height) && c.Inside(width, height) && n <= m <= c.h && k < height
    requires !(c.y + n <= k < c.y + m)
    ensures Downwards(rows, width, height, c, m)[k] == Downwards(rows, width, height, c, n)[k]
    decreases m
  {
    hide Paste, SourcePart;
    if n < m {
      DownwardsKeeps(rows, width, height, c, n, m - 1, k);
    }
  }

  lemma {:induction false} UpwardsKeeps(rows: seq<Row>, width: nat, height: nat, c: Copy, n: nat, m: nat, k: nat)
    requires IsImage(rows, width, height) && c.Inside(width, height) && n <= m <= c.h && k < height
    requires !(c.y + c.h - m <= k < c.y + c.h - n)
    ensures Upwards(rows, width, height, c, m)[k] == Upwards(rows, width, height, c, n)[k]
    decreases m
  {
    hide Paste, SourcePart;
    if n < m {
      UpwardsKeeps(rows, width, height, c, n, m - 1, k);
    }
  }

  // The source row that row r of the rectangle is copied from: a row that has been written before it
  // is read shows its new content, which is also its final one.
  ghost function ReadRow(rows: seq<Row>, o: seq<Row>, c: Copy, r: nat, written: bool): Row
    requires c.sy + r < |rows| == |o|
  {
    if written then o[c.sy + r] else rows[c.sy + r]
  }

  lemma DownwardsRow(rows: seq<Row>, width: nat, height: nat, c: Copy, r: nat)
    requires IsImage(rows, width, height) && c.Inside(width, height) && r < c.h
    ensures var o := Downwards(rows, width, height, c, c.h);
      var source := ReadRow(rows, o, c, r, c.y <= c.sy + r < c.y + r);
      |source| == 4 * width && o[c.y + r] == Paste(rows[c.y + r], 4 * c.x, SourcePart(source, c))
  {
    hide Paste, SourcePart;
    var k, j := c.y + r, c.sy + r;
    DownwardsKeeps(rows, width, height, c, r + 1, c.h, k);
    DownwardsKeeps(rows, width, height, c, 0, r, k);
    if c.y <= j < k {
      DownwardsKeeps(rows, width, height, c, r, c.h, j);
    } else {
      DownwardsKeeps(rows, width, height, c, 0, r, j);
    }
  }

  lemma UpwardsRow(rows: seq<Row>, width: nat, height: nat, c: Copy, r: nat)
    requires IsImage(rows, width, height) && c.Inside(width, height) && r < c.h
    ensures var o := Upwards(rows, width, height, c, c.h);
      var source := ReadRow(rows, o, c, r, c.y + r < c.sy + r < c.y + c.h);
      |source| == 4 * width && o[c.y + r] == Paste(rows[c.y + r], 4 * c.x, SourcePart(source, c))
  {
    hide Paste, SourcePart;
    var k, j, n := c.y + r, c.sy + r, c.h - r - 1;
    UpwardsKeeps(rows, width, height, c, n + 1, c.h, k);
    UpwardsKeeps(rows, width, height, c, 0, n, k);
    if k < j < c.y + c.h {
      UpwardsKeeps(rows, width, height, c, n, c.h, j);
    } else {
      UpwardsKeeps(rows, width, height, c, 0, n, j);
    }
  }

  // Pasting beside the source columns leaves them as they were.
  lemma PasteApart(row: Row, width: nat, height: nat, c: Copy, part: Row)
    requires |row| == 4 * width && c.Inside(width, height) && |part| == 4 * c.w && ColumnsApart(c)
    ensures SourcePart(Paste(row, 4 * c.x, part), c) == SourcePart(row, c)
  {
  }

  lemma DownwardsSafe(rows: seq<Row>, width: nat, height: nat, c: Copy)
    requires IsImage(rows, width, height) && c.Inside(width, height)
    requires c.sy >= c.y || c.y - c.sy >= c.h || ColumnsApart(c)
    ensures CopiedAtOnce(rows, width, height, c, Downwards(rows, width, height, c, c.h))
  {
    hide Paste, SourcePart, Downwards;
    var o := Downwards(rows, width, height, c, c.h);
    forall k | 0 <= k < height
      ensures o[k] == CopiedRow(rows, width, height, c, k)
    {
      if c.y <= k < c.y + c.h {
        DownwardsRow(rows, width, height, c, k - c.y);
        var j := c.sy + (k - c.y);
        if c.y <= j < k {
          DownwardsRow(rows, width, height, c, j - c.y);
          var source := ReadRow(rows, o, c, j - c.y, c.y <= c.sy + (j - c.y) < j);
          PasteApart(rows[j], width, height, c, SourcePart(source, c));
        }
      } else {
        DownwardsKeeps(rows, width, height, c, 0, c.h, k);
        NoneDone(rows, width, height, c);
      }
    }
  }

  lemma NoneDone(rows: seq<Row>, width: nat, height: nat, c: Copy)
    requires IsImage(rows, width, height) && c.Inside(width, height)
    ensures Downwards(rows, width, height, c, 0) == rows == Upwards(rows, width, height, c, 0)
  {
  }

  lemma UpwardsSafe(rows: seq<Row>, width: nat, height: nat, c: Copy)
    requires IsImage(rows, width, height) && c.Inside(width, height)
    requires c.sy <= c.y || c.sy - c.y >= c.h || ColumnsApart(c)
    ensures CopiedAtOnce(rows, width, height, c, Upwards(rows, width, height, c, c.h))
  {
    hide Paste, SourcePart, Upwards;
    var o := Upwards(rows, width, height, c, c.h);
    forall k | 0 <= k < height
      ensures o[k] == CopiedRow(rows, width, height, c, k)
    {
      if c.y <= k < c.y + c.h {
        UpwardsRow(rows, width, height, c, k - c.y);
        var j := c.sy + (k - c.y);
        if k < j < c.y + c.h {
          UpwardsRow(rows, width, height, c, j - c.y);
          var source := ReadRow(rows, o, c, j - c.y, j < c.sy + (j - c.y) < c.y + c.h);
          PasteApart(rows[j], width, height, c, SourcePart(source, c));
        }
      } else {
        UpwardsKeeps(rows, width, height, c, 0, c.h, k);
        NoneDone(rows, width, height, c);
      }
    }
  }

  // The opposite choice is right for every overlap.
  lemma MirroredOrderIsRight(rows: seq<Row>, width: nat, height: nat, c: Copy)
    requires IsImage(rows, width, height) && c.Inside(width, height)
    ensures CopiedAtOnce(rows, width, height, c,
      if c.sy < c.y then Upwards(rows, width, height, c, c.h) else Downwards(rows, width, height, c, c.h))
  {
    if c.sy < c.y {
      UpwardsSafe(rows, width, height, c);
    } else {
      DownwardsSafe(rows, width, height, c);
    }
  }

  // ----- When the chosen order is right -----

  predicate OrderIsRight(c: Copy) {
    c.sy == c.y || c.y - c.sy >= c.h || c.sy - c.y >= c.h || ColumnsApart(c)
  }

  // A black image with one byte set.
  ghost function OneDot(width: nat, height: nat, k: nat, i: nat): (rows: seq<Row>)
    ensures IsImage(rows, width, height)
    ensures forall a, b :: 0 <= a < height && 0 <= b < 4 * width ==> rows[a][b] == if a == k && b == i then 1 else 0
  {
    seq(height, a => seq(4 * width, b => if a == k && b == i then 1 else 0))
  }

  // The byte of a pasted row that comes from offset i of the source columns.
  lemma PastedByte(row: Row, source: Row, width: nat, height: nat, c: Copy, i: nat)
    requires |row| == |source| == 4 * width && c.Inside(width, height) && i < 4 * c.w
    ensures Paste(row, 4 * c.x, SourcePart(source, c))[4 * c.x + i] == source[4 * c.sx + i]
  {
  }

  // The first column of the destination that the source columns cover, seen from the source.
  function Overlap(c: Copy): (j: nat)
    requires !ColumnsApart(c)
    ensures j < c.w && c.x <= c.sx + j < c.x + c.w
  {
    if c.sx < c.x then c.x - c.sx else 0
  }

  lemma DownwardsWrong(width: nat, height: nat, c: Copy) returns (rows: seq<Row>)
    requires c.Inside(width, height) && !OrderIsRight(c) && c.sy < c.y
    ensures IsImage(rows, width, height)
    ensures !CopiedAtOnce(rows, width, height, c, Downwards(rows, width, height, c, c.h))
  {
    hide Paste, SourcePart, Downwards;
    var j := Overlap(c);
    var i := c.sx + j - c.x;
    rows := OneDot(width, height, c.sy, 4 * (c.sx + i));
    var o, d := Downwards(rows, width, height, c, c.h), c.y - c.sy;
    DownwardsRow(rows, width, height, c, 0);
    PastedByte(rows[c.y], rows[c.sy], width, height, c, 4 * i);
    DownwardsRow(rows, width, height, c, d);
    PastedByte(rows[c.y + d], o[c.y], width, height, c, 4 * j);
    PastedByte(rows[c.y + d], rows[c.y], width, height, c, 4 * j);
    assert o[c.y + d] != CopiedRow(rows, width, height, c, c.y + d);
  }

  lemma UpwardsWrong(width: nat, height: nat, c: Copy) returns (rows: seq<Row>)
    requires c.Inside(width, height) && !OrderIsRight(c) && c.sy > c.y
    ensures IsImage(rows, width, height)
    ensures !CopiedAtOnce(rows, width, height, c, Upwards(rows, width, height, c, c.h))
  {
    hide Paste, SourcePart, Upwards;
    var j := Overlap(c);
    var i := c.sx + j - c.x;
    var last := c.h - 1;
    rows := OneDot(width, height, c.sy + last, 4 * (c.sx + i));
    var o, r := Upwards(rows, width, height, c, c.h), last - (c.sy - c.y);
    UpwardsRow(rows, width, height, c, last);
    PastedByte(rows[c.y + last], rows[c.sy + last], width, height, c, 4 * i);
    UpwardsRow(rows, width, height, c, r);
    PastedByte(rows[c.y + r], o[c.y + last], width, height, c, 4 * j);
    PastedByte(rows[c.y + r], rows[c.y + last], width, height, c, 4 * j);
    assert o[c.y + r] != CopiedRow(rows, width, height, c, c.y + r);
  }

  /**
   The chosen order copies every image as if in one step exactly when the rectangles lie in the same
   rows, or do not share a row, or do not share a column.
   */
  lemma CopyRectExactly(width: nat, height: nat, c: Copy)
    requires c.Inside(width, height)
    ensures OrderIsRight(c) <==>
      forall rows :: IsImage(rows, width, height) ==> CopiedAtOnce(rows, width, height, c, CopyRect(rows, width, height, c))
  {
    hide Downwards, Upwards, CopiedAtOnce;
    if OrderIsRight(c) {
      forall rows | IsImage(rows, width, height)
        ensures CopiedAtOnce(rows, width, height, c, CopyRect(rows, width, height, c))
      {
        if c.sy < c.y || (c.sy == c.y && c.sx < c.x) {
          DownwardsSafe(rows, width, height, c);
        } else {
          UpwardsSafe(rows, width, height, c);
        }
      }
    } else if c.sy < c.y {
      var rows := DownwardsWrong(width, height, c);
    } else {
      var rows := UpwardsWrong(width, height, c);
    }
  }
}
