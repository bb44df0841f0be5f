/**
 The bridge's framebuffer as it is stored (cockpit/server/pn_cell_desk_bridge.py): one growable buffer
 that is written by slices. Rectangles come off the wire unchecked; one that does not fit the frame
 writes into other rows, or makes the buffer grow or shrink.
 */
module ScreenBuffer {
  import opened Bytes
  import opened Framebuffer

  // Rows of a flat buffer do not overlap.
  lemma {:induction false} RowsApart(stride: nat, k: nat, j: nat)
    requires k < j
    ensures k * stride + stride <= j * stride
  {
    assert j * stride == (j - 1) * stride + stride;
    if k < j - 1 {
      RowsApart(stride, k, j - 1);
    }
  }

  ghost function RowOf(fb: seq<Byte>, stride: nat, height: nat, k: nat): (r: Row)
    requires |fb| == height * stride && k < height
    ensures |r| == stride
  {
    RowsApart(stride, k, height);
    fb[k * stride..k * stride + stride]
  }

  ghost function RowsOf(fb: seq<Byte>, width: nat, height: nat): (rows: seq<Row>)
    requires |fb| == height * (4 * width)
    ensures IsImage(rows, width, height)
  {
    seq(height, k requires 0 <= k < height => RowOf(fb, 4 * width, height, k))
  }

  /* Writing slices */

  function Min(a: nat, b: nat): nat {
    if a < b then a else b
  }

  // Where a pixel starts.
  function Place(row: nat, width: nat, x: nat): nat {
    (row * width + x) * 4
  }

  // `fb[s:s + n]`
  function Cut(fb: seq<Byte>, s: nat, n: nat): (r: seq<Byte>)
    ensures |r| <= n && (s + n <= |fb| ==> |r| == n)
  {
    fb[Min(s, |fb|)..Min(s + n, |fb|)]
  }

  // `fb[d:d + n] = part`
  function Assigned(fb: seq<Byte>, d: nat, n: nat, part: seq<Byte>): seq<Byte> {
    fb[..Min(d, |fb|)] + part + fb[Min(d + n, |fb|)..]
  }

  // The first n rows of `_blit_raw`.
  function RawFlat(fb: seq<Byte>, width: nat, x: nat, y: nat, w: nat, data: seq<Byte>, n: nat): seq<Byte> {
    if n == 0 then fb
    else
      Assigned(RawFlat(fb, width, x, y, w, data, n - 1), Place(y + n - 1, width, x), w * 4,
               Cut(data, Place(n - 1, w, 0), w * 4))
  }

  // One row of `_blit_copyrect`.
  function CopyRowFlat(fb: seq<Byte>, width: nat, c: Copy, r: nat): seq<Byte> {
    Assigned(fb, Place(c.y + r, width, c.x), c.w * 4, Cut(fb, Place(c.sy + r, width, c.sx), c.w * 4))
  }

  function DownwardsFlat(fb: seq<Byte>, width: nat, c: Copy, n: nat): seq<Byte> {
    if n == 0 then fb else CopyRowFlat(DownwardsFlat(fb, width, c, n - 1), width, c, n - 1)
  }

  function UpwardsFlat(fb: seq<Byte>, width: nat, c: Copy, n: nat): seq<Byte>
    requires n <= c.h
  {
    if n == 0 then fb else CopyRowFlat(UpwardsFlat(fb, width, c, n - 1), width, c, c.h - n)
  }

  function CopyFlat(fb: seq<Byte>, width: nat, c: Copy): seq<Byte> {
    if c.sy < c.y || (c.sy == c.y && c.sx < c.x) then DownwardsFlat(fb, width, c, c.h) else UpwardsFlat(fb, width, c, c.h)
  }

  /** `latest["fb"]` with the geometry it was allocated for. */
  class Screen {
    const width: nat
    const height: nat
    var fb: seq<Byte>

    constructor (width: nat, height: nat)
      ensures this.width == width && this.height == height && |fb| == height * (4 * width)
    {
      this.width, this.height := width, height;
      fb := seq(height * (4 * width), _ => 0);
    }

    // `_blit_raw`
    method BlitRaw(x: nat, y: nat, w: nat, h: nat, data: seq<Byte>)
      modifies this
      ensures fb == RawFlat(old(fb), width, x, y, w, data, h)
    {
      for r := 0 to h
        invariant fb == RawFlat(old(fb), width, x, y, w, data, r)
      {
        hide Place, Assigned, Cut;
        var d, s := Place(y + r, width, x), Place(r, w, 0);
        fb := Assigned(fb, d, w * 4, Cut(data, s, w * 4));
      }
    }

    // `_blit_copyrect`
    method BlitCopyRect(c: Copy)
      modifies this
      ensures fb == CopyFlat(old(fb), width, c)
    {
      hide CopyRowFlat;
      if c.sy < c.y || (c.sy == c.y && c.sx < c.x) {
        for r := 0 to c.h
          invariant fb == DownwardsFlat(old(fb), width, c, r)
        {
          BlitRow(c, r);
        }
      } else {
        for r := c.h downto 0
          invariant fb == UpwardsFlat(old(fb), width, c, c.h - r)
        {
          BlitRow(c, r);
        }
      }
    }

    // The slice on the right is read before any of it is written.
    method BlitRow(c: Copy, r: nat)
      modifies this
      ensures fb == CopyRowFlat(old(fb), width, c, r)
    {
      hide Place, Assigned, Cut;
      var d, s := Place(c.y + r, width, c.x), Place(c.sy + r, width, c.sx);
      fb := Assigned(fb, d, c.w * 4, Cut(fb, s, c.w * 4));
    }
  }

  /* Inside the frame the buffer shows an image */

  lemma SliceOfPaste(fb: seq<Byte>, d: nat, part: seq<Byte>, a: nat, b: nat)
    requires d + |part| <= |fb| && a <= b <= |fb|
    ensures b <= d || d + |part| <= a ==> Paste(fb, d, part)[a..b] == fb[a..b]
    ensures a <= d && d + |part| <= b ==> Paste(fb, d, part)[a..b] == Paste(fb[a..b], d - a, part)
  {
  }

  // Writing within one row of the buffer is pasting into that row.
  lemma RowOfPaste(before: seq<Byte>, stride: nat, height: nat, k: nat, c: nat, part: Row, j: nat)
    requires |before| == height * stride && k < height && j < height && c + |part| <= stride
    ensures k * stride + c + |part| <= |before|
    ensures RowOf(Paste(before, k * stride + c, part), stride, height, j) ==
      if j == k then Paste(RowOf(before, stride, height, k), c, part) else RowOf(before, stride, height, j)
  {
    hide Paste;
    RowsApart(stride, j, height);
    RowsApart(stride, k, height);
    if j < k {
      RowsApart(stride, j, k);
    } else if k < j {
      RowsApart(stride, k, j);
    }
    SliceOfPaste(before, k * stride + c, part, j * stride, j * stride + stride);
  }

  // A part of a row is a slice of the buffer.
  lemma PartOfRow(fb: seq<Byte>, width: nat, height: nat, k: nat, c: Copy)
    requires |fb| == height * (4 * width) && k < height && c.sx + c.w <= width
    ensures (k * width + c.sx) * 4 + c.w * 4 <= |fb|
    ensures fb[(k * width + c.sx) * 4..(k * width + c.sx) * 4 + c.w * 4] == SourcePart(RowsOf(fb, width, height)[k], c)
  {
    Offset(k, width, c.sx);
    RowsApart(4 * width, k, height);
    var start, d := k * (4 * width), (k * width + c.sx) * 4;
    assert d == start + 4 * c.sx;
    assert RowsOf(fb, width, height)[k] == fb[start..start + 4 * width];
    hide RowsOf;
    SliceWithin(fb, start, 4 * width, 4 * c.sx, 4 * c.w);
  }

  lemma SliceWithin(fb: seq<Byte>, start: nat, n: nat, a: nat, m: nat)
    requires start + n <= |fb| && a + m <= n
    ensures fb[start..start + n][a..a + m] == fb[start + a..start + a + m]
  {
    var row := fb[start..start + n];
    assert forall i :: a <= i < a + m ==> row[i] == fb[start + i];
  }

  lemma Offset(row: nat, width: nat, x: nat)
    ensures (row * width + x) * 4 == row * (4 * width) + 4 * x
  {
  }

  lemma DataRow(data: seq<Byte>, w: nat, h: nat, r: nat)
    requires |data| == h * (4 * w) && r < h
    ensures r * w * 4 + w * 4 <= |data|
    ensures data[r * w * 4..r * w * 4 + w * 4] == RowOf(data, 4 * w, h, r)
  {
    RowsApart(4 * w, r, h);
    Offset(r, w, 0);
  }

  // The first n rows of a rectangle of raw data written into an image.
  ghost function RawRect(rows: seq<Row>, width: nat, height: nat, x: nat, y: nat, w: nat, h: nat, data: seq<Byte>,
                         n: nat): (o: seq<Row>)
    requires IsImage(rows, width, height) && x + w <= width && y + h <= height && |data| == h * (4 * w) && n <= h
    ensures IsImage(o, width, height)
  {
    if n == 0 then rows
    else
      var o := RawRect(rows, width, height, x, y, w, h, data, n - 1);
      o[y + n - 1 := Paste(o[y + n - 1], 4 * x, RowOf(data, 4 * w, h, n - 1))]
  }

  // Exactly the rectangle changes, and it shows the data row by row.
  lemma {:induction false} RawRectExactly(rows: seq<Row>, width: nat, height: nat, x: nat, y: nat, w: nat, h: nat,
                                          data: seq<Byte>, n: nat, k: nat)
    requires IsImage(rows, width, height) && x + w <= width && y + h <= height && |data| == h * (4 * w) && n <= h
    requires k < height
    ensures RawRect(rows, width, height, x, y, w, h, data, n)[k] ==
      if y <= k < y + n then Paste(rows[k], 4 * x, RowOf(data, 4 * w, h, k - y)) else rows[k]
  {
    hide Paste, RowOf;
    if n > 0 {
      RawRectExactly(rows, width, height, x, y, w, h, data, n - 1, k);
    }
  }

  // A slice that fits is pasted in place.
  lemma AssignedFits(fb: seq<Byte>, d: nat, part: seq<Byte>)
    requires d + |part| <= |fb|
    ensures Assigned(fb, d, |part|, part) == Paste(fb, d, part)
  {
  }

  // Writing a row that fits is pasting into one row of the image.
  lemma RowWritten(fb: seq<Byte>, width: nat, height: nat, row: nat, x: nat, part: Row)
    requires |fb| == height * (4 * width) && row < height && 4 * x + |part| <= 4 * width
    ensures var o := Assigned(fb, Place(row, width, x), |part|, part);
      |o| == |fb| && RowsOf(o, width, height) == RowsOf(fb, width, height)[row := Paste(RowsOf(fb, width, height)[row], 4 * x, part)]
  {
    hide Assigned, Paste, RowOf;
    Offset(row, width, x);
    RowsApart(4 * width, row, height);
    var d := Place(row, width, x);
    AssignedFits(fb, d, part);
    forall j | 0 <= j < height
      ensures RowsOf(Paste(fb, d, part), width, height)[j] ==
        if j == row then Paste(RowsOf(fb, width, height)[row], 4 * x, part) else RowsOf(fb, width, height)[j]
    {
      RowOfPaste(fb, 4 * width, height, row, 4 * x, part, j);
    }
  }

  lemma DataCut(data: seq<Byte>, w: nat, h: nat, r: nat)
    requires |data| == h * (4 * w) && r < h
    ensures Cut(data, Place(r, w, 0), w * 4) == RowOf(data, 4 * w, h, r)
  {
    hide RowOf;
    DataRow(data, w, h, r);
  }

  // `_blit_raw` writes the rectangle of the image.
  lemma {:induction false} RawShows(fb: seq<Byte>, width: nat, height: nat, x: nat, y: nat, w: nat, h: nat, data: seq<Byte>,
                                    n: nat)
    requires |fb| == height * (4 * width) && x + w <= width && y + h <= height && |data| == h * (4 * w) && n <= h
    ensures var o := RawFlat(fb, width, x, y, w, data, n);
      |o| == |fb| && RowsOf(o, width, height) == RawRect(RowsOf(fb, width, height), width, height, x, y, w, h, data, n)
  {
    hide RowsOf, RowOf, Paste, Assigned, Cut, Place;
    if n > 0 {
      RawShows(fb, width, height, x, y, w, h, data, n - 1);
      DataCut(data, w, h, n - 1);
      RowWritten(RawFlat(fb, width, x, y, w, data, n - 1), width, height, y + n - 1, x, RowOf(data, 4 * w, h, n - 1));
    }
  }

  lemma CopyRowShows(fb: seq<Byte>, width: nat, height: nat, c: Copy, r: nat)
    requires |fb| == height * (4 * width) && c.Inside(width, height) && r < c.h
    ensures var o := CopyRowFlat(fb, width, c, r);
      |o| == |fb| && RowsOf(o, width, height) == CopyRow(RowsOf(fb, width, height), width, height, c, r)
  {
    hide RowsOf, RowOf, Paste, Assigned, SourcePart;
    PartOfRow(fb, width, height, c.sy + r, c);
    hide Place;
    RowWritten(fb, width, height, c.y + r, c.x, SourcePart(RowsOf(fb, width, height)[c.sy + r], c));
  }

  lemma {:induction false} DownwardsShows(fb: seq<Byte>, width: nat, height: nat, c: Copy, n: nat)
    requires |fb| == height * (4 * width) && c.Inside(width, height) && n <= c.h
    ensures var o := DownwardsFlat(fb, width, c, n);
      |o| == |fb| && RowsOf(o, width, height) == Downwards(RowsOf(fb, width, height), width, height, c, n)
  {
    hide RowsOf, CopyRow, CopyRowFlat;
    if n > 0 {
      DownwardsShows(fb, width, height, c, n - 1);
      CopyRowShows(DownwardsFlat(fb, width, c, n - 1), width, height, c, n - 1);
    }
  }

  lemma {:induction false} UpwardsShows(fb: seq<Byte>, width: nat, height: nat, c: Copy, n: nat)
    requires |fb| == height * (4 * width) && c.Inside(width, height) && n <= c.h
    ensures var o := UpwardsFlat(fb, width, c, n);
      |o| == |fb| && RowsOf(o, width, height) == Upwards(RowsOf(fb, width, height), width, height, c, n)
  {
    hide RowsOf, CopyRow, CopyRowFlat;
    if n > 0 {
      UpwardsShows(fb, width, height, c, n - 1);
      CopyRowShows(UpwardsFlat(fb, width, c, n - 1), width, height, c, c.h - n);
    }
  }

  // `_blit_copyrect` copies rows of the image in the order it chooses.
  lemma CopyShows(fb: seq<Byte>, width: nat, height: nat, c: Copy)
    requires |fb| == height * (4 * width) && c.Inside(width, height)
    ensures var o := CopyFlat(fb, width, c);
      |o| == |fb| && RowsOf(o, width, height) == CopyRect(RowsOf(fb, width, height), width, height, c)
  {
    hide RowsOf, Downwards, Upwards, DownwardsFlat, UpwardsFlat;
    DownwardsShows(fb, width, height, c, c.h);
    UpwardsShows(fb, width, height, c, c.h);
  }

  // A byte of the buffer, seen in its row.
  lemma ByteOfRow(fb: seq<Byte>, width: nat, height: nat, row: nat, x: nat, i: nat)
    requires |fb| == height * (4 * width) && row < height && 4 * x + i < 4 * width
    ensures (row * width + x) * 4 + i < |fb|
    ensures fb[(row * width + x) * 4 + i] == RowsOf(fb, width, height)[row][4 * x + i]
  {
    Offset(row, width, x);
    RowsApart(4 * width, row, height);
    assert RowsOf(fb, width, height)[row] == fb[row * (4 * width)..row * (4 * width) + 4 * width];
  }

  lemma ByteOfData(data: seq<Byte>, w: nat, h: nat, r: nat, i: nat)
    requires |data| == h * (4 * w) && r < h && i < 4 * w
    ensures r * w * 4 + i < |data| && RowOf(data, 4 * w, h, r)[i] == data[r * w * 4 + i]
  {
    DataRow(data, w, h, r);
  }

  // Inside the frame byte i of row r of the rectangle is byte i of row r of the data.
  lemma RawPixelsExactly(fb: seq<Byte>, width: nat, height: nat, x: nat, y: nat, w: nat, h: nat, data: seq<Byte>, r: nat, i: nat)
    requires |fb| == height * (4 * width) && x + w <= width && y + h <= height && |data| == h * (4 * w) && r < h && i < 4 * w
    ensures var o, p, q := RawFlat(fb, width, x, y, w, data, h), Place(y + r, width, x) + i, Place(r, w, 0) + i;
      p < |o| && q < |data| && o[p] == data[q]
  {
    hide RowsOf, RowOf, RawFlat, RawRect;
    var o := RawFlat(fb, width, x, y, w, data, h);
    RawShows(fb, width, height, x, y, w, h, data, h);
    RawRectExactly(RowsOf(fb, width, height), width, height, x, y, w, h, data, h, y + r);
    ByteOfRow(o, width, height, y + r, x, i);
    ByteOfData(data, w, h, r, i);
  }

  // Where the order is right, byte i of row r of the rectangle is what stood at its source.
  lemma CopyPixelsExactly(fb: seq<Byte>, width: nat, height: nat, c: Copy, r: nat, i: nat)
    requires |fb| == height * (4 * width) && c.Inside(width, height) && OrderIsRight(c) && r < c.h && i < 4 * c.w
    ensures var o, p, q := CopyFlat(fb, width, c), Place(c.y + r, width, c.x) + i, Place(c.sy + r, width, c.sx) + i;
      p < |o| && q < |fb| && o[p] == fb[q]
  {
    hide RowsOf, CopyFlat, CopyRect, OrderIsRight;
    var rows, o := RowsOf(fb, width, height), CopyFlat(fb, width, c);
    CopyShows(fb, width, height, c);
    CopyRectExactly(width, height, c);
    assert CopiedAtOnce(rows, width, height, c, RowsOf(o, width, height));
    PastedByte(rows[c.y + r], rows[c.sy + r], width, height, c, i);
    hide Paste, SourcePart;
    assert RowsOf(o, width, height)[c.y + r] == CopiedRow(rows, width, height, c, c.y + r);
    ByteOfRow(o, width, height, c.y + r, c.x, i);
    ByteOfRow(fb, width, height, c.sy + r, c.sx, i);
  }

  /* Outside the frame */

  // Whether a byte belongs to one of the pixels of the rectangle that the frame has.
  ghost predicate InRect(p: nat, width: nat, x: nat, y: nat, w: nat, h: nat) {
    exists r: nat :: y <= r < y + h && Place(r, width, x) <= p < Place(r, width, Min(x + w, width))
  }

  // The buffer keeps its size, and nothing but the rectangle changes.
  ghost predicate OnlyRect(fb: seq<Byte>, o: seq<Byte>, width: nat, x: nat, y: nat, w: nat, h: nat) {
    |o| == |fb| && forall p :: 0 <= p < |fb| && !InRect(p, width, x, y, w, h) ==> o[p] == fb[p]
  }

  predicate Fits(width: nat, height: nat, x: nat, y: nat, w: nat, h: nat) {
    w == 0 || h == 0 || (x + w <= width && y + h <= height)
  }

  // A rectangle that fits writes only into its own slices.
  lemma {:induction false} FitsOutside(fb: seq<Byte>, width: nat, height: nat, x: nat, y: nat, w: nat, h: nat,
                                       data: seq<Byte>, n: nat, p: nat)
    requires |fb| == height * (4 * width) && |data| == h * (4 * w) && n <= h
    requires x + w <= width && y + h <= height
    requires p < |fb| && !InRect(p, width, x, y, w, h)
    ensures var o := RawFlat(fb, width, x, y, w, data, n); |o| == |fb| && o[p] == fb[p]
  {
    hide Place, Cut, Assigned, RowOf, RowsOf, InRect;
    RawShows(fb, width, height, x, y, w, h, data, n);
    if n > 0 {
      FitsOutside(fb, width, height, x, y, w, h, data, n - 1, p);
      RawShows(fb, width, height, x, y, w, h, data, n - 1);
      DataCut(data, w, h, n - 1);
      NotInRow(width, x, y, w, h, n - 1, p);
      RowEnds(width, height, y + n - 1, x, w);
      AssignedElsewhere(RawFlat(fb, width, x, y, w, data, n - 1), Place(y + n - 1, width, x), RowOf(data, 4 * w, h, n - 1), p);
    }
  }

  lemma AssignedElsewhere(fb: seq<Byte>, d: nat, part: seq<Byte>, p: nat)
    requires d + |part| <= |fb| && p < |fb| && (p < d || d + |part| <= p)
    ensures |Assigned(fb, d, |part|, part)| == |fb| && Assigned(fb, d, |part|, part)[p] == fb[p]
  {
  }

  lemma RowEnds(width: nat, height: nat, row: nat, x: nat, w: nat)
    requires row < height && x + w <= width
    ensures Place(row, width, x) + 4 * w <= height * (4 * width)
  {
    Offset(row, width, x);
    RowsApart(4 * width, row, height);
  }

  // What a row of a fitting rectangle writes is in the rectangle.
  lemma NotInRow(width: nat, x: nat, y: nat, w: nat, h: nat, r: nat, p: nat)
    requires x + w <= width && r < h && !InRect(p, width, x, y, w, h)
    ensures p < Place(y + r, width, x) || Place(y + r, width, x) + 4 * w <= p
  {
    Columns(y + r, width, x, w);
    hide Place;
    assert y <= y + r < y + h;
  }

  lemma Columns(row: nat, width: nat, x: nat, w: nat)
    ensures Place(row, width, x + w) == Place(row, width, x) + 4 * w
  {
  }

  // The buffer never shrinks.
  lemma {:induction false} RawGrows(fb: seq<Byte>, width: nat, x: nat, y: nat, w: nat, h: nat, data: seq<Byte>, n: nat)
    requires |data| == h * (4 * w) && n <= h
    ensures |RawFlat(fb, width, x, y, w, data, n)| >= |fb|
  {
    hide Place, RowOf;
    if n > 0 {
      RawGrows(fb, width, x, y, w, h, data, n - 1);
      DataCut(data, w, h, n - 1);
    }
  }

  // The last row written: it reaches its end, and shows the data there.
  lemma LastRow(fb: seq<Byte>, width: nat, x: nat, y: nat, w: nat, h: nat, data: seq<Byte>)
    requires |data| == h * (4 * w) && w > 0 && h > 0 && forall i :: 0 <= i < |data| ==> data[i] == 1
    ensures var o, end := RawFlat(fb, width, x, y, w, data, h), Place(y + h - 1, width, x) + 4 * w;
      (end > |fb| ==> |o| > |fb|) && (end <= |fb| ==> |o| >= |fb| && o[end - 4] == 1)
  {
    hide Place, RowOf;
    RawGrows(fb, width, x, y, w, h, data, h - 1);
    DataCut(data, w, h, h - 1);
    var part := RowOf(data, 4 * w, h, h - 1);
    assert part == Cut(data, Place(h - 1, w, 0), w * 4) && part[4 * w - 4] == 1;
  }

  /**
   Of all buffers of the frame and all data, exactly the rectangle changes if and only if the
   rectangle is empty or lies inside the frame.
   */
  lemma RawExactly(width: nat, height: nat, x: nat, y: nat, w: nat, h: nat)
    ensures Fits(width, height, x, y, w, h) <==>
      forall fb, data :: |fb| == height * (4 * width) && |data| == h * (4 * w) ==>
        OnlyRect(fb, RawFlat(fb, width, x, y, w, data, h), width, x, y, w, h)
  {
    hide RawFlat, InRect;
    if Fits(width, height, x, y, w, h) {
      forall fb, data | |fb| == height * (4 * width) && |data| == h * (4 * w)
        ensures OnlyRect(fb, RawFlat(fb, width, x, y, w, data, h), width, x, y, w, h)
      {
        FitsOnlyRect(fb, width, height, x, y, w, h, data);
      }
    } else {
      var fb: seq<Byte> := seq(height * (4 * width), _ => 0);
      var data: seq<Byte> := seq(h * (4 * w), _ => 1);
      LastRow(fb, width, x, y, w, h, data);
      LastPixelOutside(width, height, x, y, w, h);
    }
  }

  lemma {:induction false} EmptyRows(fb: seq<Byte>, width: nat, x: nat, y: nat, data: seq<Byte>, n: nat)
    ensures RawFlat(fb, width, x, y, 0, data, n) == fb
  {
    hide Place;
    if n > 0 {
      EmptyRows(fb, width, x, y, data, n - 1);
    }
  }

  lemma FitsOnlyRect(fb: seq<Byte>, width: nat, height: nat, x: nat, y: nat, w: nat, h: nat, data: seq<Byte>)
    requires |fb| == height * (4 * width) && |data| == h * (4 * w) && Fits(width, height, x, y, w, h)
    ensures OnlyRect(fb, RawFlat(fb, width, x, y, w, data, h), width, x, y, w, h)
  {
    hide RawFlat, InRect, RowsOf;
    if w == 0 {
      EmptyRows(fb, width, x, y, data, h);
    } else if h == 0 {
      NoRows(fb, width, x, y, w, data);
    } else {
      RawShows(fb, width, height, x, y, w, h, data, h);
      forall p | 0 <= p < |fb| && !InRect(p, width, x, y, w, h)
        ensures RawFlat(fb, width, x, y, w, data, h)[p] == fb[p]
      {
        FitsOutside(fb, width, height, x, y, w, h, data, h, p);
      }
    }
  }

  lemma NoRows(fb: seq<Byte>, width: nat, x: nat, y: nat, w: nat, data: seq<Byte>)
    ensures RawFlat(fb, width, x, y, w, data, 0) == fb
  {
  }

  // Where the rectangle does not fit, its last pixel is none of its own, or lies behind the buffer.
  lemma LastPixelOutside(width: nat, height: nat, x: nat, y: nat, w: nat, h: nat)
    requires !Fits(width, height, x, y, w, h)
    ensures var end := Place(y + h - 1, width, x) + 4 * w;
      end >= 4 && (end <= height * (4 * width) ==> !InRect(end - 4, width, x, y, w, h))
  {
    var last := y + h - 1;
    var end := Place(last, width, x) + 4 * w;
    if InRect(end - 4, width, x, y, w, h) {
      var r: nat :| y <= r < y + h && Place(r, width, x) <= end - 4 < Place(r, width, Min(x + w, width));
      LaterRow(r, last, width);
      if height <= last {
        LaterRow(height, last, width);
      }
    }
  }

  lemma LaterRow(r: nat, s: nat, width: nat)
    requires r <= s
    ensures r * width <= s * width && r * (4 * width) == 4 * (r * width)
  {
  }

  /* When a copy keeps the size of the buffer */

  // How much of a slice there is.
  function CutLength(length: nat, s: nat, n: nat): nat {
    Min(s + n, length) - Min(s, length)
  }

  // The buffer holds both slices whole, or nothing of either.
  predicate BothOrNone(length: nat, s: nat, d: nat, n: nat) {
    n == 0 || s == d || (s + n <= length && d + n <= length) || (length <= s && length <= d)
  }

  predicate RowKeeps(length: nat, width: nat, c: Copy, r: nat) {
    BothOrNone(length, Place(c.sy + r, width, c.sx), Place(c.y + r, width, c.x), c.w * 4)
  }

  lemma RowLength(fb: seq<Byte>, width: nat, c: Copy, r: nat)
    ensures var s, d, n := Place(c.sy + r, width, c.sx), Place(c.y + r, width, c.x), c.w * 4;
      |CopyRowFlat(fb, width, c, r)| == |fb| + CutLength(|fb|, s, n) - CutLength(|fb|, d, n)
  {
    hide Place;
  }

  // A source in front of the target never makes the buffer shrink, one behind it never makes it grow.
  lemma RowChange(fb: seq<Byte>, width: nat, c: Copy, r: nat)
    ensures Place(c.sy + r, width, c.sx) <= Place(c.y + r, width, c.x) ==> |CopyRowFlat(fb, width, c, r)| >= |fb|
    ensures Place(c.sy + r, width, c.sx) >= Place(c.y + r, width, c.x) ==> |CopyRowFlat(fb, width, c, r)| <= |fb|
    ensures |CopyRowFlat(fb, width, c, r)| == |fb| <==> RowKeeps(|fb|, width, c, r)
  {
    RowLength(fb, width, c, r);
    hide Place, CopyRowFlat;
  }

  // Whether the source lies in front of the target is the same in every row.
  predicate InFrontOf(width: nat, c: Copy) {
    Place(c.sy, width, c.sx) <= Place(c.y, width, c.x)
  }

  lemma SameInEveryRow(width: nat, c: Copy, r: nat)
    ensures Place(c.sy + r, width, c.sx) <= Place(c.y + r, width, c.x) <==> InFrontOf(width, c)
  {
    assert (c.sy + r) * width == c.sy * width + r * width && (c.y + r) * width == c.y * width + r * width;
  }

  lemma {:induction false} DownwardsSize(fb: seq<Byte>, width: nat, c: Copy, n: nat)
    ensures var o := DownwardsFlat(fb, width, c, n);
      (if InFrontOf(width, c) then |o| >= |fb| else |o| <= |fb|)
      && (|o| == |fb| <==> forall r :: 0 <= r < n ==> RowKeeps(|fb|, width, c, r))
  {
    hide CopyRowFlat, InFrontOf, RowKeeps;
    if n > 0 {
      DownwardsSize(fb, width, c, n - 1);
      SameInEveryRow(width, c, n - 1);
      RowChange(DownwardsFlat(fb, width, c, n - 1), width, c, n - 1);
    }
  }

  lemma {:induction false} UpwardsSize(fb: seq<Byte>, width: nat, c: Copy, n: nat)
    requires n <= c.h
    ensures var o := UpwardsFlat(fb, width, c, n);
      (if InFrontOf(width, c) then |o| >= |fb| else |o| <= |fb|)
      && (|o| == |fb| <==> forall r :: c.h - n <= r < c.h ==> RowKeeps(|fb|, width, c, r))
  {
    hide CopyRowFlat, InFrontOf, RowKeeps;
    if n > 0 {
      UpwardsSize(fb, width, c, n - 1);
      SameInEveryRow(width, c, c.h - n);
      RowChange(UpwardsFlat(fb, width, c, n - 1), width, c, c.h - n);
    }
  }

  /**
   For any two rectangles and any buffer: the copy keeps the size of the buffer if and only if, row by
   row, the buffer holds source and target whole or nothing of either, unless they are the same or empty.
   */
  lemma CopySizeExactly(fb: seq<Byte>, width: nat, c: Copy)
    ensures |CopyFlat(fb, width, c)| == |fb| <==> forall r :: 0 <= r < c.h ==> RowKeeps(|fb|, width, c, r)
  {
    hide RowKeeps, DownwardsFlat, UpwardsFlat;
    DownwardsSize(fb, width, c, c.h);
    UpwardsSize(fb, width, c, c.h);
  }
}
