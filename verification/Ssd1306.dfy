/** The monochrome display: a buffer of pages, eight rows of pixels to an octet, lowest row in the
    lowest bit; single pixels, bitmaps, and circles. */
module Ssd1306 {
  import opened Bytes

  const WIDTH: nat := 128
  const HEIGHT: nat := 64
  const BUFFER_SIZE: nat := 1024
  const U32 := 0x1_0000_0000

  datatype Color = Black | White

  // Bits ----------------------------------------------------------------------------------------

  /** `1 << k` and `0x80 >> k`. */
  function LowBit(k: nat): Byte
    requires k < 8
  {
    if k == 0 then 1 else LowBit(k - 1) << 1
  }

  function HighBit(k: nat): Byte
    requires k < 8
  {
    if k == 0 then 0x80 else HighBit(k - 1) >> 1
  }

  lemma LowBitValue(k: nat)
    requires k < 8
    ensures LowBit(k) == [0x01, 0x02, 0x04, 0x08, 0x10, 0x20, 0x40, 0x80][k]
  {
    assert LowBit(1) == 0x02;
    assert LowBit(2) == 0x04;
    assert LowBit(3) == 0x08;
    assert LowBit(4) == 0x10;
    assert LowBit(5) == 0x20;
    assert LowBit(6) == 0x40;
    assert LowBit(7) == 0x80;
  }

  lemma HighBitValue(k: nat)
    requires k < 8
    ensures HighBit(k) == [0x80, 0x40, 0x20, 0x10, 0x08, 0x04, 0x02, 0x01][k]
  {
    assert HighBit(1) == 0x40;
    assert HighBit(2) == 0x20;
    assert HighBit(3) == 0x10;
    assert HighBit(4) == 0x08;
    assert HighBit(5) == 0x04;
    assert HighBit(6) == 0x02;
    assert HighBit(7) == 0x01;
  }

  lemma MasksApart(a: nat, b: nat)
    requires a < 8 && b < 8
    ensures LowBit(a) & LowBit(b) == if a == b then LowBit(a) else 0
    ensures LowBit(a) != 0
  {
    LowBitValue(a);
    LowBitValue(b);
  }

  function Colored(b: Byte, mask: Byte, color: Color): Byte {
    if color == White then b | mask else b & !mask
  }

  lemma ColoredBits(b: Byte, mask: Byte, other: Byte, color: Color)
    requires mask != 0 && (mask == other || mask & other == 0)
    ensures Colored(b, mask, color) & other != 0 <==> if mask == other then color == White else b & other != 0
  {
  }

  lemma ColoredRow(b: Byte, y: nat, y': nat, color: Color)
    requires y < 8 && y' < 8
    ensures Colored(b, LowBit(y), color) & LowBit(y') != 0 <==> if y == y' then color == White else b & LowBit(y') != 0
  {
    hide LowBit, Colored;
    MasksApart(y, y');
    MasksApart(y', y);
    ColoredBits(b, LowBit(y), LowBit(y'), color);
  }

  // Pixels --------------------------------------------------------------------------------------

  function Index(x: nat, y: nat): (i: nat)
    requires x < WIDTH && y < HEIGHT
    ensures i < BUFFER_SIZE
  {
    x + y / 8 * WIDTH
  }

  /** Is pixel (x, y) lit? */
  predicate Lit(buffer: seq<Byte>, x: nat, y: nat)
    requires |buffer| == BUFFER_SIZE && x < WIDTH && y < HEIGHT
  {
    buffer[Index(x, y)] & LowBit(y % 8) != 0
  }

  /** Eight rows share a page of 128 octets; in an octet the lowest bit is the uppermost row. */
  lemma LitExactly(buffer: seq<Byte>, x: nat, y: nat)
    requires |buffer| == 1024 && x < 128 && y < 64
    ensures Lit(buffer, x, y) <==>
      buffer[128 * (y / 8) + x] & [0x01, 0x02, 0x04, 0x08, 0x10, 0x20, 0x40, 0x80][y % 8] != 0
  {
    hide LowBit;
    LowBitValue(y % 8);
  }

  lemma IndexApart(x: nat, y: nat, x': nat, y': nat)
    requires x < WIDTH && y < HEIGHT && x' < WIDTH && y' < HEIGHT
    ensures Index(x, y) == Index(x', y') && y % 8 == y' % 8 <==> x == x' && y == y'
  {
  }

  /** A pixel is painted: it has its color, and no other pixel has changed. */
  ghost predicate Painted(before: seq<Byte>, x: nat, y: nat, color: Color, after: seq<Byte>) {
    && |before| == |after| == BUFFER_SIZE
    && forall x', y' :: 0 <= x' < WIDTH && 0 <= y' < HEIGHT ==>
         Lit(after, x', y') == if x' == x && y' == y then color.White? else Lit(before, x', y')
  }

  function Repainted(before: seq<Byte>, x: nat, y: nat, color: Color): (after: seq<Byte>)
    requires |before| == BUFFER_SIZE && x < WIDTH && y < HEIGHT
    ensures |after| == BUFFER_SIZE
  {
    before[Index(x, y) := Colored(before[Index(x, y)], LowBit(y % 8), color)]
  }

  lemma PaintAt(before: seq<Byte>, x: nat, y: nat, color: Color, x': nat, y': nat)
    requires |before| == BUFFER_SIZE && x < WIDTH && y < HEIGHT && x' < WIDTH && y' < HEIGHT
    ensures Lit(Repainted(before, x, y, color), x', y')
            == if x' == x && y' == y then color.White? else Lit(before, x', y')
  {
    hide LowBit, Index, Colored;
    IndexApart(x, y, x', y');
    if Index(x, y) == Index(x', y') {
      ColoredRow(before[Index(x, y)], y % 8, y' % 8, color);
    }
  }

  lemma PaintOne(before: seq<Byte>, x: nat, y: nat, color: Color)
    requires |before| == BUFFER_SIZE && x < WIDTH && y < HEIGHT
    ensures Painted(before, x, y, color, Repainted(before, x, y, color))
  {
    hide Lit, Repainted;
    forall x', y' | 0 <= x' < WIDTH && 0 <= y' < HEIGHT
      ensures Lit(Repainted(before, x, y, color), x', y')
              == if x' == x && y' == y then color.White? else Lit(before, x', y')
    {
      PaintAt(before, x, y, color, x', y');
    }
  }

  class Display {
    const buffer: array<Byte>

    predicate Ok() {
      buffer.Length == BUFFER_SIZE
    }

    constructor ()
      ensures Ok() && fresh(buffer)
    {
      buffer := new Byte[BUFFER_SIZE](_ => 0);
    }

    /** Exactly one pixel changes; off the screen, none does. */
    method DrawPixel(x: nat, y: nat, color: Color)
      requires Ok()
      modifies buffer
      ensures if x < WIDTH && y < HEIGHT then Painted(old(buffer[..]), x, y, color, buffer[..])
              else buffer[..] == old(buffer[..])
      ensures forall x', y' :: 0 <= x' < 128 && 0 <= y' < 64 ==>
                Lit(buffer[..], x', y') == if x' == x && y' == y then color.White? else Lit(old(buffer[..]), x', y')
    {
      if x >= WIDTH || y >= HEIGHT {
        return;
      }
      hide Colored, LowBit, Lit;
      PaintOne(buffer[..], x, y, color);
      var i := x + y / 8 * WIDTH;
      buffer[i] := Colored(buffer[i], LowBit(y % 8), color);
    }

    method DrawBit(bitmap: seq<Byte>, x: nat, y: nat)
      requires Ok() && x < WIDTH && y < Rows(|bitmap|)
      modifies buffer
      ensures Painted(old(buffer[..]), x, y, if SourceBit(bitmap, x, y) then White else Black, buffer[..])
    {
      hide Painted, HighBit;
      SourceIndex(bitmap, x, y);
      var byte := bitmap[y * WIDTH / 8 + x / 8];
      var bit := byte & HighBit(x % 8);
      DrawPixel(x, y, if bit != 0 then White else Black);
    }

    /** Rows of the source run left to right, most significant bit first. */
    method DrawBitmap(bitmap: seq<Byte>)
      requires Ok() && |bitmap| < U32
      modifies buffer
      ensures forall x, y :: 0 <= x < 128 && 0 <= y < 64 ==>
                Lit(buffer[..], x, y) ==
                  if y < Rows(|bitmap|) then SourceBit(bitmap, x, y) else Lit(old(buffer[..]), x, y)
    {
      hide Lit, SourceBit, Painted;
      ghost var before := buffer[..];
      var rows: nat := |bitmap| * 8 % U32 / WIDTH % 256;
      if rows > HEIGHT {
        rows := HEIGHT;
      }
      assert rows == Rows(|bitmap|);
      for y := 0 to rows
        invariant BlittedUpTo(before, bitmap, 0, y, buffer[..])
      {
        for x := 0 to WIDTH
          invariant BlittedUpTo(before, bitmap, x, y, buffer[..])
        {
          ghost var middle := buffer[..];
          DrawBit(bitmap, x, y);
          BlitOne(before, bitmap, x, y, middle, buffer[..]);
        }
      }
    }
  }

  // Bitmaps -------------------------------------------------------------------------------------

  /** How many rows a bitmap of `size` octets covers, in 32-bit arithmetic and an 8-bit row counter. */
  function Rows(size: nat): (r: nat)
    ensures r <= HEIGHT && r * 16 <= size
  {
    var rows := size * 8 % U32 / WIDTH % 256;
    if rows > HEIGHT then HEIGHT else rows
  }

  lemma SourceIndex(bitmap: seq<Byte>, x: nat, y: nat)
    requires x < WIDTH && y < Rows(|bitmap|)
    ensures y * WIDTH / 8 + x / 8 == y * 16 + x / 8 < |bitmap|
  {
  }

  predicate SourceBit(bitmap: seq<Byte>, x: nat, y: nat)
    requires x < WIDTH && y < Rows(|bitmap|)
  {
    bitmap[y * 16 + x / 8] & HighBit(x % 8) != 0
  }

  /** Sixteen octets to a row of the source, the highest bit of an octet leftmost. */
  lemma SourceBitExactly(bitmap: seq<Byte>, x: nat, y: nat)
    requires x < 128 && y < Rows(|bitmap|)
    ensures SourceBit(bitmap, x, y) <==>
      bitmap[16 * y + x / 8] & [0x80, 0x40, 0x20, 0x10, 0x08, 0x04, 0x02, 0x01][x % 8] != 0
  {
    hide HighBit;
    HighBitValue(x % 8);
  }

  /** The rows of a bitmap are counted in eight bits, its pixels in 32: one of 256 rows has none. */
  lemma RowsExactly(size: nat)
    ensures var rows := size % 0x2000_0000 / 16 % 256;
      Rows(size) == if rows > 64 then 64 else rows
  {
    var q, m := size / 0x2000_0000, size % 0x2000_0000;
    assert size * 8 == m * 8 + q * 0x1_0000_0000;
    assert size * 8 % 0x1_0000_0000 == m * 8;
    assert m * 8 / 128 == m / 16;
  }

  /** The bitmap is shown up to `cx` pixels into row `cy`, and everything else is as before. */
  ghost predicate BlittedUpTo(before: seq<Byte>, bitmap: seq<Byte>, cx: nat, cy: nat, after: seq<Byte>) {
    && |before| == |after| == BUFFER_SIZE && cx <= WIDTH && cy <= Rows(|bitmap|)
    && (cx > 0 ==> cy < Rows(|bitmap|))
    && forall x, y :: 0 <= x < WIDTH && 0 <= y < HEIGHT ==>
         Lit(after, x, y) == if y < cy || (y == cy && x < cx) then SourceBit(bitmap, x, y) else Lit(before, x, y)
  }

  lemma BlitOne(before: seq<Byte>, bitmap: seq<Byte>, x: nat, y: nat, middle: seq<Byte>, after: seq<Byte>)
    requires x < WIDTH && y < Rows(|bitmap|) && BlittedUpTo(before, bitmap, x, y, middle)
    requires Painted(middle, x, y, if SourceBit(bitmap, x, y) then White else Black, after)
    ensures BlittedUpTo(before, bitmap, x + 1, y, after)
  {
    hide Lit, SourceBit;
  }
}
