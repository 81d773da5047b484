/** Where a rendered glyph lands inside its tile (freetype.hh, `drawTo`).
    The glyph is cut to the tile, placed vertically from the face baseline and
    its bearing, horizontally from its left bearing, and then both offsets are
    pulled back so the glyph ends inside the tile. */
module Placement {
  import opened CInt
  import opened Wrappers
  import Bitmap

  type Byte = x: int | 0 <= x < 256

  /** The glyph slot after a rendering load: bitmap size in pixels, left
      bearing in pixels, top bearing in 26.6 fixed point, and the coverage
      bytes, which may be absent (a null buffer). */
  datatype Glyph = Glyph(
    width: Uint32,
    rows: Uint32,
    bitmapLeft: Int32,
    horiBearingY: int,
    buffer: Option<seq<Byte>>)

  /** The buffer holds at least `rows` rows of `width` bytes. */
  predicate WellFormed(g: Glyph) {
    g.buffer.Some? ==> g.rows * g.width <= |g.buffer.value|
  }

  /** The clipped glyph extent and its offsets inside the tile: `rows` and
      `xoffset` count down the tile, `cols` and `yoffset` across it. */
  datatype Spot = Spot(rows: nat, cols: nat, xoffset: int, yoffset: int)

  /** Vertical offset the glyph asks for: the tile height less baseline and
      top bearing (in whole pixels, truncated toward zero), never negative. */
  function DesiredRowOffset(g: Glyph, pixel: Uint32, baseline: Int32): int {
    Max(I32(pixel - (baseline + TruncDiv(g.horiBearingY, 64))), 0)
  }

  /** Horizontal offset the glyph asks for: its left bearing, never negative. */
  function DesiredColOffset(g: Glyph): int {
    Max(g.bitmapLeft, 0)
  }

  /** The placement `drawTo` computes. The corrections are evaluated in
      `unsigned int` (the extent is unsigned) and converted back to `int`.
      The full-width flag `hw` only feeds a self-assignment. For any tile
      smaller than 2^31 the clipped glyph lies entirely inside the tile. */
  function Place(g: Glyph, pixel: Uint32, baseline: Int32, hw: bool): (p: Spot)
    ensures p.rows == Min(g.rows, pixel) && p.cols == Min(g.width, pixel)
    ensures pixel < TWO_31 ==> 0 <= p.xoffset && p.xoffset + p.rows <= pixel
    ensures pixel < TWO_31 ==> 0 <= p.yoffset && p.yoffset + p.cols <= pixel
  {
    var cols := Min(g.width, pixel);
    var rows := Min(g.rows, pixel);
    var xoffset := DesiredRowOffset(g, pixel, baseline);
    var yoffset := DesiredColOffset(g);
    var yoffset := if !hw then yoffset else yoffset;
    UnsignedRoundTrip(xoffset + rows - pixel);
    UnsignedRoundTrip(yoffset + cols - pixel);
    Spot(rows, cols,
      xoffset - Max(I32(U32(xoffset + rows - pixel)), 0),
      yoffset - Max(I32(U32(yoffset + cols - pixel)), 0))
  }

  /** The pull-back keeps the requested offset when the glyph fits and
      otherwise moves the glyph just far enough to end at the tile edge. */
  lemma PlaceClampsToTile(g: Glyph, pixel: Uint32, baseline: Int32, hw: bool)
    requires pixel < TWO_31
    ensures Place(g, pixel, baseline, hw).xoffset
            == Min(DesiredRowOffset(g, pixel, baseline), pixel - Min(g.rows, pixel))
    ensures Place(g, pixel, baseline, hw).yoffset
            == Min(DesiredColOffset(g), pixel - Min(g.width, pixel))
  {
    var rows := Min(g.rows, pixel);
    var cols := Min(g.width, pixel);
    UnsignedRoundTrip(DesiredRowOffset(g, pixel, baseline) + rows - pixel);
    UnsignedRoundTrip(DesiredColOffset(g) + cols - pixel);
  }

  /** The full-width flag changes nothing about the placement. */
  lemma PlaceIgnoresFullWidth(g: Glyph, pixel: Uint32, baseline: Int32)
    ensures Place(g, pixel, baseline, true) == Place(g, pixel, baseline, false)
  {
  }

  /** Every read `i * width + j` of the copy loop falls inside the first
      `rows * width` bytes of the glyph buffer. */
  lemma SourceReadInBuffer(g: Glyph, pixel: Uint32, baseline: Int32, hw: bool, i: nat, j: nat)
    requires i < Place(g, pixel, baseline, hw).rows && j < Place(g, pixel, baseline, hw).cols
    ensures i * g.width + j < g.rows * g.width
    ensures ReadIndex(g, i, j) < g.rows * g.width
  {
    ReadBelowExtent(g.rows, g.width, i, j);
  }

  /** Row-major offset `i * width + j` of a cell of a `rows x width` block stays below `rows * width`. */
  lemma ReadBelowExtent(rows: nat, width: nat, i: nat, j: nat)
    requires i < rows && j < width
    ensures i * width + j < rows * width
  {
    assert (i + 1) * width == i * width + width;
    MulMonotone(i + 1, rows, width);
  }

  /** The buffer offset `i * width + j` of glyph pixel `(i, j)`, computed in
      32-bit `unsigned` as the copy loop does. It is the exact offset while
      that fits in 32 bits, and it never lies beyond the exact offset. */
  function ReadIndex(g: Glyph, i: nat, j: nat): (k: Uint32)
    requires i < g.rows && j < g.width
    ensures (i * g.width + j - k) % TWO_32 == 0
    ensures k <= i * g.width + j < g.rows * g.width
    ensures i * g.width + j < TWO_32 ==> k == i * g.width + j
  {
    ReadBelowExtent(g.rows, g.width, i, j);
    U32(i * g.width + j)
  }

  /** A glyph more than 2^32 bytes in extent is read wrapped: with width 2^31
      and three rows, pixel (2, 0) is read from offset 0, not 2^32. */
  lemma ReadIndexWraps()
    ensures ReadIndex(Glyph(0x8000_0000, 3, 0, 0, None), 2, 0) == 0
  {
  }

  /** The coverage byte at row `i`, column `j`, read with the bitmap width as
      row stride at the 32-bit offset `ReadIndex`. */
  function Coverage(g: Glyph, i: nat, j: nat): Byte
    requires WellFormed(g) && g.buffer.Some?
    requires i < g.rows && j < g.width
  {
    g.buffer.value[ReadIndex(g, i, j)]
  }

  /** Atlas pixel `(a, b)` is covered by glyph placement `p` drawn into tile `(x, y)`. */
  predicate InGlyph(p: Spot, pixel: nat, x: nat, y: nat, a: int, b: int) {
    && x * pixel + p.xoffset <= a < x * pixel + p.xoffset + p.rows
    && y * pixel + p.yoffset <= b < y * pixel + p.yoffset + p.cols
  }

  /** The copy of glyph pixel `(i, j)` into tile `(x, y)` writes inside that
      tile: its row divides back to `x`, its column to `y`, and for a grid
      tile both lie inside the atlas of side `16 * pixel`. */
  lemma WriteLandsInTile(g: Glyph, pixel: Uint32, baseline: Int32, hw: bool, x: nat, y: nat, i: nat, j: nat)
    requires pixel < TWO_31
    requires i < Place(g, pixel, baseline, hw).rows && j < Place(g, pixel, baseline, hw).cols
    ensures var p := Place(g, pixel, baseline, hw);
            && x * pixel <= x * pixel + i + p.xoffset < x * pixel + pixel
            && y * pixel <= y * pixel + j + p.yoffset < y * pixel + pixel
            && (x * pixel + i + p.xoffset) / pixel == x
            && (y * pixel + j + p.yoffset) / pixel == y
            && (x < 16 ==> x * pixel + i + p.xoffset < 16 * pixel)
            && (y < 16 ==> y * pixel + j + p.yoffset < 16 * pixel)
  {
    var p := Place(g, pixel, baseline, hw);
    Bitmap.InTile(x, pixel, x * pixel + i + p.xoffset);
    Bitmap.InTile(y, pixel, y * pixel + j + p.yoffset);
  }

  /** A pixel covered by a glyph drawn into tile `(x, y)` belongs to that tile. */
  lemma CoveredPixelInTile(g: Glyph, pixel: Uint32, baseline: Int32, hw: bool, x: nat, y: nat, a: int, b: int)
    requires pixel < TWO_31
    ensures InGlyph(Place(g, pixel, baseline, hw), pixel, x, y, a, b) ==> a / pixel == x && b / pixel == y
  {
    var p := Place(g, pixel, baseline, hw);
    if InGlyph(p, pixel, x, y, a, b) {
      WriteLandsInTile(g, pixel, baseline, hw, x, y, a - x * pixel - p.xoffset, b - y * pixel - p.yoffset);
    }
  }
}
