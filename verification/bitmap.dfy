/** Pixel storage of an atlas. The default `Bitmap` keeps a square of
    `width * width` cells in one array and addresses row `r` at offset
    `r * width` (freetype.hh); the image type the generator uses is indexed as
    `image[row][col]`. Both are modelled here, together with the arithmetic
    that places a tile of the 16 x 16 grid inside the atlas. */
module Bitmap {
  import opened CInt

  /** An image of `n` rows of `n` pixels each. */
  predicate IsSquare<P>(img: seq<seq<P>>, n: nat) {
    |img| == n && forall r :: 0 <= r < n ==> |img[r]| == n
  }

  /** The image with pixel `(r, c)` replaced by `v` and every other pixel kept. */
  function SetPixel<P>(img: seq<seq<P>>, n: nat, r: nat, c: nat, v: P): (out: seq<seq<P>>)
    requires IsSquare(img, n) && r < n && c < n
    ensures IsSquare(out, n)
    ensures forall a, b :: 0 <= a < n && 0 <= b < n ==>
              out[a][b] == if a == r && b == c then v else img[a][b]
  {
    img[r := img[r][c := v]]
  }

  /** The number of cells `new unsigned[width * width]` allocates: the
      product is taken in 32-bit `unsigned`, so it is the true square only
      below width 2^16 and wraps to no cells at all at width 2^16. */
  function CellCount(width: Uint32): (n: Uint32)
    ensures (n - width * width) % TWO_32 == 0
    ensures width < 0x1_0000 ==> n == width * width
    ensures width == 0x1_0000 ==> n == 0
  {
    MulMonotone(width, 0xFFFF, width);
    MulMonotone(width, 0xFFFF, 0xFFFF);
    U32(width * width)
  }

  /** The array offset of cell `(row, col)` in a `width * width` Bitmap:
      the row offset `row * width` and the sum `offset + col` are both taken
      in 32-bit `unsigned`. Up to width 2^16 nothing wraps, so dividing the
      offset by `width` gives back row and column; below width 2^16 the
      offset also lies inside the allocated cells. */
  function CellIndex(width: Uint32, row: nat, col: nat): (k: Uint32)
    requires row < width && col < width
    ensures (row * width + col - k) % TWO_32 == 0
    ensures width <= 0x1_0000 ==> k == row * width + col && k / width == row && k % width == col
    ensures width < 0x1_0000 ==> k < CellCount(width)
  {
    WrappedOffset(width, row, col);
    DivModUnique(row * width + col, width, row, col);
    U32(U32(row * width) + col)
  }

  /** The 32-bit offset of cell `(row, col)` is the exact one reduced modulo
      2^32, and equals it up to width 2^16. */
  lemma WrappedOffset(width: nat, row: nat, col: nat)
    requires row < width && col < width
    ensures (row * width + col - U32(U32(row * width) + col)) % TWO_32 == 0
    ensures width <= 0x1_0000 ==> U32(U32(row * width) + col) == row * width + col < width * width <= TWO_32
  {
    assert (row * width + col - U32(U32(row * width) + col)) % TWO_32 == 0 by {
      U32AddExact(row * width, col);
    }
    if width <= 0x1_0000 {
      assert row * width + col < width * width <= TWO_32 by {
        CellOffsetBounds(width, row, col);
      }
      U32AddExact(row * width, col);
    }
  }

  /** Row-major offset bounds behind `CellIndex`. */
  lemma CellOffsetBounds(width: nat, row: nat, col: nat)
    requires row < width && col < width
    ensures row * width <= row * width + col < (row + 1) * width <= width * width
    ensures width <= 0x1_0000 ==> width * width <= TWO_32
  {
    MulMonotone(row + 1, width, width);
    MulMonotone(width, 0x1_0000, width);
    MulMonotone(width, 0x1_0000, 0x1_0000);
  }

  /** Up to width 2^16 distinct cells of a Bitmap never share storage. */
  lemma CellIndexInjective(width: Uint32, r1: nat, c1: nat, r2: nat, c2: nat)
    requires r1 < width && c1 < width && r2 < width && c2 < width
    requires (r1, c1) != (r2, c2)
    ensures width <= 0x1_0000 ==> CellIndex(width, r1, c1) != CellIndex(width, r2, c2)
  {
  }

  /** Above width 2^16 the 32-bit row offset wraps and two cells share storage:
      at width 65537, cell (0, 65536) and cell (65536, 0) both sit at offset 65536. */
  lemma CellIndexWrapsAboveSixteenBits()
    ensures CellIndex(0x1_0001, 0, 0x1_0000) == CellIndex(0x1_0001, 0x1_0000, 0) == 0x1_0000
  {
  }

  /** A coordinate inside tile `t` of a grid with tiles of side `pixel`
      divides back to `t`, and lies in the atlas of side `16 * pixel` when
      `t < 16`. */
  lemma InTile(t: nat, pixel: nat, a: int)
    requires t * pixel <= a < t * pixel + pixel
    ensures a / pixel == t
    ensures t < 16 ==> a < 16 * pixel
  {
    DivModUnique(a, pixel, t, a - t * pixel);
    if t < 16 {
      assert t * pixel + pixel == (t + 1) * pixel <= 16 * pixel;
    }
  }

  /** Tile `t` of the grid ends inside the atlas of side `16 * pixel`. */
  lemma TileInsideAtlas(t: nat, pixel: nat)
    requires t < 16
    ensures t * pixel + pixel <= 16 * pixel
  {
    assert (t + 1) * pixel == t * pixel + pixel;
    MulMonotone(t + 1, 16, pixel);
  }

  /** Every coordinate of an atlas of side `16 * pixel` belongs to one of the 16 tiles. */
  lemma TileOfCoordinate(pixel: nat, a: int)
    requires 0 <= a < 16 * pixel
    ensures 0 <= a / pixel < 16
    ensures (a / pixel) * pixel <= a < (a / pixel) * pixel + pixel
  {
    assert a == (a / pixel) * pixel + a % pixel;
    MulMonotone(16, a / pixel, pixel);
  }
}
