/** The renderer side of the generator (freetype.hh): the face baseline, the
    colour converter, the full-width range set, copying one glyph into its
    tile (`drawTo`) and drawing the 256 glyphs of one page (`genStart`).
    Loading the font and rendering a glyph are done by the font library; here
    the rendered glyph of each code point is an input, `render`. */
module FreeType {
  import opened CInt
  import opened RangeMap
  import opened Placement
  import Bitmap

  /** The face fields the baseline is computed from: the descender (a
      signed 16-bit font-unit value, negative below the baseline) and the
      units per EM (unsigned 16-bit). */
  datatype Face = Face(descender: int, unitsPerEm: nat)

  predicate ValidFace(face: Face) {
    -0x8000 <= face.descender < 0x8000 && 0 < face.unitsPerEm < 0x1_0000
  }

  /** Pixels below the baseline at the chosen font size:
      `abs(descender) * fontsize / units_per_EM`, evaluated in `unsigned int`
      and stored in an `int`. While the product fits in `int` this is the
      floor of the scaled descender, and it never exceeds the font size when
      the descender is at most one EM deep. */
  function Baseline(face: Face, fontSize: Uint32): (b: Int32)
    requires ValidFace(face)
    ensures var depth := Abs(face.descender) * fontSize;
            depth < TWO_31 ==> 0 <= b && b * face.unitsPerEm <= depth < b * face.unitsPerEm + face.unitsPerEm
    ensures Abs(face.descender) * fontSize < TWO_31 && Abs(face.descender) <= face.unitsPerEm ==> b <= fontSize
  {
    ScaledFloor(Abs(face.descender), fontSize, face.unitsPerEm);
    I32(U32(Abs(face.descender) * fontSize) / face.unitsPerEm)
  }

  /** The arithmetic behind `Baseline`: while `k * v` fits in `int`, the
      unsigned quotient read back as `int` is the floor of `k * v / d`, and it
      is at most `v` when `k <= d`. */
  lemma ScaledFloor(k: nat, v: nat, d: nat)
    requires 0 < d
    ensures var q := I32(U32(k * v) / d);
            k * v < TWO_31 ==> 0 <= q && q * d <= k * v < q * d + d && (k <= d ==> q <= v)
  {
    var n := k * v;
    if n < TWO_31 {
      MulMonotone(0, k, v);
      assert U32(n) == n;
      FloorQuotient(n, d);
      MulMonotone(1, d, n / d);
      assert 0 <= n / d <= n;
      assert I32(n / d) == n / d;
      ScaledQuotientAtMost(k, v, d);
    }
  }

  /** Opaque white-based ARGB: alpha 0xFF and the coverage byte in each of
      the red, green and blue channels. The sum never wraps. */
  function SimpleColorConverter(c: Byte): (argb: Uint32)
    ensures argb / 0x100_0000 == 0xFF
    ensures (argb / 0x1_0000) % 0x100 == c
    ensures (argb / 0x100) % 0x100 == c
    ensures argb % 0x100 == c
  {
    var v := 0xFF00_0000 + c * 0x1_0000 + c * 0x100 + c;
    DivModUnique(v, 0x100_0000, 0xFF, c * 0x1_0000 + c * 0x100 + c);
    DivModUnique(v, 0x1_0000, 0xFF00 + c, c * 0x100 + c);
    DivModUnique(0xFF00 + c, 0x100, 0xFF, c);
    DivModUnique(v, 0x100, 0xFF_0000 + c * 0x100 + c, c);
    DivModUnique(0xFF_0000 + c * 0x100 + c, 0x100, 0xFF00 + c, c);
    v
  }

  /** The full-width ranges, in the set's order. */
  const FullWidthRanges: seq<Range> :=
    [MakeRange(0x3000, 0x30FF), MakeRange(0x4e00, 0x9faf), MakeRange(0xff00, 0xffef)]

  /** The three ranges are ordered and apart, so building the set from them
      keeps all three in the order given. */
  lemma FullWidthRangesSorted()
    ensures Sorted(FullWidthRanges)
  {
  }

  /** A code point is flagged full-width exactly when it lies in one of the
      CJK symbols and kana block, the unified ideographs up to U+9FAF, or the
      halfwidth and fullwidth forms up to U+FFEF. */
  function IsFullWidth(c: int): (b: bool)
    ensures b <==> (0x3000 <= c <= 0x30FF || 0x4E00 <= c <= 0x9FAF || 0xFF00 <= c <= 0xFFEF)
  {
    FullWidthRangesSorted();
    assert FullWidthRanges[0] == Range(0x3000, 0x30FF);
    assert FullWidthRanges[1] == Range(0x4e00, 0x9faf);
    assert FullWidthRanges[2] == Range(0xff00, 0xffef);
    Contains(FullWidthRanges, c)
  }

  /** The value of atlas pixel `(a, b)` after glyph `g` is drawn into tile
      `(x, y)` over a pixel holding `under`: the converted coverage byte where
      the placed glyph covers it, `under` everywhere else and everywhere when
      the glyph has no buffer. */
  function DrawnPixel<P>(under: P, g: Glyph, pixel: Uint32, baseline: Int32, conv: Byte -> P,
                         x: nat, y: nat, a: int, b: int): P
    requires pixel < TWO_31 && WellFormed(g)
  {
    var p := Place(g, pixel, baseline, false);
    if g.buffer.Some? && InGlyph(p, pixel, x, y, a, b) then
      conv(Coverage(g, a - x * pixel - p.xoffset, b - y * pixel - p.yoffset))
    else
      under
  }

  /** Copies glyph `g` into tile `(x, y)` of an atlas of side `16 * pixel`.
      A glyph without buffer leaves the atlas as it was; otherwise exactly the
      pixels the placed glyph covers receive converted coverage and every
      other pixel is unchanged. The result does not depend on `hw`. */
  method DrawTo<P>(img: seq<seq<P>>, g: Glyph, pixel: Uint32, baseline: Int32,
                   x: nat, y: nat, hw: bool, conv: Byte -> P) returns (out: seq<seq<P>>)
    requires 16 * pixel < TWO_32 && Bitmap.IsSquare(img, 16 * pixel)
    requires x < 16 && y < 16
    requires WellFormed(g)
    ensures Bitmap.IsSquare(out, 16 * pixel)
    ensures g.buffer.None? ==> out == img
    ensures forall a, b :: 0 <= a < 16 * pixel && 0 <= b < 16 * pixel ==>
              out[a][b] == DrawnPixel(img[a][b], g, pixel, baseline, conv, x, y, a, b)
  {
    if g.buffer.None? {
      return img;
    }
    var p := Place(g, pixel, baseline, hw);
    PlaceIgnoresFullWidth(g, pixel, baseline);
    Bitmap.TileInsideAtlas(x, pixel);
    Bitmap.TileInsideAtlas(y, pixel);
    MulMonotone(0, x, pixel);
    MulMonotone(0, y, pixel);
    out := CopyGlyph(img, 16 * pixel, g, x * pixel + p.xoffset, y * pixel + p.yoffset, p.rows, p.cols, conv);
  }

  /** The copy loop of `drawTo`: glyph pixel `(i, j)` for `i < rows`,
      `j < cols` goes to atlas pixel `(r0 + i, c0 + j)`, where `(r0, c0)` is
      the tile origin plus the offsets. Inside that rectangle the atlas
      receives the converted coverage; outside it nothing changes. */
  method CopyGlyph<P>(img: seq<seq<P>>, n: nat, g: Glyph, r0: nat, c0: nat, rows: nat, cols: nat,
                      conv: Byte -> P) returns (out: seq<seq<P>>)
    requires Bitmap.IsSquare(img, n)
    requires WellFormed(g) && g.buffer.Some?
    requires rows <= g.rows && cols <= g.width
    requires r0 + rows <= n && c0 + cols <= n
    ensures Bitmap.IsSquare(out, n)
    ensures forall a, b :: 0 <= a < n && 0 <= b < n ==>
              out[a][b] == if r0 <= a < r0 + rows && c0 <= b < c0 + cols
                           then conv(Coverage(g, a - r0, b - c0)) else img[a][b]
  {
    out := img;
    var i := 0;
    while i < rows
      invariant 0 <= i <= rows
      invariant Bitmap.IsSquare(out, n)
      invariant forall a, b :: 0 <= a < n && 0 <= b < n ==>
                  out[a][b] == if r0 <= a < r0 + i && c0 <= b < c0 + cols
                               then conv(Coverage(g, a - r0, b - c0)) else img[a][b]
    {
      var j := 0;
      while j < cols
        invariant 0 <= j <= cols
        invariant Bitmap.IsSquare(out, n)
        invariant forall a, b :: 0 <= a < n && 0 <= b < n ==>
                    out[a][b] == if (r0 <= a < r0 + i && c0 <= b < c0 + cols) || (a == r0 + i && c0 <= b < c0 + j)
                                 then conv(Coverage(g, a - r0, b - c0)) else img[a][b]
      {
        out := Bitmap.SetPixel(out, n, r0 + i, c0 + j, conv(Coverage(g, i, j)));
        j := j + 1;
      }
      i := i + 1;
    }
  }

  /** Code point drawn into tile `(i, j)` of page `from`. */
  function PageCodePoint(from: nat, i: nat, j: nat): nat {
    from * 256 + i * 16 + j
  }

  /** The tile position of a code point can be read back from it: the page is
      its high byte, the tile row its second hex digit, the column its last. */
  lemma PageCodePointRoundTrip(from: nat, i: nat, j: nat)
    requires i < 16 && j < 16
    ensures var ch := PageCodePoint(from, i, j);
            ch / 256 == from && (ch % 256) / 16 == i && ch % 16 == j
  {
    var ch := PageCodePoint(from, i, j);
    DivModUnique(ch, 256, from, i * 16 + j);
    DivModUnique(i * 16 + j, 16, i, j);
    DivModUnique(ch, 16, from * 16 + i, j);
  }

  /** Every code point of page `from` is drawn in tile `((ch % 256) / 16, ch % 16)`. */
  lemma PageCodePointOnto(from: nat, ch: int)
    requires from * 256 <= ch < from * 256 + 256
    ensures (ch % 256) / 16 < 16
    ensures PageCodePoint(from, (ch % 256) / 16, ch % 16) == ch
  {
    DivModUnique(ch, 256, from, ch - from * 256);
    var low := ch % 256;
    assert low == (low / 16) * 16 + low % 16;
    DivModUnique(ch, 16, from * 16 + low / 16, low % 16);
  }

  /** Position of the tile holding atlas pixel `(a, b)` in drawing order. */
  function TileNumber(pixel: nat, a: nat, b: nat): nat
    requires 0 < pixel
  {
    (a / pixel) * 16 + b / pixel
  }

  /** Atlas pixel `(a, b)` of page `from` drawn over a pixel holding `under`:
      only the glyph of the tile containing the pixel can cover it. */
  function PagePixel<P>(under: P, from: nat, render: nat -> Glyph, pixel: Uint32, baseline: Int32,
                        conv: Byte -> P, a: nat, b: nat): P
    requires 16 * pixel < TWO_32 && a < 16 * pixel
    requires WellFormed(render(PageCodePoint(from, a / pixel, b / pixel)))
  {
    DrawnPixel(under, render(PageCodePoint(from, a / pixel, b / pixel)), pixel, baseline, conv,
               a / pixel, b / pixel, a, b)
  }

  /** Draws the 256 code points of page `from` row by row into the atlas,
      each into its own tile with its full-width flag. Returns the code points
      in the order drawn (each of the page exactly once, ascending) and an
      atlas in which every pixel shows the glyph of its own tile over the
      original pixel. */
  method GenStart<P>(img: seq<seq<P>>, from: nat, render: nat -> Glyph, pixel: Uint32, baseline: Int32,
                     conv: Byte -> P) returns (out: seq<seq<P>>, drawn: seq<nat>)
    requires 16 * pixel < TWO_32 && Bitmap.IsSquare(img, 16 * pixel)
    requires forall c :: WellFormed(render(c))
    ensures |drawn| == 256 && forall k :: 0 <= k < 256 ==> drawn[k] == from * 256 + k
    ensures Bitmap.IsSquare(out, 16 * pixel)
    ensures forall a, b :: 0 <= a < 16 * pixel && 0 <= b < 16 * pixel ==>
              out[a][b] == PagePixel(img[a][b], from, render, pixel, baseline, conv, a, b)
  {
    var n := 16 * pixel;
    out := img;
    drawn := [];
    var i := 0;
    while i < 16
      invariant 0 <= i <= 16
      invariant |drawn| == i * 16 && forall k :: 0 <= k < |drawn| ==> drawn[k] == from * 256 + k
      invariant Bitmap.IsSquare(out, n)
      invariant forall a, b :: 0 <= a < n && 0 <= b < n ==>
                  out[a][b] == if TileNumber(pixel, a, b) < i * 16
                               then PagePixel(img[a][b], from, render, pixel, baseline, conv, a, b)
                               else img[a][b]
    {
      var j := 0;
      while j < 16
        invariant 0 <= j <= 16
        invariant |drawn| == i * 16 + j && forall k :: 0 <= k < |drawn| ==> drawn[k] == from * 256 + k
        invariant Bitmap.IsSquare(out, n)
        invariant forall a, b :: 0 <= a < n && 0 <= b < n ==>
                    out[a][b] == if TileNumber(pixel, a, b) < i * 16 + j
                                 then PagePixel(img[a][b], from, render, pixel, baseline, conv, a, b)
                                 else img[a][b]
      {
        var ch := from * 256 + i * 16 + j;
        var g := render(ch);
        var next := DrawTo(out, g, pixel, baseline, i, j, IsFullWidth(ch), conv);
        forall a, b | 0 <= a < n && 0 <= b < n
          ensures next[a][b] == if TileNumber(pixel, a, b) < i * 16 + j + 1
                                then PagePixel(img[a][b], from, render, pixel, baseline, conv, a, b)
                                else img[a][b]
        {
          DrawStep(out[a][b], img[a][b], next[a][b], from, render, pixel, baseline, conv, i, j, a, b);
        }
        out := next;
        drawn := drawn + [ch];
        j := j + 1;
      }
      i := i + 1;
    }
    forall a, b | 0 <= a < n && 0 <= b < n
      ensures TileNumber(pixel, a, b) < 256
    {
      Bitmap.TileOfCoordinate(pixel, a);
      Bitmap.TileOfCoordinate(pixel, b);
    }
  }

  /** One glyph of the page drawn, seen from a single atlas pixel `(a, b)`:
      if the pixel showed its final value for every tile before `(i, j)` in
      drawing order, it does so for every tile up to and including `(i, j)`.
      Drawing tile `(i, j)` only changes pixels of that tile. */
  lemma DrawStep<P>(before: P, orig: P, after: P, from: nat, render: nat -> Glyph, pixel: Uint32,
                    baseline: Int32, conv: Byte -> P, i: nat, j: nat, a: nat, b: nat)
    requires 16 * pixel < TWO_32 && a < 16 * pixel && b < 16 * pixel
    requires i < 16 && j < 16
    requires forall c :: WellFormed(render(c))
    requires before == if TileNumber(pixel, a, b) < i * 16 + j
                       then PagePixel(orig, from, render, pixel, baseline, conv, a, b) else orig
    requires after == DrawnPixel(before, render(PageCodePoint(from, i, j)), pixel, baseline, conv, i, j, a, b)
    ensures after == if TileNumber(pixel, a, b) < i * 16 + j + 1
                     then PagePixel(orig, from, render, pixel, baseline, conv, a, b) else orig
  {
    var g := render(PageCodePoint(from, i, j));
    TileNumberMatch(pixel, a, b, i, j);
    CoveredPixelInTile(g, pixel, baseline, false, i, j, a, b);
    if TileNumber(pixel, a, b) == i * 16 + j {
      assert before == orig;
      assert PagePixel(orig, from, render, pixel, baseline, conv, a, b)
             == DrawnPixel(orig, g, pixel, baseline, conv, i, j, a, b);
    } else {
      assert after == before;
    }
  }

  /** Pixel `(a, b)` is in tile number `i * 16 + j` exactly when it is in tile `(i, j)`. */
  lemma TileNumberMatch(pixel: nat, a: nat, b: nat, i: nat, j: nat)
    requires a < 16 * pixel && b < 16 * pixel && i < 16 && j < 16
    ensures TileNumber(pixel, a, b) == i * 16 + j <==> a / pixel == i && b / pixel == j
  {
    Bitmap.TileOfCoordinate(pixel, a);
    Bitmap.TileOfCoordinate(pixel, b);
  }
}
