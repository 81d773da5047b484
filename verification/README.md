# Minecraft unicode font generator: verified model of the glyph placer and page driver

The generator renders every code point from U+0000 to U+FFFF with FreeType. It produces 256 atlas images,
`unicode_page_00.png` … `unicode_page_ff.png`. Each image is a 16 × 16 grid of square tiles of side `pixel`
(the *unit size*, `base_size`). This project models in Dafny the integer logic around the font library:

- **Glyph placement and copy** (`drawTo`). The rendered glyph is cut to the tile. The face baseline lies
  `baseline` rows above the tile's bottom edge, and the glyph's top row sits its top bearing above that
  baseline. Horizontally the glyph starts at its left bearing. Both offsets are then pulled back so the glyph
  ends inside the tile. Its coverage bytes go through a colour converter into the atlas.
- **Page drawing** (`genStart`). The 256 code points `page*256 + i*16 + j` are drawn into tile `(i, j)`.
  Each carries a full-width flag looked up in a set of ranges.
- **The range set** (`range_map.hh`). This is an ordered set of closed ranges. Its comparator treats
  overlapping ranges as equivalent, so looking up `[c, c]` finds the range that holds `c`.
- **The process driver** (`proc`, `main`). The 256 pages are split into `thread + 1` chunks. The parent forks
  `thread` children and each process renders its chunk. For each page it clears the atlas, draws the page and
  names the file with a two-digit lower-case hex id. Before any of this, a tile smaller than the font size
  rejects the run.

Modules follow the program: `CInt` (the C++ integer rules the code relies on), `RangeMap`, `Bitmap` (atlas
storage), `Placement` and `FreeType` (freetype.hh), `Partition` and `Generator` (main.cpp). Images are values
(`seq<seq<P>>`, indexed `[row][col]` like the image types of the program). The methods that fill them take an
atlas and return the new one.

Four facts about the code that shape the model:

- The chunk length is `0xFF / (thread + 1)`. The last process's chunk runs to page 0xFF, so it also takes
  the pages the other chunks leave over.
- The glyph buffer is read with the bitmap width as row stride. Every byte is taken as an 8-bit grey
  coverage value.
- The full-width flag `drawTo` receives only feeds a self-assignment, so it changes nothing.
- Page ids are formatted with `%02x`, two lower-case hex digits.

## Model

| member | source | states |
|---|---|---|
| CInt.TruncDiv | freetype.hh:122 | `horiBearingY / 64` rounds toward zero: the quotient times the divisor lies between zero and the dividend, within one divisor of it, for negative bearings as well |
| CInt.U32 | freetype.hh:125-126 | arithmetic in `unsigned int` gives the value congruent to the exact result modulo 2^32, in `[0, 2^32)` |
| CInt.I32 | freetype.hh:122 | converting to `int` gives the value congruent modulo 2^32 in the `int` range, and keeps every value already in that range |
| CInt.UnsignedRoundTrip | freetype.hh:125-126 | an `int` expression evaluated in `unsigned int` and converted back through `max<int>` keeps its value whenever it fits in `int` |
| RangeMap.MakeRange | range_map.hh:10-13 | the result is ordered (`first <= second`) and holds exactly the two given bounds |
| RangeMap.MakeSingleRange | range_map.hh:16-18 | `make_single_range(n)` is `(n, n)`, the range covering `n` alone |
| RangeMap.MakeRangeSymmetric | range_map.hh:10-13 | swapping the arguments gives the same range |
| RangeMap.MakeRangeIdempotent | range_map.hh:12 | an ordered pair is returned unchanged, so normalising a normalised range changes nothing |
| RangeMap.RangeCmpIrreflexive | range_map.hh:22-24 | no ordered range compares less than itself |
| RangeMap.RangeCmpAsymmetric | range_map.hh:22-24 | of two ordered ranges at most one compares less than the other |
| RangeMap.RangeCmpTransitive | range_map.hh:22-24 | the comparator is transitive through an ordered middle range |
| RangeMap.EquivalentIffOverlap | range_map.hh:22-24 | two ordered ranges are equivalent under the comparator (neither less) exactly when they share a number |
| RangeMap.PointKeyMatch | range_map.hh:16-24 | the key `[c, c]` is equivalent to a stored range exactly when the range contains `c` |
| RangeMap.StrictTotalOrderOnDisjoint | range_map.hh:27-28 | on ordered, pairwise non-overlapping ranges the comparator is irreflexive, transitive and total on distinct elements, as the ordered set requires |
| RangeMap.SortedIsDisjoint | range_map.hh:27-28 | the elements of the set in comparator order never overlap |
| RangeMap.LowerBound | range_map.hh:27-28 | the set's tree descent finds the boundary: every element before it compares less than the key and none from it on does |
| RangeMap.Find | freetype.hh:107 | `find` returns a stored range equivalent to the key, or `end` exactly when no stored range is equivalent |
| RangeMap.Contains | freetype.hh:107 | `find(make_single_range(c)) != end` holds exactly when some stored range contains `c` |
| Bitmap.CellCount | freetype.hh:53 | `new unsigned[width * width]` allocates the square taken modulo 2^32: the true square below width 2^16, and no cells at width 2^16 |
| Bitmap.CellIndex | freetype.hh:66-74 | the offset of cell `(row, col)` is `row * width + col` modulo 2^32; up to width 2^16 it is exact and divides back to row and column, and below width 2^16 it lies inside the allocated cells |
| Bitmap.CellIndexInjective | freetype.hh:53-74 | up to width 2^16, distinct cells of a Bitmap never share storage |
| Bitmap.CellIndexWrapsAboveSixteenBits | freetype.hh:66-74 | at width 65537 the cells `(0, 65536)` and `(65536, 0)` share offset 65536, so above 2^16 the layout is not injective |
| Bitmap.InTile | freetype.hh:132 | a coordinate inside tile `t` divides back to `t` and lies inside the `16 * pixel` atlas when `t < 16` |
| Placement.Place | freetype.hh:120-126 | the glyph is clamped to `min(width, pixel)` columns and `min(rows, pixel)` rows, and for every glyph size, including empty and oversized, `0 <= xoffset`, `xoffset + rows <= pixel`, `0 <= yoffset`, `yoffset + cols <= pixel` |
| Placement.PlaceClampsToTile | freetype.hh:122-126 | each final offset is the smaller of the requested offset (from baseline and bearing, or from the left bearing) and the room left in the tile |
| Placement.PlaceIgnoresFullWidth | freetype.hh:124 | offsets and extent are the same whether the full-width flag is set or not |
| Placement.SourceReadInBuffer | freetype.hh:120-132 | every read `i * width + j` with `i < rows`, `j < cols` is below `bitmap.rows * width`, and so is its 32-bit reduction |
| Placement.ReadIndex | freetype.hh:132 | the copy loop's read offset is `i * width + j` modulo 2^32: exact while it fits in 32 bits, never beyond the exact offset, and below `rows * width` |
| Placement.ReadIndexWraps | freetype.hh:132 | for a glyph of width 2^31 and three rows, pixel `(2, 0)` is read from offset 0 |
| Placement.WriteLandsInTile | freetype.hh:130-132 | every write of the copy loop lands in tile `(x, y)`: row in `[x*pixel, (x+1)*pixel)`, column in `[y*pixel, (y+1)*pixel)`, inside the `16 * pixel` atlas |
| Placement.CoveredPixelInTile | freetype.hh:130-132 | a pixel the placed glyph covers belongs to the tile the glyph was drawn into |
| FreeType.Baseline | freetype.hh:99 | `abs(descender) * fontsize / units_per_EM` is the floor of the scaled descender while the product fits in `int`, and is at most the font size when the descender is at most one EM |
| FreeType.ScaledFloor | freetype.hh:99 | the unsigned quotient read back as `int` is the floor of `k * v / d`, and at most `v` when `k <= d` |
| FreeType.SimpleColorConverter | freetype.hh:77-81 | the result never wraps: alpha byte 0xFF and the input in each of the red, green and blue bytes |
| FreeType.FullWidthRangesSorted | freetype.hh:83 | the three full-width ranges are ordered and apart, so the set holds all three |
| FreeType.IsFullWidth | freetype.hh:83 | a code point is flagged full-width exactly when it lies in 0x3000–0x30FF, 0x4E00–0x9FAF or 0xFF00–0xFFEF |
| FreeType.DrawTo | freetype.hh:117-133 | with a null buffer the atlas is unchanged; otherwise the pixels covered by the placed glyph become `converter(buffer[i*width + j])` and every other pixel keeps its value; the flag `hw` makes no difference |
| FreeType.CopyGlyph | freetype.hh:130-132 | the copy loop fills exactly the `rows x cols` rectangle at the offset tile origin with converted coverage and leaves every other pixel as it was |
| FreeType.PageCodePointRoundTrip | freetype.hh:105 | from code point `from*256 + i*16 + j` the page, tile row and tile column are read back as `ch / 256`, `(ch % 256) / 16` and `ch % 16` |
| FreeType.PageCodePointOnto | freetype.hh:102-108 | every code point of the page is drawn in tile `((ch % 256) / 16, ch % 16)` |
| FreeType.DrawStep | freetype.hh:102-108 | drawing tile `(i, j)` gives every pixel of that tile its final value and changes no pixel of another tile |
| FreeType.GenStart | freetype.hh:102-110 | the page's code points are drawn each exactly once in increasing order, and every atlas pixel ends up showing the glyph of its own tile over what it held before |
| Partition.SpliceFits | main.cpp:29 | the `thread + 1` chunks of length `0xFF / (thread + 1)` fit within the pages, and the last chunk starts no later than page 0xFF |
| Partition.ChunkInRange | main.cpp:37-38 | every chunk is a possibly empty run of pages within `0 .. 0xFF` |
| Partition.ChunksContiguous | main.cpp:37-38 | each chunk but the last ends just before the next one starts |
| Partition.ChunksOrdered | main.cpp:37-38 | a lower process id's chunk ends before a higher one's starts, so no two chunks share a page |
| Partition.PagesOfFirstPrefix | main.cpp:37-40 | the first `t` processes together render pages `0 .. t*splice - 1` in order |
| Partition.WorkersCoverAllPages | main.cpp:29-40 | for every thread count, the chunks of processes `0 .. thread` in id order are exactly the pages `0 .. 0xFF`, each once |
| Partition.OwnerUnique | main.cpp:29-38 | each page lies in the chunk of exactly one process |
| Partition.SingleProcessRendersAll | main.cpp:29-38 | with `thread = 0` the single chunk is `0 .. 0xFF` |
| Partition.ZeroSplice | main.cpp:29-38 | the chunk length is zero exactly when `thread >= 255`; then every chunk but the last is empty and the last is `0 .. 0xFF` |
| Partition.ForkLoop | main.cpp:28-35 | when every fork succeeds, the fork loop yields id 0 for the parent and `1, 2, …, thread` for the children, each once |
| Partition.ProcStatus | main.cpp:48 | `proc` returns non-zero only for id 0, so only the parent enters the wait loop |
| Generator.GrayColorConverter | main.cpp:9-13 | the grey value is always 0xFF and the coverage becomes the alpha channel |
| Generator.ClearImage | main.cpp:15-21 | every pixel of the `N x N` image becomes `ga_pixel(0xFF, 0)`, whatever it held |
| Generator.Hex | main.cpp:43 | `%x` digits are lower-case hex that read back as the number, with no leading zero: one digit below 16, two below 256, three or more from 256 |
| Generator.PageId | main.cpp:43 | `%02x` output is lower-case hex that reads back as the page number |
| Generator.PageIdFitsBuffer | main.cpp:25-43 | the id has exactly two digits for pages `0 .. 0xFF`, so it fits `id[3]` with its terminator; larger numbers would not fit |
| Generator.PageFileNamesDistinct | main.cpp:45 | distinct pages get distinct `unicode_page_<id>.png` names |
| Generator.CheckConfig | main.cpp:67-70 | a run goes ahead exactly when `base_size >= font_size` and the font exists; a tile smaller than the font is rejected first with that error, and a missing font with a tile large enough is rejected as a missing font |
| Generator.ProducePage | main.cpp:41-45 | one round of the page loop yields the page's file name and its expected atlas, whatever the atlas held before, so no pixel of an earlier page leaks in |
| Generator.RenderChunk | main.cpp:40-46 | the page loop yields one file per page from `start` to `end`, in order, each named after its page and holding that page's expected atlas, although the atlas buffer is reused |
| Generator.Proc | main.cpp:23-49 | process `tid` writes, in order, the files of its chunk's pages, each named after its page and holding that page's atlas, which does not depend on which process renders it; it returns non-zero exactly for the parent |

## Left out

- Font loading and glyph rendering (`FT_Init_FreeType`, `FT_New_Face`, `FT_Set_Pixel_Sizes`,
  `FT_Get_Char_Index`, `FT_Load_Glyph`) belong to the font library. The rendered glyph of each code point is
  an input (`render`), and the face is reduced to its descender and units per EM.
- `FTError` and `CatchFTError` only format and throw the font library's error codes, so they are not modelled.
- PNG writing, command-line parsing, and the `stat`/`mkdir` calls are foreign I/O. A page yields its file name
  and atlas. Whether the font exists is an input to `CheckConfig`.
- `fork` and the `wait` loop are process management and are not modelled. `ForkLoop` gives the ids the
  processes receive, and `Proc` takes its process's id as input. The reaping and the "sub process failed"
  error are not modelled.
- The progress `printf` is not modelled. It is floating point and divides by zero when a chunk has one page.
  The console and `DEBUG` output is left out as well.
- The std::set is not modelled as built by insertion. `FullWidthRangesSorted` shows that the three ranges it
  is built from are already ordered and disjoint, so insertion keeps all three in that order.
- Bitmap.CellIndex: the layout properties are promised only up to width 2^16 (below it for the bound against
  the allocation), because above that the 32-bit products in the program wrap.
- Partition.ForkLoop: every `fork()` is taken to succeed. At main.cpp:32 a failed fork returns -1, which the
  test `fork() == 0` sends down the parent's path. The loop goes on, no process takes that round's id, and the
  wait loop reaps only the children that exist, so the run ends without error and that id's chunk of pages is
  never written. The model does not cover such runs.
- Placement.Place: the bounds are stated only for `pixel < 2^31`. For larger tiles the unsigned corrections at
  freetype.hh:125-126 no longer equal the signed values.
- FreeType.DrawTo: requires `16 * pixel < 2^32`, that is, an atlas side that fits the image's `unsigned` size.
  Wrap-around of the unsigned write index is therefore not modelled. The atlas is a two-dimensional value, so
  the wrap of the default `Bitmap`'s 32-bit offsets at an atlas side of 2^16 or more (`pixel >= 4096`) is not
  carried into `DrawTo`. `Bitmap.CellIndex` and `Bitmap.CellIndexWrapsAboveSixteenBits` state it separately.
- FreeType.DrawTo: the copied byte is read at the 32-bit offset `ReadIndex`, as the program computes it. So a
  glyph more than 2^32 bytes in extent is modelled as read wrapped, not beyond the buffer.
- FreeType.DrawTo: requires `WellFormed(g)`, a buffer of at least `rows * width` bytes, because the copy loop
  reads `buffer[i * width + j]` whatever the pixel mode. FreeType's buffer holds `rows * |pitch|` bytes, so
  this holds for 8-bit grey bitmaps but fails for a 1-bit bitmap, whose pitch is `ceil(width / 8)`; there the
  program reads past the buffer, and the model says nothing about that case. Pitch padding is not modelled
  either: a buffer whose pitch exceeds the width is read skewed, and the model takes it as read.
- FreeType.GenStart: requires `WellFormed(render(c))` for every code point, with the same consequence as for
  `DrawTo`. `render` is total, so an `FT_Load_Glyph` that fails (freetype.hh:114) and throws out of the page
  loop partway through a page is outside the model.
- Generator.Proc: inherits the `WellFormed` assumption on every rendered glyph from `GenStart`, and with it
  the total `render`: a glyph load that throws and ends the process partway through its chunk is not
  modelled.
- FreeType.Baseline: requires `units_per_EM > 0`, because the program divides by it unguarded. The floor
  property is stated only while `abs(descender) * fontsize` fits in `int`.
- Generator.Proc: requires `thread < 2^31 - 1`, so that `thread + 1` does not overflow. The conversion of an
  `unsigned` thread count above `INT_MAX` to `proc`'s `int` parameter is not modelled.
