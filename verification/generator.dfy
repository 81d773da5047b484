/** The page driver of main.cpp: the grey-alpha converter and background,
    clearing the atlas, naming page files, the size check made before any
    work, and the per-process loop of `proc` that renders and names each page
    of its chunk. Writing the PNG file itself is left to the image library;
    here each page yields its file name and finished atlas. */
module Generator {
  import opened CInt
  import opened Wrappers
  import opened Placement
  import opened FreeType
  import opened Partition
  import Bitmap

  /** A grey-alpha pixel: grey level and opacity. */
  datatype GaPixel = GaPixel(value: Byte, alpha: Byte)

  /** White at the coverage as opacity. Distinct coverages give distinct
      pixels, and the coverage can be read back from the alpha channel. */
  function GrayColorConverter(c: Byte): (px: GaPixel)
    ensures px.value == 0xFF
    ensures px.alpha == c
  {
    GaPixel(0xFF, c)
  }

  /** The colour of an empty atlas: the converter applied to zero coverage. */
  const Background: GaPixel := GrayColorConverter(0)

  /** `clearImage(image, N)`: every pixel of the `n x n` image becomes fully
      transparent white, whatever it held before. */
  method ClearImage(img: seq<seq<GaPixel>>, n: nat) returns (out: seq<seq<GaPixel>>)
    requires Bitmap.IsSquare(img, n)
    ensures Bitmap.IsSquare(out, n)
    ensures forall a, b :: 0 <= a < n && 0 <= b < n ==> out[a][b] == GaPixel(0xFF, 0)
  {
    out := img;
    var i := 0;
    while i < n
      invariant 0 <= i <= n
      invariant Bitmap.IsSquare(out, n)
      invariant forall a, b :: 0 <= a < n && 0 <= b < n ==>
                  out[a][b] == if a < i then Background else img[a][b]
    {
      var j := 0;
      while j < n
        invariant 0 <= j <= n
        invariant Bitmap.IsSquare(out, n)
        invariant forall a, b :: 0 <= a < n && 0 <= b < n ==>
                    out[a][b] == if a < i || (a == i && b < j) then Background else img[a][b]
      {
        out := Bitmap.SetPixel(out, n, i, j, GrayColorConverter(0));
        j := j + 1;
      }
      i := i + 1;
    }
  }

  /** Lower-case hexadecimal digit for `0 <= d < 16`. */
  function HexDigit(d: nat): (c: char)
    requires d < 16
    ensures '0' <= c <= '9' || 'a' <= c <= 'f'
  {
    if d < 10 then ('0' as int + d) as char else ('a' as int + d - 10) as char
  }

  /** The value of a hexadecimal digit character. */
  function DigitValue(c: char): nat {
    if '0' <= c <= '9' then c as int - '0' as int
    else if 'a' <= c <= 'f' then c as int - 'a' as int + 10
    else 0
  }

  /** The number a string of hexadecimal digits spells, most significant first. */
  function HexValue(s: string): nat {
    if |s| == 0 then 0 else HexValue(s[..|s| - 1]) * 16 + DigitValue(s[|s| - 1])
  }

  /** `%x`: the lower-case hexadecimal digits of `n` without leading zeros.
      Reading them back gives `n`; one digit below 16, two from 16, three or
      more from 256. */
  function Hex(n: nat): (s: string)
    ensures 1 <= |s|
    ensures HexValue(s) == n
    ensures 0 < n ==> s[0] != '0'
    ensures forall k :: 0 <= k < |s| ==> '0' <= s[k] <= '9' || 'a' <= s[k] <= 'f'
    ensures |s| == 1 <==> n < 16
    ensures 16 <= n < 256 ==> |s| == 2
    ensures 256 <= n ==> 3 <= |s|
    decreases n
  {
    if n < 16 then [HexDigit(n)]
    else
      var s := Hex(n / 16) + [HexDigit(n % 16)];
      assert s[..|s| - 1] == Hex(n / 16);
      s
  }

  /** `sprintf(id, "%02x", i)`: hexadecimal digits padded with zeros to at least two. */
  function PageId(i: nat): (id: string)
    ensures HexValue(id) == i
    ensures forall k :: 0 <= k < |id| ==> '0' <= id[k] <= '9' || 'a' <= id[k] <= 'f'
  {
    var h := Hex(i);
    if |h| < 2 then
      var id := "0" + h;
      assert id[..|id| - 1] == "0";
      assert HexValue("0") == 0 by {
        assert "0"[..0] == "";
      }
      id
    else h
  }

  /** The id of a page is exactly two lower-case hex digits, so with its
      terminating NUL it fits the three-byte buffer `id`; any larger number
      would overflow it. */
  lemma PageIdFitsBuffer(i: nat)
    ensures |PageId(i)| + 1 <= 3 <==> i <= 0xFF
    ensures i <= 0xFF ==> |PageId(i)| == 2
  {
  }

  /** `target + "/unicode_page_" + id + ".png"`. */
  function PageFileName(target: string, i: nat): string {
    target + "/unicode_page_" + PageId(i) + ".png"
  }

  /** Different pages are written to different files. */
  lemma PageFileNamesDistinct(target: string, i: nat, j: nat)
    requires i <= 0xFF && j <= 0xFF
    ensures PageFileName(target, i) == PageFileName(target, j) ==> i == j
  {
    PageIdFitsBuffer(i);
    PageIdFitsBuffer(j);
    var prefix := target + "/unicode_page_";
    assert PageFileName(target, i)[|prefix|..|prefix| + 2] == PageId(i);
    assert PageFileName(target, j)[|prefix|..|prefix| + 2] == PageId(j);
  }

  /** Why a run is refused before any work. */
  datatype ConfigError = UnitSmallerThanFont | FontMissing

  /** The settings a run goes ahead with. */
  datatype Config = Config(baseSize: Uint32, fontSize: Uint32, thread: Uint32)

  /** The checks `main` makes before rendering: the tile (`base_size`) must be
      at least the font size, checked first, and the font file must exist.
      A run is accepted exactly when both hold. */
  function CheckConfig(baseSize: Uint32, fontSize: Uint32, thread: Uint32, fontExists: bool): (r: Result<Config, ConfigError>)
    ensures r.Success? <==> fontSize <= baseSize && fontExists
    ensures baseSize < fontSize ==> r == Failure(UnitSmallerThanFont)
    ensures fontSize <= baseSize && !fontExists ==> r == Failure(FontMissing)
    ensures r.Success? ==> r.value == Config(baseSize, fontSize, thread) && r.value.fontSize <= r.value.baseSize
  {
    if baseSize < fontSize then Failure(UnitSmallerThanFont)
    else if !fontExists then Failure(FontMissing)
    else Success(Config(baseSize, fontSize, thread))
  }

  /** One output file: its path and the atlas written to it. */
  datatype PageFile = PageFile(name: string, image: seq<seq<GaPixel>>)

  /** The atlas of page `page`: each pixel shows the glyph of its own tile
      over the background. It depends on nothing but the page and the font. */
  function ExpectedPage(render: nat -> Glyph, page: nat, pixel: Uint32, baseline: Int32): (img: seq<seq<GaPixel>>)
    requires 16 * pixel < TWO_32
    requires forall c :: WellFormed(render(c))
    ensures Bitmap.IsSquare(img, 16 * pixel)
  {
    seq(16 * pixel, a requires 0 <= a < 16 * pixel =>
      seq(16 * pixel, b requires 0 <= b < 16 * pixel =>
        PagePixel(Background, page, render, pixel, baseline, GrayColorConverter, a, b)))
  }

  /** The file written for page `page`: its name and its expected atlas. */
  function ExpectedFile(render: nat -> Glyph, target: string, page: nat, pixel: Uint32, baseline: Int32): PageFile
    requires 16 * pixel < TWO_32
    requires forall c :: WellFormed(render(c))
  {
    PageFile(PageFileName(target, page), ExpectedPage(render, page, pixel, baseline))
  }

  /** One round of the page loop of `proc`: clear the atlas, draw the page,
      format its id and name its file. The atlas produced is the expected
      page whatever the buffer held before, so no pixel of an earlier page
      leaks into it. */
  method ProducePage(img: seq<seq<GaPixel>>, render: nat -> Glyph, target: string, page: nat,
                     pixel: Uint32, baseline: Int32) returns (image: seq<seq<GaPixel>>, file: PageFile)
    requires 16 * pixel < TWO_32 && Bitmap.IsSquare(img, 16 * pixel)
    requires forall c :: WellFormed(render(c))
    requires page <= 0xFF
    ensures image == ExpectedPage(render, page, pixel, baseline)
    ensures file == ExpectedFile(render, target, page, pixel, baseline)
  {
    var cleared := ClearImage(img, 16 * pixel);
    var drawnImage, _ := GenStart(cleared, page, render, pixel, baseline, GrayColorConverter);
    image := drawnImage;
    var expected := ExpectedPage(render, page, pixel, baseline);
    forall a | 0 <= a < 16 * pixel
      ensures image[a] == expected[a]
    {
      assert forall b :: 0 <= b < 16 * pixel ==> image[a][b] == expected[a][b];
    }
    var id := PageId(page);
    PageIdFitsBuffer(page);
    file := PageFile(target + "/unicode_page_" + id + ".png", image);
  }

  /** The work of process `tid` in `proc`: for each page of its chunk, in
      order, the file name and atlas it writes; and the value `proc`
      returns. Which process renders a page does not change what is written
      for it. */
  method Proc(img: seq<seq<GaPixel>>, render: nat -> Glyph, face: Face, target: string,
              baseSize: Uint32, fontSize: Uint32, thread: nat, tid: nat)
    returns (files: seq<PageFile>, status: int)
    requires 16 * baseSize < TWO_32 && Bitmap.IsSquare(img, 16 * baseSize)
    requires ValidFace(face)
    requires forall c :: WellFormed(render(c))
    requires tid <= thread < TWO_31 - 1
    ensures |files| == |WorkerPages(tid, thread)|
    ensures forall k :: 0 <= k < |files| ==>
              var page := WorkerPages(tid, thread)[k];
              0 <= page <= 0xFF && files[k] == ExpectedFile(render, target, page, baseSize, Baseline(face, fontSize))
    ensures status != 0 <==> tid == 0
  {
    var baseline := Baseline(face, fontSize);
    ChunkInRange(tid, thread);
    files := RenderChunk(img, render, target, ChunkStart(tid, thread), ChunkEnd(tid, thread), baseSize, baseline);
    status := ProcStatus(tid);
  }

  /** The page loop `for (i = start; i <= end; i++)` of `proc`: the files of
      pages `start .. end`, in order, one per page. The atlas buffer is reused
      from page to page. */
  method RenderChunk(img: seq<seq<GaPixel>>, render: nat -> Glyph, target: string, start: int, end: int,
                     pixel: Uint32, baseline: Int32) returns (files: seq<PageFile>)
    requires 16 * pixel < TWO_32 && Bitmap.IsSquare(img, 16 * pixel)
    requires forall c :: WellFormed(render(c))
    requires 0 <= start <= end + 1 && end <= 0xFF
    ensures |files| == |Interval(start, end + 1)|
    ensures forall k :: 0 <= k < |files| ==>
              var page := Interval(start, end + 1)[k];
              0 <= page <= 0xFF && files[k] == ExpectedFile(render, target, page, pixel, baseline)
  {
    var image := img;
    files := [];
    var i := start;
    while i <= end
      invariant start <= i <= end + 1
      invariant Bitmap.IsSquare(image, 16 * pixel)
      invariant |files| == i - start
      invariant forall k :: 0 <= k < |files| ==> files[k] == ExpectedFile(render, target, start + k, pixel, baseline)
    {
      var file;
      image, file := ProducePage(image, render, target, i, pixel, baseline);
      files := files + [file];
      i := i + 1;
    }
  }
}
