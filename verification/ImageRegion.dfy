/** Sampled regions of an image, read from memory or from a 32-bit BMP file. */
module ImageRegion {

  import opened Wrappers

  type Byte = b: int | 0 <= b < 256

  datatype Pixel = Pixel(r: Byte, g: Byte, b: Byte, a: Byte)

  const NO_PIXEL := Pixel(0, 0, 0, 0)

  /** A picture gives the pixel at column `x` of row `y`. */
  type Picture = (int, int) -> Pixel

  /** Pixel number `p` of an RGBA buffer, row after row. */
  function PixelOf(buffer: seq<Byte>, p: int): Pixel {
    if 0 <= p && 4 * p + 4 <= |buffer|
    then Pixel(buffer[4 * p], buffer[4 * p + 1], buffer[4 * p + 2], buffer[4 * p + 3])
    else NO_PIXEL
  }

  /** The pixel at column `x` of row `y` of a buffer `stride` pixels wide. */
  function PixelAt(buffer: seq<Byte>, stride: int, x: int, y: int): Pixel {
    PixelOf(buffer, y * stride + x)
  }

  /** The picture that a decoded image holds in memory. */
  function RgbaPicture(buffer: seq<Byte>, width: int): Picture {
    (x, y) => PixelAt(buffer, width, x, y)
  }

  datatype Bmp = Bmp(width: nat, height: nat, pixelOffset: int, isTopDown: bool)

  function FileRow(bmp: Bmp, y: int): int { if bmp.isTopDown then y else bmp.height - 1 - y }

  /** A BMP file stores blue first, and its rows from the bottom up unless told otherwise. */
  function BmpPicture(file: seq<Byte>, bmp: Bmp): Picture {
    (x, y) =>
      var p := bmp.pixelOffset + (FileRow(bmp, y) * bmp.width + x) * 4;
      if 0 <= p && p + 4 <= |file| then Pixel(file[p + 2], file[p + 1], file[p], file[p + 3]) else NO_PIXEL
  }

  /** The `columns` by `rows` pixels of `picture` from (left, top) on, one every `step`. */
  ghost predicate IsTile(buffer: seq<Byte>, columns: int, rows: int, picture: Picture, left: int, top: int, step: int) {
    && 0 <= columns && 0 <= rows && columns * rows * 4 <= |buffer|
    && forall x, y :: 0 <= x < columns && 0 <= y < rows ==>
         PixelAt(buffer, columns, x, y) == picture(left + x * step, top + y * step)
  }

  // ---------------------------------------------------------------- arithmetic of rows and columns

  /** Pixel (x, y) lies inside a buffer of `rows` rows, and is pixel number `y * columns + x`. */
  lemma PixelNumber(columns: int, rows: int, x: int, y: int)
    requires 0 <= x < columns && 0 <= y < rows
    ensures 0 <= y * columns + x < columns * rows
    ensures (y * columns + x) / columns == y && (y * columns + x) % columns == x
  {
    MulMonotone(y + 1, rows, columns);
    MulSucc(y, columns);
    DivMod(columns, x, y);
  }

  lemma DivMod(c: int, x: int, y: int)
    requires 0 <= x < c
    ensures (y * c + x) / c == y && (y * c + x) % c == x
  {
    var q, r := (y * c + x) / c, (y * c + x) % c;
    assert q * c + r == y * c + x;
    if q < y { MulMonotone(q + 1, y, c); MulSucc(q, c); }
    if q > y { MulMonotone(y + 1, q, c); MulSucc(y, c); }
  }

  /** A sample of a region stays left of its right edge. */
  lemma SampleInside(from: int, to: int, step: int, k: int)
    requires step > 0 && 0 <= k < (to - from) / step
    ensures from <= from + k * step < to
  {
    var n := (to - from) / step;
    assert n * step <= to - from;
    MulMonotone(k + 1, n, step);
    MulSucc(k, step);
    MulMonotone(0, k, step);
  }

  // ---------------------------------------------------------------- pixel by pixel

  /** The first `n` pixels of the tile are there. */
  ghost predicate IsPartOfTile(buffer: seq<Byte>, columns: int, n: int, picture: Picture, left: int,
      top: int, step: int) {
    && 0 < columns && 0 <= n && n * 4 <= |buffer|
    && forall p :: 0 <= p < n ==> PixelOf(buffer, p) == picture(left + (p % columns) * step, top + (p / columns) * step)
  }

  lemma WholeTile(buffer: seq<Byte>, columns: int, rows: int, picture: Picture, left: int, top: int, step: int)
    requires 0 <= rows && IsPartOfTile(buffer, columns, columns * rows, picture, left, top, step)
    ensures IsTile(buffer, columns, rows, picture, left, top, step)
  {
    forall x, y | 0 <= x < columns && 0 <= y < rows
      ensures PixelAt(buffer, columns, x, y) == picture(left + x * step, top + y * step)
    {
      PixelNumber(columns, rows, x, y);
    }
  }

  /** Writing the next pixel keeps the ones before it. */
  lemma NextPixel(before: seq<Byte>, after: seq<Byte>, columns: int, n: int, picture: Picture, left: int, top: int,
      step: int, x: int, y: int)
    requires IsPartOfTile(before, columns, n, picture, left, top, step)
    requires |after| == |before| && (n + 1) * 4 <= |after|
    requires forall i :: 0 <= i < 4 * n ==> after[i] == before[i]
    requires 0 <= x < columns && n == y * columns + x
    requires PixelOf(after, n) == picture(left + x * step, top + y * step)
    ensures IsPartOfTile(after, columns, n + 1, picture, left, top, step)
  {
    DivMod(columns, x, y);
    forall p | 0 <= p < n ensures PixelOf(after, p) == PixelOf(before, p) {
    }
    forall p | 0 <= p < n + 1
      ensures PixelOf(after, p) == picture(left + (p % columns) * step, top + (p / columns) * step)
    {
      if p < n { assert PixelOf(after, p) == PixelOf(before, p); }
    }
  }

  /** Stores one pixel as four bytes. */
  method PutPixel(out: array<Byte>, p: nat, pixel: Pixel)
    requires 4 * p + 4 <= out.Length
    modifies out
    ensures PixelOf(out[..], p) == pixel
    ensures forall i :: 0 <= i < out.Length && !(4 * p <= i < 4 * p + 4) ==> out[i] == old(out[i])
  {
    out[4 * p] := pixel.r;
    out[4 * p + 1] := pixel.g;
    out[4 * p + 2] := pixel.b;
    out[4 * p + 3] := pixel.a;
  }

  // ---------------------------------------------------------------- the two decoders

  datatype Region = Region(left: int, top: int, right: int, bottom: int) {
    function Columns(step: int): int requires step > 0 { (right - left) / step }

    function Rows(step: int): int requires step > 0 { (bottom - top) / step }

    predicate IsInside(width: int, height: int) {
      0 <= left && right <= width && 0 <= top && bottom <= height
    }

    /** The output buffer has room for the region. */
    predicate FitsIn(length: int, step: int) requires step > 0 {
      0 < Columns(step) && 0 < Rows(step) ==> Columns(step) * Rows(step) * 4 <= length
    }

    function Shifted(dx: int, dy: int): Region {
      Region(left + dx, top + dy, right + dx, bottom + dy)
    }
  }

  lemma RgbaSample(rgba: seq<Byte>, width: nat, height: nat, sx: int, sy: int)
    requires |rgba| == width * height * 4 && 0 <= sx < width && 0 <= sy < height
    ensures var src := (sy * width + sx) * 4;
            && 0 <= src && src + 4 <= |rgba|
            && RgbaPicture(rgba, width)(sx, sy) == Pixel(rgba[src], rgba[src + 1], rgba[src + 2], rgba[src + 3])
  {
    PixelNumber(width, height, sx, sy);
  }

  /** Copies the samples of a region out of an image held in memory. */
  method DecodeRgba(rgba: seq<Byte>, width: nat, height: nat, region: Region, step: int, out: array<Byte>)
      returns (ok: bool)
    requires |rgba| == width * height * 4
    requires step > 0 && region.IsInside(width, height) && region.FitsIn(out.Length, step)
    modifies out
    ensures ok <==> 0 < region.Columns(step) && 0 < region.Rows(step)
    ensures ok ==> IsTile(out[..], region.Columns(step), region.Rows(step), RgbaPicture(rgba, width),
        region.left, region.top, step)
    ensures forall i :: 0 <= i < out.Length && (ok ==> region.Columns(step) * region.Rows(step) * 4 <= i) ==>
        out[i] == old(out[i])
  {
    hide PixelOf, RgbaPicture;
    var columns, rows := region.Columns(step), region.Rows(step);
    if columns <= 0 || rows <= 0 { return false; }
    ghost var picture := RgbaPicture(rgba, width);
    for y := 0 to rows
      invariant y * columns * 4 <= columns * rows * 4 <= out.Length
      invariant IsPartOfTile(out[..], columns, y * columns, picture, region.left, region.top, step)
      invariant forall i :: columns * rows * 4 <= i < out.Length ==> out[i] == old(out[i])
    {
      var sy := region.top + y * step;
      SampleInside(region.top, region.bottom, step, y);
      MulMonotone(y + 1, rows, columns);
      MulSucc(y, columns);
      for x := 0 to columns
        invariant IsPartOfTile(out[..], columns, y * columns + x, picture, region.left, region.top, step)
        invariant forall i :: columns * rows * 4 <= i < out.Length ==> out[i] == old(out[i])
      {
        var sx := region.left + x * step;
        SampleInside(region.left, region.right, step, x);
        RgbaSample(rgba, width, height, sx, sy);
        var src := (sy * width + sx) * 4;
        ghost var before := out[..];
        PutPixel(out, y * columns + x, Pixel(rgba[src], rgba[src + 1], rgba[src + 2], rgba[src + 3]));
        NextPixel(before, out[..], columns, y * columns + x, picture, region.left, region.top, step, x, y);
      }
    }
    WholeTile(out[..], columns, rows, picture, region.left, region.top, step);
    return true;
  }

  /** The file holds the whole row. */
  predicate CanRead(file: seq<Byte>, bmp: Bmp, y: int) {
    var offset := bmp.pixelOffset + FileRow(bmp, y) * (bmp.width * 4);
    0 <= offset && offset + bmp.width * 4 <= |file|
  }

  /** Row number `k` of the region is the first that the file does not hold. */
  predicate StopsAt(file: seq<Byte>, bmp: Bmp, top: int, step: int, k: int) {
    && !CanRead(file, bmp, top + k * step)
    && forall y :: 0 <= y < k ==> CanRead(file, bmp, top + y * step)
  }

  predicate CanReadRows(file: seq<Byte>, bmp: Bmp, top: int, step: int, rows: int) {
    forall y :: 0 <= y < rows ==> CanRead(file, bmp, top + y * step)
  }

  /** Reads a region row by row, and stops at the first row that is cut off. */
  method DecodeBmpRegion(file: seq<Byte>, bmp: Bmp, region: Region, step: int, out: array<Byte>) returns (ok: bool)
    requires step > 0 && region.IsInside(bmp.width, bmp.height) && region.FitsIn(out.Length, step)
    modifies out
    ensures ok <==> (0 < region.Columns(step) && 0 < region.Rows(step)
        && CanReadRows(file, bmp, region.top, step, region.Rows(step)))
    ensures ok ==> IsTile(out[..], region.Columns(step), region.Rows(step), BmpPicture(file, bmp),
        region.left, region.top, step)
    ensures !ok && 0 < region.Columns(step) && 0 < region.Rows(step) ==>
              exists k :: StopsAt(file, bmp, region.top, step, k) &&
                          IsTile(out[..], region.Columns(step), k, BmpPicture(file, bmp), region.left,
                              region.top, step) &&
                          forall i :: region.Columns(step) * k * 4 <= i < out.Length ==> out[i] == old(out[i])
    ensures region.Columns(step) <= 0 || region.Rows(step) <= 0 ==> out[..] == old(out[..])
    ensures ok ==> forall i :: region.Columns(step) * region.Rows(step) * 4 <= i < out.Length ==> out[i] == old(out[i])
  {
    hide PixelOf, BmpPicture;
    var columns, rows := region.Columns(step), region.Rows(step);
    if columns <= 0 || rows <= 0 { return false; }
    var rowStride := bmp.width * 4;
    ghost var picture := BmpPicture(file, bmp);
    for y := 0 to rows
      invariant y * columns * 4 <= columns * rows * 4 <= out.Length
      invariant IsPartOfTile(out[..], columns, y * columns, picture, region.left, region.top, step)
      invariant forall i :: y * columns * 4 <= i < out.Length ==> out[i] == old(out[i])
      invariant CanReadRows(file, bmp, region.top, step, y)
    {
      var sy := region.top + y * step;
      var fileY := if bmp.isTopDown then sy else bmp.height - 1 - sy;
      var rowOffset := bmp.pixelOffset + fileY * rowStride;
      if rowOffset < 0 || rowOffset + rowStride > |file| {
        assert StopsAt(file, bmp, region.top, step, y);
        WholeTile(out[..], columns, y, picture, region.left, region.top, step);
        return false;
      }
      MulMonotone(y + 1, rows, columns);
      MulSucc(y, columns);
      for x := 0 to columns
        invariant IsPartOfTile(out[..], columns, y * columns + x, picture, region.left, region.top, step)
        invariant forall i :: (y * columns + x) * 4 <= i < out.Length ==> out[i] == old(out[i])
      {
        var sx := region.left + x * step;
        SampleInside(region.left, region.right, step, x);
        var bgra := rowOffset + sx * 4;
        BmpSample(file, bmp, sx, sy);
        ghost var before := out[..];
        PutPixel(out, y * columns + x, Pixel(file[bgra + 2], file[bgra + 1], file[bgra], file[bgra + 3]));
        NextPixel(before, out[..], columns, y * columns + x, picture, region.left, region.top, step, x, y);
      }
    }
    WholeTile(out[..], columns, rows, picture, region.left, region.top, step);
    return true;
  }

  lemma BmpSample(file: seq<Byte>, bmp: Bmp, sx: int, sy: int)
    requires 0 <= sx < bmp.width && CanRead(file, bmp, sy)
    ensures var bgra := bmp.pixelOffset + FileRow(bmp, sy) * (bmp.width * 4) + sx * 4;
            && 0 <= bgra && bgra + 4 <= |file|
            && BmpPicture(file, bmp)(sx, sy) == Pixel(file[bgra + 2], file[bgra + 1], file[bgra], file[bgra + 3])
  {
    RowStart(bmp.pixelOffset, FileRow(bmp, sy), bmp.width, sx);
  }

  lemma RowStart(offset: int, row: int, width: int, x: int)
    ensures offset + row * (width * 4) + x * 4 == offset + (row * width + x) * 4
  {
    assert row * (width * 4) == (row * width) * 4;
  }

  // ---------------------------------------------------------------- equal tiles, stitched tiles

  /** `buffer` and `other` hold the same first `n` pixels. */
  lemma EqualPixels(buffer: seq<Byte>, other: seq<Byte>, n: nat)
    requires n * 4 <= |buffer| && n * 4 <= |other|
    requires forall p :: 0 <= p < n ==> PixelOf(buffer, p) == PixelOf(other, p)
    ensures buffer[..n * 4] == other[..n * 4]
  {
    forall i | 0 <= i < n * 4 ensures buffer[i] == other[i] {
      assert PixelOf(buffer, i / 4) == PixelOf(other, i / 4);
    }
  }

  /** Pixel by pixel equality, row after row. */
  lemma EqualImages(buffer: seq<Byte>, other: seq<Byte>, columns: nat, rows: nat)
    requires columns * rows * 4 <= |buffer| && columns * rows * 4 <= |other|
    requires forall x, y :: 0 <= x < columns && 0 <= y < rows ==>
        PixelAt(buffer, columns, x, y) == PixelAt(other, columns, x, y)
    ensures buffer[..columns * rows * 4] == other[..columns * rows * 4]
  {
    forall p | 0 <= p < columns * rows ensures PixelOf(buffer, p) == PixelOf(other, p) {
      var x, y := p % columns, p / columns;
      RowBelow(columns, rows, p);
      assert PixelAt(buffer, columns, x, y) == PixelAt(other, columns, x, y);
    }
    EqualPixels(buffer, other, columns * rows);
  }

  lemma RowBelow(columns: int, rows: int, p: int)
    requires 0 < columns && 0 <= p < columns * rows
    ensures 0 <= p / columns < rows && 0 <= p % columns < columns && (p / columns) * columns + p % columns == p
  {
    if p / columns >= rows { MulMonotone(rows, p / columns, columns); }
  }

  /** The two pictures agree wherever the region samples them. */
  ghost predicate Agree(one: Picture, other: Picture, width: int, height: int) {
    forall x, y :: 0 <= x < width && 0 <= y < height ==> one(x, y) == other(x, y)
  }

  /** A region of equal pictures decodes to the same bytes, whichever decoder ran. */
  lemma SamePictureSameBytes(buffer: seq<Byte>, other: seq<Byte>, one: Picture, two: Picture, width: int, height: int,
      region: Region, step: int)
    requires step > 0 && region.IsInside(width, height) && Agree(one, two, width, height)
    requires IsTile(buffer, region.Columns(step), region.Rows(step), one, region.left, region.top, step)
    requires IsTile(other, region.Columns(step), region.Rows(step), two, region.left, region.top, step)
    ensures buffer[..region.Columns(step) * region.Rows(step) * 4]
        == other[..region.Columns(step) * region.Rows(step) * 4]
  {
    forall x, y | 0 <= x < region.Columns(step) && 0 <= y < region.Rows(step)
      ensures PixelAt(buffer, region.Columns(step), x, y) == PixelAt(other, region.Columns(step), x, y)
    {
      SampleInside(region.left, region.right, step, x);
      SampleInside(region.top, region.bottom, step, y);
    }
    EqualImages(buffer, other, region.Columns(step), region.Rows(step));
  }

  /** The rest of a span cut at a multiple of the step has the rest of its samples. */
  lemma CutSpan(from: int, to: int, step: int, i: int, j: int)
    requires step > 0
    ensures ((from + j * step) - (from + i * step)) / step == j - i
    ensures (to - (from + i * step)) / step == (to - from) / step - i
  {
    assert (from + j * step) - (from + i * step) == (j - i) * step + 0 by { MulSub(j, i, step); }
    DivMod(step, 0, j - i);
    var q, r := (to - from) / step, (to - from) % step;
    assert to - (from + i * step) == (q - i) * step + r by { MulSub(q, i, step); }
    DivMod(step, r, q - i);
  }

  lemma MulSub(a: int, b: int, c: int)
    ensures (a - b) * c == a * c - b * c
  {
  }

  /** Part of a decoded region: its place in the output, its size and its bytes. */
  datatype Tile = Tile(x: int, y: int, columns: int, rows: int, buffer: seq<Byte>) {
    predicate Covers(px: int, py: int) {
      x <= px < x + columns && y <= py < y + rows
    }

    /** The region, cut at multiples of the step, that this tile was decoded from. */
    function Source(whole: Region, step: int): Region {
      Region(whole.left + x * step, whole.top + y * step, whole.left + (x + columns) * step,
          whole.top + (y + rows) * step)
    }
  }

  /** Every pixel of the canvas was copied from a tile that covers it. */
  ghost predicate IsStitched(canvas: seq<Byte>, columns: int, rows: int, tiles: seq<Tile>) {
    forall px, py :: 0 <= px < columns && 0 <= py < rows ==> IsFromTile(canvas, columns, px, py, tiles)
  }

  ghost predicate IsFromTile(canvas: seq<Byte>, columns: int, px: int, py: int, tiles: seq<Tile>) {
    exists t :: t in tiles && IsCopied(canvas, columns, px, py, t)
  }

  /** Pixel (px, py) of the canvas is the one that the tile has there. */
  predicate IsCopied(canvas: seq<Byte>, columns: int, px: int, py: int, t: Tile) {
    t.Covers(px, py) && PixelAt(canvas, columns, px, py) == PixelAt(t.buffer, t.columns, px - t.x, py - t.y)
  }

  /** The tile holds its own region of the picture. */
  ghost predicate IsDecoded(t: Tile, whole: Region, step: int, picture: Picture)
    requires step > 0
  {
    var source := t.Source(whole, step);
    IsTile(t.buffer, source.Columns(step), source.Rows(step), picture, source.left, source.top, step)
  }

  /** Pixel (px, py) of the whole region is pixel (px - t.x, py - t.y) of a tile that covers it. */
  lemma TileOfRegion(t: Tile, whole: Region, step: int, picture: Picture, px: int, py: int)
    requires step > 0 && IsDecoded(t, whole, step, picture) && t.Covers(px, py)
    ensures PixelAt(t.buffer, t.columns, px - t.x, py - t.y) == picture(whole.left + px * step, whole.top + py * step)
  {
    TileSize(t, whole, step);
    TileStart(whole.left, step, t.x, px);
    TileStart(whole.top, step, t.y, py);
    assert PixelAt(t.buffer, t.columns, px - t.x, py - t.y)
        == picture(t.Source(whole, step).left + (px - t.x) * step, t.Source(whole, step).top + (py - t.y) * step);
  }

  lemma TileStart(from: int, step: int, x: int, px: int)
    ensures from + x * step + (px - x) * step == from + px * step
  {
    MulSub(px, x, step);
  }

  /** A region cut at multiples of the step has as many samples as the cuts are apart. */
  lemma TileSize(t: Tile, whole: Region, step: int)
    requires step > 0
    ensures t.Source(whole, step).Columns(step) == t.columns && t.Source(whole, step).Rows(step) == t.rows
  {
    CutSpan(whole.left, 0, step, t.x, t.x + t.columns);
    CutSpan(whole.top, 0, step, t.y, t.y + t.rows);
  }

  /** Decoding a region in tiles cut at multiples of the step gives the bytes of decoding it at once. */
  lemma StitchedIsWhole(canvas: seq<Byte>, buffer: seq<Byte>, tiles: seq<Tile>, whole: Region,
      step: int, picture: Picture)
    requires step > 0 && IsTile(buffer, whole.Columns(step), whole.Rows(step), picture, whole.left, whole.top, step)
    requires whole.Columns(step) * whole.Rows(step) * 4 <= |canvas|
    requires forall t :: t in tiles ==> IsDecoded(t, whole, step, picture)
    requires IsStitched(canvas, whole.Columns(step), whole.Rows(step), tiles)
    ensures canvas[..whole.Columns(step) * whole.Rows(step) * 4] == buffer[..whole.Columns(step) * whole.Rows(step) * 4]
  {
    var columns, rows := whole.Columns(step), whole.Rows(step);
    forall px, py | 0 <= px < columns && 0 <= py < rows
      ensures PixelAt(canvas, columns, px, py) == PixelAt(buffer, columns, px, py)
    {
      assert IsFromTile(canvas, columns, px, py, tiles);
      var t :| t in tiles && IsCopied(canvas, columns, px, py, t);
      TileOfRegion(t, whole, step, picture, px, py);
    }
    EqualImages(canvas, buffer, columns, rows);
  }

  // ---------------------------------------------------------------- one picture, three stores

  /** A pixel as a BMP file stores it: blue, green, red, alpha. */
  function PixelBytes(rgba: seq<Byte>, p: nat): seq<Byte>
    requires 4 * p + 4 <= |rgba|
  {
    [rgba[4 * p + 2], rgba[4 * p + 1], rgba[4 * p], rgba[4 * p + 3]]
  }

  /** The first `n` pixels from pixel number `first` on. */
  function RunBytes(rgba: seq<Byte>, first: nat, n: nat): (bytes: seq<Byte>)
    requires 4 * (first + n) <= |rgba|
    ensures |bytes| == 4 * n
  {
    if n == 0 then [] else RunBytes(rgba, first, n - 1) + PixelBytes(rgba, first + n - 1)
  }

  /** The first `k` rows, the top one first. */
  function TopDown(rgba: seq<Byte>, width: nat, k: nat): (bytes: seq<Byte>)
    requires k * width * 4 <= |rgba|
    ensures |bytes| == k * width * 4
  {
    if k == 0 then []
    else
      MulSucc(k - 1, width);
      TopDown(rgba, width, k - 1) + RunBytes(rgba, (k - 1) * width, width)
  }

  /** The first `k` rows, the top one last. */
  function BottomUp(rgba: seq<Byte>, width: nat, k: nat): (bytes: seq<Byte>)
    requires k * width * 4 <= |rgba|
    ensures |bytes| == k * width * 4
  {
    if k == 0 then []
    else
      MulSucc(k - 1, width);
      RunBytes(rgba, (k - 1) * width, width) + BottomUp(rgba, width, k - 1)
  }

  /** A BMP file that stores an image after `header`. */
  function AsBmp(rgba: seq<Byte>, bmp: Bmp, header: seq<Byte>): (file: seq<Byte>)
    requires |rgba| == bmp.width * bmp.height * 4
    ensures |file| == |header| + bmp.width * bmp.height * 4
  {
    header + if bmp.isTopDown then TopDown(rgba, bmp.width, bmp.height) else BottomUp(rgba, bmp.width, bmp.height)
  }

  /** The four bytes at index `i`. */
  function FourAt(bytes: seq<Byte>, i: nat): seq<Byte>
    requires i + 4 <= |bytes|
  {
    [bytes[i], bytes[i + 1], bytes[i + 2], bytes[i + 3]]
  }

  lemma FourBehind(a: seq<Byte>, b: seq<Byte>, i: nat)
    requires i + 4 <= |a + b|
    ensures i + 4 <= |a| ==> FourAt(a + b, i) == FourAt(a, i)
    ensures |a| <= i ==> FourAt(a + b, i) == FourAt(b, i - |a|)
  {
  }

  lemma {:induction false} RunAt(rgba: seq<Byte>, first: nat, n: nat, x: nat)
    requires 4 * (first + n) <= |rgba| && x < n
    ensures FourAt(RunBytes(rgba, first, n), 4 * x) == PixelBytes(rgba, first + x)
  {
    hide FourAt, PixelBytes;
    WholePixel(rgba, first + n - 1);
    FourBehind(RunBytes(rgba, first, n - 1), PixelBytes(rgba, first + n - 1), 4 * x);
    if x < n - 1 { RunAt(rgba, first, n - 1, x); }
  }

  lemma WholePixel(rgba: seq<Byte>, p: nat)
    requires 4 * p + 4 <= |rgba|
    ensures |PixelBytes(rgba, p)| == 4 && FourAt(PixelBytes(rgba, p), 0) == PixelBytes(rgba, p)
  {
  }

  lemma {:induction false} TopDownAt(rgba: seq<Byte>, width: nat, k: nat, x: nat, y: nat)
    requires k * width * 4 <= |rgba| && x < width && y < k
    ensures 0 <= y * width + x < k * width
    ensures FourAt(TopDown(rgba, width, k), 4 * (y * width + x)) == PixelBytes(rgba, y * width + x)
  {
    hide FourAt, PixelBytes, RunBytes;
    PixelNumber(width, k, x, y);
    MulSucc(k - 1, width);
    var upper, last := TopDown(rgba, width, k - 1), RunBytes(rgba, (k - 1) * width, width);
    FourBehind(upper, last, 4 * (y * width + x));
    if y < k - 1 {
      TopDownAt(rgba, width, k - 1, x, y);
    } else {
      RunAt(rgba, (k - 1) * width, width, x);
    }
  }

  lemma {:induction false} BottomUpAt(rgba: seq<Byte>, width: nat, k: nat, x: nat, y: nat)
    requires k * width * 4 <= |rgba| && x < width && y < k
    ensures 0 <= y * width + x < k * width && 0 <= (k - 1 - y) * width + x < k * width
    ensures FourAt(BottomUp(rgba, width, k), 4 * ((k - 1 - y) * width + x)) == PixelBytes(rgba, y * width + x)
  {
    hide FourAt, PixelBytes, RunBytes;
    PixelNumber(width, k, x, y);
    PixelNumber(width, k, x, k - 1 - y);
    MulSucc(k - 1, width);
    MulSucc(k - 2 - y, width);
    var first, rest := RunBytes(rgba, (k - 1) * width, width), BottomUp(rgba, width, k - 1);
    FourBehind(first, rest, 4 * ((k - 1 - y) * width + x));
    if y < k - 1 {
      BottomUpAt(rgba, width, k - 1, x, y);
    } else {
      RunAt(rgba, (k - 1) * width, width, x);
    }
  }

  /** Where a pixel of the picture stands in the file. */
  lemma StoredAt(rgba: seq<Byte>, bmp: Bmp, header: seq<Byte>, x: nat, y: nat)
    requires |rgba| == bmp.width * bmp.height * 4 && x < bmp.width && y < bmp.height
    ensures 0 <= y * bmp.width + x < bmp.width * bmp.height
    ensures 0 <= FileRow(bmp, y) * bmp.width + x < bmp.width * bmp.height
    ensures FourAt(AsBmp(rgba, bmp, header), |header| + 4 * (FileRow(bmp, y) * bmp.width + x))
         == PixelBytes(rgba, y * bmp.width + x)
  {
    hide FourAt, PixelBytes, TopDown, BottomUp;
    var rows := if bmp.isTopDown then TopDown(rgba, bmp.width, bmp.height) else BottomUp(rgba, bmp.width, bmp.height);
    if bmp.isTopDown {
      TopDownAt(rgba, bmp.width, bmp.height, x, y);
    } else {
      BottomUpAt(rgba, bmp.width, bmp.height, x, y);
    }
    FourBehind(header, rows, |header| + 4 * (FileRow(bmp, y) * bmp.width + x));
  }

  /** Top-down, bottom-up and in-memory images of one picture agree, and no row of the file is cut off. */
  lemma StoresAgree(rgba: seq<Byte>, bmp: Bmp, header: seq<Byte>)
    requires bmp.width > 0 && bmp.pixelOffset == |header| && |rgba| == bmp.width * bmp.height * 4
    ensures Agree(BmpPicture(AsBmp(rgba, bmp, header), bmp), RgbaPicture(rgba, bmp.width), bmp.width, bmp.height)
    ensures forall y :: 0 <= y < bmp.height ==> CanRead(AsBmp(rgba, bmp, header), bmp, y)
  {
    var file := AsBmp(rgba, bmp, header);
    forall x, y | 0 <= x < bmp.width && 0 <= y < bmp.height
      ensures BmpPicture(file, bmp)(x, y) == RgbaPicture(rgba, bmp.width)(x, y)
    {
      StoredAt(rgba, bmp, header, x, y);
      hide AsBmp, FileRow;
      var i := |header| + 4 * (FileRow(bmp, y) * bmp.width + x);
      assert FourAt(file, i)[0] == file[i] && FourAt(file, i)[1] == file[i + 1];
      assert FourAt(file, i)[2] == file[i + 2] && FourAt(file, i)[3] == file[i + 3];
    }
    forall y | 0 <= y < bmp.height ensures CanRead(file, bmp, y) { WholeRow(file, bmp, y); }
  }

  lemma WholeRow(file: seq<Byte>, bmp: Bmp, y: int)
    requires 0 <= y < bmp.height && 0 <= bmp.pixelOffset && |file| == bmp.pixelOffset + bmp.width * bmp.height * 4
    ensures CanRead(file, bmp, y)
  {
    var row := FileRow(bmp, y);
    MulMonotone(row + 1, bmp.height, bmp.width);
    MulSucc(row, bmp.width);
    RowStart(bmp.pixelOffset, row, bmp.width, 0);
    MulMonotone(0, row, bmp.width);
  }

  /** Byte by byte, what a decoded region holds of a picture in memory. */
  lemma RegionBytes(out: seq<Byte>, rgba: seq<Byte>, picture: Picture, width: nat, height: nat, region: Region,
      step: int, x: int, y: int)
    requires |rgba| == width * height * 4 && step > 0 && region.IsInside(width, height)
    requires Agree(picture, RgbaPicture(rgba, width), width, height)
    requires IsTile(out, region.Columns(step), region.Rows(step), picture, region.left, region.top, step)
    requires 0 <= x < region.Columns(step) && 0 <= y < region.Rows(step)
    ensures var from, to := 4 * ((region.top + y * step) * width + region.left + x * step),
                            4 * (y * region.Columns(step) + x);
            && 0 <= from && from + 4 <= |rgba| && 0 <= to && to + 4 <= |out|
            && FourAt(out, to) == FourAt(rgba, from)
  {
    SampleInside(region.left, region.right, step, x);
    SampleInside(region.top, region.bottom, step, y);
    var sx, sy := region.left + x * step, region.top + y * step;
    PixelNumber(width, height, sx, sy);
    PixelNumber(region.Columns(step), region.Rows(step), x, y);
    assert PixelAt(out, region.Columns(step), x, y) == PixelAt(rgba, width, sx, sy);
  }

  /** So decoding a region of the file gives the bytes of the picture, its top row first. */
  lemma BmpRegionBytes(out: seq<Byte>, rgba: seq<Byte>, bmp: Bmp, header: seq<Byte>, region: Region,
      step: int, x: int, y: int)
    requires bmp.width > 0 && bmp.pixelOffset == |header| && |rgba| == bmp.width * bmp.height * 4
    requires step > 0 && region.IsInside(bmp.width, bmp.height)
    requires IsTile(out, region.Columns(step), region.Rows(step), BmpPicture(AsBmp(rgba, bmp, header), bmp),
               region.left, region.top, step)
    requires 0 <= x < region.Columns(step) && 0 <= y < region.Rows(step)
    ensures var from, to := 4 * ((region.top + y * step) * bmp.width + region.left + x * step),
                            4 * (y * region.Columns(step) + x);
            && 0 <= from && from + 4 <= |rgba| && 0 <= to && to + 4 <= |out|
            && FourAt(out, to) == FourAt(rgba, from)
  {
    StoresAgree(rgba, bmp, header);
    hide BmpPicture, RgbaPicture, AsBmp, IsTile, FourAt;
    RegionBytes(out, rgba, BmpPicture(AsBmp(rgba, bmp, header), bmp), bmp.width, bmp.height, region, step, x, y);
  }
}
