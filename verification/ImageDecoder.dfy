/** The decoder of page images: cropping on opening, then regions of the cropped page. */
module ImageDecoder {

  import opened ImageRegion
  import opened Margins
  import opened Wrappers

  const SAMPLE := 16
  const THUMB_WIDTH := 256
  const MAX_INT := 0x7fff_ffff

  /** `m` holds the margins of a `columns` by `rows` tile of the picture, sampled every `step`. */
  ghost predicate MarginsOf(picture: Picture, columns: int, rows: int, step: int, m: Region) {
    exists pixels, tone :: AreMarginsOf(picture, columns, rows, step, m, pixels, tone)
  }

  ghost predicate AreMarginsOf(picture: Picture, columns: int, rows: int, step: int, m: Region,
      pixels: seq<Byte>, tone: Tone) {
    && |pixels| == columns * rows * 4 && IsTile(pixels, columns, rows, picture, 0, 0, step)
    && IsTone(pixels, columns, rows, tone) && AreMargins(pixels, columns, rows, tone, m)
  }

  // ---------------------------------------------------------------- the thumbnail of an image in memory

  function ThumbHeight(w: nat, h: nat): nat
    requires w > 0
  {
    if h * THUMB_WIDTH / w <= 0 then 1 else h * THUMB_WIDTH / w
  }

  /** The products of the thumbnail loops and of the rescaling stay within a 32-bit int. */
  predicate FitsInt(w: nat, h: nat)
    requires w > 0
  {
    h * THUMB_WIDTH <= MAX_INT && ThumbHeight(w, h) * h <= MAX_INT && THUMB_WIDTH * w <= MAX_INT
  }

  /** The nearest pixel of a `w` by `h` picture for each pixel of a `columns` by `rows` one. */
  function Nearest(picture: Picture, w: int, h: int, columns: int, rows: int): Picture
    requires columns > 0 && rows > 0
  {
    (x, y) => picture(x * w / columns, y * h / rows)
  }

  lemma NearestInside(k: int, size: int, count: int)
    requires 0 <= k < count && 0 < size
    ensures 0 <= k * size / count < size
  {
    MulMonotone(k + 1, count, size);
    MulSucc(k, size);
    MulMonotone(0, k, size);
    var q := k * size / count;
    if q >= size { MulMonotone(size, q, count); }
  }

  method MakeThumbnail(rgba: seq<Byte>, w: nat, h: nat, columns: nat, rows: nat) returns (temp: array<Byte>)
    requires w > 0 && h > 0 && columns > 0 && rows > 0 && |rgba| == w * h * 4
    ensures fresh(temp) && temp.Length == columns * rows * 4
    ensures IsTile(temp[..], columns, rows, Nearest(RgbaPicture(rgba, w), w, h, columns, rows), 0, 0, 1)
  {
    hide PixelOf, RgbaPicture;
    temp := new Byte[columns * rows * 4];
    ghost var picture := Nearest(RgbaPicture(rgba, w), w, h, columns, rows);
    for y := 0 to rows
      invariant y * columns * 4 <= columns * rows * 4
      invariant IsPartOfTile(temp[..], columns, y * columns, picture, 0, 0, 1)
    {
      var sy := y * h / rows;
      NearestInside(y, h, rows);
      MulMonotone(y + 1, rows, columns);
      MulSucc(y, columns);
      for x := 0 to columns
        invariant IsPartOfTile(temp[..], columns, y * columns + x, picture, 0, 0, 1)
      {
        var sx := x * w / columns;
        NearestInside(x, w, columns);
        RgbaSample(rgba, w, h, sx, sy);
        var src := (sy * w + sx) * 4;
        ghost var before := temp[..];
        PutPixel(temp, y * columns + x, Pixel(rgba[src], rgba[src + 1], rgba[src + 2], rgba[src + 3]));
        NextPixel(before, temp[..], columns, y * columns + x, picture, 0, 0, 1, x, y);
      }
    }
    WholeTile(temp[..], columns, rows, picture, 0, 0, 1);
  }

  // ---------------------------------------------------------------- rescaling the margins

  lemma FloorDiv(a: int, b: int, t: int)
    requires t > 0
    ensures a / t + b / t <= (a + b) / t <= a / t + b / t + 1
  {
    var q, r := a / t + b / t, a % t + b % t;
    assert a + b == q * t + r by { MulSub(a / t, -(b / t), t); }
    if r < t { DivMod(t, r, q); } else { MulSucc(q, t); DivMod(t, r - t, q + 1); }
  }

  lemma DivMonotone(a: int, b: int, t: int)
    requires t > 0 && a <= b
    ensures a / t <= b / t
  {
    var p, q := a / t, b / t;
    if p > q { MulMonotone(q + 1, p, t); }
  }

  /** A span of a thumbnail, scaled to the image, stays inside it and ends at most one pixel early. */
  lemma Rescale(from: int, to: int, size: int, count: int)
    requires 0 <= from <= to <= count && 0 < count && 0 <= size
    ensures 0 <= from * size / count && 0 <= (to - from) * size / count
    ensures to * size / count - 1 <= from * size / count + (to - from) * size / count <= to * size / count <= size
    ensures 0 < (to - from) * size / count <==> count <= (to - from) * size
  {
    assert from * size + (to - from) * size == to * size by { MulSub(to, from, size); }
    FloorDiv(from * size, (to - from) * size, count);
    MulMonotone(0, from, size);
    MulMonotone(0, to - from, size);
    MulMonotone(to, count, size);
    DivMonotone(to * size, count * size, count);
    DivMod(count, 0, size);
    DivMonotone(0, from * size, count);
    DivMonotone(0, (to - from) * size, count);
    FitsOnce((to - from) * size, count);
  }

  lemma FitsOnce(a: int, count: int)
    requires 0 <= a && 0 < count
    ensures 0 < a / count <==> count <= a
  {
    if 0 < a / count { MulMonotone(1, a / count, count); }
    if count <= a { DivMonotone(count, a, count); }
  }

  /** On images at least twice as large as the thumbnail, scaling the margins keeps every sample that they keep. */
  lemma RescaleKeeps(from: int, to: int, size: int, count: int, k: int)
    requires 0 <= from <= k < to <= count && 2 * count <= size
    ensures from * size / count <= k * size / count < from * size / count + (to - from) * size / count
  {
    Rescale(from, to, size, count);
    MulMonotone(from, k, size);
    DivMonotone(from * size, k * size, count);
    MulMonotone(k + 1, to, size);
    MulSucc(k, size);
    DivMonotone(k * size + 2 * count, to * size, count);
    FloorDiv(k * size, 2 * count, count);
    DivMod(count, 0, 2);
  }

  /** Where the crop of a decoded page ends, and when it is not empty. */
  lemma DecodedCropEdges(c: ImageDecoderContext, m: Region)
    requires c.source.Decoded? && c.HasSource() && c.IsDecodedCrop(m)
    ensures var rows := ThumbHeight(c.width, c.height);
            && m.right * c.width / THUMB_WIDTH - 1 <= c.cropLeft + c.cropWidth
            && c.cropLeft + c.cropWidth <= m.right * c.width / THUMB_WIDTH <= c.width
            && m.bottom * c.height / rows - 1 <= c.cropTop + c.cropHeight <= m.bottom * c.height / rows <= c.height
    ensures 4 <= c.width ==> 0 < c.cropWidth
    ensures THUMB_WIDTH <= c.width ==> 0 < c.cropWidth && 0 < c.cropHeight
  {
    hide MarginsOf, Nearest;
    var rows := ThumbHeight(c.width, c.height);
    MarginsSpan(Nearest(c.Picture(), c.width, c.height, THUMB_WIDTH, rows), THUMB_WIDTH, rows, 1, m);
    Rescale(m.left, m.right, c.width, THUMB_WIDTH);
    Rescale(m.top, m.bottom, c.height, rows);
    if 4 <= c.width { MulMonotone(64, m.right - m.left, c.width); }
    if THUMB_WIDTH <= c.width {
      ThumbIsSmaller(c.width, c.height);
      MulMonotone(1, m.bottom - m.top, c.height);
    }
  }

  /** On pages at least twice the size of the thumbnail no sampled column of ink is cropped away. */
  lemma DecodedCropKeepsColumns(c: ImageDecoderContext, m: Region, pixels: seq<Byte>, tone: Tone, x: int)
    requires c.source.Decoded? && c.HasSource() && c.IsDecodedCrop(m) && 2 * THUMB_WIDTH <= c.width
    requires AreMargins(pixels, THUMB_WIDTH, ThumbHeight(c.width, c.height), tone, m)
    requires 0 <= x < THUMB_WIDTH && IsInkedColumn(pixels, THUMB_WIDTH, ThumbHeight(c.width, c.height), tone, x)
    ensures c.cropLeft <= x * c.width / THUMB_WIDTH < c.cropLeft + c.cropWidth
  {
    hide MarginsOf, AreMargins, IsInkedColumn, IsInkedRow, Nearest;
    InkIsInside(pixels, THUMB_WIDTH, ThumbHeight(c.width, c.height), tone, m);
    hide ThumbHeight;
    RescaleKeeps(m.left, m.right, c.width, THUMB_WIDTH, x);
  }

  /** Nor any sampled row. */
  lemma DecodedCropKeepsRows(c: ImageDecoderContext, m: Region, pixels: seq<Byte>, tone: Tone, y: int)
    requires c.source.Decoded? && c.HasSource() && c.IsDecodedCrop(m) && 2 * ThumbHeight(c.width, c.height) <= c.height
    requires AreMargins(pixels, THUMB_WIDTH, ThumbHeight(c.width, c.height), tone, m)
    requires 0 <= y < ThumbHeight(c.width, c.height) && IsInkedRow(pixels, THUMB_WIDTH, tone, y)
    ensures c.cropTop <= y * c.height / ThumbHeight(c.width, c.height) < c.cropTop + c.cropHeight
  {
    hide MarginsOf, AreMargins, IsInkedColumn, IsInkedRow, Nearest;
    InkIsInside(pixels, THUMB_WIDTH, ThumbHeight(c.width, c.height), tone, m);
    hide ThumbHeight;
    RescaleKeeps(m.top, m.bottom, c.height, ThumbHeight(c.width, c.height), y);
  }

  /** No sampled row or column of ink of a BMP page is cropped away. */
  lemma BmpCropKeepsInk(c: ImageDecoderContext, m: Region, pixels: seq<Byte>, tone: Tone)
    requires c.source.BmpFile? && SAMPLE <= c.width && SAMPLE <= c.height && c.IsBmpCrop(m)
    requires AreMargins(pixels, c.width / SAMPLE, c.height / SAMPLE, tone, m)
    ensures forall x ::
              0 <= x < c.width / SAMPLE && IsInkedColumn(pixels, c.width / SAMPLE, c.height / SAMPLE, tone, x) ==>
              c.cropLeft <= x * SAMPLE < c.cropLeft + c.cropWidth
    ensures forall y :: 0 <= y < c.height / SAMPLE && IsInkedRow(pixels, c.width / SAMPLE, tone, y) ==>
              c.cropTop <= y * SAMPLE < c.cropTop + c.cropHeight
  {
    InkIsInside(pixels, c.width / SAMPLE, c.height / SAMPLE, tone, m);
    hide AreMargins, MarginsOf, IsInkedColumn, IsInkedRow;
  }

  /** A BMP page is reported whole exactly when its margins are the whole sample, and sixteen divides its size. */
  lemma BmpPageIsWhole(c: ImageDecoderContext, m: Region)
    requires c.source.BmpFile? && SAMPLE <= c.width && SAMPLE <= c.height && c.IsBmpCrop(m)
    ensures c.IsUncropped() <==> m == Region(0, 0, c.width / 16, c.height / 16)
                                 && c.width % 16 == 0 && c.height % 16 == 0
    ensures m.right == c.width / 16 ==> c.cropLeft + c.cropWidth == c.width - c.width % 16
    ensures m.bottom == c.height / 16 ==> c.cropTop + c.cropHeight == c.height - c.height % 16
  {
    hide MarginsOf;
    MarginsSpan(c.Picture(), c.width / SAMPLE, c.height / SAMPLE, SAMPLE, m);
  }

  lemma InkIsInside(pixels: seq<Byte>, w: int, h: int, tone: Tone, m: Region)
    requires 0 < w && 0 < h && AreMargins(pixels, w, h, tone, m)
    ensures 0 <= m.left < m.right <= w && 0 <= m.top < m.bottom <= h
    ensures forall x :: 0 <= x < w && IsInkedColumn(pixels, w, h, tone, x) ==> m.left <= x < m.right
    ensures forall y :: 0 <= y < h && IsInkedRow(pixels, w, tone, y) ==> m.top <= y < m.bottom
  {
    hide IsInkedColumn, IsInkedRow;
  }

  lemma ThumbIsSmaller(w: nat, h: nat)
    requires THUMB_WIDTH <= w && 0 < h
    ensures ThumbHeight(w, h) <= h
  {
    MulMonotone(THUMB_WIDTH, w, h);
    DivMonotone(h * THUMB_WIDTH, h * w, w);
    DivMod(w, 0, h);
  }

  lemma MarginsSpan(picture: Picture, columns: int, rows: int, step: int, m: Region)
    requires 0 < columns && 0 < rows && MarginsOf(picture, columns, rows, step, m)
    ensures 0 <= m.left < m.right <= columns && 0 <= m.top < m.bottom <= rows
    ensures m.right - m.left >= columns / 4 && m.bottom - m.top >= rows / 4
  {
    hide IsTile, IsTone, IsInkedRow, IsInkedColumn;
    var pixels, tone :| AreMarginsOf(picture, columns, rows, step, m, pixels, tone);
  }

  // ---------------------------------------------------------------- the decoder

  datatype Source = BmpFile(file: seq<Byte>, bmp: Bmp) | Decoded(rgba: seq<Byte>) | NoImage

  class ImageDecoderContext {
    const source: Source
    const width: nat
    const height: nat
    var cropLeft: int
    var cropTop: int
    var cropWidth: int
    var cropHeight: int

    predicate HasSource() {
      match source
      case BmpFile(_, bmp) => width == bmp.width && height == bmp.height
      case Decoded(rgba) => 0 < width && 0 < height && |rgba| == width * height * 4
      case NoImage => true
    }

    predicate CropIsInside()
      reads this
    {
      && 0 <= cropLeft && 0 <= cropWidth && cropLeft + cropWidth <= width
      && 0 <= cropTop && 0 <= cropHeight && cropTop + cropHeight <= height
    }

    predicate IsUncropped()
      reads this
    {
      cropLeft == 0 && cropTop == 0 && cropWidth == width && cropHeight == height
    }

    function Picture(): Picture
      requires !source.NoImage?
    {
      match source
      case BmpFile(file, bmp) => BmpPicture(file, bmp)
      case Decoded(rgba) => RgbaPicture(rgba, width)
    }

    /** The crop is the margins of the page sampled every sixteenth pixel. */
    ghost predicate IsBmpCrop(m: Region)
      requires source.BmpFile?
      reads this
    {
      && MarginsOf(Picture(), width / SAMPLE, height / SAMPLE, SAMPLE, m)
      && cropLeft == m.left * SAMPLE && cropWidth == (m.right - m.left) * SAMPLE
      && cropTop == m.top * SAMPLE && cropHeight == (m.bottom - m.top) * SAMPLE
    }

    /** The crop is the margins of the thumbnail, scaled to the page. */
    ghost predicate IsDecodedCrop(m: Region)
      requires source.Decoded? && width > 0
      reads this
    {
      var rows := ThumbHeight(width, height);
      && MarginsOf(Nearest(Picture(), width, height, THUMB_WIDTH, rows), THUMB_WIDTH, rows, 1, m)
      && cropLeft == m.left * width / THUMB_WIDTH && cropWidth == (m.right - m.left) * width / THUMB_WIDTH
      && cropTop == m.top * height / rows && cropHeight == (m.bottom - m.top) * height / rows
    }

    /** Opens an image. `hasMemory` says whether the scratch buffer can be allocated. */
    constructor (source: Source, width: nat, height: nat, cropBorders: bool, hasMemory: bool)
      requires match source
               case BmpFile(_, bmp) => width == bmp.width && height == bmp.height
               case Decoded(rgba) => 0 < width && 0 < height && |rgba| == width * height * 4
                   && (cropBorders ==> FitsInt(width, height))
               case NoImage => true
      ensures this.source == source && this.width == width && this.height == height
      ensures HasSource() && CropIsInside()
      ensures !cropBorders ==> IsUncropped()
      ensures cropBorders && hasMemory && source.Decoded? ==> exists m :: IsDecodedCrop(m)
    {
      this.source := source;
      this.width := width;
      this.height := height;
      cropLeft, cropTop, cropWidth, cropHeight := 0, 0, width, height;
      new;
      if cropBorders {
        if source.BmpFile? {
          PerformBmpAutocrop(hasMemory);
        } else {
          PerformLinuxAutocrop(hasMemory);
        }
      }
    }

    method Uncrop()
      modifies this
      ensures IsUncropped()
    {
      cropLeft, cropTop, cropWidth, cropHeight := 0, 0, width, height;
    }

    /** Crops a BMP page to its margins, measured on every sixteenth pixel. */
    method PerformBmpAutocrop(hasMemory: bool)
      requires HasSource() && source.BmpFile?
      modifies this
      ensures CropIsInside()
      ensures if hasMemory && SAMPLE <= width && SAMPLE <= height
          && CanReadRows(source.file, source.bmp, 0, SAMPLE, height / SAMPLE)
              then exists m :: IsBmpCrop(m) && 0 < cropWidth && 0 < cropHeight
              else IsUncropped()
    {
      var columns, rows := width / SAMPLE, height / SAMPLE;
      if columns <= 0 || rows <= 0 {
        Uncrop();
        return;
      }
      if !hasMemory {
        Uncrop();
        return;
      }
      MulMonotone(0, columns, rows);
      var temp := new Byte[columns * rows * 4];
      var ok := DecodeBmpRegion(source.file, source.bmp, Region(0, 0, width, height), SAMPLE, temp);
      if ok {
        var m, tone := FindMargins(temp[..], columns, rows);
        assert AreMarginsOf(Picture(), columns, rows, SAMPLE, m, temp[..], tone);
        cropLeft := m.left * SAMPLE;
        cropTop := m.top * SAMPLE;
        cropWidth := (m.right - m.left) * SAMPLE;
        cropHeight := (m.bottom - m.top) * SAMPLE;
        assert IsBmpCrop(m);
      } else {
        Uncrop();
      }
    }

    /** Crops a decoded page to its margins, measured on a thumbnail. */
    method PerformLinuxAutocrop(hasMemory: bool)
      requires HasSource() && !source.BmpFile? && (source.Decoded? ==> FitsInt(width, height))
      modifies this
      ensures CropIsInside()
      ensures if source.NoImage? || !hasMemory then IsUncropped() else exists m :: IsDecodedCrop(m)
    {
      hide IsTile, IsTone, AreMargins, Nearest, RgbaPicture;
      if source.NoImage? {
        Uncrop();
        return;
      }
      var rows := height * THUMB_WIDTH / width;
      if rows <= 0 { rows := 1; }
      if !hasMemory {
        Uncrop();
        return;
      }
      var temp := MakeThumbnail(source.rgba, width, height, THUMB_WIDTH, rows);
      var m, tone := FindMargins(temp[..], THUMB_WIDTH, rows);
      assert AreMarginsOf(Nearest(Picture(), width, height, THUMB_WIDTH, rows), THUMB_WIDTH, rows, 1,
          m, temp[..], tone);
      hide AreMarginsOf;
      Rescale(m.left, m.right, width, THUMB_WIDTH);
      Rescale(m.top, m.bottom, height, rows);
      cropLeft := m.left * width / THUMB_WIDTH;
      cropTop := m.top * height / rows;
      cropWidth := (m.right - m.left) * width / THUMB_WIDTH;
      cropHeight := (m.bottom - m.top) * height / rows;
      assert IsDecodedCrop(m);
    }

    /** Decodes a region of the cropped page; every sample lies inside the image. */
    method DecodeRegion(region: Region, step: int, out: array<Byte>) returns (ok: bool)
      requires HasSource() && CropIsInside()
      requires step > 0 && region.IsInside(cropWidth, cropHeight) && region.FitsIn(out.Length, step)
      modifies out
      ensures ok <==> (!source.NoImage? && 0 < region.Columns(step) && 0 < region.Rows(step) &&
                       (source.BmpFile? ==> CanReadRows(source.file, source.bmp, region.top + cropTop, step,
                           region.Rows(step))))
      ensures ok ==> IsTile(out[..], region.Columns(step), region.Rows(step), Picture(), region.left + cropLeft,
          region.top + cropTop, step)
    {
      var raw := region.Shifted(cropLeft, cropTop);
      assert raw.IsInside(width, height) && raw.Columns(step) == region.Columns(step)
          && raw.Rows(step) == region.Rows(step);
      match source {
        case BmpFile(file, bmp) =>
          ok := DecodeBmpRegion(file, bmp, raw, step, out);
        case NoImage =>
          ok := false;
        case Decoded(rgba) =>
          ok := DecodeRgba(rgba, width, height, raw, step, out);
      }
    }
  }
}
