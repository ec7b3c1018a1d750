/** Exactly when the crop of a decoded page is empty, loses ink, or overflows. */
module CropLimits {

  import opened ImageRegion
  import opened Margins
  import opened ImageDecoder
  import opened Wrappers

  ghost predicate IsPage(rgba: seq<Byte>, w: nat, h: nat) { 0 < w && 0 < h && |rgba| == w * h * 4 }

  /** The margins that cropping a decoded page finds. */
  ghost predicate PageMargins(rgba: seq<Byte>, w: nat, h: nat, m: Region)
    requires w > 0
  {
    MarginsOf(Nearest(RgbaPicture(rgba, w), w, h, THUMB_WIDTH, ThumbHeight(w, h)), THUMB_WIDTH, ThumbHeight(w, h), 1, m)
  }

  // ---------------------------------------------------------------- spans of a thumbnail

  /** Thumbnail pixels of one image pixel are on the same side of both ends of the span. */
  predicate IsAligned(from: int, to: int, size: int, count: int)
    requires count > 0
  {
    && 0 <= from < to <= count
    && (from == 0 || (from - 1) * size / count < from * size / count)
    && (to == count || (to - 1) * size / count < to * size / count)
  }

  /** The pixel count cannot be divided among the thumbnail's, and one pixel takes up a quarter of them. */
  predicate CanVanish(size: int, count: int)
    requires size > 0
  {
    size < count && count % size != 0 && count / size >= count / 4
  }

  lemma DivBounds(a: int, n: int)
    requires n > 0
    ensures a / n * n <= a < a / n * n + n
  {
  }

  /** A multiple of `n` lies between numbers with different quotients. */
  lemma BetweenQuotients(a: int, b: int, n: int)
    requires n > 0 && a / n < b / n
    ensures a < b / n * n <= b
  {
    DivBounds(a, n);
    DivBounds(b, n);
    MulMonotone(a / n + 1, b / n, n);
    MulSucc(a / n, n);
  }

  /** The image pixel behind a border starts right there. */
  lemma Border(k: int, size: int, count: int)
    requires 0 <= k <= count && 0 < count && 0 < size
    requires k == 0 || k == count || (k - 1) * size / count < k * size / count
    ensures k * size - size < k * size / count * count <= k * size
  {
    MulSucc(k - 1, size);
    if k == count {
      DivMod(count, 0, size);
    } else if k > 0 {
      BetweenQuotients((k - 1) * size, k * size, count);
    }
  }

  /** Less than `count` but more than nothing: exactly one image pixel. */
  lemma OnePixel(p: int, q: int, count: int, size: int, from: int, to: int)
    requires from - size < p * count <= from && to - size < q * count <= to
    requires 0 < size <= to - from < count
    ensures to - from < count < to - from + size
  {
    assert (q - p) * count == q * count - p * count by { MulSub(q, p, count); }
    if q - p >= 2 { MulMonotone(2, q - p, count); }
    if q - p <= 0 { MulMonotone(q - p, 0, count); }
    assert q - p == 1;
  }

  /** An aligned span of at least a quarter is scaled to nothing only if one image pixel can vanish. */
  lemma AlignedSpan(from: int, to: int, size: int, count: int)
    requires count > 0 && size > 0 && IsAligned(from, to, size, count) && to - from >= count / 4
    requires (to - from) * size < count
    ensures CanVanish(size, count)
  {
    Border(from, size, count);
    Border(to, size, count);
    var n := to - from;
    assert n * size == to * size - from * size by { MulSub(to, from, size); }
    MulMonotone(1, n, size);
    OnePixel(from * size / count, to * size / count, count, size, from * size, to * size);
    DivMod(size, count - n * size, n);
  }

  // ---------------------------------------------------------------- the margins are aligned

  /** Two columns with the same pixels are both inked or both not. */
  lemma SameColumns(pixels: seq<Byte>, w: int, h: int, tone: Tone, x: int, x': int)
    requires forall y :: 0 <= y < h ==> PixelAt(pixels, w, x, y) == PixelAt(pixels, w, x', y)
    ensures IsInkedColumn(pixels, w, h, tone, x) == IsInkedColumn(pixels, w, h, tone, x')
  {
    hide PixelAt, IsBackground;
    assert Below(h, ColumnTest(pixels, w, tone, x)) == Below(h, ColumnTest(pixels, w, tone, x'));
  }

  lemma SameRows(pixels: seq<Byte>, w: int, tone: Tone, y: int, y': int)
    requires forall x :: 0 <= x < w ==> PixelAt(pixels, w, x, y) == PixelAt(pixels, w, x, y')
    ensures IsInkedRow(pixels, w, tone, y) == IsInkedRow(pixels, w, tone, y')
  {
    hide PixelAt, IsBackground;
    assert Below(w, RowTest(pixels, w, tone, y)) == Below(w, RowTest(pixels, w, tone, y'));
  }

  /** A pixel of the thumbnail. */
  lemma ThumbPixel(pixels: seq<Byte>, picture: Picture, w: int, h: int, columns: int, rows: int, x: int, y: int)
    requires columns > 0 && rows > 0 && IsTile(pixels, columns, rows, Nearest(picture, w, h, columns, rows), 0, 0, 1)
    requires 0 <= x < columns && 0 <= y < rows
    ensures PixelAt(pixels, columns, x, y) == picture(x * w / columns, y * h / rows)
  {
    assert PixelAt(pixels, columns, x, y) == Nearest(picture, w, h, columns, rows)(0 + x * 1, 0 + y * 1);
  }

  lemma NeighbourColumns(pixels: seq<Byte>, picture: Picture, w: int, h: int, columns: int, rows: int,
      tone: Tone, x: int)
    requires columns > 0 && rows > 0 && IsTile(pixels, columns, rows, Nearest(picture, w, h, columns, rows), 0, 0, 1)
    requires 0 < x < columns && (x - 1) * w / columns == x * w / columns
    ensures IsInkedColumn(pixels, columns, rows, tone, x - 1) == IsInkedColumn(pixels, columns, rows, tone, x)
  {
    hide IsTile, IsInkedColumn, Nearest, PixelAt;
    forall y | 0 <= y < rows ensures PixelAt(pixels, columns, x - 1, y) == PixelAt(pixels, columns, x, y) {
      ThumbPixel(pixels, picture, w, h, columns, rows, x - 1, y);
      ThumbPixel(pixels, picture, w, h, columns, rows, x, y);
    }
    SameColumns(pixels, columns, rows, tone, x - 1, x);
  }

  lemma NeighbourRows(pixels: seq<Byte>, picture: Picture, w: int, h: int, columns: int, rows: int, tone: Tone, y: int)
    requires columns > 0 && rows > 0 && IsTile(pixels, columns, rows, Nearest(picture, w, h, columns, rows), 0, 0, 1)
    requires 0 < y < rows && (y - 1) * h / rows == y * h / rows
    ensures IsInkedRow(pixels, columns, tone, y - 1) == IsInkedRow(pixels, columns, tone, y)
  {
    hide IsTile, IsInkedRow, Nearest, PixelAt;
    forall x | 0 <= x < columns ensures PixelAt(pixels, columns, x, y - 1) == PixelAt(pixels, columns, x, y) {
      ThumbPixel(pixels, picture, w, h, columns, rows, x, y - 1);
      ThumbPixel(pixels, picture, w, h, columns, rows, x, y);
    }
    SameRows(pixels, columns, tone, y - 1, y);
  }

  /** No border of the margins runs through one pixel of the page. */
  lemma MarginsAreAligned(pixels: seq<Byte>, picture: Picture, w: int, h: int, columns: int, rows: int,
      tone: Tone, m: Region)
    requires columns > 0 && rows > 0 && w > 0 && h > 0
    requires AreMarginsOf(Nearest(picture, w, h, columns, rows), columns, rows, 1, m, pixels, tone)
    ensures IsAligned(m.left, m.right, w, columns) && IsAligned(m.top, m.bottom, h, rows)
    ensures m.right - m.left >= columns / 4 && m.bottom - m.top >= rows / 4
  {
    hide IsTile, IsTone, IsInkedRow, IsInkedColumn, Nearest;
    if tone != Other {
      var box :| IsInkBox(pixels, columns, rows, tone, box)
              && m == if IsTooSmall(box, columns, rows) then Region(0, 0, columns, rows) else box;
      ColumnsAreAligned(pixels, picture, w, h, columns, rows, tone, box.left, box.right);
      RowsAreAligned(pixels, picture, w, h, columns, rows, tone, box.top, box.bottom);
    }
  }

  lemma ColumnsAreAligned(pixels: seq<Byte>, picture: Picture, w: int, h: int, columns: int, rows: int, tone: Tone,
      left: int, right: int)
    requires columns > 0 && rows > 0 && w > 0
    requires IsTile(pixels, columns, rows, Nearest(picture, w, h, columns, rows), 0, 0, 1)
    requires SpansColumns(pixels, columns, rows, tone, left, right)
    ensures IsAligned(left, right, w, columns)
  {
    hide IsTile, IsInkedColumn, Nearest;
    if left > 0 {
      QuotientGrows(left, w, columns);
      if (left - 1) * w / columns == left * w / columns {
        NeighbourColumns(pixels, picture, w, h, columns, rows, tone, left);
      }
    }
    if right < columns {
      QuotientGrows(right, w, columns);
      if (right - 1) * w / columns == right * w / columns {
        NeighbourColumns(pixels, picture, w, h, columns, rows, tone, right);
      }
    }
  }

  lemma RowsAreAligned(pixels: seq<Byte>, picture: Picture, w: int, h: int, columns: int, rows: int, tone: Tone,
      top: int, bottom: int)
    requires columns > 0 && rows > 0 && h > 0
    requires IsTile(pixels, columns, rows, Nearest(picture, w, h, columns, rows), 0, 0, 1)
    requires SpansRows(pixels, columns, rows, tone, top, bottom)
    ensures IsAligned(top, bottom, h, rows)
  {
    hide IsTile, IsInkedRow, Nearest;
    if top > 0 {
      QuotientGrows(top, h, rows);
      if (top - 1) * h / rows == top * h / rows { NeighbourRows(pixels, picture, w, h, columns, rows, tone, top); }
    }
    if bottom < rows {
      QuotientGrows(bottom, h, rows);
      if (bottom - 1) * h / rows == bottom * h / rows {
        NeighbourRows(pixels, picture, w, h, columns, rows, tone, bottom);
      }
    }
  }

  lemma QuotientGrows(k: int, size: int, count: int)
    requires size > 0 && count > 0
    ensures (k - 1) * size / count <= k * size / count
  {
    MulSucc(k - 1, size);
    DivMonotone((k - 1) * size, k * size, count);
  }

  /** A page whose width, or height, cannot vanish is never reported as nothing wide, or nothing high. */
  lemma CropIsNotEmpty(rgba: seq<Byte>, w: nat, h: nat, m: Region)
    requires IsPage(rgba, w, h) && PageMargins(rgba, w, h, m)
    ensures !CanVanish(w, THUMB_WIDTH) ==> 0 < (m.right - m.left) * w / THUMB_WIDTH
    ensures !CanVanish(h, ThumbHeight(w, h)) ==> 0 < (m.bottom - m.top) * h / ThumbHeight(w, h)
  {
    hide Nearest, RgbaPicture, AreMarginsOf, CanVanish, IsAligned;
    var rows := ThumbHeight(w, h);
    var pixels, tone :| AreMarginsOf(Nearest(RgbaPicture(rgba, w), w, h, THUMB_WIDTH, rows), THUMB_WIDTH, rows,
        1, m, pixels, tone);
    MarginsAreAligned(pixels, RgbaPicture(rgba, w), w, h, THUMB_WIDTH, rows, tone, m);
    if !CanVanish(w, THUMB_WIDTH) { SpanIsKept(m.left, m.right, w, THUMB_WIDTH); }
    if !CanVanish(h, rows) { SpanIsKept(m.top, m.bottom, h, rows); }
  }

  lemma SpanIsKept(from: int, to: int, size: int, count: int)
    requires count > 0 && size > 0 && IsAligned(from, to, size, count) && to - from >= count / 4
        && !CanVanish(size, count)
    ensures 0 < (to - from) * size / count
  {
    if (to - from) * size < count { AlignedSpan(from, to, size, count); }
    Rescale(from, to, size, count);
  }

  /** Of all widths only three pixels can vanish. */
  lemma OnlyThreeVanishes(w: nat)
    requires w > 0
    ensures CanVanish(w, THUMB_WIDTH) <==> w == 3
  {
    if w >= 5 {
      DivBounds(THUMB_WIDTH, w);
      if THUMB_WIDTH / w >= 64 { MulMonotone(64, THUMB_WIDTH / w, w); }
    }
  }

  // ---------------------------------------------------------------- black and white pages

  const WHITE := Pixel(255, 255, 255, 255)
  const BLACK := Pixel(0, 0, 0, 255)

  function Shade(dark: bool): Pixel { if dark then BLACK else WHITE }

  function PageByte(w: nat, dark: (int, int) -> bool, i: nat): Byte
    requires w > 0
  {
    if i % 4 == 3 then 255 else if dark((i / 4) % w, i / 4 / w) then 0 else 255
  }

  /** A page that is black where `dark` says so. */
  function Page(w: nat, h: nat, dark: (int, int) -> bool): (rgba: seq<Byte>)
    requires w > 0
    ensures |rgba| == w * h * 4
  {
    seq(w * h * 4, i requires i >= 0 => PageByte(w, dark, i))
  }

  lemma PagePixel(w: nat, h: nat, dark: (int, int) -> bool, x: int, y: int)
    requires w > 0 && 0 <= x < w && 0 <= y < h
    ensures RgbaPicture(Page(w, h, dark), w)(x, y) == Shade(dark(x, y))
  {
    PixelNumber(w, h, x, y);
    var p := y * w + x;
    PageBytes(w, h, dark, p);
  }

  lemma PageBytes(w: nat, h: nat, dark: (int, int) -> bool, p: nat)
    requires w > 0 && p < w * h
    ensures PixelOf(Page(w, h, dark), p) == Shade(dark(p % w, p / w))
  {
    hide PageByte, Page;
    PageAt(w, h, dark, 4 * p);
    PageAt(w, h, dark, 4 * p + 1);
    PageAt(w, h, dark, 4 * p + 2);
    PageAt(w, h, dark, 4 * p + 3);
    FourBytes(w, dark, p);
  }

  lemma PageAt(w: nat, h: nat, dark: (int, int) -> bool, i: nat)
    requires w > 0 && i < w * h * 4
    ensures |Page(w, h, dark)| == w * h * 4 && Page(w, h, dark)[i] == PageByte(w, dark, i)
  {
    hide PageByte;
  }

  lemma FourBytes(w: nat, dark: (int, int) -> bool, p: nat)
    requires w > 0
    ensures Pixel(PageByte(w, dark, 4 * p), PageByte(w, dark, 4 * p + 1), PageByte(w, dark, 4 * p + 2),
        PageByte(w, dark, 4 * p + 3))
         == Shade(dark(p % w, p / w))
  {
    assert (4 * p) / 4 == p && (4 * p + 1) / 4 == p && (4 * p + 2) / 4 == p;
  }

  // ---------------------------------------------------------------- thumbnails with dark columns or rows

  /** The thumbnail of a page on which only columns, or only rows, are dark. */
  ghost predicate IsStriped(pixels: seq<Byte>, rows: int, inColumns: bool, dark: int -> bool) {
    && 0 < rows && |pixels| == 256 * rows * 4
    && forall x, y :: 0 <= x < 256 && 0 <= y < rows ==>
        PixelAt(pixels, 256, x, y) == Shade(dark(if inColumns then x else y))
  }

  lemma {:induction false} CountAll(n: nat, test: int -> bool)
    requires forall i :: 0 <= i < n ==> test(i)
    ensures |Below(n, test)| == n
  {
    if n > 0 {
      CountAll(n - 1, test);
      CountNext(n - 1, test);
      hide Below;
    }
  }

  lemma CountNone(n: nat, test: int -> bool)
    requires forall i :: 0 <= i < n ==> !test(i)
    ensures |Below(n, test)| == 0
  {
    assert Below(n, test) == {};
  }

  lemma SubsetSize(s: set<int>, part: set<int>)
    requires part <= s
    ensures |part| <= |s|
  {
    assert s == part + (s - part);
  }

  /** A white sample. */
  lemma SampleIsWhite(pixels: seq<Byte>, rows: int, i: int, x: int, y: int)
    requires 0 <= i < 8 && SamplePoints(256, rows)[i] == y * 256 + x && PixelAt(pixels, 256, x, y) == WHITE
    ensures SampleTest(pixels, 256, rows, White)(i)
  {
  }

  lemma WhiteMajority(pixels: seq<Byte>, rows: int, samples: set<int>)
    requires samples <= {0, 1, 2, 3, 4, 5, 6, 7} && |samples| >= 5
    requires forall i :: i in samples ==> SampleTest(pixels, 256, rows, White)(i)
    ensures IsTone(pixels, 256, rows, White)
  {
    hide SampleTest;
    SubsetSize(Below(8, SampleTest(pixels, 256, rows, White)), samples);
  }

  /** Dark columns away from the edges leave a white background. */
  lemma ColumnsOnWhite(pixels: seq<Byte>, rows: int, dark: int -> bool)
    requires IsStriped(pixels, rows, true, dark) && !dark(0) && !dark(255)
    ensures IsTone(pixels, 256, rows, White)
  {
    hide PixelAt;
    var middle := rows / 2;
    SampleIsWhite(pixels, rows, 0, 0, 0);
    SampleIsWhite(pixels, rows, 1, 255, 0);
    SampleIsWhite(pixels, rows, 2, 0, rows - 1);
    SampleIsWhite(pixels, rows, 3, 255, rows - 1);
    SampleIsWhite(pixels, rows, 6, 0, middle);
    SampleIsWhite(pixels, rows, 7, 255, middle);
    hide IsStriped, SampleTest, SamplePoints;
    WhiteMajority(pixels, rows, {0, 1, 2, 3, 6, 7});
  }

  /** So do dark rows at the bottom. */
  lemma RowsOnWhite(pixels: seq<Byte>, rows: int, dark: int -> bool)
    requires IsStriped(pixels, rows, false, dark) && !dark(0) && !dark(rows / 2)
    ensures IsTone(pixels, 256, rows, White)
  {
    hide PixelAt;
    var middle := rows / 2;
    SampleIsWhite(pixels, rows, 0, 0, 0);
    SampleIsWhite(pixels, rows, 1, 255, 0);
    SampleIsWhite(pixels, rows, 4, 128, 0);
    SampleIsWhite(pixels, rows, 6, 0, middle);
    SampleIsWhite(pixels, rows, 7, 255, middle);
    hide IsStriped, SampleTest, SamplePoints;
    WhiteMajority(pixels, rows, {0, 1, 4, 6, 7});
  }

  lemma InkOfShade(dark: bool)
    ensures IsBackground(White, Shade(dark)) <==> !dark
  {
  }

  /** Across the stripes a line is all ink or none. */
  lemma StripeColumn(pixels: seq<Byte>, rows: int, dark: int -> bool, x: int)
    requires IsStriped(pixels, rows, true, dark) && rows >= 2 && 0 <= x < 256
    ensures IsInkedColumn(pixels, 256, rows, White, x) <==> dark(x)
  {
    hide PixelAt, IsBackground, Shade;
    InkOfShade(dark(x));
    var test := ColumnTest(pixels, 256, White, x);
    forall y | 0 <= y < rows ensures test(y) <==> dark(x) {
    }
    hide ColumnTest, IsStriped, Below;
    if dark(x) { CountAll(rows, test); } else { CountNone(rows, test); }
  }

  lemma StripeRow(pixels: seq<Byte>, rows: int, dark: int -> bool, y: int)
    requires IsStriped(pixels, rows, false, dark) && 0 <= y < rows
    ensures IsInkedRow(pixels, 256, White, y) <==> dark(y)
  {
    hide PixelAt, IsBackground, Shade;
    InkOfShade(dark(y));
    var test := RowTest(pixels, 256, White, y);
    forall x | 0 <= x < 256 ensures test(x) <==> dark(y) {
    }
    hide RowTest, IsStriped, Below;
    if dark(y) { CountAll(256, test); } else { CountNone(256, test); }
  }

  /** Along the stripes all lines are alike, so the margins keep all of them. */
  lemma StripedMargins(pixels: seq<Byte>, rows: int, dark: int -> bool, left: int, right: int)
    requires IsStriped(pixels, rows, true, dark) && rows >= 2
    requires 0 <= left < right <= 256 && right - left >= 64 && dark(left) && dark(right - 1)
    requires forall x :: 0 <= x < 256 && dark(x) ==> left <= x < right
    ensures AreMargins(pixels, 256, rows, White, Region(left, 0, right, rows))
  {
    forall x | 0 <= x < 256 ensures IsInkedColumn(pixels, 256, rows, White, x) <==> dark(x) {
      StripeColumn(pixels, rows, dark, x);
    }
    forall y | 0 <= y < rows ensures IsInkedRow(pixels, 256, White, y) == IsInkedRow(pixels, 256, White, 0) {
      hide PixelAt, Shade;
      SameRows(pixels, 256, White, y, 0);
    }
    hide IsInkedRow, IsInkedColumn, IsStriped;
    AllOrNoRows(pixels, 256, rows, White);
    assert IsInkBox(pixels, 256, rows, White, Region(left, 0, right, rows));
  }

  lemma AllOrNoRows(pixels: seq<Byte>, w: int, rows: int, tone: Tone)
    requires 0 < rows && forall y :: 0 <= y < rows ==> IsInkedRow(pixels, w, tone, y) == IsInkedRow(pixels, w, tone, 0)
    ensures SpansRows(pixels, w, rows, tone, 0, rows)
  {
    hide IsInkedRow;
  }

  lemma AllOrNoColumns(pixels: seq<Byte>, w: int, rows: int, tone: Tone)
    requires 0 < w && forall x :: 0 <= x < w ==>
        IsInkedColumn(pixels, w, rows, tone, x) == IsInkedColumn(pixels, w, rows, tone, 0)
    ensures SpansColumns(pixels, w, rows, tone, 0, w)
  {
    hide IsInkedColumn;
  }

  lemma BandedMargins(pixels: seq<Byte>, rows: int, dark: int -> bool, top: int)
    requires IsStriped(pixels, rows, false, dark)
    requires 0 <= top < rows && rows - top >= rows / 4
    requires forall y :: 0 <= y < rows ==> (dark(y) <==> top <= y)
    ensures AreMargins(pixels, 256, rows, White, Region(0, top, 256, rows))
  {
    forall y | 0 <= y < rows ensures IsInkedRow(pixels, 256, White, y) <==> dark(y) {
      StripeRow(pixels, rows, dark, y);
    }
    forall x | 0 <= x < 256 ensures IsInkedColumn(pixels, 256, rows, White, x)
        == IsInkedColumn(pixels, 256, rows, White, 0) {
      hide PixelAt, Shade;
      SameColumns(pixels, 256, rows, White, x, 0);
    }
    hide IsInkedRow, IsInkedColumn, IsStriped;
    AllOrNoColumns(pixels, 256, rows, White);
    assert IsInkBox(pixels, 256, rows, White, Region(0, top, 256, rows));
  }

  // ---------------------------------------------------------------- exactly the pages that vanish

  /** What a page looks like in its thumbnail. */
  function ThumbDark(w: nat, h: nat, rows: nat, dark: (int, int) -> bool): (int, int) -> bool
    requires rows > 0
  {
    (x: int, y: int) => dark(x * w / THUMB_WIDTH, y * h / rows)
  }

  lemma PageThumb(w: nat, h: nat, dark: (int, int) -> bool)
    requires w > 0 && h > 0
    ensures var rows := ThumbHeight(w, h);
            && IsTile(Page(THUMB_WIDTH, rows, ThumbDark(w, h, rows, dark)), THUMB_WIDTH, rows,
                 Nearest(RgbaPicture(Page(w, h, dark), w), w, h, THUMB_WIDTH, rows), 0, 0, 1)
            && forall x, y :: 0 <= x < THUMB_WIDTH && 0 <= y < rows ==>
                 PixelAt(Page(THUMB_WIDTH, rows, ThumbDark(w, h, rows, dark)), THUMB_WIDTH, x, y)
                     == Shade(dark(x * w / THUMB_WIDTH, y * h / rows))
  {
    var rows := ThumbHeight(w, h);
    var pixels := Page(THUMB_WIDTH, rows, ThumbDark(w, h, rows, dark));
    hide Page, ThumbHeight, PixelOf, Shade;
    forall x, y | 0 <= x < THUMB_WIDTH && 0 <= y < rows
      ensures PixelAt(pixels, THUMB_WIDTH, x, y) == Shade(dark(x * w / THUMB_WIDTH, y * h / rows))
      ensures PixelAt(pixels, THUMB_WIDTH, x, y)
          == Nearest(RgbaPicture(Page(w, h, dark), w), w, h, THUMB_WIDTH, rows)(0 + x * 1, 0 + y * 1)
    {
      NearestInside(x, w, THUMB_WIDTH);
      NearestInside(y, h, rows);
      PagePixel(w, h, dark, x * w / THUMB_WIDTH, y * h / rows);
      PagePixel(THUMB_WIDTH, rows, ThumbDark(w, h, rows, dark), x, y);
    }
    MulMonotone(0, rows, THUMB_WIDTH);
  }

  /** Some page of this width is reported as nothing wide. */
  ghost predicate CanBeNarrow(w: nat)
    requires w > 0
  {
    exists rgba, h: nat, m :: IsPage(rgba, w, h) && PageMargins(rgba, w, h, m)
        && (m.right - m.left) * w / THUMB_WIDTH == 0
  }

  /** Some page of this size is reported as nothing high. */
  ghost predicate CanBeFlat(w: nat, h: nat)
    requires w > 0 && h > 0
  {
    exists rgba, m :: IsPage(rgba, w, h) && PageMargins(rgba, w, h, m)
        && (m.bottom - m.top) * h / ThumbHeight(w, h) == 0
  }

  /** A page three pixels wide with a dark column in the middle. */
  lemma ThreeIsNarrow() returns (rgba: seq<Byte>, m: Region)
    ensures rgba == STRIPE && IsPage(rgba, 3, 1) && PageMargins(rgba, 3, 1, m)
        && (m.right - m.left) * 3 / THUMB_WIDTH == 0
  {
    var dark := (x: int, y: int) => x == 1;
    StripeIsPage(dark);
    var stripe := (x: int) => x * 3 / THUMB_WIDTH == 1;
    rgba, m := Page(3, 1, dark), Region(86, 0, 171, 85);
    assert ThumbHeight(3, 1) == 85;
    PageThumb(3, 1, dark);
    var pixels := Page(THUMB_WIDTH, 85, ThumbDark(3, 1, 85, dark));
    hide Page, IsTile, PixelAt, Shade, Nearest;
    assert IsStriped(pixels, 85, true, stripe);
    hide IsStriped;
    ColumnsOnWhite(pixels, 85, stripe);
    StripedMargins(pixels, 85, stripe, 86, 171);
    hide IsTone, AreMargins;
    assert AreMarginsOf(Nearest(RgbaPicture(rgba, 3), 3, 1, THUMB_WIDTH, 85), THUMB_WIDTH, 85, 1, m, pixels, White);
  }

  /** The width of a crop can be nothing exactly for pages three pixels wide. */
  lemma NarrowExactly(w: nat)
    requires w > 0
    ensures CanBeNarrow(w) <==> w == 3
  {
    hide PageMargins, CanVanish;
    OnlyThreeVanishes(w);
    if w == 3 {
      var rgba, m := ThreeIsNarrow();
    } else if CanBeNarrow(w) {
      var rgba, h: nat, m :| IsPage(rgba, w, h) && PageMargins(rgba, w, h, m)
          && (m.right - m.left) * w / THUMB_WIDTH == 0;
      CropIsNotEmpty(rgba, w, h, m);
    }
  }

  lemma QuotientAtLeast(a: int, k: int, n: int)
    requires n > 0
    ensures k <= a / n <==> k * n <= a
  {
    DivBounds(a, n);
    if k <= a / n { MulMonotone(k, a / n, n); } else { MulMonotone(a / n + 1, k, n); MulSucc(a / n, n); }
  }

  /** The thumbnail rows of the last row of the page. */
  lemma LastRow(h: nat, rows: nat, y: int)
    requires 0 < h && 0 <= y < rows
    ensures y * h / rows == h - 1 <==> rows - rows / h <= y
  {
    NearestInside(y, h, rows);
    QuotientAtLeast(y * h, h - 1, rows);
    QuotientAtLeast(rows, rows - y, h);
    assert (rows - y) * h == rows * h - y * h by { MulSub(rows, y, h); }
    assert (h - 1) * rows == h * rows - rows by { MulSub(h, 1, rows); }
  }

  /** The thumbnail of a page whose last row alone is dark. */
  lemma LastRowThumb(w: nat, h: nat, dark: (int, int) -> bool, band: int -> bool)
    requires w > 0 && h > 0 && forall x, y :: dark(x, y) <==> y == h - 1
    requires forall y :: band(y) <==> ThumbHeight(w, h) - ThumbHeight(w, h) / h <= y
    ensures var rows := ThumbHeight(w, h);
            IsStriped(Page(THUMB_WIDTH, rows, ThumbDark(w, h, rows, dark)), rows, false, band)
  {
    PageThumb(w, h, dark);
    var rows := ThumbHeight(w, h);
    hide Page, IsTile, PixelAt, Shade, Nearest, RgbaPicture, ThumbHeight;
    forall y | 0 <= y < rows ensures y * h / rows == h - 1 <==> band(y) { LastRow(h, rows, y); }
  }

  /** The margins of that page: the last row alone. */
  function LastRowMargins(w: nat, h: nat): Region
    requires w > 0 && h > 0
  {
    var rows := ThumbHeight(w, h);
    Region(0, rows - rows / h, 256, rows)
  }

  lemma LastRowVanishes(w: nat, h: nat) returns (rgba: seq<Byte>)
    requires w > 0 && h > 0 && CanVanish(h, ThumbHeight(w, h))
    ensures IsPage(rgba, w, h) && PageMargins(rgba, w, h, LastRowMargins(w, h))
  {
    hide Page, IsTile, PixelAt, Shade, Nearest, RgbaPicture, ThumbHeight, IsStriped, IsTone, AreMargins,
        PageMargins, CanVanish;
    var rows := ThumbHeight(w, h);
    LastRowIsShort(h, rows);
    var n := rows / h;
    var dark := (x: int, y: int) => y == h - 1;
    var band := (y: int) => rows - n <= y;
    rgba := Page(w, h, dark);
    PageLength(w, h, dark);
    PageThumb(w, h, dark);
    LastRowThumb(w, h, dark, band);
    var pixels := Page(THUMB_WIDTH, rows, ThumbDark(w, h, rows, dark));
    BandIsMargins(pixels, rows, n, band, LastRowMargins(w, h));
    FoundMargins(rgba, w, h, LastRowMargins(w, h), pixels, White);
  }

  lemma LastRowIsFlat(w: nat, h: nat)
    requires w > 0 && h > 0 && CanVanish(h, ThumbHeight(w, h))
    ensures var m := LastRowMargins(w, h); (m.bottom - m.top) * h / ThumbHeight(w, h) == 0
  {
    hide ThumbHeight;
    var rows := ThumbHeight(w, h);
    LastRowIsShort(h, rows);
    hide CanVanish;
    assert rows - (rows - rows / h) == rows / h;
  }

  lemma BandIsMargins(pixels: seq<Byte>, rows: nat, n: nat, band: int -> bool, m: Region)
    requires IsStriped(pixels, rows, false, band) && 0 < n < rows && rows / 2 < rows - n && n >= rows / 4
    requires (forall y :: band(y) <==> rows - n <= y) && m == Region(0, rows - n, 256, rows)
    ensures |pixels| == 256 * rows * 4 && IsTone(pixels, 256, rows, White) && AreMargins(pixels, 256, rows, White, m)
  {
    RowsOnWhite(pixels, rows, band);
    BandedMargins(pixels, rows, band, rows - n);
    hide IsTone, AreMargins;
  }

  lemma FoundMargins(rgba: seq<Byte>, w: nat, h: nat, m: Region, pixels: seq<Byte>, tone: Tone)
    requires w > 0
    requires var rows := ThumbHeight(w, h);
             && |pixels| == THUMB_WIDTH * rows * 4 && IsTone(pixels, THUMB_WIDTH, rows, tone)
                 && AreMargins(pixels, THUMB_WIDTH, rows, tone, m)
             && IsTile(pixels, THUMB_WIDTH, rows, Nearest(RgbaPicture(rgba, w), w, h, THUMB_WIDTH, rows), 0, 0, 1)
    ensures PageMargins(rgba, w, h, m)
  {
    hide IsTile, IsTone, AreMargins, Nearest, RgbaPicture;
    var rows := ThumbHeight(w, h);
    assert AreMarginsOf(Nearest(RgbaPicture(rgba, w), w, h, THUMB_WIDTH, rows), THUMB_WIDTH, rows, 1, m, pixels, tone);
  }

  lemma PageLength(w: nat, h: nat, dark: (int, int) -> bool)
    requires w > 0
    ensures |Page(w, h, dark)| == w * h * 4
  {
  }

  lemma LastRowIsShort(h: nat, rows: nat)
    requires h > 0 && CanVanish(h, rows)
    ensures 0 < rows / h < rows && rows / 2 < rows - rows / h && rows / h >= rows / 4 && rows / h * h / rows == 0
  {
    var n := rows / h;
    DivBounds(rows, h);
    if n <= 0 { MulMonotone(n, 0, h); }
    MulMonotone(2, h, n);
    assert n * h == h * n && n * 2 == 2 * n;
    assert h >= 2;
    assert 2 * n <= n * h < rows;
    DivMod(rows, n * h, 0);
  }

  /** The height of a crop can be nothing exactly for sizes whose last row can vanish. */
  lemma FlatExactly(w: nat, h: nat)
    requires w > 0 && h > 0
    ensures CanBeFlat(w, h) <==> CanVanish(h, ThumbHeight(w, h))
  {
    hide PageMargins;
    if CanVanish(h, ThumbHeight(w, h)) {
      var rgba := LastRowVanishes(w, h);
      LastRowIsFlat(w, h);
      hide LastRowMargins, CanVanish;
      assert IsPage(rgba, w, h) && PageMargins(rgba, w, h, LastRowMargins(w, h));
    } else if CanBeFlat(w, h) {
      hide CanVanish;
      var rgba, m :| IsPage(rgba, w, h) && PageMargins(rgba, w, h, m)
          && (m.bottom - m.top) * h / ThumbHeight(w, h) == 0;
      CropIsNotEmpty(rgba, w, h, m);
    }
  }

  // ---------------------------------------------------------------- exactly the ink that is lost

  /** A scaled span loses its last sample when its far edge falls short and the sample does not. */
  predicate LosesLast(from: int, to: int, size: int, count: int)
    requires count > 0
  {
    size - count <= to * size % count < from * size % count
  }

  lemma Shortfall(a: int, b: int, n: int)
    requires n > 0
    ensures a / n + (b - a) / n == if b % n < a % n then b / n - 1 else b / n
  {
    var q, r := b / n - a / n, b % n - a % n;
    assert b - a == q * n + r by { MulSub(b / n, a / n, n); }
    if r < 0 { MulSucc(q - 1, n); DivMod(n, r + n, q - 1); } else { DivMod(n, r, q); }
  }

  lemma QuotientIs(a: int, k: int, n: int)
    requires n > 0 && k * n <= a < k * n + n
    ensures a / n == k
  {
    DivMod(n, a - k * n, k);
  }

  /** A step of `size` back from `q * n + r`. */
  lemma StepBack(q: int, r: int, size: int, n: int)
    requires n > 0 && size > 0 && 0 <= r < n && (size < n ==> r < size)
    ensures size < n ==> (q * n + r - size) / n == q - 1
    ensures n <= size < 2 * n ==> (q * n + r - size) / n == q - if r < size - n then 2 else 1
    ensures 2 * n <= size ==> (q * n + r - size) / n <= q - 2
  {
    MulSucc(q - 1, n);
    MulSucc(q - 2, n);
    var b := q * n + r - size;
    if size < n || (size < 2 * n && r >= size - n) {
      QuotientIs(b, q - 1, n);
    } else if size < 2 * n {
      QuotientIs(b, q - 2, n);
    } else {
      QuotientAtLeast(b, q - 1, n);
    }
  }

  /** Where the last sample of a span goes. */
  lemma LastSample(to: int, size: int, count: int)
    requires count > 0 && size > 0 && 0 < to <= count
    requires to == count || size >= count || (to - 1) * size / count < to * size / count
    ensures var q, r, last := to * size / count, to * size % count, (to - 1) * size / count;
            && (size < count ==> last == q - 1)
            && (count <= size < 2 * count ==> last == q - if r < size - count then 2 else 1)
            && (2 * count <= size ==> last <= q - 2)
  {
    MulSucc(to - 1, size);
    if size < count { RemainderBelow(to, size, count); }
    Division(to * size, count);
    StepBack(to * size / count, to * size % count, size, count);
  }

  lemma Division(a: int, n: int)
    requires n > 0
    ensures a == a / n * n + a % n && 0 <= a % n < n
  {
  }

  /** In front of a border less than one pixel is left. */
  lemma RemainderBelow(to: int, size: int, count: int)
    requires 0 < size < count && 0 < to <= count
    requires to == count || (to - 1) * size / count < to * size / count
    ensures to * size % count < size
  {
    if to == count {
      DivMod(count, 0, size);
    } else {
      BetweenQuotients((to - 1) * size, to * size, count);
      MulSucc(to - 1, size);
      Division(to * size, count);
    }
  }

  /** Exactly when a sample of a span is scaled behind the far edge of the scaled span. */
  lemma LostSamples(from: int, to: int, size: int, count: int)
    requires count > 0 && size > 0 && IsAligned(from, to, size, count)
    ensures (to - 1) * size / count >= from * size / count + (to - from) * size / count <==>
        LosesLast(from, to, size, count)
    ensures forall k :: from <= k < to ==> from * size / count <= k * size / count <= (to - 1) * size / count
  {
    assert (to - from) * size == to * size - from * size by { MulSub(to, from, size); }
    Shortfall(from * size, to * size, count);
    LastSample(to, size, count);
    forall k | from <= k < to ensures from * size / count <= k * size / count <= (to - 1) * size / count {
      MulMonotone(from, k, size);
      MulMonotone(k, to - 1, size);
      DivMonotone(from * size, k * size, count);
      DivMonotone(k * size, (to - 1) * size, count);
    }
  }

  /** Some sampled column of ink is not in the crop. */
  ghost predicate LosesColumn(pixels: seq<Byte>, w: nat, rows: nat, tone: Tone, m: Region) {
    exists x ::
      && 0 <= x < THUMB_WIDTH && IsInkedColumn(pixels, THUMB_WIDTH, rows, tone, x)
      && IsOutside(x, m.left, m.right, w, THUMB_WIDTH)
  }

  ghost predicate LosesRow(pixels: seq<Byte>, h: nat, rows: nat, tone: Tone, m: Region) {
    && rows > 0
    && exists y :: 0 <= y < rows && IsInkedRow(pixels, THUMB_WIDTH, tone, y) && IsOutside(y, m.top, m.bottom, h, rows)
  }

  /** Sample `k` is scaled to a place outside the scaled span. */
  predicate IsOutside(k: int, from: int, to: int, size: int, count: int)
    requires count > 0
  {
    !(from * size / count <= k * size / count < from * size / count + (to - from) * size / count)
  }

  lemma OutsideExactly(from: int, to: int, size: int, count: int)
    requires count > 0 && size > 0 && IsAligned(from, to, size, count)
    ensures IsOutside(to - 1, from, to, size, count) <==> LosesLast(from, to, size, count)
    ensures forall k :: from <= k < to && IsOutside(k, from, to, size, count) ==> LosesLast(from, to, size, count)
  {
    hide LosesLast;
    LostSamples(from, to, size, count);
    assert from <= to - 1 < to;
    forall k | from <= k < to && IsOutside(k, from, to, size, count) ensures LosesLast(from, to, size, count) {
      assert from * size / count <= k * size / count <= (to - 1) * size / count;
    }
  }

  /** Unless nothing is inked, margins that do not start at the edge end with ink. */
  lemma LastIsInked(pixels: seq<Byte>, columns: int, rows: int, tone: Tone, m: Region)
    requires 0 < columns && 0 < rows && AreMargins(pixels, columns, rows, tone, m)
    ensures m.left > 0 ==> IsInkedColumn(pixels, columns, rows, tone, m.right - 1)
    ensures m.top > 0 ==> IsInkedRow(pixels, columns, tone, m.bottom - 1)
  {
    hide IsInkedColumn, IsInkedRow;
  }

  lemma StartsBehindEdge(from: int, to: int, size: int, count: int)
    requires count > 0 && 0 <= from && LosesLast(from, to, size, count)
    ensures from > 0
  {
  }

  /** Exactly when cropping a page loses a sampled column or row of ink: the far edge falls short, and the
      last sample of the margins lies less than a pixel in front of it. */
  lemma LosesInkExactly(rgba: seq<Byte>, w: nat, h: nat, m: Region, pixels: seq<Byte>, tone: Tone)
    requires IsPage(rgba, w, h)
    requires var rows := ThumbHeight(w, h);
             AreMarginsOf(Nearest(RgbaPicture(rgba, w), w, h, THUMB_WIDTH, rows), THUMB_WIDTH, rows, 1, m, pixels, tone)
    ensures LosesColumn(pixels, w, ThumbHeight(w, h), tone, m) <==> LosesLast(m.left, m.right, w, THUMB_WIDTH)
    ensures LosesRow(pixels, h, ThumbHeight(w, h), tone, m) <==> LosesLast(m.top, m.bottom, h, ThumbHeight(w, h))
  {
    var rows := ThumbHeight(w, h);
    hide Nearest, RgbaPicture, IsTile, IsTone, AreMargins, IsInkedColumn, IsInkedRow, LosesLast, IsOutside,
        IsAligned, ThumbHeight;
    MarginsAreAligned(pixels, RgbaPicture(rgba, w), w, h, THUMB_WIDTH, rows, tone, m);
    InkIsInside(pixels, THUMB_WIDTH, rows, tone, m);
    LastIsInked(pixels, THUMB_WIDTH, rows, tone, m);
    ColumnIsLost(pixels, w, rows, tone, m);
    RowIsLost(pixels, h, rows, tone, m);
  }

  lemma ColumnIsLost(pixels: seq<Byte>, w: nat, rows: nat, tone: Tone, m: Region)
    requires w > 0 && IsAligned(m.left, m.right, w, THUMB_WIDTH)
    requires m.left > 0 ==> IsInkedColumn(pixels, THUMB_WIDTH, rows, tone, m.right - 1)
    requires forall x :: 0 <= x < THUMB_WIDTH && IsInkedColumn(pixels, THUMB_WIDTH, rows, tone, x) ==>
        m.left <= x < m.right
    ensures LosesColumn(pixels, w, rows, tone, m) <==> LosesLast(m.left, m.right, w, THUMB_WIDTH)
  {
    SpanBounds(m.left, m.right, w, THUMB_WIDTH);
    hide IsInkedColumn, LosesLast, IsOutside, IsAligned;
    OutsideExactly(m.left, m.right, w, THUMB_WIDTH);
    if LosesLast(m.left, m.right, w, THUMB_WIDTH) {
      StartsBehindEdge(m.left, m.right, w, THUMB_WIDTH);
      assert IsInkedColumn(pixels, THUMB_WIDTH, rows, tone, m.right - 1);
    }
  }

  lemma RowIsLost(pixels: seq<Byte>, h: nat, rows: nat, tone: Tone, m: Region)
    requires h > 0 && rows > 0 && IsAligned(m.top, m.bottom, h, rows)
    requires m.top > 0 ==> IsInkedRow(pixels, THUMB_WIDTH, tone, m.bottom - 1)
    requires forall y :: 0 <= y < rows && IsInkedRow(pixels, THUMB_WIDTH, tone, y) ==> m.top <= y < m.bottom
    ensures LosesRow(pixels, h, rows, tone, m) <==> LosesLast(m.top, m.bottom, h, rows)
  {
    SpanBounds(m.top, m.bottom, h, rows);
    hide IsInkedRow, LosesLast, IsOutside, IsAligned;
    OutsideExactly(m.top, m.bottom, h, rows);
    if LosesLast(m.top, m.bottom, h, rows) {
      StartsBehindEdge(m.top, m.bottom, h, rows);
      assert IsInkedRow(pixels, THUMB_WIDTH, tone, m.bottom - 1);
    }
  }

  lemma SpanBounds(from: int, to: int, size: int, count: int)
    requires count > 0 && IsAligned(from, to, size, count)
    ensures 0 <= from < to <= count
  {
  }

  /** No page at least twice as large as its thumbnail loses ink, and none of the thumbnail's size. */
  lemma SizesThatLoseNothing(from: int, to: int, size: int, count: int)
    requires count > 0 && (size >= 2 * count || size == count)
    ensures !LosesLast(from, to, size, count)
  {
    Division(to * size, count);
    if size == count { DivMod(count, 0, from); }
  }

  const LOST_WIDTH: nat := 300

  /** Two dark lines on a page 300 pixels wide. */
  const TWO_LINES: (int, int) -> bool := (x: int, y: int) => x == 2 || x == 82

  lemma TwoLinesThumb(dark: int -> bool)
    requires forall x :: dark(x) <==> x == 2 || x == 70
    ensures ThumbHeight(LOST_WIDTH, 3) == 2
    ensures IsStriped(Page(THUMB_WIDTH, 2, ThumbDark(LOST_WIDTH, 3, 2, TWO_LINES)), 2, true, dark)
  {
    assert ThumbHeight(LOST_WIDTH, 3) == 2;
    PageThumb(LOST_WIDTH, 3, TWO_LINES);
    hide Page, IsTile, PixelAt, Shade, Nearest, RgbaPicture, ThumbHeight;
    forall x | 0 <= x < 256 ensures TWO_LINES(x * LOST_WIDTH / THUMB_WIDTH, 0) <==> dark(x) {
      assert x * 300 / 256 == 2 <==> x == 2;
      assert x * 300 / 256 == 82 <==> x == 70;
    }
  }

  /** The second of them is cropped away, although the margins keep it. */
  lemma SecondLineIsLost() returns (rgba: seq<Byte>, m: Region, pixels: seq<Byte>)
    ensures IsPage(rgba, LOST_WIDTH, 3) && ThumbHeight(LOST_WIDTH, 3) == 2
    ensures AreMarginsOf(Nearest(RgbaPicture(rgba, LOST_WIDTH), LOST_WIDTH, 3, THUMB_WIDTH, 2), THUMB_WIDTH, 2,
        1, m, pixels, White)
    ensures IsInkedColumn(pixels, THUMB_WIDTH, 2, White, 70) && m.left <= 70 < m.right
    ensures m.left * LOST_WIDTH / THUMB_WIDTH + (m.right - m.left) * LOST_WIDTH / THUMB_WIDTH == 82
        == 70 * LOST_WIDTH / THUMB_WIDTH
  {
    hide Page, IsTile, PixelAt, Shade, Nearest, RgbaPicture, IsStriped, IsTone, AreMargins, ThumbDark,
        IsInkedColumn, ThumbHeight;
    var dark := (x: int) => x == 2 || x == 70;
    rgba, m, pixels := Page(LOST_WIDTH, 3, TWO_LINES), Region(2, 0, 71, 2),
        Page(THUMB_WIDTH, 2, ThumbDark(LOST_WIDTH, 3, 2, TWO_LINES));
    PageLength(LOST_WIDTH, 3, TWO_LINES);
    PageThumb(LOST_WIDTH, 3, TWO_LINES);
    TwoLinesThumb(dark);
    ColumnsOnWhite(pixels, 2, dark);
    StripedMargins(pixels, 2, dark, 2, 71);
    StripeColumn(pixels, 2, dark, 70);
    PageLength(THUMB_WIDTH, 2, ThumbDark(LOST_WIDTH, 3, 2, TWO_LINES));
  }

  // ---------------------------------------------------------------- the crop that is reported

  /** What this means for an open page. */
  lemma ReportedSize(c: ImageDecoderContext, m: Region)
    requires c.source.Decoded? && c.HasSource() && c.IsDecodedCrop(m)
    ensures c.width != 3 ==> 0 < c.cropWidth
    ensures !CanVanish(c.height, ThumbHeight(c.width, c.height)) ==> 0 < c.cropHeight
  {
    hide CanVanish, MarginsOf, Nearest, RgbaPicture;
    OnlyThreeVanishes(c.width);
    CropIsNotEmpty(c.source.rgba, c.width, c.height, m);
  }

  /** A page has one thumbnail, and so one pair of margins. */
  lemma PageMarginsAreUnique(rgba: seq<Byte>, w: nat, h: nat, one: Region, two: Region)
    requires w > 0 && PageMargins(rgba, w, h, one) && PageMargins(rgba, w, h, two)
    ensures one == two
  {
    var rows := ThumbHeight(w, h);
    assert rows > 0;
    hide IsTone, AreMargins, Nearest, RgbaPicture, ThumbHeight, PixelAt;
    var picture := Nearest(RgbaPicture(rgba, w), w, h, THUMB_WIDTH, rows);
    var a, tone :| AreMarginsOf(picture, THUMB_WIDTH, rows, 1, one, a, tone);
    var b, tone' :| AreMarginsOf(picture, THUMB_WIDTH, rows, 1, two, b, tone');
    EqualImages(a, b, THUMB_WIDTH, rows);
    hide IsTile;
    assert a == a[..THUMB_WIDTH * rows * 4] && b == b[..THUMB_WIDTH * rows * 4];
    MarginsAreUnique(a, THUMB_WIDTH, rows, tone, tone', one, two);
  }

  const STRIPE: seq<Byte> := [255, 255, 255, 255, 0, 0, 0, 255, 255, 255, 255, 255]

  lemma StripeIsPage(dark: (int, int) -> bool)
    requires forall x, y :: dark(x, y) <==> x == 1
    ensures Page(3, 1, dark) == STRIPE
  {
    forall i | 0 <= i < 12 ensures Page(3, 1, dark)[i] == STRIPE[i] {
    }
  }

  /** A page three pixels wide whose middle column alone is not background is reported as nothing wide. */
  lemma NarrowCropIsEmpty(c: ImageDecoderContext, m: Region)
    requires c.source == Decoded(STRIPE) && c.width == 3 && c.height == 1
    requires c.IsDecodedCrop(m)
    ensures c.cropWidth == 0
  {
    hide MarginsOf, Page;
    var rgba, found := ThreeIsNarrow();
    PageMarginsAreUnique(STRIPE, 3, 1, m, found);
  }

  // ---------------------------------------------------------------- exactly the pages that overflow

  /** Every product that cropping computes stays within an int. */
  ghost predicate NoOverflow(w: nat, h: nat, m: Region)
    requires w > 0
  {
    var rows := ThumbHeight(w, h);
    && h * THUMB_WIDTH <= MAX_INT
    && (forall y :: 0 <= y < rows ==> y * h <= MAX_INT) && (forall x :: 0 <= x < THUMB_WIDTH ==> x * w <= MAX_INT)
    && m.left * w <= MAX_INT && m.top * h <= MAX_INT
    && (m.right - m.left) * w <= MAX_INT && (m.bottom - m.top) * h <= MAX_INT
  }

  /** The size condition is enough for any margins, and needed when the whole page is kept. */
  lemma OverflowExactly(w: nat, h: nat, m: Region)
    requires w > 0 && 0 <= m.left < m.right <= THUMB_WIDTH && 0 <= m.top < m.bottom <= ThumbHeight(w, h)
    ensures FitsInt(w, h) ==> NoOverflow(w, h, m)
    ensures m == Region(0, 0, THUMB_WIDTH, ThumbHeight(w, h)) ==> (NoOverflow(w, h, m) <==> FitsInt(w, h))
  {
    var rows := ThumbHeight(w, h);
    if FitsInt(w, h) {
      forall y | 0 <= y < rows ensures y * h <= MAX_INT { MulMonotone(y, rows, h); }
      forall x | 0 <= x < THUMB_WIDTH ensures x * w <= MAX_INT { MulMonotone(x, THUMB_WIDTH, w); }
      MulMonotone(m.left, THUMB_WIDTH, w);
      MulMonotone(m.top, rows, h);
      MulMonotone(m.right - m.left, THUMB_WIDTH, w);
      MulMonotone(m.bottom - m.top, rows, h);
    }
  }

  const GREY := Pixel(128, 128, 128, 255)

  function GreyPage(w: nat, h: nat): (rgba: seq<Byte>)
    ensures |rgba| == w * h * 4
  {
    seq(w * h * 4, i requires i >= 0 => if i % 4 == 3 then 255 else 128)
  }

  lemma GreyPixel(w: nat, h: nat, x: int, y: int)
    requires 0 <= x < w && 0 <= y < h
    ensures PixelAt(GreyPage(w, h), w, x, y) == GREY
  {
    PixelNumber(w, h, x, y);
    var p := 4 * (y * w + x);
    assert p % 4 == 0 && (p + 1) % 4 == 1 && (p + 2) % 4 == 2 && (p + 3) % 4 == 3;
  }

  lemma GreyThumb(w: nat, h: nat)
    requires w > 0 && h > 0
    ensures var rows := ThumbHeight(w, h);
            IsTile(GreyPage(THUMB_WIDTH, rows), THUMB_WIDTH, rows,
              Nearest(RgbaPicture(GreyPage(w, h), w), w, h, THUMB_WIDTH, rows), 0, 0, 1)
  {
    var rows := ThumbHeight(w, h);
    hide GreyPage, ThumbHeight, PixelOf;
    forall x, y | 0 <= x < THUMB_WIDTH && 0 <= y < rows
      ensures PixelAt(GreyPage(THUMB_WIDTH, rows), THUMB_WIDTH, x, y)
           == Nearest(RgbaPicture(GreyPage(w, h), w), w, h, THUMB_WIDTH, rows)(0 + x * 1, 0 + y * 1)
    {
      NearestInside(x, w, THUMB_WIDTH);
      NearestInside(y, h, rows);
      GreyPixel(w, h, x * w / THUMB_WIDTH, y * h / rows);
      GreyPixel(THUMB_WIDTH, rows, x, y);
    }
    MulMonotone(0, rows, THUMB_WIDTH);
  }

  lemma GreyHasNoTone(w: nat, h: nat, tone: Tone)
    requires w > 0 && h > 0 && tone != Other
    ensures !IsMajority(GreyPage(w, h), w, h, tone)
  {
    hide GreyPage;
    var test := SampleTest(GreyPage(w, h), w, h, tone);
    forall i | 0 <= i < 8 ensures !test(i) {
      SamplesAreInside(w, h, i);
      var p := SamplePoints(w, h)[i];
      hide SamplePoints;
      PixelPlace(w, h, p);
      GreyPixel(w, h, p % w, p / w);
    }
    assert Below(8, test) == {};
  }

  lemma PixelPlace(w: nat, h: nat, p: int)
    requires 0 < w && 0 <= p < w * h
    ensures 0 <= p % w < w && 0 <= p / w < h && p / w * w + p % w == p
  {
    if p / w >= h { MulMonotone(h, p / w, w); }
  }

  /** A grey page has no background, and is kept whole. */
  lemma GreyIsKept(w: nat, h: nat)
    requires w > 0 && h > 0
    ensures IsPage(GreyPage(w, h), w, h)
    ensures PageMargins(GreyPage(w, h), w, h, Region(0, 0, THUMB_WIDTH, ThumbHeight(w, h)))
  {
    var rows := ThumbHeight(w, h);
    var pixels, m := GreyPage(THUMB_WIDTH, rows), Region(0, 0, THUMB_WIDTH, rows);
    hide GreyPage, IsTile, IsMajority, Nearest, RgbaPicture, ThumbHeight;
    GreyThumb(w, h);
    forall tone | tone != Other ensures !IsMajority(pixels, THUMB_WIDTH, rows, tone) {
      GreyHasNoTone(THUMB_WIDTH, rows, tone);
    }
    var picture := Nearest(RgbaPicture(GreyPage(w, h), w), w, h, THUMB_WIDTH, rows);
    assert AreMarginsOf(picture, THUMB_WIDTH, rows, 1, m, pixels, Other);
  }

  /** Some page of this size makes a product overflow when it is cropped. */
  ghost predicate CanOverflow(w: nat, h: nat)
    requires w > 0
  {
    exists rgba, m :: IsPage(rgba, w, h) && PageMargins(rgba, w, h, m) && !NoOverflow(w, h, m)
  }

  /** The sizes that can overflow are exactly those that the size condition excludes. */
  lemma SizesThatOverflow(w: nat, h: nat)
    requires w > 0 && h > 0
    ensures CanOverflow(w, h) <==> !FitsInt(w, h)
  {
    hide PageMargins, NoOverflow, FitsInt, ThumbHeight;
    if FitsInt(w, h) {
      forall rgba, m | IsPage(rgba, w, h) && PageMargins(rgba, w, h, m) ensures NoOverflow(w, h, m) {
        PageSpan(rgba, w, h, m);
        OverflowExactly(w, h, m);
      }
    } else {
      var m := Region(0, 0, THUMB_WIDTH, ThumbHeight(w, h));
      GreyIsKept(w, h);
      PageSpan(GreyPage(w, h), w, h, m);
      OverflowExactly(w, h, m);
      assert IsPage(GreyPage(w, h), w, h) && PageMargins(GreyPage(w, h), w, h, m);
    }
  }

  lemma PageSpan(rgba: seq<Byte>, w: nat, h: nat, m: Region)
    requires w > 0 && PageMargins(rgba, w, h, m)
    ensures 0 <= m.left < m.right <= THUMB_WIDTH && 0 <= m.top < m.bottom <= ThumbHeight(w, h)
  {
    hide MarginsOf, Nearest, RgbaPicture;
    MarginsSpan(Nearest(RgbaPicture(rgba, w), w, h, THUMB_WIDTH, ThumbHeight(w, h)), THUMB_WIDTH,
        ThumbHeight(w, h), 1, m);
  }

  /** A strip of pages 500 pixels wide and 65500 high can. */
  lemma TallStripOverflows()
    ensures CanOverflow(500, 65500)
  {
    hide CanOverflow;
    SizesThatOverflow(500, 65500);
  }
}
