/** The margins of a page: the search for the part of an image that is not background. */
module Margins {

  import opened ImageRegion

  datatype Tone = Transparent | White | Black | Other

  function Classify(p: Pixel): Tone {
    if p.a < 30 then Transparent
    else if p.r > 240 && p.g > 240 && p.b > 240 then White
    else if p.r < 25 && p.g < 25 && p.b < 25 then Black
    else Other
  }

  /** Looser than `Classify` in its colours, so that noise next to the background still belongs to it. */
  predicate IsBackground(tone: Tone, p: Pixel) {
    match tone
    case Transparent => p.a < 40
    case White => p.r > 235 && p.g > 235 && p.b > 235 && p.a > 100
    case Black => p.r < 30 && p.g < 30 && p.b < 30 && p.a > 100
    case Other => false
  }

  /** The corners and the middles of the edges, as pixel numbers. */
  function SamplePoints(w: int, h: int): (points: seq<int>) {
    [0, w - 1, (h - 1) * w, (h - 1) * w + (w - 1), w / 2, (h - 1) * w + w / 2, h / 2 * w, h / 2 * w + (w - 1)]
  }

  /** The least, the middle and the greatest of `n` coordinates. */
  function EndsAndMiddle(n: int): seq<int> { [0, n / 2, n - 1] }

  /** The samples are the corners and the middles of the edges: all nine points of these rows and columns but the
      one in the middle of the page. */
  lemma SamplesAreEdges(w: int, h: int, p: int)
    ensures p in SamplePoints(w, h)
       <==> exists a, b :: 0 <= a < 3 && 0 <= b < 3 && !(a == 1 && b == 1)
                           && p == EndsAndMiddle(h)[b] * w + EndsAndMiddle(w)[a]
  {
    var points, xs, ys := SamplePoints(w, h), EndsAndMiddle(w), EndsAndMiddle(h);
    assert points[0] == ys[0] * w + xs[0] && points[1] == ys[0] * w + xs[2];
    assert points[2] == ys[2] * w + xs[0] && points[3] == ys[2] * w + xs[2];
    assert points[4] == ys[0] * w + xs[1] && points[5] == ys[2] * w + xs[1];
    assert points[6] == ys[1] * w + xs[0] && points[7] == ys[1] * w + xs[2];
  }

  /** A pixel that looks like a background belongs to it, but for a white or black one that is not opaque enough:
      that counts as ink. */
  lemma SeeThroughIsInk(p: Pixel, tone: Tone)
    requires Classify(p) == tone != Other
    ensures IsBackground(tone, p) <==> tone == Transparent || p.a > 100
  {
  }

  /** The numbers below `n` that pass a test. */
  function Below(n: int, test: int -> bool): set<int> { set i | 0 <= i < n && test(i) }

  lemma CountNext(n: nat, test: int -> bool)
    ensures |Below(n + 1, test)| == |Below(n, test)| + (if test(n) then 1 else 0)
  {
    var before, after := Below(n, test), Below(n + 1, test);
    assert after == before + if test(n) then {n} else {};
    assert n !in before;
  }

  function SampleTest(pixels: seq<Byte>, w: int, h: int, tone: Tone): int -> bool {
    i => 0 <= i < 8 && Classify(PixelOf(pixels, SamplePoints(w, h)[i])) == tone
  }

  /** At least five of the eight samples have the tone. */
  predicate IsMajority(pixels: seq<Byte>, w: int, h: int, tone: Tone) {
    |Below(8, SampleTest(pixels, w, h, tone))| >= 5
  }

  /** More than half of the eight samples, that is. */
  lemma MajorityIsMoreThanHalf(pixels: seq<Byte>, w: int, h: int, tone: Tone)
    ensures IsMajority(pixels, w, h, tone)
       <==> 2 * |set i | 0 <= i < 8 && Classify(PixelOf(pixels, SamplePoints(w, h)[i])) == tone| > 8
  {
    hide PixelOf, Classify;
    var samples := set i | 0 <= i < 8 && Classify(PixelOf(pixels, SamplePoints(w, h)[i])) == tone;
    assert samples == Below(8, SampleTest(pixels, w, h, tone));
  }

  lemma DisjointSubsets(a: set<int>, b: set<int>, all: set<int>)
    requires a !! b && a <= all && b <= all
    ensures |a| + |b| <= |all|
  {
    assert |a + b| == |a| + |b|;
    assert all == (a + b) + (all - (a + b));
  }

  /** Two tones cannot both have five of eight samples. */
  lemma OneMajority(pixels: seq<Byte>, w: int, h: int, one: Tone, two: Tone)
    requires IsMajority(pixels, w, h, one) && IsMajority(pixels, w, h, two)
    ensures one == two
  {
    if one != two {
      hide PixelOf, Classify, SamplePoints;
      var a, b := Below(8, SampleTest(pixels, w, h, one)), Below(8, SampleTest(pixels, w, h, two));
      DisjointSubsets(a, b, {0, 1, 2, 3, 4, 5, 6, 7});
    }
  }

  /** The background that the samples agree on; `Other` when none of the three has five of them. */
  ghost predicate IsTone(pixels: seq<Byte>, w: int, h: int, tone: Tone) {
    if tone == Other then forall t :: t != Other ==> !IsMajority(pixels, w, h, t) else IsMajority(pixels, w, h, tone)
  }

  lemma SamplesAreInside(w: int, h: int, i: int)
    requires 0 < w && 0 < h && 0 <= i < 8
    ensures 0 <= SamplePoints(w, h)[i] < w * h
  {
    PixelNumber(w, h, 0, 0);
    PixelNumber(w, h, w - 1, 0);
    PixelNumber(w, h, w / 2, 0);
    PixelNumber(w, h, 0, h - 1);
    PixelNumber(w, h, w / 2, h - 1);
    PixelNumber(w, h, w - 1, h - 1);
    PixelNumber(w, h, 0, h / 2);
    PixelNumber(w, h, w - 1, h / 2);
  }

  /** The tone that most samples share; `Other` when none of the three backgrounds does. */
  method FindBackground(pixels: seq<Byte>, w: int, h: int) returns (tone: Tone)
    requires 0 < w && 0 < h && |pixels| == w * h * 4
    ensures IsTone(pixels, w, h, tone)
  {
    var transparent, white, black := 0, 0, 0;
    var points := SamplePoints(w, h);
    for i := 0 to 8
      invariant transparent == |Below(i, SampleTest(pixels, w, h, Transparent))|
      invariant white == |Below(i, SampleTest(pixels, w, h, White))|
      invariant black == |Below(i, SampleTest(pixels, w, h, Black))|
    {
      SamplesAreInside(w, h, i);
      CountNext(i, SampleTest(pixels, w, h, Transparent));
      CountNext(i, SampleTest(pixels, w, h, White));
      CountNext(i, SampleTest(pixels, w, h, Black));
      match Classify(PixelOf(pixels, points[i])) {
        case Transparent => transparent := transparent + 1;
        case White => white := white + 1;
        case Black => black := black + 1;
        case Other =>
      }
    }
    if transparent >= 5 { return Transparent; }
    if white >= 5 { return White; }
    if black >= 5 { return Black; }
    return Other;
  }

  // ---------------------------------------------------------------- rows and columns that hold something

  predicate IsInk(pixels: seq<Byte>, w: int, tone: Tone, x: int, y: int) {
    !IsBackground(tone, PixelAt(pixels, w, x, y))
  }

  function RowTest(pixels: seq<Byte>, w: int, tone: Tone, y: int): int -> bool {
    x => IsInk(pixels, w, tone, x, y)
  }

  function ColumnTest(pixels: seq<Byte>, w: int, tone: Tone, x: int): int -> bool {
    y => IsInk(pixels, w, tone, x, y)
  }

  /** More than one percent of the row, and one pixel more, is not background. */
  predicate IsInkedRow(pixels: seq<Byte>, w: int, tone: Tone, y: int) {
    |Below(w, RowTest(pixels, w, tone, y))| > w / 100 + 1
  }

  predicate IsInkedColumn(pixels: seq<Byte>, w: int, h: int, tone: Tone, x: int) {
    |Below(h, ColumnTest(pixels, w, tone, x))| > h / 100 + 1
  }

  /** One stray pixel aside, more than one percent of an inked row is ink. */
  lemma RowInk(pixels: seq<Byte>, w: int, tone: Tone, y: int)
    requires 0 <= w
    ensures IsInkedRow(pixels, w, tone, y)
       <==> 100 * (|set x | 0 <= x < w && !IsBackground(tone, PixelAt(pixels, w, x, y))| - 1) > w
  {
    var ink := set x | 0 <= x < w && !IsBackground(tone, PixelAt(pixels, w, x, y));
    assert ink == Below(w, RowTest(pixels, w, tone, y));
  }

  lemma ColumnInk(pixels: seq<Byte>, w: int, h: int, tone: Tone, x: int)
    requires 0 <= h
    ensures IsInkedColumn(pixels, w, h, tone, x)
       <==> 100 * (|set y | 0 <= y < h && !IsBackground(tone, PixelAt(pixels, w, x, y))| - 1) > h
  {
    var ink := set y | 0 <= y < h && !IsBackground(tone, PixelAt(pixels, w, x, y));
    assert ink == Below(h, ColumnTest(pixels, w, tone, x));
  }

  /** Which greys are taken for a background, and which belong to it. */
  lemma GreyLevels(g: Byte)
    ensures var p := Pixel(g, g, g, 255);
            && (Classify(p) == White <==> g >= 241) && (IsBackground(White, p) <==> g >= 236)
            && (Classify(p) == Black <==> g <= 24) && (IsBackground(Black, p) <==> g <= 29)
            && Classify(p) != Transparent && !IsBackground(Transparent, p)
  {
  }

  method CountRow(pixels: seq<Byte>, w: int, h: int, tone: Tone, y: int) returns (count: int)
    requires 0 < w && 0 <= y < h && |pixels| == w * h * 4
    ensures count == |Below(w, RowTest(pixels, w, tone, y))|
  {
    count := 0;
    for x := 0 to w
      invariant count == |Below(x, RowTest(pixels, w, tone, y))|
    {
      CountNext(x, RowTest(pixels, w, tone, y));
      if IsInk(pixels, w, tone, x, y) {
        count := count + 1;
      }
    }
  }

  method CountColumn(pixels: seq<Byte>, w: int, h: int, tone: Tone, x: int) returns (count: int)
    requires 0 <= x < w && 0 < h && |pixels| == w * h * 4
    ensures count == |Below(h, ColumnTest(pixels, w, tone, x))|
  {
    count := 0;
    for y := 0 to h
      invariant count == |Below(y, ColumnTest(pixels, w, tone, x))|
    {
      CountNext(y, ColumnTest(pixels, w, tone, x));
      if IsInk(pixels, w, tone, x, y) {
        count := count + 1;
      }
    }
  }

  // ---------------------------------------------------------------- the margins

  /** The rows from `top` on and below `bottom` are the shortest span that holds every inked row. */
  ghost predicate SpansRows(pixels: seq<Byte>, w: int, h: int, tone: Tone, top: int, bottom: int) {
    && 0 <= top < bottom <= h
    && (forall y :: 0 <= y < h && IsInkedRow(pixels, w, tone, y) ==> top <= y < bottom)
    && ((IsInkedRow(pixels, w, tone, top) && IsInkedRow(pixels, w, tone, bottom - 1)) ||
        (top == 0 && bottom == h && forall y :: 0 <= y < h ==> !IsInkedRow(pixels, w, tone, y)))
  }

  ghost predicate SpansColumns(pixels: seq<Byte>, w: int, h: int, tone: Tone, left: int, right: int) {
    && 0 <= left < right <= w
    && (forall x :: 0 <= x < w && IsInkedColumn(pixels, w, h, tone, x) ==> left <= x < right)
    && ((IsInkedColumn(pixels, w, h, tone, left) && IsInkedColumn(pixels, w, h, tone, right - 1)) ||
        (left == 0 && right == w && forall x :: 0 <= x < w ==> !IsInkedColumn(pixels, w, h, tone, x)))
  }

  /** The box of everything inked. */
  ghost predicate IsInkBox(pixels: seq<Byte>, w: int, h: int, tone: Tone, box: Region) {
    SpansRows(pixels, w, h, tone, box.top, box.bottom) && SpansColumns(pixels, w, h, tone, box.left, box.right)
  }

  /** Less than a quarter of the page in either direction. */
  predicate IsTooSmall(box: Region, w: int, h: int) {
    box.right - box.left < w / 4 || box.bottom - box.top < h / 4
  }

  /** The whole page when there is no background or next to nothing on it, otherwise the box of what is inked. */
  ghost predicate AreMargins(pixels: seq<Byte>, w: int, h: int, tone: Tone, m: Region) {
    if tone == Other then m == Region(0, 0, w, h)
    else exists box ::
      IsInkBox(pixels, w, h, tone, box) && m == if IsTooSmall(box, w, h) then Region(0, 0, w, h) else box
  }

  /** The box of the ink is kept exactly when it is at least a quarter of the page each way. */
  lemma BoxIsKept(pixels: seq<Byte>, w: int, h: int, tone: Tone, m: Region, box: Region)
    requires 0 < w && 0 < h && tone != Other && AreMargins(pixels, w, h, tone, m) && IsInkBox(pixels, w, h, tone, box)
    ensures m == if 4 * (box.right - box.left) > w - 4 && 4 * (box.bottom - box.top) > h - 4
                 then box else Region(0, 0, w, h)
  {
    hide SpansRows, SpansColumns;
    var other :| IsInkBox(pixels, w, h, tone, other)
              && m == if IsTooSmall(other, w, h) then Region(0, 0, w, h) else other;
    RowsAreUnique(pixels, w, h, tone, other.top, other.bottom, box.top, box.bottom);
    ColumnsAreUnique(pixels, w, h, tone, other.left, other.right, box.left, box.right);
  }

  method ScanRows(pixels: seq<Byte>, w: int, h: int, tone: Tone) returns (top: int, bottom: int)
    requires 0 < w && 0 < h && |pixels| == w * h * 4
    ensures SpansRows(pixels, w, h, tone, top, bottom)
  {
    hide Below, RowTest;
    top := 0;
    var y := 0;
    while y < h
      invariant 0 <= y <= h && top == 0
      invariant forall k :: 0 <= k < y ==> !IsInkedRow(pixels, w, tone, k)
    {
      var count := CountRow(pixels, w, h, tone, y);
      if count > w / 100 + 1 {
        assert IsInkedRow(pixels, w, tone, y);
        top := y;
        break;
      }
      y := y + 1;
    }
    bottom := h;
    var z := h - 1;
    while z >= 0
      invariant -1 <= z < h && bottom == h
      invariant forall k :: z < k < h ==> !IsInkedRow(pixels, w, tone, k)
    {
      var count := CountRow(pixels, w, h, tone, z);
      if count > w / 100 + 1 {
        assert IsInkedRow(pixels, w, tone, z);
        bottom := z + 1;
        break;
      }
      z := z - 1;
    }
  }

  method ScanColumns(pixels: seq<Byte>, w: int, h: int, tone: Tone) returns (left: int, right: int)
    requires 0 < w && 0 < h && |pixels| == w * h * 4
    ensures SpansColumns(pixels, w, h, tone, left, right)
  {
    hide Below, ColumnTest;
    left := 0;
    var x := 0;
    while x < w
      invariant 0 <= x <= w && left == 0
      invariant forall k :: 0 <= k < x ==> !IsInkedColumn(pixels, w, h, tone, k)
    {
      var count := CountColumn(pixels, w, h, tone, x);
      if count > h / 100 + 1 {
        assert IsInkedColumn(pixels, w, h, tone, x);
        left := x;
        break;
      }
      x := x + 1;
    }
    right := w;
    var z := w - 1;
    while z >= 0
      invariant -1 <= z < w && right == w
      invariant forall k :: z < k < w ==> !IsInkedColumn(pixels, w, h, tone, k)
    {
      var count := CountColumn(pixels, w, h, tone, z);
      if count > h / 100 + 1 {
        assert IsInkedColumn(pixels, w, h, tone, z);
        right := z + 1;
        break;
      }
      z := z - 1;
    }
  }

  /** The margins of a page: never empty, never cutting an inked row or column. */
  method FindMargins(pixels: seq<Byte>, w: int, h: int) returns (m: Region, ghost tone: Tone)
    requires 0 < w && 0 < h && |pixels| == w * h * 4
    ensures IsTone(pixels, w, h, tone)
    ensures AreMargins(pixels, w, h, tone, m)
    ensures 0 <= m.left < m.right <= w && 0 <= m.top < m.bottom <= h
    ensures m.right - m.left >= w / 4 && m.bottom - m.top >= h / 4
    ensures forall y :: 0 <= y < h && IsInkedRow(pixels, w, tone, y) ==> m.top <= y < m.bottom
    ensures forall x :: 0 <= x < w && IsInkedColumn(pixels, w, h, tone, x) ==> m.left <= x < m.right
  {
    var found := FindBackground(pixels, w, h);
    tone := found;
    if found == Other { return Region(0, 0, w, h), tone; }
    var top, bottom := ScanRows(pixels, w, h, found);
    var left, right := ScanColumns(pixels, w, h, found);
    ghost var box := Region(left, top, right, bottom);
    assert IsInkBox(pixels, w, h, tone, box);
    if right - left < w / 4 || bottom - top < h / 4 {
      return Region(0, 0, w, h), tone;
    }
    return Region(left, top, right, bottom), tone;
  }

  lemma RowsAreUnique(pixels: seq<Byte>, w: int, h: int, tone: Tone, top: int, bottom: int, top': int, bottom': int)
    requires SpansRows(pixels, w, h, tone, top, bottom) && SpansRows(pixels, w, h, tone, top', bottom')
    ensures top == top' && bottom == bottom'
  {
    hide IsInkedRow;
  }

  lemma ColumnsAreUnique(pixels: seq<Byte>, w: int, h: int, tone: Tone, left: int, right: int, left': int, right': int)
    requires SpansColumns(pixels, w, h, tone, left, right) && SpansColumns(pixels, w, h, tone, left', right')
    ensures left == left' && right == right'
  {
    hide IsInkedColumn;
  }

  lemma ToneIsUnique(pixels: seq<Byte>, w: int, h: int, tone: Tone, other: Tone)
    requires IsTone(pixels, w, h, tone) && IsTone(pixels, w, h, other)
    ensures tone == other
  {
    hide IsMajority;
    if tone != Other && other != Other { OneMajority(pixels, w, h, tone, other); }
  }

  /** The margins are determined by the picture. */
  lemma MarginsAreUnique(pixels: seq<Byte>, w: int, h: int, tone: Tone, other: Tone, one: Region, two: Region)
    requires IsTone(pixels, w, h, tone) && AreMargins(pixels, w, h, tone, one)
    requires IsTone(pixels, w, h, other) && AreMargins(pixels, w, h, other, two)
    ensures one == two
  {
    ToneIsUnique(pixels, w, h, tone, other);
    if tone != Other {
      hide SpansRows, SpansColumns;
      var a :| IsInkBox(pixels, w, h, tone, a) && one == if IsTooSmall(a, w, h) then Region(0, 0, w, h) else a;
      var b :| IsInkBox(pixels, w, h, tone, b) && two == if IsTooSmall(b, w, h) then Region(0, 0, w, h) else b;
      RowsAreUnique(pixels, w, h, tone, a.top, a.bottom, b.top, b.bottom);
      ColumnsAreUnique(pixels, w, h, tone, a.left, a.right, b.left, b.right);
    }
  }
}
