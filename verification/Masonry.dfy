/** `layoutMasonry`: greedy placement of dictionary sections in two columns. */
module Masonry {

  const MASONRY_GAP: int := 5

  datatype Place = Place(column: int, x: real, y: int, width: real)

  function Max(a: int, b: int): int { if a >= b then a else b }

  /** What an item adds to its column. */
  function Load(height: nat): int { height + MASONRY_GAP }

  /** The height of a column: the items put there, each with its gap. */
  function ColumnHeight(heights: seq<nat>, columns: seq<int>, column: int): int
    requires |columns| == |heights|
  {
    if heights == [] then 0
    else
      var n := |heights| - 1;
      ColumnHeight(heights[..n], columns[..n], column) + if columns[n] == column then Load(heights[n]) else 0
  }

  function Total(heights: seq<nat>): int {
    if heights == [] then 0 else Total(heights[..|heights| - 1]) + Load(heights[|heights| - 1])
  }

  function Largest(heights: seq<nat>): int {
    if heights == [] then 0 else Max(Largest(heights[..|heights| - 1]), Load(heights[|heights| - 1]))
  }

  /** Any way to put every item in one of the two columns. */
  ghost predicate IsSplit(heights: seq<nat>, columns: seq<int>) {
    |columns| == |heights| && forall k :: 0 <= k < |columns| ==> columns[k] == 0 || columns[k] == 1
  }

  ghost function Taller(heights: seq<nat>, columns: seq<int>): int
    requires |columns| == |heights|
  {
    Max(ColumnHeight(heights, columns, 0), ColumnHeight(heights, columns, 1))
  }

  function ColumnsOf(places: seq<Place>): seq<int> {
    seq(|places|, k requires 0 <= k < |places| => places[k].column)
  }

  lemma {:induction false} ColumnsAddUp(heights: seq<nat>, columns: seq<int>)
    requires IsSplit(heights, columns)
    ensures ColumnHeight(heights, columns, 0) + ColumnHeight(heights, columns, 1) == Total(heights)
  {
    if heights != [] {
      ColumnsAddUp(heights[..|heights| - 1], columns[..|heights| - 1]);
    }
  }

  lemma {:induction false} TallerHoldsLargest(heights: seq<nat>, columns: seq<int>)
    requires IsSplit(heights, columns)
    ensures Largest(heights) <= Taller(heights, columns)
    ensures ColumnHeight(heights, columns, 0) >= 0 && ColumnHeight(heights, columns, 1) >= 0
  {
    if heights != [] {
      TallerHoldsLargest(heights[..|heights| - 1], columns[..|heights| - 1]);
    }
  }

  /** No split does better than half the total, or than its largest item. */
  lemma SplitLowerBound(heights: seq<nat>, columns: seq<int>)
    requires IsSplit(heights, columns)
    ensures Total(heights) <= 2 * Taller(heights, columns) && Largest(heights) <= Taller(heights, columns)
  {
    ColumnsAddUp(heights, columns);
    TallerHoldsLargest(heights, columns);
  }

  /** Two items in one column do not overlap, and the section is high enough for every item. */
  ghost predicate IsLaidOut(heights: seq<nat>, places: seq<Place>, height: int) {
    && |places| == |heights|
    && (forall i, j :: 0 <= i < j < |places| && places[i].column == places[j].column ==>
          places[i].y + heights[i] + MASONRY_GAP <= places[j].y)
    && forall i :: 0 <= i < |places| ==> 0 <= places[i].y && places[i].y + heights[i] <= height
  }

  lemma Snoc(heights: seq<nat>, columns: seq<int>, h: nat, column: int, c: int)
    requires |columns| == |heights|
    ensures ColumnHeight(heights + [h], columns + [column], c)
         == ColumnHeight(heights, columns, c) + if column == c then Load(h) else 0
    ensures Largest(heights + [h]) == Max(Largest(heights), Load(h))
  {
    assert (heights + [h])[..|heights|] == heights && (columns + [column])[..|heights|] == columns;
  }

  /** Every item ends below the top of its column, and with its gap at most there. */
  ghost predicate Fits(heights: seq<nat>, places: seq<Place>, columnHeights: seq<int>)
    requires |columnHeights| == 2
  {
    && |places| == |heights|
    && forall k :: 0 <= k < |places| ==>
         (places[k].column == 0 || places[k].column == 1)
             && places[k].y + heights[k] + MASONRY_GAP <= columnHeights[places[k].column]
  }

  lemma PlaceOne(heights: seq<nat>, places: seq<Place>, columnHeights: seq<int>, h: nat, place: Place)
    requires |columnHeights| == 2 && Fits(heights, places, columnHeights)
    requires IsLaidOut(heights, places, Max(columnHeights[0], columnHeights[1]) - MASONRY_GAP)
    requires (place.column == 0 || place.column == 1) && place.y == columnHeights[place.column] >= 0
    ensures var higher := columnHeights[place.column := place.y + h + MASONRY_GAP];
            && Fits(heights + [h], places + [place], higher)
            && IsLaidOut(heights + [h], places + [place], Max(higher[0], higher[1]) - MASONRY_GAP)
  {
  }

  lemma ColumnsSnoc(places: seq<Place>, place: Place)
    ensures ColumnsOf(places + [place]) == ColumnsOf(places) + [place.column]
  {
  }

  /** Item `k` stands at the end of the column that is the lower one by then, the left one if they are level. */
  ghost predicate GoesLower(heights: seq<nat>, places: seq<Place>, k: nat)
    requires k < |places| == |heights|
  {
    var left := ColumnHeight(heights[..k], ColumnsOf(places)[..k], 0);
    var right := ColumnHeight(heights[..k], ColumnsOf(places)[..k], 1);
    places[k].column == (if left <= right then 0 else 1) && places[k].y == (if left <= right then left else right)
  }

  /** The columns are as wide as each other, a gap apart, and as wide as the section together. */
  predicate SpansSection(place: Place, clientWidth: real) {
    && 2.0 * place.width + MASONRY_GAP as real == clientWidth
    && (place.column == 0 ==> place.x == 0.0)
    && (place.column == 1 ==> place.x + place.width == clientWidth)
  }

  lemma LowerStays(heights: seq<nat>, places: seq<Place>, h: nat, place: Place)
    requires |places| == |heights|
    ensures forall k :: 0 <= k < |heights| ==>
              (GoesLower(heights + [h], places + [place], k) <==> GoesLower(heights, places, k))
    ensures GoesLower(heights + [h], places + [place], |heights|) <==>
              var left := ColumnHeight(heights, ColumnsOf(places), 0);
              var right := ColumnHeight(heights, ColumnsOf(places), 1);
              place.column == (if left <= right then 0 else 1) && place.y == (if left <= right then left else right)
  {
    ColumnsSnoc(places, place);
    hide ColumnHeight;
    var n := |heights|;
    assert (heights + [h])[..n] == heights && ColumnsOf(places + [place])[..n] == ColumnsOf(places);
    forall k | 0 <= k < n
      ensures GoesLower(heights + [h], places + [place], k) <==> GoesLower(heights, places, k)
    {
      assert (heights + [h])[..k] == heights[..k];
      assert ColumnsOf(places + [place])[..k] == ColumnsOf(places)[..k];
      assert (places + [place])[k] == places[k];
    }
  }

  /** Each item goes to the column that is no higher, at its current height. */
  method LayoutMasonry(heights: seq<nat>, clientWidth: real) returns (places: seq<Place>, height: int)
    ensures IsSplit(heights, ColumnsOf(places))
    ensures IsLaidOut(heights, places, height)
    ensures height == Taller(heights, ColumnsOf(places)) - MASONRY_GAP
    ensures 2 * Taller(heights, ColumnsOf(places)) <= Total(heights) + Largest(heights)
    ensures forall columns :: IsSplit(heights, columns) ==>
              2 * Taller(heights, ColumnsOf(places)) <= 3 * Taller(heights, columns)
    ensures forall k :: 0 <= k < |places| ==> SpansSection(places[k], clientWidth)
    ensures forall k :: 0 <= k < |places| ==> GoesLower(heights, places, k)
  {
    hide IsLaidOut, Fits, ColumnsOf, ColumnHeight, Largest, Load, GoesLower;
    var columnWidth := (clientWidth - MASONRY_GAP as real) / 2.0;
    var columnHeights := [0, 0];
    places := [];
    NothingPlaced();
    for i := 0 to |heights|
      invariant |columnHeights| == 2 && columnHeights[0] >= 0 && columnHeights[1] >= 0
      invariant IsSplit(heights[..i], ColumnsOf(places))
      invariant columnHeights[0] == ColumnHeight(heights[..i], ColumnsOf(places), 0)
      invariant columnHeights[1] == ColumnHeight(heights[..i], ColumnsOf(places), 1)
      invariant columnHeights[0] - columnHeights[1] <= Largest(heights[..i])
      invariant columnHeights[1] - columnHeights[0] <= Largest(heights[..i])
      invariant Fits(heights[..i], places, columnHeights)
      invariant IsLaidOut(heights[..i], places, Max(columnHeights[0], columnHeights[1]) - MASONRY_GAP)
      invariant forall k :: 0 <= k < |places| ==> SpansSection(places[k], clientWidth)
      invariant |places| == i && forall k :: 0 <= k < i ==> GoesLower(heights[..i], places, k)
    {
      var column := if columnHeights[0] <= columnHeights[1] then 0 else 1;
      var x := column as real * (columnWidth + MASONRY_GAP as real);
      var y := columnHeights[column];
      assert heights[..i + 1] == heights[..i] + [heights[i]];
      Snoc(heights[..i], ColumnsOf(places), heights[i], column, 0);
      Snoc(heights[..i], ColumnsOf(places), heights[i], column, 1);
      var place := Place(column, x, y, columnWidth);
      PlaceOne(heights[..i], places, columnHeights, heights[i], place);
      ColumnsSnoc(places, place);
      LowerStays(heights[..i], places, heights[i], place);
      LoadIs(heights[i]);
      places := places + [place];
      columnHeights := columnHeights[column := columnHeights[column] + heights[i] + MASONRY_GAP];
    }
    assert heights[..|heights|] == heights;
    height := Max(columnHeights[0], columnHeights[1]) - MASONRY_GAP;
    ColumnsAddUp(heights, ColumnsOf(places));
    forall columns | IsSplit(heights, columns)
      ensures 2 * Taller(heights, ColumnsOf(places)) <= 3 * Taller(heights, columns)
    {
      SplitLowerBound(heights, columns);
    }
  }

  lemma NothingPlaced()
    ensures ColumnsOf([]) == [] && ColumnHeight([], [], 0) == 0 && ColumnHeight([], [], 1) == 0 && Largest([]) == 0
    ensures Fits([], [], [0, 0]) && IsLaidOut([], [], -MASONRY_GAP)
  {
  }

  lemma LoadIs(h: nat)
    ensures Load(h) == h + MASONRY_GAP
  {
  }
}
