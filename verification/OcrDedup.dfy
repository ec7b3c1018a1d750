/** Merging the text blocks that several recognition passes find on one page. */
module OcrDedup {

  import opened Wrappers

  // ---------------------------------------------------------------- rectangles

  datatype Point = Point(x: real, y: real)

  /** A rectangle with its origin at the least corner, over exact reals. */
  datatype Rect = Rect(x: real, y: real, width: real, height: real)

  predicate IsRect(r: Rect) { r.width >= 0.0 && r.height >= 0.0 }

  function MaxX(r: Rect): real { r.x + r.width }

  function MaxY(r: Rect): real { r.y + r.height }

  function Area(r: Rect): real { r.width * r.height }

  function Min(a: real, b: real): real { if a <= b then a else b }

  function Max(a: real, b: real): real { if a >= b then a else b }

  /** The common part; nothing when the rectangles are apart. */
  function Intersection(l: Rect, r: Rect): Option<Rect> {
    var left, top := Max(l.x, r.x), Max(l.y, r.y);
    var right, bottom := Min(MaxX(l), MaxX(r)), Min(MaxY(l), MaxY(r));
    if right < left || bottom < top then None else Some(Rect(left, top, right - left, bottom - top))
  }

  function OverlapOverSmallerArea(l: Rect, r: Rect): real {
    var intersection := Intersection(l, r);
    if intersection.None? || intersection.value.width == 0.0 || intersection.value.height == 0.0 then 0.0
    else
      var smallerArea := Min(Area(l), Area(r));
      if smallerArea > 0.0 then Area(intersection.value) / smallerArea else 0.0
  }

  lemma OverlapIsSymmetric(l: Rect, r: Rect)
    ensures OverlapOverSmallerArea(l, r) == OverlapOverSmallerArea(r, l)
  {
  }

  /** A rectangle inside another overlaps it wholly, one apart from it not at all. */
  lemma InsideOrApart(l: Rect, r: Rect)
    requires IsRect(l) && IsRect(r) && Area(l) > 0.0
    ensures r.x <= l.x && MaxX(l) <= MaxX(r) && r.y <= l.y && MaxY(l) <= MaxY(r) ==> OverlapOverSmallerArea(l, r) == 1.0
    ensures MaxX(l) <= r.x || MaxX(r) <= l.x || MaxY(l) <= r.y || MaxY(r) <= l.y ==> OverlapOverSmallerArea(l, r) == 0.0
  {
    if r.x <= l.x && MaxX(l) <= MaxX(r) && r.y <= l.y && MaxY(l) <= MaxY(r) {
      assert Intersection(l, r) == Some(l);
      AreaGrows(l, r);
      SidesArePositive(l);
      assert Min(Area(l), Area(r)) == Area(l);
      WholeQuotient(Area(l));
    }
  }

  lemma SidesArePositive(r: Rect)
    requires IsRect(r) && Area(r) > 0.0
    ensures r.width > 0.0 && r.height > 0.0
  {
  }

  lemma WholeQuotient(a: real)
    requires a > 0.0
    ensures a / a == 1.0
  {
  }

  lemma AreaGrows(l: Rect, r: Rect)
    requires IsRect(l) && l.width <= r.width && l.height <= r.height
    ensures Area(l) <= Area(r)
  {
    ProductGrows(l.width, l.height, r.width, r.height);
  }

  lemma ProductGrows(a: real, b: real, c: real, d: real)
    requires 0.0 <= a <= c && 0.0 <= b <= d
    ensures a * b <= c * d
  {
    NotNegative(c - a, d);
    NotNegative(a, d - b);
    assert c * d == a * b + (c - a) * d + a * (d - b);
  }

  lemma NotNegative(a: real, b: real)
    requires 0.0 <= a && 0.0 <= b
    ensures 0.0 <= a * b
  {
  }

  /** Two equal rectangles, one moved along the other: the part of the side that they share. */
  lemma MovedOverlap(r: Rect, d: real)
    requires r.width > 0.0 && r.height > 0.0 && 0.0 <= d <= r.width
    ensures OverlapOverSmallerArea(r, r.(x := r.x + d)) * r.width == r.width - d
    ensures OverlapOverSmallerArea(r, r.(x := r.x + d)) >= 0.7 <==> d <= 0.3 * r.width
  {
    var moved := r.(x := r.x + d);
    assert Intersection(r, moved) == Some(Rect(r.x + d, r.y, r.width - d, r.height));
    hide Intersection;
    var shared := r.width - d;
    Quotient(shared, r.width, r.height);
    Share(shared, r.width);
    assert OverlapOverSmallerArea(r, moved) == shared / r.width;
  }

  lemma Quotient(a: real, b: real, c: real)
    requires b > 0.0 && c > 0.0 && 0.0 <= a
    ensures b * c > 0.0 && (a * c) / (b * c) == a / b
  {
    var q := a / b;
    assert q * b == a;
    assert q * (b * c) == (q * b) * c == a * c;
  }

  lemma Share(a: real, b: real)
    requires b > 0.0
    ensures a / b * b == a && (a / b >= 0.7 <==> a >= 0.7 * b) && (a == 0.0 ==> a / b == 0.0)
  {
    var q := a / b;
    assert q * b == a;
    if q >= 0.7 { assert q * b >= 0.7 * b; } else { assert q * b < 0.7 * b; }
  }

  datatype Orientation = Up | Down | Left | Right

  function MapPoint(p: Point, orientation: Orientation): Point {
    match orientation
    case Down => Point(1.0 - p.x, 1.0 - p.y)
    case Left => Point(p.y, 1.0 - p.x)
    case Right => Point(1.0 - p.y, p.x)
    case Up => p
  }

  function Min4(a: real, b: real, c: real, d: real): real { Min(Min(a, b), Min(c, d)) }

  function Max4(a: real, b: real, c: real, d: real): real { Max(Max(a, b), Max(c, d)) }

  /** `originalBounds`: the box around the mapped corners. */
  function OriginalBounds(r: Rect, orientation: Orientation): Rect {
    var a := MapPoint(Point(r.x, r.y), orientation);
    var b := MapPoint(Point(MaxX(r), r.y), orientation);
    var c := MapPoint(Point(r.x, MaxY(r)), orientation);
    var d := MapPoint(Point(MaxX(r), MaxY(r)), orientation);
    var minX, minY := Min4(a.x, b.x, c.x, d.x), Min4(a.y, b.y, c.y, d.y);
    Rect(minX, minY, Max4(a.x, b.x, c.x, d.x) - minX, Max4(a.y, b.y, c.y, d.y) - minY)
  }

  /** Where the rectangle goes, and that turning it by a right angle swaps its sides. */
  lemma OriginalBoundsOf(r: Rect, orientation: Orientation)
    requires IsRect(r)
    ensures IsRect(OriginalBounds(r, orientation))
    ensures OriginalBounds(r, orientation) == match orientation
              case Up => r
              case Down => Rect(1.0 - MaxX(r), 1.0 - MaxY(r), r.width, r.height)
              case Left => Rect(r.y, 1.0 - MaxX(r), r.height, r.width)
              case Right => Rect(1.0 - MaxY(r), r.x, r.height, r.width)
  {
  }

  lemma AreaCommutes(a: real, b: real)
    ensures a * b == b * a
  {
  }

  lemma AreaKept(r: Rect, orientation: Orientation)
    requires IsRect(r)
    ensures Area(OriginalBounds(r, orientation)) == Area(r)
  {
    hide OriginalBounds;
    OriginalBoundsOf(r, orientation);
    AreaCommutes(r.width, r.height);
  }

  lemma IntersectionMaps(l: Rect, r: Rect, orientation: Orientation)
    requires IsRect(l) && IsRect(r)
    ensures var i := Intersection(l, r);
            var j := Intersection(OriginalBounds(l, orientation), OriginalBounds(r, orientation));
            && (i.None? <==> j.None?)
            && (i.Some? ==> IsRect(i.value) && j.value == OriginalBounds(i.value, orientation))
  {
    hide OriginalBounds;
    OriginalBoundsOf(l, orientation);
    OriginalBoundsOf(r, orientation);
    var i := Intersection(l, r);
    if i.Some? {
      OriginalBoundsOf(i.value, orientation);
    }
  }

  /** Mapping two rectangles back through one orientation keeps how much they overlap. */
  lemma OrientationKeepsOverlap(l: Rect, r: Rect, orientation: Orientation)
    requires IsRect(l) && IsRect(r)
    ensures OverlapOverSmallerArea(OriginalBounds(l, orientation), OriginalBounds(r, orientation))
        == OverlapOverSmallerArea(l, r)
  {
    hide OriginalBounds, Intersection, Area;
    AreaKept(l, orientation);
    AreaKept(r, orientation);
    IntersectionMaps(l, r, orientation);
    var i := Intersection(l, r);
    if i.Some? {
      AreaKept(i.value, orientation);
      OriginalBoundsOf(i.value, orientation);
    }
  }

  /** The four orientations undo one another in pairs. */
  lemma OrientationsInvert(r: Rect)
    requires IsRect(r)
    ensures OriginalBounds(OriginalBounds(r, Left), Right) == r
    ensures OriginalBounds(OriginalBounds(r, Right), Left) == r
    ensures OriginalBounds(OriginalBounds(r, Down), Down) == r
  {
    hide OriginalBounds;
    OriginalBoundsOf(r, Left);
    OriginalBoundsOf(r, Right);
    OriginalBoundsOf(r, Down);
    OriginalBoundsOf(OriginalBounds(r, Left), Right);
    OriginalBoundsOf(OriginalBounds(r, Right), Left);
    OriginalBoundsOf(OriginalBounds(r, Down), Down);
  }

  // ---------------------------------------------------------------- blocks

  datatype Block = Block(text: string, bounds: Rect, confidence: real, vertical: bool)

  predicate IsWhitespaceOrNewline(c: char) {
    || '\t' <= c <= '\r' || c == ' ' || c == '\U{0085}' || c == '\U{00A0}' || c == '\U{1680}'
        || '\U{2000}' <= c <= '\U{200A}'
    || c == '\U{2028}' || c == '\U{2029}' || c == '\U{202F}' || c == '\U{205F}' || c == '\U{3000}'
  }

  function CountVisible(text: string): nat {
    if text == "" then 0
    else CountVisible(text[..|text| - 1]) + if IsWhitespaceOrNewline(text[|text| - 1]) then 0 else 1
  }

  function Quality(b: Block): real { CountVisible(b.text) as real + b.confidence }

  ghost function VisibleAt(text: string): set<int> {
    set i | 0 <= i < |text| && !IsWhitespaceOrNewline(text[i])
  }

  /** The characters that are no white space are counted. */
  lemma {:induction false} VisibleAreCounted(text: string)
    ensures CountVisible(text) == |VisibleAt(text)|
  {
    if text != "" {
      var n := |text| - 1;
      var before := VisibleAt(text[..n]);
      VisibleAreCounted(text[..n]);
      hide IsWhitespaceOrNewline;
      assert VisibleAt(text) == before + if IsWhitespaceOrNewline(text[n]) then {} else {n};
      assert n !in before;
    }
  }

  /** More visible characters win over any confidence, and among as many the confidence decides. */
  lemma MoreTextWins(a: Block, b: Block)
    requires 0.0 <= a.confidence < 1.0 && 0.0 <= b.confidence < 1.0
    ensures Quality(a) < Quality(b)
       <==> |VisibleAt(a.text)| < |VisibleAt(b.text)|
            || (|VisibleAt(a.text)| == |VisibleAt(b.text)| && a.confidence < b.confidence)
  {
    VisibleAreCounted(a.text);
    VisibleAreCounted(b.text);
  }

  predicate IsDuplicate(block: Block, other: Block) {
    other.vertical == block.vertical && OverlapOverSmallerArea(block.bounds, other.bounds) >= 0.7
  }

  /** Of two equally large blocks of one direction, side by side, one is a duplicate as long as it is moved by no
      more than three tenths of its width; blocks of different directions never are. */
  lemma MovedIsDuplicate(block: Block, other: Block, d: real)
    requires block.bounds.width > 0.0 && block.bounds.height > 0.0 && 0.0 <= d <= block.bounds.width
    requires other.bounds == block.bounds.(x := block.bounds.x + d)
    ensures IsDuplicate(block, other) <==> block.vertical == other.vertical && d <= 0.3 * block.bounds.width
  {
    MovedOverlap(block.bounds, d);
    hide OverlapOverSmallerArea;
  }

  /** No two blocks of one direction overlap by 0.7 or more of the smaller one. */
  ghost predicate IsDeduplicated(blocks: seq<Block>) {
    forall i, j :: 0 <= i < j < |blocks| ==> !IsDuplicate(blocks[i], blocks[j])
  }

  /** Some block of the direction is at least this good. */
  ghost predicate Holds(blocks: seq<Block>, vertical: bool, quality: real) {
    exists i :: 0 <= i < |blocks| && blocks[i].vertical == vertical && Quality(blocks[i]) >= quality
  }

  /** The blocks from index `i` on that are not duplicates of `block`, in order. */
  function Others(blocks: seq<Block>, block: Block, i: nat): seq<Block>
    requires i <= |blocks|
    decreases |blocks| - i
  {
    if i == |blocks| then []
    else (if IsDuplicate(block, blocks[i]) then [] else [blocks[i]]) + Others(blocks, block, i + 1)
  }

  /** Candidate `k` is `b`, and all before it are worse. */
  ghost predicate IsFirstBest(candidates: seq<Block>, k: int, b: Block) {
    0 <= k < |candidates| && candidates[k] == b && forall j :: 0 <= j < k ==> Quality(candidates[j]) < Quality(b)
  }

  ghost predicate HasFirstBest(candidates: seq<Block>, b: Block) { exists k :: IsFirstBest(candidates, k, b) }

  lemma BestOfMore(candidates: seq<Block>, b: Block)
    requires |candidates| > 1 && HasFirstBest(candidates[..|candidates| - 1], b)
    requires forall c :: c in candidates[..|candidates| - 1] ==> Quality(c) <= Quality(b)
    ensures var last := candidates[|candidates| - 1];
            HasFirstBest(candidates, if Quality(b) < Quality(last) then last else b)
  {
    hide Quality;
    var n := |candidates| - 1;
    var k :| IsFirstBest(candidates[..n], k, b);
    if Quality(b) < Quality(candidates[n]) {
      assert IsFirstBest(candidates, n, candidates[n]) by {
        forall j | 0 <= j < n ensures Quality(candidates[j]) < Quality(candidates[n]) {
          assert candidates[..n][j] in candidates[..n];
        }
      }
    } else {
      assert forall j :: 0 <= j < n ==> candidates[..n][j] == candidates[j];
      assert IsFirstBest(candidates, k, b);
    }
  }

  /** `max(by:)` keeps the first of equally good blocks. */
  function Best(candidates: seq<Block>): (b: Block)
    requires candidates != []
    ensures b in candidates
    ensures forall c :: c in candidates ==> Quality(c) <= Quality(b)
    ensures HasFirstBest(candidates, b)
  {
    var n := |candidates| - 1;
    if n == 0 then
      assert IsFirstBest(candidates, 0, candidates[0]);
      candidates[0]
    else
      var b := Best(candidates[..n]);
      assert candidates == candidates[..n] + [candidates[n]];
      BestOfMore(candidates, b);
      if Quality(b) < Quality(candidates[n]) then candidates[n] else b
  }

  ghost predicate AreDuplicates(blocks: seq<Block>, block: Block, duplicates: seq<int>) {
    && (forall k :: 0 <= k < |duplicates| ==>
          0 <= duplicates[k] < |blocks| && IsDuplicate(block, blocks[duplicates[k]]))
    && (forall k, l :: 0 <= k < l < |duplicates| ==> duplicates[k] < duplicates[l])
    && (forall i :: 0 <= i < |blocks| && IsDuplicate(block, blocks[i]) ==> i in duplicates)
  }

  lemma {:induction false} OthersStretch(blocks: seq<Block>, block: Block, i: nat, j: nat)
    requires i <= j <= |blocks| && forall k :: i <= k < j ==> !IsDuplicate(block, blocks[k])
    ensures Others(blocks, block, i) == blocks[i..j] + Others(blocks, block, j)
    decreases j - i
  {
    if i < j {
      OthersStretch(blocks, block, i + 1, j);
    }
  }

  /** `others` are the blocks from index `i` on that are no duplicates, each once, in their order. */
  ghost predicate AreInOrder(blocks: seq<Block>, block: Block, i: nat, others: seq<Block>, index: seq<int>) {
    && |index| == |others|
    && (forall k :: 0 <= k < |index| ==> i <= index[k] < |blocks| && others[k] == blocks[index[k]])
    && (forall k, l :: 0 <= k < l < |index| ==> index[k] < index[l])
    && forall j :: i <= j < |blocks| ==> (j in index <==> !IsDuplicate(block, blocks[j]))
  }

  lemma {:induction false} OthersInOrder(blocks: seq<Block>, block: Block, i: nat) returns (index: seq<int>)
    requires i <= |blocks|
    ensures AreInOrder(blocks, block, i, Others(blocks, block, i), index)
    decreases |blocks| - i
  {
    hide IsDuplicate, Others, AreInOrder;
    OthersStep(blocks, block, i);
    if i == |blocks| {
      index := [];
      NoneInOrder(blocks, block);
    } else {
      index := OthersInOrder(blocks, block, i + 1);
      var rest := Others(blocks, block, i + 1);
      if IsDuplicate(block, blocks[i]) {
        SkipInOrder(blocks, block, i, rest, index);
      } else {
        PrependInOrder(blocks, block, i, rest, index);
        index := [i] + index;
      }
    }
  }

  lemma NoneInOrder(blocks: seq<Block>, block: Block)
    ensures AreInOrder(blocks, block, |blocks|, [], [])
  {
  }

  lemma SkipInOrder(blocks: seq<Block>, block: Block, i: nat, rest: seq<Block>, index: seq<int>)
    requires i < |blocks| && IsDuplicate(block, blocks[i]) && AreInOrder(blocks, block, i + 1, rest, index)
    ensures AreInOrder(blocks, block, i, rest, index)
  {
    hide IsDuplicate;
    assert i !in index;
  }

  lemma PrependInOrder(blocks: seq<Block>, block: Block, i: nat, rest: seq<Block>, index: seq<int>)
    requires i < |blocks| && !IsDuplicate(block, blocks[i]) && AreInOrder(blocks, block, i + 1, rest, index)
    ensures AreInOrder(blocks, block, i, [blocks[i]] + rest, [i] + index)
  {
    hide IsDuplicate;
    var more, others := [i] + index, [blocks[i]] + rest;
    forall k | 0 <= k < |more| ensures i <= more[k] < |blocks| && others[k] == blocks[more[k]] {
      if k > 0 { assert more[k] == index[k - 1] && others[k] == rest[k - 1]; }
    }
    PrependIncreases(i, index);
    forall j | i <= j < |blocks| ensures j in more <==> !IsDuplicate(block, blocks[j]) {
      assert j in more <==> j == i || j in index;
    }
  }

  lemma PrependIncreases(i: int, index: seq<int>)
    requires forall k :: 0 <= k < |index| ==> i < index[k]
    requires forall k, l :: 0 <= k < l < |index| ==> index[k] < index[l]
    ensures forall k, l :: 0 <= k < l < |index| + 1 ==> ([i] + index)[k] < ([i] + index)[l]
  {
  }

  lemma OthersStep(blocks: seq<Block>, block: Block, i: nat)
    requires i <= |blocks|
    ensures Others(blocks, block, i)
         == if i == |blocks| then []
            else if IsDuplicate(block, blocks[i]) then Others(blocks, block, i + 1)
            else [blocks[i]] + Others(blocks, block, i + 1)
  {
  }

  lemma {:induction false} OthersAre(blocks: seq<Block>, block: Block, i: nat)
    requires i <= |blocks|
    ensures forall b :: b in Others(blocks, block, i) <==>
        exists k :: i <= k < |blocks| && blocks[k] == b && !IsDuplicate(block, b)
    ensures IsDeduplicated(blocks) ==> IsDeduplicated(Others(blocks, block, i))
    decreases |blocks| - i
  {
    if i < |blocks| {
      OthersAre(blocks, block, i + 1);
      var rest := Others(blocks, block, i + 1);
      if IsDeduplicated(blocks) {
        forall k | 0 <= k < |rest| ensures !IsDuplicate(blocks[i], rest[k]) {
          assert rest[k] in rest;
        }
      }
    }
  }

  class RecognizedBlocks {
    var blocks: seq<Block>

    constructor ()
      ensures blocks == []
    {
      blocks := [];
    }

    /** `addDeduplicated`: the duplicates of the block give way to the best of them and the block. */
    method AddDeduplicated(block: Block) returns (ghost best: Block)
      modifies this
      ensures blocks == Others(old(blocks), block, 0) + [best]
      ensures IsBest(old(blocks), block, best) && KeepsFirst(old(blocks), block, best)
    {
      hide IsDuplicate, Others, Best, Quality, KeepsFirst;
      ghost var before := blocks;
      var duplicates: seq<int> := [];
      for i := 0 to |blocks|
        invariant blocks == before && AreDuplicates(blocks[..i], block, duplicates)
      {
        DuplicatesMore(blocks, block, duplicates, i);
        if IsDuplicate(block, blocks[i]) {
          duplicates := duplicates + [i];
        }
      }
      assert blocks[..|blocks|] == blocks;
      if duplicates == [] {
        NoDuplicates(blocks, block);
        NothingWins(blocks, block);
        blocks := blocks + [block];
        return block;
      }
      var existing: seq<Block> := [];
      for k := 0 to |duplicates|
        invariant |existing| == k && forall l :: 0 <= l < k ==> existing[l] == before[duplicates[l]]
        invariant blocks == before
      {
        existing := existing + [blocks[duplicates[k]]];
      }
      var chosen := Best(existing + [block]);
      BestIsBest(before, block, duplicates, existing);
      BestIsFirst(before, block, duplicates, existing);
      var k := |duplicates|;
      OthersEnd(before, block);
      while k > 0
        invariant 0 <= k <= |duplicates|
        invariant blocks
               == before[..Boundary(before, duplicates, k)] + Others(before, block, Boundary(before, duplicates, k))
      {
        k := k - 1;
        RemoveOne(before, block, duplicates, k);
        blocks := blocks[..duplicates[k]] + blocks[duplicates[k] + 1..];
      }
      FirstStretch(before, block, duplicates);
      blocks := blocks + [chosen];
      best := chosen;
    }

    /** Recognized blocks, added one after the other. */
    method AddAll(recognized: seq<Block>)
      modifies this
      requires blocks == []
      ensures IsDeduplicated(blocks)
      ensures forall b :: b in blocks ==> b in recognized
      ensures forall vertical, q :: Holds(recognized, vertical, q) <==> Holds(blocks, vertical, q)
    {
      hide IsDuplicate, Others, Quality, Holds;
      NothingHeld();
      for i := 0 to |recognized|
        invariant IsDeduplicated(blocks)
        invariant forall b :: b in blocks ==> b in recognized[..i]
        invariant forall vertical, q :: Holds(recognized[..i], vertical, q) <==> Holds(blocks, vertical, q)
      {
        ghost var before := blocks;
        var best := AddDeduplicated(recognized[i]);
        assert recognized[..i + 1] == recognized[..i] + [recognized[i]];
        StaysDeduplicated(before, recognized[i], best);
        StaysGood(recognized[..i], before, recognized[i], best);
        OthersAre(before, recognized[i], 0);
      }
      assert recognized[..|recognized|] == recognized;
    }
  }

  /** Block `i` is the duplicate that wins: no worse than the others, and better than those before it. */
  ghost predicate WinsAt(blocks: seq<Block>, block: Block, best: Block, i: int) {
    && 0 <= i < |blocks| && blocks[i] == best && IsDuplicate(block, best)
    && forall j :: 0 <= j < i && IsDuplicate(block, blocks[j]) ==> Quality(blocks[j]) < Quality(best)
  }

  /** Of equally good blocks the one that was there first is kept: the new block only if it is better than all. */
  ghost predicate KeepsFirst(blocks: seq<Block>, block: Block, best: Block) {
    || (exists i :: WinsAt(blocks, block, best, i))
    || (best == block && forall b :: b in blocks && IsDuplicate(block, b) ==> Quality(b) < Quality(block))
  }

  /** `best` is the block or a duplicate of it, and no duplicate, nor the block, is better. */
  ghost predicate IsBest(blocks: seq<Block>, block: Block, best: Block) {
    && (best == block || (best in blocks && IsDuplicate(block, best)))
    && (forall b :: b in blocks && IsDuplicate(block, b) ==> Quality(b) <= Quality(best))
    && Quality(block) <= Quality(best) && best.vertical == block.vertical
  }

  lemma DuplicatesMore(blocks: seq<Block>, block: Block, duplicates: seq<int>, i: nat)
    requires i < |blocks| && AreDuplicates(blocks[..i], block, duplicates)
    ensures AreDuplicates(blocks[..i + 1], block,
              if IsDuplicate(block, blocks[i]) then duplicates + [i] else duplicates)
  {
    hide IsDuplicate, AreDuplicates;
    var before := blocks[..i];
    assert blocks[..i + 1] == before + [blocks[i]];
    if IsDuplicate(block, blocks[i]) {
      OneMoreDuplicate(before, block, duplicates, blocks[i]);
    } else {
      NoMoreDuplicate(before, block, duplicates, blocks[i]);
    }
  }

  lemma OneMoreDuplicate(blocks: seq<Block>, block: Block, duplicates: seq<int>, next: Block)
    requires AreDuplicates(blocks, block, duplicates) && IsDuplicate(block, next)
    ensures AreDuplicates(blocks + [next], block, duplicates + [|blocks|])
  {
    hide IsDuplicate;
    var more := blocks + [next];
    forall i | 0 <= i < |more| && IsDuplicate(block, more[i]) ensures i in duplicates + [|blocks|] {
      if i < |blocks| { assert more[i] == blocks[i] && i in duplicates; }
    }
  }

  lemma NoMoreDuplicate(blocks: seq<Block>, block: Block, duplicates: seq<int>, next: Block)
    requires AreDuplicates(blocks, block, duplicates) && !IsDuplicate(block, next)
    ensures AreDuplicates(blocks + [next], block, duplicates)
  {
    hide IsDuplicate;
  }

  lemma NoDuplicates(blocks: seq<Block>, block: Block)
    requires AreDuplicates(blocks, block, [])
    ensures blocks == Others(blocks, block, 0) && IsBest(blocks, block, block)
  {
    hide IsDuplicate;
    OthersStretch(blocks, block, 0, |blocks|);
    assert blocks[0..|blocks|] == blocks;
  }

  lemma BestIsBest(blocks: seq<Block>, block: Block, duplicates: seq<int>, existing: seq<Block>)
    requires AreDuplicates(blocks, block, duplicates) && |existing| == |duplicates|
    requires forall k :: 0 <= k < |existing| ==> existing[k] == blocks[duplicates[k]]
    ensures IsBest(blocks, block, Best(existing + [block]))
  {
    hide OverlapOverSmallerArea, Best, CountVisible;
    var all := existing + [block];
    var best := Best(all);
    forall c | c in all ensures c == block || (c in blocks && IsDuplicate(block, c)) {
    }
    forall b | b in blocks && IsDuplicate(block, b) ensures b in all {
      var i :| 0 <= i < |blocks| && blocks[i] == b;
      assert i in duplicates;
      var k :| 0 <= k < |duplicates| && duplicates[k] == i;
      assert all[k] == b;
    }
    assert all[|existing|] == block;
  }

  lemma NothingWins(blocks: seq<Block>, block: Block)
    requires AreDuplicates(blocks, block, [])
    ensures KeepsFirst(blocks, block, block)
  {
    hide IsDuplicate, Quality;
  }

  lemma BestIsFirst(blocks: seq<Block>, block: Block, duplicates: seq<int>, existing: seq<Block>)
    requires AreDuplicates(blocks, block, duplicates) && |existing| == |duplicates|
    requires forall k :: 0 <= k < |existing| ==> existing[k] == blocks[duplicates[k]]
    ensures KeepsFirst(blocks, block, Best(existing + [block]))
  {
    var all := existing + [block];
    var best := Best(all);
    hide IsDuplicate, Quality, Best, AreDuplicates, KeepsFirst;
    var k :| IsFirstBest(all, k, best);
    if k < |existing| {
      OldOneWins(blocks, block, duplicates, existing, k, best);
    } else {
      NewOneWins(blocks, block, duplicates, existing);
    }
  }

  lemma OldOneWins(blocks: seq<Block>, block: Block, duplicates: seq<int>, existing: seq<Block>, k: int, best: Block)
    requires AreDuplicates(blocks, block, duplicates) && |existing| == |duplicates|
    requires forall k :: 0 <= k < |existing| ==> existing[k] == blocks[duplicates[k]]
    requires k < |existing| && IsFirstBest(existing + [block], k, best)
    ensures KeepsFirst(blocks, block, best)
  {
    hide IsDuplicate, Quality;
    var all, i := existing + [block], duplicates[k];
    assert all[k] == existing[k] == blocks[i];
    forall j | 0 <= j < i && IsDuplicate(block, blocks[j]) ensures Quality(blocks[j]) < Quality(best) {
      var l :| 0 <= l < |duplicates| && duplicates[l] == j;
      assert l < k && all[l] == existing[l] == blocks[j];
    }
    assert WinsAt(blocks, block, best, i);
  }

  lemma NewOneWins(blocks: seq<Block>, block: Block, duplicates: seq<int>, existing: seq<Block>)
    requires AreDuplicates(blocks, block, duplicates) && |existing| == |duplicates|
    requires forall k :: 0 <= k < |existing| ==> existing[k] == blocks[duplicates[k]]
    requires IsFirstBest(existing + [block], |existing|, block)
    ensures KeepsFirst(blocks, block, block)
  {
    hide IsDuplicate, Quality;
    var all := existing + [block];
    forall b | b in blocks && IsDuplicate(block, b) ensures Quality(b) < Quality(block) {
      var j :| 0 <= j < |blocks| && blocks[j] == b;
      var l :| 0 <= l < |duplicates| && duplicates[l] == j;
      assert all[l] == existing[l] == b;
    }
  }

  /** Where the part that the removal loop has dealt with begins. */
  ghost function Boundary(blocks: seq<Block>, duplicates: seq<int>, k: nat): nat
    requires k <= |duplicates| && forall l :: 0 <= l < |duplicates| ==> 0 <= duplicates[l] < |blocks|
  {
    if k == |duplicates| then |blocks| else duplicates[k]
  }

  lemma OthersEnd(blocks: seq<Block>, block: Block)
    ensures Others(blocks, block, |blocks|) == [] && blocks[..|blocks|] == blocks
  {
  }

  lemma RemoveOne(blocks: seq<Block>, block: Block, duplicates: seq<int>, k: nat)
    requires AreDuplicates(blocks, block, duplicates) && k < |duplicates|
    ensures var q, p := duplicates[k], Boundary(blocks, duplicates, k + 1);
            var now := blocks[..p] + Others(blocks, block, p);
            q < |now| && now[..q] + now[q + 1..] == blocks[..q] + Others(blocks, block, q)
  {
    var q, p := duplicates[k], Boundary(blocks, duplicates, k + 1);
    forall i | q + 1 <= i < p ensures !IsDuplicate(block, blocks[i]) {
      if IsDuplicate(block, blocks[i]) {
        var l :| 0 <= l < |duplicates| && duplicates[l] == i;
      }
    }
    hide IsDuplicate;
    OthersStretch(blocks, block, q + 1, p);
    var rest := Others(blocks, block, p);
    var now := blocks[..p] + rest;
    assert now[q + 1..] == blocks[q + 1..p] + rest;
    assert now[..q] == blocks[..q];
  }

  lemma FirstStretch(blocks: seq<Block>, block: Block, duplicates: seq<int>)
    requires AreDuplicates(blocks, block, duplicates)
    ensures var p := Boundary(blocks, duplicates, 0);
            blocks[..p] + Others(blocks, block, p) == Others(blocks, block, 0)
  {
    var p := Boundary(blocks, duplicates, 0);
    forall i | 0 <= i < p ensures !IsDuplicate(block, blocks[i]) {
      assert i !in duplicates;
    }
    OthersStretch(blocks, block, 0, p);
    assert blocks[0..p] == blocks[..p];
  }

  /** Adding a block keeps the blocks of one direction apart. */
  lemma StaysDeduplicated(blocks: seq<Block>, block: Block, best: Block)
    requires IsDeduplicated(blocks) && IsBest(blocks, block, best)
    ensures IsDeduplicated(Others(blocks, block, 0) + [best])
  {
    OthersAre(blocks, block, 0);
    var others := Others(blocks, block, 0);
    hide Others;
    forall i | 0 <= i < |others| ensures !IsDuplicate(others[i], best) {
      assert others[i] in others;
      hide OverlapOverSmallerArea, Quality;
      StaysApart(blocks, block, best, others[i]);
    }
    hide IsDuplicate, IsBest;
    assert forall i :: 0 <= i < |others| ==> (others + [best])[i] == others[i];
  }

  lemma StaysApart(blocks: seq<Block>, block: Block, best: Block, other: Block)
    requires IsDeduplicated(blocks) && IsBest(blocks, block, best)
    requires exists k :: 0 <= k < |blocks| && blocks[k] == other && !IsDuplicate(block, other)
    ensures !IsDuplicate(other, best)
  {
    hide OverlapOverSmallerArea, Quality;
    OverlapIsSymmetric(block.bounds, other.bounds);
    if best != block {
      var k :| 0 <= k < |blocks| && blocks[k] == other && !IsDuplicate(block, other);
      var l :| 0 <= l < |blocks| && blocks[l] == best;
      OverlapIsSymmetric(other.bounds, best.bounds);
    }
  }

  lemma NothingHeld()
    ensures forall vertical, q :: !Holds([], vertical, q)
  {
  }

  /** The best quality held for a direction is always the best quality offered for it. */
  lemma StaysGood(offered: seq<Block>, blocks: seq<Block>, block: Block, best: Block)
    requires IsBest(blocks, block, best)
    requires forall vertical, q :: Holds(offered, vertical, q) <==> Holds(blocks, vertical, q)
    ensures forall vertical, q :: Holds(offered + [block], vertical, q)
                                  <==> Holds(Others(blocks, block, 0) + [best], vertical, q)
  {
    forall vertical, q ensures Holds(offered + [block], vertical, q) <==>
        Holds(Others(blocks, block, 0) + [best], vertical, q) {
      HoldsMore(offered, block, vertical, q);
      HoldsMore(Others(blocks, block, 0), best, vertical, q);
      HoldsAfter(blocks, block, best, vertical, q);
    }
  }

  lemma HoldsMore(blocks: seq<Block>, block: Block, vertical: bool, q: real)
    ensures Holds(blocks + [block], vertical, q) <==>
        Holds(blocks, vertical, q) || (block.vertical == vertical && Quality(block) >= q)
  {
    var more := blocks + [block];
    if i :| 0 <= i < |blocks| && blocks[i].vertical == vertical && Quality(blocks[i]) >= q {
      assert more[i] == blocks[i];
    }
    assert more[|blocks|] == block;
  }

  lemma HoldsAfter(blocks: seq<Block>, block: Block, best: Block, vertical: bool, q: real)
    requires IsBest(blocks, block, best)
    ensures Holds(blocks, vertical, q) || (block.vertical == vertical && Quality(block) >= q)
            <==> Holds(Others(blocks, block, 0), vertical, q) || (best.vertical == vertical && Quality(best) >= q)
  {
    hide Quality;
    var others := Others(blocks, block, 0);
    OthersAre(blocks, block, 0);
    if i :| 0 <= i < |blocks| && blocks[i].vertical == vertical && Quality(blocks[i]) >= q {
      if !IsDuplicate(block, blocks[i]) {
        assert blocks[i] in others;
      } else {
        assert blocks[i] in blocks;
      }
    }
    if i :| 0 <= i < |others| && others[i].vertical == vertical && Quality(others[i]) >= q {
      assert others[i] in others;
    }
  }
}
