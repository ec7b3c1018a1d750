/** Furigana: cutting a reading so that each run of kanji gets its part of it. */
module Furigana {
  import opened Utf16
  import opened Wrappers

  /** A piece of the expression with its furigana; none is shown where `reading` is empty. */
  datatype Segment = Segment(text: Text, reading: Text)

  datatype Group = Group(isKana: bool, text: Text)

  predicate IsKanji(c: CodeUnit) {
    0x4E00 <= c <= 0x9FFF || 0x3400 <= c <= 0x4DBF || 0xF900 <= c <= 0xFAFF || c == 0x3005
  }

  function UnitToHiragana(c: CodeUnit): CodeUnit {
    if 0x30A1 <= c <= 0x30F6 then c - 0x60 else c
  }

  /** The katakana from small A to small KE and the hiragana of the same names lie in the same order. */
  lemma KanaAreParallel(h: CodeUnit, k: CodeUnit)
    ensures 0x30A1 <= k <= 0x30F6 ==> 0x3041 <= UnitToHiragana(k) <= 0x3096 && k - 0x30A1 == UnitToHiragana(k) - 0x3041
    ensures 0x3041 <= h <= 0x3096 ==> UnitToHiragana(h) == h && UnitToHiragana(h + 0x60) == h
    ensures UnitToHiragana(UnitToHiragana(k)) == UnitToHiragana(k)
  {
  }

  function ToHiragana(text: Text): (r: Text)
    ensures |r| == |text|
  {
    seq(|text|, i requires 0 <= i < |text| => UnitToHiragana(text[i]))
  }

  // ---------------------------------------------------------------- what is displayed

  function TextOf(segments: seq<Segment>): Text {
    if segments == [] then [] else TextOf(segments[..|segments| - 1]) + segments[|segments| - 1].text
  }

  /** The furigana, or the text itself where there is none. */
  function Spoken(s: Segment): Text { if s.reading == [] then s.text else s.reading }

  function ReadingOf(segments: seq<Segment>): Text {
    if segments == [] then [] else ReadingOf(segments[..|segments| - 1]) + Spoken(segments[|segments| - 1])
  }

  lemma Snoc(a: seq<Segment>, s: Segment)
    ensures TextOf(a + [s]) == TextOf(a) + s.text && ReadingOf(a + [s]) == ReadingOf(a) + Spoken(s)
  {
    assert (a + [s])[..|a|] == a;
  }

  lemma {:induction false} Concatenation(a: seq<Segment>, b: seq<Segment>)
    ensures TextOf(a + b) == TextOf(a) + TextOf(b)
    ensures ReadingOf(a + b) == ReadingOf(a) + ReadingOf(b)
  {
    hide Spoken, TextOf, ReadingOf;
    if b == [] {
      assert a + b == a;
      Nothing();
      assert TextOf(a) + [] == TextOf(a) && ReadingOf(a) + [] == ReadingOf(a);
    } else {
      var n := |b| - 1;
      var c, s := b[..n], b[n];
      Concatenation(a, c);
      assert b == c + [s] && a + b == (a + c) + [s];
      Snoc(a + c, s);
      Snoc(c, s);
      Associate(TextOf(a), TextOf(c), s.text);
      Associate(ReadingOf(a), ReadingOf(c), Spoken(s));
    }
  }

  lemma Nothing()
    ensures TextOf([]) == [] && ReadingOf([]) == []
  {
  }

  lemma SingleSegment(s: Segment)
    ensures TextOf([s]) == s.text && ReadingOf([s]) == Spoken(s)
  {
    assert [s][..0] == [];
  }

  // ---------------------------------------------------------------- a kana run that matches after toHiragana

  function KanaSegment(text: Text, reading: Text, start: nat, end: nat, same: bool): Segment
    requires start <= end <= |text| <= |reading|
  {
    Segment(text[start..end], if same then [] else reading[start..end])
  }

  /** The segments from `start` on, when units `start` to `i` were all alike (`same`). */
  function KanaSegmentsFrom(text: Text, reading: Text, start: nat, i: nat, same: bool): seq<Segment>
    requires start < i <= |text| <= |reading|
    decreases |text| - i
  {
    if i == |text| then [KanaSegment(text, reading, start, i, same)]
    else if (reading[i] == text[i]) == same then KanaSegmentsFrom(text, reading, start, i + 1, same)
    else [KanaSegment(text, reading, start, i, same)] + KanaSegmentsFrom(text, reading, i, i + 1, !same)
  }

  function KanaSegments(text: Text, reading: Text): seq<Segment>
    requires 0 < |text| <= |reading|
  {
    KanaSegmentsFrom(text, reading, 0, 1, reading[0] == text[0])
  }

  /** How many units the first `k` segments take up. */
  function Before(segments: seq<Segment>, k: nat): nat
    requires k <= |segments|
  {
    if k == 0 then 0 else Before(segments, k - 1) + |segments[k - 1].text|
  }

  /** A segment stands for the units from `at` on: without furigana when they are the reading's own, otherwise
      with the reading's units as furigana, each of them another one. */
  predicate StandsAt(text: Text, reading: Text, at: nat, s: Segment)
    requires |text| <= |reading|
  {
    && 0 < |s.text| && at + |s.text| <= |text|
    && s.text == text[at..at + |s.text|]
    && if s.reading == [] then s.text == reading[at..at + |s.text|]
       else s.reading == reading[at..at + |s.text|] && forall u :: at <= u < at + |s.text| ==> text[u] != reading[u]
  }

  /** The segments cover the text from `start` on, and those with furigana take turns with those without. */
  ghost predicate IsCutWhereDifferent(text: Text, reading: Text, start: nat, segments: seq<Segment>)
    requires |text| <= |reading|
  {
    && start + Before(segments, |segments|) == |text|
    && (forall k :: 0 <= k < |segments| ==> StandsAt(text, reading, start + Before(segments, k), segments[k]))
    && forall k :: 0 <= k < |segments| - 1 ==> (segments[k].reading == [] <==> segments[k + 1].reading != [])
  }

  lemma {:induction false} BeforeCons(s: Segment, rest: seq<Segment>, k: nat)
    requires k <= |rest|
    ensures Before([s] + rest, k + 1) == |s.text| + Before(rest, k)
  {
    if k > 0 {
      BeforeCons(s, rest, k - 1);
    } else {
      assert Before([s] + rest, 0) == 0;
    }
  }

  lemma CutCons(text: Text, reading: Text, start: nat, s: Segment, rest: seq<Segment>)
    requires |text| <= |reading| && StandsAt(text, reading, start, s)
    requires IsCutWhereDifferent(text, reading, start + |s.text|, rest)
    requires rest != [] ==> (s.reading == [] <==> rest[0].reading != [])
    ensures IsCutWhereDifferent(text, reading, start, [s] + rest)
  {
    hide StandsAt, Before;
    var all := [s] + rest;
    BeforeCons(s, rest, |rest|);
    BeforeNothing(all);
    forall k | 0 <= k < |all| ensures StandsAt(text, reading, start + Before(all, k), all[k]) {
      if k > 0 {
        BeforeCons(s, rest, k - 1);
        var h := k - 1;
        assert StandsAt(text, reading, start + |s.text| + Before(rest, h), rest[h]);
      }
    }
    forall k | 0 <= k < |all| - 1 ensures all[k].reading == [] <==> all[k + 1].reading != [] {
      if k > 0 {
        var h := k - 1;
        assert rest[h].reading == [] <==> rest[h + 1].reading != [];
      }
    }
  }

  lemma BeforeNothing(segments: seq<Segment>)
    ensures Before(segments, 0) == 0
  {
  }

  lemma KanaSegmentStands(text: Text, reading: Text, start: nat, i: nat, same: bool)
    requires start < i <= |text| <= |reading|
    requires forall k :: start <= k < i ==> ((reading[k] == text[k]) <==> same)
    ensures var s := KanaSegment(text, reading, start, i, same);
            StandsAt(text, reading, start, s) && |s.text| == i - start && (s.reading == [] <==> same)
  {
  }

  lemma {:induction false} KanaSegmentsCut(text: Text, reading: Text, start: nat, i: nat, same: bool)
    requires start < i <= |text| <= |reading|
    requires forall k :: start <= k < i ==> ((reading[k] == text[k]) <==> same)
    ensures var segments := KanaSegmentsFrom(text, reading, start, i, same);
            && IsCutWhereDifferent(text, reading, start, segments)
            && segments != [] && (segments[0].reading == [] <==> same)
    decreases |text| - i
  {
    hide KanaSegment, StandsAt, IsCutWhereDifferent;
    var s := KanaSegment(text, reading, start, i, same);
    if i == |text| {
      KanaSegmentStands(text, reading, start, i, same);
      NothingToCut(text, reading);
      CutCons(text, reading, start, s, []);
      assert [s] + [] == [s];
    } else if (reading[i] == text[i]) == same {
      KanaSegmentsCut(text, reading, start, i + 1, same);
    } else {
      KanaSegmentStands(text, reading, start, i, same);
      KanaSegmentsCut(text, reading, i, i + 1, !same);
      CutCons(text, reading, start, s, KanaSegmentsFrom(text, reading, i, i + 1, !same));
    }
  }

  lemma NothingToCut(text: Text, reading: Text)
    requires |text| <= |reading|
    ensures IsCutWhereDifferent(text, reading, |text|, [])
  {
  }

  /** `getFuriganaKanaSegments` */
  method GetFuriganaKanaSegments(text: Text, reading: Text) returns (newSegments: seq<Segment>)
    requires 0 < |text| <= |reading|
    ensures newSegments == KanaSegments(text, reading)
    ensures TextOf(newSegments) == text && ReadingOf(newSegments) == reading[..|text|]
    ensures IsCutWhereDifferent(text, reading, 0, newSegments)
  {
    hide KanaSegment, TextOf, ReadingOf, IsCutWhereDifferent;
    newSegments := [];
    var start := 0;
    var state := reading[0] == text[0];
    for i := 1 to |text|
      invariant 0 <= start < i
      invariant newSegments + KanaSegmentsFrom(text, reading, start, i, state) == KanaSegments(text, reading)
    {
      var newState := reading[i] == text[i];
      if state == newState {
        continue;
      }
      newSegments := newSegments + [KanaSegment(text, reading, start, i, state)];
      state := newState;
      start := i;
    }
    newSegments := newSegments + [KanaSegment(text, reading, start, |text|, state)];
    KanaSegmentsSpellAll(text, reading);
    KanaSegmentsCut(text, reading, 0, 1, reading[0] == text[0]);
  }

  /** The units at positions `lo` to `hi`. */
  function Between(t: Text, lo: nat, hi: nat): Text
    requires lo <= hi <= |t|
  {
    t[lo..hi]
  }

  lemma Join(t: Text, lo: nat, mid: nat, hi: nat)
    requires lo <= mid <= hi <= |t|
    ensures Between(t, lo, hi) == Between(t, lo, mid) + Between(t, mid, hi)
  {
  }

  lemma KanaSegmentSpells(text: Text, reading: Text, start: nat, i: nat, same: bool)
    requires start < i <= |text| <= |reading|
    requires forall k :: start <= k < i ==> ((reading[k] == text[k]) <==> same)
    ensures var s := [KanaSegment(text, reading, start, i, same)];
            TextOf(s) == Between(text, start, i) && ReadingOf(s) == Between(reading, start, i)
  {
    SingleSegment(KanaSegment(text, reading, start, i, same));
  }

  lemma {:induction false} KanaSegmentsSpell(text: Text, reading: Text, start: nat, i: nat, same: bool)
    requires start < i <= |text| <= |reading|
    requires forall k :: start <= k < i ==> ((reading[k] == text[k]) <==> same)
    ensures TextOf(KanaSegmentsFrom(text, reading, start, i, same)) == Between(text, start, |text|)
    ensures ReadingOf(KanaSegmentsFrom(text, reading, start, i, same)) == Between(reading, start, |text|)
    decreases |text| - i
  {
    hide Between, KanaSegment, TextOf, ReadingOf;
    if i == |text| {
      KanaSegmentSpells(text, reading, start, i, same);
    } else if (reading[i] == text[i]) == same {
      KanaSegmentsSpell(text, reading, start, i + 1, same);
    } else {
      KanaSegmentSpells(text, reading, start, i, same);
      KanaSegmentsSpell(text, reading, i, i + 1, !same);
      Concatenation([KanaSegment(text, reading, start, i, same)], KanaSegmentsFrom(text, reading, i, i + 1, !same));
      Join(text, start, i, |text|);
      Join(reading, start, i, |text|);
    }
  }

  lemma KanaSegmentsSpellAll(text: Text, reading: Text)
    requires 0 < |text| <= |reading|
    ensures TextOf(KanaSegments(text, reading)) == text
    ensures ReadingOf(KanaSegments(text, reading)) == reading[..|text|]
  {
    KanaSegmentsSpell(text, reading, 0, 1, reading[0] == text[0]);
  }

  // ---------------------------------------------------------------- alignments

  /** The reading without its first `n` units. */
  function Rest(reading: Text, n: nat): (r: Text)
    requires n <= |reading|
    ensures |r| == |reading| - n
  {
    reading[n..]
  }

  lemma SplitReading(reading: Text, n: nat)
    requires n <= |reading|
    ensures reading == reading[..n] + Rest(reading, n) && |reading| == n + |Rest(reading, n)|
  {
  }

  /** Group `g` can take the first `n` units of the reading: a kana run the same kana, a kanji run at
      least as many units as it has. */
  predicate Takes(group: Group, reading: Text, n: int) {
    && 0 <= n <= |reading|
    && if group.isKana then n == |group.text| && ToHiragana(reading)[..n] == ToHiragana(group.text)
       else n >= |group.text|
  }

  /** One length per group from `g` on, using up the reading. */
  ghost predicate IsAlignment(groups: seq<Group>, g: nat, reading: Text, cuts: seq<nat>)
    requires g <= |groups|
    decreases |groups| - g
  {
    && |cuts| == |groups| - g
    && if g == |groups| then reading == []
       else Takes(groups[g], reading, cuts[0]) && IsAlignment(groups, g + 1, Rest(reading, cuts[0]), cuts[1..])
  }

  /** The only alignment, if there is exactly one. */
  ghost predicate IsOnlyAlignment(groups: seq<Group>, g: nat, reading: Text, cuts: seq<nat>)
    requires g <= |groups|
  {
    && IsAlignment(groups, g, reading, cuts)
    && forall others :: IsAlignment(groups, g, reading, others) ==> others == cuts
  }

  function Sum(cuts: seq<nat>, k: nat): nat
    requires k <= |cuts|
  {
    if k == 0 then 0 else Sum(cuts, k - 1) + cuts[k - 1]
  }

  lemma {:induction false} SumCons(cuts: seq<nat>, k: nat)
    requires k < |cuts|
    ensures Sum(cuts, k + 1) == cuts[0] + Sum(cuts[1..], k)
  {
    if k > 0 {
      SumCons(cuts, k - 1);
    } else {
      assert Sum(cuts, 0) == 0;
    }
  }

  /** The group takes the `n` units from `at` on: a kana run the same kana, unit by unit, a kanji run at least one
      for each of its units. */
  predicate TakesAt(group: Group, reading: Text, at: nat, n: nat) {
    && at + n <= |reading|
    && if group.isKana
       then |group.text| == n && forall u :: 0 <= u < n ==>
              UnitToHiragana(group.text[u]) == UnitToHiragana(reading[at + u])
       else |group.text| <= n
  }

  /** An alignment, said without recursion: the lengths add up to the reading, and every group takes its part. */
  ghost predicate IsCutInto(groups: seq<Group>, g: nat, reading: Text, cuts: seq<nat>)
    requires g <= |groups|
  {
    && |cuts| == |groups| - g
    && Sum(cuts, |cuts|) == |reading|
    && forall k :: 0 <= k < |cuts| ==> TakesPart(groups, g, reading, cuts, k)
  }

  predicate TakesPart(groups: seq<Group>, g: nat, reading: Text, cuts: seq<nat>, k: nat)
    requires g + |cuts| <= |groups| && k < |cuts|
  {
    TakesAt(groups[g + k], reading, Sum(cuts, k), cuts[k])
  }

  lemma TakesFirst(group: Group, reading: Text, n: nat)
    ensures Takes(group, reading, n) <==> TakesAt(group, reading, 0, n)
  {
    if group.isKana && n == |group.text| && n <= |reading| {
      var a, b := ToHiragana(reading)[..n], ToHiragana(group.text);
      assert forall u :: 0 <= u < n ==> a[u] == UnitToHiragana(reading[u]) && b[u] == UnitToHiragana(group.text[u]);
      if TakesAt(group, reading, 0, n) { assert a == b; }
    }
  }

  lemma TakesLater(group: Group, reading: Text, n: nat, at: nat, m: nat)
    requires n <= |reading|
    ensures TakesAt(group, Rest(reading, n), at, m) <==> TakesAt(group, reading, n + at, m)
  {
    hide UnitToHiragana, Rest;
    if group.isKana && |group.text| == m && at + m <= |reading| - n {
      forall u | 0 <= u < m
        ensures UnitToHiragana(group.text[u]) == UnitToHiragana(Rest(reading, n)[at + u])
           <==> UnitToHiragana(group.text[u]) == UnitToHiragana(reading[n + at + u])
      {
        RestAt(reading, n, at + u);
      }
    }
  }

  lemma RestAt(reading: Text, n: nat, i: nat)
    requires n + i < |reading|
    ensures Rest(reading, n)[i] == reading[n + i]
  {
  }

  lemma CutTail(groups: seq<Group>, g: nat, reading: Text, cuts: seq<nat>)
    requires g < |groups| && |cuts| == |groups| - g && cuts[0] <= |reading|
    ensures IsCutInto(groups, g, reading, cuts)
       <==> TakesAt(groups[g], reading, 0, cuts[0]) && IsCutInto(groups, g + 1, Rest(reading, cuts[0]), cuts[1..])
  {
    var tail, rest, h := cuts[1..], Rest(reading, cuts[0]), g + 1;
    SumCons(cuts, |tail|);
    NothingSummed(cuts);
    forall k | 0 <= k < |tail|
      ensures TakesPart(groups, h, rest, tail, k) <==> TakesPart(groups, g, reading, cuts, k + 1)
    {
      PartShift(groups, g, reading, cuts, k);
    }
    assert TakesPart(groups, g, reading, cuts, 0) <==> TakesAt(groups[g], reading, 0, cuts[0]);
    hide TakesAt, Rest, Sum, TakesPart;
    if TakesPart(groups, g, reading, cuts, 0) && IsCutInto(groups, h, rest, tail) {
      forall k | 0 <= k < |cuts| ensures TakesPart(groups, g, reading, cuts, k) {
        if k > 0 { assert TakesPart(groups, h, rest, tail, k - 1); }
      }
    }
  }

  lemma PartShift(groups: seq<Group>, g: nat, reading: Text, cuts: seq<nat>, k: nat)
    requires g < |groups| && |cuts| == |groups| - g && cuts[0] <= |reading| && k + 1 < |cuts|
    ensures TakesPart(groups, g + 1, Rest(reading, cuts[0]), cuts[1..], k)
       <==> TakesPart(groups, g, reading, cuts, k + 1)
  {
    hide TakesAt, Rest, Sum;
    SumCons(cuts, k);
    TakesLater(groups[g + 1 + k], reading, cuts[0], Sum(cuts[1..], k), cuts[1..][k]);
  }

  lemma NothingSummed(cuts: seq<nat>)
    ensures Sum(cuts, 0) == 0
  {
  }

  /** Both say the same. */
  lemma {:induction false} AlignmentIsCut(groups: seq<Group>, g: nat, reading: Text, cuts: seq<nat>)
    requires g <= |groups|
    ensures IsAlignment(groups, g, reading, cuts) <==> IsCutInto(groups, g, reading, cuts)
    decreases |groups| - g
  {
    if g < |groups| && |cuts| == |groups| - g {
      TakesFirst(groups[g], reading, cuts[0]);
      if cuts[0] <= |reading| {
        AlignmentIsCut(groups, g + 1, Rest(reading, cuts[0]), cuts[1..]);
        CutTail(groups, g, reading, cuts);
      } else {
        SumCons(cuts, |cuts| - 1);
      }
    }
    hide TakesAt, Rest;
  }

  function GroupSegments(group: Group, reading: Text, n: nat): seq<Segment>
    requires n <= |reading| && group.text != [] && (group.isKana ==> |group.text| <= |reading|)
  {
    if !group.isKana then [Segment(group.text, reading[..n])]
    else if group.text <= reading then [Segment(group.text, [])]
    else KanaSegments(group.text, reading)
  }

  ghost predicate AreNonempty(groups: seq<Group>) { forall k :: 0 <= k < |groups| ==> groups[k].text != [] }

  ghost function SegmentsFor(groups: seq<Group>, g: nat, reading: Text, cuts: seq<nat>): seq<Segment>
    requires AreNonempty(groups) && g <= |groups| && IsAlignment(groups, g, reading, cuts)
    decreases |groups| - g
  {
    if g == |groups| then []
    else GroupSegments(groups[g], reading, cuts[0]) + SegmentsFor(groups, g + 1, Rest(reading, cuts[0]), cuts[1..])
  }

  function Cat(a: Text, b: Text): Text { a + b }

  function GroupsText(groups: seq<Group>, g: nat): Text
    requires g <= |groups|
    decreases |groups| - g
  {
    if g == |groups| then [] else Cat(groups[g].text, GroupsText(groups, g + 1))
  }

  /** What an alignment displays: the groups' text, and exactly the reading. */
  lemma {:induction false} AlignmentSpells(groups: seq<Group>, g: nat, reading: Text, cuts: seq<nat>)
    requires AreNonempty(groups) && g <= |groups| && IsAlignment(groups, g, reading, cuts)
    ensures TextOf(SegmentsFor(groups, g, reading, cuts)) == GroupsText(groups, g)
    ensures ReadingOf(SegmentsFor(groups, g, reading, cuts)) == reading
    decreases |groups| - g
  {
    hide Rest, TextOf, ReadingOf, GroupSegments;
    Nothing();
    if g < |groups| {
      var n := cuts[0];
      var rest := SegmentsFor(groups, g + 1, Rest(reading, n), cuts[1..]);
      AlignmentSpells(groups, g + 1, Rest(reading, n), cuts[1..]);
      GroupSpells(groups[g], reading, n);
      Concatenation(GroupSegments(groups[g], reading, n), rest);
      SplitReading(reading, n);
    }
  }

  lemma GroupSpells(group: Group, reading: Text, n: nat)
    requires group.text != [] && Takes(group, reading, n)
    ensures TextOf(GroupSegments(group, reading, n)) == group.text
    ensures ReadingOf(GroupSegments(group, reading, n)) == reading[..n]
  {
    if !group.isKana {
      SingleSegment(Segment(group.text, reading[..n]));
    } else if group.text <= reading {
      SingleSegment(Segment(group.text, []));
    } else {
      KanaSegmentsSpellAll(group.text, reading);
    }
  }

  // ---------------------------------------------------------------- the backtracking search

  /** `segmentizeFurigana` without its early break: None for no segmentation, or an ambiguous one. */
  ghost function Segmentize(groups: seq<Group>, g: nat, reading: Text): Option<seq<Segment>>
    requires AreNonempty(groups) && g <= |groups|
    decreases |groups| - g, |reading| + 2
  {
    if g == |groups| then
      if reading == [] then Some([]) else None
    else if groups[g].isKana then
      var n := |groups[g].text|;
      if Takes(groups[g], reading, n) then
        Prepend(GroupSegments(groups[g], reading, n), Segmentize(groups, g + 1, Rest(reading, n)))
      else None
    else Search(groups, g, reading, |reading|, None)
  }

  function Prepend(head: seq<Segment>, tail: Option<seq<Segment>>): Option<seq<Segment>> {
    if tail.Some? then Some(head + tail.value) else None
  }

  /** The loop over the length `i` of the kanji run's reading, from the longest down. */
  ghost function Search(groups: seq<Group>, g: nat, reading: Text, i: nat,
      result: Option<seq<Segment>>): Option<seq<Segment>>
    requires AreNonempty(groups) && g < |groups| && !groups[g].isKana && i <= |reading|
    decreases |groups| - g, i + 1
  {
    if i < |groups[g].text| then result
    else
      var segments := Prepend(GroupSegments(groups[g], reading, i), Segmentize(groups, g + 1, Rest(reading, i)));
      if segments.None? then Search(groups, g, reading, i - 1, result)
      else if result.Some? then None
      else Search(groups, g, reading, i - 1, segments)
  }

  /** The kanji run at `g` can take `i` units and leave the rest a segmentation. */
  ghost predicate Splits(groups: seq<Group>, g: nat, reading: Text, i: nat)
    requires AreNonempty(groups) && g < |groups| && !groups[g].isKana
  {
    |groups[g].text| <= i <= |reading| && Segmentize(groups, g + 1, Rest(reading, i)).Some?
  }

  ghost function SplitAt(groups: seq<Group>, g: nat, reading: Text, i: nat): seq<Segment>
    requires AreNonempty(groups) && g < |groups| && !groups[g].isKana && Splits(groups, g, reading, i)
  {
    GroupSegments(groups[g], reading, i) + Segmentize(groups, g + 1, Rest(reading, i)).value
  }

  /** One round of the loop. */
  lemma SearchStep(groups: seq<Group>, g: nat, reading: Text, i: nat, result: Option<seq<Segment>>)
    requires AreNonempty(groups) && g < |groups| && !groups[g].isKana && i <= |reading|
    ensures i < |groups[g].text| ==>
      Search(groups, g, reading, i, result) == result && forall j: nat :: j <= i ==> !Splits(groups, g, reading, j)
    ensures i >= |groups[g].text| ==> i > 0
    ensures i >= |groups[g].text| && !Splits(groups, g, reading, i) ==>
      Search(groups, g, reading, i, result) == Search(groups, g, reading, i - 1, result)
    ensures i >= |groups[g].text| && Splits(groups, g, reading, i) ==>
      Search(groups, g, reading, i, result)
      == if result.Some? then None else Search(groups, g, reading, i - 1, Some(SplitAt(groups, g, reading, i)))
  {
    hide Rest, GroupSegments, Segmentize;
  }

  ghost predicate NoSplit(groups: seq<Group>, g: nat, reading: Text, i: int)
    requires AreNonempty(groups) && g < |groups| && !groups[g].isKana
  {
    forall j: nat :: j <= i ==> !Splits(groups, g, reading, j)
  }

  /** With a split found already, the search succeeds only if there is no other. */
  lemma {:induction false} SearchForNoMore(groups: seq<Group>, g: nat, reading: Text, i: nat,
      result: Option<seq<Segment>>)
    requires AreNonempty(groups) && g < |groups| && !groups[g].isKana && i <= |reading| && result.Some?
    ensures Search(groups, g, reading, i, result) == if NoSplit(groups, g, reading, i) then result else None
  {
    hide Splits, Search, SplitAt;
    SearchStep(groups, g, reading, i, result);
    if |groups[g].text| <= i && !Splits(groups, g, reading, i) {
      SearchForNoMore(groups, g, reading, i - 1, result);
      assert NoSplit(groups, g, reading, i) <==> NoSplit(groups, g, reading, i - 1);
    }
  }

  /** `j` is the only split up to `i`. */
  ghost predicate IsOnlySplit(groups: seq<Group>, g: nat, reading: Text, i: int, j: nat)
    requires AreNonempty(groups) && g < |groups| && !groups[g].isKana
  {
    j <= i && Splits(groups, g, reading, j) && forall k: nat :: k <= i && Splits(groups, g, reading, k) ==> k == j
  }

  /** The search finds a split exactly when there is just one. */
  lemma {:induction false} SearchFindsOnlySplit(groups: seq<Group>, g: nat, reading: Text, i: nat)
    requires AreNonempty(groups) && g < |groups| && !groups[g].isKana && i <= |reading|
    ensures Search(groups, g, reading, i, None).Some? <==> exists j: nat :: IsOnlySplit(groups, g, reading, i, j)
    ensures forall j: nat :: IsOnlySplit(groups, g, reading, i, j) ==>
      Search(groups, g, reading, i, None) == Some(SplitAt(groups, g, reading, j))
  {
    hide Splits, Search, SplitAt;
    SearchStep(groups, g, reading, i, None);
    if i < |groups[g].text| {
    } else if Splits(groups, g, reading, i) {
      SearchForNoMore(groups, g, reading, i - 1, Some(SplitAt(groups, g, reading, i)));
      if NoSplit(groups, g, reading, i - 1) {
        assert IsOnlySplit(groups, g, reading, i, i);
      } else {
        var k: nat :| k <= i - 1 && Splits(groups, g, reading, k);
        forall j: nat ensures !IsOnlySplit(groups, g, reading, i, j) {
        }
      }
    } else {
      var h := i - 1;
      SearchFindsOnlySplit(groups, g, reading, h);
      if j: nat :| IsOnlySplit(groups, g, reading, h, j) {
        assert IsOnlySplit(groups, g, reading, i, j);
      }
      forall j: nat | IsOnlySplit(groups, g, reading, i, j) ensures IsOnlySplit(groups, g, reading, h, j) {
      }
    }
  }

  /** Anything the search returns is what some alignment displays. */
  lemma {:induction false} SegmentsAreAligned(groups: seq<Group>, g: nat, reading: Text) returns (cuts: seq<nat>)
    requires AreNonempty(groups) && g <= |groups| && Segmentize(groups, g, reading).Some?
    ensures IsAlignment(groups, g, reading, cuts)
    ensures Segmentize(groups, g, reading).value == SegmentsFor(groups, g, reading, cuts)
    decreases |groups| - g
  {
    hide Rest, GroupSegments, Search;
    if g == |groups| {
      cuts := [];
    } else {
      var n := |groups[g].text|;
      if !groups[g].isKana {
        SearchFindsOnlySplit(groups, g, reading, |reading|);
        var j: nat :| IsOnlySplit(groups, g, reading, |reading|, j);
        n := j;
      }
      assert n <= |reading|;
      var rest := SegmentsAreAligned(groups, g + 1, Rest(reading, n));
      cuts := [n] + rest;
      assert cuts[1..] == rest;
    }
  }

  lemma AlignmentTail(groups: seq<Group>, g: nat, reading: Text, n: nat, rest: seq<nat>)
    requires g < |groups| && Takes(groups[g], reading, n)
    ensures IsAlignment(groups, g, reading, [n] + rest) <==> IsAlignment(groups, g + 1, Rest(reading, n), rest)
  {
    assert ([n] + rest)[1..] == rest;
  }

  /** If exactly one alignment exists, it is returned. */
  lemma {:induction false} OnlyAlignmentIsFound(groups: seq<Group>, g: nat, reading: Text, cuts: seq<nat>)
    requires AreNonempty(groups) && g <= |groups| && IsOnlyAlignment(groups, g, reading, cuts)
    ensures Segmentize(groups, g, reading) == Some(SegmentsFor(groups, g, reading, cuts))
    decreases |groups| - g
  {
    hide Rest, GroupSegments, Search;
    if g < |groups| {
      var n, rest := cuts[0], cuts[1..];
      var h, tail := g + 1, Rest(reading, n);
      assert cuts == [n] + rest;
      forall others | IsAlignment(groups, h, tail, others) ensures others == rest {
        AlignmentTail(groups, g, reading, n, others);
        assert ([n] + others)[1..] == others;
      }
      OnlyAlignmentIsFound(groups, g + 1, Rest(reading, n), rest);
      if !groups[g].isKana {
        assert Splits(groups, g, reading, n);
        forall j: nat | Splits(groups, g, reading, j) ensures j == n {
          var others := SegmentsAreAligned(groups, g + 1, Rest(reading, j));
          AlignmentTail(groups, g, reading, j, others);
          assert ([j] + others)[0] == j;
        }
        assert IsOnlySplit(groups, g, reading, |reading|, n);
        SearchFindsOnlySplit(groups, g, reading, |reading|);
      }
    }
  }

  // ---------------------------------------------------------------- how far uniqueness goes

  function KanjiRuns(groups: seq<Group>, g: nat): nat
    requires g <= |groups|
    decreases |groups| - g
  {
    if g == |groups| then 0 else (if groups[g].isKana then 0 else 1) + KanjiRuns(groups, g + 1)
  }

  lemma {:induction false} KanaOnlyTakesItsLength(groups: seq<Group>, g: nat, reading: Text, cuts: seq<nat>)
    requires g <= |groups| && KanjiRuns(groups, g) == 0 && IsAlignment(groups, g, reading, cuts)
    ensures |reading| == |GroupsText(groups, g)|
    decreases |groups| - g
  {
    if g < |groups| {
      KanaOnlyTakesItsLength(groups, g + 1, Rest(reading, cuts[0]), cuts[1..]);
    }
  }

  /** With at most one kanji run there is at most one alignment. */
  lemma {:induction false} OneKanjiRunIsUnambiguous(groups: seq<Group>, g: nat, reading: Text, a: seq<nat>, b: seq<nat>)
    requires g <= |groups| && KanjiRuns(groups, g) <= 1
    requires IsAlignment(groups, g, reading, a) && IsAlignment(groups, g, reading, b)
    ensures a == b
    decreases |groups| - g
  {
    if g < |groups| {
      if !groups[g].isKana {
        KanaOnlyTakesItsLength(groups, g + 1, Rest(reading, a[0]), a[1..]);
        KanaOnlyTakesItsLength(groups, g + 1, Rest(reading, b[0]), b[1..]);
      }
      OneKanjiRunIsUnambiguous(groups, g + 1, Rest(reading, a[0]), a[1..], b[1..]);
      assert a == [a[0]] + a[1..] && b == [b[0]] + b[1..];
    }
  }

  /** So there every alignment is found. */
  lemma OneKanjiRunIsFound(groups: seq<Group>, g: nat, reading: Text, cuts: seq<nat>)
    requires AreNonempty(groups) && g <= |groups| && KanjiRuns(groups, g) <= 1 && IsAlignment(groups, g, reading, cuts)
    ensures Segmentize(groups, g, reading).Some?
  {
    forall others | IsAlignment(groups, g, reading, others) ensures others == cuts {
      OneKanjiRunIsUnambiguous(groups, g, reading, others, cuts);
    }
    OnlyAlignmentIsFound(groups, g, reading, cuts);
  }

  /** With at most two kanji runs, something is returned exactly when the alignment is unique. */
  lemma {:induction false} TwoKanjiRuns(groups: seq<Group>, g: nat, reading: Text)
    requires AreNonempty(groups) && g <= |groups| && KanjiRuns(groups, g) <= 2
    ensures Segmentize(groups, g, reading).Some? <==> exists cuts :: IsOnlyAlignment(groups, g, reading, cuts)
    decreases |groups| - g
  {
    if Segmentize(groups, g, reading).Some? {
      var cuts := SegmentsAreAligned(groups, g, reading);
      forall others | IsAlignment(groups, g, reading, others) ensures others == cuts {
        TwoKanjiRunsAgree(groups, g, reading, cuts, others);
      }
      assert IsOnlyAlignment(groups, g, reading, cuts);
    }
    if cuts :| IsOnlyAlignment(groups, g, reading, cuts) {
      OnlyAlignmentIsFound(groups, g, reading, cuts);
    }
  }

  lemma {:induction false} TwoKanjiRunsAgree(groups: seq<Group>, g: nat, reading: Text, a: seq<nat>, b: seq<nat>)
    requires AreNonempty(groups) && g <= |groups| && KanjiRuns(groups, g) <= 2 && Segmentize(groups, g, reading).Some?
    requires IsAlignment(groups, g, reading, a) && IsAlignment(groups, g, reading, b)
    ensures a == b
    decreases |groups| - g
  {
    hide Rest, GroupSegments, Search;
    if g < |groups| {
      assert a == [a[0]] + a[1..] && b == [b[0]] + b[1..];
      if groups[g].isKana {
        TwoKanjiRunsAgree(groups, g + 1, Rest(reading, a[0]), a[1..], b[1..]);
      } else {
        OneKanjiRunIsFound(groups, g + 1, Rest(reading, a[0]), a[1..]);
        OneKanjiRunIsFound(groups, g + 1, Rest(reading, b[0]), b[1..]);
        SearchFindsOnlySplit(groups, g, reading, |reading|);
        var j: nat :| IsOnlySplit(groups, g, reading, |reading|, j);
        assert Splits(groups, g, reading, a[0]) && Splits(groups, g, reading, b[0]);
        OneKanjiRunIsUnambiguous(groups, g + 1, Rest(reading, a[0]), a[1..], b[1..]);
      }
    }
  }

  /** Nothing is left to align behind the last run unless it takes everything. */
  lemma LastRunTakesAll(groups: seq<Group>, g: nat, reading: Text)
    requires AreNonempty(groups) && g + 1 == |groups| && !groups[g].isKana
    ensures forall i: nat :: Splits(groups, g, reading, i) <==> |groups[g].text| <= i == |reading|
  {
  }

  // ---------------------------------------------------------------- three kanji runs

  const KANJI_RUN := Group(false, [0x5C71])
  const KANA_RUN := Group(true, [0x3042])

  /** Kanji and kana taking turns. */
  const FIVE_RUNS: seq<Group> := [KANJI_RUN, KANA_RUN, KANJI_RUN, KANA_RUN, KANJI_RUN]

  const A: CodeUnit := 0x3042
  const I: CodeUnit := 0x3044

  /** Four more runs, from the first kana run on. */
  predicate IsTailAlignment(reading: Text, cuts: seq<nat>) {
    && |cuts| == 4 && cuts[0] == 1 && cuts[2] == 1 && cuts[1] >= 1 && cuts[3] >= 1
    && |reading| == cuts[1] + cuts[3] + 2 && UnitToHiragana(reading[0]) == A
        && UnitToHiragana(reading[1 + cuts[1]]) == A
  }

  lemma KanaTakes(reading: Text, n: int)
    ensures Takes(KANA_RUN, reading, n) <==> n == 1 && |reading| >= 1 && UnitToHiragana(reading[0]) == A
  {
    assert ToHiragana([A]) == [A];
    if n == 1 && |reading| >= 1 { assert ToHiragana(reading)[..1] == [UnitToHiragana(reading[0])]; }
  }

  lemma AlignmentStep(groups: seq<Group>, g: nat, reading: Text, cuts: seq<nat>)
    requires g < |groups|
    ensures IsAlignment(groups, g, reading, cuts) <==>
            |cuts| == |groups| - g && Takes(groups[g], reading, cuts[0])
                && IsAlignment(groups, g + 1, Rest(reading, cuts[0]), cuts[1..])
  {
  }

  lemma TailAlignments(reading: Text, cuts: seq<nat>)
    ensures IsAlignment(FIVE_RUNS, 1, reading, cuts) <==> IsTailAlignment(reading, cuts)
  {
    AlignmentStep(FIVE_RUNS, 1, reading, cuts);
    KanaTakes(reading, if |cuts| == 4 then cuts[0] else 0);
    hide Takes, IsAlignment;
    if |cuts| == 4 && cuts[0] == 1 && |reading| >= 1 {
      var r1, c1 := Rest(reading, 1), cuts[1..];
      AlignmentStep(FIVE_RUNS, 2, r1, c1);
      KanjiTakes(r1, cuts[1]);
      if cuts[1] <= |r1| {
        var r2, c2 := Rest(r1, cuts[1]), c1[1..];
        AlignmentStep(FIVE_RUNS, 3, r2, c2);
        KanaTakes(r2, cuts[2]);
        if |r2| >= 1 {
          assert r2[0] == reading[1 + cuts[1]];
          var r3, c3 := Rest(r2, 1), c2[1..];
          AlignmentStep(FIVE_RUNS, 4, r3, c3);
          KanjiTakes(r3, cuts[3]);
          if cuts[3] <= |r3| { LastStep(Rest(r3, cuts[3]), c3[1..]); }
        }
      }
    }
  }

  lemma LastStep(reading: Text, cuts: seq<nat>)
    ensures IsAlignment(FIVE_RUNS, 5, reading, cuts) <==> cuts == [] && reading == []
  {
  }

  lemma KanjiTakes(reading: Text, n: int)
    ensures Takes(KANJI_RUN, reading, n) <==> 1 <= n <= |reading|
  {
  }

  ghost predicate IsOnlyTail(reading: Text, cuts: seq<nat>) {
    IsTailAlignment(reading, cuts) && forall others :: IsTailAlignment(reading, others) ==> others == cuts
  }

  lemma TailIsFound(reading: Text)
    ensures Segmentize(FIVE_RUNS, 1, reading).Some? <==> exists cuts :: IsOnlyTail(reading, cuts)
  {
    assert KanjiRuns(FIVE_RUNS, 5) == 0 && KanjiRuns(FIVE_RUNS, 4) == 1 && KanjiRuns(FIVE_RUNS, 3) == 1;
    assert KanjiRuns(FIVE_RUNS, 2) == 2 && KanjiRuns(FIVE_RUNS, 1) == 2;
    hide Segmentize, IsAlignment, IsTailAlignment;
    TwoKanjiRuns(FIVE_RUNS, 1, reading);
    forall cuts ensures IsAlignment(FIVE_RUNS, 1, reading, cuts) <==> IsTailAlignment(reading, cuts) {
      TailAlignments(reading, cuts);
    }
    if cuts :| IsOnlyTail(reading, cuts) { assert IsOnlyAlignment(FIVE_RUNS, 1, reading, cuts); }
    if cuts :| IsOnlyAlignment(FIVE_RUNS, 1, reading, cuts) { assert IsOnlyTail(reading, cuts); }
  }

  lemma NoTail(reading: Text)
    requires |reading| < 4 || UnitToHiragana(reading[0]) != A
    ensures Segmentize(FIVE_RUNS, 1, reading).None?
  {
    hide Segmentize;
    TailIsFound(reading);
  }

  lemma FourUnits()
    ensures Segmentize(FIVE_RUNS, 1, [A, I, A, I]).Some?
  {
    hide Segmentize;
    TailIsFound([A, I, A, I]);
    forall cuts | IsTailAlignment([A, I, A, I], cuts) ensures cuts == [1, 1, 1, 1] {
    }
    assert IsOnlyTail([A, I, A, I], [1, 1, 1, 1]);
  }

  lemma SixUnits()
    ensures Segmentize(FIVE_RUNS, 1, [A, I, A, I, A, I]).None?
    ensures IsTailAlignment([A, I, A, I, A, I], [1, 1, 1, 3])
  {
    hide Segmentize;
    TailIsFound([A, I, A, I, A, I]);
    var one, two: seq<nat> := [1, 1, 1, 3], [1, 3, 1, 1];
    assert IsTailAlignment([A, I, A, I, A, I], one) && IsTailAlignment([A, I, A, I, A, I], two) && one[1] != two[1];
  }

  /** With three kanji runs a segmentation can be returned although others exist: behind the shortest
      first run the rest is ambiguous, so that this choice is not counted. */
  lemma ThreeKanjiRunsAmbiguous()
    ensures var reading := [I, A, I, A, I, A, I];
            && Segmentize(FIVE_RUNS, 0, reading).Some?
            && IsAlignment(FIVE_RUNS, 0, reading, [3, 1, 1, 1, 1])
                && IsAlignment(FIVE_RUNS, 0, reading, [1, 1, 1, 1, 3])
  {
    hide Segmentize, Search, IsAlignment, IsTailAlignment;
    var reading := [I, A, I, A, I, A, I];
    assert Rest(reading, 1) == [A, I, A, I, A, I] && Rest(reading, 3) == [A, I, A, I];
    FourUnits();
    SixUnits();
    forall j: nat ensures Splits(FIVE_RUNS, 0, reading, j) <==> j == 3 {
      if j <= 7 {
        if j >= 4 || j == 2 { NoTail(Rest(reading, j)); }
      }
    }
    assert IsOnlySplit(FIVE_RUNS, 0, reading, 7, 3);
    SearchFindsOnlySplit(FIVE_RUNS, 0, reading, 7);
    SegmentizeKanji(FIVE_RUNS, 0, reading);
    assert IsTailAlignment([A, I, A, I], [1, 1, 1, 1]) by { OneEach(); }
    FiveRuns(reading, 3, [1, 1, 1, 1]);
    FiveRuns(reading, 1, [1, 1, 1, 3]);
    assert [3] + [1, 1, 1, 1] == [3, 1, 1, 1, 1] && [1] + [1, 1, 1, 3] == [1, 1, 1, 1, 3];
  }

  lemma OneEach()
    ensures IsTailAlignment([A, I, A, I], [1, 1, 1, 1])
  {
  }

  lemma SegmentizeKanji(groups: seq<Group>, g: nat, reading: Text)
    requires AreNonempty(groups) && g < |groups| && !groups[g].isKana
    ensures Segmentize(groups, g, reading) == Search(groups, g, reading, |reading|, None)
  {
    hide Search;
  }

  lemma FiveRuns(reading: Text, n: nat, rest: seq<nat>)
    requires 1 <= n <= |reading| && IsTailAlignment(Rest(reading, n), rest)
    ensures IsAlignment(FIVE_RUNS, 0, reading, [n] + rest)
  {
    TailAlignments(Rest(reading, n), rest);
    AlignmentTail(FIVE_RUNS, 0, reading, n, rest);
  }

  // ---------------------------------------------------------------- any number of kanji runs

  ghost predicate HasAlignment(groups: seq<Group>, g: nat, reading: Text)
    requires g <= |groups|
  {
    exists cuts :: IsAlignment(groups, g, reading, cuts)
  }

  ghost predicate HasOnlyAlignment(groups: seq<Group>, g: nat, reading: Text)
    requires g <= |groups|
  {
    exists cuts :: IsOnlyAlignment(groups, g, reading, cuts)
  }

  ghost predicate IsAmbiguous(groups: seq<Group>, g: nat, reading: Text)
    requires g <= |groups|
  {
    exists a, b :: a != b && IsAlignment(groups, g, reading, a) && IsAlignment(groups, g, reading, b)
  }

  lemma NoneOneOrMore(groups: seq<Group>, g: nat, reading: Text)
    requires g <= |groups|
    ensures HasAlignment(groups, g, reading) <==>
        HasOnlyAlignment(groups, g, reading) || IsAmbiguous(groups, g, reading)
    ensures !(HasOnlyAlignment(groups, g, reading) && IsAmbiguous(groups, g, reading))
  {
    hide IsAlignment;
    if cuts :| IsAlignment(groups, g, reading, cuts) {
      if others :| IsAlignment(groups, g, reading, others) && others != cuts {
      } else {
        assert IsOnlyAlignment(groups, g, reading, cuts);
      }
    }
  }

  /** Length `n` of the kanji run at `g` leaves a rest with exactly one alignment. */
  ghost predicate LeavesOne(groups: seq<Group>, g: nat, reading: Text, n: nat)
    requires g < |groups|
  {
    Takes(groups[g], reading, n) && HasOnlyAlignment(groups, g + 1, Rest(reading, n))
  }

  /** Length `n` of the kanji run at `g` leaves a rest with more than one alignment. */
  ghost predicate LeavesChoice(groups: seq<Group>, g: nat, reading: Text, n: nat)
    requires g < |groups|
  {
    Takes(groups[g], reading, n) && IsAmbiguous(groups, g + 1, Rest(reading, n))
  }

  /** `n` is the only length that leaves a rest with exactly one alignment. */
  ghost predicate OnlyLeavesOne(groups: seq<Group>, g: nat, reading: Text, n: nat)
    requires g < |groups|
  {
    LeavesOne(groups, g, reading, n) && forall k: nat :: LeavesOne(groups, g, reading, k) ==> k == n
  }

  /** From a kanji run with at most two more behind it, something is returned exactly when one length of that
      run, and no other, leaves a rest with exactly one alignment. */
  lemma ThreeKanjiRuns(groups: seq<Group>, g: nat, reading: Text)
    requires AreNonempty(groups) && g < |groups| && !groups[g].isKana && KanjiRuns(groups, g) <= 3
    ensures Segmentize(groups, g, reading).Some? <==> exists n: nat :: OnlyLeavesOne(groups, g, reading, n)
  {
    forall n: nat ensures Splits(groups, g, reading, n) <==> LeavesOne(groups, g, reading, n) {
      if |groups[g].text| <= n <= |reading| {
        TwoKanjiRuns(groups, g + 1, Rest(reading, n));
      }
    }
    hide Splits, LeavesOne, Search;
    SegmentizeKanji(groups, g, reading);
    SearchFindsOnlySplit(groups, g, reading, |reading|);
    assert forall n: nat :: Splits(groups, g, reading, n) ==> n <= |reading| by { SplitsFit(groups, g, reading); }
    if n: nat :| IsOnlySplit(groups, g, reading, |reading|, n) {
      assert OnlyLeavesOne(groups, g, reading, n);
    }
    if n: nat :| OnlyLeavesOne(groups, g, reading, n) {
      assert IsOnlySplit(groups, g, reading, |reading|, n);
    }
  }

  lemma SplitsFit(groups: seq<Group>, g: nat, reading: Text)
    requires AreNonempty(groups) && g < |groups| && !groups[g].isKana
    ensures forall n: nat :: Splits(groups, g, reading, n) ==> n <= |reading|
  {
  }

  /** A group can take length `n`, and nothing else leaves a rest that the search segments. */
  ghost predicate IsOnlyChoice(groups: seq<Group>, g: nat, reading: Text, n: nat)
    requires AreNonempty(groups) && g < |groups|
  {
    && Takes(groups[g], reading, n)
    && forall k: nat :: Takes(groups[g], reading, k) && Segmentize(groups, g + 1, Rest(reading, k)).Some? ==> k == n
  }

  lemma OnlyMeansNoChoice(groups: seq<Group>, g: nat, reading: Text, n: nat, rest: seq<nat>)
    requires g < |groups| && Takes(groups[g], reading, n) && IsAlignment(groups, g + 1, Rest(reading, n), rest)
    requires HasOnlyAlignment(groups, g, reading)
    ensures HasOnlyAlignment(groups, g + 1, Rest(reading, n))
    ensures forall k: nat :: LeavesChoice(groups, g, reading, k) ==> k == n
  {
    hide Takes, Rest;
    var cuts :| IsOnlyAlignment(groups, g, reading, cuts);
    AlignmentTail(groups, g, reading, n, rest);
    var h := g + 1;
    forall others | IsAlignment(groups, h, Rest(reading, n), others) ensures others == rest {
      AlignmentTail(groups, g, reading, n, others);
      assert ([n] + others)[1..] == others && ([n] + rest)[1..] == rest;
    }
    assert IsOnlyAlignment(groups, h, Rest(reading, n), rest);
    forall k: nat | LeavesChoice(groups, g, reading, k) ensures k == n {
      var a, b :| a != b && IsAlignment(groups, h, Rest(reading, k), a) && IsAlignment(groups, h, Rest(reading, k), b);
      AlignmentTail(groups, g, reading, k, a);
      assert ([k] + a)[0] == k && ([n] + rest)[0] == n;
    }
  }

  lemma NoChoiceMeansOnly(groups: seq<Group>, g: nat, reading: Text, n: nat, rest: seq<nat>)
    requires AreNonempty(groups) && g < |groups| && IsOnlyChoice(groups, g, reading, n)
    requires IsOnlyAlignment(groups, g + 1, Rest(reading, n), rest)
    requires forall k: nat :: LeavesChoice(groups, g, reading, k) ==> k == n
    ensures IsOnlyAlignment(groups, g, reading, [n] + rest)
  {
    hide Takes, Rest, Segmentize;
    AlignmentTail(groups, g, reading, n, rest);
    forall others | IsAlignment(groups, g, reading, others) ensures others == [n] + rest {
      var k, h := others[0], g + 1;
      var tail := Rest(reading, k);
      assert IsAlignment(groups, h, tail, others[1..]);
      if k != n {
        NoneOneOrMore(groups, h, tail);
        assert !LeavesChoice(groups, g, reading, k);
        var only :| IsOnlyAlignment(groups, h, tail, only);
        OnlyAlignmentIsFound(groups, h, tail, only);
      }
      assert k == n;
      assert others == [k] + others[1..];
    }
  }

  /** The length that the search settles on. */
  lemma ChoiceOf(groups: seq<Group>, g: nat, reading: Text) returns (n: nat)
    requires AreNonempty(groups) && g < |groups| && Segmentize(groups, g, reading).Some?
    ensures IsOnlyChoice(groups, g, reading, n) && Segmentize(groups, g + 1, Rest(reading, n)).Some?
    ensures Segmentize(groups, g, reading).value
         == GroupSegments(groups[g], reading, n) + Segmentize(groups, g + 1, Rest(reading, n)).value
  {
    hide Rest, GroupSegments, Search;
    n := |groups[g].text|;
    if !groups[g].isKana {
      SearchFindsOnlySplit(groups, g, reading, |reading|);
      n :| IsOnlySplit(groups, g, reading, |reading|, n);
      forall k: nat | Takes(groups[g], reading, k) && Segmentize(groups, g + 1, Rest(reading, k)).Some? ensures k == n {
        assert Splits(groups, g, reading, k);
      }
    }
  }

  /** On the way along `cuts`, some kanji run could take another length and leave an ambiguous rest. */
  ghost predicate HidesChoice(groups: seq<Group>, g: nat, reading: Text, cuts: seq<nat>)
    requires g <= |groups| && IsAlignment(groups, g, reading, cuts)
    decreases |groups| - g
  {
    && g < |groups|
    && (|| (exists n: nat :: n != cuts[0] && LeavesChoice(groups, g, reading, n))
        || HidesChoice(groups, g + 1, Rest(reading, cuts[0]), cuts[1..]))
  }

  /** A returned segmentation displays an alignment, and this is the only one exactly when no kanji run on
      the way could take another length and leave an ambiguous rest: whatever the number of runs, that is
      all that the search overlooks. */
  lemma {:induction false} ReturnedIsOnlyExactly(groups: seq<Group>, g: nat, reading: Text) returns (cuts: seq<nat>)
    requires AreNonempty(groups) && g <= |groups| && Segmentize(groups, g, reading).Some?
    ensures IsAlignment(groups, g, reading, cuts)
    ensures Segmentize(groups, g, reading).value == SegmentsFor(groups, g, reading, cuts)
    ensures HasOnlyAlignment(groups, g, reading) <==> !HidesChoice(groups, g, reading, cuts)
    decreases |groups| - g
  {
    if g == |groups| {
      cuts := [];
      assert IsOnlyAlignment(groups, g, reading, []);
    } else {
      var n := ChoiceOf(groups, g, reading);
      hide Rest, GroupSegments, Segmentize, LeavesChoice, IsOnlyChoice;
      assert Takes(groups[g], reading, n) by { ChoiceFits(groups, g, reading, n); }
      var rest := ReturnedIsOnlyExactly(groups, g + 1, Rest(reading, n));
      cuts := [n] + rest;
      assert cuts[1..] == rest;
      if HasOnlyAlignment(groups, g, reading) {
        OnlyMeansNoChoice(groups, g, reading, n, rest);
      }
      if !HidesChoice(groups, g, reading, cuts) {
        var only :| IsOnlyAlignment(groups, g + 1, Rest(reading, n), only);
        NoChoiceMeansOnly(groups, g, reading, n, only);
      }
    }
  }

  lemma ChoiceFits(groups: seq<Group>, g: nat, reading: Text, n: nat)
    requires AreNonempty(groups) && g < |groups| && IsOnlyChoice(groups, g, reading, n)
    ensures Takes(groups[g], reading, n)
  {
  }

  /** So a kanji run whose length leaves one alignment has the only one exactly when no other length leaves any. */
  lemma OtherLengthsDecide(groups: seq<Group>, g: nat, reading: Text, n: nat)
    requires AreNonempty(groups) && g < |groups| && LeavesOne(groups, g, reading, n)
    ensures HasOnlyAlignment(groups, g, reading)
       <==> forall k: nat :: k != n && Takes(groups[g], reading, k) ==> !HasAlignment(groups, g + 1, Rest(reading, k))
  {
    hide Rest;
    var h := g + 1;
    var rest :| IsOnlyAlignment(groups, h, Rest(reading, n), rest);
    AlignmentTail(groups, g, reading, n, rest);
    if cuts :| IsOnlyAlignment(groups, g, reading, cuts) {
      forall k: nat | Takes(groups[g], reading, k) && HasAlignment(groups, h, Rest(reading, k)) ensures k == n {
        var a :| IsAlignment(groups, h, Rest(reading, k), a);
        AlignmentTail(groups, g, reading, k, a);
        assert ([k] + a)[0] == k && ([n] + rest)[0] == n;
      }
    } else {
      assert !IsOnlyAlignment(groups, g, reading, [n] + rest);
      var others :| IsAlignment(groups, g, reading, others) && others != [n] + rest;
      assert others == [others[0]] + others[1..] && IsAlignment(groups, h, Rest(reading, others[0]), others[1..]);
      assert others[0] != n;
    }
  }

  // ---------------------------------------------------------------- the methods

  lemma HiraganaOfSuffix(reading: Text, n: nat)
    requires n <= |reading|
    ensures ToHiragana(reading)[n..] == ToHiragana(reading[n..])
  {
  }

  /** `segmentizeFurigana`, with the early break on the last run: it changes nothing. */
  method SegmentizeFurigana(reading: Text, readingNormalized: Text, groups: seq<Group>, g: nat)
      returns (r: Option<seq<Segment>>)
    requires AreNonempty(groups) && g <= |groups| && readingNormalized == ToHiragana(reading)
    ensures r == Segmentize(groups, g, reading)
    decreases |groups| - g
  {
    var groupCount := |groups| - g;
    if groupCount <= 0 {
      return if reading == [] then Some([]) else None;
    }
    var group := groups[g];
    var textLength := |group.text|;
    if group.isKana {
      var textNormalized := ToHiragana(group.text);
      assert Takes(group, reading, textLength) <==> textNormalized <= readingNormalized;
      if textNormalized <= readingNormalized {
        HiraganaOfSuffix(reading, textLength);
        var segments := SegmentizeFurigana(reading[textLength..], readingNormalized[textLength..], groups, g + 1);
        if segments.Some? {
          if group.text <= reading {
            return Some([Segment(group.text, [])] + segments.value);
          } else {
            var kana := GetFuriganaKanaSegments(group.text, reading);
            return Some(kana + segments.value);
          }
        }
      }
      return None;
    }
    var result: Option<seq<Segment>> := None;
    var i := |reading|;
    while i >= textLength
      invariant 0 <= i <= |reading| && (groupCount == 1 ==> i == |reading| && result.None?)
      invariant Segmentize(groups, g, reading) == Search(groups, g, reading, i, result)
      decreases i
    {
      HiraganaOfSuffix(reading, i);
      var segments := SegmentizeFurigana(reading[i..], readingNormalized[i..], groups, g + 1);
      if segments.Some? {
        if result.Some? {
          return None;
        }
        var segmentReading := reading[..i];
        result := Some([Segment(group.text, segmentReading)] + segments.value);
      }
      if groupCount == 1 {
        LastRunTakesAll(groups, g, reading);
        SearchFindsOnlySplit(groups, g, reading, |reading|);
        if segments.Some? {
          assert IsOnlySplit(groups, g, reading, |reading|, |reading|);
          assert result == Some(SplitAt(groups, g, reading, |reading|));
        }
        break;
      }
      i := i - 1;
    }
    r := result;
  }

  /** The length of the run of kanji, or of other units, that `text` starts with. */
  function RunLength(text: Text): (n: nat)
    requires text != []
    ensures 1 <= n <= |text|
  {
    if |text| > 1 && IsKanji(text[1]) == IsKanji(text[0]) then 1 + RunLength(text[1..]) else 1
  }

  /** `expression.match(KANJI_SEGMENT_PATTERN)`: the maximal runs. */
  function Runs(text: Text): seq<Text> {
    if text == [] then [] else [text[..RunLength(text)]] + Runs(Rest(text, RunLength(text)))
  }

  function ToGroup(run: Text): Group
    requires run != []
  {
    Group(!IsKanji(run[0]), run)
  }

  function ToGroups(runs: seq<Text>): seq<Group>
    requires forall k :: 0 <= k < |runs| ==> runs[k] != []
  {
    seq(|runs|, k requires 0 <= k < |runs| => ToGroup(runs[k]))
  }

  lemma {:induction false} RunsAreNonempty(text: Text)
    ensures forall k :: 0 <= k < |Runs(text)| ==> Runs(text)[k] != []
  {
    if text != [] {
      RunsAreNonempty(Rest(text, RunLength(text)));
    }
  }

  /** The groups of an expression spell it. */
  lemma {:induction false} GroupsSpell(text: Text)
    ensures forall k :: 0 <= k < |Runs(text)| ==> Runs(text)[k] != []
    ensures AreNonempty(ToGroups(Runs(text))) && GroupsText(ToGroups(Runs(text)), 0) == text
    decreases |text|
  {
    hide Rest, Runs, ToGroup, ToGroups, RunLength, AreNonempty, GroupsText;
    RunsAreNonempty(text);
    NoRun();
    if text != [] {
      RunFits(text);
      NextRun(text);
      SplitReading(text, RunLength(text));
      var run, rest := text[..RunLength(text)], Rest(text, RunLength(text));
      hide RunLength;
      GroupsSpell(rest);
      GroupsCons(run, Runs(rest));
    }
  }

  lemma GroupsCons(run: Text, runs: seq<Text>)
    requires run != [] && (forall k :: 0 <= k < |runs| ==> runs[k] != []) && AreNonempty(ToGroups(runs))
    ensures forall k :: 0 <= k < |runs| + 1 ==> ([run] + runs)[k] != []
    ensures AreNonempty(ToGroups([run] + runs))
    ensures GroupsText(ToGroups([run] + runs), 0) == run + GroupsText(ToGroups(runs), 0)
  {
    var groups, rest := ToGroups([run] + runs), ToGroups(runs);
    assert groups == [ToGroup(run)] + rest;
    ShiftGroups(groups, rest, 0);
  }

  lemma NoRun()
    ensures Runs([]) == [] && AreNonempty(ToGroups([])) && GroupsText(ToGroups([]), 0) == []
  {
  }

  lemma RunFits(text: Text)
    requires text != []
    ensures 1 <= RunLength(text) <= |text|
  {
  }

  lemma {:induction false} ShiftGroups(groups: seq<Group>, rest: seq<Group>, g: nat)
    requires |groups| == |rest| + 1 && (forall k :: 0 <= k < |rest| ==> groups[k + 1] == rest[k]) && g <= |rest|
    ensures GroupsText(groups, g + 1) == GroupsText(rest, g)
    decreases |rest| - g
  {
    hide Cat;
    if g < |rest| {
      ShiftGroups(groups, rest, g + 1);
    }
  }

  /** The runs are cut exactly where kanji and other units meet. */
  ghost predicate IsRun(run: Text, kanji: bool) {
    run != [] && forall k :: 0 <= k < |run| ==> (IsKanji(run[k]) <==> kanji)
  }

  lemma {:induction false} RunLengthIs(text: Text)
    requires text != []
    ensures IsRun(text[..RunLength(text)], IsKanji(text[0]))
    ensures RunLength(text) < |text| ==> IsKanji(text[RunLength(text)]) != IsKanji(text[0])
  {
    if |text| > 1 && IsKanji(text[1]) == IsKanji(text[0]) {
      RunLengthIs(text[1..]);
      var n := RunLength(text);
      forall k | 0 <= k < n ensures IsKanji(text[k]) <==> IsKanji(text[0]) {
        if k > 0 { assert text[k] == text[1..][..n - 1][k - 1]; }
      }
    }
  }

  /** Kanji runs and other runs take turns. */
  ghost predicate Alternates(runs: seq<Text>, kanji: bool) {
    forall k :: 0 <= k < |runs| ==> IsRun(runs[k], if k % 2 == 0 then kanji else !kanji)
  }

  lemma AlternatesCons(run: Text, runs: seq<Text>, kanji: bool)
    requires IsRun(run, kanji) && Alternates(runs, !kanji)
    ensures Alternates([run] + runs, kanji)
  {
    hide IsRun;
    forall k | 0 <= k < |runs| + 1 ensures IsRun(([run] + runs)[k], if k % 2 == 0 then kanji else !kanji) {
      if k > 0 {
        var h := k - 1;
        assert ([run] + runs)[k] == runs[h];
      }
    }
  }

  lemma NextRun(text: Text)
    requires text != []
    ensures Runs(text) == [text[..RunLength(text)]] + Runs(Rest(text, RunLength(text)))
    ensures Rest(text, RunLength(text)) != [] ==> Rest(text, RunLength(text))[0] == text[RunLength(text)]
    ensures Runs([]) == []
  {
    hide RunLength;
  }

  lemma {:induction false} RunsAlternate(text: Text)
    requires text != []
    ensures |Runs(text)| > 0 && Alternates(Runs(text), IsKanji(text[0]))
    decreases |text|
  {
    hide IsRun, Alternates, Runs, Rest;
    RunLengthIs(text);
    NextRun(text);
    var rest := Rest(text, RunLength(text));
    SplitReading(text, RunLength(text));
    hide RunLength, IsKanji;
    if rest != [] {
      RunsAlternate(rest);
    } else {
      NoRuns(!IsKanji(text[0]));
    }
    AlternatesCons(text[..RunLength(text)], Runs(rest), IsKanji(text[0]));
  }

  lemma NoRuns(kanji: bool)
    ensures Alternates([], kanji)
  {
  }

  // ---------------------------------------------------------------- what is shown

  /** Kanji always have furigana, at least a unit for each; anything else only where the reading has another form
      of the same kana. */
  predicate IsShown(s: Segment) {
    && s.text != []
    && (forall u :: 0 <= u < |s.text| ==> IsKanji(s.text[u]) == IsKanji(s.text[0]))
    && if IsKanji(s.text[0]) then |s.reading| >= |s.text|
       else s.reading != [] ==>
         && |s.reading| == |s.text|
         && forall u :: 0 <= u < |s.text| ==>
              s.text[u] != s.reading[u] && UnitToHiragana(s.text[u]) == UnitToHiragana(s.reading[u])
  }

  /** Kanji, text that reads as it is written, and text with furigana. */
  function Kind(s: Segment): int
    requires s.text != []
  {
    if IsKanji(s.text[0]) then 0 else if s.reading == [] then 1 else 2
  }

  /** Every segment is shown as it should be, and neighbours are of different kinds. */
  ghost predicate IsDisplay(segments: seq<Segment>) {
    && (forall k :: 0 <= k < |segments| ==> IsShown(segments[k]))
    && forall k :: 0 <= k < |segments| - 1 ==> Kind(segments[k]) != Kind(segments[k + 1])
  }

  lemma DisplayAppend(a: seq<Segment>, b: seq<Segment>)
    requires IsDisplay(a) && IsDisplay(b)
    requires a != [] && b != [] ==> Kind(a[|a| - 1]) != Kind(b[0])
    ensures IsDisplay(a + b)
  {
    hide IsShown;
    var all := a + b;
    forall k | 0 <= k < |all| ensures IsShown(all[k]) {
      assert k >= |a| ==> all[k] == b[k - |a|];
    }
    ShownHasText(all);
    ShownHasText(b);
    forall k | 0 <= k < |all| - 1 ensures Kind(all[k]) != Kind(all[k + 1]) {
      if k >= |a| {
        var h := k - |a|;
        assert Kind(b[h]) != Kind(b[h + 1]);
      }
    }
  }

  lemma ShownHasText(segments: seq<Segment>)
    requires forall k :: 0 <= k < |segments| ==> IsShown(segments[k])
    ensures forall k :: 0 <= k < |segments| ==> segments[k].text != []
  {
  }

  predicate FitsKind(group: Group) {
    group.text != [] && forall u :: 0 <= u < |group.text| ==> (IsKanji(group.text[u]) <==> !group.isKana)
  }

  /** The segments of a kana run are cut where its form and the reading's differ. */
  lemma KanaGroupIsCut(group: Group, reading: Text)
    requires group.isKana && group.text != [] && Takes(group, reading, |group.text|)
    ensures IsCutWhereDifferent(group.text, reading, 0, GroupSegments(group, reading, |group.text|))
  {
    var text := group.text;
    if text <= reading {
      NothingToCut(text, reading);
      CutCons(text, reading, 0, Segment(text, []), []);
      assert [Segment(text, [])] + [] == [Segment(text, [])];
    } else {
      KanaSegmentsCut(text, reading, 0, 1, reading[0] == text[0]);
    }
  }

  lemma SameKana(group: Group, reading: Text, u: nat)
    requires group.isKana && Takes(group, reading, |group.text|) && u < |group.text|
    ensures UnitToHiragana(group.text[u]) == UnitToHiragana(reading[u])
  {
    assert ToHiragana(reading)[..|group.text|][u] == UnitToHiragana(reading[u]);
    assert ToHiragana(group.text)[u] == UnitToHiragana(group.text[u]);
  }

  lemma KanaIsShown(group: Group, reading: Text, at: nat, s: Segment)
    requires FitsKind(group) && group.isKana && Takes(group, reading, |group.text|)
    requires StandsAt(group.text, reading, at, s)
    ensures IsShown(s) && !IsKanji(s.text[0])
  {
    hide UnitToHiragana, IsKanji;
    forall u | 0 <= u < |s.text| ensures s.text[u] == group.text[at + u] && !IsKanji(s.text[u]) {
    }
    if s.reading != [] {
      forall u | 0 <= u < |s.text|
        ensures s.text[u] != s.reading[u] && UnitToHiragana(s.text[u]) == UnitToHiragana(s.reading[u])
      {
        SameKana(group, reading, at + u);
        assert s.reading[u] == reading[at + u];
      }
    }
  }

  lemma GroupDisplays(group: Group, reading: Text, n: nat)
    requires FitsKind(group) && Takes(group, reading, n)
    ensures var segments := GroupSegments(group, reading, n);
            && IsDisplay(segments) && segments != []
            && forall k :: 0 <= k < |segments| ==> (IsKanji(segments[k].text[0]) <==> !group.isKana)
  {
    var segments := GroupSegments(group, reading, n);
    if group.isKana {
      KanaGroupIsCut(group, reading);
      hide GroupSegments, IsShown, StandsAt, Takes, FitsKind, IsKanji;
      BeforeNothing(segments);
      assert segments != [];
      forall k | 0 <= k < |segments|
        ensures IsShown(segments[k]) && segments[k].text != [] && !IsKanji(segments[k].text[0])
      {
        KanaIsShown(group, reading, 0 + Before(segments, k), segments[k]);
        ShownHasText([segments[k]]);
      }
    }
  }

  ghost predicate AreRuns(groups: seq<Group>) {
    && (forall k :: 0 <= k < |groups| ==> FitsKind(groups[k]))
    && forall k :: 0 <= k < |groups| - 1 ==> groups[k].isKana != groups[k + 1].isKana
  }

  /** What an alignment displays. */
  lemma {:induction false} SegmentsDisplay(groups: seq<Group>, g: nat, reading: Text, cuts: seq<nat>)
    requires AreNonempty(groups) && AreRuns(groups) && g <= |groups| && IsAlignment(groups, g, reading, cuts)
    ensures var segments := SegmentsFor(groups, g, reading, cuts);
            && IsDisplay(segments)
            && (g < |groups| ==> segments != [] && segments[0].text != []
                                 && (IsKanji(segments[0].text[0]) <==> !groups[g].isKana))
    decreases |groups| - g
  {
    hide Rest, GroupSegments, IsShown, IsKanji, FitsKind;
    if g < |groups| {
      var n := cuts[0];
      var head := GroupSegments(groups[g], reading, n);
      var tail := SegmentsFor(groups, g + 1, Rest(reading, n), cuts[1..]);
      SegmentsDisplay(groups, g + 1, Rest(reading, n), cuts[1..]);
      GroupDisplays(groups[g], reading, n);
      ShownHasText(head);
      DisplayAppend(head, tail);
    }
  }

  lemma GroupsAreRuns(text: Text)
    requires text != [] && forall k :: 0 <= k < |Runs(text)| ==> Runs(text)[k] != []
    ensures AreRuns(ToGroups(Runs(text)))
  {
    RunsAlternate(text);
    hide IsKanji, Runs;
    var runs, groups := Runs(text), ToGroups(Runs(text));
    forall k | 0 <= k < |groups| ensures FitsKind(groups[k]) {
      assert IsRun(runs[k], if k % 2 == 0 then IsKanji(text[0]) else !IsKanji(text[0]));
    }
    forall k | 0 <= k < |groups| - 1 ensures groups[k].isKana != groups[k + 1].isKana {
      assert IsRun(runs[k], if k % 2 == 0 then IsKanji(text[0]) else !IsKanji(text[0]));
      assert IsRun(runs[k + 1], if (k + 1) % 2 == 0 then IsKanji(text[0]) else !IsKanji(text[0]));
    }
  }

  lemma NoGroups()
    ensures Runs([]) == [] && AreRuns(ToGroups([]))
  {
  }

  /** `segmentFurigana`: whatever the alignment, nothing of the expression or the reading is lost. */
  method SegmentFurigana(expression: Text, reading: Text) returns (r: seq<Segment>)
    ensures TextOf(r) == expression
    ensures reading != [] ==> ReadingOf(r) == reading
    ensures forall k :: 0 <= k < |Runs(expression)| ==> Runs(expression)[k] != []
    ensures reading == [] || reading == expression ==> r == [Segment(expression, [])]
    ensures reading != [] && reading != expression && AreNonempty(ToGroups(Runs(expression))) ==>
              var found := Segmentize(ToGroups(Runs(expression)), 0, reading);
              r == if found.Some? then found.value else [Segment(expression, reading)]
    ensures reading != [] && reading != expression && AreNonempty(ToGroups(Runs(expression))) ==>
              (Segmentize(ToGroups(Runs(expression)), 0, reading).Some? ==> IsDisplay(r))
    ensures forall cuts :: AreNonempty(ToGroups(Runs(expression)))
              && IsOnlyAlignment(ToGroups(Runs(expression)), 0, reading, cuts) && reading != [] && reading != expression
              ==> r == SegmentsFor(ToGroups(Runs(expression)), 0, reading, cuts)
  {
    hide TextOf, ReadingOf, Runs, ToGroup, Segmentize, SegmentsFor, AreNonempty, GroupsText, IsAlignment;
    hide IsDisplay, AreRuns;
    GroupsSpell(expression);
    SingleSegment(Segment(expression, []));
    SingleSegment(Segment(expression, reading));
    if reading == [] || reading == expression {
      return [Segment(expression, [])];
    }
    var groups: seq<Group> := [];
    var segmentMatches := Runs(expression);
    for k := 0 to |segmentMatches|
      invariant groups == ToGroups(segmentMatches)[..k]
    {
      groups := groups + [ToGroup(segmentMatches[k])];
    }
    assert groups == ToGroups(segmentMatches);
    var segments := SegmentizeFurigana(reading, ToHiragana(reading), groups, 0);
    forall cuts | IsOnlyAlignment(groups, 0, reading, cuts)
      ensures segments == Some(SegmentsFor(groups, 0, reading, cuts))
    {
      OnlyAlignmentIsFound(groups, 0, reading, cuts);
    }
    if segments.Some? {
      ghost var cuts := SegmentsAreAligned(groups, 0, reading);
      AlignmentSpells(groups, 0, reading, cuts);
      if expression != [] { GroupsAreRuns(expression); } else { NoGroups(); }
      SegmentsDisplay(groups, 0, reading, cuts);
      return segments.value;
    }
    return [Segment(expression, reading)];
  }
}
