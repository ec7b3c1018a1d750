/** `generateDiacriticVariants`: the spellings of a Serbo-Croatian text with diacritics restored.
    The text is taken to be in normalization form C already. */
module DiacriticVariants {

  import opened Wrappers

  const MAX_PROCESS_VARIANTS := 4096

  /** The ways to write the segment of `text` that starts at `i`; the first one is the segment itself. */
  function ChoicesAt(text: string, i: nat): seq<string>
    requires i < |text|
  {
    var ch := text[i];
    if SegmentLength(text, i) == 2 then [text[i..i + 2], if ch == 'D' then "\U{0110}" else "\U{0111}"]
    else match ch
      case 'c' => ["c", "\U{010D}", "\U{0107}"]
      case 'C' => ["C", "\U{010C}", "\U{0106}"]
      case 'z' => ["z", "\U{017E}"]
      case 'Z' => ["Z", "\U{017D}"]
      case 's' => ["s", "\U{0161}"]
      case 'S' => ["S", "\U{0160}"]
      case _ => [[ch]]
  }

  /** Two for the digraph "dj" in any case, one otherwise. */
  function SegmentLength(text: string, i: nat): nat
    requires i < |text|
  {
    if (text[i] == 'd' || text[i] == 'D') && i + 1 < |text| && (text[i + 1] == 'j' || text[i + 1] == 'J') then 2 else 1
  }

  /** The choices of all segments from `i` on. */
  function Segments(text: string, i: nat): seq<seq<string>>
    requires i <= |text|
    decreases |text| - i
  {
    if i == |text| then [] else [ChoicesAt(text, i)] + Segments(text, i + SegmentLength(text, i))
  }

  /** `variants.flatMap((v) => choices.map((c) => v + c))` */
  function FlatMap(variants: seq<string>, choices: seq<string>): seq<string> {
    if variants == [] then []
    else
      var v := variants[|variants| - 1];
      FlatMap(variants[..|variants| - 1], choices) + seq(|choices|, b requires 0 <= b < |choices| => v + choices[b])
  }

  /** Every way to choose one spelling per segment. */
  function Combine(segments: seq<seq<string>>): seq<string> {
    if segments == [] then [""] else FlatMap(Combine(segments[..|segments| - 1]), segments[|segments| - 1])
  }

  function Cap(variants: seq<string>): seq<string> {
    if |variants| > MAX_PROCESS_VARIANTS then variants[..MAX_PROCESS_VARIANTS] else variants
  }

  function Product(segments: seq<seq<string>>): nat {
    if segments == [] then 1 else Product(segments[..|segments| - 1]) * |segments[|segments| - 1]|
  }

  function FirstChoices(segments: seq<seq<string>>): string
    requires forall k :: 0 <= k < |segments| ==> segments[k] != []
  {
    if segments == [] then "" else FirstChoices(segments[..|segments| - 1]) + segments[|segments| - 1][0]
  }

  /** The two texts differ at an index that both have. */
  ghost predicate Differ(x: string, y: string) {
    exists i :: 0 <= i < |x| && i < |y| && x[i] != y[i]
  }

  ghost predicate AllDiffer(xs: seq<string>) {
    forall i, j :: 0 <= i < j < |xs| ==> Differ(xs[i], xs[j])
  }

  ghost predicate IsChoice(choices: seq<string>) { choices != [] && AllDiffer(choices) }

  // ---------------------------------------------------------------- flatMap

  lemma {:induction false} FlatMapLength(variants: seq<string>, choices: seq<string>)
    ensures |FlatMap(variants, choices)| == |variants| * |choices|
  {
    if variants != [] {
      FlatMapLength(variants[..|variants| - 1], choices);
      MulSucc(|variants| - 1, |choices|);
    }
  }

  lemma {:induction false} FlatMapAt(variants: seq<string>, choices: seq<string>, a: nat, b: nat)
    requires a < |variants| && b < |choices|
    ensures a * |choices| + b < |FlatMap(variants, choices)|
    ensures FlatMap(variants, choices)[a * |choices| + b] == variants[a] + choices[b]
  {
    var n := |variants| - 1;
    var init := variants[..n];
    FlatMapLength(init, choices);
    FlatMapLength(variants, choices);
    MulSucc(n, |choices|);
    if a < n {
      FlatMapAt(init, choices, a, b);
    }
  }

  lemma {:induction false} FlatMapPrefix(variants: seq<string>, choices: seq<string>, m: nat)
    requires m <= |variants|
    ensures m * |choices| <= |FlatMap(variants, choices)|
    ensures FlatMap(variants[..m], choices) == FlatMap(variants, choices)[..m * |choices|]
  {
    FlatMapLength(variants, choices);
    if m == |variants| {
      assert variants[..m] == variants;
    } else {
      var n := |variants| - 1;
      FlatMapPrefix(variants[..n], choices, m);
      assert variants[..n][..m] == variants[..m];
    }
  }

  lemma Grows(m: nat, c: nat)
    requires c > 0
    ensures m <= m * c
  {
  }

  /** Cutting before a step or only after it makes no difference. */
  lemma CapBeforeFlatMap(variants: seq<string>, choices: seq<string>)
    requires choices != []
    ensures Cap(FlatMap(Cap(variants), choices)) == Cap(FlatMap(variants, choices))
  {
    var m := MAX_PROCESS_VARIANTS;
    if |variants| > m {
      FlatMapPrefix(variants, choices, m);
      Grows(m, |choices|);
      FlatMapLength(variants[..m], choices);
      var cut, whole := FlatMap(variants[..m], choices), FlatMap(variants, choices);
      assert cut[..m] == whole[..m];
      if |cut| == m {
        assert cut[..m] == cut;
      }
      FlatMapLength(variants, choices);
      Grows(|variants|, |choices|);
    }
  }

  // ---------------------------------------------------------------- the combinations

  lemma {:induction false} CombineCount(segments: seq<seq<string>>)
    ensures |Combine(segments)| == Product(segments)
  {
    if segments != [] {
      var init := segments[..|segments| - 1];
      CombineCount(init);
      FlatMapLength(Combine(init), segments[|segments| - 1]);
    }
  }

  lemma DivideIndex(q: nat, rows: nat, c: nat) returns (a: nat, b: nat)
    requires q < rows * c
    ensures a < rows && b < c && q == a * c + b
  {
    a, b := q / c, q % c;
    if a >= rows {
      MulMonotone(rows, a, c);
    }
  }

  lemma DifferAppend(x: string, y: string, x': string, y': string)
    requires Differ(x, y)
    ensures Differ(x + x', y + y')
  {
    var i :| 0 <= i < |x| && i < |y| && x[i] != y[i];
    assert (x + x')[i] != (y + y')[i];
  }

  lemma DifferPrepend(v: string, x: string, y: string)
    requires Differ(x, y)
    ensures Differ(v + x, v + y)
  {
    var i :| 0 <= i < |x| && i < |y| && x[i] != y[i];
    assert (v + x)[|v| + i] != (v + y)[|v| + i];
  }

  lemma FlatMapDiffers(variants: seq<string>, choices: seq<string>)
    requires AllDiffer(variants) && AllDiffer(choices)
    ensures AllDiffer(FlatMap(variants, choices))
  {
    var all := FlatMap(variants, choices);
    var c := |choices|;
    FlatMapLength(variants, choices);
    forall p, q | 0 <= p < q < |all| ensures Differ(all[p], all[q]) {
      var a1, b1 := DivideIndex(p, |variants|, c);
      var a2, b2 := DivideIndex(q, |variants|, c);
      FlatMapAt(variants, choices, a1, b1);
      FlatMapAt(variants, choices, a2, b2);
      if a1 == a2 {
        DifferPrepend(variants[a1], choices[b1], choices[b2]);
      } else {
        if a1 > a2 { MulMonotone(a2 + 1, a1, c); MulSucc(a2, c); }
        DifferAppend(variants[a1], variants[a2], choices[b1], choices[b2]);
      }
    }
  }

  lemma {:induction false} CombineDiffers(segments: seq<seq<string>>)
    requires forall k :: 0 <= k < |segments| ==> IsChoice(segments[k])
    ensures AllDiffer(Combine(segments))
  {
    if segments != [] {
      CombineDiffers(segments[..|segments| - 1]);
      FlatMapDiffers(Combine(segments[..|segments| - 1]), segments[|segments| - 1]);
    }
  }

  lemma {:induction false} CombineFirst(segments: seq<seq<string>>)
    requires forall k :: 0 <= k < |segments| ==> segments[k] != []
    ensures Combine(segments) != [] && Combine(segments)[0] == FirstChoices(segments)
  {
    if segments != [] {
      var init := segments[..|segments| - 1];
      CombineFirst(init);
      FlatMapAt(Combine(init), segments[|segments| - 1], 0, 0);
    }
  }

  lemma ChoicesAreChoices(text: string, i: nat)
    requires i < |text|
    ensures IsChoice(ChoicesAt(text, i))
    ensures i + SegmentLength(text, i) <= |text|
    ensures ChoicesAt(text, i)[0] == text[i..i + SegmentLength(text, i)]
  {
    var cs := ChoicesAt(text, i);
    forall a, b | 0 <= a < b < |cs| ensures Differ(cs[a], cs[b]) {
      assert cs[a][0] != cs[b][0];
    }
  }

  lemma {:induction false} SegmentsAreChoices(text: string, i: nat)
    requires i <= |text|
    ensures forall k :: 0 <= k < |Segments(text, i)| ==> IsChoice(Segments(text, i)[k])
    decreases |text| - i
  {
    if i < |text| {
      ChoicesAreChoices(text, i);
      SegmentsAreChoices(text, i + SegmentLength(text, i));
    }
  }

  lemma {:induction false} FirstChoicesCons(choices: seq<string>, segments: seq<seq<string>>)
    requires choices != [] && forall k :: 0 <= k < |segments| ==> segments[k] != []
    ensures FirstChoices([choices] + segments) == choices[0] + FirstChoices(segments)
  {
    var all := [choices] + segments;
    if segments == [] {
      assert all[..0] == [];
    } else {
      FirstChoicesCons(choices, segments[..|segments| - 1]);
      assert all[..|all| - 1] == [choices] + segments[..|segments| - 1];
    }
  }

  lemma {:induction false} FirstChoicesAreText(text: string, i: nat)
    requires i <= |text|
    ensures forall k :: 0 <= k < |Segments(text, i)| ==> Segments(text, i)[k] != []
    ensures FirstChoices(Segments(text, i)) == text[i..]
    decreases |text| - i
  {
    SegmentsAreChoices(text, i);
    if i < |text| {
      ChoicesAreChoices(text, i);
      var next := i + SegmentLength(text, i);
      FirstChoicesAreText(text, next);
      FirstChoicesCons(ChoicesAt(text, i), Segments(text, next));
      assert text[i..] == text[i..next] + text[next..];
    }
  }

  // ---------------------------------------------------------------- what the choices are

  /** A letter without its mark; the crossed D stands for two letters. */
  function Unmark(c: char): string {
    match c
    case '\U{010D}' => "c" case '\U{0107}' => "c" case '\U{010C}' => "C" case '\U{0106}' => "C"
    case '\U{017E}' => "z" case '\U{017D}' => "Z" case '\U{0161}' => "s" case '\U{0160}' => "S"
    case '\U{0111}' => "dj" case '\U{0110}' => "Dj"
    case _ => [c]
  }

  /** The same letter at position `k`, whatever the case of a J behind a D. */
  predicate SameAt(a: string, b: string, k: nat)
    requires k < |a| == |b|
  {
    a[k] == b[k] || (a[k] == 'j' && b[k] == 'J' && k > 0 && (b[k - 1] == 'd' || b[k - 1] == 'D'))
  }

  predicate SameLetters(a: string, b: string) {
    |a| == |b| && forall k :: 0 <= k < |a| ==> SameAt(a, b, k)
  }

  /** A segment can be written as it is, or as one letter that is the segment but for its mark; in no other way. */
  lemma ChoicesAreMarks(text: string, i: nat, w: string)
    requires i < |text|
    ensures i + SegmentLength(text, i) <= |text|
    ensures w in ChoicesAt(text, i)
       <==> var segment := text[i..i + SegmentLength(text, i)];
            w == segment || (|w| == 1 && SameLetters(Unmark(w[0]), segment))
  {
    var segment := text[i..i + SegmentLength(text, i)];
    assert |segment| == SegmentLength(text, i) && segment[0] == text[i];
    if |segment| == 2 {
      assert segment[1] == text[i + 1];
      if |w| == 1 { assert w == [w[0]]; MarkedPair(w[0], segment); }
    } else {
      assert segment == [text[i]];
      if |w| == 1 { assert w == [w[0]]; MarkedLetter(w[0], text[i]); }
    }
  }

  lemma MarkedLetter(u: char, c: char)
    ensures SameLetters(Unmark(u), [c])
       <==> match c
            case 'c' => u == 'c' || u == '\U{010D}' || u == '\U{0107}'
            case 'C' => u == 'C' || u == '\U{010C}' || u == '\U{0106}'
            case 'z' => u == 'z' || u == '\U{017E}'
            case 'Z' => u == 'Z' || u == '\U{017D}'
            case 's' => u == 's' || u == '\U{0161}'
            case 'S' => u == 'S' || u == '\U{0160}'
            case _ => u == c && Unmark(u) == [u]
  {
    var letters := Unmark(u);
    if |letters| == 1 { assert SameAt(letters, [c], 0) <==> letters[0] == c; }
  }

  function UnmarkAll(text: string): string {
    if text == "" then "" else UnmarkAll(text[..|text| - 1]) + Unmark(text[|text| - 1])
  }

  lemma {:induction false} UnmarkAppend(a: string, b: string)
    ensures UnmarkAll(a + b) == UnmarkAll(a) + UnmarkAll(b)
  {
    hide Unmark;
    if b == "" {
      assert a + b == a;
    } else {
      UnmarkAppend(a, b[..|b| - 1]);
      assert (a + b)[..|a + b| - 1] == a + b[..|b| - 1];
    }
  }

  lemma SameAppend(a: string, b: string, c: string, d: string)
    requires SameLetters(a, b) && SameLetters(c, d)
    ensures SameLetters(a + c, b + d)
  {
    forall k | 0 <= k < |a + c| ensures SameAt(a + c, b + d, k) {
      if k >= |a| { assert SameAt(c, d, k - |a|); } else { assert SameAt(a, b, k); }
    }
  }

  /** Choosing once more: every spelling so far with every choice. */
  lemma CombineMembers(segments: seq<seq<string>>, v: string)
    requires segments != []
    ensures v in Combine(segments)
       <==> exists a, c :: a in Combine(segments[..|segments| - 1]) && c in segments[|segments| - 1] && v == a + c
  {
    FlatMapMembers(Combine(segments[..|segments| - 1]), segments[|segments| - 1], v);
    hide FlatMap;
  }

  lemma FlatMapMembers(before: seq<string>, choices: seq<string>, v: string)
    ensures v in FlatMap(before, choices) <==> exists a, c :: a in before && c in choices && v == a + c
  {
    hide FlatMap;
    var all := FlatMap(before, choices);
    FlatMapLength(before, choices);
    if v in all {
      var q :| 0 <= q < |all| && all[q] == v;
      var k, l := DivideIndex(q, |before|, |choices|);
      FlatMapAt(before, choices, k, l);
      assert before[k] in before && choices[l] in choices;
    }
    if a, c :| a in before && c in choices && v == a + c {
      var k :| 0 <= k < |before| && before[k] == a;
      var l :| 0 <= l < |choices| && choices[l] == c;
      FlatMapAt(before, choices, k, l);
    }
  }

  /** Choices that all unmark alike. */
  ghost predicate AllAlike(choices: seq<string>) {
    choices != [] && forall c :: c in choices ==> SameLetters(UnmarkAll(c), UnmarkAll(choices[0]))
  }

  lemma {:induction false} CombineAlike(segments: seq<seq<string>>, v: string)
    requires forall k :: 0 <= k < |segments| ==> segments[k] != [] && AllAlike(segments[k])
    requires v in Combine(segments)
    ensures SameLetters(UnmarkAll(v), UnmarkAll(FirstChoices(segments)))
  {
    hide SameLetters, UnmarkAll, Combine;
    if segments == [] {
      NothingChosen(v);
    } else {
      var init, last := segments[..|segments| - 1], segments[|segments| - 1];
      CombineMembers(segments, v);
      var a, c :| a in Combine(init) && c in last && v == a + c;
      CombineAlike(init, a);
      UnmarkAppend(a, c);
      UnmarkAppend(FirstChoices(init), last[0]);
      SameAppend(UnmarkAll(a), UnmarkAll(FirstChoices(init)), UnmarkAll(c), UnmarkAll(last[0]));
    }
  }

  lemma NothingChosen(v: string)
    requires v in Combine([])
    ensures SameLetters(UnmarkAll(v), UnmarkAll(FirstChoices([])))
  {
  }

  lemma ChoicesAreAlike(text: string, i: nat)
    requires i < |text|
    ensures AllAlike(ChoicesAt(text, i))
  {
    ChoicesAreChoices(text, i);
    var choices := ChoicesAt(text, i);
    var segment := choices[0];
    hide ChoicesAt;
    SameAsItself(UnmarkAll(segment));
    forall c | c in choices ensures SameLetters(UnmarkAll(c), UnmarkAll(segment)) {
      ChoicesAreMarks(text, i, c);
      if c != segment {
        UnmarkOne(c);
        PlainSegment(text, i, c);
      }
    }
  }

  lemma SameAsItself(a: string)
    ensures SameLetters(a, a)
  {
  }

  lemma UnmarkOne(c: string)
    requires |c| == 1
    ensures UnmarkAll(c) == Unmark(c[0])
  {
    hide Unmark;
    assert c[..0] == "";
  }

  /** A segment with more than one choice has no mark itself. */
  lemma PlainSegment(text: string, i: nat, c: string)
    requires i < |text| && i + SegmentLength(text, i) <= |text| && |c| == 1
    requires var segment := text[i..i + SegmentLength(text, i)];
             c != segment && SameLetters(Unmark(c[0]), segment)
    ensures var segment := text[i..i + SegmentLength(text, i)]; UnmarkAll(segment) == segment
  {
    var segment := text[i..i + SegmentLength(text, i)];
    assert |segment| == SegmentLength(text, i) && segment[0] == text[i];
    assert |segment| == 2 ==> segment[1] == text[i + 1];
    hide SameLetters, Unmark, UnmarkAll;
    if |segment| == 2 {
      PlainPair(segment);
    } else {
      assert segment == [segment[0]] && c == [c[0]];
      PlainLetter(c[0], segment[0]);
    }
  }

  lemma PlainPair(segment: string)
    requires |segment| == 2 && (segment[0] == 'd' || segment[0] == 'D') && (segment[1] == 'j' || segment[1] == 'J')
    ensures UnmarkAll(segment) == segment
  {
    PlainUnit(segment[0]);
    PlainUnit(segment[1]);
    hide Unmark;
    UnmarkOne([segment[0]]);
    UnmarkOne([segment[1]]);
    UnmarkAppend([segment[0]], [segment[1]]);
    hide UnmarkAll;
    assert segment == [segment[0]] + [segment[1]];
  }

  lemma PlainUnit(c: char)
    requires c == 'd' || c == 'D' || c == 'j' || c == 'J'
    ensures Unmark(c) == [c]
  {
  }

  lemma PlainLetter(u: char, c: char)
    requires u != c && SameLetters(Unmark(u), [c])
    ensures UnmarkAll([c]) == [c]
  {
    UnmarkOne([c]);
    MarkedLetter(u, c);
    hide SameLetters, UnmarkAll;
  }

  lemma {:induction false} SegmentsAreAlike(text: string, i: nat)
    requires i <= |text|
    ensures forall k :: 0 <= k < |Segments(text, i)| ==> AllAlike(Segments(text, i)[k])
    decreases |text| - i
  {
    if i < |text| {
      ChoicesAreAlike(text, i);
      ChoicesAreChoices(text, i);
      hide AllAlike, ChoicesAt;
      SegmentsAreAlike(text, i + SegmentLength(text, i));
    }
  }

  /** Every spelling is the text but for marks. */
  lemma SpellingsDifferInMarks(text: string, v: string)
    requires v in Combine(Segments(text, 0))
    ensures SameLetters(UnmarkAll(v), UnmarkAll(text))
  {
    hide SameLetters, UnmarkAll, Combine, ChoicesAt, AllAlike;
    SegmentsAreAlike(text, 0);
    FirstChoicesAreText(text, 0);
    CombineAlike(Segments(text, 0), v);
    assert text[0..] == text;
  }

  lemma {:induction false} CombineCons(choices: seq<string>, segments: seq<seq<string>>, a: string, b: string)
    requires a in choices && b in Combine(segments)
    ensures a + b in Combine([choices] + segments)
  {
    hide Combine;
    var all := [choices] + segments;
    if segments == [] {
      NothingToChoose();
      assert all[..0] == [] && "" + a == a && a + "" == a;
      CombineMembers(all, a);
    } else {
      var n := |segments| - 1;
      assert all[..n + 1] == [choices] + segments[..n] && all[n + 1] == segments[n];
      CombineMembers(segments, b);
      var b', c :| b' in Combine(segments[..n]) && c in segments[n] && b == b' + c;
      CombineCons(choices, segments[..n], a, b');
      Associate(a, b', c);
      CombineMembers(all, a + b);
    }
  }

  lemma NothingToChoose()
    ensures Combine([]) == [""]
  {
  }

  lemma UnmarkCons(v: string)
    requires v != ""
    ensures UnmarkAll(v) == Unmark(v[0]) + UnmarkAll(v[1..])
  {
    hide Unmark, UnmarkAll;
    UnmarkOne([v[0]]);
    UnmarkAppend([v[0]], v[1..]);
    assert v == [v[0]] + v[1..];
  }

  /** What a letter can stand for: itself, a letter without its mark, or a D with a J. */
  lemma UnmarkedStart(u: char)
    ensures 1 <= |Unmark(u)| <= 2
    ensures |Unmark(u)| == 2 ==> Unmark(u) == "dj" || Unmark(u) == "Dj"
    ensures |Unmark(u)| == 1 && (Unmark(u)[0] == 'd' || Unmark(u)[0] == 'D') ==> Unmark(u) == [u]
    ensures Unmark(u)[0] == 'j' || Unmark(u)[0] == 'J' ==> Unmark(u) == [u]
  {
  }

  /** How many letters of `v` make up the segment of the text that it starts with. */
  lemma SegmentOf(text: string, i: nat, v: string) returns (n: nat)
    requires i < |text| && UnmarkAll(v) == text[i..]
    ensures 1 <= n <= |v| && i + SegmentLength(text, i) <= |text|
    ensures v[..n] in ChoicesAt(text, i) && UnmarkAll(v[n..]) == text[i + SegmentLength(text, i)..]
  {
    hide Unmark, UnmarkAll, ChoicesAt;
    ChoicesAreChoices(text, i);
    if v == "" { NothingUnmarked(); }
    UnmarkCons(v);
    UnmarkedStart(v[0]);
    var first := Unmark(v[0]);
    assert text[i..][..|first|] == first && text[i..][|first|..] == text[i + |first|..];
    var segment := text[i..i + SegmentLength(text, i)];
    assert text[i] == text[i..][0] == first[0];
    assert |first| == 2 ==> text[i + 1] == text[i..][1] == first[1];
    if |first| == SegmentLength(text, i) {
      n := 1;
      assert v[..1] == [v[0]];
      assert first == segment;
      SameAsItself(first);
      ChoicesAreMarks(text, i, v[..1]);
    } else {
      n := 2;
      assert UnmarkAll(v[1..]) == text[i + 1..];
      if v[1..] == "" { NothingUnmarked(); }
      UnmarkCons(v[1..]);
      UnmarkedStart(v[1]);
      assert text[i + 1] == text[i + 1..][0] == Unmark(v[1])[0];
      assert v[1..][1..] == v[2..] && text[i + 1..][1..] == text[i + 2..];
      assert v[..2] == segment;
      ChoicesAreMarks(text, i, v[..2]);
    }
  }

  lemma NothingUnmarked()
    ensures UnmarkAll("") == ""
  {
  }

  lemma SomethingUnmarked(v: string)
    requires v != ""
    ensures UnmarkAll(v) != ""
  {
    UnmarkedStart(v[|v| - 1]);
    hide Unmark;
  }

  lemma {:induction false} SpellingIsFound(text: string, i: nat, v: string)
    requires i <= |text| && UnmarkAll(v) == text[i..]
    ensures v in Combine(Segments(text, i))
    decreases |text| - i
  {
    hide ChoicesAt, UnmarkAll, Combine, SegmentLength;
    if i == |text| {
      if v != "" { SomethingUnmarked(v); }
      NothingToChoose();
    } else {
      var n := SegmentOf(text, i, v);
      ChoicesAreChoices(text, i);
      SegmentIsNotEmpty(text, i);
      var next := i + SegmentLength(text, i);
      SpellingIsFound(text, next, v[n..]);
      CombineCons(ChoicesAt(text, i), Segments(text, next), v[..n], v[n..]);
      assert v == v[..n] + v[n..];
    }
  }

  /** All spellings of a text without marks are found, and nothing else: whatever unmarks to the text. A capital J
      is left aside because the crossed D does not tell its case. */
  lemma AllSpellings(text: string, v: string)
    requires UnmarkAll(text) == text && 'J' !in text
    ensures v in Combine(Segments(text, 0)) <==> UnmarkAll(v) == text
  {
    hide UnmarkAll, Combine, Segments;
    if UnmarkAll(v) == text {
      assert text[0..] == text;
      SpellingIsFound(text, 0, v);
    }
    if v in Combine(Segments(text, 0)) {
      SpellingsDifferInMarks(text, v);
      assert forall k :: 0 <= k < |text| ==> SameAt(UnmarkAll(v), text, k) && text[k] != 'J';
    }
  }

  lemma MarkedPair(u: char, segment: string)
    requires |segment| == 2 && (segment[0] == 'd' || segment[0] == 'D') && (segment[1] == 'j' || segment[1] == 'J')
    ensures SameLetters(Unmark(u), segment) <==> u == if segment[0] == 'D' then '\U{0110}' else '\U{0111}'
  {
    var letters := Unmark(u);
    if |letters| == 2 {
      assert SameAt(letters, segment, 0) <==> letters[0] == segment[0];
      assert letters[1] == 'j' ==> SameAt(letters, segment, 1);
    }
  }

  /** All spellings: as many as the choices multiply to, pairwise different, the text itself first. */
  lemma SpellingsOf(text: string)
    ensures var all := Combine(Segments(text, 0));
            && |all| == Product(Segments(text, 0))
            && AllDiffer(all)
            && |all| > 0 && all[0] == text
  {
    SegmentsAreChoices(text, 0);
    CombineCount(Segments(text, 0));
    CombineDiffers(Segments(text, 0));
    FirstChoicesAreText(text, 0);
    CombineFirst(Segments(text, 0));
    assert text[0..] == text;
  }

  /** The result is the start of the list of all spellings, cut at the cap. */
  method GenerateDiacriticVariants(text: string) returns (variants: seq<string>)
    ensures variants == Cap(Combine(Segments(text, 0)))
    ensures 0 < |variants| <= 4096 && variants[0] == text && AllDiffer(variants)
    ensures Product(Segments(text, 0)) <= 4096 <==> |variants| == Product(Segments(text, 0))
  {
    hide ChoicesAt, SegmentLength, FlatMap, Combine, Segments, AllDiffer, Product;
    variants := [""];
    ghost var read: seq<seq<string>> := [];
    NoSegments(text);
    var i := 0;
    while i < |text|
      invariant 0 <= i <= |text|
      invariant read + Segments(text, i) == Segments(text, 0)
      invariant variants == Cap(Combine(read))
      decreases |text| - i
    {
      ChoicesAreChoices(text, i);
      NextSegment(text, read, i);
      var choices := ChoicesAt(text, i);
      CapBeforeFlatMap(Combine(read), choices);
      variants := FlatMap(variants, choices);
      read := read + [choices];
      if |variants| > MAX_PROCESS_VARIANTS {
        variants := variants[..MAX_PROCESS_VARIANTS];
      }
      i := i + SegmentLength(text, i);
    }
    NoneLeft(text);
    assert read + [] == read;
    SpellingsOf(text);
    CapKeeps(Combine(Segments(text, 0)));
  }

  lemma NoSegments(text: string)
    ensures [] + Segments(text, 0) == Segments(text, 0)
    ensures Combine([]) == [""] && Cap([""]) == [""]
  {
  }

  lemma NoneLeft(text: string)
    ensures Segments(text, |text|) == []
  {
  }

  lemma NextSegment(text: string, read: seq<seq<string>>, i: nat)
    requires i < |text| && i + SegmentLength(text, i) <= |text|
    ensures read + Segments(text, i) == read + [ChoicesAt(text, i)] + Segments(text, i + SegmentLength(text, i))
    ensures Combine(read + [ChoicesAt(text, i)]) == FlatMap(Combine(read), ChoicesAt(text, i))
    ensures SegmentLength(text, i) > 0
  {
    hide ChoicesAt, SegmentLength, FlatMap;
    SegmentIsNotEmpty(text, i);
    Associate(read, [ChoicesAt(text, i)], Segments(text, i + SegmentLength(text, i)));
    hide Segments;
    assert (read + [ChoicesAt(text, i)])[..|read|] == read;
  }

  lemma SegmentIsNotEmpty(text: string, i: nat)
    requires i < |text|
    ensures SegmentLength(text, i) > 0
  {
  }

  lemma CapKeeps(all: seq<string>)
    requires AllDiffer(all)
    ensures AllDiffer(Cap(all))
  {
  }
}
