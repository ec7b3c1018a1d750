/** `selectText`: scanning the text behind a tapped character across text nodes. */
module SelectText {
  import opened Utf16
  import opened Wrappers

  // ---------------------------------------------------------------- where a scan stops

  const SCAN_DELIMITERS: set<int> := {
    0x3002, 0x3001, 0xFF01, 0xFF1F, 0x2026, 0x2025, 0x300C, 0x300D, 0x300E, 0x300F, 0xFF08, 0xFF09, 0x0028, 0x0029,
    0x3010, 0x3011, 0x3008, 0x3009, 0x300A, 0x300B, 0x3014, 0x3015, 0xFF5B, 0xFF5D, 0x007B, 0x007D, 0xFF3B, 0xFF3D,
    0x005B, 0x005D, 0x30FB, 0xFF1A, 0xFF1B, 0x003A, 0x003B, 0xFF0C, 0x002C, 0x002E, 0x2500, 0x000A, 0x000D
  }

  /** `JAPANESE_RANGES`, over code points. */
  predicate IsCodePointJapanese(p: int) {
    || 0x3040 <= p <= 0x309F || 0x30A0 <= p <= 0x30FF
    || 0x4E00 <= p <= 0x9FFF || 0x3400 <= p <= 0x4DBF
    || 0x20000 <= p <= 0x2A6DF || 0x2A700 <= p <= 0x2B73F || 0x2B740 <= p <= 0x2B81F || 0x2B820 <= p <= 0x2CEAF
    || 0x2CEB0 <= p <= 0x2EBEF || 0x30000 <= p <= 0x3134F || 0x31350 <= p <= 0x323AF || 0x2EBF0 <= p <= 0x2EE5F
    || 0xF900 <= p <= 0xFAFF || 0x2F800 <= p <= 0x2FA1F
    || 0xFF66 <= p <= 0xFF9F || 0x30FB <= p <= 0x30FC || 0xFF61 <= p <= 0xFF65 || 0x3000 <= p <= 0x303F
    || 0xFF10 <= p <= 0xFF19 || 0xFF21 <= p <= 0xFF3A || 0xFF41 <= p <= 0xFF5A
    || 0xFF01 <= p <= 0xFF0F || 0xFF1A <= p <= 0xFF1F || 0xFF3B <= p <= 0xFF3F || 0xFF5B <= p <= 0xFF60
        || 0xFFE0 <= p <= 0xFFEE
  }

  /** `isScanBoundary`; the scan hands it one code unit at a time. */
  predicate IsScanBoundary(c: CodeUnit, japaneseOnly: bool) {
    IsSpaceUnit(c) || c in SCAN_DELIMITERS || (japaneseOnly && !IsCodePointJapanese(c))
  }

  lemma SurrogatesAreBoundaries(c: CodeUnit)
    requires 0xD800 <= c <= 0xDFFF
    ensures IsScanBoundary(c, true) && !IsScanBoundary(c, false)
  {
  }

  /** What ends a sentence, and what may still belong to it. */
  const SENTENCE_DELIMITERS: set<int> := {0x3002, 0xFF01, 0xFF1F, 0x002E, 0x0021, 0x003F, 0x000A, 0x000D}

  const TRAILING_SENTENCE_CHARS: set<int> := {
    0x3002, 0x3001, 0xFF01, 0xFF1F, 0x2026, 0x2025, 0x300D, 0x300F, 0xFF09, 0x0029, 0x3011, 0x3009, 0x300B, 0x3015,
    0xFF5D, 0x007D, 0xFF3D, 0x005D
  }

  /** Every opening bracket with the one that closes it. */
  const BRACKETS: set<(int, int)> := {
    (0x300C, 0x300D), (0x300E, 0x300F), (0xFF08, 0xFF09), (0x0028, 0x0029), (0x3010, 0x3011), (0x3008, 0x3009),
    (0x300A, 0x300B), (0x3014, 0x3015), (0xFF5B, 0xFF5D), (0x007B, 0x007D), (0xFF3B, 0xFF3D), (0x005B, 0x005D)
  }

  /** No scan runs across a bracket, or over what trails a sentence. */
  lemma BracketsStop(open: CodeUnit, close: CodeUnit, trailing: CodeUnit, japaneseOnly: bool)
    ensures (open, close) in BRACKETS ==> IsScanBoundary(open, japaneseOnly) && IsScanBoundary(close, japaneseOnly)
    ensures trailing in TRAILING_SENTENCE_CHARS ==> IsScanBoundary(trailing, japaneseOnly)
  {
  }

  /** Nor across the end of a sentence, but for the exclamation and question marks of ASCII, which stop a scan
      only when nothing but Japanese text is scanned. */
  lemma SentenceEndsStop(c: CodeUnit, japaneseOnly: bool)
    requires c in SENTENCE_DELIMITERS
    ensures IsScanBoundary(c, japaneseOnly) <==> japaneseOnly || (c != 0x0021 && c != 0x003F)
  {
  }

  predicate IsAsciiWordUnit(c: int) { 0x30 <= c <= 0x39 || 0x41 <= c <= 0x5A || 0x61 <= c <= 0x7A }

  /** Kana and kanji are always scanned, letters and digits in full width too; those of ASCII only when all text
      is, and white space never. */
  lemma WordsAreScanned(c: CodeUnit, japaneseOnly: bool)
    ensures 0x3041 <= c <= 0x3096 || 0x30A1 <= c <= 0x30FA || 0x30FC <= c <= 0x30FE ==> !IsScanBoundary(c, japaneseOnly)
    ensures 0x4E00 <= c <= 0x9FFF || 0x3400 <= c <= 0x4DBF ==> !IsScanBoundary(c, japaneseOnly)
    ensures 0xFF01 <= c <= 0xFF5E && IsAsciiWordUnit(c - 0xFEE0) ==> !IsScanBoundary(c, japaneseOnly)
    ensures IsAsciiWordUnit(c) ==> (IsScanBoundary(c, japaneseOnly) <==> japaneseOnly)
    ensures IsSpaceUnit(c) ==> IsScanBoundary(c, japaneseOnly)
  {
  }

  /** Where only Japanese text is scanned, less is: nothing is scanned there that is not scanned otherwise. */
  lemma {:induction false} JapaneseScanIsShorter(text: Text, maxLength: nat)
    ensures Scan(text, maxLength, true) <= Scan(text, maxLength, false)
  {
    hide IsSpaceUnit, IsCodePointJapanese;
    if text != [] && maxLength > 0 {
      JapaneseScanIsShorter(text[1..], maxLength - 1);
    }
  }

  // ---------------------------------------------------------------- the joined text

  /** The text of the nodes from offset `o` of node `n` on, as one text. */
  function Joined(nodes: seq<Text>, n: nat, o: nat): Text
    requires n < |nodes| ==> o <= |nodes[n]|
    decreases |nodes| - n, if n < |nodes| then |nodes[n]| - o else 0
  {
    if n >= |nodes| then []
    else if o == |nodes[n]| then Joined(nodes, n + 1, 0)
    else [nodes[n][o]] + Joined(nodes, n, o + 1)
  }

  function Flatten(nodes: seq<Text>): Text {
    if nodes == [] then [] else nodes[0] + Flatten(nodes[1..])
  }

  /** What a scan of one joined text takes. */
  function Scan(text: Text, maxLength: nat, japaneseOnly: bool): Text {
    if text == [] || maxLength == 0 || IsScanBoundary(text[0], japaneseOnly) then []
    else [text[0]] + Scan(text[1..], maxLength - 1, japaneseOnly)
  }

  /** A run of at most `maxLength` units without a boundary that `text` starts with. */
  ghost predicate IsRun(text: Text, maxLength: nat, japaneseOnly: bool, run: Text) {
    run <= text && |run| <= maxLength && forall k :: 0 <= k < |run| ==> !IsScanBoundary(run[k], japaneseOnly)
  }

  lemma FirstOfRun(text: Text, maxLength: nat, japaneseOnly: bool, run: Text)
    requires IsRun(text, maxLength, japaneseOnly, run)
    ensures run != [] ==> text != [] && maxLength > 0 && run[0] == text[0] && !IsScanBoundary(text[0], japaneseOnly)
  {
    hide IsScanBoundary;
  }

  /** The scan takes the longest such run. */
  lemma {:induction false} ScanIsLongest(text: Text, maxLength: nat, japaneseOnly: bool)
    ensures var s := Scan(text, maxLength, japaneseOnly);
            && IsRun(text, maxLength, japaneseOnly, s)
            && forall run :: IsRun(text, maxLength, japaneseOnly, run) ==> run <= s
  {
    hide IsScanBoundary;
    if text == [] || maxLength == 0 || IsScanBoundary(text[0], japaneseOnly) {
      forall run | IsRun(text, maxLength, japaneseOnly, run) ensures run == [] {
        FirstOfRun(text, maxLength, japaneseOnly, run);
      }
    } else {
      var s := Scan(text, maxLength, japaneseOnly);
      ScanIsLongest(text[1..], maxLength - 1, japaneseOnly);
      forall run | IsRun(text, maxLength, japaneseOnly, run) ensures run <= s {
        if run != [] {
          assert run[0] == text[0];
          assert IsRun(text[1..], maxLength - 1, japaneseOnly, run[1..]);
          assert run == [run[0]] + run[1..];
        }
      }
    }
  }

  // ---------------------------------------------------------------- surrogate pairs

  predicate IsHigh(c: CodeUnit) { 0xD800 <= c <= 0xDBFF }
  predicate IsLow(c: CodeUnit) { 0xDC00 <= c <= 0xDFFF }

  /** The scan ends between the two halves of one character. */
  predicate CutsPair(text: Text, maxLength: nat, japaneseOnly: bool) {
    var n := |Scan(text, maxLength, japaneseOnly)|;
    0 < n < |text| && IsHigh(text[n - 1]) && IsLow(text[n])
  }

  /** A scan that stops inside a character has reached the length limit. */
  lemma {:induction false} ScanEndsAt(text: Text, maxLength: nat, japaneseOnly: bool)
    ensures var n := |Scan(text, maxLength, japaneseOnly)|;
            && n <= |text| && n <= maxLength && Scan(text, maxLength, japaneseOnly) == text[..n]
            && (forall k :: 0 <= k < n ==> !IsScanBoundary(text[k], japaneseOnly))
            && (n < |text| && n < maxLength ==> IsScanBoundary(text[n], japaneseOnly))
    decreases maxLength
  {
    hide IsScanBoundary;
    if text != [] && maxLength > 0 && !IsScanBoundary(text[0], japaneseOnly) {
      ScanEndsAt(text[1..], maxLength - 1, japaneseOnly);
      var n := |Scan(text, maxLength, japaneseOnly)|;
      assert text[..n] == [text[0]] + text[1..][..n - 1];
      forall k | 0 <= k < n ensures !IsScanBoundary(text[k], japaneseOnly) {
        if k > 0 { assert text[k] == text[1..][k - 1]; }
      }
    }
  }

  /** Exactly when a scan cuts a character: every text is scanned, the limit falls between the two halves
      of a pair, and no boundary comes before it. */
  lemma CutsPairExactly(text: Text, maxLength: nat, japaneseOnly: bool)
    ensures CutsPair(text, maxLength, japaneseOnly) <==>
            && !japaneseOnly && 0 < maxLength < |text| && IsHigh(text[maxLength - 1]) && IsLow(text[maxLength])
            && forall k :: 0 <= k < maxLength ==> !IsScanBoundary(text[k], false)
  {
    ScanEndsAt(text, maxLength, japaneseOnly);
    var n := |Scan(text, maxLength, japaneseOnly)|;
    if n < |text| && IsLow(text[n]) { SurrogatesAreBoundaries(text[n]); }
    if 0 < n && IsHigh(text[n - 1]) { SurrogatesAreBoundaries(text[n - 1]); }
    hide IsScanBoundary;
    if !japaneseOnly && 0 < maxLength < |text| && (forall k :: 0 <= k < maxLength ==> !IsScanBoundary(text[k], false)) {
      assert n == maxLength;
    }
  }

  /** A limit of one unit cuts the first character of a text that starts beyond the first plane. */
  lemma FirstCharacterIsCut()
    ensures Scan([0xD842, 0xDFB7], 1, false) == [0xD842] && CutsPair([0xD842, 0xDFB7], 1, false)
  {
    SurrogatesAreBoundaries(0xD842);
    hide IsScanBoundary;
    assert Scan([0xDFB7], 0, false) == [];
  }

  /** When only Japanese text is scanned, nothing beyond the first plane is, Japanese or not. */
  lemma NoSurrogateIsScanned(text: Text, maxLength: nat)
    ensures forall c :: c in Scan(text, maxLength, true) ==> !IsHigh(c) && !IsLow(c)
  {
    ScanEndsAt(text, maxLength, true);
    forall c | c in Scan(text, maxLength, true) ensures !IsHigh(c) && !IsLow(c) {
      var n := |Scan(text, maxLength, true)|;
      var k :| 0 <= k < n && text[..n][k] == c;
      assert text[k] == c;
      if IsHigh(c) || IsLow(c) { SurrogatesAreBoundaries(c); }
    }
  }

  function CodePoint(high: CodeUnit, low: CodeUnit): int
    requires IsHigh(high) && IsLow(low)
  {
    0x10000 + (high - 0xD800) * 0x400 + (low - 0xDC00)
  }

  /** So a kanji there stops the scan in front of it, although its code point is Japanese. */
  lemma KanjiBeyondFirstPlane(rest: Text, maxLength: nat)
    ensures IsCodePointJapanese(CodePoint(0xD842, 0xDFB7)) && Scan([0xD842, 0xDFB7] + rest, maxLength, true) == []
  {
    assert ([0xD842, 0xDFB7] + rest)[0] == 0xD842;
    SurrogatesAreBoundaries(0xD842);
  }

  lemma {:induction false} JoinedFrom(nodes: seq<Text>, n: nat, o: nat)
    requires n < |nodes| && o <= |nodes[n]|
    ensures Joined(nodes, n, o) == nodes[n][o..] + Joined(nodes, n + 1, 0)
    decreases |nodes[n]| - o
  {
    if o < |nodes[n]| {
      JoinedFrom(nodes, n, o + 1);
    }
  }

  // ---------------------------------------------------------------- the selection

  datatype Range = Range(node: nat, start: nat, end: nat)

  datatype Hit = Hit(node: nat, offset: nat)

  datatype Selection = Selection(start: Hit, ranges: seq<Range>, text: Text)

  ghost predicate IsRangeOf(nodes: seq<Text>, r: Range) {
    r.node < |nodes| && r.start < r.end <= |nodes[r.node]|
  }

  ghost predicate AreRangesOf(nodes: seq<Text>, ranges: seq<Range>) {
    && (forall k :: 0 <= k < |ranges| ==> IsRangeOf(nodes, ranges[k]))
    && forall k, l :: 0 <= k < l < |ranges| ==> ranges[k].node < ranges[l].node
  }

  ghost function RangeText(nodes: seq<Text>, r: Range): Text
    requires IsRangeOf(nodes, r)
  {
    nodes[r.node][r.start..r.end]
  }

  ghost function RangesText(nodes: seq<Text>, ranges: seq<Range>): Text
    requires forall k :: 0 <= k < |ranges| ==> IsRangeOf(nodes, ranges[k])
  {
    if ranges == [] then []
    else
      assert IsRangeOf(nodes, ranges[|ranges| - 1]);
      RangesText(nodes, ranges[..|ranges| - 1]) + RangeText(nodes, ranges[|ranges| - 1])
  }

  class HoshiSelection {
    var selection: Option<Selection>

    constructor ()
      ensures selection == None
    {
      selection := None;
    }

    /** `selectText` from the hit on, over the text nodes of the paragraph in document order.
        A second tap on the start of the selection clears it. */
    method SelectText(nodes: seq<Text>, hit: Option<Hit>, maxLength: nat, japaneseOnly: bool) returns (r: Option<Text>)
      requires hit.Some? ==> hit.value.node < |nodes| && hit.value.offset <= |nodes[hit.value.node]|
      modifies this
      ensures hit.None? || (old(selection).Some? && old(selection).value.start == hit.value) ==>
          r == None && selection == None
      ensures hit.Some? && !(old(selection).Some? && old(selection).value.start == hit.value) ==>
        var text := Scan(Joined(nodes, hit.value.node, hit.value.offset), maxLength, japaneseOnly);
        if text == [] then r == None && selection == None
        else
          && r == Some(text) && selection.Some?
          && selection.value.start == hit.value && selection.value.text == text
          && AreRangesOf(nodes, selection.value.ranges) && RangesText(nodes, selection.value.ranges) == text
    {
      if hit.None? {
        selection := None;
        return None;
      }
      if selection.Some? && selection.value.start == hit.value {
        selection := None;
        return None;
      }
      selection := None;
      var text, ranges := ScanNodes(nodes, hit.value, maxLength, japaneseOnly);
      if text == [] {
        return None;
      }
      selection := Some(Selection(hit.value, ranges, text));
      r := Some(text);
    }
  }

  /** The scan loop of `selectText`. */
  method ScanNodes(nodes: seq<Text>, hit: Hit, maxLength: nat, japaneseOnly: bool)
      returns (text: Text, ranges: seq<Range>)
    requires hit.node < |nodes| && hit.offset <= |nodes[hit.node]|
    ensures text == Scan(Joined(nodes, hit.node, hit.offset), maxLength, japaneseOnly)
    ensures AreRangesOf(nodes, ranges) && RangesText(nodes, ranges) == text
  {
    hide IsScanBoundary, RangeText, RangesText, Joined, Scan, Cut;
    text := [];
    ranges := [];
    NoRanges(nodes);
    var node, offset := hit.node, hit.offset;
    ghost var all := Scan(Joined(nodes, node, offset), maxLength, japaneseOnly);
    while |text| < maxLength && node < |nodes|
      invariant hit.node <= node <= |nodes| && 0 <= offset && (node < |nodes| ==> offset <= |nodes[node]|)
      invariant |text| <= maxLength
      invariant all == text + Scan(Joined(nodes, node, offset), maxLength - |text|, japaneseOnly)
      invariant AreRangesOf(nodes, ranges) && RangesText(nodes, ranges) == text
      invariant forall k :: 0 <= k < |ranges| ==> ranges[k].node < node
      decreases |nodes| - node
    {
      var content := nodes[node];
      var start := offset;
      ghost var before := text;
      NothingCut(content, start);
      assert text + [] == text;
      while offset < |content| && |text| < maxLength
        invariant start <= offset <= |content| && |text| <= maxLength
        invariant text == before + Cut(content, start, offset)
        invariant all == text + Scan(Joined(nodes, node, offset), maxLength - |text|, japaneseOnly)
      {
        var c := content[offset];
        if IsScanBoundary(c, japaneseOnly) {
          break;
        }
        ScanOne(nodes, node, offset, maxLength - |text|, japaneseOnly);
        CutMore(content, start, offset);
        Associate(text, [c], Scan(Joined(nodes, node, offset + 1), maxLength - |text| - 1, japaneseOnly));
        Associate(before, Cut(content, start, offset), [c]);
        text := text + [c];
        offset := offset + 1;
      }
      if offset > start {
        RangeIsCut(nodes, node, start, offset);
        RangesMore(nodes, ranges, Range(node, start, offset));
        ranges := ranges + [Range(node, start, offset)];
      }
      if offset < |content| || |text| >= maxLength {
        ScanStops(nodes, node, offset, maxLength - |text|, japaneseOnly);
        assert text + [] == text;
        return;
      }
      NextNode(nodes, node);
      node := node + 1;
      offset := 0;
    }
    ScanEnds(nodes, node, offset, maxLength - |text|, japaneseOnly);
    assert text + [] == text;
  }

  lemma NoRanges(nodes: seq<Text>)
    ensures AreRangesOf(nodes, []) && RangesText(nodes, []) == []
  {
  }

  lemma ScanStops(nodes: seq<Text>, n: nat, o: nat, maxLength: nat, japaneseOnly: bool)
    requires n < |nodes| && o <= |nodes[n]|
    requires maxLength == 0 || (o < |nodes[n]| && IsScanBoundary(nodes[n][o], japaneseOnly))
    ensures Scan(Joined(nodes, n, o), maxLength, japaneseOnly) == []
  {
    hide IsScanBoundary;
  }

  lemma ScanEnds(nodes: seq<Text>, n: nat, o: nat, maxLength: nat, japaneseOnly: bool)
    requires (n < |nodes| ==> o <= |nodes[n]|) && (maxLength == 0 || n >= |nodes|)
    ensures Scan(Joined(nodes, n, o), maxLength, japaneseOnly) == []
  {
  }

  lemma NextNode(nodes: seq<Text>, n: nat)
    requires n < |nodes|
    ensures Joined(nodes, n, |nodes[n]|) == Joined(nodes, n + 1, 0)
  {
  }

  lemma NothingCut(t: Text, lo: nat)
    requires lo <= |t|
    ensures Cut(t, lo, lo) == []
  {
  }

  function Cut(t: Text, lo: nat, hi: nat): Text
    requires lo <= hi <= |t|
  {
    t[lo..hi]
  }

  lemma CutMore(t: Text, lo: nat, hi: nat)
    requires lo <= hi < |t|
    ensures Cut(t, lo, hi + 1) == Cut(t, lo, hi) + [t[hi]]
  {
  }

  lemma RangeIsCut(nodes: seq<Text>, node: nat, start: nat, end: nat)
    requires IsRangeOf(nodes, Range(node, start, end))
    ensures RangeText(nodes, Range(node, start, end)) == Cut(nodes[node], start, end)
  {
  }

  lemma ScanOne(nodes: seq<Text>, n: nat, o: nat, maxLength: nat, japaneseOnly: bool)
    requires n < |nodes| && o < |nodes[n]| && maxLength > 0 && !IsScanBoundary(nodes[n][o], japaneseOnly)
    ensures Scan(Joined(nodes, n, o), maxLength, japaneseOnly)
         == [nodes[n][o]] + Scan(Joined(nodes, n, o + 1), maxLength - 1, japaneseOnly)
  {
    hide IsScanBoundary;
    assert Joined(nodes, n, o)[1..] == Joined(nodes, n, o + 1);
  }

  lemma RangesMore(nodes: seq<Text>, ranges: seq<Range>, r: Range)
    requires AreRangesOf(nodes, ranges) && IsRangeOf(nodes, r)
    requires forall k :: 0 <= k < |ranges| ==> ranges[k].node < r.node
    ensures AreRangesOf(nodes, ranges + [r])
    ensures RangesText(nodes, ranges + [r]) == RangesText(nodes, ranges) + RangeText(nodes, r)
  {
    assert (ranges + [r])[..|ranges|] == ranges;
  }

  lemma {:induction false} JoinedIsFlat(nodes: seq<Text>, n: nat)
    requires n <= |nodes|
    ensures Joined(nodes, n, 0) == Flatten(nodes[n..])
    decreases |nodes| - n
  {
    if n < |nodes| {
      JoinedFrom(nodes, n, 0);
      JoinedIsFlat(nodes, n + 1);
      assert nodes[n..][0] == nodes[n] && nodes[n..][1..] == nodes[n + 1..];
    }
  }

  /** The text from the hit on, however it is split into nodes. */
  ghost function Behind(nodes: seq<Text>, hit: Hit): Text
    requires hit.node < |nodes| && hit.offset <= |nodes[hit.node]|
  {
    nodes[hit.node][hit.offset..] + Flatten(nodes[hit.node + 1..])
  }

  lemma JoinedIsBehind(nodes: seq<Text>, hit: Hit)
    requires hit.node < |nodes| && hit.offset <= |nodes[hit.node]|
    ensures Joined(nodes, hit.node, hit.offset) == Behind(nodes, hit)
  {
    JoinedFrom(nodes, hit.node, hit.offset);
    JoinedIsFlat(nodes, hit.node + 1);
  }

  /** Two splits of the same text behind the hit give the same scan. */
  lemma SplitDoesNotMatter(nodes: seq<Text>, hit: Hit, nodes2: seq<Text>, hit2: Hit, maxLength: nat, japaneseOnly: bool)
    requires hit.node < |nodes| && hit.offset <= |nodes[hit.node]| && hit2.node < |nodes2|
        && hit2.offset <= |nodes2[hit2.node]|
    requires Behind(nodes, hit) == Behind(nodes2, hit2)
    ensures Scan(Joined(nodes, hit.node, hit.offset), maxLength, japaneseOnly)
         == Scan(Joined(nodes2, hit2.node, hit2.offset), maxLength, japaneseOnly)
  {
    hide Behind, Joined, Scan;
    JoinedIsBehind(nodes, hit);
    JoinedIsBehind(nodes2, hit2);
  }
}
