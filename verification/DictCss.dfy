/** `constructDictCss`: prefixing every rule of a dictionary's style sheet.

    The method terminates and computes `Scoped` for every style sheet. What `Scoped` does to the rules
    of a sheet is proved in StyleSheets. For comment-free balanced sheets, and a name without braces,
    the output has exactly the braces of the input, in order. */
module DictCss {

  import opened Utf16
  import opened Wrappers

  // ---------------------------------------------------------------- string functions

  predicate IsSpace(c: char) { IsSpaceUnit(c as int) }

  predicate IsBrace(c: char) { c == '{' || c == '}' }

  /** `s.indexOf(c, from)` */
  function IndexOf(s: string, c: char, from: nat): (r: int)
    requires from <= |s|
    ensures r == -1 || from <= r < |s|
    ensures r >= 0 ==> s[r] == c && forall k :: from <= k < r ==> s[k] != c
    ensures r == -1 ==> forall k :: from <= k < |s| ==> s[k] != c
    decreases |s| - from
  {
    if from == |s| then -1 else if s[from] == c then from else IndexOf(s, c, from + 1)
  }

  /** `s.indexOf("*" + "/", from)` */
  function IndexOfCommentEnd(s: string, from: nat): (r: int)
    ensures r == -1 || from <= r < |s| - 1
    decreases |s| - from
  {
    if from + 1 >= |s| then -1
    else if s[from] == '*' && s[from + 1] == '/' then from
    else IndexOfCommentEnd(s, from + 1)
  }

  /** `s.slice(lo, hi)` for non-negative bounds. */
  function Slice(s: string, lo: nat, hi: int): string
    requires hi <= |s|
  {
    if lo < hi then s[lo..hi] else ""
  }

  function Take(s: string, k: nat): string
    requires k <= |s|
  {
    s[..k]
  }

  function Rest(s: string, k: nat): (r: string)
    requires k <= |s|
    ensures |r| == |s| - k
  {
    s[k..]
  }

  /** The characters at positions `lo` up to `hi`. */
  function Part(s: string, lo: nat, hi: nat): string
    requires lo <= hi <= |s|
  {
    s[lo..hi]
  }

  function TrimStart(s: string): string {
    if s != "" && IsSpace(s[0]) then TrimStart(s[1..]) else s
  }

  function TrimEnd(s: string): string {
    if s != "" && IsSpace(s[|s| - 1]) then TrimEnd(s[..|s| - 1]) else s
  }

  function Trim(s: string): string { TrimEnd(TrimStart(s)) }

  /** `s.split(',')`, the part before the first comma first. */
  function SplitCommas(s: string): (parts: seq<string>)
    ensures parts != []
    decreases |s|
  {
    var k := IndexOf(s, ',', 0);
    if k < 0 then [s] else [Take(s, k)] + SplitCommas(Rest(s, k + 1))
  }

  function Join(parts: seq<string>, separator: string): string {
    if parts == [] then ""
    else if |parts| == 1 then parts[0]
    else Join(parts[..|parts| - 1], separator) + separator + parts[|parts| - 1]
  }

  // ---------------------------------------------------------------- selectors

  function ScopeSelector(s: string, prefix: string): string {
    var trimmed := Trim(s);
    if trimmed == "" then "" else if trimmed[0] == '&' then s else prefix + " " + trimmed
  }

  function ScopeAll(parts: seq<string>, prefix: string): seq<string> {
    seq(|parts|, i requires 0 <= i < |parts| => ScopeSelector(parts[i], prefix))
  }

  function ScopeSelectors(selectorPart: string, prefix: string): string {
    Join(ScopeAll(SplitCommas(selectorPart), prefix), ", ")
  }

  function PrefixFor(dictName: string): string {
    ".yomitan-glossary [data-dictionary=\"" + dictName + "\"]"
  }

  // ---------------------------------------------------------------- what the methods compute

  /** How many spaces `s` starts with. */
  function SpaceLength(s: string): (k: nat)
    ensures k <= |s|
  {
    if s != "" && IsSpace(s[0]) then 1 + SpaceLength(s[1..]) else 0
  }

  /** How far the text goes that closes `depth` open blocks; all of it when they stay open. */
  function BlockLength(s: string, depth: nat): (n: nat)
    ensures n <= |s|
    decreases |s|
  {
    if s == "" || depth == 0 then 0
    else 1 + BlockLength(s[1..], if s[0] == '{' then depth + 1 else if s[0] == '}' then depth - 1 else depth)
  }

  predicate StartsComment(s: string) { |s| >= 2 && s[0] == '/' && s[1] == '*' }

  /** The next item of a block is a nested rule: its brace comes before any semicolon. */
  predicate IsNested(s: string) {
    var semi, brace := IndexOf(s, ';', 0), IndexOf(s, '{', 0);
    brace != -1 && (semi == -1 || brace < semi)
  }

  function ItemLength(s: string): (n: nat)
    requires s != ""
    ensures 0 < n <= |s|
  {
    var semi, brace := IndexOf(s, ';', 0), IndexOf(s, '{', 0);
    if IsNested(s) then brace + 1 + BlockLength(Rest(s, brace + 1), 1)
    else if semi != -1 then semi + 1
    else |s|
  }

  /** The declarations of a block, without its nested rules. */
  function Properties(block: string): (r: string)
    ensures |r| <= |block|
    decreases |block|
  {
    var s := Rest(block, SpaceLength(block));
    if s == "" then ""
    else (if IsNested(s) then "" else Take(s, ItemLength(s))) + Properties(Rest(s, ItemLength(s)))
  }

  /** The nested rules of a block, without its declarations. */
  function NestedRules(block: string): (r: string)
    ensures |r| <= |block|
    decreases |block|
  {
    var s := Rest(block, SpaceLength(block));
    if s == "" then ""
    else (if IsNested(s) then Take(s, ItemLength(s)) else "") + NestedRules(Rest(s, ItemLength(s)))
  }

  /** What `n` characters after an opening brace hold, without the brace that closes them. */
  function Inner(s: string, n: nat): (r: string)
    requires n <= |s|
    ensures |r| <= |s|
  {
    if n > 0 then s[..n - 1] else ""
  }

  /** The scoped form of a style sheet: white space, then a comment or a rule, then the rest. */
  function Scoped(css: string, dictName: string): string
    decreases |css|, 1
  {
    var k := SpaceLength(css);
    Take(css, k) + ScopedToken(Rest(css, k), dictName)
  }

  function ScopedToken(css: string, dictName: string): string
    decreases |css|, 0
  {
    if StartsComment(css) then
      var end := IndexOfCommentEnd(css, 2);
      if end == -1 then "" else Take(css, end + 2) + Scoped(Rest(css, end + 2), dictName)
    else
      var brace := IndexOf(css, '{', 0);
      if brace == -1 then ""
      else
        var body := Rest(css, brace + 1);
        var n := BlockLength(body, 1);
        ScopeSelectors(Take(css, brace), PrefixFor(dictName)) + " {" + ScopedBlock(Inner(body, n), dictName) + "}"
        + Scoped(Rest(body, n), dictName)
  }

  /** A block keeps its declarations, and its nested rules are scoped after them. */
  function ScopedBlock(block: string, dictName: string): string
    decreases |block|, 2
  {
    if '{' !in block then block else Properties(block) + Scoped(NestedRules(block), dictName)
  }

  /** A closed comment is kept as it is, and what follows it is scoped; one that stays open takes the rest with it. */
  lemma CommentIsKept(text: string, rest: string, dictName: string)
    requires IndexOfCommentEnd("/*" + text + "*/", 2) == |text| + 2
    ensures Scoped("/*" + text + "*/" + rest, dictName) == "/*" + text + "*/" + Scoped(rest, dictName)
  {
    var comment := "/*" + text + "*/";
    var css := comment + rest;
    assert !IsSpace(css[0]) && StartsComment(css);
    CommentEndOf(comment, rest, 2);
    assert Take(css, |text| + 4) == comment && Rest(css, |text| + 4) == rest;
    assert Rest(css, 0) == css && Take(css, 0) == "";
    hide Scoped, IsSpace;
    assert ScopedToken(css, dictName) == comment + Scoped(rest, dictName);
    ScopedFromToken(css, dictName);
  }

  lemma ScopedFromToken(css: string, dictName: string)
    requires css != "" && !IsSpace(css[0])
    ensures Scoped(css, dictName) == ScopedToken(css, dictName)
  {
    assert SpaceLength(css) == 0 && Rest(css, 0) == css && Take(css, 0) == "";
  }

  lemma {:induction false} CommentEndOf(comment: string, rest: string, from: nat)
    requires IndexOfCommentEnd(comment, from) >= 0
    ensures IndexOfCommentEnd(comment + rest, from) == IndexOfCommentEnd(comment, from)
    decreases |comment| - from
  {
    var all := comment + rest;
    assert all[from] == comment[from] && all[from + 1] == comment[from + 1];
    if !(comment[from] == '*' && comment[from + 1] == '/') { CommentEndOf(comment, rest, from + 1); }
  }

  // ---------------------------------------------------------------- positions and suffixes

  lemma RestOfRest(s: string, i: nat, k: nat)
    requires i + k <= |s|
    ensures Rest(Rest(s, i), k) == Rest(s, i + k)
    ensures Take(Rest(s, i), k) == Part(s, i, i + k)
  {
  }

  lemma IndexOfRest(s: string, c: char, i: nat)
    requires i <= |s|
    ensures IndexOf(s, c, i) == if IndexOf(Rest(s, i), c, 0) == -1 then -1 else i + IndexOf(Rest(s, i), c, 0)
  {
    var p, q := IndexOf(s, c, i), IndexOf(Rest(s, i), c, 0);
    if p >= 0 { assert Rest(s, i)[p - i] == c; }
    if q >= 0 { assert Rest(s, i)[q] == s[i + q]; }
  }

  lemma {:induction false} CommentEndRest(s: string, i: nat, from: nat)
    requires i <= |s|
    ensures IndexOfCommentEnd(s, i + from)
         == if IndexOfCommentEnd(Rest(s, i), from) == -1 then -1 else i + IndexOfCommentEnd(Rest(s, i), from)
    decreases |s| - from
  {
    if i + from + 1 < |s| {
      assert Rest(s, i)[from] == s[i + from] && Rest(s, i)[from + 1] == s[i + from + 1];
      if !(s[i + from] == '*' && s[i + from + 1] == '/') { CommentEndRest(s, i, from + 1); }
    }
  }

  lemma BlockLengthNext(s: string, i: nat, depth: nat)
    requires i < |s| && depth > 0
    ensures BlockLength(Rest(s, i), depth)
         == 1 + BlockLength(Rest(s, i + 1), if s[i] == '{' then depth + 1 else if s[i] == '}' then depth - 1 else depth)
  {
    assert Rest(s, i)[1..] == Rest(s, i + 1);
  }

  lemma SpaceLengthNext(s: string, i: nat)
    requires i <= |s|
    ensures SpaceLength(Rest(s, i)) == if i < |s| && IsSpace(s[i]) then 1 + SpaceLength(Rest(s, i + 1)) else 0
  {
    if i < |s| { assert Rest(s, i)[1..] == Rest(s, i + 1); }
  }

  /** The next item of a block, found by position. */
  lemma ItemNext(block: string, pos: nat)
    requires pos < |block|
    ensures var s := Rest(block, pos); var semi, brace := IndexOf(block, ';', pos), IndexOf(block, '{', pos);
            && (IsNested(s) <==> brace != -1 && (semi == -1 || brace < semi))
            && pos + ItemLength(s) == (if IsNested(s) then brace + 1 + BlockLength(Rest(block, brace + 1), 1)
                else if semi != -1 then semi + 1 else |block|)
            && Take(s, ItemLength(s)) == Part(block, pos, pos + ItemLength(s))
  {
    hide BlockLength, Rest, Take, Part;
    var s := Rest(block, pos);
    IndexOfRest(block, ';', pos);
    IndexOfRest(block, '{', pos);
    if IsNested(s) { RestOfRest(block, pos, IndexOf(s, '{', 0) + 1); }
    RestOfRest(block, pos, ItemLength(s));
  }

  /** What is left of a block after its leading white space and its next item. */
  lemma SplitNext(block: string, from: nat, pos: nat)
    requires from <= pos <= |block| && SpaceLength(Rest(block, from)) == pos - from
    ensures if pos == |block| then Properties(Rest(block, from)) == "" && NestedRules(Rest(block, from)) == ""
            else var s := Rest(block, pos); var end := pos + ItemLength(s); var item := Part(block, pos, end);
              && Properties(Rest(block, from)) == (if IsNested(s) then "" else item) + Properties(Rest(block, end))
              && NestedRules(Rest(block, from)) == (if IsNested(s) then item else "") + NestedRules(Rest(block, end))
  {
    hide IsNested, ItemLength, SpaceLength, Rest, Take, Part;
    RestOfRest(block, from, pos - from);
    if pos < |block| {
      var s := Rest(block, pos);
      ItemFits(s);
      RestOfRest(block, pos, ItemLength(s));
    } else {
      RestLength(block, pos);
    }
  }

  /** The block up to `pos` has been split into these declarations and nested rules. */
  predicate IsSplitAt(block: string, pos: nat, properties: string, nestedRules: string)
    requires pos <= |block|
  {
    && Properties(block) == properties + Properties(Rest(block, pos))
    && NestedRules(block) == nestedRules + NestedRules(Rest(block, pos))
  }

  lemma SplitEnd(block: string, properties: string, nestedRules: string)
    requires IsSplitAt(block, |block|, properties, nestedRules)
    ensures Properties(block) == properties && NestedRules(block) == nestedRules
  {
  }

  lemma SplitStart(block: string)
    ensures IsSplitAt(block, 0, "", "")
  {
    hide Properties, NestedRules;
  }

  /** Splitting off the next item. */
  lemma SplitItem(block: string, from: nat, pos: nat, properties: string, nestedRules: string)
    requires from <= pos <= |block| && SpaceLength(Rest(block, from)) == pos - from
    requires IsSplitAt(block, from, properties, nestedRules)
    ensures pos == |block| ==> IsSplitAt(block, pos, properties, nestedRules)
    ensures pos < |block| ==>
      var s := Rest(block, pos); var end := pos + ItemLength(s); var item := Part(block, pos, end);
      if IsNested(s) then IsSplitAt(block, end, properties, nestedRules + item)
          else IsSplitAt(block, end, properties + item, nestedRules)
  {
    hide Properties, NestedRules, SpaceLength, Rest, Part, IsNested, ItemLength;
    SplitNext(block, from, pos);
    if pos < |block| {
      var end := pos + ItemLength(Rest(block, pos));
      Associate(properties, Part(block, pos, end), Properties(Rest(block, end)));
      Associate(nestedRules, Part(block, pos, end), NestedRules(Rest(block, end)));
    } else {
      NothingLeft(block);
    }
  }

  lemma NothingLeft(block: string)
    ensures Properties(Rest(block, |block|)) == "" && NestedRules(Rest(block, |block|)) == ""
  {
  }

  /** One turn of the loop that splits a block. */
  lemma SplitStep(block: string, from: nat, pos: nat, properties: string, nestedRules: string)
    requires from <= pos <= |block| && SpaceLength(Rest(block, from)) == pos - from
    requires IsSplitAt(block, from, properties, nestedRules)
    ensures pos == |block| ==> IsSplitAt(block, pos, properties, nestedRules)
    ensures pos < |block| ==> IsItem(block, pos, properties, nestedRules, IndexOf(block, ';', pos),
        IndexOf(block, '{', pos))
  {
    hide IsSplitAt, SpaceLength, BlockLength, Rest, Part, IsNested, ItemLength;
    SplitItem(block, from, pos, properties, nestedRules);
    if pos < |block| {
      RestLength(block, pos);
      ItemFits(Rest(block, pos));
      ItemNext(block, pos);
    }
  }

  /** The item at `pos` is split off as the branches of the loop do. */
  predicate IsItem(block: string, pos: nat, properties: string, nestedRules: string, semi: int, brace: int)
    requires pos < |block| && (semi == -1 || pos <= semi < |block|) && (brace == -1 || pos <= brace < |block|)
  {
    if brace != -1 && (semi == -1 || brace < semi) then
      var end := brace + 1 + BlockLength(Rest(block, brace + 1), 1);
      pos <= end <= |block| && IsSplitAt(block, end, properties, nestedRules + Part(block, pos, end))
    else
      var end := if semi != -1 then semi + 1 else |block|;
      IsSplitAt(block, end, properties + Part(block, pos, end), nestedRules)
  }

  lemma ItemFits(s: string)
    requires s != ""
    ensures 0 < ItemLength(s) <= |s|
  {
  }

  lemma RestLength(s: string, k: nat)
    requires k <= |s|
    ensures |Rest(s, k)| == |s| - k && (k == |s| ==> Rest(s, k) == "") && (k == 0 ==> Rest(s, k) == s)
  {
  }

  /** `out` is the scoped form of the sheet up to `i`. */
  predicate IsScopedAt(css: string, dictName: string, i: nat, out: string)
    requires i <= |css|
  {
    Scoped(css, dictName) == out + Scoped(Rest(css, i), dictName)
  }

  /** The same, when what follows `i` is not white space. */
  predicate IsTokenAt(css: string, dictName: string, i: nat, out: string)
    requires i <= |css|
  {
    Scoped(css, dictName) == out + ScopedToken(Rest(css, i), dictName)
  }

  lemma ScopeStart(css: string, dictName: string)
    ensures IsScopedAt(css, dictName, 0, "") && Scoped("", dictName) == ""
  {
    assert Rest(css, 0) == css;
    assert IndexOf("", '{', 0) == -1;
  }

  lemma ScopeEnd(css: string, dictName: string, out: string)
    requires IsScopedAt(css, dictName, |css|, out)
    ensures Scoped(css, dictName) == out
  {
    ScopeStart("", dictName);
  }

  /** The white space from `from` up to `i` has been copied behind `before`. */
  predicate IsCopying(css: string, from: nat, i: nat, before: string, out: string)
    requires from <= i <= |css|
  {
    out == before + Part(css, from, i) && SpaceLength(Rest(css, from)) == i - from + SpaceLength(Rest(css, i))
  }

  lemma CopyStart(css: string, from: nat, before: string)
    requires from <= |css|
    ensures IsCopying(css, from, from, before, before)
  {
    assert before + "" == before;
  }

  lemma CopySpace(css: string, from: nat, i: nat, before: string, out: string)
    requires from <= i < |css| && IsSpace(css[i]) && IsCopying(css, from, i, before, out)
    ensures IsCopying(css, from, i + 1, before, out + [css[i]])
  {
    SpaceLengthNext(css, i);
    assert Part(css, from, i + 1) == Part(css, from, i) + [css[i]];
    hide Part, Rest, SpaceLength;
    Associate(before, Part(css, from, i), [css[i]]);
  }

  /** After the white space comes a token. */
  lemma AfterSpaces(css: string, dictName: string, from: nat, i: nat, before: string, out: string)
    requires from <= i <= |css| && IsScopedAt(css, dictName, from, before) && IsCopying(css, from, i, before, out)
    requires i < |css| ==> !IsSpace(css[i])
    ensures IsTokenAt(css, dictName, i, out)
  {
    hide SpaceLength, Rest, Part, Take, ScopedToken;
    SpaceLengthNext(css, i);
    RestOfRest(css, from, i - from);
    Associate(before, Part(css, from, i), ScopedToken(Rest(css, i), dictName));
  }

  lemma CommentAt(css: string, i: nat)
    requires i <= |css|
    ensures StartsComment(Rest(css, i)) <==> i + 1 < |css| && css[i] == '/' && css[i + 1] == '*'
  {
  }

  lemma SlicePart(s: string, lo: nat, hi: nat)
    requires lo < hi <= |s|
    ensures Slice(s, lo, hi) == Part(s, lo, hi)
  {
  }

  /** A comment that is not closed ends the output, a closed one is copied. */
  lemma CommentToken(css: string, dictName: string, i: nat, out: string)
    requires i + 1 < |css| && css[i] == '/' && css[i + 1] == '*' && IsTokenAt(css, dictName, i, out)
    ensures var end := IndexOfCommentEnd(css, i + 2);
            if end == -1 then Scoped(css, dictName) == out
                else IsScopedAt(css, dictName, end + 2, out + Slice(css, i, end + 2))
  {
    hide Scoped, Part, Take, Rest, StartsComment, Slice;
    var t := Rest(css, i);
    CommentAt(css, i);
    CommentEndRest(css, i, 2);
    var k := IndexOfCommentEnd(t, 2);
    if k != -1 {
      RestOfRest(css, i, k + 2);
      SlicePart(css, i, i + k + 2);
      Associate(out, Part(css, i, i + k + 2), Scoped(Rest(css, i + k + 2), dictName));
    }
  }

  /** A rule is replaced by its scoped form. */
  lemma RuleToken(css: string, dictName: string, i: nat, out: string)
    requires i <= |css| && !(i + 1 < |css| && css[i] == '/' && css[i + 1] == '*') && IsTokenAt(css, dictName, i, out)
    ensures var brace := IndexOf(css, '{', i);
            if brace == -1 then Scoped(css, dictName) == out
            else var end := brace + 1 + BlockLength(Rest(css, brace + 1), 1);
              end <= |css| && IsScopedAt(css, dictName, end, out + ScopedRule(css, dictName, i, brace, end))
  {
    hide Scoped, Part, Take, Rest, StartsComment, ScopeSelectors, PrefixFor, ScopedBlock, BlockLength, Inner, Slice;
    var t := Rest(css, i);
    CommentAt(css, i);
    IndexOfRest(css, '{', i);
    var k := IndexOf(t, '{', 0);
    if k != -1 {
      RestOfRest(css, i, k + 1);
      RestOfRest(css, i, k);
      var body := Rest(css, i + k + 1);
      RestLength(css, i + k + 1);
      LengthFits(body, 1);
      var n := BlockLength(body, 1);
      RestOfRest(css, i + k + 1, n);
      InnerSlice(css, i + k + 1, n);
      Associate(out, ScopedRule(css, dictName, i, i + k, i + k + 1 + n), Scoped(Rest(css, i + k + 1 + n), dictName));
    }
  }

  lemma LengthFits(s: string, depth: nat)
    ensures BlockLength(s, depth) <= |s|
  {
  }

  lemma InnerSlice(css: string, start: nat, n: nat)
    requires start > 0 && start + n <= |css|
    ensures Inner(Rest(css, start), n) == Slice(css, start, start + n - 1)
  {
  }

  /** The scoped form of the rule whose selectors, brace and end are at these positions. */
  function ScopedRule(css: string, dictName: string, i: nat, brace: nat, end: nat): string
    requires i <= brace < end <= |css|
  {
    ScopeSelectors(Part(css, i, brace), PrefixFor(dictName))
    + " {" + ScopedBlock(Slice(css, brace + 1, end - 1), dictName) + "}"
  }

  // ---------------------------------------------------------------- braces

  function BraceAt(c: char): string { if IsBrace(c) then [c] else "" }

  /** The braces of a text, in order. */
  function Braces(s: string): string {
    if s == "" then "" else Braces(s[..|s| - 1]) + BraceAt(s[|s| - 1])
  }

  predicate NoBrace(s: string) { forall k :: 0 <= k < |s| ==> !IsBrace(s[k]) }

  function Step(c: char): int { if c == '{' then 1 else if c == '}' then -1 else 0 }

  /** Opening minus closing braces among the first `k` characters. */
  function Depth(s: string, k: nat): int
    requires k <= |s|
  {
    if k == 0 then 0 else Depth(s, k - 1) + Step(s[k - 1])
  }

  ghost predicate Balanced(s: string) {
    (forall k :: 0 <= k <= |s| ==> Depth(s, k) >= 0) && Depth(s, |s|) == 0
  }

  predicate NoComment(s: string) { forall k :: 0 <= k < |s| - 1 ==> !(s[k] == '/' && s[k + 1] == '*') }

  lemma BracesSnoc(s: string, c: char)
    ensures Braces(s + [c]) == Braces(s) + BraceAt(c)
  {
    assert (s + [c])[..|s|] == s;
  }

  lemma {:induction false} BracesConcat(a: string, b: string)
    ensures Braces(a + b) == Braces(a) + Braces(b)
  {
    hide BraceAt, Braces;
    if b == "" {
      assert a + b == a;
      NoBraces("");
    } else {
      var c, x := b[..|b| - 1], b[|b| - 1];
      BracesConcat(a, c);
      assert b == c + [x];
      Associate(a, c, [x]);
      BracesSnoc(a + c, x);
      BracesSnoc(c, x);
      Associate(Braces(a), Braces(c), BraceAt(x));
    }
  }

  lemma {:induction false} NoBraces(s: string)
    requires NoBrace(s)
    ensures Braces(s) == ""
  {
    if s != "" {
      NoBraces(s[..|s| - 1]);
    }
  }

  lemma {:induction false} TrimIsPart(s: string)
    ensures NoBrace(s) ==> NoBrace(Trim(s))
  {
    if NoBrace(s) {
      TrimStartIsPart(s);
      TrimEndIsPart(TrimStart(s));
    }
  }

  lemma {:induction false} TrimStartIsPart(s: string)
    requires NoBrace(s)
    ensures NoBrace(TrimStart(s))
  {
    if s != "" && IsSpace(s[0]) { TrimStartIsPart(s[1..]); }
  }

  lemma {:induction false} TrimEndIsPart(s: string)
    requires NoBrace(s)
    ensures NoBrace(TrimEnd(s))
  {
    if s != "" && IsSpace(s[|s| - 1]) { TrimEndIsPart(s[..|s| - 1]); }
  }

  predicate NoneHasBrace(parts: seq<string>) { forall i :: 0 <= i < |parts| ==> NoBrace(parts[i]) }

  lemma SplitAtComma(s: string)
    requires IndexOf(s, ',', 0) >= 0
    ensures var k := IndexOf(s, ',', 0); k < |s| && SplitCommas(s) == [Take(s, k)] + SplitCommas(Rest(s, k + 1))
  {
    hide Take, Rest, IndexOf;
    CommaInside(s);
  }

  lemma CommaInside(s: string)
    ensures IndexOf(s, ',', 0) < |s|
  {
  }

  lemma CommaStep(s: string)
    requires NoBrace(s) && IndexOf(s, ',', 0) >= 0
    ensures var k := IndexOf(s, ',', 0);
            && NoBrace(Take(s, k)) && NoBrace(Rest(s, k + 1))
            && SplitCommas(s) == [Take(s, k)] + SplitCommas(Rest(s, k + 1))
  {
    hide SplitCommas;
    SplitAtComma(s);
  }

  lemma NoCommaStep(s: string)
    requires IndexOf(s, ',', 0) < 0
    ensures SplitCommas(s) == [s]
  {
  }

  lemma {:induction false} SplitHasNoBrace(s: string)
    requires NoBrace(s)
    ensures NoneHasBrace(SplitCommas(s))
    decreases |s|
  {
    hide NoBrace, Take, Rest, SplitCommas;
    var k := IndexOf(s, ',', 0);
    if k >= 0 {
      CommaStep(s);
      hide IndexOf;
      RestLength(s, k + 1);
      SplitHasNoBrace(Rest(s, k + 1));
    } else {
      NoCommaStep(s);
    }
  }

  lemma {:induction false} JoinHasNoBrace(parts: seq<string>, separator: string)
    requires NoBrace(separator) && NoneHasBrace(parts)
    ensures NoBrace(Join(parts, separator))
  {
    if |parts| > 1 {
      JoinHasNoBrace(parts[..|parts| - 1], separator);
    }
  }

  /** Scoping neither adds nor removes a brace. */
  lemma ScopeHasNoBrace(selectorPart: string, prefix: string)
    requires NoBrace(selectorPart) && NoBrace(prefix)
    ensures NoBrace(ScopeSelectors(selectorPart, prefix))
  {
    var parts := SplitCommas(selectorPart);
    SplitHasNoBrace(selectorPart);
    forall i | 0 <= i < |parts| ensures NoBrace(ScopeSelector(parts[i], prefix)) {
      assert NoBrace(parts[i]);
      TrimIsPart(parts[i]);
    }
    JoinHasNoBrace(ScopeAll(parts, prefix), ", ");
  }

  lemma PrefixHasNoBrace(dictName: string)
    requires NoBrace(dictName)
    ensures NoBrace(PrefixFor(dictName))
  {
  }

  // ---------------------------------------------------------------- depth

  lemma {:induction false} DepthOfSlice(s: string, lo: nat, hi: nat, k: nat)
    requires lo <= hi <= |s| && k <= hi - lo
    ensures Depth(Part(s, lo, hi), k) == Depth(s, lo + k) - Depth(s, lo)
  {
    if k > 0 {
      DepthOfSlice(s, lo, hi, k - 1);
      assert Part(s, lo, hi)[k - 1] == s[lo + (k - 1)];
    }
  }

  /** A stretch without an opening brace that starts at depth 0 of balanced text has no brace at all. */
  lemma {:induction false} NothingToClose(s: string, lo: nat, hi: nat)
    requires lo <= hi <= |s| && Balanced(s) && Depth(s, lo) == 0
    requires forall k :: lo <= k < hi ==> s[k] != '{'
    ensures forall k :: lo <= k < hi ==> !IsBrace(s[k])
    ensures Depth(s, hi) == 0
  {
    if lo < hi {
      NothingToClose(s, lo, hi - 1);
      assert Depth(s, hi) >= 0;
    }
  }

  /** A stretch without braces changes neither the braces so far nor the depth. */
  lemma SkipPlain(s: string, lo: nat, hi: nat)
    requires lo <= hi <= |s| && forall k :: lo <= k < hi ==> !IsBrace(s[k])
    ensures Braces(Part(s, 0, hi)) == Braces(Part(s, 0, lo)) && Depth(s, hi) == Depth(s, lo) && NoBrace(Part(s, lo, hi))
  {
    Cut(s, lo, hi);
    NoBraces(Part(s, lo, hi));
    NoBraceDepth(s, lo, hi);
  }

  lemma {:induction false} NoBraceDepth(s: string, lo: nat, hi: nat)
    requires lo <= hi <= |s| && forall k :: lo <= k < hi ==> !IsBrace(s[k])
    ensures Depth(s, hi) == Depth(s, lo)
  {
    if lo < hi { NoBraceDepth(s, lo, hi - 1); }
  }

  lemma Cut(s: string, lo: nat, hi: nat)
    requires lo <= hi <= |s|
    ensures Braces(Part(s, 0, hi)) == Braces(Part(s, 0, lo)) + Braces(Part(s, lo, hi))
  {
    assert Part(s, 0, hi) == Part(s, 0, lo) + Part(s, lo, hi);
    BracesConcat(Part(s, 0, lo), Part(s, lo, hi));
  }

  /** A stretch that starts and ends at depth `d` and never goes below it is balanced. */
  lemma SliceIsBalanced(s: string, lo: nat, hi: nat)
    requires lo <= hi <= |s| && Depth(s, hi) == Depth(s, lo)
    requires forall k :: lo <= k <= hi ==> Depth(s, k) >= Depth(s, lo)
    ensures Balanced(Part(s, lo, hi))
  {
    forall k | 0 <= k <= hi - lo ensures Depth(Part(s, lo, hi), k) >= 0 {
      DepthOfSlice(s, lo, hi, k);
    }
    DepthOfSlice(s, lo, hi, hi - lo);
  }

  lemma BalancedConcat(a: string, b: string)
    requires Balanced(a) && Balanced(b)
    ensures Balanced(a + b)
  {
    var s := a + b;
    forall k | 0 <= k <= |s| ensures Depth(s, k) == if k <= |a| then Depth(a, k) else Depth(b, k - |a|) {
      if k <= |a| {
        DepthOfSlice(s, 0, |a|, k);
        assert Part(s, 0, |a|) == a;
      } else {
        DepthOfSlice(s, 0, |a|, |a|);
        assert Part(s, 0, |a|) == a;
        DepthOfSlice(s, |a|, |s|, k - |a|);
        assert Part(s, |a|, |s|) == b;
      }
    }
  }

  lemma SliceHasNoComment(s: string, lo: nat, hi: nat)
    requires lo <= hi <= |s| && NoComment(s)
    ensures NoComment(Part(s, lo, hi))
  {
  }

  lemma ConcatHasNoComment(a: string, b: string)
    requires NoComment(a) && NoComment(b) && (a == "" || a[|a| - 1] == '}')
    ensures NoComment(a + b)
  {
  }

  // ---------------------------------------------------------------- the methods

  /** In balanced text, the block opened just before `start` at depth 0 ends at `end`. */
  ghost predicate ClosesBlock(s: string, start: nat, end: nat)
    requires 0 < start <= end <= |s|
  {
    Balanced(s) && s[start - 1] == '{' && Depth(s, start - 1) == 0 ==>
      start < end && s[end - 1] == '}' && Depth(s, end) == 0 && forall k :: start <= k < end ==> Depth(s, k) >= 1
  }

  /** From `i`, inside `depth` blocks, to the end that BlockLength finds. */
  lemma {:induction false} DepthInBlock(s: string, i: nat, depth: nat)
    requires i <= |s| && depth == Depth(s, i)
    ensures var end := i + BlockLength(Rest(s, i), depth);
            && end <= |s| && (forall k :: i <= k < end ==> Depth(s, k) >= 1)
            && (Depth(s, end) == 0 || (end == |s| && Depth(s, end) >= 1))
            && (i < end && Depth(s, end) == 0 ==> s[end - 1] == '}')
    decreases |s| - i
  {
    if i < |s| && depth > 0 {
      BlockLengthNext(s, i, depth);
      DepthInBlock(s, i + 1, Depth(s, i + 1));
    } else {
      RestLength(s, i);
    }
  }

  lemma BlockCloses(s: string, start: nat)
    requires 0 < start <= |s|
    ensures var end := start + BlockLength(Rest(s, start), 1); end <= |s| && ClosesBlock(s, start, end)
  {
    RestLength(s, start);
    LengthFits(Rest(s, start), 1);
    if Balanced(s) && s[start - 1] == '{' && Depth(s, start - 1) == 0 {
      DepthInBlock(s, start, 1);
    }
  }

  /** The loop that looks for the brace that closes the block opened just before `start`. */
  method BlockEnd(s: string, start: nat) returns (end: nat)
    requires 0 < start <= |s|
    ensures start <= end <= |s|
    ensures end == start + BlockLength(Rest(s, start), 1)
    ensures ClosesBlock(s, start, end)
  {
    hide ClosesBlock;
    BlockCloses(s, start);
    var depth := 1;
    end := start;
    while end < |s| && depth > 0
      invariant start <= end <= |s|
      invariant depth >= 0 && start + BlockLength(Rest(s, start), 1) == end + BlockLength(Rest(s, end), depth)
    {
      BlockLengthNext(s, end, depth);
      if s[end] == '{' {
        depth := depth + 1;
      } else if s[end] == '}' {
        depth := depth - 1;
      }
      end := end + 1;
    }
  }

  /** What the split of a block keeps, when the block is balanced and has no comment. */
  ghost predicate IsSplitOf(block: string, pos: nat, properties: string, nestedRules: string)
    requires pos <= |block|
  {
    && Depth(block, pos) == 0
    && NoBrace(properties)
    && Braces(nestedRules) == Braces(Part(block, 0, pos))
    && Balanced(nestedRules) && NoComment(nestedRules)
    && (nestedRules == "" || nestedRules[|nestedRules| - 1] == '}')
  }

  /** A block's own properties, and the rules nested in it. */
  method SplitBlock(block: string) returns (properties: string, nestedRules: string)
    ensures properties == Properties(block) && nestedRules == NestedRules(block)
    ensures |nestedRules| <= |block|
    ensures Balanced(block) && NoComment(block) ==> IsSplitOf(block, |block|, properties, nestedRules)
  {
    hide Braces, Depth, Balanced, NoComment, NoBrace, IsSplitOf, IsSpace, IsBrace, Part;
    hide ClosesBlock, Properties, NestedRules, SpaceLength, Rest, BlockLength, IsSplitAt;
    var pos := 0;
    properties := "";
    nestedRules := "";
    SplitStart(block);
    NothingSplit(block);
    ghost var good := Balanced(block) && NoComment(block);
    while pos < |block|
      invariant 0 <= pos <= |block| && |nestedRules| <= pos
      invariant IsSplitAt(block, pos, properties, nestedRules)
      invariant good ==> IsSplitOf(block, pos, properties, nestedRules)
    {
      ghost var from := pos;
      while pos < |block| && IsSpace(block[pos])
        invariant from <= pos <= |block|
        invariant SpaceLength(Rest(block, from)) == pos - from + SpaceLength(Rest(block, pos))
        invariant forall k :: from <= k < pos ==> IsSpace(block[k])
      {
        SpaceLengthNext(block, pos);
        pos := pos + 1;
      }
      SpaceLengthNext(block, pos);
      SplitStep(block, from, pos, properties, nestedRules);
      if good { SkipSpaces(block, from, pos, properties, nestedRules); }
      if pos >= |block| {
        break;
      }
      PartLength(block, pos);
      var nextSemi := IndexOf(block, ';', pos);
      var nextBrace := IndexOf(block, '{', pos);
      if nextBrace != -1 && (nextSemi == -1 || nextBrace < nextSemi) {
        var nestedEnd := BlockEnd(block, nextBrace + 1);
        if good { NestedRule(block, pos, nextBrace, nestedEnd, properties, nestedRules); }
        nestedRules := nestedRules + Part(block, pos, nestedEnd);
        pos := nestedEnd;
      } else if nextSemi != -1 {
        if good { PlainStretch(block, pos, nextSemi + 1, properties, nestedRules); }
        properties := properties + Part(block, pos, nextSemi + 1);
        pos := nextSemi + 1;
      } else {
        if good { PlainStretch(block, pos, |block|, properties, nestedRules); }
        properties := properties + Part(block, pos, |block|);
        pos := |block|;
        break;
      }
    }
    if pos == |block| { SplitEnd(block, properties, nestedRules); }
  }

  lemma NothingSplit(block: string)
    ensures IsSplitOf(block, 0, "", "")
  {
    SliceIsBalanced("", 0, 0);
  }

  lemma PartLength(s: string, lo: nat)
    ensures forall hi: nat :: lo <= hi <= |s| ==> |Part(s, lo, hi)| == hi - lo
  {
  }

  lemma SkipSpaces(block: string, from: nat, pos: nat, properties: string, nestedRules: string)
    requires from <= pos <= |block| && IsSplitOf(block, from, properties, nestedRules)
    requires forall k :: from <= k < pos ==> IsSpace(block[k])
    ensures IsSplitOf(block, pos, properties, nestedRules)
  {
    SkipPlain(block, from, pos);
  }

  lemma PlainStretch(block: string, pos: nat, end: nat, properties: string, nestedRules: string)
    requires Balanced(block) && pos <= end <= |block| && IsSplitOf(block, pos, properties, nestedRules)
    requires forall k :: pos <= k < end ==> block[k] != '{'
    ensures IsSplitOf(block, end, properties + Part(block, pos, end), nestedRules)
  {
    NothingToClose(block, pos, end);
    SkipPlain(block, pos, end);
  }

  lemma LastOfPart(s: string, lo: nat, hi: nat)
    requires lo < hi <= |s|
    ensures |Part(s, lo, hi)| == hi - lo && Part(s, lo, hi)[hi - lo - 1] == s[hi - 1]
  {
  }

  lemma NestedRule(block: string, pos: nat, brace: nat, end: nat, properties: string, nestedRules: string)
    requires pos <= brace < end <= |block| && Balanced(block) && NoComment(block)
    requires IsSplitOf(block, pos, properties, nestedRules)
    requires block[brace] == '{' && forall k :: pos <= k < brace ==> block[k] != '{'
    requires ClosesBlock(block, brace + 1, end)
    ensures IsSplitOf(block, end, properties, nestedRules + Part(block, pos, end))
  {
    hide Braces, Depth, NoBrace, IsBrace;
    NothingToClose(block, pos, brace);
    var rule := Part(block, pos, end);
    LastOfPart(block, pos, end);
    hide Part, NoComment;
    SliceIsBalanced(block, pos, end);
    SliceHasNoComment(block, pos, end);
    BalancedConcat(nestedRules, rule);
    ConcatHasNoComment(nestedRules, rule);
    BracesConcat(nestedRules, rule);
    Cut(block, pos, end);
  }

  /** Balanced, without a comment, for a dictionary whose name has no brace. */
  ghost predicate IsPlainSheet(css: string, dictName: string) {
    Balanced(css) && NoComment(css) && NoBrace(dictName)
  }

  /** The output so far has the braces read so far, and no block is open. */
  ghost predicate IsScopedUpTo(css: string, i: nat, out: string)
    requires i <= |css|
  {
    Depth(css, i) == 0 && Braces(out) == Braces(Part(css, 0, i))
  }

  lemma NothingScoped(css: string)
    ensures IsScopedUpTo(css, 0, "") && Braces("") == ""
  {
  }

  lemma ScopeSpace(css: string, i: nat, out: string)
    requires i < |css| && IsSpace(css[i]) && IsScopedUpTo(css, i, out)
    ensures IsScopedUpTo(css, i + 1, out + [css[i]])
  {
    SkipPlain(css, i, i + 1);
    BracesSnoc(out, css[i]);
  }

  lemma ThereIsNoComment(css: string, dictName: string, i: nat)
    requires IsPlainSheet(css, dictName)
    ensures !(i + 1 < |css| && css[i] == '/' && css[i + 1] == '*')
  {
  }

  lemma NameHasNoBrace(css: string, dictName: string)
    requires IsPlainSheet(css, dictName)
    ensures NoBrace(dictName)
  {
  }

  lemma WholeSheet(css: string, out: string)
    requires IsScopedUpTo(css, |css|, out)
    ensures Braces(out) == Braces(css)
  {
    assert Part(css, 0, |css|) == css;
  }

  /** Without another opening brace the rest of the sheet, which is dropped, has no brace. */
  lemma ScopeRest(css: string, dictName: string, i: nat, out: string)
    requires i <= |css| && IsPlainSheet(css, dictName) && IsScopedUpTo(css, i, out)
    requires forall k :: i <= k < |css| ==> css[k] != '{'
    ensures Braces(out) == Braces(css)
  {
    NothingToClose(css, i, |css|);
    SkipPlain(css, i, |css|);
    WholeSheet(css, out);
  }

  /** A block from its opening brace up to the brace that closes it. */
  ghost predicate IsBlock(css: string, bracePos: nat, end: nat) {
    && bracePos + 1 < end <= |css| && css[bracePos] == '{' && css[end - 1] == '}'
    && Depth(css, bracePos) == 0 && Depth(css, end) == 0
    && forall k :: bracePos + 1 <= k < end ==> Depth(css, k) >= 1
  }

  lemma FoundBlock(css: string, dictName: string, i: nat, bracePos: nat, end: nat, out: string)
    requires i <= bracePos < end <= |css| && css[bracePos] == '{' && forall k :: i <= k < bracePos ==> css[k] != '{'
    requires IsPlainSheet(css, dictName) && IsScopedUpTo(css, i, out)
    requires ClosesBlock(css, bracePos + 1, end)
    ensures IsBlock(css, bracePos, end) && IsScopedUpTo(css, bracePos, out) && NoBrace(Part(css, i, bracePos))
  {
    hide Braces, Depth;
    NothingToClose(css, i, bracePos);
    SkipPlain(css, i, bracePos);
  }

  lemma BlockIsPlain(css: string, dictName: string, bracePos: nat, end: nat)
    requires IsPlainSheet(css, dictName) && IsBlock(css, bracePos, end)
    ensures var block := Slice(css, bracePos + 1, end - 1);
            block == Part(css, bracePos + 1, end - 1) && Balanced(block) && NoComment(block)
  {
    assert Depth(css, bracePos + 1) == 1 && Depth(css, end - 1) == 1;
    hide Depth;
    SliceIsBalanced(css, bracePos + 1, end - 1);
    SliceHasNoComment(css, bracePos + 1, end - 1);
  }

  /** The block's own properties and its scoped nested rules have the braces of the block. */
  lemma ScopedBodyBraces(block: string, dictName: string, properties: string, nestedRules: string, nested: string)
    requires Balanced(block) && NoComment(block) && NoBrace(dictName)
    requires Balanced(block) && NoComment(block) ==> IsSplitOf(block, |block|, properties, nestedRules)
    requires IsPlainSheet(nestedRules, dictName) ==> Braces(nested) == Braces(nestedRules)
    ensures Braces(properties + nested) == Braces(block)
  {
    BracesConcat(properties, nested);
    NoBraces(properties);
    assert Part(block, 0, |block|) == block;
  }

  lemma ScopeBlock(css: string, dictName: string, bracePos: nat, end: nat, out: string,
      selectorPart: string, body: string)
    requires NoBrace(dictName) && NoBrace(selectorPart) && IsBlock(css, bracePos, end)
        && IsScopedUpTo(css, bracePos, out)
    requires Braces(body) == Braces(Part(css, bracePos + 1, end - 1))
    ensures IsScopedUpTo(css, end, out + ScopeSelectors(selectorPart, PrefixFor(dictName)) + " {" + body + "}")
  {
    var selectors := ScopeSelectors(selectorPart, PrefixFor(dictName));
    PrefixHasNoBrace(dictName);
    ScopeHasNoBrace(selectorPart, PrefixFor(dictName));
    NoBraces(selectors);
    hide ScopeSelectors, PrefixFor, NoBrace, Depth, Braces, Part;
    FourParts(out, selectors, " {", body, "}");
    Cut(css, bracePos, end);
    BlockParts(css, bracePos, end);
    Literals();
    Regroup(Braces(out), Braces(body));
  }

  lemma Regroup(before: string, inner: string)
    ensures before + "" + "{" + inner + "}" == before + ("{" + inner + "}")
  {
  }

  lemma Literals()
    ensures Braces(" {") == "{" && Braces("{") == "{" && Braces("}") == "}"
  {
    assert Braces(" ") == "" by { NoBraces(" "); }
    BracesSnoc(" ", '{');
    BracesSnoc("", '{');
    BracesSnoc("", '}');
    assert " " + ['{'] == " {" && "" + ['{'] == "{" && "" + ['}'] == "}";
  }

  lemma FourParts(a: string, b: string, c: string, d: string, e: string)
    ensures Braces(a + b + c + d + e) == Braces(a) + Braces(b) + Braces(c) + Braces(d) + Braces(e)
  {
    hide Braces;
    BracesConcat(a, b);
    BracesConcat(a + b, c);
    BracesConcat(a + b + c, d);
    BracesConcat(a + b + c + d, e);
  }

  lemma BlockText(css: string, bracePos: nat, end: nat)
    requires bracePos + 1 < end <= |css| && css[bracePos] == '{' && css[end - 1] == '}'
    ensures Part(css, bracePos, end) == "{" + Part(css, bracePos + 1, end - 1) + "}"
  {
    var p, q := Part(css, bracePos, end), "{" + Part(css, bracePos + 1, end - 1) + "}";
    forall k | 0 <= k < |p| ensures p[k] == q[k] {
      assert p[k] == css[bracePos + k];
    }
  }

  lemma BlockParts(css: string, bracePos: nat, end: nat)
    requires bracePos + 1 < end <= |css| && css[bracePos] == '{' && css[end - 1] == '}'
    ensures Braces(Part(css, bracePos, end)) == "{" + Braces(Part(css, bracePos + 1, end - 1)) + "}"
  {
    var inner := Part(css, bracePos + 1, end - 1);
    BlockText(css, bracePos, end);
    hide Braces, Part;
    BracesConcat("{", inner);
    BracesConcat("{" + inner, "}");
    Literals();
  }

  lemma AppendRule(out: string, selectors: string, body: string)
    ensures out + selectors + " {" + body + "}" == out + (selectors + " {" + body + "}")
  {
  }

  /** One turn of the loop over the rules of a sheet. */
  lemma RuleDone(css: string, dictName: string, i: nat, brace: nat, end: nat, out: string, body: string)
    requires i <= |css| && !(i + 1 < |css| && css[i] == '/' && css[i + 1] == '*') && IsTokenAt(css, dictName, i, out)
    requires brace == IndexOf(css, '{', i) && end == brace + 1 + BlockLength(Rest(css, brace + 1), 1) && end <= |css|
    requires ClosesBlock(css, brace + 1, end)
    requires IsPlainSheet(css, dictName) ==> IsScopedUpTo(css, i, out)
    requires var block := Slice(css, brace + 1, end - 1);
             && body == ScopedBlock(block, dictName)
             && (Balanced(block) && NoComment(block) && NoBrace(dictName) ==> Braces(body) == Braces(block))
    ensures var after := out + ScopeSelectors(Part(css, i, brace), PrefixFor(dictName)) + " {" + body + "}";
            && IsScopedAt(css, dictName, end, after)
            && (IsPlainSheet(css, dictName) ==> IsScopedUpTo(css, end, after))
  {
    hide Depth, Braces, Balanced, NoComment, NoBrace, Part, Slice, Rest, BlockLength, ScopeSelectors, PrefixFor,
        Scoped, ScopedBlock;
    hide ClosesBlock, IsPlainSheet, IsScopedUpTo, IsScopedAt, IsTokenAt, IsBlock;
    RuleToken(css, dictName, i, out);
    AppendRule(out, ScopeSelectors(Part(css, i, brace), PrefixFor(dictName)), body);
    if IsPlainSheet(css, dictName) {
      FoundBlock(css, dictName, i, brace, end, out);
      BlockIsPlain(css, dictName, brace, end);
      NameHasNoBrace(css, dictName);
      ScopeBlock(css, dictName, brace, end, out, Part(css, i, brace), body);
    }
  }

  lemma PlainBlock(block: string, dictName: string)
    ensures '{' !in block ==> ScopedBlock(block, dictName) == block
    ensures '{' in block ==> ScopedBlock(block, dictName) == Properties(block) + Scoped(NestedRules(block), dictName)
    ensures Scoped("", dictName) == ""
  {
    ScopeStart("", dictName);
  }

  /** The body of a rule: copied when no rule is nested in it, otherwise split and scoped. */
  method ScopeContent(blockContent: string, dictName: string) returns (body: string)
    ensures body == ScopedBlock(blockContent, dictName)
    ensures Balanced(blockContent) && NoComment(blockContent) && NoBrace(dictName) ==>
        Braces(body) == Braces(blockContent)
    decreases |blockContent|, 3
  {
    hide IsPlainSheet, Braces, Depth, Balanced, NoComment, NoBrace, IsSplitOf, Scoped, ScopedBlock,
        Properties, NestedRules;
    PlainBlock(blockContent, dictName);
    if '{' !in blockContent {
      return blockContent;
    }
    var properties, nestedRules := SplitBlock(blockContent);
    body := properties;
    ghost var nested := "";
    if nestedRules != "" {
      var scoped := ConstructDictCss(nestedRules, dictName);
      body := body + scoped;
      nested := scoped;
    } else {
      assert body + "" == body;
    }
    if Balanced(blockContent) && NoComment(blockContent) && NoBrace(dictName) {
      ScopedBodyBraces(blockContent, dictName, properties, nestedRules, nested);
    }
  }

  /** `constructDictCss`. The parts that the source pushes are appended to `out` at once. */
  method ConstructDictCss(css: string, dictName: string) returns (out: string)
    ensures out == Scoped(css, dictName)
    ensures IsPlainSheet(css, dictName) ==> Braces(out) == Braces(css)
    decreases |css|, 2
  {
    hide IsPlainSheet, IsScopedUpTo, IsSpace, Braces, Depth, Balanced, NoComment, NoBrace, ScopeSelectors,
        PrefixFor, IsSplitOf, Part;
    hide ClosesBlock, Scoped, ScopedBlock, IsScopedAt, IsTokenAt, IsCopying, SpaceLength, BlockLength, Rest;
    hide IndexOf, IndexOfCommentEnd;
    out := "";
    NothingScoped(css);
    ScopeStart(css, dictName);
    if css == "" {
      return "";
    }
    var prefix := PrefixFor(dictName);
    ghost var good := IsPlainSheet(css, dictName);
    var i := 0;
    while i < |css|
      invariant 0 <= i <= |css|
      invariant IsScopedAt(css, dictName, i, out)
      invariant good ==> IsScopedUpTo(css, i, out)
      decreases |css| - i
    {
      ghost var start, before := i, out;
      CopyStart(css, start, out);
      while i < |css| && IsSpace(css[i])
        invariant start <= i <= |css|
        invariant IsCopying(css, start, i, before, out)
        invariant good ==> IsScopedUpTo(css, i, out)
      {
        if good { ScopeSpace(css, i, out); }
        CopySpace(css, start, i, before, out);
        out := out + [css[i]];
        i := i + 1;
      }
      AfterSpaces(css, dictName, start, i, before, out);
      if i + 1 < |css| && css[i] == '/' && css[i + 1] == '*' {
        var end := IndexOfCommentEnd(css, i + 2);
        CommentToken(css, dictName, i, out);
        if good { ThereIsNoComment(css, dictName, i); }
        if end == -1 {
          return;
        }
        out := out + Slice(css, i, end + 2);
        i := end + 2;
        continue;
      }
      var bracePos := IndexOf(css, '{', i);
      if bracePos == -1 {
        RuleToken(css, dictName, i, out);
        if good { ScopeRest(css, dictName, i, out); }
        return;
      }
      var selectorPart := Part(css, i, bracePos);
      var selectors := ScopeSelectors(selectorPart, prefix);
      var blockStart := bracePos + 1;
      var blockEnd := BlockEnd(css, blockStart);
      var blockContent := Slice(css, blockStart, blockEnd - 1);
      var body := ScopeContent(blockContent, dictName);
      RuleDone(css, dictName, i, bracePos, blockEnd, out, body);
      out := out + selectors + " {";
      out := out + body;
      out := out + "}";
      i := blockEnd;
    }
    ScopeEnd(css, dictName, out);
    if good { WholeSheet(css, out); }
  }
}
