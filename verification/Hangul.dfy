/** Hangul decomposition and composition over compatibility jamo.

    A text is a sequence of UTF-16 code units. `Disassemble` takes every unit apart
    into basic jamo. `Assembler.Assemble` is the six-stage machine that puts them back
    together; it is proved against `Reassemble`, a two-rule tokenizer, and what the
    library promises is proved about that tokenizer. */
module Hangul {
  import opened Utf16

  const HANGUL_OFFSET := 44032

  // ---------------------------------------------------------------- tables

  /** CHO, and COMPLETE_CHO: the nineteen leading consonants. */
  function Cho(i: int): CodeUnit
    requires 0 <= i < 19
  {
    match i
    case 0 => 0x3131 case 1 => 0x3132 case 2 => 0x3134 case 3 => 0x3137
    case 4 => 0x3138 case 5 => 0x3139 case 6 => 0x3141 case 7 => 0x3142
    case 8 => 0x3143 case 9 => 0x3145 case 10 => 0x3146 case 11 => 0x3147
    case 12 => 0x3148 case 13 => 0x3149 case 14 => 0x314A case 15 => 0x314B
    case 16 => 0x314C case 17 => 0x314D case _ => 0x314E
  }

  /** CHO_HASH, with -1 for an absent key. Every hash also holds the key 0. */
  function ChoHash(c: int): (i: int)
    ensures -1 <= i < 19
  {
    match c
    case 0 => 0
    case 0x3131 => 0 case 0x3132 => 1 case 0x3134 => 2 case 0x3137 => 3
    case 0x3138 => 4 case 0x3139 => 5 case 0x3141 => 6 case 0x3142 => 7
    case 0x3143 => 8 case 0x3145 => 9 case 0x3146 => 10 case 0x3147 => 11
    case 0x3148 => 12 case 0x3149 => 13 case 0x314A => 14 case 0x314B => 15
    case 0x314C => 16 case 0x314D => 17 case 0x314E => 18
    case _ => -1
  }

  /** JUNG: the twenty-one vowels, seven of them written as two basic ones. */
  function Jung(i: int): seq<CodeUnit>
    requires 0 <= i < 21
  {
    match i
    case 9 => [0x3157, 0x314F] case 10 => [0x3157, 0x3150] case 11 => [0x3157, 0x3163]
    case 14 => [0x315C, 0x3153] case 15 => [0x315C, 0x3154] case 16 => [0x315C, 0x3163]
    case 19 => [0x3161, 0x3163]
    case _ => [0x314F + i]
  }

  /** JUNG_HASH: COMPLETE_JUNG is the contiguous range U+314F to U+3163. */
  function JungHash(c: int): (i: int)
    ensures -1 <= i < 21
  {
    if c == 0 then 0 else if 0x314F <= c <= 0x3163 then c - 0x314F else -1
  }

  /** JONG: entry 0 is the empty string, eleven entries are clusters. */
  function Jong(i: int): seq<CodeUnit>
    requires 0 <= i < 28
  {
    match i
    case 0 => []
    case 1 => [0x3131] case 2 => [0x3132] case 3 => [0x3131, 0x3145] case 4 => [0x3134]
    case 5 => [0x3134, 0x3148] case 6 => [0x3134, 0x314E] case 7 => [0x3137] case 8 => [0x3139]
    case 9 => [0x3139, 0x3131] case 10 => [0x3139, 0x3141] case 11 => [0x3139, 0x3142]
    case 12 => [0x3139, 0x3145] case 13 => [0x3139, 0x314C] case 14 => [0x3139, 0x314D]
    case 15 => [0x3139, 0x314E] case 16 => [0x3141] case 17 => [0x3142] case 18 => [0x3142, 0x3145]
    case 19 => [0x3145] case 20 => [0x3146] case 21 => [0x3147] case 22 => [0x3148]
    case 23 => [0x314A] case 24 => [0x314B] case 25 => [0x314C] case 26 => [0x314D]
    case _ => [0x314E]
  }

  /** JONG_HASH, built from COMPLETE_JONG. */
  function JongHash(c: int): (i: int)
    ensures -1 <= i < 28
  {
    match c
    case 0 => 0
    case 0x3131 => 1 case 0x3132 => 2 case 0x3133 => 3 case 0x3134 => 4 case 0x3135 => 5
    case 0x3136 => 6 case 0x3137 => 7 case 0x3139 => 8 case 0x313A => 9 case 0x313B => 10
    case 0x313C => 11 case 0x313D => 12 case 0x313E => 13 case 0x313F => 14 case 0x3140 => 15
    case 0x3141 => 16 case 0x3142 => 17 case 0x3144 => 18 case 0x3145 => 19 case 0x3146 => 20
    case 0x3147 => 21 case 0x3148 => 22 case 0x314A => 23 case 0x314B => 24 case 0x314C => 25
    case 0x314D => 26 case 0x314E => 27
    case _ => -1
  }

  /** COMPLEX_VOWELS_HASH[a][b], or 0 where the lookup is falsy. */
  function JungJoin(a: int, b: int): CodeUnit {
    match (a, b)
    case (0x3157, 0x314F) => 0x3158 case (0x3157, 0x3150) => 0x3159 case (0x3157, 0x3163) => 0x315A
    case (0x315C, 0x3153) => 0x315D case (0x315C, 0x3154) => 0x315E case (0x315C, 0x3163) => 0x315F
    case (0x3161, 0x3163) => 0x3162
    case _ => 0
  }

  /** COMPLEX_CONSONANTS_HASH[a][b], or 0 where the lookup is falsy. */
  function JongJoin(a: int, b: int): CodeUnit {
    match (a, b)
    case (0x3131, 0x3145) => 0x3133 case (0x3134, 0x3148) => 0x3135 case (0x3134, 0x314E) => 0x3136
    case (0x3139, 0x3131) => 0x313A case (0x3139, 0x3141) => 0x313B case (0x3139, 0x3142) => 0x313C
    case (0x3139, 0x3145) => 0x313D case (0x3139, 0x314C) => 0x313E case (0x3139, 0x314D) => 0x313F
    case (0x3139, 0x314E) => 0x3140 case (0x3142, 0x3145) => 0x3144
    case _ => 0
  }

  predicate IsConsonant(c: int) { c == 0 || 0x3131 <= c <= 0x314E }
  predicate IsCho(c: int) { ChoHash(c) != -1 }
  predicate IsJung(c: int) { JungHash(c) != -1 }
  predicate IsJong(c: int) { JongHash(c) != -1 }
  predicate IsHangul(c: int) { 44032 <= c <= 55203 }
  predicate IsJamo(c: int) { IsCho(c) || IsJung(c) || IsJong(c) }

  // ---------------------------------------------------------------- disassembly

  /** What one code unit contributes to `disassemble`. */
  function Parts(c: CodeUnit): (parts: seq<CodeUnit>)
    ensures 1 <= |parts| <= 5
  {
    if IsHangul(c) then
      var code := c - HANGUL_OFFSET;
      var jong := code % 28;
      var jung := (code - jong) / 28 % 21;
      var cho := (code - jong) / 28 / 21;
      [Cho(cho)] + Jung(jung) + (if jong > 0 then Jong(jong) else [])
    else if IsConsonant(c) then
      if IsCho(c) then [Cho(ChoHash(c))] else Jong(JongHash(c))
    else if IsJung(c) then Jung(JungHash(c))
    else [c]
  }

  function Disassemble(s: seq<CodeUnit>): seq<CodeUnit> {
    if s == [] then [] else Disassemble(s[..|s| - 1]) + Parts(s[|s| - 1])
  }

  predicate IsComplexVowel(c: int) {
    0x3158 <= c <= 0x315A || 0x315D <= c <= 0x315F || c == 0x3162
  }

  /** A unit that disassembly leaves alone (see BasicParts): the only ones `assemble` ever sees. */
  predicate Basic(c: int) {
    c != 0 && !IsHangul(c) && (IsConsonant(c) ==> IsCho(c)) && !IsComplexVowel(c)
  }

  predicate AllBasic(a: seq<CodeUnit>) { forall i :: 0 <= i < |a| ==> Basic(a[i]) }

  lemma BasicParts(c: CodeUnit)
    ensures Basic(c) <==> Parts(c) == [c]
  {
    if IsHangul(c) {
    } else if IsConsonant(c) {
    } else if IsJung(c) {
    }
  }

  lemma TablesAreBasic(cho: int, jung: int, jong: int)
    requires 0 <= cho < 19 && 0 <= jung < 21 && 0 <= jong < 28
    ensures Basic(Cho(cho)) && AllBasic(Jung(jung)) && AllBasic(Jong(jong))
  {
  }

  lemma PartsAreBasic(c: CodeUnit)
    ensures AllBasic(Parts(c))
  {
    hide Cho, Jung, Jong;
    if IsHangul(c) {
      var code := c - HANGUL_OFFSET;
      var jong := code % 28;
      TablesAreBasic((code - jong) / 28 / 21, (code - jong) / 28 % 21, jong);
    } else if IsConsonant(c) {
      TablesAreBasic(if IsCho(c) then ChoHash(c) else 0, 0, if IsJong(c) then JongHash(c) else 0);
    } else if IsJung(c) {
      TablesAreBasic(0, JungHash(c), 0);
    }
  }

  lemma {:induction false} DisassembledIsBasic(s: seq<CodeUnit>)
    ensures AllBasic(Disassemble(s))
  {
    if s != [] {
      DisassembledIsBasic(s[..|s| - 1]);
      PartsAreBasic(s[|s| - 1]);
    }
  }

  lemma DisassembleNext(text: seq<CodeUnit>, i: nat)
    requires i < |text|
    ensures Disassemble(text[..i + 1]) == Disassemble(text[..i]) + Parts(text[i])
  {
    hide Parts;
    assert text[..i + 1][..i] == text[..i];
  }

  /** The jamo of one code unit, collected in `temp`. */
  method DisassembleUnit(code: CodeUnit) returns (temp: seq<CodeUnit>)
    ensures temp == Parts(code)
  {
    hide Cho, Jung, Jong;
    temp := [];
    if IsHangul(code) {
      var offset := code - HANGUL_OFFSET;
      var jong := offset % 28;
      var jung := (offset - jong) / 28 % 21;
      var cho := (offset - jong) / 28 / 21;
      temp := temp + [Cho(cho)];
      temp := temp + Jung(jung);
      if jong > 0 {
        temp := temp + Jong(jong);
      }
    } else if IsConsonant(code) {
      temp := temp + if IsCho(code) then [Cho(ChoHash(code))] else Jong(JongHash(code));
    } else if IsJung(code) {
      temp := temp + Jung(JungHash(code));
    } else {
      temp := temp + [code];
    }
  }

  /** The loop of `disassemble` (ungrouped). */
  method DisassembleText(text: seq<CodeUnit>) returns (result: seq<CodeUnit>)
    ensures result == Disassemble(text)
  {
    assert Disassemble(text[..0]) == [];
    hide Parts, Disassemble;
    result := [];
    var i := 0;
    while i < |text|
      invariant 0 <= i <= |text|
      invariant result == Disassemble(text[..i])
    {
      var temp := DisassembleUnit(text[i]);
      result := result + temp;
      DisassembleNext(text, i);
      i := i + 1;
    }
    assert text[..i] == text;
  }

  // ---------------------------------------------------------------- groups

  /** How many units the vowel of `g` takes: two when they join. */
  function VowelLength(g: seq<CodeUnit>): int {
    if |g| >= 3 && JungJoin(g[1], g[2]) != 0 then 2 else 1
  }

  /** A leading consonant, a vowel and at most one final, each possibly written as two units. */
  predicate IsSyllableGroup(g: seq<CodeUnit>) {
    && |g| >= 2 && IsCho(g[0]) && IsJung(g[1])
    && var final := 1 + VowelLength(g);
       || |g| == final
       || (|g| == final + 1 && IsJong(g[final]))
       || (|g| == final + 2 && JongJoin(g[final], g[final + 1]) != 0)
  }

  /** The unit sequences that are written as one code unit. */
  predicate IsGroup(g: seq<CodeUnit>) {
    || |g| == 1
    || (|g| == 2 && (JongJoin(g[0], g[1]) != 0 || JungJoin(g[0], g[1]) != 0))
    || IsSyllableGroup(g)
  }

  function Syllable(cho: int, jung: int, jong: int): CodeUnit
    requires IsCho(cho) && IsJung(jung) && IsJong(jong)
  {
    (ChoHash(cho) * 21 + JungHash(jung)) * 28 + JongHash(jong) + HANGUL_OFFSET
  }

  function Vowel(g: seq<CodeUnit>): CodeUnit
    requires |g| >= 2
  {
    if VowelLength(g) == 2 then JungJoin(g[1], g[2]) else g[1]
  }

  function Final(g: seq<CodeUnit>): CodeUnit
    requires |g| >= 2
  {
    var final := 1 + VowelLength(g);
    if |g| == final + 1 then g[final]
    else if |g| == final + 2 then JongJoin(g[final], g[final + 1])
    else 0
  }

  lemma VowelAndFinal(g: seq<CodeUnit>)
    requires IsSyllableGroup(g)
    ensures IsJung(Vowel(g)) && IsJong(Final(g))
  {
  }

  function Compose(g: seq<CodeUnit>): CodeUnit
    requires IsGroup(g)
  {
    if |g| == 1 then g[0]
    else if IsSyllableGroup(g) then
      VowelAndFinal(g);
      Syllable(g[0], Vowel(g), Final(g))
    else if JongJoin(g[0], g[1]) != 0 then JongJoin(g[0], g[1])
    else JungJoin(g[0], g[1])
  }

  lemma SyllableParts(cho: int, jung: int, jong: int)
    requires IsCho(cho) && IsJung(jung) && IsJong(jong)
    ensures Parts(Syllable(cho, jung, jong))
         == [Cho(ChoHash(cho))] + Jung(JungHash(jung)) + Jong(JongHash(jong))
  {
    var x, y, z := ChoHash(cho), JungHash(jung), JongHash(jong);
    var code := (x * 21 + y) * 28 + z;
    hide Cho, Jung, Jong, ChoHash, JungHash, JongHash;
    assert code % 28 == z;
    assert (code - z) / 28 == x * 21 + y;
    assert (x * 21 + y) % 21 == y && (x * 21 + y) / 21 == x;
    NoFinal();
    assert Jong(0) == [];
  }

  /** Every table entry is spelled by the units its hash key stands for. */
  lemma BasicSpelling(c: CodeUnit)
    requires Basic(c)
    ensures IsCho(c) ==> Cho(ChoHash(c)) == c
    ensures IsJung(c) ==> Jung(JungHash(c)) == [c]
    ensures IsJong(c) ==> Jong(JongHash(c)) == [c]
  {
  }

  lemma JungSpelling(a: CodeUnit, b: CodeUnit)
    requires JungJoin(a, b) != 0
    ensures IsJung(JungJoin(a, b)) && Jung(JungHash(JungJoin(a, b))) == [a, b]
    ensures Parts(JungJoin(a, b)) == [a, b] && IsJung(a) && IsJung(b)
  {
  }

  lemma JongSpelling(a: CodeUnit, b: CodeUnit)
    requires JongJoin(a, b) != 0
    ensures IsJong(JongJoin(a, b)) && Jong(JongHash(JongJoin(a, b))) == [a, b]
    ensures Parts(JongJoin(a, b)) == [a, b] && IsCho(a) && IsJong(a) && IsCho(b) && IsJong(b)
  {
  }

  /** Composition is undone by disassembly. */
  lemma ComposeParts(g: seq<CodeUnit>)
    requires IsGroup(g) && AllBasic(g)
    ensures Parts(Compose(g)) == g
  {
    hide Cho, Jung, Jong, ChoHash, JungHash, JongHash, JungJoin, JongJoin, Basic, Parts, Syllable;
    if |g| == 1 {
      BasicParts(g[0]);
    } else if IsSyllableGroup(g) {
      SyllableGroupParts(g);
    } else if JongJoin(g[0], g[1]) != 0 {
      JongSpelling(g[0], g[1]);
    } else {
      JungSpelling(g[0], g[1]);
    }
  }

  lemma SyllableGroupParts(g: seq<CodeUnit>)
    requires IsSyllableGroup(g) && AllBasic(g)
    ensures IsJung(Vowel(g)) && IsJong(Final(g))
    ensures Parts(Syllable(g[0], Vowel(g), Final(g))) == g
  {
    hide Cho, Jung, Jong, ChoHash, JungHash, JongHash, JungJoin, JongJoin, Basic, Parts, Syllable;
    var final := 1 + VowelLength(g);
    BasicSpelling(g[0]);
    if final == 3 { JungSpelling(g[1], g[2]); } else { BasicSpelling(g[1]); }
    NoFinal();
    if |g| == final + 1 { BasicSpelling(g[final]); }
    if |g| == final + 2 { JongSpelling(g[final], g[final + 1]); }
    assert Jung(JungHash(Vowel(g))) == g[1..final];
    assert Jong(JongHash(Final(g))) == g[final..];
    SyllableParts(g[0], Vowel(g), Final(g));
  }

  lemma NoFinal()
    ensures IsJong(0) && JongHash(0) == 0 && Jong(0) == []
  {
  }

  // ---------------------------------------------------------------- the reference tokenizer

  /** Finished code units, and the group still being read. */
  datatype Tokens = Tokens(out: seq<CodeUnit>, pending: seq<CodeUnit>)

  function Flush(g: seq<CodeUnit>): seq<CodeUnit>
    requires g == [] || IsGroup(g)
  {
    if g == [] then [] else [Compose(g)]
  }

  /** A group that a further unit may still change. */
  predicate IsOpen(g: seq<CodeUnit>) {
    && (g == [] || IsGroup(g))
    && (forall i :: 0 <= i < |g| ==> IsJamo(g[i]) && Basic(g[i]))
    && !(|g| == 2 && JungJoin(g[0], g[1]) != 0)
  }

  /** A group grows for as long as it stays a group, except that a vowel takes the last
      consonant with it; two joined vowels close at once. */
  function Feed(t: Tokens, c: CodeUnit): (t': Tokens)
    requires IsOpen(t.pending) && Basic(c)
    ensures IsOpen(t'.pending)
  {
    var g := t.pending;
    if !IsJamo(c) then Tokens(t.out + Flush(g) + [c], [])
    else if IsJung(c) && g != [] && IsCho(g[|g| - 1]) then
      SplitOpen(g, c);
      Tokens(t.out + Flush(g[..|g| - 1]), [g[|g| - 1], c])
    else if IsGroup(g + [c]) then
      if |g| == 1 && JungJoin(g[0], c) != 0 then Tokens(t.out + [Compose(g + [c])], [])
      else Tokens(t.out, g + [c])
    else Tokens(t.out + Flush(g), [c])
  }

  /** Without its last final a syllable is still one. */
  lemma ShorterSyllable(g: seq<CodeUnit>)
    requires IsSyllableGroup(g) && |g| > 2 && IsCho(g[|g| - 1])
    ensures IsSyllableGroup(g[..|g| - 1])
  {
    var n := |g|;
    JoinKinds(g[1], g[2], 0);
    JoinKinds(g[n - 2], g[n - 1], 0);
    if JongJoin(g[n - 2], g[n - 1]) != 0 { JongSpelling(g[n - 2], g[n - 1]); }
    JamoAreApart(g[n - 1]);
    hide ChoHash, JungHash, JongHash, JungJoin, JongJoin, IsCho, IsJung, IsJong;
  }

  lemma JamoAreApart(c: int)
    ensures c != 0 && IsCho(c) ==> !IsJung(c)
  {
  }

  lemma SplitOpen(g: seq<CodeUnit>, c: CodeUnit)
    requires IsOpen(g) && g != [] && IsCho(g[|g| - 1]) && IsJung(c) && Basic(c)
    ensures IsOpen(g[..|g| - 1]) && IsOpen([g[|g| - 1], c])
  {
    var n, h := |g| - 1, g[..|g| - 1];
    JoinKinds(g[n], c, 0);
    hide ChoHash, JungHash, JongHash, JungJoin, JongJoin, IsCho, IsJung, IsJong, Basic, Compose;
    if n > 1 {
      ShorterSyllable(g);
      if n == 2 { JoinKinds(g[0], g[1], 0); }
    }
  }

  function FeedAll(t: Tokens, a: seq<CodeUnit>): (t': Tokens)
    requires IsOpen(t.pending) && AllBasic(a)
    ensures IsOpen(t'.pending)
  {
    if a == [] then t else Feed(FeedAll(t, a[..|a| - 1]), a[|a| - 1])
  }

  lemma FeedNothing(t: Tokens)
    requires IsOpen(t.pending)
    ensures FeedAll(t, []) == t
  {
  }

  lemma FeedAllSnoc(t: Tokens, a: seq<CodeUnit>, c: CodeUnit)
    requires IsOpen(t.pending) && AllBasic(a) && Basic(c)
    ensures AllBasic(a + [c]) && FeedAll(t, a + [c]) == Feed(FeedAll(t, a), c)
  {
    assert (a + [c])[..|a|] == a;
  }

  /** The text that a sequence of basic units spells. */
  function Reassemble(a: seq<CodeUnit>): seq<CodeUnit>
    requires AllBasic(a)
  {
    var t := FeedAll(Tokens([], []), a);
    t.out + Flush(t.pending)
  }

  // ---------------------------------------------------------------- no jamo is lost

  lemma DisassembleSnoc(s: seq<CodeUnit>, c: CodeUnit)
    ensures Disassemble(s + [c]) == Disassemble(s) + Parts(c)
  {
    assert (s + [c])[..|s|] == s;
  }

  lemma DisassembleFlush(out: seq<CodeUnit>, g: seq<CodeUnit>)
    requires g == [] || (IsGroup(g) && AllBasic(g))
    ensures Disassemble(out + Flush(g)) == Disassemble(out) + g
  {
    hide IsGroup, Basic, Parts, Compose;
    if g == [] {
      assert out + Flush(g) == out;
    } else {
      DisassembleSnoc(out, Compose(g));
      ComposeParts(g);
    }
  }

  lemma FeedKeepsUnits(t: Tokens, c: CodeUnit)
    requires IsOpen(t.pending) && Basic(c)
    ensures var t' := Feed(t, c);
            Disassemble(t'.out) + t'.pending == Disassemble(t.out) + t.pending + [c]
  {
    hide IsGroup, Basic, Parts, Compose, IsJamo, IsCho, IsJung, JungJoin, Disassemble;
    var g := t.pending;
    DisassembleFlush(t.out, g);
    if !IsJamo(c) {
      BasicParts(c);
      DisassembleSnoc(t.out + Flush(g), c);
      assert Disassemble(t.out + Flush(g) + [c]) == Disassemble(t.out) + g + [c];
    } else if IsJung(c) && g != [] && IsCho(g[|g| - 1]) {
      SplitOpen(g, c);
      DisassembleFlush(t.out, g[..|g| - 1]);
      assert g == g[..|g| - 1] + [g[|g| - 1]];
    } else if IsGroup(g + [c]) {
      if |g| == 1 && JungJoin(g[0], c) != 0 {
        DisassembleFlush(t.out, g + [c]);
        assert t.out + Flush(g + [c]) == t.out + [Compose(g + [c])];
      }
    }
  }

  lemma {:induction false} FeedAllKeepsUnits(t: Tokens, a: seq<CodeUnit>)
    requires IsOpen(t.pending) && AllBasic(a)
    ensures var t' := FeedAll(t, a);
            Disassemble(t'.out) + t'.pending == Disassemble(t.out) + t.pending + a
  {
    hide Feed, FeedAll, Basic, Disassemble, IsOpen;
    if a == [] {
      FeedNothing(t);
    } else {
      var b, c := a[..|a| - 1], a[|a| - 1];
      FeedAllKeepsUnits(t, b);
      assert a == b + [c];
      FeedAllSnoc(t, b, c);
      FeedKeepsUnits(FeedAll(t, b), c);
    }
  }

  /** Reassembly never loses, duplicates or reorders a jamo. */
  lemma ReassembleKeepsUnits(a: seq<CodeUnit>)
    requires AllBasic(a)
    ensures Disassemble(Reassemble(a)) == a
  {
    var t := FeedAll(Tokens([], []), a);
    FeedAllKeepsUnits(Tokens([], []), a);
    DisassembleFlush(t.out, t.pending);
  }

  /** For every string: disassemble(assemble(s)) = disassemble(s). */
  lemma AssembleKeepsJamo(s: seq<CodeUnit>)
    ensures AllBasic(Disassemble(s))
    ensures Disassemble(Reassemble(Disassemble(s))) == Disassemble(s)
  {
    DisassembledIsBasic(s);
    ReassembleKeepsUnits(Disassemble(s));
  }

  /** Assembling twice changes nothing more. */
  lemma AssembleIsIdempotent(s: seq<CodeUnit>)
    ensures AllBasic(Disassemble(s))
    ensures AllBasic(Disassemble(Reassemble(Disassemble(s))))
    ensures var once := Reassemble(Disassemble(s)); Reassemble(Disassemble(once)) == once
  {
    AssembleKeepsJamo(s);
  }

  // ---------------------------------------------------------------- whole syllables survive

  /** What `_makeHangul` can write. */
  predicate Writable(g: seq<CodeUnit>) { g == [] || (IsGroup(g) && AllBasic(g)) }

  lemma FeedPlain(t: Tokens, c: CodeUnit)
    requires IsOpen(t.pending) && Basic(c) && !IsJamo(c)
    ensures Writable([c]) && Writable(t.pending) && Flush([c]) == [c]
    ensures Feed(t, c) == Tokens(t.out + Flush(t.pending) + Flush([c]), [])
  {
  }

  /** A code unit that one `assemble` pass writes back as it was. */
  predicate IsWhole(c: CodeUnit) { IsHangul(c) || (c != 0 && !IsConsonant(c) && !IsJung(c)) }

  lemma HangulGroup(c: CodeUnit)
    requires IsHangul(c)
    ensures var g := Parts(c);
            IsSyllableGroup(g) && IsOpen(g) && Compose(g) == c && IsCho(g[0])
  {
    hide Cho, Jung, Jong, Basic, ChoHash, JungHash, JongHash, JungJoin, JongJoin;
    PartsAreBasic(c);
    var code := c - HANGUL_OFFSET;
    var jong := code % 28;
    var jung := (code - jong) / 28 % 21;
    var cho := (code - jong) / 28 / 21;
    SpelledGroup(cho, jung, jong);
    SpelledJamo(cho, jung, jong);
    assert Parts(c) == Spell(cho, jung, jong);
    assert code == (cho * 21 + jung) * 28 + jong;
  }

  function Spell(cho: int, jung: int, jong: int): seq<CodeUnit>
    requires 0 <= cho < 19 && 0 <= jung < 21 && 0 <= jong < 28
  {
    [Cho(cho)] + Jung(jung) + (if jong > 0 then Jong(jong) else [])
  }

  lemma SpelledGroup(cho: int, jung: int, jong: int)
    requires 0 <= cho < 19 && 0 <= jung < 21 && 0 <= jong < 28
    ensures var g := Spell(cho, jung, jong);
            && IsSyllableGroup(g) && IsCho(g[0])
            && ChoHash(g[0]) == cho && JungHash(Vowel(g)) == jung && JongHash(Final(g)) == jong
  {
    hide Cho, Jung, Jong, ChoHash, JungHash, JongHash, JungJoin, JongJoin;
    ChoTable(cho);
    JungTable(jung, jong);
    JongTable(jong);
  }

  lemma SpelledJamo(cho: int, jung: int, jong: int)
    requires 0 <= cho < 19 && 0 <= jung < 21 && 0 <= jong < 28
    ensures var g := Spell(cho, jung, jong);
            JungJoin(g[0], g[1]) == 0 && forall i :: 0 <= i < |g| ==> IsJamo(g[i])
  {
    hide Cho, Jung, Jong, ChoHash, JungHash, JongHash, JungJoin, JongJoin;
    ChoTable(cho);
    JungTable(jung, jong);
    JongTable(jong);
    var v, f := Jung(jung), Jong(jong);
    JoinKinds(v[0], v[|v| - 1], 0);
    JoinKinds(Cho(cho), v[0], 0);
    TableKinds(cho);
    if |f| == 2 { JoinKinds(f[0], f[1], 0); }
  }

  lemma TableKinds(i: int)
    requires 0 <= i < 19
    ensures !IsJung(Cho(i))
  {
  }

  lemma ChoTable(i: int)
    requires 0 <= i < 19
    ensures ChoHash(Cho(i)) == i
  {
  }

  /** A vowel is one unit, or two that join, and never joins a final. */
  lemma JungTable(i: int, jong: int)
    requires 0 <= i < 21 && 0 <= jong < 28
    ensures var v := Jung(i);
            && IsJung(v[0])
            && ((|v| == 1 && JungHash(v[0]) == i
                 && (jong > 0 ==> JungJoin(v[0], Jong(jong)[0]) == 0))
                || (|v| == 2 && JungJoin(v[0], v[1]) != 0 && JungHash(JungJoin(v[0], v[1])) == i))
  {
  }

  lemma JongTable(i: int)
    requires 0 <= i < 28
    ensures JongHash(0) == 0 && (i > 0 <==> |Jong(i)| > 0)
    ensures i > 0 ==> IsJong(Jong(i)[0])
    ensures i > 0 ==> var f := Jong(i);
            || (|f| == 1 && JongHash(f[0]) == i)
            || (|f| == 2 && JongJoin(f[0], f[1]) != 0 && JongHash(JongJoin(f[0], f[1])) == i)
  {
  }

  lemma SyllableGroupPrefix(g: seq<CodeUnit>, k: int)
    requires IsSyllableGroup(g) && AllBasic(g) && 2 <= k < |g|
    ensures IsSyllableGroup(g[..k]) && IsGroup(g[..k] + [g[k]]) && g[..k] + [g[k]] == g[..k + 1]
    ensures !(IsJung(g[k]) && IsCho(g[k - 1]))
  {
    JoinKinds(g[1], g[2], 0);
    JoinKinds(g[k - 1], g[k], 0);
    if JongJoin(g[k - 1], g[k]) != 0 { JongSpelling(g[k - 1], g[k]); }
    FinalsAreConsonants(g[k]);
    hide ChoHash, JungHash, JongHash, JungJoin, JongJoin, IsCho, IsJung, IsJong, Basic;
    SyllableVowelIsNotCho(g);
    assert g[..k] + [g[k]] == g[..k + 1];
  }

  lemma FinalsAreConsonants(c: CodeUnit)
    ensures c != 0 && IsJong(c) ==> !IsJung(c)
  {
  }

  lemma SyllableVowelIsNotCho(g: seq<CodeUnit>)
    requires IsSyllableGroup(g) && AllBasic(g)
    ensures !IsCho(g[1]) && forall i :: 0 <= i < |g| ==> g[i] != 0
  {
    JamoAreApart(g[1]);
    hide ChoHash, JungHash, IsCho, IsJung;
  }

  /** A consonant joins the pending group or starts the next one. */
  lemma FeedConsonant(t: Tokens, c: CodeUnit)
    requires IsOpen(t.pending) && Basic(c) && IsJamo(c) && !IsJung(c)
    ensures IsGroup(t.pending + [c]) || (t.pending != [] && IsGroup(t.pending))
    ensures Feed(t, c) == if IsGroup(t.pending + [c]) then Tokens(t.out, t.pending + [c])
        else Tokens(t.out + Flush(t.pending), [c])
  {
    if |t.pending| == 1 { JoinKinds(t.pending[0], c, 0); }
    hide Compose, IsCho, IsJung, IsJong, JungJoin, JongJoin, Basic, IsSyllableGroup;
  }

  /** A vowel takes the consonant in front of it. */
  lemma FeedVowel(t: Tokens, v: CodeUnit)
    requires IsOpen(t.pending) && t.pending != [] && IsCho(t.pending[|t.pending| - 1]) && Basic(v) && IsJung(v)
    ensures var n := |t.pending| - 1;
            IsOpen(t.pending[..n]) && Feed(t, v) == Tokens(t.out + Flush(t.pending[..n]), [t.pending[n], v])
  {
    hide Compose, IsCho, IsJung, IsJong, JungJoin, JongJoin, Basic, IsSyllableGroup;
    SplitOpen(t.pending, v);
    hide IsGroup, IsOpen;
  }

  lemma FlushNothing(out: seq<CodeUnit>)
    ensures out + Flush([]) == out
  {
  }

  /** The first two units of a syllable start a new group, whatever was joined before them. */
  lemma FeedStart(t: Tokens, a: CodeUnit, v: CodeUnit)
    requires IsOpen(t.pending) && Basic(a) && Basic(v) && IsCho(a) && IsJung(v)
    ensures Feed(Feed(t, a), v) == Tokens(t.out + Flush(t.pending), [a, v])
  {
    JamoKinds(a);
    hide Compose, IsCho, IsJung, IsJong, Basic, IsGroup, IsOpen, Flush, Feed;
    FeedConsonant(t, a);
    var u := Feed(t, a);
    FeedVowel(u, v);
    if u.pending == t.pending + [a] {
      assert u.pending[..|u.pending| - 1] == t.pending;
    } else {
      assert u.pending[..0] == [];
      FlushNothing(u.out);
    }
  }

  lemma FeedGrow(out: seq<CodeUnit>, h: seq<CodeUnit>, c: CodeUnit)
    requires IsOpen(h) && |h| >= 2 && Basic(c) && IsJamo(c) && IsGroup(h + [c])
    requires !(IsJung(c) && IsCho(h[|h| - 1]))
    ensures Feed(Tokens(out, h), c) == Tokens(out, h + [c])
  {
    hide IsGroup, Compose, Basic, IsJamo, IsCho, IsJung, JungJoin, IsOpen;
  }

  lemma {:induction false} FeedSyllable(t: Tokens, g: seq<CodeUnit>, k: int)
    requires IsOpen(t.pending) && IsSyllableGroup(g) && IsOpen(g) && IsCho(g[0]) && 2 <= k <= |g|
    ensures AllBasic(g[..k])
    ensures FeedAll(t, g[..k]) == Tokens(t.out + Flush(t.pending), g[..k])
  {
    hide IsGroup, Compose, Basic, IsJamo, IsCho, IsJung, JungJoin, JongJoin, IsJong, Feed, FeedAll;
    var h := g[..k - 1];
    assert g[..k] == h + [g[k - 1]];
    FeedAllSnoc(t, h, g[k - 1]);
    if k == 2 {
      assert h == [] + [g[0]];
      FeedNothing(t);
      FeedAllSnoc(t, [], g[0]);
      FeedStart(t, g[0], g[1]);
    } else {
      FeedSyllable(t, g, k - 1);
      SyllableGroupPrefix(g, k - 1);
      FeedGrow(t.out + Flush(t.pending), h, g[k - 1]);
    }
  }

  lemma {:induction false} FeedAllAppend(t: Tokens, a: seq<CodeUnit>, b: seq<CodeUnit>)
    requires IsOpen(t.pending) && AllBasic(a) && AllBasic(b)
    ensures AllBasic(a + b) && FeedAll(t, a + b) == FeedAll(FeedAll(t, a), b)
  {
    if b == [] {
      assert a + b == a;
    } else {
      var c := b[..|b| - 1];
      FeedAllAppend(t, a, c);
      assert (a + b)[..|a + b| - 1] == a + c;
    }
  }

  lemma {:induction false} FeedWhole(s: seq<CodeUnit>)
    requires forall i :: 0 <= i < |s| ==> IsWhole(s[i])
    ensures AllBasic(Disassemble(s))
    ensures var t := FeedAll(Tokens([], []), Disassemble(s));
            && (t.pending == [] || IsSyllableGroup(t.pending))
            && t.out + Flush(t.pending) == s
  {
    hide IsSyllableGroup, IsGroup, Compose, Basic, IsJamo, Parts, FeedAll, Feed, IsWhole;
    DisassembledIsBasic(s);
    FeedNothing(Tokens([], []));
    if s != [] {
      var r, c := s[..|s| - 1], s[|s| - 1];
      FeedWhole(r);
      DisassembledIsBasic(r);
      PartsAreBasic(c);
      var t := FeedAll(Tokens([], []), Disassemble(r));
      FeedAllAppend(Tokens([], []), Disassemble(r), Parts(c));
      assert s == r + [c];
      FeedWholeUnit(t, c);
    }
  }

  lemma FeedWholeUnit(t: Tokens, c: CodeUnit)
    requires IsOpen(t.pending) && (t.pending == [] || IsSyllableGroup(t.pending))
    requires IsWhole(c)
    ensures AllBasic(Parts(c))
    ensures var t' := FeedAll(t, Parts(c));
            && (t'.pending == [] || IsSyllableGroup(t'.pending))
            && t'.out + Flush(t'.pending) == t.out + Flush(t.pending) + [c]
  {
    hide IsSyllableGroup, IsGroup, Compose, Basic, IsJamo, Parts, FeedAll, Feed;
    PartsAreBasic(c);
    if IsHangul(c) {
      HangulGroup(c);
      var g := Parts(c);
      assert g[..|g|] == g;
      SyllableGroupLength(g);
      FeedSyllable(t, g, |g|);
    } else {
      Plain(c);
      FeedNothing(t);
      FeedAllSnoc(t, [], c);
      assert [] + [c] == [c];
      FeedPlain(t, c);
    }
  }

  lemma SyllableGroupLength(g: seq<CodeUnit>)
    ensures IsSyllableGroup(g) ==> |g| >= 2
  {
  }

  lemma Plain(c: CodeUnit)
    requires IsWhole(c) && !IsHangul(c)
    ensures !IsJamo(c) && Basic(c) && Parts(c) == [c]
  {
    BasicParts(c);
  }

  /** assemble(disassemble(s)) = s for texts of complete syllables and non-jamo characters. */
  lemma WholeTextRoundTrip(s: seq<CodeUnit>)
    requires forall i :: 0 <= i < |s| ==> IsWhole(s[i])
    ensures AllBasic(Disassemble(s)) && Reassemble(Disassemble(s)) == s
  {
    FeedWhole(s);
  }

  // ---------------------------------------------------------------- the six-stage machine

  /** The first two units of a group tell which of the three kinds of group it is. */
  lemma GroupShape(g: seq<CodeUnit>)
    requires IsGroup(g) && AllBasic(g)
    ensures |g| >= 2 && IsJung(g[0]) ==> |g| == 2 && IsJung(g[1]) && Compose(g) == JungJoin(g[0], g[1])
    ensures |g| >= 2 && !IsJung(g[0]) ==> IsCho(g[0])
    ensures |g| >= 2 && !IsJung(g[0]) && IsCho(g[1]) ==> |g| == 2 && Compose(g) == JongJoin(g[0], g[1])
    ensures |g| >= 2 && !IsJung(g[0]) && !IsCho(g[1]) ==> IsSyllableGroup(g)
    ensures |g| <= 5
  {
    if |g| == 2 && JongJoin(g[0], g[1]) != 0 {
      JongSpelling(g[0], g[1]);
    } else if |g| == 2 && JungJoin(g[0], g[1]) != 0 {
      JungSpelling(g[0], g[1]);
    }
  }

  lemma JoinNothing(c: int)
    ensures JongJoin(0, c) == 0 && JongHash(0) == 0
  {
  }

  /** What the stage counter and the `jong_joined` flag say about the pending units. */
  predicate MatchesStage(stage: int, jongJoined: bool, g: seq<CodeUnit>) {
    match stage
    case 0 => g == [] && !jongJoined
    case 1 => |g| == 1 && IsCho(g[0]) && !jongJoined
    case 2 => IsSyllableGroup(g) && |g| == 1 + VowelLength(g) && !jongJoined
    case 3 => IsSyllableGroup(g) && |g| == 1 + VowelLength(g) + if jongJoined then 2 else 1
    case 4 => |g| == 1 && IsJung(g[0]) && !jongJoined
    case 5 => |g| == 2 && JongJoin(g[0], g[1]) != 0 && !jongJoined
    case _ => false
  }

  /** Feeding one jamo closes nothing, the whole group, or all of it but its last unit. */
  datatype Move = Grow | CloseAll | CloseButLast | CloseWith

  /** The choice each stage of the machine makes, and the stage it goes to. */
  function StageMove(stage: int, jongJoined: bool, previous: int, c: int): (Move, int, bool) {
    match stage
    case 0 => (Grow, if IsCho(c) then 1 else 4, false)
    case 1 =>
      if IsJung(c) then (Grow, 2, false)
      else if JongJoin(previous, c) != 0 then (Grow, 5, false)
      else (CloseAll, 1, false)
    case 2 =>
      if IsJong(c) then (Grow, 3, false)
      else if IsJung(c) then
        if JungJoin(previous, c) != 0 then (Grow, 2, false) else (CloseAll, 4, false)
      else (CloseAll, 1, false)
    case 3 =>
      if IsJong(c) then
        if !jongJoined && JongJoin(previous, c) != 0 then (Grow, 3, true) else (CloseAll, 1, false)
      else if IsCho(c) then (CloseAll, 1, false)
      else (CloseButLast, 2, false)
    case 4 =>
      if IsJung(c) then
        if JungJoin(previous, c) != 0 then (CloseWith, 0, false) else (CloseAll, 4, false)
      else (CloseAll, 1, false)
    case _ =>
      if IsJung(c) then (CloseButLast, 2, false) else (CloseAll, 1, false)
  }

  lemma JamoKinds(c: CodeUnit)
    requires Basic(c) && IsJamo(c)
    ensures IsCho(c) <==> !IsJung(c)
    ensures IsJong(c) ==> IsCho(c)
  {
  }

  lemma JoinKinds(a: CodeUnit, b: CodeUnit, c: CodeUnit)
    ensures JongJoin(a, b) != 0 ==> IsCho(a) && IsCho(b) && IsJong(b) && !IsJung(a) && !IsJung(b) && JungJoin(a, b) == 0
    ensures JungJoin(a, b) != 0 ==> IsJung(a) && IsJung(b) && !IsCho(a) && !IsCho(b) && JungJoin(b, c) == 0
  {
  }

  predicate AgreesWithFeed(t: Tokens, c: CodeUnit, choice: (Move, int, bool))
    requires IsOpen(t.pending) && Basic(c)
  {
    var g := t.pending;
    && MatchesStage(choice.1, choice.2, Feed(t, c).pending)
    && Writable(g)
    && match choice.0
       case Grow => Feed(t, c) == Tokens(t.out, g + [c])
       case CloseAll => Feed(t, c) == Tokens(t.out + Flush(g), [c])
       case CloseButLast =>
         && |g| >= 2 && Writable(g[..|g| - 1])
         && Feed(t, c) == Tokens(t.out + Flush(g[..|g| - 1]), [g[|g| - 1], c])
       case CloseWith => IsGroup(g + [c]) && Writable(g + [c]) && Feed(t, c) == Tokens(t.out + Flush(g + [c]), [])
  }

  function Previous(g: seq<CodeUnit>): CodeUnit { if g == [] then 0 else g[|g| - 1] }

  /** Each stage's choice is the reference tokenizer's. */
  lemma StageMoveIsFeed(t: Tokens, stage: int, jongJoined: bool, c: CodeUnit)
    requires IsOpen(t.pending) && MatchesStage(stage, jongJoined, t.pending)
    requires Basic(c) && IsJamo(c)
    ensures AgreesWithFeed(t, c, StageMove(stage, jongJoined, Previous(t.pending), c))
  {
    hide Compose, JungJoin, JongJoin, IsCho, IsJung, IsJong, Basic;
    var g := t.pending;
    JamoKinds(c);
    if g != [] {
      JamoKinds(Previous(g));
      JoinKinds(Previous(g), c, c);
      if |g| >= 2 { JoinKinds(g[|g| - 2], Previous(g), c); }
      if |g| >= 3 { JoinKinds(g[1], g[2], c); }
      if IsCho(Previous(g)) && IsJung(c) { SplitOpen(g, c); }
    }
    var h := g + [c];
    assert forall i :: 0 <= i < |g| ==> h[i] == g[i];
    match stage
    case 3 =>
      assert VowelLength(h) == VowelLength(g);
      assert IsSyllableGroup(h) <==> !jongJoined && JongJoin(Previous(g), c) != 0;
      assert IsJung(c) ==> Feed(t, c) == Tokens(t.out + Flush(g[..|g| - 1]), [g[|g| - 1], c]);
    case 5 =>
      assert IsJung(c) ==> Feed(t, c) == Tokens(t.out + Flush(g[..|g| - 1]), [g[|g| - 1], c]);
      assert !IsJung(c) ==> !IsGroup(h);
    case _ =>
  }

  lemma OpenIsWritable(g: seq<CodeUnit>)
    requires IsOpen(g)
    ensures Writable(g)
  {
  }

  /** The units at positions `lo` up to `hi`. */
  function Slice(a: seq<CodeUnit>, lo: int, hi: int): seq<CodeUnit>
    requires 0 <= lo <= hi <= |a|
  {
    a[lo..hi]
  }

  lemma SliceNothing(a: seq<CodeUnit>)
    ensures a[..0] == [] && Slice(a, 0, 0) == []
  {
  }

  lemma SliceEnd(a: seq<CodeUnit>, lo: int, hi: int)
    requires 0 <= lo <= hi < |a|
    ensures Slice(a, hi + 1, hi + 1) == []
    ensures Slice(a, lo, hi + 1) == Slice(a, lo, hi) + [a[hi]]
    ensures Slice(a, hi, hi + 1) == [a[hi]]
    ensures lo < hi ==> var g := Slice(a, lo, hi);
                        |g| == hi - lo && Slice(a, lo, hi - 1) == g[..|g| - 1]
                        && Slice(a, hi - 1, hi + 1) == [g[|g| - 1], a[hi]]
  {
  }

  /** The written text, and the units from `written` up to `read`, as the tokenizer sees them. */
  ghost predicate Agrees(t: Tokens, units: seq<CodeUnit>, result: seq<CodeUnit>, written: int, read: int) {
    && 0 <= written <= read <= |units|
    && result == t.out
    && Slice(units, written, read) == t.pending
  }

  /** The variables of `assemble` that `_makeHangul` shares with its caller. */
  class Assembler {
    const units: seq<CodeUnit>
    var result: seq<CodeUnit>
    var completeIndex: int
    var jongJoined: bool

    constructor (units: seq<CodeUnit>)
      ensures this.units == units && result == [] && completeIndex == -1 && !jongJoined
    {
      this.units := units;
      result := [];
      completeIndex := -1;
      jongJoined := false;
    }

    /** `_makeHangul`: write the pending group up to `index` as one code unit. */
    method MakeHangul(index: int)
      requires -1 <= completeIndex <= index < |units|
      requires Writable(Slice(units, completeIndex + 1, index + 1))
      modifies this
      ensures result == old(result) + Flush(Slice(units, old(completeIndex) + 1, index + 1))
      ensures completeIndex == index && !jongJoined
    {
      hide Cho, Jung, Jong, ChoHash, JungHash, JongHash, JungJoin, JongJoin, Basic, IsCho, IsJung;
      jongJoined := false;
      if completeIndex + 1 > index {
        return;
      }
      ghost var g := Slice(units, completeIndex + 1, index + 1);
      GroupShape(g);
      JoinNothing(0);
      var cho, jung1, jong1 := 0, 0, 0;
      var hangul: CodeUnit := 0;
      var step := 1;
      while true
        invariant 1 <= step <= |g|
        invariant completeIndex == old(completeIndex) && result == old(result) && !jongJoined
        invariant step >= 2 ==> IsCho(g[0]) && !IsJung(g[0]) && cho == g[0]
        invariant step <= 2 ==> jong1 == 0
        invariant step >= 3 ==> IsSyllableGroup(g)
        invariant step == 3 ==> jung1 == g[1] && jong1 == 0
        invariant step >= 4 ==> jung1 == Vowel(g)
        invariant step == 4 ==> jong1 == if VowelLength(g) == 2 then 0 else g[2]
        invariant step == 5 ==> VowelLength(g) == 2 && jong1 == g[3]
        decreases 6 - step
      {
        var unit := units[completeIndex + step];
        assert unit == g[step - 1];
        if step == 1 {
          cho := unit;
          if IsJung(cho) {
            if completeIndex + step + 1 <= index && IsJung(units[completeIndex + step + 1]) {
              result := result + [JungJoin(cho, units[completeIndex + step + 1])];
              completeIndex := index;
              return;
            } else {
              result := result + [unit];
              completeIndex := index;
              return;
            }
          } else if !IsCho(cho) {
            result := result + [unit];
            completeIndex := index;
            return;
          }
          hangul := unit;
        } else if step == 2 {
          jung1 := unit;
          if IsCho(jung1) {
            hangul := JongJoin(cho, jung1);
            result := result + [hangul];
            completeIndex := index;
            return;
          } else {
            hangul := (ChoHash(cho) * 21 + JungHash(jung1)) * 28 + HANGUL_OFFSET;
          }
        } else if step == 3 {
          var jung2 := unit;
          if JungJoin(jung1, jung2) != 0 {
            jung1 := JungJoin(jung1, jung2);
          } else {
            jong1 := jung2;
          }
          hangul := (ChoHash(cho) * 21 + JungHash(jung1)) * 28 + JongHash(jong1) + HANGUL_OFFSET;
        } else if step == 4 {
          var jong2 := unit;
          JoinNothing(jong2);
          if JongJoin(jong1, jong2) != 0 {
            jong1 := JongJoin(jong1, jong2);
          } else {
            jong1 := jong2;
          }
          hangul := (ChoHash(cho) * 21 + JungHash(jung1)) * 28 + JongHash(jong1) + HANGUL_OFFSET;
        } else if step == 5 {
          var jong2 := unit;
          jong1 := JongJoin(jong1, jong2);
          hangul := (ChoHash(cho) * 21 + JungHash(jung1)) * 28 + JongHash(jong1) + HANGUL_OFFSET;
        }
        if completeIndex + step >= index {
          result := result + [hangul];
          completeIndex := index;
          return;
        }
        step := step + 1;
      }
    }

    /** One jamo of the main loop: the choice the current stage makes. */
    method Consume(i: int, stage: int, previousCode: int, ghost t: Tokens) returns (stage': int)
      requires 0 <= i < |units| && Basic(units[i]) && IsJamo(units[i])
      requires IsOpen(t.pending) && Agrees(t, units, result, completeIndex + 1, i)
          && MatchesStage(stage, jongJoined, t.pending)
      requires stage != 0 ==> t.pending != [] && previousCode == Previous(t.pending)
      modifies this
      ensures var t' := Feed(t, units[i]);
              Agrees(t', units, result, completeIndex + 1, i + 1) && MatchesStage(stage', jongJoined, t'.pending)
      ensures stage' != 0 ==> var t' := Feed(t, units[i]);
              t'.pending != [] && units[i] == Previous(t'.pending)
    {
      hide Compose, JungJoin, JongJoin, IsCho, IsJung, IsJong, Basic, Feed, IsGroup, IsSyllableGroup,
          Slice, IsOpen, Writable;
      var code := units[i];
      ghost var t' := Feed(t, code);
      SliceEnd(units, completeIndex + 1, i);
      stage' := stage;
      StageMoveIsFeed(t, stage, jongJoined, code);
      if stage == 0 {
        if IsCho(code) {
          stage' := 1;
        } else if IsJung(code) {
          stage' := 4;
        }
        assert Agrees(t', units, result, completeIndex + 1, i + 1);
      } else if stage == 1 {
        if IsJung(code) {
          stage' := 2;
        } else {
          if JongJoin(previousCode, code) != 0 {
            stage' := 5;
          } else {
            MakeHangul(i - 1);
          }
        }
        assert Agrees(t', units, result, completeIndex + 1, i + 1);
      } else if stage == 2 {
        if IsJong(code) {
          stage' := 3;
        } else if IsJung(code) {
          if JungJoin(previousCode, code) != 0 {
          } else {
            MakeHangul(i - 1);
            stage' := 4;
          }
        } else {
          MakeHangul(i - 1);
          stage' := 1;
        }
        assert Agrees(t', units, result, completeIndex + 1, i + 1);
      } else if stage == 3 {
        if IsJong(code) {
          if !jongJoined && JongJoin(previousCode, code) != 0 {
            jongJoined := true;
          } else {
            MakeHangul(i - 1);
            stage' := 1;
          }
        } else if IsCho(code) {
          MakeHangul(i - 1);
          stage' := 1;
        } else if IsJung(code) {
          MakeHangul(i - 2);
          stage' := 2;
        }
        assert Agrees(t', units, result, completeIndex + 1, i + 1);
      } else if stage == 4 {
        if IsJung(code) {
          if JungJoin(previousCode, code) != 0 {
            MakeHangul(i);
            stage' := 0;
          } else {
            MakeHangul(i - 1);
          }
        } else {
          MakeHangul(i - 1);
          stage' := 1;
        }
        assert Agrees(t', units, result, completeIndex + 1, i + 1);
      } else if stage == 5 {
        if IsJung(code) {
          MakeHangul(i - 2);
          stage' := 2;
        } else {
          MakeHangul(i - 1);
          stage' := 1;
        }
        assert Agrees(t', units, result, completeIndex + 1, i + 1);
      }
    }

    /** The main loop of `assemble`. */
    method Run()
      requires AllBasic(units)
      requires result == [] && completeIndex == -1 && !jongJoined
      modifies this
      ensures result == Reassemble(units)
    {
      hide Compose, JungJoin, JongJoin, IsCho, IsJung, IsJong, Basic, Feed, FeedAll, IsGroup, IsSyllableGroup,
          Slice, IsOpen, Writable;
      ghost var start := Tokens([], []);
      ghost var t := start;
      var stage := 0;
      var previousCode: int := 0;
      var i := 0;
      FeedNothing(start);
      assert units[..0] == [] && Slice(units, 0, 0) == [] by { SliceNothing(units); }
      while i < |units|
        invariant 0 <= i <= |units|
        invariant t == FeedAll(start, units[..i]) && IsOpen(t.pending)
        invariant Agrees(t, units, result, completeIndex + 1, i)
        invariant MatchesStage(stage, jongJoined, t.pending)
        invariant stage != 0 ==> t.pending != [] && previousCode == Previous(t.pending)
      {
        var code := units[i];
        ghost var g := t.pending;
        ghost var t' := Feed(t, code);
        assert units[..i + 1] == units[..i] + [code];
        FeedAllSnoc(start, units[..i], code);
        SliceEnd(units, completeIndex + 1, i);
        if !IsCho(code) && !IsJung(code) && !IsJong(code) {
          FeedPlain(t, code);
          MakeHangul(i - 1);
          MakeHangul(i);
          stage := 0;
        } else {
          stage := Consume(i, stage, previousCode, t);
          previousCode := code;
        }
        t := t';
        i := i + 1;
      }
      OpenIsWritable(t.pending);
      MakeHangul(i - 1);
      assert units[..i] == units;
    }
  }

  /** `assemble` of a string. */
  method Assemble(text: seq<CodeUnit>) returns (joined: seq<CodeUnit>)
    ensures AllBasic(Disassemble(text)) && joined == Reassemble(Disassemble(text))
    ensures Disassemble(joined) == Disassemble(text)
    ensures (forall i :: 0 <= i < |text| ==> IsWhole(text[i])) ==> joined == text
  {
    hide Basic, Reassemble, IsWhole, Parts, Disassemble;
    var units := DisassembleText(text);
    DisassembledIsBasic(text);
    var assembler := new Assembler(units);
    assembler.Run();
    joined := assembler.result;
    AssembleKeepsJamo(text);
    if forall i :: 0 <= i < |text| ==> IsWhole(text[i]) {
      WholeTextRoundTrip(text);
    }
  }
}
