/** What the Hangul tables mean, said without them: through the order of the Hangul Syllables block and of the
    compatibility jamo, as KS X 1001 and the Unicode Standard lay both out. */
module HangulOrder {
  import opened Hangul
  import opened Utf16
  import opened Wrappers

  // ---------------------------------------------------------------- the two blocks

  /** Eleven of the thirty consonants of the jamo block are clusters of two. */
  predicate IsCluster(c: int) {
    c == 0x3133 || c == 0x3135 || c == 0x3136 || 0x313A <= c <= 0x3140 || c == 0x3144
  }

  predicate IsSingle(c: int) { 0x3131 <= c <= 0x314E && !IsCluster(c) }

  /** All consonants of the block but the doubled D, B and J end a syllable. */
  predicate IsFinal(c: int) { 0x3131 <= c <= 0x314E && c != 0x3138 && c != 0x3143 && c != 0x3149 }

  predicate IsVowel(c: int) { 0x314F <= c <= 0x3163 }

  /** Number of the leading consonant, the vowel and the final of a syllable. */
  function LeadOf(c: CodeUnit): int requires IsHangul(c) { (c - HANGUL_OFFSET) / 588 }
  function VowelOf(c: CodeUnit): int requires IsHangul(c) { (c - HANGUL_OFFSET) / 28 % 21 }
  function FinalOf(c: CodeUnit): int requires IsHangul(c) { (c - HANGUL_OFFSET) % 28 }

  function SyllableAt(lead: int, vowel: int, final: int): CodeUnit
    requires 0 <= lead < 19 && 0 <= vowel < 21 && 0 <= final < 28
  {
    (lead * 21 + vowel) * 28 + final + HANGUL_OFFSET
  }

  lemma NumbersOf(c: CodeUnit)
    requires IsHangul(c)
    ensures 0 <= LeadOf(c) < 19 && 0 <= VowelOf(c) < 21 && 0 <= FinalOf(c) < 28
    ensures c == SyllableAt(LeadOf(c), VowelOf(c), FinalOf(c))
    ensures LeadOf(c) == (c - HANGUL_OFFSET - FinalOf(c)) / 28 / 21
    ensures VowelOf(c) == (c - HANGUL_OFFSET - FinalOf(c)) / 28 % 21
  {
  }

  lemma NumbersAt(lead: int, vowel: int, final: int)
    requires 0 <= lead < 19 && 0 <= vowel < 21 && 0 <= final < 28
    ensures var c := SyllableAt(lead, vowel, final);
            IsHangul(c) && LeadOf(c) == lead && VowelOf(c) == vowel && FinalOf(c) == final
  {
  }

  lemma PartsOf(c: CodeUnit)
    requires IsHangul(c)
    ensures 0 <= LeadOf(c) < 19 && 0 <= VowelOf(c) < 21 && 0 <= FinalOf(c) < 28
    ensures Parts(c) == [Cho(LeadOf(c))] + Jung(VowelOf(c)) + Jong(FinalOf(c))
  {
    NumbersOf(c);
    NoFinal();
    hide Cho, Jung, LeadOf, VowelOf;
    assert FinalOf(c) == 0 ==> Jong(FinalOf(c)) == [];
  }

  // ---------------------------------------------------------------- leading consonants

  lemma ChoIsSingle(i: int)
    requires 0 <= i < 19
    ensures IsSingle(Cho(i)) && (i + 1 < 19 ==> Cho(i) < Cho(i + 1))
  {
  }

  lemma {:induction false} ChoIncreases(i: int, j: int)
    requires 0 <= i < j < 19
    ensures Cho(i) < Cho(j)
    decreases j - i
  {
    hide Cho;
    ChoIsSingle(i);
    if i + 1 < j { ChoIncreases(i + 1, j); }
  }

  /** The first unit grows with the syllable, and is another one for another leading consonant. */
  lemma LeadsInOrder(c: CodeUnit, d: CodeUnit)
    requires IsHangul(c) && IsHangul(d) && c < d
    ensures Parts(c)[0] <= Parts(d)[0]
    ensures Parts(c)[0] < Parts(d)[0] <==> LeadOf(c) < LeadOf(d)
  {
    PartsOf(c);
    PartsOf(d);
    hide Parts, Cho, Jung, Jong;
    if LeadOf(c) < LeadOf(d) { ChoIncreases(LeadOf(c), LeadOf(d)); }
  }

  lemma SingleIsCho(u: CodeUnit)
    requires IsSingle(u)
    ensures 0 <= ChoHash(u) < 19 && Cho(ChoHash(u)) == u
  {
  }

  /** The first units are exactly the nineteen consonants that are no clusters. */
  lemma LeadsAreSingle(u: CodeUnit)
    ensures (exists c: CodeUnit :: IsHangul(c) && Parts(c)[0] == u) <==> IsSingle(u)
  {
    if c: CodeUnit :| IsHangul(c) && Parts(c)[0] == u {
      PartsOf(c);
      hide Parts;
      ChoIsSingle(LeadOf(c));
    }
    if IsSingle(u) {
      SingleIsCho(u);
      NumbersAt(ChoHash(u), 0, 0);
      var c := SyllableAt(ChoHash(u), 0, 0);
      PartsOf(c);
      hide Parts;
      assert IsHangul(c) && Parts(c)[0] == u;
    }
  }

  // ---------------------------------------------------------------- vowels

  lemma VowelParts(i: int)
    requires 0 <= i < 21
    ensures IsVowel(0x314F + i) && Parts(0x314F + i) == Jung(i) && |Jong(0)| == 0
  {
  }

  /** A syllable without final is its leading consonant and the vowel jamo with the vowel's number. */
  lemma VowelIsSpelled(c: CodeUnit)
    requires IsHangul(c) && FinalOf(c) == 0
    ensures Parts(c) == [Parts(c)[0]] + Parts(0x314F + VowelOf(c))
  {
    PartsOf(c);
    VowelParts(VowelOf(c));
    hide Parts, Cho, Jung;
  }

  /** One unit, or two of which the first decides. */
  ghost predicate IsBefore(a: seq<CodeUnit>, b: seq<CodeUnit>) {
    && a != [] && b != []
    && (a[0] < b[0] || (a[0] == b[0] && |b| > 1 && (|a| == 1 || a[1] < b[1])))
  }

  lemma NextVowel(i: int)
    requires 0 <= i < 20
    ensures IsBefore(Jung(i), Jung(i + 1))
  {
  }

  lemma {:induction false} VowelsIncrease(i: int, j: int)
    requires 0 <= i < j < 21
    ensures IsBefore(Jung(i), Jung(j))
    decreases j - i
  {
    hide Jung;
    NextVowel(i);
    if i + 1 < j { VowelsIncrease(i + 1, j); }
  }

  /** The spellings of the vowels grow with their codes. */
  lemma VowelsInOrder(v: CodeUnit, w: CodeUnit)
    requires IsVowel(v) && IsVowel(w) && v < w
    ensures IsBefore(Parts(v), Parts(w))
  {
    VowelParts(v - 0x314F);
    VowelParts(w - 0x314F);
    hide Jung, Parts;
    VowelsIncrease(v - 0x314F, w - 0x314F);
  }

  // ---------------------------------------------------------------- finals

  /** `f` is the consonant jamo that a syllable ends in. */
  ghost predicate EndsIn(c: CodeUnit, f: CodeUnit)
    requires IsHangul(c)
  {
    && 0x3131 <= f <= 0x314E && FinalOf(c) > 0
    && Parts(c) == Parts(c - FinalOf(c)) + Parts(f)
  }

  /** The code of final number `i`. */
  function FinalCode(i: int): CodeUnit
    requires 0 < i < 28
  {
    0x3130 + i + (if i >= 8 then 1 else 0) + (if i >= 18 then 1 else 0) + (if i >= 23 then 1 else 0)
  }

  lemma FinalParts(i: int)
    requires 0 < i < 28
    ensures IsFinal(FinalCode(i)) && Parts(FinalCode(i)) == Jong(i)
  {
  }

  lemma ConsonantSpelling(f: CodeUnit)
    requires 0x3131 <= f <= 0x314E
    ensures Parts(f) == if IsSingle(f) then [f] else Jong(JongHash(f))
    ensures !IsSingle(f) ==> |Parts(f)| == 2 && JongJoin(Parts(f)[0], Parts(f)[1]) == f
  {
  }

  lemma ConsonantsDiffer(f: CodeUnit, g: CodeUnit)
    requires 0x3131 <= f <= 0x314E && 0x3131 <= g <= 0x314E && Parts(f) == Parts(g)
    ensures f == g
  {
    ConsonantSpelling(f);
    ConsonantSpelling(g);
    hide Parts, Jong, JongHash, JongJoin;
  }

  lemma StemOf(c: CodeUnit)
    requires IsHangul(c)
    ensures 0 <= c - FinalOf(c) && IsHangul(c - FinalOf(c))
    ensures var stem := c - FinalOf(c);
            LeadOf(stem) == LeadOf(c) && VowelOf(stem) == VowelOf(c) && FinalOf(stem) == 0
  {
    NumbersOf(c);
    NumbersAt(LeadOf(c), VowelOf(c), 0);
    hide LeadOf, VowelOf, FinalOf;
    assert c - FinalOf(c) == SyllableAt(LeadOf(c), VowelOf(c), 0);
  }

  lemma WithoutFinal(c: CodeUnit)
    requires IsHangul(c)
    ensures 0 <= c - FinalOf(c) && IsHangul(c - FinalOf(c))
    ensures Parts(c) == Parts(c - FinalOf(c)) + Jong(FinalOf(c))
  {
    hide Parts, Cho, Jung, Jong, LeadOf, VowelOf, FinalOf, IsHangul;
    StemOf(c);
    PartsOf(c);
    PartsOf(c - FinalOf(c));
    NoFinal();
  }

  lemma FinalIs(c: CodeUnit, f: CodeUnit)
    requires IsHangul(c)
    ensures EndsIn(c, f) <==> FinalOf(c) > 0 && f == FinalCode(FinalOf(c))
  {
    WithoutFinal(c);
    if FinalOf(c) > 0 {
      FinalParts(FinalOf(c));
      hide Parts, Jong, FinalCode, FinalOf;
      if EndsIn(c, f) {
        var stem := Parts(c - FinalOf(c));
        assert Parts(c)[|stem|..] == Parts(f) == Jong(FinalOf(c));
        ConsonantsDiffer(f, FinalCode(FinalOf(c)));
      }
    }
  }

  /** Every syllable with a final ends in one, and among those of one vowel its code grows with the syllable. */
  lemma FinalsInOrder(c: CodeUnit, d: CodeUnit) returns (f: CodeUnit, g: CodeUnit)
    requires IsHangul(c) && IsHangul(d) && 0 < FinalOf(c) < FinalOf(d)
    ensures EndsIn(c, f) && EndsIn(d, g) && f < g
    ensures forall h: CodeUnit :: (EndsIn(c, h) ==> h == f) && (EndsIn(d, h) ==> h == g)
  {
    f, g := FinalCode(FinalOf(c)), FinalCode(FinalOf(d));
    hide EndsIn;
    forall h: CodeUnit ensures (EndsIn(c, h) <==> h == f) && (EndsIn(d, h) <==> h == g) {
      FinalIs(c, h);
      FinalIs(d, h);
    }
  }

  lemma NumberOfFinal(f: CodeUnit) returns (i: int)
    requires IsFinal(f)
    ensures 0 < i < 28 && FinalCode(i) == f
  {
    i := f - 0x3130 - (if f > 0x3138 then 1 else 0) - (if f > 0x3143 then 1 else 0) - (if f > 0x3149 then 1 else 0);
  }

  /** Exactly the consonants that can be finals end the syllables of a leading consonant and vowel. */
  lemma FinalsAreExact(lead: int, vowel: int, f: CodeUnit)
    requires 0 <= lead < 19 && 0 <= vowel < 21
    ensures (exists c: CodeUnit :: IsHangul(c) && LeadOf(c) == lead && VowelOf(c) == vowel && EndsIn(c, f))
       <==> IsFinal(f)
  {
    hide EndsIn;
    if c: CodeUnit :| IsHangul(c) && LeadOf(c) == lead && VowelOf(c) == vowel && EndsIn(c, f) {
      FinalIs(c, f);
      NumbersOf(c);
      FinalParts(FinalOf(c));
    }
    if IsFinal(f) {
      var i := NumberOfFinal(f);
      var c := SyllableAt(lead, vowel, i);
      NumbersAt(lead, vowel, i);
      FinalIs(c, f);
      assert IsHangul(c) && LeadOf(c) == lead && VowelOf(c) == vowel && EndsIn(c, f);
    }
  }

  // ---------------------------------------------------------------- joined jamo

  const CLUSTERS: set<(int, int)> := {
    (0x3131, 0x3145), (0x3134, 0x3148), (0x3134, 0x314E), (0x3139, 0x3131), (0x3139, 0x3141), (0x3139, 0x3142),
    (0x3139, 0x3145), (0x3139, 0x314C), (0x3139, 0x314D), (0x3139, 0x314E), (0x3142, 0x3145)
  }

  const DIPHTHONGS: set<(int, int)> := {
    (0x3157, 0x314F), (0x3157, 0x3150), (0x3157, 0x3163), (0x315C, 0x3153), (0x315C, 0x3154), (0x315C, 0x3163),
    (0x3161, 0x3163)
  }

  /** Two units of one kind, consonants or vowels. */
  predicate IsPair(a: CodeUnit, b: CodeUnit) { (IsSingle(a) && IsSingle(b)) || (IsVowel(a) && IsVowel(b)) }

  /** They are written as one exactly if they are one of these pairs. */
  lemma PairsJoin(a: CodeUnit, b: CodeUnit)
    requires IsPair(a, b)
    ensures IsGroup([a, b]) <==> (a, b) in CLUSTERS || (a, b) in DIPHTHONGS
  {
    var g := [a, b];
    assert |g| == 2 && g[0] == a && g[1] == b;
  }

  /** The joined jamo of a kind grow with their pairs, and stand behind the first of the two. */
  lemma JoinedInOrder(a: CodeUnit, b: CodeUnit, c: CodeUnit, d: CodeUnit)
    requires IsPair(a, b) && IsPair(c, d) && IsVowel(a) == IsVowel(c) && IsGroup([a, b]) && IsGroup([c, d])
    ensures a < Compose([a, b])
    ensures Compose([a, b]) < Compose([c, d]) <==> a < c || (a == c && b < d)
  {
    JoinedIs(a, b);
    JoinedIs(c, d);
    hide IsGroup, Compose, JungJoin, JongJoin;
  }

  lemma JoinedIs(a: CodeUnit, b: CodeUnit)
    requires IsPair(a, b) && IsGroup([a, b])
    ensures (a, b) in CLUSTERS || (a, b) in DIPHTHONGS
    ensures Compose([a, b]) == if IsVowel(a) then JungJoin(a, b) else JongJoin(a, b)
  {
    PairsJoin(a, b);
    var g := [a, b];
    assert |g| == 2 && g[0] == a && g[1] == b;
  }

  /** And they are exactly the clusters and the vowels that two units spell. */
  lemma JoinedAreExact(u: CodeUnit)
    ensures (exists a: CodeUnit, b: CodeUnit :: IsPair(a, b) && IsGroup([a, b]) && Compose([a, b]) == u)
       <==> IsCluster(u) || IsComplexVowel(u)
  {
    if IsCluster(u) || IsComplexVowel(u) {
      var a, b := SpellingOf(u);
      assert IsPair(a, b) && IsGroup([a, b]) && Compose([a, b]) == u;
    }
    if a: CodeUnit, b: CodeUnit :| IsPair(a, b) && IsGroup([a, b]) && Compose([a, b]) == u {
      hide IsGroup, Compose;
      JoinedIs(a, b);
    }
  }

  lemma SpellingOf(u: CodeUnit) returns (a: CodeUnit, b: CodeUnit)
    requires IsCluster(u) || IsComplexVowel(u)
    ensures Parts(u) == [a, b] && IsPair(a, b) && IsGroup([a, b]) && Compose([a, b]) == u
  {
    var parts := if IsCluster(u) then Jong(JongHash(u)) else Jung(JungHash(u));
    a, b := parts[0], parts[1];
    assert if IsCluster(u) then JongJoin(a, b) == u else JungJoin(a, b) == u;
    hide Jong, JongHash, Jung;
    var g := [a, b];
    assert |g| == 2 && g[0] == a && g[1] == b && g == parts;
  }
}
