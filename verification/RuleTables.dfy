/** Suffix, prefix and phrasal-verb rules, and the Basque and English rule tables built from them. */
module RuleTables {
  import opened Bits
  import opened ConditionFlags
  import opened LanguageTransformer
  import opened Wrappers

  datatype Affix =
    | Suffix(inflected: string, deinflected: string, conditionsIn: seq<string>, conditionsOut: seq<string>)
    | Prefix(inflected: string, deinflected: string, conditionsIn: seq<string>, conditionsOut: seq<string>)
    | Phrasal(inflected: string, deinflected: string, conditionsIn: seq<string>, conditionsOut: seq<string>)
    | Interposed(deinflected: string, conditionsIn: seq<string>, conditionsOut: seq<string>)

  datatype AffixTransform = AffixTransform(id: string, rules: seq<Affix>)

  predicate EndsWith(text: string, suffix: string) {
    |suffix| <= |text| && text[|text| - |suffix|..] == suffix
  }

  /** `text.slice(0, -n)`; with n = 0 that is `slice(0, 0)`. */
  function DropLast(text: string, n: nat): string {
    if n == 0 || n > |text| then "" else text[..|text| - n]
  }

  /** `text.slice(n)` */
  function DropFirst(text: string, n: nat): string {
    if n > |text| then "" else text[n..]
  }

  predicate IsInflectedBy(affix: Affix, text: string) {
    match affix
    case Suffix(inflected, _, _, _) => EndsWith(text, inflected)
    case Prefix(inflected, _, _, _) => inflected <= text
    case Phrasal(inflected, _, _, _) => IsPhrasal(text, inflected)
    case Interposed(_, _, _) => IsInterposed(text)
  }

  function DeinflectBy(affix: Affix, text: string): string {
    match affix
    case Suffix(inflected, deinflected, _, _) => DropLast(text, |inflected|) + deinflected
    case Prefix(inflected, deinflected, _, _) => deinflected + DropFirst(text, |inflected|)
    case Phrasal(inflected, deinflected, _, _) => ReplaceVerb(text, inflected, deinflected)
    case Interposed(deinflected, _, _) => ReplaceObject(text, deinflected)
  }

  /** `suffixInflection`, `prefixInflection` and the rules for phrasal verbs */
  function ToRule(affix: Affix): RuleSpec {
    RuleSpec(text => IsInflectedBy(affix, text), text => DeinflectBy(affix, text), affix.conditionsIn,
        affix.conditionsOut)
  }

  function ToRules(rules: seq<Affix>): seq<RuleSpec> { seq(|rules|, i requires 0 <= i < |rules| => ToRule(rules[i])) }

  function ToTransforms(table: seq<AffixTransform>): seq<TransformSpec> {
    seq(|table|, i requires 0 <= i < |table| => TransformSpec(table[i].id, table[i].id, ToRules(table[i].rules)))
  }

  /** A text that ends in the inflected suffix, deinflected, ends in the other one, the stem being kept. */
  lemma SuffixIsReplaced(affix: Affix, stem: string)
    requires affix.Suffix? && affix.inflected != ""
    ensures IsInflectedBy(affix, stem + affix.inflected)
    ensures DeinflectBy(affix, stem + affix.inflected) == stem + affix.deinflected
  {
    var text := stem + affix.inflected;
    assert text[..|stem|] == stem;
  }

  /** An affix rule matches exactly the texts that a stem and its affix make up. */
  lemma AffixMatches(affix: Affix, text: string)
    ensures affix.Suffix? ==> (IsInflectedBy(affix, text) <==> exists stem :: text == stem + affix.inflected)
    ensures affix.Prefix? ==> (IsInflectedBy(affix, text) <==> exists stem :: text == affix.inflected + stem)
  {
    if affix.Suffix? && IsInflectedBy(affix, text) {
      assert text == text[..|text| - |affix.inflected|] + affix.inflected;
    }
    if affix.Prefix? && IsInflectedBy(affix, text) {
      assert text == affix.inflected + text[|affix.inflected|..];
    }
  }

  lemma PrefixIsReplaced(affix: Affix, stem: string)
    requires affix.Prefix? && affix.inflected != ""
    ensures IsInflectedBy(affix, affix.inflected + stem)
    ensures DeinflectBy(affix, affix.inflected + stem) == affix.deinflected + stem
  {
    var text := affix.inflected + stem;
    assert text[|affix.inflected|..] == stem;
  }

  // ---------------------------------------------------------------- phrasal verbs

  const PARTICLES := [
    "aboard", "about", "above", "across", "ahead", "alongside", "apart", "around", "aside", "astray", "away", "back",
    "before", "behind", "below", "beneath", "besides", "between", "beyond", "by", "close", "down", "east", "west",
    "north", "south", "eastward", "westward", "northward", "southward", "forward", "backward", "backwards", "forwards",
    "home", "in", "inside", "instead", "near", "off", "on", "opposite", "out", "outside", "over", "overhead", "past",
    "round", "since", "through", "throughout", "together", "under", "underneath", "up", "within", "without"
  ]

  const PREPOSITIONS := [
    "aback", "about", "above", "across", "after", "against", "ahead", "along", "among", "apart", "around", "as",
    "aside", "at", "away", "back", "before", "behind", "below", "between", "beyond", "by", "down", "even", "for",
    "forth", "forward", "from", "in", "into", "of", "off", "on", "onto", "open", "out", "over", "past", "round",
    "through", "to", "together", "toward", "towards", "under", "up", "upon", "way", "with", "without"
  ]

  /** `phrasalVerbWordSet` */
  const PHRASAL_WORDS := PARTICLES + PREPOSITIONS

  /** `\w` */
  predicate IsWordChar(c: char) { 'a' <= c <= 'z' || 'A' <= c <= 'Z' || '0' <= c <= '9' || c == '_' }

  predicate StartsWord(text: string, n: nat) { n <= |text| && forall i :: 0 <= i < n ==> IsWordChar(text[i]) }

  predicate At(text: string, i: nat, part: string) { i + |part| <= |text| && text[i..i + |part|] == part }

  predicate OneAt(text: string, i: nat, words: seq<string>) {
    exists k :: 0 <= k < |words| && At(text, i, words[k])
  }

  /** `\b` between characters `i - 1` and `i` */
  predicate IsBoundary(text: string, i: nat) {
    i <= |text| && (i > 0 && IsWordChar(text[i - 1])) != (i < |text| && IsWordChar(text[i]))
  }

  /** A whole particle or preposition. */
  predicate WholeWordAt(text: string, i: nat, word: string) {
    IsBoundary(text, i) && At(text, i, word) && IsBoundary(text, i + |word|)
  }

  /** The inflected ending, a space and a particle or preposition. */
  predicate VerbEndsAt(text: string, i: nat, inflected: string) {
    At(text, i, inflected) && At(text, i + |inflected|, " ") && OneAt(text, i + |inflected| + 1, PHRASAL_WORDS)
  }

  /** The test of `createPhrasalVerbInflection` */
  predicate IsPhrasal(text: string, inflected: string) {
    exists k :: 0 <= k <= |text| && StartsWord(text, k) && VerbEndsAt(text, k, inflected)
  }

  function FirstVerbEnd(text: string, inflected: string, i: nat): (r: nat)
    requires i <= |text|
    ensures i <= r <= |text|
    decreases |text| - i
  {
    if i == |text| || VerbEndsAt(text, i, inflected) then i else FirstVerbEnd(text, inflected, i + 1)
  }

  /** Its rewriting: the first such ending in the text is replaced. */
  function ReplaceVerb(text: string, inflected: string, deinflected: string): string {
    var i := FirstVerbEnd(text, inflected, 0);
    if VerbEndsAt(text, i, inflected) then text[..i] + deinflected + text[i + |inflected|..] else text
  }

  predicate IsLineEnd(c: char) { c == '\n' || c == '\r' || c == '\U{2028}' || c == '\U{2029}' }

  /** A character that can belong to an interposed object. */
  predicate IsFree(text: string, i: nat) {
    && i < |text| && !IsLineEnd(text[i])
    && forall k :: 0 <= k < |PHRASAL_WORDS| ==> !WholeWordAt(text, i, PHRASAL_WORDS[k])
  }

  /** An object between the spaces at `i` and `e`, in front of a particle. */
  predicate IsObject(text: string, i: nat, e: nat) {
    && i + 1 < e < |text| && text[i] == ' ' && text[e] == ' '
    && (forall j :: i < j < e ==> IsFree(text, j)) && OneAt(text, e + 1, PARTICLES)
  }

  predicate HasObject(text: string, i: nat) { exists e :: i < e < |text| && IsObject(text, i, e) }

  /** The test of `phrasalVerbInterposedObjectRule` */
  predicate IsInterposed(text: string) {
    exists k :: 0 <= k < |text| && StartsWord(text, k) && HasObject(text, k)
  }

  predicate ObjectStartsAt(text: string, i: nat) {
    0 < i < |text| && IsWordChar(text[i - 1]) && HasObject(text, i)
  }

  function FirstObject(text: string, i: nat): (r: nat)
    requires i <= |text|
    ensures i <= r <= |text|
    decreases |text| - i
  {
    if i == |text| || ObjectStartsAt(text, i) then i else FirstObject(text, i + 1)
  }

  /** The repetition is greedy: the last end that fits. */
  function LastEnd(text: string, i: nat, e: nat): (r: nat)
    requires e < |text|
    ensures r <= e
  {
    if e == 0 || IsObject(text, i, e) then e else LastEnd(text, i, e - 1)
  }

  /** Its rewriting: the first object behind a word is replaced, with the spaces around it. */
  function ReplaceObject(text: string, deinflected: string): string {
    var i := FirstObject(text, 0);
    if i == |text| then text else text[..i] + deinflected + text[LastEnd(text, i, |text| - 1) + 1..]
  }

  lemma {:induction false} FirstVerbEndIs(text: string, inflected: string, i: nat, k: nat)
    requires i <= k < |text| && VerbEndsAt(text, k, inflected)
    requires forall j :: i <= j < k ==> !VerbEndsAt(text, j, inflected)
    ensures FirstVerbEnd(text, inflected, i) == k
    decreases k - i
  {
    hide VerbEndsAt;
    if i < k {
      FirstVerbEndIs(text, inflected, i + 1, k);
    }
  }

  /** A verb with an ending, and a particle or preposition behind it. */
  function WithParticle(verb: string, ending: string, word: string, rest: string): string {
    verb + ending + (" " + word + rest)
  }

  lemma VerbParts(verb: string, ending: string, word: string, rest: string)
    ensures var text, n := WithParticle(verb, ending, word, rest), |verb| + |ending|;
            && n <= |text| && At(text, |verb|, ending) && At(text, n, " ") && At(text, n + 1, word)
            && text[..|verb|] == verb && text == verb + ending + text[n..] && text[n..] == " " + word + rest
  {
    var tail := " " + word + rest;
    var text, n := verb + ending + tail, |verb| + |ending|;
    assert text[n..] == tail && text[..|verb|] == verb;
    assert text[|verb|..n] == ending;
    assert text[n..n + 1] == tail[..1] == " ";
    assert text[n + 1..n + 1 + |word|] == tail[1..1 + |word|] == word;
  }

  lemma SpaceAt(text: string, i: nat)
    requires At(text, i, " ")
    ensures i < |text| && text[i] == ' '
  {
    assert text[i..i + 1][0] == ' ';
  }

  /** In front of the first space there is no other place to replace. */
  lemma VerbIsReplacedAt(text: string, n: nat, inflected: string, deinflected: string)
    requires ' ' !in inflected && StartsWord(text, n) && VerbEndsAt(text, n, inflected)
    ensures IsPhrasal(text, inflected)
    ensures ReplaceVerb(text, inflected, deinflected) == text[..n] + deinflected + text[n + |inflected|..]
  {
    hide OneAt;
    SpaceAt(text, n + |inflected|);
    forall j | 0 <= j < n ensures !VerbEndsAt(text, j, inflected) {
      var q := j + |inflected|;
      assert text[q] != ' ' by {
        if q >= n { assert text[q] == text[n..n + |inflected|][q - n]; }
      }
      if At(text, q, " ") { SpaceAt(text, q); }
    }
    hide VerbEndsAt, StartsWord;
    FirstVerbEndIs(text, inflected, 0, n);
  }

  lemma BeginsWith(text: string, verb: string)
    requires |verb| <= |text| && text[..|verb|] == verb && StartsWord(verb, |verb|)
    ensures StartsWord(text, |verb|)
  {
    forall j | 0 <= j < |verb| ensures IsWordChar(text[j]) { assert text[j] == text[..|verb|][j]; }
  }

  lemma PhrasalRule(rule: Affix, text: string)
    requires rule.Phrasal?
    ensures IsInflectedBy(rule, text) == IsPhrasal(text, rule.inflected)
    ensures DeinflectBy(rule, text) == ReplaceVerb(text, rule.inflected, rule.deinflected)
  {
    hide IsPhrasal, ReplaceVerb;
  }

  lemma VerbAt(text: string, n: nat, inflected: string, word: string)
    requires At(text, n, inflected) && At(text, n + |inflected|, " ") && At(text, n + |inflected| + 1, word)
    requires word in PHRASAL_WORDS
    ensures VerbEndsAt(text, n, inflected)
  {
    hide At, PHRASAL_WORDS;
    var k :| 0 <= k < |PHRASAL_WORDS| && PHRASAL_WORDS[k] == word;
  }

  /** The ending of the verb is replaced, and nothing else. */
  lemma VerbIsReplaced(rule: Affix, verb: string, word: string, rest: string)
    requires rule.Phrasal? && ' ' !in rule.inflected && word in PHRASAL_WORDS && StartsWord(verb, |verb|)
    ensures var text := WithParticle(verb, rule.inflected, word, rest);
            IsInflectedBy(rule, text) && DeinflectBy(rule, text) == WithParticle(verb, rule.deinflected, word, rest)
  {
    hide PHRASAL_WORDS, At, StartsWord, VerbEndsAt, IsPhrasal, ReplaceVerb, IsInflectedBy, DeinflectBy, WithParticle;
    var text := WithParticle(verb, rule.inflected, word, rest);
    VerbParts(verb, rule.inflected, word, rest);
    VerbParts(verb, rule.deinflected, word, rest);
    BeginsWith(text, verb);
    VerbAt(text, |verb|, rule.inflected, word);
    VerbIsReplacedAt(text, |verb|, rule.inflected, rule.deinflected);
    PhrasalRule(rule, text);
  }

  /** A rule for phrasal verbs matches exactly the texts that start with a verb in its form and a particle or
      preposition. */
  lemma PhrasalMatches(rule: Affix, text: string)
    requires rule.Phrasal? && ' ' !in rule.inflected
    ensures IsInflectedBy(rule, text)
       <==> exists verb, word, rest :: StartsWord(verb, |verb|) && word in PHRASAL_WORDS
                                       && text == WithParticle(verb, rule.inflected, word, rest)
  {
    hide PHRASAL_WORDS, WithParticle;
    PhrasalRule(rule, text);
    if IsInflectedBy(rule, text) {
      var verb, word, rest := PhrasalParts(text, rule.inflected);
    }
    if verb, word, rest :| StartsWord(verb, |verb|) && word in PHRASAL_WORDS
                           && text == WithParticle(verb, rule.inflected, word, rest) {
      VerbIsReplaced(rule, verb, word, rest);
    }
  }

  lemma PhrasalParts(text: string, inflected: string) returns (verb: string, word: string, rest: string)
    requires IsPhrasal(text, inflected)
    ensures StartsWord(verb, |verb|) && word in PHRASAL_WORDS && text == WithParticle(verb, inflected, word, rest)
  {
    hide PHRASAL_WORDS, StartsWord, At, WithParticle;
    var k :| 0 <= k <= |text| && StartsWord(text, k) && VerbEndsAt(text, k, inflected);
    var n := k + |inflected|;
    var l :| 0 <= l < |PHRASAL_WORDS| && At(text, n + 1, PHRASAL_WORDS[l]);
    word := PHRASAL_WORDS[l];
    SpaceAt(text, n);
    PartAt(text, k, inflected);
    PartAt(text, n + 1, word);
    verb, rest := text[..k], text[n + 1 + |word|..];
    PrefixIsWord(text, k);
    Recombine(text, k, n, n + 1 + |word|);
  }

  lemma PartAt(text: string, i: nat, part: string)
    requires At(text, i, part)
    ensures i + |part| <= |text| && text[i..i + |part|] == part
  {
  }

  lemma PrefixIsWord(text: string, k: nat)
    requires k <= |text| && StartsWord(text, k)
    ensures StartsWord(text[..k], k)
  {
  }

  lemma Recombine(text: string, k: nat, n: nat, m: nat)
    requires k <= n < m <= |text| && text[n] == ' '
    ensures text == WithParticle(text[..k], text[k..n], text[n + 1..m], text[m..])
  {
    var tail := text[n..];
    assert tail == " " + text[n + 1..m] + text[m..];
    assert text == text[..k] + text[k..n] + tail;
  }

  lemma {:induction false} FirstObjectIs(text: string, i: nat, k: nat)
    requires i <= k < |text| && ObjectStartsAt(text, k)
    requires forall j :: i <= j < k ==> !ObjectStartsAt(text, j)
    ensures FirstObject(text, i) == k
    decreases k - i
  {
    hide ObjectStartsAt;
    if i < k {
      FirstObjectIs(text, i + 1, k);
    }
  }

  lemma {:induction false} LastEndIs(text: string, i: nat, from: nat, e: nat)
    requires 0 < e <= from < |text| && IsObject(text, i, e)
    requires forall f :: e < f <= from ==> !IsObject(text, i, f)
    ensures LastEnd(text, i, from) == e
  {
    hide IsObject;
    if e < from {
      LastEndIs(text, i, from - 1, e);
    }
  }

  /** An object holds no particle: it ends in front of the first whole one. */
  lemma WholeParticleEnds(text: string, i: nat, e: nat, k: nat, f: nat)
    requires IsObject(text, i, e) && k < |PHRASAL_WORDS| && WholeWordAt(text, e + 1, PHRASAL_WORDS[k]) && e < f
    requires e + 1 < |text| && text[e + 1] != ' '
    ensures !IsObject(text, i, f)
  {
    hide PHRASAL_WORDS, WholeWordAt, OneAt;
    assert !IsFree(text, e + 1);
  }

  lemma NoLaterEnd(text: string, i: nat, e: nat, k: nat)
    requires IsObject(text, i, e) && k < |PHRASAL_WORDS| && WholeWordAt(text, e + 1, PHRASAL_WORDS[k])
    requires e + 1 < |text| && text[e + 1] != ' '
    ensures forall f :: e < f <= |text| - 1 ==> !IsObject(text, i, f)
  {
    hide PHRASAL_WORDS, WholeWordAt, IsObject;
    forall f | e < f <= |text| - 1 ensures !IsObject(text, i, f) {
      WholeParticleEnds(text, i, e, k, f);
    }
  }

  lemma NoEarlierObject(text: string, i: nat)
    requires StartsWord(text, i)
    ensures forall j :: 0 <= j < i ==> !ObjectStartsAt(text, j)
  {
    hide IsFree, OneAt;
    assert forall j :: 0 <= j < i ==> text[j] != ' ';
  }

  lemma ObjectFits(text: string, i: nat, e: nat)
    requires 0 < i && StartsWord(text, i) && IsObject(text, i, e)
    ensures i + 1 < e < |text| && HasObject(text, i) && ObjectStartsAt(text, i) && IsInterposed(text)
  {
    hide OneAt, IsFree;
    assert i + 1 < e < |text|;
    hide IsObject;
  }

  lemma ObjectIsReplaced(text: string, i: nat, e: nat, deinflected: string)
    requires i < |text| && FirstObject(text, 0) == i && LastEnd(text, i, |text| - 1) == e
    ensures ReplaceObject(text, deinflected) == text[..i] + deinflected + text[e + 1..]
  {
    hide FirstObject, LastEnd;
  }

  lemma ObjectIsDroppedAt(text: string, i: nat, e: nat, k: nat, deinflected: string)
    requires 0 < i && StartsWord(text, i) && IsObject(text, i, e) && e + 1 < |text| && text[e + 1] != ' '
    requires k < |PHRASAL_WORDS| && WholeWordAt(text, e + 1, PHRASAL_WORDS[k])
    ensures IsInterposed(text) && ReplaceObject(text, deinflected) == text[..i] + deinflected + text[e + 1..]
  {
    hide PHRASAL_WORDS, WholeWordAt, IsObject, ObjectStartsAt, HasObject, StartsWord, IsInterposed, ReplaceObject;
    ObjectFits(text, i, e);
    NoLaterEnd(text, i, e, k);
    NoEarlierObject(text, i);
    FirstObjectIs(text, 0, i);
    LastEndIs(text, i, |text| - 1, e);
    ObjectIsReplaced(text, i, e, deinflected);
  }

  lemma ObjectAt(text: string, i: nat, e: nat, k: nat)
    requires i + 1 < e < |text| && text[i] == ' ' == text[e] && (forall j :: i < j < e ==> IsFree(text, j))
    requires k < |PARTICLES| && At(text, e + 1, PARTICLES[k])
    ensures IsObject(text, i, e)
  {
    hide At, IsFree, PARTICLES;
  }

  lemma WholeParticle(text: string, i: nat, particle: string, rest: string)
    requires 0 < i <= |text| && text[i..] == particle + rest && !IsWordChar(text[i - 1])
    requires particle != "" && StartsWord(particle, |particle|) && (rest != "" ==> !IsWordChar(rest[0]))
    ensures At(text, i, particle) && WholeWordAt(text, i, particle) && text[i] != ' '
  {
    var n := |particle|;
    assert |text| == i + n + |rest|;
    assert text[i..][0] == particle[0] && text[i..][n - 1] == particle[n - 1];
    assert rest != "" ==> text[i..][n] == rest[0];
    assert text[i..i + n] == text[i..][..n] == particle;
  }

  function WithObject(verb: string, between: string, particle: string, rest: string): string {
    verb + " " + between + " " + particle + rest
  }

  lemma ObjectParts(verb: string, between: string, particle: string, rest: string)
    ensures var text, e := WithObject(verb, between, particle, rest), |verb| + 1 + |between|;
            && |text| == e + 1 + |particle| + |rest| && text[|verb|] == ' ' == text[e]
            && text[..|verb|] == verb && text[e + 1..] == particle + rest
  {
    var x := verb + " " + between;
    var text := x + " " + particle + rest;
    assert text[..|verb|] == verb;
    assert text[|x| + 1..] == particle + rest;
  }

  lemma InterposedRule(rule: Affix, text: string)
    requires rule.Interposed?
    ensures IsInflectedBy(rule, text) == IsInterposed(text)
    ensures DeinflectBy(rule, text) == ReplaceObject(text, rule.deinflected)
  {
    hide IsInterposed, ReplaceObject;
  }

  /** A phrasal verb loses the object between the verb and a whole particle, and nothing else. */
  lemma ObjectIsDropped(rule: Affix, verb: string, between: string, particle: string, rest: string)
    requires rule.Interposed? && verb != "" && StartsWord(verb, |verb|) && between != "" && particle in PARTICLES
    requires particle != "" && StartsWord(particle, |particle|) && (rest != "" ==> !IsWordChar(rest[0]))
    requires var text := WithObject(verb, between, particle, rest);
             forall j :: |verb| < j <= |verb| + |between| ==> IsFree(text, j)
    ensures var text := WithObject(verb, between, particle, rest);
            IsInflectedBy(rule, text) && DeinflectBy(rule, text) == verb + rule.deinflected + (particle + rest)
  {
    assert !IsWordChar(' ');
    hide PARTICLES, PHRASAL_WORDS, IsWordChar, StartsWord, At, IsBoundary, WholeWordAt, IsFree, IsObject, WithObject;
    hide ReplaceObject, IsInterposed, IsInflectedBy, DeinflectBy;
    var text := WithObject(verb, between, particle, rest);
    var i, e := |verb|, |verb| + 1 + |between|;
    var k := ParticleIsWord(particle);
    ObjectParts(verb, between, particle, rest);
    BeginsWith(text, verb);
    WholeParticle(text, e + 1, particle, rest);
    ObjectAt(text, i, e, k);
    ObjectIsDroppedAt(text, i, e, k, rule.deinflected);
    InterposedRule(rule, text);
  }

  lemma ParticleIsWord(particle: string) returns (k: nat)
    requires particle in PARTICLES
    ensures k < |PARTICLES| && k < |PHRASAL_WORDS| && PARTICLES[k] == PHRASAL_WORDS[k] == particle
  {
    hide PARTICLES, PREPOSITIONS;
    k :| 0 <= k < |PARTICLES| && PARTICLES[k] == particle;
  }

  lemma OverReplaced(text: string, i: nat, j: nat, part: string, alphabet: set<char>)
    requires i + |part| <= j <= |text| && Over(text, alphabet) && Over(part, alphabet)
    ensures |text[..i] + part + text[j..]| <= |text| && Over(text[..i] + part + text[j..], alphabet)
  {
  }

  /** Neither rewriting lengthens the text, or brings in characters but those of its replacement. */
  lemma VerbStays(text: string, inflected: string, deinflected: string, alphabet: set<char>)
    requires |deinflected| <= |inflected| && Over(text, alphabet) && Over(deinflected, alphabet)
    ensures |ReplaceVerb(text, inflected, deinflected)| <= |text|
    ensures Over(ReplaceVerb(text, inflected, deinflected), alphabet)
  {
    hide OneAt, Over, FirstVerbEnd;
    var i := FirstVerbEnd(text, inflected, 0);
    if VerbEndsAt(text, i, inflected) {
      OverReplaced(text, i, i + |inflected|, deinflected, alphabet);
    }
  }

  lemma ObjectStays(text: string, deinflected: string, alphabet: set<char>)
    requires |deinflected| <= 1 && Over(text, alphabet) && Over(deinflected, alphabet)
    ensures |ReplaceObject(text, deinflected)| <= |text|
    ensures Over(ReplaceObject(text, deinflected), alphabet)
  {
    hide Over, FirstObject, LastEnd, IsObject;
    var i := FirstObject(text, 0);
    if i < |text| {
      FirstObjectFits(text, 0);
      var e :| i < e < |text| && IsObject(text, i, e);
      hide HasObject, ObjectStartsAt;
      LastEndFits(text, i, |text| - 1, e);
      OverReplaced(text, i, LastEnd(text, i, |text| - 1) + 1, deinflected, alphabet);
    }
  }

  lemma {:induction false} FirstObjectFits(text: string, i: nat)
    requires i <= |text|
    ensures FirstObject(text, i) < |text| ==> ObjectStartsAt(text, FirstObject(text, i))
    decreases |text| - i
  {
    hide ObjectStartsAt;
    if i < |text| && !ObjectStartsAt(text, i) {
      FirstObjectFits(text, i + 1);
    }
  }

  lemma {:induction false} LastEndFits(text: string, i: nat, from: nat, e: nat)
    requires from < |text| && e <= from && IsObject(text, i, e)
    ensures e <= LastEnd(text, i, from)
  {
    hide IsObject;
    if from > 0 && !IsObject(text, i, from) {
      LastEndFits(text, i, from - 1, e);
    }
  }

  // ---------------------------------------------------------------- tables that do not lengthen texts

  predicate AffixNeverLengthens(affix: Affix) {
    if affix.Interposed? then |affix.deinflected| <= 1
    else affix.inflected != "" && |affix.deinflected| <= |affix.inflected|
  }

  predicate AffixShortens(affix: Affix) {
    (affix.Suffix? || affix.Prefix?) && |affix.deinflected| < |affix.inflected|
  }

  predicate TableNeverLengthens(table: seq<AffixTransform>) {
    forall a, j :: 0 <= a < |table| && 0 <= j < |table[a].rules| ==> AffixNeverLengthens(table[a].rules[j])
  }

  predicate TableShortens(table: seq<AffixTransform>) {
    forall a, j :: 0 <= a < |table| && 0 <= j < |table[a].rules| ==> AffixShortens(table[a].rules[j])
  }

  lemma ShortTableShortens(m: FlagsMap, table: seq<AffixTransform>, ts: seq<Transform>)
    requires TableShortens(table) && AreCompiled(m, ToTransforms(table), ts)
    ensures Shortens(ts)
  {
    forall a, j, text: string | 0 <= a < |ts| && 0 <= j < |ts[a].rules| && ts[a].rules[j].isInflected(text)
      ensures |ts[a].rules[j].deinflect(text)| < |text|
    {
      CompiledAffix(m, table, ts, a, j);
    }
  }

  lemma CompiledAffix(m: FlagsMap, table: seq<AffixTransform>, ts: seq<Transform>, a: nat, j: nat)
    requires AreCompiled(m, ToTransforms(table), ts) && a < |ts| && j < |ts[a].rules|
    ensures a < |table| && j < |table[a].rules|
    ensures ts[a].rules[j].isInflected == ToRule(table[a].rules[j]).isInflected
    ensures ts[a].rules[j].deinflect == ToRule(table[a].rules[j]).deinflect
  {
    assert IsCompiled(m, ToTransforms(table)[a], ts[a]);
    assert IsCompiledRule(m, ToRules(table[a].rules)[j], ts[a].rules[j]);
  }

  ghost predicate Over(text: string, alphabet: set<char>) { forall i :: 0 <= i < |text| ==> text[i] in alphabet }

  /** The texts of at most `n` characters over an alphabet: finitely many. */
  ghost function AllTexts(alphabet: set<char>, n: nat): set<string> {
    if n == 0 then {""}
    else {""} + set c, x | c in alphabet && x in AllTexts(alphabet, n - 1) :: [c] + x
  }

  lemma {:induction false} InAllTexts(alphabet: set<char>, n: nat, text: string)
    ensures text in AllTexts(alphabet, n) <==> |text| <= n && Over(text, alphabet)
  {
    if n > 0 && text != "" {
      InAllTexts(alphabet, n - 1, text[1..]);
      assert text == [text[0]] + text[1..];
      if text in AllTexts(alphabet, n) {
        var c, x :| c in alphabet && x in AllTexts(alphabet, n - 1) && text == [c] + x;
        assert text[1..] == x;
        forall i | 0 <= i < |text| ensures text[i] in alphabet {
          if i > 0 { assert text[i] == x[i - 1]; }
        }
      }
    }
  }

  ghost function Letters(text: string): set<char> { set i | 0 <= i < |text| :: text[i] }

  ghost function TableLetters(table: seq<AffixTransform>): set<char> {
    set a, j, i | 0 <= a < |table| && 0 <= j < |table[a].rules| && 0 <= i < |table[a].rules[j].deinflected| ::
      table[a].rules[j].deinflected[i]
  }

  ghost function Outcomes(ts: seq<Transform>): set<Flags> {
    set a, j | 0 <= a < |ts| && 0 <= j < |ts[a].rules| :: ts[a].rules[j].conditionsOut
  }

  /** With rules that never lengthen a text, only finitely many texts can be reached. */
  ghost function ReachableUniverse(table: seq<AffixTransform>, ts: seq<Transform>,
      sourceText: string): set<(string, Flags)> {
    var alphabet := Letters(sourceText) + TableLetters(table);
    set x, c | x in AllTexts(alphabet, |sourceText|) && c in Outcomes(ts) + {0} :: (x, c)
  }

  lemma UniverseIsClosed(m: FlagsMap, table: seq<AffixTransform>, ts: seq<Transform>, sourceText: string)
    requires TableNeverLengthens(table) && AreCompiled(m, ToTransforms(table), ts)
    ensures var universe := ReachableUniverse(table, ts, sourceText);
            IsClosed(ts, universe) && (sourceText, 0) in universe
  {
    var alphabet := Letters(sourceText) + TableLetters(table);
    var n := |sourceText|;
    var universe := ReachableUniverse(table, ts, sourceText);
    InAllTexts(alphabet, n, sourceText);
    forall x, a, j | x in universe && 0 <= a < |ts| && 0 <= j < |ts[a].rules|
        ensures StaysIn(ts[a].rules[j], x, universe) {
      if ts[a].rules[j].isInflected(x.0) {
        CompiledAffix(m, table, ts, a, j);
        var affix := table[a].rules[j];
        InAllTexts(alphabet, n, x.0);
        DeinflectedStays(affix, x.0, alphabet, table, a, j);
        InAllTexts(alphabet, n, DeinflectBy(affix, x.0));
      }
    }
  }

  lemma DeinflectedStays(affix: Affix, text: string, alphabet: set<char>, table: seq<AffixTransform>, a: nat, j: nat)
    requires a < |table| && j < |table[a].rules| && affix == table[a].rules[j]
    requires AffixNeverLengthens(affix) && IsInflectedBy(affix, text)
    requires Over(text, alphabet) && TableLetters(table) <= alphabet
    ensures Over(DeinflectBy(affix, text), alphabet) && |DeinflectBy(affix, text)| <= |text|
  {
    assert Over(affix.deinflected, alphabet) by {
      forall i | 0 <= i < |affix.deinflected| ensures affix.deinflected[i] in alphabet {
        assert table[a].rules[j].deinflected[i] in TableLetters(table);
      }
    }
    match affix
    case Phrasal(inflected, deinflected, _, _) => VerbStays(text, inflected, deinflected, alphabet);
    case Interposed(deinflected, _, _) => ObjectStays(text, deinflected, alphabet);
    case _ =>
  }

  /** Running a table whose rules never lengthen a text: it terminates on every source. */
  method DeinflectText(transformer: Transformer, sourceText: string, ghost m: FlagsMap,
      ghost table: seq<AffixTransform>)
      returns (results: seq<TransformedText>)
    requires TableNeverLengthens(table) && AreCompiled(m, ToTransforms(table), transformer.transforms)
    ensures IsSearch(transformer.transforms, sourceText, results)
  {
    ghost var universe := ReachableUniverse(table, transformer.transforms, sourceText);
    UniverseIsClosed(m, table, transformer.transforms, sourceText);
    results := transformer.TransformText(sourceText, universe);
  }

  /** Every rule of a table that matches the source text leads to a result. */
  lemma TableIsReached(m: FlagsMap, table: seq<AffixTransform>, ts: seq<Transform>, sourceText: string,
      results: seq<TransformedText>, a: nat, j: nat)
    requires AreCompiled(m, ToTransforms(table), ts) && IsSearch(ts, sourceText, results)
    requires a < |table| && j < |table[a].rules| && IsInflectedBy(table[a].rules[j], sourceText)
    ensures exists r :: r in results && r.text == DeinflectBy(table[a].rules[j], sourceText)
                        && r.trace == [Frame(table[a].id, j, sourceText)]
  {
    hide IsInflectedBy, DeinflectBy;
    assert IsCompiled(m, ToTransforms(table)[a], ts[a]);
    assert IsCompiledRule(m, ToRules(table[a].rules)[j], ts[a].rules[j]);
    EveryRuleStarts(ts, sourceText, results, a, j);
  }

  // ---------------------------------------------------------------- Basque

  const NOMINAL := ["n", "adj"]
  const NOMINAL_OR_ADVERB := ["n", "adj", "adv"]
  const VERB := ["v"]
  const NOUN := ["n"]
  const ADVERB := ["adv"]

  function Single(id: string, inflected: string, deinflected: string, conditionsIn: seq<string>,
      conditionsOut: seq<string>): AffixTransform {
    AffixTransform(id, [Suffix(inflected, deinflected, conditionsIn, conditionsOut)])
  }

  const EU_CASES_1: seq<AffixTransform> := [
    Single("Absolutive Singular", "a", "", NOMINAL, NOMINAL),
    Single("Absolutive Plural", "ak", "", NOMINAL, NOMINAL),
    Single("Ergative Singular", "ak", "", NOMINAL, NOMINAL),
    Single("Ergative Plural", "ek", "", NOMINAL, NOMINAL),
    Single("Ergative Indefinite", "k", "", NOMINAL, NOMINAL),
    Single("Dative Singular", "ari", "", NOMINAL, NOMINAL),
    Single("Dative Plural", "ei", "", NOMINAL, NOMINAL),
    Single("Dative Indefinite", "ri", "", NOMINAL, NOMINAL),
    Single("Genitive Singular", "aren", "", NOMINAL, NOMINAL),
    Single("Genitive Plural", "en", "", NOMINAL, NOMINAL),
    Single("Genitive Indefinite", "ren", "", NOMINAL, NOMINAL),
    Single("Comitative Singular", "arekin", "", NOMINAL, NOMINAL),
    Single("Comitative Plural", "ekin", "", NOMINAL, NOMINAL),
    Single("Comitative Indefinite", "rekin", "", NOMINAL, NOMINAL),
    Single("Benefactive Singular", "arentzat", "", NOMINAL_OR_ADVERB, NOMINAL),
    Single("Benefactive Plural", "entzat", "", NOMINAL_OR_ADVERB, NOMINAL),
    Single("Benefactive Indefinite", "rentzat", "", NOMINAL_OR_ADVERB, NOMINAL),
    Single("Instrumental Singular", "az", "", NOMINAL_OR_ADVERB, NOMINAL)
  ]

  const EU_CASES_2: seq<AffixTransform> := [
    Single("Instrumental Plural", "ez", "", NOMINAL_OR_ADVERB, NOMINAL),
    Single("Instrumental Indefinite", "z", "", NOMINAL_OR_ADVERB, NOMINAL),
    Single("Inessive Singular", "an", "", NOMINAL, NOMINAL),
    Single("Inessive Plural", "etan", "", NOMINAL, NOMINAL),
    Single("Inessive Indefinite", "tan", "", NOMINAL, NOMINAL),
    Single("Allative Singular", "ra", "", NOMINAL, NOMINAL),
    Single("Allative Plural", "etara", "", NOMINAL, NOMINAL),
    Single("Allative Indefinite", "tara", "", NOMINAL, NOMINAL),
    Single("Ablative Singular", "tik", "", NOMINAL, NOMINAL),
    Single("Ablative Plural", "etatik", "", NOMINAL, NOMINAL),
    Single("Ablative Indefinite", "tatik", "", NOMINAL, NOMINAL),
    Single("Locative Genitive Singular", "ko", "", NOMINAL, NOMINAL),
    Single("Locative Genitive Singular (Voiced)", "go", "", NOMINAL, NOMINAL),
    Single("Locative Genitive Plural", "etako", "", NOMINAL, NOMINAL),
    Single("Locative Genitive Indefinite", "tako", "", NOMINAL, NOMINAL),
    Single("Directional Allative Singular", "rantz", "", NOMINAL, NOMINAL),
    Single("Directional Allative Plural", "etarantz", "", NOMINAL, NOMINAL),
    Single("Directional Allative Indefinite", "tarantz", "", NOMINAL, NOMINAL)
  ]

  const EU_CASES_3: seq<AffixTransform> := [
    Single("Terminative Allative Singular", "raino", "", NOMINAL, NOMINAL),
    Single("Terminative Allative Plural", "etaraino", "", NOMINAL, NOMINAL),
    Single("Terminative Allative Indefinite", "taraino", "", NOMINAL, NOMINAL),
    Single("Inessive Animate Singular", "arengan", "", NOMINAL, NOMINAL),
    Single("Inessive Animate Plural", "engan", "", NOMINAL, NOMINAL),
    Single("Inessive Animate Indefinite", "rengan", "", NOMINAL, NOMINAL),
    Single("Allative Animate Singular", "arengana", "", NOMINAL, NOMINAL),
    Single("Allative Animate Plural", "engana", "", NOMINAL, NOMINAL),
    Single("Allative Animate Indefinite", "rengana", "", NOMINAL, NOMINAL),
    Single("Ablative Animate Singular", "arengandik", "", NOMINAL, NOMINAL),
    Single("Ablative Animate Plural", "engandik", "", NOMINAL, NOMINAL),
    Single("Ablative Animate Indefinite", "rengandik", "", NOMINAL, NOMINAL),
    Single("Directional Allative Animate Singular", "arenganantz", "", NOMINAL, NOMINAL),
    Single("Directional Allative Animate Plural", "enganantz", "", NOMINAL, NOMINAL),
    Single("Directional Allative Animate Indefinite", "renganantz", "", NOMINAL, NOMINAL),
    Single("Terminative Allative Animate Singular", "arenganaino", "", NOMINAL, NOMINAL),
    Single("Terminative Allative Animate Plural", "enganaino", "", NOMINAL, NOMINAL),
    Single("Terminative Allative Animate Indefinite", "renganaino", "", NOMINAL, NOMINAL)
  ]

  const EU_VERBS: seq<AffixTransform> := [
    Single("Future Participle", "ko", "", VERB, VERB),
    Single("Future Participle (Voiced)", "go", "", VERB, VERB),
    Single("Habitual to -tu", "tzen", "tu", VERB, VERB),
    Single("Habitual to -tu (Soft)", "ten", "tu", VERB, VERB),
    Single("Habitual to -i", "tzen", "i", VERB, VERB),
    Single("Habitual to -n", "ten", "n", VERB, VERB),
    Single("Habitual to -si", "sten", "si", VERB, VERB),
    Single("Habitual to -tzi", "zten", "tzi", VERB, VERB),
    Single("Habitual to -tsi", "sten", "tsi", VERB, VERB),
    Single("Verbal Noun to -tu", "tzea", "tu", NOUN, VERB),
    Single("Verbal Noun to -tu (Soft)", "tea", "tu", NOUN, VERB),
    Single("Verbal Noun to -i", "tzea", "i", NOUN, VERB),
    Single("Verbal Noun to -n", "tea", "n", NOUN, VERB),
    Single("Verbal Noun to -si", "stea", "si", NOUN, VERB),
    Single("Verbal Noun to -tzi", "ztea", "tzi", NOUN, VERB),
    Single("Adverbial Participle to -tu", "ta", "", ADVERB, VERB),
    Single("Adverbial Participle after n", "da", "", ADVERB, VERB),
    Single("Adverbial Participle to -i", "ita", "i", ADVERB, VERB),
    Single("Negative/Adverbial Participle 1", "ik", "", ADVERB, VERB),
    Single("Negative/Adverbial Participle 2", "rik", "", ADVERB, VERB),
    Single("Adverbializer -ki", "ki", "", ADVERB, NOMINAL)
  ]

  const EU: seq<AffixTransform> := EU_CASES_1 + EU_CASES_2 + EU_CASES_3 + EU_VERBS

  lemma EuCases1()
    ensures TableShortens(EU_CASES_1)
  {
  }

  lemma EuCases2()
    ensures TableShortens(EU_CASES_2)
  {
  }

  lemma EuCases3()
    ensures TableShortens(EU_CASES_3)
  {
  }

  lemma EuVerbs()
    ensures TableShortens(EU_VERBS)
  {
  }

  lemma AppendShortens(x: seq<AffixTransform>, y: seq<AffixTransform>)
    requires TableShortens(x) && TableShortens(y)
    ensures TableShortens(x + y)
  {
  }

  /** Every Basque rule strictly shortens the text. */
  lemma EuShortens()
    ensures TableShortens(EU)
  {
    hide EU_CASES_1, EU_CASES_2, EU_CASES_3, EU_VERBS;
    EuCases1();
    EuCases2();
    EuCases3();
    EuVerbs();
    AppendShortens(EU_CASES_1, EU_CASES_2);
    AppendShortens(EU_CASES_1 + EU_CASES_2, EU_CASES_3);
    AppendShortens(EU_CASES_1 + EU_CASES_2 + EU_CASES_3, EU_VERBS);
  }

  /** Basque deinflection takes at most one step per character of the source, and never needs the cycle guard. */
  lemma BasqueTraces(m: FlagsMap, ts: seq<Transform>, sourceText: string, r: TransformedText, a: nat, j: nat)
    requires AreCompiled(m, ToTransforms(EU), ts) && IsChainTo(ts, sourceText, r)
    requires a < |ts| && j < |ts[a].rules|
    ensures |r.trace| <= |sourceText|
    ensures Extends(ts[a], j, r) <==> RuleMatches(ts[a].rules[j], r)
  {
    hide EU;
    EuShortens();
    ShortTableShortens(m, EU, ts);
    GuardNeverFires(ts, sourceText, r, a, j);
  }

  lemma ShorteningNeverLengthens(table: seq<AffixTransform>)
    requires TableShortens(table)
    ensures TableNeverLengthens(table)
  {
  }

  method DeinflectBasque(transformer: Transformer, sourceText: string, ghost m: FlagsMap)
      returns (results: seq<TransformedText>)
    requires AreCompiled(m, ToTransforms(EU), transformer.transforms)
    ensures IsSearch(transformer.transforms, sourceText, results)
  {
    hide EU;
    EuShortens();
    ShorteningNeverLengthens(EU);
    results := DeinflectText(transformer, sourceText, m, EU);
  }

  // ---------------------------------------------------------------- English

  const ADJECTIVE := ["adj"]
  const PLURAL := ["np"]
  const SINGULAR := ["ns"]
  const NOUN_OR_VERB := ["n", "v"]
  const NEGATABLE := ["adj", "adv", "v"]

  /** `doubledConsonantInflection` */
  function Doubled(consonants: string, suffix: string, conditionsIn: seq<string>,
      conditionsOut: seq<string>): seq<Affix> {
    seq(|consonants|, i requires 0 <= i < |consonants| =>
      Suffix([consonants[i], consonants[i]] + suffix, [consonants[i]], conditionsIn, conditionsOut))
  }

  /** Of these rules exactly the one for `c` matches a stem with `c` doubled, and it undoes the doubling. */
  lemma DoubledUndoubles(consonants: string, suffix: string, conditionsIn: seq<string>, conditionsOut: seq<string>,
                         stem: string, c: char, i: nat)
    requires i < |consonants|
    ensures var rule := Doubled(consonants, suffix, conditionsIn, conditionsOut)[i];
            var word := stem + ([c, c] + suffix);
            && (IsInflectedBy(rule, word) <==> consonants[i] == c)
            && (consonants[i] == c ==> DeinflectBy(rule, word) == stem + [c])
  {
    var rule := Doubled(consonants, suffix, conditionsIn, conditionsOut)[i];
    var word := stem + ([c, c] + suffix);
    assert word[|stem|] == c && rule.inflected[0] == consonants[i];
    if consonants[i] == c {
      SuffixIsReplaced(rule, stem);
    } else {
      assert word[|word| - |rule.inflected|..][0] == c;
    }
  }

  const PAST_SUFFIXES: seq<Affix> := [
    Suffix("ed", "", VERB, VERB), Suffix("ed", "e", VERB, VERB), Suffix("ied", "y", VERB, VERB),
    Suffix("cked", "c", VERB, VERB)
  ] + Doubled("bdgklmnprstz", "ed", VERB, VERB) + [
    Suffix("laid", "lay", VERB, VERB), Suffix("paid", "pay", VERB, VERB), Suffix("said", "say", VERB, VERB)
  ]

  const ING_SUFFIXES: seq<Affix> := [
    Suffix("ing", "", VERB, VERB), Suffix("ing", "e", VERB, VERB), Suffix("ying", "ie", VERB, VERB),
    Suffix("cking", "c", VERB, VERB)
  ] + Doubled("bdgklmnprstz", "ing", VERB, VERB)

  const THIRD_PERSON_SUFFIXES: seq<Affix> := [
    Suffix("s", "", VERB, VERB), Suffix("es", "", VERB, VERB), Suffix("ies", "y", VERB, VERB)
  ]

  const PHRASAL_VERB := ["v_phr"]

  /** `createPhrasalVerbInflectionsFromSuffixInflections` */
  function ToPhrasal(rules: seq<Affix>): seq<Affix>
    requires forall i :: 0 <= i < |rules| ==> rules[i].Suffix?
  {
    seq(|rules|, i requires 0 <= i < |rules| => Phrasal(rules[i].inflected, rules[i].deinflected, VERB, PHRASAL_VERB))
  }

  function WithPhrasal(id: string, rules: seq<Affix>): AffixTransform
    requires forall i :: 0 <= i < |rules| ==> rules[i].Suffix?
  {
    AffixTransform(id, rules + ToPhrasal(rules))
  }

  const EN_NOUNS: seq<AffixTransform> := [
    AffixTransform("plural", [
      Suffix("s", "", PLURAL, SINGULAR), Suffix("es", "", PLURAL, SINGULAR), Suffix("ies", "y", PLURAL, SINGULAR),
      Suffix("ves", "fe", PLURAL, SINGULAR), Suffix("ves", "f", PLURAL, SINGULAR)
    ]),
    AffixTransform("possessive", [Suffix("'s", "", NOUN, NOUN), Suffix("s'", "s", NOUN, NOUN)])
  ]

  const EN_VERBS: seq<AffixTransform> := [
    WithPhrasal("past", PAST_SUFFIXES),
    WithPhrasal("ing", ING_SUFFIXES),
    WithPhrasal("3rd pers. sing. pres", THIRD_PERSON_SUFFIXES)
  ]

  const EN_REST: seq<AffixTransform> := [
    AffixTransform("interposed object", [Interposed(" ", [], PHRASAL_VERB)]),
    AffixTransform("archaic", [Suffix("'d", "ed", VERB, VERB)]),
    AffixTransform("adverb", [
      Suffix("ly", "", ADVERB, ADJECTIVE), Suffix("ily", "y", ADVERB, ADJECTIVE), Suffix("ly", "le", ADVERB, ADJECTIVE)
    ]),
    AffixTransform("comparative", [
      Suffix("er", "", ADJECTIVE, ADJECTIVE), Suffix("er", "e", ADJECTIVE, ADJECTIVE),
      Suffix("ier", "y", ADJECTIVE, ADJECTIVE)
    ] + Doubled("bdgmnt", "er", ADJECTIVE, ADJECTIVE)),
    AffixTransform("superlative", [
      Suffix("est", "", ADJECTIVE, ADJECTIVE), Suffix("est", "e", ADJECTIVE, ADJECTIVE),
      Suffix("iest", "y", ADJECTIVE, ADJECTIVE)
    ] + Doubled("bdgmnt", "est", ADJECTIVE, ADJECTIVE)),
    AffixTransform("dropped g", [Suffix("in'", "ing", VERB, VERB)]),
    AffixTransform("-y", [
      Suffix("y", "", ADJECTIVE, NOUN_OR_VERB), Suffix("y", "e", ADJECTIVE, NOUN_OR_VERB)
    ] + Doubled("glmnprst", "y", [], NOUN_OR_VERB)),
    AffixTransform("un-", [Prefix("un", "", NEGATABLE, NEGATABLE)]),
    AffixTransform("going-to future", [Prefix("going to ", "", VERB, VERB)]),
    AffixTransform("will future", [Prefix("will ", "", VERB, VERB)]),
    AffixTransform("imperative negative", [Prefix("don't ", "", VERB, VERB), Prefix("do not ", "", VERB, VERB)]),
    AffixTransform("-able", [
      Suffix("able", "", ADJECTIVE, VERB), Suffix("able", "e", ADJECTIVE, VERB), Suffix("iable", "y", ADJECTIVE, VERB)
    ] + Doubled("bdgklmnprstz", "able", ADJECTIVE, VERB))
  ]

  const EN: seq<AffixTransform> := EN_NOUNS + EN_VERBS + EN_REST

  lemma PhrasalNeverLengthens(id: string, rules: seq<Affix>)
    requires forall i :: 0 <= i < |rules| ==> rules[i].Suffix? && AffixNeverLengthens(rules[i])
    ensures TableNeverLengthens([WithPhrasal(id, rules)])
  {
    var all := WithPhrasal(id, rules).rules;
    forall j | 0 <= j < |all| ensures AffixNeverLengthens(all[j]) {
      if j < |rules| {
        assert all[j] == rules[j];
      } else {
        assert AffixNeverLengthens(rules[j - |rules|]) && all[j].inflected == rules[j - |rules|].inflected;
      }
    }
  }

  lemma EnglishVerbsNeverLengthen()
    ensures TableNeverLengthens(EN_VERBS)
  {
    PhrasalNeverLengthens("past", PAST_SUFFIXES);
    PhrasalNeverLengthens("ing", ING_SUFFIXES);
    PhrasalNeverLengthens("3rd pers. sing. pres", THIRD_PERSON_SUFFIXES);
    hide PAST_SUFFIXES, ING_SUFFIXES, THIRD_PERSON_SUFFIXES, WithPhrasal, AffixNeverLengthens;
    var past, ing := WithPhrasal("past", PAST_SUFFIXES), WithPhrasal("ing", ING_SUFFIXES);
    AppendNeverLengthens([past], [ing]);
    AppendNeverLengthens([past] + [ing], [WithPhrasal("3rd pers. sing. pres", THIRD_PERSON_SUFFIXES)]);
    hide TableNeverLengthens;
    assert EN_VERBS == [past] + [ing] + [WithPhrasal("3rd pers. sing. pres", THIRD_PERSON_SUFFIXES)];
  }

  lemma EnglishNounsNeverLengthen()
    ensures TableNeverLengthens(EN_NOUNS)
  {
  }

  lemma EnglishRestNeverLengthen()
    ensures TableNeverLengthens(EN_REST)
  {
  }

  lemma AppendNeverLengthens(x: seq<AffixTransform>, y: seq<AffixTransform>)
    requires TableNeverLengthens(x) && TableNeverLengthens(y)
    ensures TableNeverLengthens(x + y)
  {
  }

  /** No rule of the English table lengthens the text. */
  lemma EnglishNeverLengthens()
    ensures TableNeverLengthens(EN)
  {
    hide EN_NOUNS, EN_VERBS, EN_REST;
    EnglishNounsNeverLengthen();
    EnglishVerbsNeverLengthen();
    EnglishRestNeverLengthen();
    AppendNeverLengthens(EN_NOUNS, EN_VERBS);
    AppendNeverLengthens(EN_NOUNS + EN_VERBS, EN_REST);
  }

  /** So English deinflection terminates on every source. */
  method DeinflectEnglish(transformer: Transformer, sourceText: string, ghost m: FlagsMap)
      returns (results: seq<TransformedText>)
    requires AreCompiled(m, ToTransforms(EN), transformer.transforms)
    ensures IsSearch(transformer.transforms, sourceText, results)
  {
    hide EN;
    EnglishNeverLengthens();
    results := DeinflectText(transformer, sourceText, m, EN);
  }

  /** The English search takes "-ing" from every verb, and finds the verb with and without an "e". */
  lemma GerundIsFound(m: FlagsMap, ts: seq<Transform>, stem: string, results: seq<TransformedText>)
    requires AreCompiled(m, ToTransforms(EN), ts) && IsSearch(ts, stem + "ing", results)
    ensures exists r :: r in results && r.text == stem
    ensures exists r :: r in results && r.text == stem + "e"
  {
    var a := GerundRules();
    SuffixIsReplaced(EN[a].rules[0], stem);
    SuffixIsReplaced(EN[a].rules[1], stem);
    hide EN;
    TableIsReached(m, EN, ts, stem + "ing", results, a, 0);
    TableIsReached(m, EN, ts, stem + "ing", results, a, 1);
    assert stem + "" == stem;
  }

  lemma GerundRules() returns (a: nat)
    ensures a < |EN| && |EN[a].rules| >= 2
    ensures EN[a].rules[0] == Suffix("ing", "", VERB, VERB) && EN[a].rules[1] == Suffix("ing", "e", VERB, VERB)
  {
    hide PAST_SUFFIXES, THIRD_PERSON_SUFFIXES, EN_REST;
    a := |EN_NOUNS| + 1;
    var rules := ING_SUFFIXES;
    assert WithPhrasal("ing", rules).rules[0] == rules[0] && WithPhrasal("ing", rules).rules[1] == rules[1];
    assert EN[a] == EN_VERBS[1];
  }
}
