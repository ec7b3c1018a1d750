# Verified models of a reader's text, image and concurrency core

A Dafny 4.11 model of the algorithms a Japanese and multilingual reader depends on, and proofs that they
keep what they are meant to keep. Code that works by changing things step by step is modelled by
methods with loops, arrays and classes, each proved against a specification function or predicate; pure
code is modelled by functions. The lemmas then say what those specifications mean.

| file | models |
|---|---|
| `Hangul.dfy`, `HangulOrder.dfy`, `HangulRoundTrip.dfy` | disassembly of Korean text into jamo, the six-stage machine that assembles it again, what the tables say, and the texts that come back |
| `Bits.dfy`, `ConditionFlags.dfy` | the resolver that gives every grammatical condition its bits |
| `LanguageTransformer.dfy` | the breadth-first deinflection search with its prefilter and cycle guard |
| `RuleTables.dfy` | suffix, prefix and phrasal-verb rules, and the Basque and English tables |
| `TextVariants.dfy`, `DiacriticVariants.dfy` | capped compositions of text processors and spellings |
| `Furigana.dfy` | alignment of a reading with kanji and kana |
| `DictCss.dfy`, `StyleSheets.dfy` | scoping of dictionary style sheets, and what it does to their rules |
| `Masonry.dfy` | the two-column layout |
| `WorkerPool.dfy`, `SharedPool.dfy` | the job pool as a state machine, and as an object that refines it |
| `ImageRegion.dfy`, `Margins.dfy`, `ImageDecoder.dfy`, `CropLimits.dfy` | region decoding, margin scan and cropping of page images, and what cropping can get wrong |
| `OcrDedup.dfy` | merging of recognized text blocks |
| `SelectText.dfy` | the scan of a paragraph's text nodes |
| `Utf16.dfy`, `Wrappers.dfy` | code units and white space, and small shared types and facts |

## What turned out false, and when it holds

- *Assembling Hangul undoes disassembling it.* False of two loose jamo that spell a syllable
  (`HangulRoundTrip.LooseJamoJoin`) and of NUL, which becomes the first consonant because the hash tables carry a
  key 0 (`HangulRoundTrip.NulBecomesConsonant`). A text comes back exactly when it has no NUL and every two
  neighbours stay apart (`HangulRoundTrip.ComesBackExactly`): the second is a syllable, or its first jamo is no
  vowel behind a consonant and cannot be added to the first. The other direction, that no jamo is lost, holds for
  every text (`Hangul.AssembleKeepsJamo`).
- *A scoped style sheet has the rules of the sheet.* False when a block with a nested rule ends in a declaration
  without semicolon, which becomes part of the nested rule's selector (`StyleSheets.LastDeclarationIsSwallowed`),
  and when the dictionary's name has a semicolon that cuts a nested selector (`StyleSheets.SemicolonInNameCuts`).
  These are the only cases (`StyleSheets.OutputKeepsRules`); for a name without semicolon only the first is left
  (`StyleSheets.FinishedSheetsKeepRules`).
- *A furigana segmentation is returned only when it is the only one.* True up to two kanji runs
  (`Furigana.TwoKanjiRuns`). With three, an ambiguous rest hides the choices in front of it
  (`Furigana.ThreeKanjiRunsAmbiguous`): there, something is returned exactly when one length of the first run, and no
  other, leaves a rest with exactly one alignment (`Furigana.ThreeKanjiRuns`), and this is the only alignment exactly
  when no other length leaves a rest with any (`Furigana.OtherLengthsDecide`). Whatever the number of runs, a returned
  segmentation is the only one exactly when no run on the way could take another length and leave an ambiguous rest
  (`Furigana.ReturnedIsOnlyExactly`).
- *When `Stop` returns, the jobs have finished.* A call that has the lock and looks at `stopped` keeps this in every
  run from there on exactly if it finds the pool open, or all accepted jobs finished already
  (`WorkerPool.StopWaitsExactly`). The call that closes the queue waits (`WorkerPool.StopWaitsForJobs`); another one
  can return while a job is running (`WorkerPool.OtherStopReturnsEarly`).
- *A crop has a size.* A page can be reported as nothing wide exactly when it is three pixels wide
  (`CropLimits.NarrowExactly`), and as nothing high exactly when its rows cannot be divided evenly among the rows
  of a taller thumbnail and one of them takes up a quarter of it (`CropLimits.FlatExactly`).
- *A crop keeps the ink that the margins keep.* On the native path the far edge can fall one pixel short
  (`CropLimits.SecondLineIsLost`). A sampled column or row of ink is lost exactly when the far margin, scaled,
  leaves a smaller remainder than the near one, but no less than the page exceeds its thumbnail
  (`CropLimits.LosesInkExactly`); never on pages at least twice the size of the thumbnail, or of its size
  (`CropLimits.SizesThatLoseNothing`).
- *A page without margins is reported whole.* A BMP page is reported whole exactly when its margins are the whole
  sample and sixteen divides its width and height (`ImageDecoder.BmpPageIsWhole`); the up to fifteen pixels beyond
  are dropped at the right and bottom.
- *Any page can be cropped.* The products of cropping can overflow a 32-bit int for exactly the sizes that
  `ImageDecoder.FitsInt` excludes (`CropLimits.SizesThatOverflow`, `CropLimits.TallStripOverflows`).
- *A scan stops between characters.* With a limit on its length it can cut a pair of surrogates
  (`SelectText.FirstCharacterIsCut`), exactly when all text is scanned, the limit falls inside the pair and no
  boundary comes first (`SelectText.CutsPairExactly`). When only Japanese text is scanned it never does, because
  nothing beyond the first plane is scanned at all, Japanese or not (`SelectText.NoSurrogateIsScanned`,
  `SelectText.KanjiBeyondFirstPlane`).
- *A scan never runs across the end of a sentence.* The exclamation and question marks of ASCII end a sentence but
  stop a scan only when nothing but Japanese text is scanned (`SelectText.SentenceEndsStop`).
- *A pixel taken for a background belongs to it.* A white or black pixel does exactly when its alpha exceeds 100;
  below that it counts as ink on its own background (`Margins.SeeThroughIsInk`).
- *The condition resolver accepts up to 32 conditions.* It counts leaves only, and the error for a cycle or an
  undefined name is the one for too many conditions (`ConditionFlags.GetConditionFlagsMap`).

## Model

| member | source | states |
|---|---|---|
| Hangul.DisassembleText | assets/yomitan_language_bundle.js:274-328 | the loop yields the parts of every code unit, in order; HangulOrder says what the parts are |
| Hangul.BasicParts | assets/yomitan_language_bundle.js:303-322 | exactly the basic units (simple jamo and everything that is not Korean, not NUL) disassemble to themselves |
| Hangul.PartsAreBasic | assets/yomitan_language_bundle.js:285-325 | disassembling once is enough: every part is basic |
| Hangul.SyllableParts | assets/yomitan_language_bundle.js:285-302 | the syllable code built from three jamo by the Hangul arithmetic of section 3.12 of the Unicode Standard disassembles to exactly their spellings; HangulOrder ties these to the two blocks |
| Hangul.ComposeParts | assets/yomitan_language_bundle.js:341-404 | a group of jamo is what its composed code unit disassembles to |
| Hangul.ReassembleKeepsUnits | assets/yomitan_language_bundle.js:405-481 | tokenizing basic units and composing the groups loses, doubles and reorders nothing |
| Hangul.StageMoveIsFeed | assets/yomitan_language_bundle.js:413-477 | in each of the six stages the machine closes, extends or splits the pending group exactly as a tokenizer without stages does |
| Hangul.Assembler.MakeHangul | assets/yomitan_language_bundle.js:341-404 | appends the code unit composed from the pending units and moves `complete_index` there, with all its branches on one to five units |
| Hangul.Assembler.Consume | assets/yomitan_language_bundle.js:405-479 | one turn of the loop keeps stage, join flag and pending units in step with the tokenizer |
| Hangul.Assembler.Run | assets/yomitan_language_bundle.js:405-481 | the whole machine computes the tokenizer's result |
| Hangul.Assemble | assets/yomitan_language_bundle.js:336-482 | for every text, disassembling the result gives the jamo of the text; complete syllables and plain characters come back unchanged |
| Hangul.AssembleKeepsJamo | assets/yomitan_language_bundle.js:336-339 | disassemble(assemble(s)) = disassemble(s) for every text |
| Hangul.AssembleIsIdempotent | assets/yomitan_language_bundle.js:336-482 | assembling twice is assembling once |
| Hangul.WholeTextRoundTrip | assets/yomitan_language_bundle.js:274-482 | assemble(disassemble(s)) = s for text of complete syllables and non-jamo, non-NUL units |
| HangulRoundTrip.ComesBackExactly | assets/yomitan_language_bundle.js:336-482 | assembling gives a text back if and only if it has no NUL and its neighbours stay apart |
| HangulRoundTrip.PairsDecide | assets/yomitan_language_bundle.js:405-481 | that is decided by the single units and the pairs of neighbours alone |
| HangulRoundTrip.AssembleAgain | assets/yomitan_language_bundle.js:336-482 | the machine returns its input exactly for those texts, and the same jamo for all |
| HangulRoundTrip.LooseJamoJoin | assets/yomitan_language_bundle.js:419-421 | a loose consonant and a loose vowel come back as a syllable |
| HangulRoundTrip.NulBecomesConsonant | assets/yomitan_language_bundle.js:227-234 | NUL comes back as the first consonant |
| HangulRoundTrip.LooseJamoAlone | assets/yomitan_language_bundle.js:336-482 | a single loose jamo comes back although it is no complete syllable |
| HangulRoundTrip.WholeIsStable | assets/yomitan_language_bundle.js:336-482 | text of complete syllables and other characters meets the condition for coming back |
| HangulOrder.LeadsInOrder | assets/yomitan_language_bundle.js:32-52 | the first unit of a disassembled syllable grows with the syllable, strictly from one leading consonant to the next |
| HangulOrder.LeadsAreSingle | assets/yomitan_language_bundle.js:32-52 | the first units are exactly the nineteen consonants of the jamo block that are no clusters |
| HangulOrder.VowelIsSpelled | assets/yomitan_language_bundle.js:52-75 | a syllable without final is its leading consonant and the parts of the vowel jamo of its number |
| HangulOrder.VowelsInOrder | assets/yomitan_language_bundle.js:52-75 | the spellings of the vowels grow with their codes |
| HangulOrder.FinalsInOrder | assets/yomitan_language_bundle.js:75-104 | every syllable with a final ends in the parts of exactly one consonant jamo, whose code grows with the final |
| HangulOrder.FinalsAreExact | assets/yomitan_language_bundle.js:75-104 | these are exactly the consonants of the block but three doubled ones |
| HangulOrder.PairsJoin | assets/yomitan_language_bundle.js:206-226 | two consonants or two vowels are written as one if and only if they are one of eighteen pairs |
| HangulOrder.JoinedInOrder | assets/yomitan_language_bundle.js:206-226 | the joined jamo of a kind grow with their pairs, and stand behind the first of the two |
| HangulOrder.JoinedAreExact | assets/yomitan_language_bundle.js:206-226 | the joined jamo are exactly the clusters and the vowels that two units spell |
| Bits.HasBit | assets/yomitan_language_bundle.js:1323 | `1 << j` has bit k exactly when j = k, in 32 bits |
| Bits.SomeFlag | assets/yomitan_language_bundle.js:1301-1303 | a nonzero 32-bit word has one of the 32 bits |
| ConditionFlags.GetConditionFlagsStrict | assets/yomitan_language_bundle.js:1348-1358 | null exactly when a type is missing, otherwise the union of the types' flags |
| ConditionFlags.GetConditionFlags | assets/yomitan_language_bundle.js:1364-1374 | the union over the types that are known; unknown ones count as nothing |
| ConditionFlags.GetConditionFlagsMap | assets/yomitan_language_bundle.js:1310-1342 | succeeds if and only if every sub-condition is defined, the hierarchy has no cycle and the leaves fit in the bits left; then every type has flags and the next index has grown by the number of leaves |
| ConditionFlags.FullMeansGood | assets/yomitan_language_bundle.js:1313-1340 | if the rounds resolve every type, the hierarchy is defined and acyclic |
| ConditionFlags.StuckMeansBad | assets/yomitan_language_bundle.js:1336-1338 | a round without progress means an undefined name or a cycle |
| ConditionFlags.FlagsAreLeaves | assets/yomitan_language_bundle.js:1325-1334 | a type has a bit if and only if a leaf that it reaches owns the bit |
| ConditionFlags.LeafBitsAreFresh | assets/yomitan_language_bundle.js:1319-1324 | every leaf has a bit of its own, none below the first free index |
| ConditionFlags.FlagsOfOneType | assets/yomitan_language_bundle.js:1319-1334 | a type without a list of sub-conditions has exactly one flag, one with an empty list none |
| ConditionFlags.MatchMeansSharedLeaf | assets/yomitan_language_bundle.js:1301-1303 | nonzero conditions match if and only if the two lists of types reach a common leaf |
| LanguageTransformer.Transformer.constructor | assets/yomitan_language_bundle.js:1150-1155 | a new transformer has no transforms and no conditions |
| LanguageTransformer.Transformer.Clear | assets/yomitan_language_bundle.js:1157-1162 | clearing gives the state of a new transformer |
| LanguageTransformer.Transformer.AddDescriptor | assets/yomitan_language_bundle.js:1167-1212 | succeeds exactly for acceptable descriptors whose rules name known conditions; then appends the compiled transforms and registers the flags; a failure changes nothing |
| LanguageTransformer.Transformer.RegisterConditions | assets/yomitan_language_bundle.js:1201-1211 | every type is registered, and as a part of speech exactly when it is a dictionary form |
| LanguageTransformer.Transformer.TransformText | assets/yomitan_language_bundle.js:1237-1272 | terminates when the reachable texts lie in a finite set, with the results that solve the search equation: the source, then the children of every result in order |
| LanguageTransformer.HeuristicLosesNothing | assets/yomitan_language_bundle.js:1193-1194 | a transform that the joined prefilter skips would have added nothing |
| LanguageTransformer.ResultIsChain | assets/yomitan_language_bundle.js:1237-1272 | every result is a derivation: replaying its newest-first trace gives its text and conditions, every step's rule matches, and no frame repeats |
| LanguageTransformer.ChainIsResult | assets/yomitan_language_bundle.js:1237-1272 | every derivation is among the results |
| LanguageTransformer.ResultsAreDistinct | assets/yomitan_language_bundle.js:1237-1272 | no derivation is listed twice |
| LanguageTransformer.ResultOrder | assets/yomitan_language_bundle.js:1239-1267 | results are ordered by parent, then by transform and rule |
| LanguageTransformer.AppliesExactly | assets/yomitan_language_bundle.js:1247-1265 | a step that is not in a result's trace gives a further result if and only if its rule matches the text and the result has no conditions or shares a flag with the rule |
| LanguageTransformer.EveryRuleStarts | assets/yomitan_language_bundle.js:1238-1265 | every rule that matches the source text gives a result, whatever conditions it asks for |
| LanguageTransformer.ShortestFirst | assets/yomitan_language_bundle.js:1239-1267 | shorter derivations come before longer ones |
| LanguageTransformer.ExpandingLosesWeight | assets/yomitan_language_bundle.js:1239-1267 | expanding a result lowers a natural-number measure of the worklist: the search terminates |
| LanguageTransformer.TraceIsShort | assets/yomitan_language_bundle.js:1255-1260 | with the guard no trace is longer than rules times reachable texts |
| LanguageTransformer.ShorteningTrace | assets/yomitan_language_bundle.js:1261-1265 | with strictly shortening rules trace length plus result length is at most the source length |
| LanguageTransformer.GuardNeverFires | assets/yomitan_language_bundle.js:1255-1260 | with strictly shortening rules the cycle guard excludes nothing |
| RuleTables.SuffixIsReplaced | assets/yomitan_transforms/en.js:3-13 | a suffix rule matches stem plus inflected suffix and turns it into stem plus base suffix |
| RuleTables.PrefixIsReplaced | assets/yomitan_transforms/en.js:14-23 | the same for prefixes |
| RuleTables.AffixMatches | assets/yomitan_transforms/en.js:3-23 | an affix rule matches exactly the texts that a stem and its affix make up |
| RuleTables.DoubledUndoubles | assets/yomitan_transforms/en.js:26-32 | a stem with a consonant doubled is matched by exactly the rule for that consonant, and becomes the stem with one |
| RuleTables.UniverseIsClosed | assets/yomitan_language_bundle.js:1237-1272 | a never-lengthening table keeps every source within finitely many texts |
| RuleTables.DeinflectText | assets/yomitan_language_bundle.js:1237-1272 | so the search terminates for every source and every never-lengthening table |
| RuleTables.TableIsReached | assets/yomitan_language_bundle.js:1238-1265 | every rule of a table that matches the source text leads to a result |
| RuleTables.EuShortens | assets/yomitan_transforms/eu.js:38-340 | every Basque rule strictly shortens the text |
| RuleTables.BasqueTraces | assets/yomitan_transforms/eu.js:38-340 | Basque traces are at most as long as the source, and the guard never fires |
| RuleTables.DeinflectBasque | assets/yomitan_transforms/eu.js:38-340 | the Basque search terminates for every source |
| RuleTables.EnglishNeverLengthens | assets/yomitan_transforms/en.js:25-290 | no rule of the English table lengthens a text, those for phrasal verbs included |
| RuleTables.DeinflectEnglish | assets/yomitan_transforms/en.js:133-290 | the English search terminates for every source |
| RuleTables.GerundIsFound | assets/yomitan_transforms/en.js:55-62 | for a stem with "ing" the results hold the stem, and the stem with "e" |
| RuleTables.VerbIsReplaced | assets/yomitan_transforms/en.js:80-89 | in a phrasal verb the ending of the verb is replaced, and nothing else, whatever else in the text looks like it |
| RuleTables.PhrasalMatches | assets/yomitan_transforms/en.js:80-89 | a phrasal-verb rule matches exactly the texts that start with a verb in its form and a particle or preposition |
| RuleTables.ObjectIsDropped | assets/yomitan_transforms/en.js:71-79 | an object between a verb and a whole particle is dropped, and nothing else |
| TextVariants.ApplyProcessor | assets/yomitan_language_bundle.js:1672-1684 | the texts that the entries offer are taken in order until the map is full, each where it first comes, with the first of its chains up to the cap; every text and chain comes from a variant before; without truncation the texts are exactly the images, and below the caps the whole ordered map is what it would be without caps |
| TextVariants.GetVariants | assets/yomitan_language_bundle.js:1670-1687 | never more than the cap of texts or chains; every chain names, in order, the processors that changed the text along a real path; uncapped, the texts are exactly the reachable ones, and below the caps every path leaves its chain with its text; processors that offer their input first keep the untouched text with the empty chain |
| TextVariants.ReachableByPath | assets/yomitan_language_bundle.js:1672-1684 | a text is reachable if and only if a path through all processors leads to it |
| TextVariants.ChainIsChanges | assets/yomitan_language_bundle.js:1672-1684 | a chain lists the processors that changed the text, first to last |
| TextVariants.EveryPathIsHeld | assets/yomitan_language_bundle.js:1672-1684 | without caps every path through the processors leaves its chain with the text that it leads to |
| DiacriticVariants.GenerateDiacriticVariants | assets/yomitan_language_bundle.js:1424-1472 | at most 4096 pairwise different spellings, the text itself first; all of them exactly when the product of the choices fits |
| DiacriticVariants.SpellingsOf | assets/yomitan_language_bundle.js:1428-1461 | without a cap, as many spellings as the product of the choices per segment, any two different |
| DiacriticVariants.ChoicesAreMarks | assets/yomitan_language_bundle.js:1428-1461 | a segment is written as it is, or as one letter that is the segment but for its mark, and in no other way |
| DiacriticVariants.SpellingsDifferInMarks | assets/yomitan_language_bundle.js:1428-1461 | every spelling is the text but for marks |
| DiacriticVariants.AllSpellings | assets/yomitan_language_bundle.js:1428-1461 | for a text without marks and without capital J the spellings are exactly the texts that unmark to it |
| DiacriticVariants.CapBeforeFlatMap | assets/yomitan_language_bundle.js:1463-1469 | capping after every character gives what capping once at the end would |
| Furigana.GetFuriganaKanaSegments | assets/hoshi_popup/popup.js:291-305 | the segments spell the kana and the reading of the same length; they are cut exactly where equal and different units meet, with furigana where these differ |
| Furigana.SegmentizeFurigana | assets/hoshi_popup/popup.js:308-361 | the search with its early break on the last run computes the search without it |
| Furigana.SearchFindsOnlySplit | assets/hoshi_popup/popup.js:337-359 | the loop over a kanji run's length succeeds exactly when one length leaves a segmentable rest |
| Furigana.LastRunTakesAll | assets/hoshi_popup/popup.js:354-357 | for the last group only the whole reading is left to take |
| Furigana.SegmentsAreAligned | assets/hoshi_popup/popup.js:308-361 | anything returned is what some alignment displays |
| Furigana.OnlyAlignmentIsFound | assets/hoshi_popup/popup.js:308-361 | if exactly one alignment exists, it is returned |
| Furigana.TwoKanjiRuns | assets/hoshi_popup/popup.js:308-361 | with at most two kanji runs, something is returned if and only if the alignment is unique |
| Furigana.OneKanjiRunIsUnambiguous | assets/hoshi_popup/popup.js:308-361 | with one kanji run there is at most one alignment |
| Furigana.ThreeKanjiRunsAmbiguous | assets/hoshi_popup/popup.js:337-359 | with three kanji runs a segmentation can be returned although another alignment exists |
| Furigana.ThreeKanjiRuns | assets/hoshi_popup/popup.js:337-359 | from a kanji run with at most two more behind it, something is returned if and only if exactly one length of the run leaves exactly one alignment of the rest |
| Furigana.OtherLengthsDecide | assets/hoshi_popup/popup.js:337-359 | a length that leaves one alignment belongs to the only alignment if and only if no other length leaves any |
| Furigana.ReturnedIsOnlyExactly | assets/hoshi_popup/popup.js:337-359 | for any number of runs, a returned segmentation displays the only alignment if and only if no run on the way could take another length and leave an ambiguous rest |
| Furigana.AlignmentSpells | assets/hoshi_popup/popup.js:314-352 | an alignment displays the groups' text and exactly the reading |
| Furigana.AlignmentIsCut | assets/hoshi_popup/popup.js:314-340 | an alignment is lengths that add up to the reading, each kana run taking the same kana and each kanji run at least a unit per kanji |
| Furigana.SegmentsDisplay | assets/hoshi_popup/popup.js:291-352 | what an alignment displays: kanji with furigana, kana with furigana only where the reading has another form of it, neighbours of different kinds |
| Furigana.KanaAreParallel | assets/hoshi_popup/popup.js:225-227 | katakana and hiragana correspond in the order of their blocks |
| Furigana.RunsAlternate | assets/hoshi_popup/popup.js:11-13 | the pattern cuts an expression where kanji and other units meet, and nowhere else |
| Furigana.GroupsSpell | assets/hoshi_popup/popup.js:368-374 | the groups of an expression spell it |
| Furigana.SegmentFurigana | assets/hoshi_popup/popup.js:363-384 | the segments concatenate to the expression, and their readings to the whole reading; a unique alignment is displayed, with furigana on kanji and on kana of another form only; without a segmentation the whole expression carries the reading |
| DictCss.ConstructDictCss | assets/hoshi_popup/popup.js:448-526 | terminates and computes the scoped sheet for every input; comment-free balanced sheets keep exactly their braces, in order |
| DictCss.ScopeContent | assets/hoshi_popup/popup.js:486-522 | a block keeps its declarations, and its nested rules are scoped behind them; balanced blocks keep their braces |
| DictCss.SplitBlock | assets/hoshi_popup/popup.js:487-515 | the declarations and the nested rules of a block; for balanced blocks the former have no brace and the latter all of them |
| DictCss.BlockEnd | assets/hoshi_popup/popup.js:479-485 | in balanced text the loop ends right behind the brace that closes the block |
| DictCss.ScopeHasNoBrace | assets/hoshi_popup/popup.js:468-477 | scoping selectors adds no brace |
| DictCss.CommentIsKept | assets/hoshi_popup/popup.js:459-465 | a closed comment is kept, and what follows it is scoped |
| StyleSheets.ScopesTheTree | assets/hoshi_popup/popup.js:448-526 | scoping the text of a rule tree gives the text of the scoped tree: selectors scoped, declarations in front of the nested rules, and text without a semicolon swallowed by the first of them |
| StyleSheets.TreeOf | assets/hoshi_popup/popup.js:479-515 | every comment-free balanced sheet is the text of a rule tree |
| StyleSheets.ScopesEverySheet | assets/hoshi_popup/popup.js:448-526 | so every such sheet is scoped rule by rule |
| StyleSheets.ScopesEveryRule | assets/hoshi_popup/popup.js:448-526 | the tree of the output has the rules of the input in the same order, each with its own declarations and its selectors scoped, if and only if nothing stands behind the last semicolon or brace of a block with nested rules and no nested selector gets a semicolon |
| StyleSheets.SheetIsReadOnce | assets/hoshi_popup/popup.js:479-515 | a text is read back as at most one rule tree |
| StyleSheets.ScopedIsSheet | assets/hoshi_popup/popup.js:448-526 | the output, for a name without braces, is a rule tree again |
| StyleSheets.OutputKeepsRules | assets/hoshi_popup/popup.js:448-526 | whatever tree the output is read back as has the scoped rules of the input under exactly that condition |
| StyleSheets.FinishedSheetsKeepRules | assets/hoshi_popup/popup.js:508-514 | for a name without semicolon only the text behind the last semicolon or brace decides |
| StyleSheets.LastDeclarationIsSwallowed | assets/hoshi_popup/popup.js:511-519 | `a{b{c:d}e:f}` loses its last declaration to the selector of the nested rule |
| StyleSheets.SemicolonInNameCuts | assets/hoshi_popup/popup.js:496-514 | `a{b{c:d}}` loses its nested selector when the name of the dictionary is `D;` |
| StyleSheets.SplitItems | assets/hoshi_popup/popup.js:487-515 | splitting the text of a block gives back its declarations and its nested rules |
| StyleSheets.SplitIsExact | assets/hoshi_popup/popup.js:469 | selector lists are cut at every comma and nowhere else |
| StyleSheets.TrimIsExact | assets/hoshi_popup/popup.js:470 | trimming removes the white space around a selector and nothing else |
| StyleSheets.TrimmedIsUnique | assets/hoshi_popup/popup.js:470 | there is only one such text |
| StyleSheets.ListIsScoped | assets/hoshi_popup/popup.js:469-477 | a selector list is scoped selector by selector: the prefix and a space in front of the trimmed selector, one that starts with `&` as it was, nothing for an empty one |
| Masonry.LayoutMasonry | assets/hoshi_popup/popup.js:2011-2024 | every item goes to the end of the lower column, the left one if they are level; items of one column lie in disjoint intervals inside the section, the columns side by side with a gap; the taller column is at most half of sum plus largest, and at most 1.5 times that of any other split |
| Masonry.SplitLowerBound | assets/hoshi_popup/popup.js:2011-2024 | no split does better than half the sum, or than the largest item |
| WorkerPool.NewPoolInv | go/server.go:62-82 | a new pool satisfies the invariant |
| WorkerPool.StepInv | go/server.go:84-121 | every atomic step of every goroutine keeps the invariant |
| WorkerPool.StepNoPanic | go/server.go:98-118 | no send on, or second close of, the closed channel; no unlock and no `Done` too many |
| WorkerPool.PoolIsSafe | go/server.go:62-121 | in every run the queue stays within capacity, every accepted job is queued, running or finished exactly once, `Submit` tells the truth, and a call begun after the stop is refused |
| WorkerPool.FalseOnlyIfStopped | go/server.go:92-107 | in every run `Submit` refuses a job only if the pool is stopped, and a nil job always |
| WorkerPool.WaitsOnlyForRoom | go/server.go:62-70 | in every run a sender waits only while eight jobs for each worker are queued |
| WorkerPool.StoppedForGood | go/server.go:101-103 | once stopped, the pool stays stopped and accepts nothing more |
| WorkerPool.StopWaitsForJobs | go/server.go:110-121 | when the `Stop` that closed the queue has returned, every accepted job has finished |
| WorkerPool.OtherStopReturnsEarly | go/server.go:110-121 | a run in which another `Stop` returns while a job is running |
| WorkerPool.StopWaitsExactly | go/server.go:110-121 | in every run, a `Stop` that has the lock returns with all accepted jobs finished if and only if it finds the pool open or nothing left to do |
| WorkerPool.StepLowersWork | go/server.go:84-121 | every pool step lowers a natural-number measure of the work left; a new call adds at most seven |
| WorkerPool.NoDeadlock | go/server.go:84-121 | while a call has not returned, some pool step is enabled |
| WorkerPool.RunIsBounded | go/server.go:84-121 | a run takes at most as many pool steps as there was work, plus a constant per call |
| WorkerPool.StuckMeansReturned | go/server.go:84-121 | a run that cannot go on has returned from every call, with all accepted jobs finished if it was stopped |
| WorkerPool.OpenPoolTakesAll | go/server.go:84-107 | a run of a pool that is not stopped, and that cannot go on, has accepted and finished the job of every call |
| SharedPool.Pool.SendJob | go/server.go:105 | the send refines the machine's step, and the channel is open |
| SharedPool.Pool.UnlockForReading | go/server.go:99-106 | the deferred unlock refines the machine's step; the result is true exactly when the job was accepted |
| SharedPool.Pool.CloseJobs | go/server.go:117 | the close refines the machine's step, and the channel was open |
| SharedPool.Pool.FinishWaiting | go/server.go:120 | after the wait the queue is empty and the finished jobs are the accepted ones |
| SharedPool.Pool.LeavePool | go/server.go:86 | `Done` refines the machine's step, and the wait group was positive |
| ImageRegion.DecodeRgba | lib/ffi/image_decoder.cpp:2007-2025 | every output pixel is the source pixel at offset plus index times step; nothing else is written, and nothing at all for an empty region |
| ImageRegion.DecodeBmpRegion | lib/ffi/image_decoder.cpp:209-250 | the same for a BMP file in either row order; it fails exactly for an empty region or a row that is cut off, and then the rows before that one have been written |
| ImageRegion.SamePictureSameBytes | lib/ffi/image_decoder.cpp:209-250 | decoders of equal pictures write equal bytes |
| ImageRegion.StoresAgree | lib/ffi/image_decoder.cpp:224-245 | files that list the rows of a picture from the top or from the bottom, and memory, hold the same picture, and every row can be read |
| ImageRegion.BmpRegionBytes | lib/ffi/image_decoder.cpp:209-250 | byte by byte, a decoded region of a file that stores a picture row by row holds the bytes of the picture, its top row first |
| ImageRegion.TileOfRegion | lib/ffi/image_decoder.cpp:212-236 | a pixel of a tile cut at multiples of the step is the pixel of the whole region at that place |
| ImageRegion.StitchedIsWhole | lib/ffi/image_decoder.cpp:212-236 | stitching such tiles gives the bytes of decoding the region at once |
| ImageRegion.CutSpan | lib/ffi/image_decoder.cpp:212-213 | cutting a span at multiples of the step splits its sample count exactly |
| Margins.FindBackground | lib/ffi/image_decoder.cpp:36-61 | the background on which at least five of the eight samples agree, or none when no background has five |
| Margins.OneMajority | lib/ffi/image_decoder.cpp:57-61 | two backgrounds cannot both have five, so the order of the tests does not matter |
| Margins.MajorityIsMoreThanHalf | lib/ffi/image_decoder.cpp:61-65 | a background is agreed on by more than half of the samples |
| Margins.SamplesAreEdges | lib/ffi/image_decoder.cpp:43-53 | the samples are the corners and the middles of the edges |
| Margins.SeeThroughIsInk | lib/ffi/image_decoder.cpp:35-85 | a pixel that looks like a background belongs to it, but for a white or black one with an alpha of at most 100 |
| Margins.RowInk | lib/ffi/image_decoder.cpp:87-97 | one stray pixel aside, more than one percent of an inked row is ink |
| Margins.ColumnInk | lib/ffi/image_decoder.cpp:114-124 | the same for columns |
| Margins.GreyLevels | lib/ffi/image_decoder.cpp:35-85 | which greys are taken for white or black background, and which belong to it |
| Margins.ScanRows | lib/ffi/image_decoder.cpp:87-112 | the shortest span that holds every row above the threshold, or all rows |
| Margins.ScanColumns | lib/ffi/image_decoder.cpp:114-138 | the same for columns |
| Margins.FindMargins | lib/ffi/image_decoder.cpp:36-151 | a nonempty rectangle, at least a quarter of the image each way, that holds every row and column above the threshold; the box of those or the whole image |
| Margins.BoxIsKept | lib/ffi/image_decoder.cpp:140-151 | the box of the ink is kept if and only if it is a quarter of the page each way, rounded down |
| Margins.MarginsAreUnique | lib/ffi/image_decoder.cpp:36-151 | this determines the rectangle |
| ImageDecoder.MakeThumbnail | lib/ffi/image_decoder.cpp:1858-1866 | every thumbnail pixel is the nearest pixel of the image, read inside it |
| ImageDecoder.Rescale | lib/ffi/image_decoder.cpp:1872-1875 | a rescaled span stays inside the image, ends at most one pixel early, and is empty exactly when it is shorter than one pixel |
| ImageDecoder.ImageDecoderContext.constructor | lib/ffi/image_decoder.cpp:1881-1988 | the crop lies inside the image, without cropping it is the image, and with cropping a decoded page gets a crop of its margins |
| ImageDecoder.ImageDecoderContext.PerformBmpAutocrop | lib/ffi/image_decoder.cpp:322-361 | the crop is sixteen times the margins of the sampled page, inside the image and not empty; the whole image when the page is too small, memory is short or a sampled row is cut off |
| ImageDecoder.ImageDecoderContext.PerformLinuxAutocrop | lib/ffi/image_decoder.cpp:1836-1876 | the crop is the margins of the thumbnail, scaled, inside the image |
| ImageDecoder.DecodedCropEdges | lib/ffi/image_decoder.cpp:1872-1875 | the far edges are at most one pixel short of the scaled edges; the crop is not empty from 4 pixels of width on, nor from 256 on in either direction |
| ImageDecoder.DecodedCropKeepsColumns | lib/ffi/image_decoder.cpp:1872-1874 | at twice the thumbnail's size every sampled column of ink stays inside the crop |
| ImageDecoder.DecodedCropKeepsRows | lib/ffi/image_decoder.cpp:1873-1875 | the same for rows |
| ImageDecoder.BmpCropKeepsInk | lib/ffi/image_decoder.cpp:350-353 | every sampled row and column of ink of a BMP page stays inside the crop |
| ImageDecoder.BmpPageIsWhole | lib/ffi/image_decoder.cpp:322-353 | a BMP page is reported whole if and only if its margins are the whole sample and sixteen divides its size; margins that reach the end of the sample leave out exactly the remainder |
| ImageDecoder.ImageDecoderContext.DecodeRegion | lib/ffi/image_decoder.cpp:1990-2026 | a region inside the reported size is decoded from the crop of the page, reading only inside the image |
| CropLimits.NarrowExactly | lib/ffi/image_decoder.cpp:1872-1875 | some page of a width is reported as nothing wide if and only if the width is three |
| CropLimits.FlatExactly | lib/ffi/image_decoder.cpp:1847-1875 | some page of a size is reported as nothing high if and only if its height does not divide the rows of a taller thumbnail and one page row takes up a quarter of them |
| CropLimits.ReportedSize | lib/ffi/image_decoder.cpp:1872-1875 | the crop of an open page is not empty outside these cases |
| CropLimits.NarrowCropIsEmpty | lib/ffi/image_decoder.cpp:1874 | a page of one black pixel between two white ones is reported as nothing wide |
| CropLimits.MarginsAreAligned | lib/ffi/image_decoder.cpp:1858-1869 | no border of the margins runs through a pixel of the page |
| CropLimits.LosesInkExactly | lib/ffi/image_decoder.cpp:1872-1875 | a sampled column, or row, of ink is cropped away if and only if the remainders of the scaled margins say so |
| CropLimits.SizesThatLoseNothing | lib/ffi/image_decoder.cpp:1872-1875 | never on pages of the size of the thumbnail or at least twice that |
| CropLimits.SecondLineIsLost | lib/ffi/image_decoder.cpp:1872-1875 | on a page 300 pixels wide the second of two dark lines is kept by the margins and lost by the crop |
| CropLimits.PageMarginsAreUnique | lib/ffi/image_decoder.cpp:1858-1869 | the margins of a page are determined by it |
| CropLimits.OverflowExactly | lib/ffi/image_decoder.cpp:1848-1875 | the size condition keeps every product within an int, and is needed when the whole page is kept |
| CropLimits.GreyIsKept | lib/ffi/image_decoder.cpp:1847-1875 | a grey page, whose colour is no background, is kept whole whatever its size |
| CropLimits.SizesThatOverflow | lib/ffi/image_decoder.cpp:1848-1875 | some page of a size makes a product overflow if and only if the size condition excludes it |
| CropLimits.TallStripOverflows | lib/ffi/image_decoder.cpp:1848-1875 | a page 500 pixels wide and 65500 high can overflow |
| OcrDedup.OriginalBoundsOf | apple/AppleVisionOcrPlugin.swift:195-224 | the mapped box of each orientation, in closed form |
| OcrDedup.OrientationsInvert | apple/AppleVisionOcrPlugin.swift:195-224 | left undoes right, right undoes left, down undoes itself |
| OcrDedup.OrientationKeepsOverlap | apple/AppleVisionOcrPlugin.swift:259-268 | applying one orientation to two boxes keeps the overlap over the smaller area |
| OcrDedup.OverlapIsSymmetric | apple/AppleVisionOcrPlugin.swift:259-268 | the overlap does not depend on the order of the boxes |
| OcrDedup.InsideOrApart | apple/AppleVisionOcrPlugin.swift:259-268 | a rectangle inside another overlaps it wholly, one apart from it not at all |
| OcrDedup.MovedIsDuplicate | apple/AppleVisionOcrPlugin.swift:239-246 | two equal blocks side by side are duplicates if and only if they are of one direction and moved by at most three tenths |
| OcrDedup.MoreTextWins | apple/AppleVisionOcrPlugin.swift:289-295 | more visible characters win over any confidence below one, and among as many the confidence decides |
| OcrDedup.OthersInOrder | apple/AppleVisionOcrPlugin.swift:252-254 | the blocks that are no duplicates stay, each once, in their order |
| OcrDedup.RecognizedBlocks.AddDeduplicated | apple/AppleVisionOcrPlugin.swift:239-257 | in place, the duplicates of the block are removed and the best of them and the block is appended, of equally good ones the first; the others stay in order |
| OcrDedup.StaysDeduplicated | apple/AppleVisionOcrPlugin.swift:239-257 | a list without two overlapping blocks of one direction stays one |
| OcrDedup.StaysGood | apple/AppleVisionOcrPlugin.swift:239-257 | for every direction and quality, a block at least that good is held exactly when one was offered |
| OcrDedup.RecognizedBlocks.AddAll | apple/AppleVisionOcrPlugin.swift:239-257 | over every sequence of blocks: no duplicates are left, nothing is invented and the best quality of a direction is never lost |
| SelectText.ScanIsLongest | assets/hoshi_popup/selection.js:331-342 | the scan is the longest boundary-free run of at most the maximum length |
| SelectText.ScanNodes | assets/hoshi_popup/selection.js:325-354 | the loops over the nodes scan the joined text; the recorded ranges are nonempty, in order, and concatenate to it |
| SelectText.HoshiSelection.SelectText | assets/hoshi_popup/selection.js:306-367 | the selection holds the scanned text and its ranges; a second tap on its start, no hit or no text clears it |
| SelectText.SplitDoesNotMatter | assets/hoshi_popup/selection.js:331-354 | two ways of splitting the same text into nodes give the same scan |
| SelectText.SentenceEndsStop | assets/hoshi_popup/selection.js:67-86 | the ends of sentences stop a scan, but for the exclamation and question marks of ASCII when all text is scanned |
| SelectText.BracketsStop | assets/hoshi_popup/selection.js:67-86 | so do brackets and whatever may trail a sentence |
| SelectText.WordsAreScanned | assets/hoshi_popup/selection.js:67-86 | kana, kanji and full-width letters and digits are always scanned, those of ASCII only when all text is, white space never |
| SelectText.JapaneseScanIsShorter | assets/hoshi_popup/selection.js:82-86 | scanning only Japanese text takes a prefix of what scanning all text takes |
| SelectText.CutsPairExactly | assets/hoshi_popup/selection.js:331-342 | a scan ends inside a surrogate pair if and only if all text is scanned, the limit falls there and no boundary comes first |
| SelectText.FirstCharacterIsCut | assets/hoshi_popup/selection.js:335-342 | a limit of one unit cuts the first character of such a text |
| SelectText.NoSurrogateIsScanned | assets/hoshi_popup/selection.js:78-86 | when only Japanese text is scanned no surrogate is |
| SelectText.KanjiBeyondFirstPlane | assets/hoshi_popup/selection.js:78-86 | so a kanji beyond the first plane stops the scan, although its code point is Japanese |

## Left out

- Rules whose test is a global regular expression, whose `lastIndex` makes the test depend on earlier calls; a
  rule's test is a pure predicate and its rewriting a pure function here.
- LanguageTransformer.HeuristicLosesNothing: takes the joined pattern to match when one of the joined patterns does,
  which is what alternation means for patterns without flags; regular expressions are predicates here.
- The rule tables of the other languages, which are data.
- Suffix rules with an empty inflected suffix: slicing by minus zero empties the text, and no table has one.
- Warnings that are logged: the cycle guard's, and the one for truncated spellings.
- Unicode normalization before the spellings are generated; `text` is the normalized input.
- The order in which JavaScript lists integer-like keys of an object: conditions, transforms and processors are
  sequences here.
- Grouped disassembly, and the search in disassembled text: easy variants of what is modelled.
- Goroutines as such: the pool is a set of atomic steps, any enabled one of which may be next. Fair scheduling is
  not assumed, so termination is stated as a bound on the number of steps. A job that calls the pool itself, or
  never returns, is a goroutine whose `Finish` step does not come.
- Reading and parsing files: a BMP file is its bytes and the four numbers of its header, a decoded image is its
  RGBA bytes, and the platform codecs are not part of this model. A short read is a row beyond the end of the bytes.
- ImageDecoder.ImageDecoderContext.PerformLinuxAutocrop: requires that the products of cropping fit a 32-bit int,
  because what the C program does after an overflow is not defined; `CropLimits.OverflowExactly` says when they fit.
- ImageDecoder.ImageDecoderContext.constructor: requires the same when it crops a decoded page.
- BMP sizes are assumed to fit an int, and not to be negative.
- Calls with a null context or output buffer, which return false at once, and a failed allocation of the BMP row
  buffer, which does too.
- CSS comments in the rule trees of StyleSheets: inside a selector or a block the code does not recognize them. A
  sheet is read back as the code itself reads one, by braces and semicolons; strings with either are not special.
  `DictCss.ConstructDictCss` itself computes the output of every sheet, with comments, unbalanced or not.
- Transforms and visibility set on elements by the layout: an item is its height, and a place its column, left
  edge, top and width.
- Floating point: rectangles, confidences and widths are exact reals.
- Caret hit-testing, tree walking and highlighting in the selection code: a paragraph is its sequence of text
  nodes, and the hit a position in it.
- The display, audio, card-creation and network code around these algorithms.
