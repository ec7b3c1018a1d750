/** What `constructDictCss` does to the rules of a style sheet.

    A comment-free sheet is the text of exactly one tree of rules, and so is the output. Its rules are the
    rules of the input with their selectors scoped if and only if, in every block that holds a nested
    rule, nothing is left behind the last semicolon or brace, and no nested selector gets a semicolon. */
module StyleSheets {

  import opened DictCss
  import opened Wrappers

  // ---------------------------------------------------------------- the tree of a style sheet

  datatype Rule = Rule(selector: string, body: Body)

  /** A block without nested rules is one text; in the others declarations and rules alternate. */
  datatype Body = Plain(text: string) | Mixed(items: Items)

  datatype Items =
    | Last(space: string, text: string)
    | Declaration(space: string, text: string, rest: Items)
    | Nested(space: string, rule: Rule, rest: Items)

  datatype Sheet = Trailer(text: string) | Entry(space: string, rule: Rule, rest: Sheet)

  function RuleText(rule: Rule): string {
    rule.selector + ("{" + (BodyText(rule.body) + "}"))
  }

  function BodyText(body: Body): string {
    match body
    case Plain(text) => text
    case Mixed(items) => ItemsText(items)
  }

  function ItemsText(items: Items): string {
    match items
    case Last(space, text) => space + text
    case Declaration(space, text, rest) => space + (text + ItemsText(rest))
    case Nested(space, rule, rest) => space + (RuleText(rule) + ItemsText(rest))
  }

  function SheetText(sheet: Sheet): string {
    match sheet
    case Trailer(text) => text
    case Entry(space, rule, rest) => space + (RuleText(rule) + SheetText(rest))
  }

  predicate AllSpace(s: string) { forall k :: 0 <= k < |s| ==> IsSpace(s[k]) }

  predicate StartsPlain(s: string) { s != "" ==> !IsSpace(s[0]) }

  predicate IsSelector(s: string) { NoBrace(s) && StartsPlain(s) }

  predicate IsRule(rule: Rule) { IsSelector(rule.selector) && IsBody(rule.body) }

  predicate IsBody(body: Body) {
    match body
    case Plain(text) => NoBrace(text)
    case Mixed(items) => IsItems(items) && HasNested(items)
  }

  /** One semicolon, at the end. */
  predicate IsDeclaration(s: string) {
    s != "" && StartsPlain(s) && NoBrace(s) && s[|s| - 1] == ';' && ';' !in s[..|s| - 1]
  }

  predicate IsItems(items: Items) {
    match items
    case Last(space, text) => AllSpace(space) && StartsPlain(text) && NoBrace(text) && ';' !in text
    case Declaration(space, text, rest) => AllSpace(space) && IsDeclaration(text) && IsItems(rest)
    case Nested(space, rule, rest) => AllSpace(space) && IsRule(rule) && ';' !in rule.selector && IsItems(rest)
  }

  predicate HasNested(items: Items) {
    match items
    case Last(_, _) => false
    case Declaration(_, _, rest) => HasNested(rest)
    case Nested(_, _, _) => true
  }

  predicate IsSheet(sheet: Sheet) {
    match sheet
    case Trailer(text) => NoBrace(text)
    case Entry(space, rule, rest) => AllSpace(space) && IsRule(rule) && IsSheet(rest)
  }

  /** Nothing that stands where a rule can start looks like a comment. */
  predicate RuleIsClear(rule: Rule) {
    !StartsComment(rule.selector) && (rule.body.Mixed? ==> ItemsAreClear(rule.body.items))
  }

  predicate ItemsAreClear(items: Items) {
    match items
    case Last(_, _) => true
    case Declaration(_, _, rest) => ItemsAreClear(rest)
    case Nested(_, rule, rest) => RuleIsClear(rule) && ItemsAreClear(rest)
  }

  predicate SheetIsClear(sheet: Sheet) {
    match sheet
    case Trailer(text) => !StartsComment(Rest(text, SpaceLength(text)))
    case Entry(_, rule, rest) => RuleIsClear(rule) && SheetIsClear(rest)
  }

  // ---------------------------------------------------------------- scoping the tree

  /** The text without the white space that it starts with. */
  function Unspaced(s: string): string { Rest(s, SpaceLength(s)) }

  /** What stands for a selector list in the output. */
  function ScopedSelector(selector: string, dictName: string): string {
    ScopeSelectors(selector, PrefixFor(dictName)) + " "
  }

  function ScopeRule(rule: Rule, dictName: string): Rule {
    Rule(Unspaced(ScopedSelector(rule.selector, dictName)), ScopeBody(rule.body, dictName))
  }

  function ScopeBody(body: Body, dictName: string): Body {
    match body
    case Plain(_) => body
    case Mixed(items) => Mixed(OwnItems(items, ScopeNested(items, LastText(items), dictName)))
  }

  /** What stands behind the last declaration and the last nested rule of a block. */
  function LastText(items: Items): string {
    match items
    case Last(_, text) => text
    case Declaration(_, _, rest) => LastText(rest)
    case Nested(_, _, rest) => LastText(rest)
  }

  /** The declarations of a block, then `nested`. */
  function OwnItems(items: Items, nested: Items): Items {
    match items
    case Last(_, _) => nested
    case Declaration(_, text, rest) => Declaration("", text, OwnItems(rest, nested))
    case Nested(_, _, rest) => OwnItems(rest, nested)
  }

  /** The nested rules of a block behind the text `lead`, which the first of them swallows. */
  function ScopeNested(items: Items, lead: string, dictName: string): Items {
    match items
    case Last(_, _) => Last("", lead)
    case Declaration(_, _, rest) => ScopeNested(rest, lead, dictName)
    case Nested(_, rule, rest) =>
      ReadRule(lead + ScopedSelector(rule.selector, dictName), ScopeBody(rule.body, dictName),
          ScopeNested(rest, "", dictName))
  }

  /** How a block is read where `text` stands in front of an opening brace: cut at its semicolons. */
  function ReadRule(text: string, body: Body, rest: Items): Items
    decreases |text|
  {
    var k := SpaceLength(text);
    var t := Rest(text, k);
    var semi := IndexOf(t, ';', 0);
    if semi == -1 then Nested(Take(text, k), Rule(t, body), rest)
    else Declaration(Take(text, k), Take(t, semi + 1), ReadRule(Rest(t, semi + 1), body, rest))
  }

  /** The tree that the output is read back as. */
  function ScopeSheet(sheet: Sheet, dictName: string): Sheet {
    match sheet
    case Trailer(text) => Trailer(Take(text, SpaceLength(text)))
    case Entry(space, rule, rest) =>
      var s := ScopedSelector(rule.selector, dictName);
      Entry(space + Take(s, SpaceLength(s)), ScopeRule(rule, dictName), ScopeSheet(rest, dictName))
  }

  // ---------------------------------------------------------------- blocks close where the tree says

  lemma {:induction false} SkipPlainText(t: string, u: string, depth: nat)
    requires NoBrace(t) && depth > 0
    ensures BlockLength(t + u, depth) == |t| + BlockLength(u, depth)
  {
    if t == "" {
      assert t + u == u;
    } else {
      SkipPlainText(t[1..], u, depth);
      assert (t + u)[1..] == t[1..] + u;
      assert (t + u)[0] == t[0] && !IsBrace(t[0]);
    }
  }

  lemma BlockOpens(u: string, depth: nat)
    requires depth > 0
    ensures BlockLength("{" + u, depth) == 1 + BlockLength(u, depth + 1)
  {
    assert ("{" + u)[1..] == u;
  }

  lemma BlockShuts(u: string, depth: nat)
    requires depth > 0
    ensures BlockLength("}" + u, depth) == 1 + BlockLength(u, depth - 1)
  {
    assert ("}" + u)[1..] == u;
  }

  lemma {:induction false} SkipRule(rule: Rule, u: string, depth: nat)
    requires IsRule(rule) && depth > 0
    ensures BlockLength(RuleText(rule) + u, depth) == |RuleText(rule)| + BlockLength(u, depth)
    decreases rule, 1
  {
    hide BlockLength, BodyText, IsBody;
    var body := BodyText(rule.body);
    RuleThen(rule, u);
    SkipPlainText(rule.selector, "{" + (body + ("}" + u)), depth);
    BlockOpens(body + ("}" + u), depth);
    SkipBody(rule.body, "}" + u, depth + 1);
    BlockShuts(u, depth + 1);
  }

  lemma RuleThen(rule: Rule, u: string)
    ensures RuleText(rule) + u == rule.selector + ("{" + (BodyText(rule.body) + ("}" + u)))
    ensures |RuleText(rule)| == |rule.selector| + 1 + |BodyText(rule.body)| + 1
  {
    hide BodyText;
    var b := BodyText(rule.body);
    Associate(rule.selector, "{" + (b + "}"), u);
    Associate("{", b + "}", u);
    Associate(b, "}", u);
  }

  lemma {:induction false} SkipBody(body: Body, u: string, depth: nat)
    requires IsBody(body) && depth > 0
    ensures BlockLength(BodyText(body) + u, depth) == |BodyText(body)| + BlockLength(u, depth)
    decreases body, 0
  {
    hide BlockLength;
    match body
    case Plain(text) => SkipPlainText(text, u, depth);
    case Mixed(items) => SkipItems(items, u, depth);
  }

  lemma SpaceHasNoBrace(s: string)
    requires AllSpace(s)
    ensures NoBrace(s)
  {
  }

  lemma {:induction false} SkipItems(items: Items, u: string, depth: nat)
    requires IsItems(items) && depth > 0
    ensures BlockLength(ItemsText(items) + u, depth) == |ItemsText(items)| + BlockLength(u, depth)
    decreases items, 0
  {
    hide BlockLength, RuleText, IsRule, NoBrace, AllSpace;
    SpaceHasNoBrace(items.space);
    match items
    case Last(space, text) =>
      Associate(space, text, u);
      SkipPlainText(space, text + u, depth);
      SkipPlainText(text, u, depth);
    case Declaration(space, text, rest) =>
      Associate(space, text + ItemsText(rest), u);
      Associate(text, ItemsText(rest), u);
      SkipPlainText(space, text + (ItemsText(rest) + u), depth);
      SkipPlainText(text, ItemsText(rest) + u, depth);
      SkipItems(rest, u, depth);
    case Nested(space, rule, rest) =>
      Associate(space, RuleText(rule) + ItemsText(rest), u);
      Associate(RuleText(rule), ItemsText(rest), u);
      SkipPlainText(space, RuleText(rule) + (ItemsText(rest) + u), depth);
      SkipRule(rule, ItemsText(rest) + u, depth);
      SkipItems(rest, u, depth);
  }

  // ---------------------------------------------------------------- reading back one token

  /** White space ends where something else begins. */
  lemma {:induction false} SkipSpace(space: string, s: string)
    requires AllSpace(space) && StartsPlain(s)
    ensures SpaceLength(space + s) == |space| && Take(space + s, |space|) == space && Rest(space + s, |space|) == s
  {
    if space == "" {
      assert space + s == s;
    } else {
      SkipSpace(space[1..], s);
      assert (space + s)[1..] == space[1..] + s;
      assert (space + s)[0] == space[0];
    }
  }

  /** The first `c` comes right after text without one. */
  lemma FirstAfter(s: string, c: char, u: string)
    requires c !in s
    ensures IndexOf(s + ([c] + u), c, 0) == |s|
  {
    var t := s + ([c] + u);
    assert t[|s|] == c;
    forall k | 0 <= k < |s| ensures t[k] == s[k] {
    }
  }

  /** No `c` in `s`, so the first one is behind it. */
  lemma FirstBehind(s: string, c: char, u: string)
    requires c !in s
    ensures IndexOf(s + u, c, 0) == -1 || IndexOf(s + u, c, 0) >= |s|
  {
    forall k | 0 <= k < |s| ensures (s + u)[k] == s[k] {
    }
  }

  lemma Behind(s: string, u: string)
    ensures Take(s + u, |s|) == s && Rest(s + u, |s|) == u
  {
  }

  lemma NoOpening(s: string)
    requires NoBrace(s)
    ensures '{' !in s
  {
  }

  /** The block of a rule is found whole. */
  lemma BlockOfRule(rule: Rule, u: string)
    requires IsRule(rule)
    ensures var s := RuleText(rule) + u; var brace := |rule.selector|;
            && IndexOf(s, '{', 0) == brace && brace + 1 <= |s| && Take(s, brace) == rule.selector
            && Rest(s, brace + 1) == BodyText(rule.body) + ("}" + u)
            && BlockLength(Rest(s, brace + 1), 1) == |BodyText(rule.body)| + 1
  {
    hide BlockLength, BodyText, IsBody, IndexOf, NoBrace, Take, Rest;
    var body := BodyText(rule.body);
    var s := RuleText(rule) + u;
    RuleThen(rule, u);
    NoOpening(rule.selector);
    FirstAfter(rule.selector, '{', body + ("}" + u));
    Behind(rule.selector, "{" + (body + ("}" + u)));
    Associate(rule.selector, "{", body + ("}" + u));
    Behind(rule.selector + "{", body + ("}" + u));
    SkipBody(rule.body, "}" + u, 1);
    BlockShuts(u, 1);
    NothingOpen(u);
  }

  lemma NothingOpen(u: string)
    ensures BlockLength(u, 0) == 0
  {
  }

  lemma InnerOfBlock(body: string, u: string)
    ensures |body| + 1 <= |body + ("}" + u)|
    ensures Inner(body + ("}" + u), |body| + 1) == body && Rest(body + ("}" + u), |body| + 1) == u
  {
    assert body + ("}" + u) == (body + "}") + u;
  }

  lemma RuleStarts(rule: Rule, u: string)
    requires IsRule(rule)
    ensures StartsPlain(RuleText(rule) + u) && RuleText(rule) + u != ""
    ensures !StartsComment(rule.selector) ==> !StartsComment(RuleText(rule) + u)
  {
    hide BodyText, IsBody, NoBrace;
    RuleThen(rule, u);
    assert !IsSpace('{');
  }

  /** The rule in front is scoped, then what follows it. */
  lemma ScopeFirstRule(space: string, rule: Rule, u: string, dictName: string)
    requires AllSpace(space) && IsRule(rule) && !StartsComment(rule.selector)
    ensures Scoped(space + (RuleText(rule) + u), dictName)
         == space + (ScopeSelectors(rule.selector, PrefixFor(dictName))
                     + " {" + ScopedBlock(BodyText(rule.body), dictName) + "}" + Scoped(u, dictName))
  {
    hide BlockLength, BodyText, RuleText, IsRule, IsBody, IndexOf, NoBrace, Take, Rest, SpaceLength, StartsComment,
        StartsPlain, AllSpace;
    hide Inner, ScopeSelectors, PrefixFor, ScopedBlock;
    RuleStarts(rule, u);
    SkipSpace(space, RuleText(rule) + u);
    BlockOfRule(rule, u);
    InnerOfBlock(BodyText(rule.body), u);
  }

  // ---------------------------------------------------------------- splitting a block

  lemma SplitDeclaration(space: string, text: string, u: string)
    requires AllSpace(space) && IsDeclaration(text)
    ensures Properties(space + (text + u)) == text + Properties(u)
    ensures NestedRules(space + (text + u)) == NestedRules(u)
  {
    DeclarationLength(text, u);
    SkipSpace(space, text + u);
    Behind(text, u);
    hide AllSpace, IsDeclaration, SpaceLength, IsNested, ItemLength, Take, Rest;
    assert "" + NestedRules(u) == NestedRules(u);
  }

  lemma DeclarationLength(text: string, u: string)
    requires IsDeclaration(text)
    ensures text + u != "" && StartsPlain(text + u) && !IsNested(text + u) && ItemLength(text + u) == |text|
  {
    var front := text[..|text| - 1];
    assert text == front + ";";
    Associate(front, ";", u);
    FirstAfter(front, ';', u);
    NoOpening(text);
    FirstBehind(text, '{', u);
    assert (text + u)[0] == text[0];
  }

  lemma SplitNested(space: string, rule: Rule, u: string)
    requires AllSpace(space) && IsRule(rule) && ';' !in rule.selector
    ensures Properties(space + (RuleText(rule) + u)) == Properties(u)
    ensures NestedRules(space + (RuleText(rule) + u)) == RuleText(rule) + NestedRules(u)
  {
    hide AllSpace, IsRule, RuleText, SpaceLength, IsNested, ItemLength, Take, Rest, StartsPlain, StartsComment;
    RuleStarts(rule, u);
    RuleLength(rule, u);
    SkipSpace(space, RuleText(rule) + u);
    Behind(RuleText(rule), u);
    assert "" + Properties(u) == Properties(u);
  }

  lemma RuleLength(rule: Rule, u: string)
    requires IsRule(rule) && ';' !in rule.selector
    ensures RuleText(rule) + u != "" && IsNested(RuleText(rule) + u)
        && ItemLength(RuleText(rule) + u) == |RuleText(rule)|
  {
    hide IsRule, BodyText, BlockLength, IndexOf, Rest, Take;
    BlockOfRule(rule, u);
    RuleThen(rule, u);
    hide RuleText;
    FirstBehind(rule.selector, ';', "{" + (BodyText(rule.body) + ("}" + u)));
    SemicolonIsNotBrace(RuleText(rule) + u);
  }

  lemma SemicolonIsNotBrace(s: string)
    ensures IndexOf(s, ';', 0) == IndexOf(s, '{', 0) ==> IndexOf(s, ';', 0) == -1
  {
  }

  lemma SplitLast(space: string, text: string)
    requires AllSpace(space) && StartsPlain(text) && NoBrace(text) && ';' !in text
    ensures Properties(space + text) == text && NestedRules(space + text) == ""
  {
    SkipSpace(space, text);
    if text != "" {
      NoOpening(text);
      assert IndexOf(text, ';', 0) == -1 && IndexOf(text, '{', 0) == -1;
      assert Rest(text, |text|) == "" && Take(text, |text|) == text;
      hide IndexOf, AllSpace, NoBrace;
    }
  }

  /** The text of the declarations of a block. */
  function OwnText(items: Items): string {
    match items
    case Last(_, text) => text
    case Declaration(_, text, rest) => text + OwnText(rest)
    case Nested(_, _, rest) => OwnText(rest)
  }

  /** The nested rules of a block as a sheet of their own. */
  function NestedSheet(items: Items): Sheet {
    match items
    case Last(_, _) => Trailer("")
    case Declaration(_, _, rest) => NestedSheet(rest)
    case Nested(_, rule, rest) => Entry("", rule, NestedSheet(rest))
  }

  lemma {:induction false} SplitItems(items: Items)
    requires IsItems(items)
    ensures Properties(ItemsText(items)) == OwnText(items)
    ensures NestedRules(ItemsText(items)) == SheetText(NestedSheet(items))
  {
    hide Properties, NestedRules, RuleText, IsRule, AllSpace, IsDeclaration;
    match items
    case Last(space, text) =>
      SplitLast(space, text);
    case Declaration(space, text, rest) =>
      SplitDeclaration(space, text, ItemsText(rest));
      SplitItems(rest);
    case Nested(space, rule, rest) =>
      SplitNested(space, rule, ItemsText(rest));
      SplitItems(rest);
      EmptyFront(RuleText(rule) + SheetText(NestedSheet(rest)));
  }

  lemma EmptyFront(s: string)
    ensures "" + s == s
  {
  }

  lemma {:induction false} NestedIsSheet(items: Items)
    requires IsItems(items)
    ensures IsSheet(NestedSheet(items)) && |SheetText(NestedSheet(items))| <= |ItemsText(items)|
    ensures ItemsAreClear(items) ==> SheetIsClear(NestedSheet(items))
  {
    hide RuleText, IsRule, RuleIsClear;
    match items
    case Last(_, _) =>
    case Declaration(_, _, rest) => NestedIsSheet(rest);
    case Nested(_, _, rest) => NestedIsSheet(rest);
  }

  lemma {:induction false} NestedHasBrace(items: Items)
    requires HasNested(items)
    ensures '{' in ItemsText(items)
  {
    match items
    case Declaration(space, text, rest) =>
      NestedHasBrace(rest);
    case Nested(space, rule, rest) =>
      RuleThen(rule, ItemsText(rest));
      var s := RuleText(rule) + ItemsText(rest);
      assert s[|rule.selector|] == '{' && (space + s)[|space| + |rule.selector|] == s[|rule.selector|];
  }

  // ---------------------------------------------------------------- the scoped tree

  /** The text of the finished declarations of a block. */
  function DeclaredText(items: Items): string {
    match items
    case Last(_, _) => ""
    case Declaration(_, text, rest) => text + DeclaredText(rest)
    case Nested(_, _, rest) => DeclaredText(rest)
  }

  lemma {:induction false} OwnIsDeclaredAndLast(items: Items)
    ensures OwnText(items) == DeclaredText(items) + LastText(items)
  {
    match items
    case Last(_, text) =>
      EmptyFront(text);
    case Declaration(_, text, rest) =>
      OwnIsDeclaredAndLast(rest);
      Associate(text, DeclaredText(rest), LastText(rest));
    case Nested(_, _, rest) =>
      OwnIsDeclaredAndLast(rest);
  }

  lemma {:induction false} OwnItemsText(items: Items, nested: Items)
    ensures ItemsText(OwnItems(items, nested)) == DeclaredText(items) + ItemsText(nested)
  {
    match items
    case Last(_, text) =>
      EmptyFront(ItemsText(nested));
    case Declaration(_, text, rest) =>
      OwnItemsText(rest, nested);
      EmptyFront(text + ItemsText(OwnItems(rest, nested)));
      Associate(text, DeclaredText(rest), ItemsText(nested));
    case Nested(_, _, rest) =>
      OwnItemsText(rest, nested);
  }

  lemma SpacesAndRest(s: string, k: nat)
    requires k <= |s|
    ensures s == Take(s, k) + Rest(s, k) && |Rest(s, k)| == |s| - k
  {
  }

  lemma {:induction false} ReadRuleText(text: string, body: Body, rest: Items)
    ensures ItemsText(ReadRule(text, body, rest)) == text + ("{" + (BodyText(body) + "}") + ItemsText(rest))
    decreases |text|
  {
    hide IndexOf, Take, Rest, SpaceLength, BodyText;
    var k := SpaceLength(text);
    SpacesFit(text);
    SpacesAndRest(text, k);
    var t := Rest(text, k);
    var semi := IndexOf(t, ';', 0);
    var u := "{" + (BodyText(body) + "}");
    if semi == -1 {
      Associate(t, u, ItemsText(rest));
      Associate(Take(text, k), t, u + ItemsText(rest));
    } else {
      SpacesAndRest(t, semi + 1);
      ReadRuleText(Rest(t, semi + 1), body, rest);
      Associate(Take(t, semi + 1), Rest(t, semi + 1), u + ItemsText(rest));
      Associate(Take(text, k), t, u + ItemsText(rest));
    }
  }

  lemma SpacesFit(s: string)
    ensures SpaceLength(s) <= |s|
  {
  }

  lemma EntryText(space: string, text: string, body: Body, u: string)
    ensures var k := SpaceLength(text);
            k <= |text| && (space + Take(text, k)) + (RuleText(Rule(Rest(text, k), body)) + u)
                == space + (text + ("{" + (BodyText(body) + "}") + u))
  {
    hide Take, Rest, SpaceLength, BodyText;
    var k := SpaceLength(text);
    SpacesFit(text);
    SpacesAndRest(text, k);
    var t, v := Rest(text, k), "{" + (BodyText(body) + "}");
    Associate(space, Take(text, k), t + v + u);
    Associate(t, v, u);
    Associate(Take(text, k), t, v + u);
  }

  lemma {:induction false} ScopeNestedText(items: Items, lead: string, dictName: string)
    ensures ItemsText(ScopeNested(items, lead, dictName)) == lead + SheetText(ScopeSheet(NestedSheet(items), dictName))
  {
    hide ReadRule, ScopeBody, RuleText, BodyText, ScopedSelector;
    match items
    case Last(_, _) =>
      EmptyFront(lead);
    case Declaration(_, _, rest) => ScopeNestedText(rest, lead, dictName);
    case Nested(_, rule, rest) =>
      ScopeNestedText(rest, "", dictName);
      var s, body, u := ScopedSelector(rule.selector, dictName), ScopeBody(rule.body, dictName),
          SheetText(ScopeSheet(NestedSheet(rest), dictName));
      EmptyFront(u);
      ReadRuleText(lead + s, body, ScopeNested(rest, "", dictName));
      EntryText("", s, body, u);
      EmptyFront(s + ("{" + (BodyText(body) + "}") + u));
      Associate(lead, s, "{" + (BodyText(body) + "}") + u);
  }

  lemma ScopedTrailer(text: string, dictName: string)
    requires NoBrace(text) && !StartsComment(Rest(text, SpaceLength(text)))
    ensures Scoped(text, dictName) == Take(text, SpaceLength(text))
  {
    var t := Rest(text, SpaceLength(text));
    forall k | 0 <= k < |t| ensures t[k] != '{' { assert t[k] == text[SpaceLength(text) + k]; }
    assert IndexOf(t, '{', 0) == -1;
    hide SpaceLength, Take, Rest;
  }

  lemma ScopedRuleText(space: string, rule: Rule, dictName: string, rest: Sheet)
    ensures var body := BodyText(ScopeBody(rule.body, dictName)); var u := SheetText(ScopeSheet(rest, dictName));
            space + (ScopeSelectors(rule.selector, PrefixFor(dictName)) + " {" + body + "}" + u)
            == SheetText(ScopeSheet(Entry(space, rule, rest), dictName))
  {
    var scoped := ScopeBody(rule.body, dictName);
    var u := SheetText(ScopeSheet(rest, dictName));
    EntryText(space, ScopedSelector(rule.selector, dictName), scoped, u);
    hide ScopeSelectors, PrefixFor, BodyText, ScopeBody, RuleText;
    var s, body := ScopeSelectors(rule.selector, PrefixFor(dictName)), BodyText(scoped);
    Braced(s, body, u);
  }

  lemma Braced(s: string, body: string, u: string)
    ensures s + " {" + body + "}" + u == (s + " ") + ("{" + (body + "}") + u)
  {
    assert s + " {" == (s + " ") + "{";
    Associate(s + " ", "{", body);
    Associate(s + " ", "{" + body, "}");
    Associate("{", body, "}");
    Associate(s + " ", "{" + (body + "}"), u);
  }

  /** The body of a rule is scoped as a tree, provided that its nested rules are. */
  lemma ScopedBodyText(body: Body, dictName: string)
    requires IsBody(body)
    requires body.Mixed? ==>
      Scoped(SheetText(NestedSheet(body.items)), dictName) == SheetText(ScopeSheet(NestedSheet(body.items), dictName))
    ensures ScopedBlock(BodyText(body), dictName) == BodyText(ScopeBody(body, dictName))
  {
    hide Scoped, ScopeSheet, Properties, NestedRules, ScopeNested, OwnItems, NestedSheet, SheetText, ItemsText, OwnText;
    match body
    case Plain(text) =>
      NoOpening(text);
    case Mixed(items) =>
      NestedHasBrace(items);
      SplitItems(items);
      ScopeNestedText(items, LastText(items), dictName);
      OwnItemsText(items, ScopeNested(items, LastText(items), dictName));
      OwnIsDeclaredAndLast(items);
      Associate(DeclaredText(items), LastText(items), SheetText(ScopeSheet(NestedSheet(items), dictName)));
  }

  /** Scoping the text of a sheet gives the text of the scoped sheet. */
  lemma {:induction false} ScopesTheTree(sheet: Sheet, dictName: string)
    requires IsSheet(sheet) && SheetIsClear(sheet)
    ensures Scoped(SheetText(sheet), dictName) == SheetText(ScopeSheet(sheet, dictName))
    decreases |SheetText(sheet)|, sheet
  {
    hide Scoped, ScopedBlock, ScopeSelectors, PrefixFor, IsRule, RuleText, AllSpace, ScopeRule, ScopeSheet,
        ScopeBody, RuleIsClear;
    match sheet
    case Trailer(text) =>
      ScopedTrailer(text, dictName);
      TrailerTree(text, dictName);
    case Entry(space, rule, rest) =>
      ScopesTheTree(rest, dictName);
      RuleBody(rule);
      ScopeFirstRule(space, rule, SheetText(rest), dictName);
      RuleThen(rule, "");
      if rule.body.Mixed? {
        NestedIsSheet(rule.body.items);
        ScopesTheTree(NestedSheet(rule.body.items), dictName);
      }
      ScopedBodyText(rule.body, dictName);
      ScopedRuleText(space, rule, dictName, rest);
  }

  lemma TrailerTree(text: string, dictName: string)
    ensures SpaceLength(text) <= |text| && SheetText(ScopeSheet(Trailer(text), dictName))
        == Take(text, SpaceLength(text))
  {
  }

  lemma RuleBody(rule: Rule)
    requires IsRule(rule) && RuleIsClear(rule)
    ensures IsBody(rule.body) && (rule.body.Mixed? ==> IsItems(rule.body.items) && ItemsAreClear(rule.body.items))
    ensures !StartsComment(rule.selector)
  {
  }

  // ---------------------------------------------------------------- every plain sheet has a tree

  ghost predicate IsPlain(s: string) { Balanced(s) && NoComment(s) }

  /** Where the first rule of balanced, comment-free text has its parts. */
  lemma FindRule(s: string, k: nat, brace: nat, end: nat)
    requires IsPlain(s) && k == SpaceLength(s) && brace == IndexOf(s, '{', k)
        && end == brace + 1 + BlockLength(Rest(s, brace + 1), 1)
    ensures k <= brace && brace + 1 < end <= |s|
    ensures AllSpace(Part(s, 0, k)) && IsSelector(Part(s, k, brace)) && !StartsComment(Part(s, k, brace))
    ensures IsPlain(Part(s, brace + 1, end - 1)) && IsPlain(Part(s, end, |s|))
    ensures s == Part(s, 0, k) + ((Part(s, k, brace) + ("{" + (Part(s, brace + 1, end - 1) + "}"))) + Part(s, end, |s|))
  {
    assert Depth(s, 0) == 0;
    hide SpaceLength, BlockLength, Depth, Braces, NoComment, Rest, Part, AllSpace, IsSelector;
    SpacesInFront(s);
    BlockCloses(s, brace + 1);
    assert IsPlainSheet(s, "");
    NothingToClose(s, 0, brace);
    assert IsBlock(s, brace, end);
    BlockIsPlain(s, "", brace, end);
    hide Balanced, IsBlock, ClosesBlock;
    RestIsPlain(s, end);
    SelectorIsPlain(s, k, brace);
    CutRule(s, k, brace, end);
  }

  lemma {:induction false} SpacesInFront(s: string)
    ensures forall i :: 0 <= i < SpaceLength(s) ==> IsSpace(s[i])
    ensures SpaceLength(s) < |s| ==> !IsSpace(s[SpaceLength(s)])
    ensures AllSpace(Part(s, 0, SpaceLength(s)))
  {
    if s != "" && IsSpace(s[0]) {
      SpacesInFront(s[1..]);
      forall i | 0 <= i < SpaceLength(s) ensures IsSpace(s[i]) {
        if i > 0 { assert s[i] == s[1..][i - 1]; }
      }
    }
  }

  lemma RestIsPlain(s: string, end: nat)
    requires IsPlain(s) && end <= |s| && Depth(s, end) == 0
    ensures IsPlain(Part(s, end, |s|))
  {
    SliceIsBalanced(s, end, |s|);
    SliceHasNoComment(s, end, |s|);
  }

  lemma SelectorIsPlain(s: string, k: nat, brace: nat)
    requires NoComment(s) && k <= brace < |s| && !IsSpace(s[k]) && (forall i :: 0 <= i < brace ==> !IsBrace(s[i]))
    ensures IsSelector(Part(s, k, brace)) && !StartsComment(Part(s, k, brace))
  {
  }

  lemma CutRule(s: string, k: nat, brace: nat, end: nat)
    requires k <= brace && brace + 1 < end <= |s| && s[brace] == '{' && s[end - 1] == '}'
    ensures s == Part(s, 0, k) + ((Part(s, k, brace) + ("{" + (Part(s, brace + 1, end - 1) + "}"))) + Part(s, end, |s|))
  {
    CutAt(s, 0, k, |s|);
    CutAt(s, k, end, |s|);
    CutAt(s, k, brace, end);
    BlockText(s, brace, end);
    var inner := Part(s, brace + 1, end - 1);
    assert Part(s, 0, |s|) == s;
    hide Part;
    Associate("{", inner, "}");
  }

  lemma CutAt(s: string, lo: nat, mid: nat, hi: nat)
    requires lo <= mid <= hi <= |s|
    ensures Part(s, lo, hi) == Part(s, lo, mid) + Part(s, mid, hi)
  {
  }

  /** Balanced text without an opening brace has no brace. */
  lemma PlainText(s: string)
    requires IsPlain(s) && '{' !in s
    ensures NoBrace(s)
  {
    NothingToClose(s, 0, |s|);
  }

  /** The tree of a comment-free, balanced style sheet. */
  lemma {:induction false} TreeOf(css: string) returns (sheet: Sheet)
    requires IsPlain(css)
    ensures IsSheet(sheet) && SheetIsClear(sheet) && SheetText(sheet) == css
    decreases |css|, 0
  {
    var k := SpaceLength(css);
    var brace := IndexOf(css, '{', k);
    if brace == -1 {
      NoRule(css);
      return Trailer(css);
    }
    var end := brace + 1 + BlockLength(Rest(css, brace + 1), 1);
    hide IsPlain, SpaceLength, BlockLength, Rest, AllSpace, IsSelector, NoBrace, IndexOf;
    FindRule(css, k, brace, end);
    PartLength(css, brace + 1);
    PartLength(css, end);
    hide Part;
    var body := BodyOf(Part(css, brace + 1, end - 1));
    var rest := TreeOf(Part(css, end, |css|));
    return Entry(Part(css, 0, k), Rule(Part(css, k, brace), body), rest);
  }

  lemma NoRule(css: string)
    requires IsPlain(css) && IndexOf(css, '{', SpaceLength(css)) == -1
    ensures IsSheet(Trailer(css)) && SheetIsClear(Trailer(css))
  {
    SpacesInFront(css);
    assert '{' !in css;
    PlainText(css);
    assert NoComment(css);
    hide SpaceLength, Balanced;
  }

  lemma {:induction false} BodyOf(block: string) returns (body: Body)
    requires IsPlain(block)
    ensures IsBody(body) && (body.Mixed? ==> ItemsAreClear(body.items)) && BodyText(body) == block
    decreases |block|, 2
  {
    hide IsPlain;
    if '{' !in block {
      PlainText(block);
      return Plain(block);
    }
    var items := ItemsOf(block);
    NestedNeeded(items);
    return Mixed(items);
  }

  lemma {:induction false} NestedNeeded(items: Items)
    requires IsItems(items) && '{' in ItemsText(items)
    ensures HasNested(items)
  {
    SpaceHasNoBrace(items.space);
    match items
    case Last(space, text) =>
      NoOpening(space);
      NoOpening(text);
    case Declaration(space, text, rest) =>
      NoOpening(space);
      NoOpening(text);
      NestedNeeded(rest);
    case Nested(_, _, _) =>
  }

  lemma {:induction false} ItemsOf(block: string) returns (items: Items)
    requires IsPlain(block)
    ensures IsItems(items) && ItemsAreClear(items) && ItemsText(items) == block
    decreases |block|, 1
  {
    var k := SpaceLength(block);
    var semi, brace := IndexOf(block, ';', k), IndexOf(block, '{', k);
    if brace != -1 && (semi == -1 || brace < semi) {
      var end := brace + 1 + BlockLength(Rest(block, brace + 1), 1);
      SelectorHasNoSemicolon(block, k, brace);
      hide IsPlain, SpaceLength, BlockLength, Rest, AllSpace, IsSelector, NoBrace, IndexOf;
      FindRule(block, k, brace, end);
      PartLength(block, brace + 1);
      PartLength(block, end);
      hide Part;
      var body := BodyOf(Part(block, brace + 1, end - 1));
      var rest := ItemsOf(Part(block, end, |block|));
      items := Nested(Part(block, 0, k), Rule(Part(block, k, brace), body), rest);
    } else if semi != -1 {
      FindDeclaration(block, k, semi);
      PartLength(block, semi + 1);
      hide IsPlain, SpaceLength, BlockLength, Rest, AllSpace, IsDeclaration, NoBrace, IndexOf, Part;
      var rest := ItemsOf(Part(block, semi + 1, |block|));
      items := Declaration(Part(block, 0, k), Part(block, k, semi + 1), rest);
    } else {
      FindLast(block, k);
      items := Last(Part(block, 0, k), Part(block, k, |block|));
    }
  }

  lemma SelectorHasNoSemicolon(s: string, k: nat, brace: nat)
    requires k <= brace < |s| && (IndexOf(s, ';', k) == -1 || brace < IndexOf(s, ';', k))
    ensures ';' !in Part(s, k, brace)
  {
  }

  lemma FindDeclaration(s: string, k: nat, semi: nat)
    requires IsPlain(s) && k == SpaceLength(s) && semi == IndexOf(s, ';', k)
    requires IndexOf(s, '{', k) == -1 || semi < IndexOf(s, '{', k)
    ensures k <= semi < |s| && AllSpace(Part(s, 0, k)) && IsDeclaration(Part(s, k, semi + 1))
    ensures IsPlain(Part(s, semi + 1, |s|))
    ensures s == Part(s, 0, k) + (Part(s, k, semi + 1) + Part(s, semi + 1, |s|))
  {
    hide SpaceLength, Balanced, NoComment, Part, AllSpace, IsDeclaration;
    SpacesInFront(s);
    NoOpeningBefore(s, k, semi);
    hide IndexOf, IsSpace;
    PlainBehind(s, semi);
    hide IsPlain, IsBrace;
    DeclarationAt(s, k, semi);
    CutInThree(s, k, semi + 1);
  }

  /** What stands behind a plain text without opening braces. */
  lemma PlainBehind(s: string, semi: nat)
    requires IsPlain(s) && semi < |s| && forall i :: 0 <= i <= semi ==> s[i] != '{'
    ensures IsPlain(Part(s, semi + 1, |s|)) && forall i :: 0 <= i <= semi ==> !IsBrace(s[i])
  {
    assert Depth(s, 0) == 0;
    hide Balanced, NoComment, Depth, Part;
    NothingToClose(s, 0, semi + 1);
    hide IsPlain;
    RestIsPlain(s, semi + 1);
  }

  lemma CutInThree(s: string, k: nat, end: nat)
    requires k <= end <= |s|
    ensures s == Part(s, 0, k) + (Part(s, k, end) + Part(s, end, |s|))
  {
    hide Part;
    CutAt(s, 0, k, |s|);
    CutAt(s, k, end, |s|);
    WholePart(s);
  }

  lemma NoOpeningBefore(s: string, k: nat, semi: nat)
    requires k <= |s| && semi == IndexOf(s, ';', k) && (IndexOf(s, '{', k) == -1 || semi < IndexOf(s, '{', k))
    requires forall i :: 0 <= i < k ==> IsSpace(s[i])
    ensures k <= semi < |s| && s[semi] == ';' && !IsBrace(s[semi]) && !IsSpace('{')
    ensures (forall i :: 0 <= i <= semi ==> s[i] != '{') && forall i :: k <= i < semi ==> s[i] != ';'
  {
  }

  lemma WholePart(s: string)
    ensures Part(s, 0, |s|) == s
  {
  }

  lemma DeclarationAt(s: string, k: nat, semi: nat)
    requires k <= semi < |s| && s[semi] == ';' && !IsSpace(s[k]) && forall i :: k <= i < semi ==> s[i] != ';'
    requires forall i :: k <= i <= semi ==> !IsBrace(s[i])
    ensures IsDeclaration(Part(s, k, semi + 1))
  {
    var d := Part(s, k, semi + 1);
    assert d[..|d| - 1] == Part(s, k, semi);
  }

  lemma FindLast(s: string, k: nat)
    requires IsPlain(s) && k == SpaceLength(s) && IndexOf(s, ';', k) == -1 && IndexOf(s, '{', k) == -1
    ensures IsItems(Last(Part(s, 0, k), Part(s, k, |s|))) && s == Part(s, 0, k) + Part(s, k, |s|)
  {
    SpacesInFront(s);
    hide SpaceLength;
    NothingToClose(s, 0, |s|);
  }

  /** Every comment-free, balanced sheet is scoped rule by rule. */
  lemma ScopesEverySheet(css: string, dictName: string)
    requires IsPlain(css)
    ensures exists sheet ::
              && IsSheet(sheet) && SheetIsClear(sheet) && SheetText(sheet) == css
              && Scoped(css, dictName) == SheetText(ScopeSheet(sheet, dictName))
  {
    var sheet := TreeOf(css);
    ScopesTheTree(sheet, dictName);
  }

  // ---------------------------------------------------------------- the output is a sheet

  lemma UnspacedStartsPlain(s: string)
    requires NoBrace(s)
    ensures IsSelector(Unspaced(s)) && AllSpace(Take(s, SpaceLength(s)))
  {
    SpacesInFront(s);
    var k := SpaceLength(s);
    hide SpaceLength;
    assert forall i :: 0 <= i < |s| - k ==> Rest(s, k)[i] == s[k + i];
  }

  lemma ScopedSelectorHasNoBrace(selector: string, dictName: string)
    requires NoBrace(selector) && NoBrace(dictName)
    ensures NoBrace(ScopedSelector(selector, dictName))
  {
    PrefixHasNoBrace(dictName);
    ScopeHasNoBrace(selector, PrefixFor(dictName));
    hide ScopeSelectors, PrefixFor;
  }

  /** A piece up to the first semicolon is a declaration. */
  lemma CutPiece(t: string)
    requires NoBrace(t) && StartsPlain(t)
    ensures var semi := IndexOf(t, ';', 0);
            if semi == -1 then ';' !in t
            else IsDeclaration(Take(t, semi + 1)) && NoBrace(Rest(t, semi + 1)) && |Rest(t, semi + 1)| < |t|
  {
    var semi := IndexOf(t, ';', 0);
    if semi >= 0 {
      var d := Take(t, semi + 1);
      assert d[semi] == t[semi] && d[..|d| - 1] == t[..semi];
    }
  }

  lemma {:induction false} ReadRuleIsItems(text: string, body: Body, rest: Items)
    requires NoBrace(text) && IsBody(body) && IsItems(rest)
    ensures IsItems(ReadRule(text, body, rest)) && HasNested(ReadRule(text, body, rest))
    decreases |text|
  {
    hide SpaceLength, IndexOf, Take, NoBrace, AllSpace, StartsPlain, IsDeclaration, IsBody;
    var k := SpaceLength(text);
    SpacesFit(text);
    UnspacedStartsPlain(text);
    var t := Rest(text, k);
    CutPiece(t);
    if IndexOf(t, ';', 0) != -1 {
      ReadRuleIsItems(Rest(t, IndexOf(t, ';', 0) + 1), body, rest);
    }
  }

  lemma {:induction false} OwnItemsAreItems(items: Items, nested: Items)
    requires IsItems(items) && IsItems(nested) && HasNested(nested)
    ensures IsItems(OwnItems(items, nested)) && HasNested(OwnItems(items, nested))
  {
    match items
    case Last(_, _) =>
    case Declaration(_, _, rest) => OwnItemsAreItems(rest, nested);
    case Nested(_, _, rest) => OwnItemsAreItems(rest, nested);
  }

  lemma NoBraceConcat(a: string, b: string)
    requires NoBrace(a) && NoBrace(b)
    ensures NoBrace(a + b)
  {
  }

  lemma {:induction false} ScopeNestedIsItems(items: Items, lead: string, dictName: string)
    requires IsItems(items) && NoBrace(dictName) && StartsPlain(lead) && NoBrace(lead) && ';' !in lead
    ensures IsItems(ScopeNested(items, lead, dictName))
    ensures HasNested(items) ==> HasNested(ScopeNested(items, lead, dictName))
    decreases items, 0
  {
    hide NoBrace, ScopedSelector, ReadRule;
    match items
    case Last(_, _) =>
    case Declaration(_, _, rest) => ScopeNestedIsItems(rest, lead, dictName);
    case Nested(_, rule, rest) =>
      NothingHasNoBrace();
      ScopeNestedIsItems(rest, "", dictName);
      ScopeBodyIsBody(rule.body, dictName);
      ScopedSelectorHasNoBrace(rule.selector, dictName);
      NoBraceConcat(lead, ScopedSelector(rule.selector, dictName));
      ReadRuleIsItems(lead + ScopedSelector(rule.selector, dictName), ScopeBody(rule.body, dictName),
          ScopeNested(rest, "", dictName));
  }

  lemma NothingHasNoBrace()
    ensures NoBrace("")
  {
  }

  lemma {:induction false} LastTextIsPlain(items: Items)
    requires IsItems(items)
    ensures StartsPlain(LastText(items)) && NoBrace(LastText(items)) && ';' !in LastText(items)
  {
    match items
    case Last(_, _) =>
    case Declaration(_, _, rest) => LastTextIsPlain(rest);
    case Nested(_, _, rest) => LastTextIsPlain(rest);
  }

  lemma {:induction false} ScopeBodyIsBody(body: Body, dictName: string)
    requires IsBody(body) && NoBrace(dictName)
    ensures IsBody(ScopeBody(body, dictName))
    decreases body, 1
  {
    hide NoBrace;
    match body
    case Plain(_) =>
    case Mixed(items) =>
      LastTextIsPlain(items);
      ScopeNestedIsItems(items, LastText(items), dictName);
      OwnItemsAreItems(items, ScopeNested(items, LastText(items), dictName));
  }

  lemma {:induction false} ScopedIsSheet(sheet: Sheet, dictName: string)
    requires IsSheet(sheet) && NoBrace(dictName)
    ensures IsSheet(ScopeSheet(sheet, dictName))
  {
    match sheet
    case Trailer(text) =>
      UnspacedStartsPlain(text);
      SpaceHasNoBrace(Take(text, SpaceLength(text)));
    case Entry(space, rule, rest) =>
      ScopedIsSheet(rest, dictName);
      ScopeBodyIsBody(rule.body, dictName);
      var s := ScopedSelector(rule.selector, dictName);
      ScopedSelectorHasNoBrace(rule.selector, dictName);
      UnspacedStartsPlain(s);
      hide IsBody, ScopeBody, ScopedSelector, SpaceLength, Take, Rest;
      AllSpaceConcat(space, Take(s, SpaceLength(s)));
      hide AllSpace, NoBrace;
  }

  lemma AllSpaceConcat(a: string, b: string)
    requires AllSpace(a) && AllSpace(b)
    ensures AllSpace(a + b)
  {
  }

  // ---------------------------------------------------------------- a text is read in one way only

  /** The parts of the rule that a text starts with are where the text says. */
  lemma RuleParts(space: string, rule: Rule, u: string)
    requires AllSpace(space) && IsRule(rule)
    ensures var s := space + (RuleText(rule) + u); var k := SpaceLength(s);
            && k == |space| && k <= |s| && Take(s, k) == space && Rest(s, k) == RuleText(rule) + u
            && HasRuleParts(Rest(s, k), rule.selector, BodyText(rule.body), u)
  {
    hide BlockLength, BodyText, RuleText, IsRule, IndexOf, NoBrace, Take, Rest, SpaceLength, AllSpace,
        StartsPlain, Inner;
    RuleStarts(rule, u);
    SkipSpace(space, RuleText(rule) + u);
    BlockOfRule(rule, u);
    InnerOfBlock(BodyText(rule.body), u);
    var s := space + (RuleText(rule) + u);
    assert |s| >= |space|;
  }

  predicate HasRuleParts(t: string, selector: string, body: string, u: string) {
    var brace := IndexOf(t, '{', 0);
    brace >= 0 && Take(t, brace) == selector &&
    var r := Rest(t, brace + 1);
    var n := BlockLength(r, 1);
    Inner(r, n) == body && Rest(r, n) == u
  }

  lemma SameParts(t: string, selector: string, body: string, u: string, selector': string, body': string, u': string)
    requires HasRuleParts(t, selector, body, u) && HasRuleParts(t, selector', body', u')
    ensures selector == selector' && body == body' && u == u'
  {
  }

  lemma {:induction false} SheetIsReadOnce(a: Sheet, b: Sheet)
    requires IsSheet(a) && IsSheet(b) && SheetText(a) == SheetText(b)
    ensures a == b
  {
    hide IsRule, AllSpace, NoBrace, RuleText, HasRuleParts, Take, Rest, SpaceLength;
    match a
    case Trailer(text) =>
      NoOpening(text);
      if b.Entry? { EntryHasBrace(b); }
    case Entry(space, rule, rest) =>
      if b.Trailer? {
        NoOpening(b.text);
        EntryHasBrace(a);
      } else {
        RuleParts(space, rule, SheetText(rest));
        RuleParts(b.space, b.rule, SheetText(b.rest));
        var t := RuleText(rule) + SheetText(rest);
        SameParts(t, rule.selector, BodyText(rule.body), SheetText(rest), b.rule.selector, BodyText(b.rule.body),
            SheetText(b.rest));
        SheetIsReadOnce(rest, b.rest);
        RuleHasBody(rule);
        RuleHasBody(b.rule);
        BodyIsReadOnce(rule.body, b.rule.body);
      }
  }

  lemma RuleHasBody(rule: Rule)
    requires IsRule(rule)
    ensures IsBody(rule.body)
  {
  }

  lemma EntryHasBrace(sheet: Sheet)
    requires sheet.Entry?
    ensures '{' in SheetText(sheet)
  {
    var t := RuleText(sheet.rule) + SheetText(sheet.rest);
    RuleThen(sheet.rule, SheetText(sheet.rest));
    assert t[|sheet.rule.selector|] == '{';
    hide RuleText, SheetText;
    BehindIsIn(sheet.space, t, '{');
  }

  lemma BehindIsIn(a: string, b: string, c: char)
    requires c in b
    ensures c in a + b
  {
    var k :| 0 <= k < |b| && b[k] == c;
    assert (a + b)[|a| + k] == c;
  }

  lemma {:induction false} BodyIsReadOnce(a: Body, b: Body)
    requires IsBody(a) && IsBody(b) && BodyText(a) == BodyText(b)
    ensures a == b
    decreases a, 1
  {
    hide ItemsText, IsItems, NoBrace, HasNested;
    match a
    case Plain(text) =>
      NoOpening(text);
      if b.Mixed? { NestedHasBrace(b.items); }
    case Mixed(items) =>
      NestedHasBrace(items);
      if b.Plain? { NoOpening(b.text); } else { ItemsAreReadOnce(items, b.items); }
  }

  /** What comes first in a block. */
  lemma FirstItem(items: Items)
    requires IsItems(items)
    ensures var s := ItemsText(items); var k := SpaceLength(s);
            k == |items.space| && k <= |s| && Take(s, k) == items.space && IsFirst(items, Rest(s, k))
  {
    hide RuleText, IsRule, AllSpace, NoBrace, SpaceLength, Take, Rest, IsFirst;
    match items
    case Last(space, text) =>
      SkipSpace(space, text);
      LastIsFirst(items);
    case Declaration(space, text, rest) =>
      DeclarationLength(text, ItemsText(rest));
      SkipSpace(space, text + ItemsText(rest));
      DeclarationIsFirst(items);
    case Nested(space, rule, rest) =>
      RuleParts(space, rule, ItemsText(rest));
      RuleLength(rule, ItemsText(rest));
      NestedIsFirst(items);
  }

  predicate IsFirst(items: Items, t: string) {
    match items
    case Last(_, text) => !IsNested(t) && ';' !in t && t == text
    case Declaration(_, text, rest) =>
      !IsNested(t) && ';' in t && t != "" && Take(t, ItemLength(t)) == text && Rest(t, ItemLength(t)) == ItemsText(rest)
    case Nested(_, rule, rest) => IsNested(t) && HasRuleParts(t, rule.selector, BodyText(rule.body), ItemsText(rest))
  }

  lemma LastIsFirst(items: Items)
    requires items.Last? && IsItems(items)
    ensures IsFirst(items, items.text)
  {
    NoOpening(items.text);
  }

  lemma DeclarationIsFirst(items: Items)
    requires items.Declaration? && IsItems(items)
    ensures IsFirst(items, items.text + ItemsText(items.rest))
  {
    var t := items.text + ItemsText(items.rest);
    DeclarationLength(items.text, ItemsText(items.rest));
    Behind(items.text, ItemsText(items.rest));
    assert t[|items.text| - 1] == ';';
    hide IsNested, ItemLength, ItemsText, IsItems;
  }

  lemma NestedIsFirst(items: Items)
    requires items.Nested? && IsItems(items)
    requires HasRuleParts(RuleText(items.rule) + ItemsText(items.rest), items.rule.selector, BodyText(items.rule.body),
        ItemsText(items.rest))
    ensures IsFirst(items, RuleText(items.rule) + ItemsText(items.rest))
  {
    RuleLength(items.rule, ItemsText(items.rest));
    hide HasRuleParts, RuleText, BodyText, ItemsText;
  }

  lemma {:induction false} ItemsAreReadOnce(a: Items, b: Items)
    requires IsItems(a) && IsItems(b) && ItemsText(a) == ItemsText(b)
    ensures a == b
    decreases a, 0
  {
    hide ItemsText, RuleText, BodyText, IsRule, AllSpace, NoBrace, SpaceLength, Take, Rest, HasRuleParts, IsNested,
        ItemLength, IsDeclaration;
    FirstItem(a);
    FirstItem(b);
    match a
    case Last(_, _) =>
    case Declaration(_, _, rest) =>
      ItemsAreReadOnce(rest, b.rest);
    case Nested(_, rule, rest) =>
      var s := ItemsText(a);
      var t := Rest(s, SpaceLength(s));
      SameParts(t, rule.selector, BodyText(rule.body), ItemsText(rest), b.rule.selector, BodyText(b.rule.body),
          ItemsText(b.rest));
      ItemsAreReadOnce(rest, b.rest);
      RuleHasBody(rule);
      RuleHasBody(b.rule);
      BodyIsReadOnce(rule.body, b.rule.body);
  }

  // ---------------------------------------------------------------- the rules of a sheet

  /** A selector and the declarations that belong to it. */
  datatype Style = Style(selector: string, declarations: string)

  /** A rule, and behind it the rules nested in it. */
  function RuleList(selector: string, body: Body): seq<Style>
    decreases body
  {
    match body
    case Plain(text) => [Style(selector, text)]
    case Mixed(items) => [Style(selector, OwnText(items))] + ItemList(items)
  }

  function ItemList(items: Items): seq<Style>
    decreases items
  {
    match items
    case Last(_, _) => []
    case Declaration(_, _, rest) => ItemList(rest)
    case Nested(_, rule, rest) => RuleList(rule.selector, rule.body) + ItemList(rest)
  }

  /** The rules of a sheet, a rule before the ones nested in it. */
  function SheetList(sheet: Sheet): seq<Style> {
    match sheet
    case Trailer(_) => []
    case Entry(_, rule, rest) => RuleList(rule.selector, rule.body) + SheetList(rest)
  }

  /** The same rules with their selectors scoped. */
  function ScopeStyles(list: seq<Style>, dictName: string): seq<Style> {
    seq(|list|, i requires 0 <= i < |list| =>
      Style(Unspaced(ScopedSelector(list[i].selector, dictName)), list[i].declarations))
  }

  lemma ScopeStylesConcat(a: seq<Style>, b: seq<Style>, dictName: string)
    ensures ScopeStyles(a + b, dictName) == ScopeStyles(a, dictName) + ScopeStyles(b, dictName)
    ensures |ScopeStyles(a, dictName)| == |a|
  {
    hide ScopedSelector, Unspaced;
  }

  /** Nothing stands behind the last semicolon or brace of a block with nested rules, and no selector
      nested in it is scoped by text with a semicolon. */
  predicate KeepsBody(body: Body, dictName: string) {
    match body
    case Plain(_) => true
    case Mixed(items) => LastText(items) == "" && KeepsItems(items, dictName)
  }

  predicate KeepsItems(items: Items, dictName: string) {
    match items
    case Last(_, _) => true
    case Declaration(_, _, rest) => KeepsItems(rest, dictName)
    case Nested(_, rule, rest) =>
      ';' !in ScopedSelector(rule.selector, dictName) && KeepsBody(rule.body, dictName) && KeepsItems(rest, dictName)
  }

  predicate KeepsRules(sheet: Sheet, dictName: string) {
    match sheet
    case Trailer(_) => true
    case Entry(_, rule, rest) => KeepsBody(rule.body, dictName) && KeepsRules(rest, dictName)
  }

  /** No selector nested in the block is cut. */
  predicate NoneCut(items: Items, dictName: string) {
    match items
    case Last(_, _) => true
    case Declaration(_, _, rest) => NoneCut(rest, dictName)
    case Nested(_, rule, rest) => ';' !in ScopedSelector(rule.selector, dictName) && NoneCut(rest, dictName)
  }

  lemma {:induction false} KeptIsNotCut(items: Items, dictName: string)
    ensures KeepsItems(items, dictName) ==> NoneCut(items, dictName)
  {
    match items
    case Last(_, _) =>
    case Declaration(_, _, rest) => KeptIsNotCut(rest, dictName);
    case Nested(_, _, rest) => KeptIsNotCut(rest, dictName);
  }

  // ---------------------------------------------------------------- what a cut does

  /** The declarations that a selector is cut into. */
  function CutText(text: string): string
    decreases |text|
  {
    var t := Unspaced(text);
    var semi := IndexOf(t, ';', 0);
    if semi == -1 then "" else Take(t, semi + 1) + CutText(Rest(t, semi + 1))
  }

  predicate EndsCut(s: string) { s != "" && s[|s| - 1] == ';' }

  lemma EndsConcat(a: string, b: string)
    requires EndsCut(a) && (b == "" || EndsCut(b))
    ensures EndsCut(a + b)
  {
  }

  lemma SemicolonBehindSpace(s: string)
    ensures ';' in s <==> ';' in Unspaced(s)
  {
    SpacesInFront(s);
    var k := SpaceLength(s);
    SpacesFit(s);
    hide SpaceLength;
    if ';' in s {
      var i :| 0 <= i < |s| && s[i] == ';';
      assert !IsSpace(';');
      assert Rest(s, k)[i - k] == ';';
    }
  }

  lemma FirstSemicolon(t: string)
    ensures var semi := IndexOf(t, ';', 0);
            if semi == -1 then ';' !in t
            else ';' in t && semi < |t| && EndsCut(Take(t, semi + 1)) && |Rest(t, semi + 1)| < |t|
  {
    var semi := IndexOf(t, ';', 0);
    if semi >= 0 { assert Take(t, semi + 1)[semi] == t[semi]; }
  }

  /** A selector without a semicolon is not cut; any other leaves text that ends with one. */
  lemma {:induction false} CutTextEnds(text: string)
    ensures if ';' in text then EndsCut(CutText(text)) else CutText(text) == ""
    decreases |text|
  {
    hide IndexOf, Take, Rest, EndsCut, Unspaced;
    SemicolonBehindSpace(text);
    UnspacedIsShorter(text);
    var t := Unspaced(text);
    FirstSemicolon(t);
    var semi := IndexOf(t, ';', 0);
    if semi != -1 {
      CutTextEnds(Rest(t, semi + 1));
      EndsConcat(Take(t, semi + 1), CutText(Rest(t, semi + 1)));
    }
  }

  lemma UnspacedIsShorter(s: string)
    ensures |Unspaced(s)| <= |s|
  {
  }

  lemma {:induction false} ReadRuleOwn(text: string, body: Body, rest: Items)
    ensures OwnText(ReadRule(text, body, rest)) == CutText(text) + OwnText(rest)
    decreases |text|
  {
    hide IndexOf, Take, SpaceLength, Rest, IsSpace;
    SpacesFit(text);
    var t := Unspaced(text);
    var semi := IndexOf(t, ';', 0);
    FirstSemicolon(t);
    if semi == -1 {
      EmptyFront(OwnText(rest));
    } else {
      UnspacedIsShorter(text);
      ReadRuleOwn(Rest(t, semi + 1), body, rest);
      Associate(Take(t, semi + 1), CutText(Rest(t, semi + 1)), OwnText(rest));
    }
  }

  /** The declarations in front of the nested rules: the text behind the last semicolon is lost to the
      first nested rule, and a cut selector leaves text that ends with a semicolon. */
  lemma {:induction false} NestedOwn(items: Items, lead: string, dictName: string)
    requires ';' !in lead
    ensures var own := OwnText(ScopeNested(items, lead, dictName));
            if NoneCut(items, dictName) then own == (if HasNested(items) then "" else lead) else EndsCut(own)
  {
    hide ReadRule, ScopedSelector, ScopeBody, EndsCut;
    match items
    case Last(_, _) =>
    case Declaration(_, _, rest) => NestedOwn(rest, lead, dictName);
    case Nested(_, rule, rest) =>
      var s := ScopedSelector(rule.selector, dictName);
      NestedOwn(rest, "", dictName);
      ReadRuleOwn(lead + s, ScopeBody(rule.body, dictName), ScopeNested(rest, "", dictName));
      CutTextEnds(lead + s);
      InEither(lead, s, ';');
      var own := OwnText(ScopeNested(rest, "", dictName));
      if ';' in s {
        if own == "" {
          EmptyBack(CutText(lead + s));
        } else {
          EndsOrEmpty(items, rest, dictName);
          EndsConcat(CutText(lead + s), own);
        }
      } else {
        EmptyFront(own);
      }
  }

  lemma EndsOrEmpty(items: Items, rest: Items, dictName: string)
    requires var own := OwnText(ScopeNested(rest, "", dictName));
             if NoneCut(rest, dictName) then own == (if HasNested(rest) then "" else "") else EndsCut(own)
    ensures var own := OwnText(ScopeNested(rest, "", dictName)); own == "" || EndsCut(own)
  {
  }

  lemma EmptyBack(s: string)
    ensures s + "" == s
  {
  }

  lemma InEither(a: string, b: string, c: char)
    ensures c in a + b <==> c in a || c in b
  {
    if c in b { BehindIsIn(a, b, c); }
    if c in a {
      var k :| 0 <= k < |a| && a[k] == c;
      assert (a + b)[k] == c;
    }
  }

  // ---------------------------------------------------------------- exactly when the rules are kept

  lemma {:induction false} OwnItemsLists(items: Items, nested: Items)
    ensures ItemList(OwnItems(items, nested)) == ItemList(nested)
    ensures OwnText(OwnItems(items, nested)) == DeclaredText(items) + OwnText(nested)
  {
    match items
    case Last(_, _) =>
      EmptyFront(OwnText(nested));
    case Declaration(_, text, rest) =>
      OwnItemsLists(rest, nested);
      Associate(text, DeclaredText(rest), OwnText(nested));
    case Nested(_, _, rest) =>
      OwnItemsLists(rest, nested);
  }

  lemma {:induction false} ReadRuleList(text: string, body: Body, rest: Items)
    ensures |ItemList(ReadRule(text, body, rest))| == |RuleList("", body)| + |ItemList(rest)|
    ensures ';' !in text ==> ItemList(ReadRule(text, body, rest)) == RuleList(Unspaced(text), body) + ItemList(rest)
    decreases |text|
  {
    SemicolonBehindSpace(text);
    hide IndexOf, Take, SpaceLength, Rest, IsSpace;
    SpacesFit(text);
    var t := Unspaced(text);
    var semi := IndexOf(t, ';', 0);
    FirstSemicolon(t);
    SameLength("", t, body);
    UnspacedIsShorter(text);
    if semi != -1 {
      ReadRuleList(Rest(t, semi + 1), body, rest);
    }
  }

  lemma SameLength(a: string, b: string, body: Body)
    ensures |RuleList(a, body)| == |RuleList(b, body)|
  {
  }

  lemma {:induction false} NestedLength(items: Items, lead: string, dictName: string)
    ensures |ItemList(ScopeNested(items, lead, dictName))| == |ItemList(items)|
    decreases items, 0
  {
    hide ReadRule, ScopedSelector, RuleList, ScopeBody;
    match items
    case Last(_, _) =>
    case Declaration(_, _, rest) => NestedLength(rest, lead, dictName);
    case Nested(_, rule, rest) =>
      NestedLength(rest, "", dictName);
      BodyLength(rule.selector, rule.body, dictName);
      ReadRuleList(lead + ScopedSelector(rule.selector, dictName), ScopeBody(rule.body, dictName),
          ScopeNested(rest, "", dictName));
      SameLength("", rule.selector, ScopeBody(rule.body, dictName));
  }

  lemma {:induction false} BodyLength(selector: string, body: Body, dictName: string)
    ensures |RuleList(selector, ScopeBody(body, dictName))| == |RuleList(selector, body)|
    decreases body, 1
  {
    match body
    case Plain(_) =>
    case Mixed(items) =>
      NestedLength(items, LastText(items), dictName);
      OwnItemsLists(items, ScopeNested(items, LastText(items), dictName));
  }

  lemma SplitEqual<T>(a: seq<T>, b: seq<T>, a': seq<T>, b': seq<T>)
    requires |a| == |a'|
    ensures a + b == a' + b' <==> a == a' && b == b'
  {
    if a + b == a' + b' {
      assert a == (a + b)[..|a|] == (a' + b')[..|a'|] == a';
      assert b == (a + b)[|a|..] == (a' + b')[|a'|..] == b';
    }
  }

  lemma NoCutEnd(s: string)
    requires ';' !in s
    ensures !EndsCut(s)
  {
  }

  /** A block keeps its own declarations exactly when nothing is swallowed and nothing is cut. */
  lemma OwnIsKept(items: Items, dictName: string)
    requires IsItems(items) && HasNested(items)
    ensures OwnText(OwnItems(items, ScopeNested(items, LastText(items), dictName))) == OwnText(items)
            <==> LastText(items) == "" && NoneCut(items, dictName)
  {
    hide IsItems, ScopeNested, OwnItems, OwnText, NoneCut;
    var lead := LastText(items);
    var nested := ScopeNested(items, lead, dictName);
    LastTextIsPlain(items);
    OwnItemsLists(items, nested);
    NestedOwn(items, lead, dictName);
    OwnIsDeclaredAndLast(items);
    SplitEqual(DeclaredText(items), OwnText(nested), DeclaredText(items), lead);
    NoCutEnd(lead);
  }

  /** Nested rules that are neither cut nor led by other text keep their rules if their blocks do. */
  lemma {:induction false} NestedIsKept(items: Items, dictName: string)
    requires IsItems(items) && NoneCut(items, dictName)
    ensures ItemList(ScopeNested(items, "", dictName)) == ScopeStyles(ItemList(items), dictName) <==>
        KeepsItems(items, dictName)
    decreases items, 0
  {
    hide ReadRule, ScopedSelector, RuleList, ScopeBody, ScopeStyles, IsRule, Unspaced;
    match items
    case Last(_, _) =>
      NoStyles(dictName);
    case Declaration(_, _, rest) => NestedIsKept(rest, dictName);
    case Nested(_, rule, rest) =>
      var s, body, nested := ScopedSelector(rule.selector, dictName), ScopeBody(rule.body, dictName),
          ScopeNested(rest, "", dictName);
      NestedIsKept(rest, dictName);
      RuleHasBody(rule);
      BodyIsKept(rule.selector, rule.body, dictName);
      EmptyFront(s);
      ReadRuleList(s, body, nested);
      ScopeStylesConcat(RuleList(rule.selector, rule.body), ItemList(rest), dictName);
      BodyLength(rule.selector, rule.body, dictName);
      SameLength(Unspaced(s), rule.selector, body);
      SplitEqual(RuleList(Unspaced(s), body), ItemList(nested),
        ScopeStyles(RuleList(rule.selector, rule.body), dictName), ScopeStyles(ItemList(rest), dictName));
  }

  lemma NoStyles(dictName: string)
    ensures ScopeStyles([], dictName) == []
  {
  }

  lemma OneStyle(style: Style, dictName: string)
    ensures ScopeStyles([style], dictName)
         == [Style(Unspaced(ScopedSelector(style.selector, dictName)), style.declarations)]
  {
  }

  /** The rules of one block. */
  lemma {:induction false} BodyIsKept(selector: string, body: Body, dictName: string)
    requires IsBody(body)
    ensures RuleList(Unspaced(ScopedSelector(selector, dictName)), ScopeBody(body, dictName))
              == ScopeStyles(RuleList(selector, body), dictName)
       <==> KeepsBody(body, dictName)
    decreases body, 1
  {
    hide ScopedSelector, Unspaced, ScopeStyles, ScopeNested, OwnItems, IsItems, NoneCut, KeepsItems;
    var s := Unspaced(ScopedSelector(selector, dictName));
    match body
    case Plain(text) =>
      OneStyle(Style(selector, text), dictName);
    case Mixed(items) =>
      var nested := ScopeNested(items, LastText(items), dictName);
      OneStyle(Style(selector, OwnText(items)), dictName);
      ScopeStylesConcat([Style(selector, OwnText(items))], ItemList(items), dictName);
      OwnItemsLists(items, nested);
      OwnIsKept(items, dictName);
      KeptIsNotCut(items, dictName);
      if LastText(items) == "" && NoneCut(items, dictName) { NestedIsKept(items, dictName); }
      SplitEqual([Style(s, OwnText(OwnItems(items, nested)))], ItemList(nested),
        [Style(s, OwnText(items))], ScopeStyles(ItemList(items), dictName));
  }

  /** The tree of the output has the rules of the input, each with its own declarations and its selectors
      scoped, if and only if nothing is left behind a last semicolon in front of nested rules. */
  lemma {:induction false} ScopesEveryRule(sheet: Sheet, dictName: string)
    requires IsSheet(sheet)
    ensures SheetList(ScopeSheet(sheet, dictName)) == ScopeStyles(SheetList(sheet), dictName) <==>
        KeepsRules(sheet, dictName)
  {
    hide RuleList, ScopeBody, ScopeStyles, IsRule, Unspaced, ScopedSelector, KeepsBody;
    match sheet
    case Trailer(_) =>
      NoStyles(dictName);
    case Entry(_, rule, rest) =>
      var s, body := Unspaced(ScopedSelector(rule.selector, dictName)), ScopeBody(rule.body, dictName);
      ScopesEveryRule(rest, dictName);
      RuleHasBody(rule);
      BodyIsKept(rule.selector, rule.body, dictName);
      ScopeStylesConcat(RuleList(rule.selector, rule.body), SheetList(rest), dictName);
      BodyLength(rule.selector, rule.body, dictName);
      SameLength(s, rule.selector, body);
      SplitEqual(RuleList(s, body), SheetList(ScopeSheet(rest, dictName)),
        ScopeStyles(RuleList(rule.selector, rule.body), dictName), ScopeStyles(SheetList(rest), dictName));
  }

  /** The output is read back as exactly one sheet, and it has the scoped rules of the input exactly when
      the input keeps its rules. */
  lemma OutputKeepsRules(sheet: Sheet, dictName: string)
    requires IsSheet(sheet) && SheetIsClear(sheet) && NoBrace(dictName)
    ensures IsSheet(ScopeSheet(sheet, dictName))
        && SheetText(ScopeSheet(sheet, dictName)) == Scoped(SheetText(sheet), dictName)
    ensures forall out :: IsSheet(out) && SheetText(out) == Scoped(SheetText(sheet), dictName) ==>
              (SheetList(out) == ScopeStyles(SheetList(sheet), dictName) <==> KeepsRules(sheet, dictName))
  {
    hide Scoped, ScopeSheet, SheetText, SheetList, ScopeStyles, KeepsRules, IsSheet;
    ScopesTheTree(sheet, dictName);
    ScopedIsSheet(sheet, dictName);
    ScopesEveryRule(sheet, dictName);
    forall out | IsSheet(out) && SheetText(out) == Scoped(SheetText(sheet), dictName)
      ensures SheetList(out) == ScopeStyles(SheetList(sheet), dictName) <==> KeepsRules(sheet, dictName)
    {
      SheetIsReadOnce(out, ScopeSheet(sheet, dictName));
    }
  }

  // ---------------------------------------------------------------- selector lists

  lemma {:induction false} JoinFirst(first: string, parts: seq<string>, separator: string)
    requires parts != []
    ensures Join([first] + parts, separator) == first + (separator + Join(parts, separator))
  {
    var all, n := [first] + parts, |parts|;
    assert all[n] == parts[n - 1] && all[..n] == [first] + parts[..n - 1];
    if n == 1 {
      assert all[..1] == [first];
      Associate(first, separator, parts[0]);
    } else {
      var front, last := Join(parts[..n - 1], separator), parts[n - 1];
      JoinFirst(first, parts[..n - 1], separator);
      Associate(first, separator + front, separator);
      Associate(first, (separator + front) + separator, last);
      Associate(separator, front, separator);
      Associate(separator, front + separator, last);
    }
  }

  /** A selector list is cut at its commas, and nowhere else. */
  lemma {:induction false} SplitIsExact(s: string)
    ensures Join(SplitCommas(s), ",") == s
    ensures forall i :: 0 <= i < |SplitCommas(s)| ==> ',' !in SplitCommas(s)[i]
    decreases |s|
  {
    hide IndexOf, Join, SplitCommas, Take, Rest;
    FirstComma(s);
    var k := IndexOf(s, ',', 0);
    if k >= 0 {
      var first, rest := Take(s, k), Rest(s, k + 1);
      SplitIsExact(rest);
      JoinFirst(first, SplitCommas(rest), ",");
    }
  }

  lemma FirstComma(s: string)
    ensures var k := IndexOf(s, ',', 0);
            if k < 0 then SplitCommas(s) == [s] && Join([s], ",") == s && ',' !in s
            else && 0 <= k < |s| && SplitCommas(s) == [Take(s, k)] + SplitCommas(Rest(s, k + 1))
                 && SplitCommas(Rest(s, k + 1)) != []
                 && ',' !in Take(s, k) && s == Take(s, k) + ("," + Rest(s, k + 1))
  {
    hide Join, SplitCommas, Take, Rest;
    JoinOne(s);
    var k := IndexOf(s, ',', 0);
    if k >= 0 {
      SplitAtComma(s);
      CutAtComma(s, k);
      SomePart(Rest(s, k + 1));
    } else {
      NoCommaStep(s);
    }
  }

  lemma JoinOne(s: string)
    ensures Join([s], ",") == s
  {
  }

  lemma SomePart(s: string)
    ensures SplitCommas(s) != []
  {
  }

  lemma CutAtComma(s: string, k: nat)
    requires k < |s| && s[k] == ',' && forall i :: 0 <= i < k ==> s[i] != ','
    ensures s == Take(s, k) + ("," + Rest(s, k + 1)) && ',' !in Take(s, k)
  {
  }

  /** `t` is `s` without the white space around it. */
  ghost predicate IsTrimmed(s: string, t: string) {
    && (t != "" ==> !IsSpace(t[0]) && !IsSpace(t[|t| - 1]))
    && exists lo, hi :: IsWithin(s, t, lo, hi)
  }

  ghost predicate IsWithin(s: string, t: string, lo: int, hi: int) {
    0 <= lo <= hi <= |s| && t == s[lo..hi] && AllSpace(s[..lo]) && AllSpace(s[hi..])
  }

  lemma {:induction false} TrimStartIsExact(s: string) returns (lo: nat)
    ensures lo <= |s| && TrimStart(s) == s[lo..] && AllSpace(s[..lo]) && StartsPlain(TrimStart(s))
  {
    hide IsSpace;
    lo := 0;
    if s != "" && IsSpace(s[0]) {
      lo := TrimStartIsExact(s[1..]);
      assert s[1..][lo..] == s[lo + 1..];
      assert forall k :: 0 < k < lo + 1 ==> s[k] == s[1..][..lo][k - 1];
      lo := lo + 1;
    }
  }

  lemma {:induction false} TrimEndIsExact(s: string) returns (hi: nat)
    ensures hi <= |s| && TrimEnd(s) == s[..hi] && AllSpace(s[hi..])
        && (TrimEnd(s) != "" ==> !IsSpace(TrimEnd(s)[hi - 1]))
  {
    hide IsSpace;
    hi := |s|;
    if s != "" && IsSpace(s[|s| - 1]) {
      var front := s[..|s| - 1];
      hi := TrimEndIsExact(front);
      assert front[..hi] == s[..hi];
      assert forall k :: 0 <= k < |front| - hi ==> s[hi..][k] == front[hi..][k];
    }
  }

  lemma TrimIsExact(s: string)
    ensures IsTrimmed(s, Trim(s))
  {
    var lo := TrimStartIsExact(s);
    var t := TrimStart(s);
    var hi := TrimEndIsExact(t);
    assert s[lo..][..hi] == s[lo..lo + hi] && t[hi..] == s[lo + hi..];
    assert IsWithin(s, Trim(s), lo, lo + hi);
  }

  /** There is only one text without the white space around it. */
  lemma TrimmedIsUnique(s: string, t: string, u: string)
    requires IsTrimmed(s, t) && IsTrimmed(s, u)
    ensures t == u
  {
    var lo, hi :| IsWithin(s, t, lo, hi);
    var lo', hi' :| IsWithin(s, u, lo', hi');
    hide IsSpace;
    if t != "" { SpacesEnd(s, lo, hi, lo', hi'); }
    if u != "" { SpacesEnd(s, lo', hi', lo, hi); }
    if t != "" && u != "" {
      assert lo == lo' && hi == hi';
    }
  }

  /** White space does not reach into a part that starts and ends without. */
  lemma SpacesEnd(s: string, lo: int, hi: int, lo': int, hi': int)
    requires 0 <= lo < hi <= |s| && 0 <= lo' <= hi' <= |s| && !IsSpace(s[lo]) && !IsSpace(s[hi - 1])
    requires AllSpace(s[..lo']) && AllSpace(s[hi'..])
    ensures lo' <= lo && hi <= hi'
  {
    assert forall k :: 0 <= k < lo' ==> s[..lo'][k] == s[k];
    assert forall k :: hi' <= k < |s| ==> s[hi'..][k - hi'] == s[k];
  }

  /** One selector of a scoped list: the prefix and a space in front of the trimmed selector; a selector that
      starts with `&` as it was; nothing for an empty one. */
  ghost predicate IsScopedPart(part: string, prefix: string, scoped: string) {
    exists t :: IsTrimmed(part, t)
                && scoped == if t == "" then "" else if t[0] == '&' then part else prefix + (" " + t)
  }

  /** A selector list is scoped selector by selector. */
  lemma ListIsScoped(list: string, dictName: string) returns (parts: seq<string>, scoped: seq<string>)
    ensures Join(parts, ",") == list && forall i :: 0 <= i < |parts| ==> ',' !in parts[i]
    ensures |scoped| == |parts|
    ensures forall i :: 0 <= i < |parts| ==>
              IsScopedPart(parts[i], ".yomitan-glossary [data-dictionary=\"" + dictName + "\"]", scoped[i])
    ensures ScopeSelectors(list, PrefixFor(dictName)) == Join(scoped, ", ")
  {
    SplitIsExact(list);
    parts := SplitCommas(list);
    scoped := ScopeAll(parts, PrefixFor(dictName));
    hide Join, SplitCommas;
    forall i | 0 <= i < |parts| ensures IsScopedPart(parts[i], PrefixFor(dictName), scoped[i]) {
      PartIsScoped(parts[i], PrefixFor(dictName));
    }
  }

  lemma PartIsScoped(part: string, prefix: string)
    ensures IsScopedPart(part, prefix, ScopeSelector(part, prefix))
  {
    TrimIsExact(part);
    var t := Trim(part);
    hide Trim, IsTrimmed;
    assert prefix + (" " + t) == prefix + " " + t;
  }

  // ---------------------------------------------------------------- sheets that lose a rule

  const INNER_RULE := Rule("b", Plain("c:d"))

  /** `a{b{c:d}...}`: a block with one nested rule, and text behind it. */
  function SmallSheet(last: string): Sheet {
    Entry("", Rule("a", Mixed(SmallItems(last))), Trailer(""))
  }

  function SmallItems(last: string): Items { Nested("", INNER_RULE, Last("", last)) }

  lemma InnerRule()
    ensures IsRule(INNER_RULE) && RuleIsClear(INNER_RULE) && RuleText(INNER_RULE) == "b{c:d}"
        && ';' !in INNER_RULE.selector
  {
    assert !IsSpace('b') && BodyText(Plain("c:d")) == "c:d";
  }

  lemma SmallItemsAre(last: string)
    requires StartsPlain(last) && NoBrace(last) && ';' !in last
    ensures IsItems(SmallItems(last)) && HasNested(SmallItems(last)) && ItemsAreClear(SmallItems(last))
    ensures ItemsText(SmallItems(last)) == "b{c:d}" + last && LastText(SmallItems(last)) == last
  {
    InnerRule();
    hide IsRule, RuleIsClear, RuleText, NoBrace, StartsPlain;
    EmptyFront(last);
    EmptyFront("b{c:d}" + last);
    assert AllSpace("");
    assert ItemsText(Last("", last)) == last;
  }

  lemma SmallSheetIs(last: string)
    requires StartsPlain(last) && NoBrace(last) && ';' !in last
    ensures IsSheet(SmallSheet(last)) && SheetIsClear(SmallSheet(last))
    ensures SheetText(SmallSheet(last)) == "a{b{c:d}" + last + "}"
  {
    SmallItemsAre(last);
    OuterSelector();
    SmallTrailer();
    hide SmallItems, IsItems, ItemsText, HasNested, ItemsAreClear, IsSelector, StartsComment, AllSpace, RuleText,
        NoBrace, StartsPlain;
    var rule := Rule("a", Mixed(SmallItems(last)));
    assert IsBody(rule.body) && IsRule(rule);
    RuleThen(rule, "");
    EmptyBack(RuleText(rule));
    EmptyFront(RuleText(rule) + "");
    SmallText(last);
  }

  lemma OuterSelector()
    ensures IsSelector("a") && !StartsComment("a") && AllSpace("")
  {
    assert !IsSpace('a');
  }

  lemma SmallText(last: string)
    ensures "a" + ("{" + (("b{c:d}" + last) + ("}" + ""))) == "a{b{c:d}" + last + "}"
  {
  }

  lemma SmallTrailer()
    ensures IsSheet(Trailer("")) && SheetIsClear(Trailer("")) && SheetText(Trailer("")) == ""
  {
  }

  /** `a{b{c:d}e:f}`: the declaration behind the nested rule becomes part of that rule's selector. */
  lemma LastDeclarationIsSwallowed()
    ensures IsSheet(SmallSheet("e:f")) && SheetText(SmallSheet("e:f")) == "a{b{c:d}e:f}"
    ensures forall out :: IsSheet(out) && SheetText(out) == Scoped("a{b{c:d}e:f}", "D") ==>
              SheetList(out) != ScopeStyles(SheetList(SmallSheet("e:f")), "D")
  {
    assert StartsPlain("e:f") by { assert !IsSpace('e'); }
    SmallSheetIs("e:f");
    SmallItemsAre("e:f");
    assert "a{b{c:d}" + "e:f" + "}" == "a{b{c:d}e:f}";
    assert !KeepsRules(SmallSheet("e:f"), "D");
    assert NoBrace("D");
    hide SheetText, IsSheet, SheetIsClear, Scoped, KeepsRules, NoBrace, SmallSheet, ScopeStyles, SheetList;
    OutputKeepsRules(SmallSheet("e:f"), "D");
  }

  /** `a{b{c:d}}` for a dictionary named `D;`: the semicolon cuts the scoped selector of the nested rule. */
  lemma SemicolonInNameCuts()
    ensures IsSheet(SmallSheet("")) && SheetText(SmallSheet("")) == "a{b{c:d}}"
    ensures forall out :: IsSheet(out) && SheetText(out) == Scoped("a{b{c:d}}", "D;") ==>
              SheetList(out) != ScopeStyles(SheetList(SmallSheet("")), "D;")
  {
    SmallSheetIs("");
    assert "a{b{c:d}" + "" + "}" == "a{b{c:d}}";
    NameInSelector("b", "D;", ';') by { assert !IsSpace('b'); }
    assert !KeepsItems(SmallItems(""), "D;") && !KeepsRules(SmallSheet(""), "D;");
    assert NoBrace("D;");
    hide SheetText, IsSheet, SheetIsClear, Scoped, KeepsRules, NoBrace, SmallSheet, ScopeStyles, SheetList;
    OutputKeepsRules(SmallSheet(""), "D;");
  }

  /** A selector without comma, white space or `&` carries the name of the dictionary. */
  lemma NameInSelector(selector: string, dictName: string, c: char)
    requires selector != "" && ',' !in selector && (forall k :: 0 <= k < |selector| ==> !IsSpace(selector[k]))
        && selector[0] != '&'
    requires c in dictName
    ensures c in ScopedSelector(selector, dictName)
  {
    NoCommaAtAll(selector);
    NoCommaStep(selector);
    assert Trim(selector) == selector;
    var prefix := PrefixFor(dictName);
    BehindIsIn(".yomitan-glossary [data-dictionary=\"", dictName, c);
    InEither(".yomitan-glossary [data-dictionary=\"" + dictName, "\"]", c);
    assert ScopeAll([selector], prefix) == [prefix + " " + selector];
    JoinAlone(prefix + " " + selector);
    hide PrefixFor, Trim, SplitCommas, Join, IsSpace;
    InEither(prefix, " ", c);
    InEither(prefix + " ", selector, c);
    InEither(prefix + " " + selector, " ", c);
  }

  lemma JoinAlone(s: string)
    ensures Join([s], ", ") == s
  {
  }

  lemma NoCommaAtAll(s: string)
    requires ',' !in s
    ensures IndexOf(s, ',', 0) < 0
  {
  }

  // ---------------------------------------------------------------- names without a semicolon

  /** In every block with nested rules nothing stands behind the last semicolon or brace. */
  predicate IsFinished(body: Body) {
    body.Mixed? ==> LastText(body.items) == "" && AreFinished(body.items)
  }

  predicate AreFinished(items: Items) {
    match items
    case Last(_, _) => true
    case Declaration(_, _, rest) => AreFinished(rest)
    case Nested(_, rule, rest) => IsFinished(rule.body) && AreFinished(rest)
  }

  predicate SheetIsFinished(sheet: Sheet) {
    match sheet
    case Trailer(_) => true
    case Entry(_, rule, rest) => IsFinished(rule.body) && SheetIsFinished(rest)
  }

  lemma {:induction false} PartsLack(s: string, c: char)
    requires c !in s
    ensures forall i :: 0 <= i < |SplitCommas(s)| ==> c !in SplitCommas(s)[i]
    decreases |s|
  {
    hide Take, Rest, SplitCommas;
    var k := IndexOf(s, ',', 0);
    if k >= 0 {
      SplitAtComma(s);
      hide IndexOf;
      RestLength(s, k + 1);
      SlicesLack(s, k, c);
      PartsLack(Rest(s, k + 1), c);
    } else {
      NoCommaStep(s);
    }
  }

  lemma SlicesLack(s: string, k: nat, c: char)
    requires k < |s| && c !in s
    ensures c !in Take(s, k) && c !in Rest(s, k + 1)
  {
  }

  lemma TrimLacks(s: string, c: char)
    requires c !in s
    ensures c !in Trim(s)
  {
    TrimIsExact(s);
    var lo, hi :| IsWithin(s, Trim(s), lo, hi);
    hide Trim;
  }

  lemma {:induction false} JoinLacks(parts: seq<string>, separator: string, c: char)
    requires c !in separator && forall i :: 0 <= i < |parts| ==> c !in parts[i]
    ensures c !in Join(parts, separator)
  {
    if |parts| > 1 { JoinLacks(parts[..|parts| - 1], separator, c); }
  }

  /** Scoping brings no semicolon that is not in the name. */
  lemma ScopedSelectorLacks(selector: string, dictName: string)
    requires ';' !in selector && ';' !in dictName
    ensures ';' !in ScopedSelector(selector, dictName)
  {
    var prefix := PrefixFor(dictName);
    InEither(".yomitan-glossary [data-dictionary=\"", dictName, ';');
    InEither(".yomitan-glossary [data-dictionary=\"" + dictName, "\"]", ';');
    assert ';' !in prefix;
    hide PrefixFor, Trim, SplitCommas, Join;
    var parts := SplitCommas(selector);
    PartsLack(selector, ';');
    forall i | 0 <= i < |parts| ensures ';' !in ScopeSelector(parts[i], prefix) {
      TrimLacks(parts[i], ';');
      InEither(prefix, " ", ';');
      InEither(prefix + " ", Trim(parts[i]), ';');
    }
    JoinLacks(ScopeAll(parts, prefix), ", ", ';');
    InEither(ScopeSelectors(selector, prefix), " ", ';');
  }

  lemma {:induction false} FinishedItems(items: Items, dictName: string)
    requires IsItems(items) && ';' !in dictName
    ensures KeepsItems(items, dictName) <==> AreFinished(items)
    decreases items, 0
  {
    hide ScopedSelector, IsRule;
    match items
    case Last(_, _) =>
    case Declaration(_, _, rest) => FinishedItems(rest, dictName);
    case Nested(_, rule, rest) =>
      FinishedItems(rest, dictName);
      RuleHasBody(rule);
      FinishedBody(rule.body, dictName);
      ScopedSelectorLacks(rule.selector, dictName);
  }

  lemma {:induction false} FinishedBody(body: Body, dictName: string)
    requires IsBody(body) && ';' !in dictName
    ensures KeepsBody(body, dictName) <==> IsFinished(body)
    decreases body, 1
  {
    if body.Mixed? { FinishedItems(body.items, dictName); }
  }

  /** For a name without a semicolon only the text behind the last semicolon or brace decides. */
  lemma {:induction false} FinishedSheetsKeepRules(sheet: Sheet, dictName: string)
    requires IsSheet(sheet) && ';' !in dictName
    ensures KeepsRules(sheet, dictName) <==> SheetIsFinished(sheet)
  {
    hide KeepsBody, IsFinished, IsRule;
    match sheet
    case Trailer(_) =>
    case Entry(_, rule, rest) =>
      FinishedSheetsKeepRules(rest, dictName);
      RuleHasBody(rule);
      FinishedBody(rule.body, dictName);
  }
}
