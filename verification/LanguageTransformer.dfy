/** The deinflection engine: a breadth-first search over rewrite rules.

    `TransformText` is proved to produce `[root] + AllChildren(results)`, and from that
    equation alone the lemmas below derive that the results are exactly the derivation
    chains of the source text, each once, shortest first. */
module LanguageTransformer {
  import opened Bits
  import opened ConditionFlags
  import opened Wrappers

  /** `isInflected.test` and `deinflect`, with the flags the rule needs and leaves. */
  datatype Rule = Rule(isInflected: string -> bool, deinflect: string -> string, conditionsIn: Flags,
      conditionsOut: Flags)

  datatype Transform = Transform(id: string, name: string, rules: seq<Rule>)

  datatype Frame = Frame(transform: string, ruleIndex: nat, text: string)

  /** Newest frame first. */
  type Trace = seq<Frame>

  datatype TransformedText = TransformedText(text: string, conditions: Flags, trace: Trace)

  /** The alternation of all `isInflected` sources; an empty alternation matches everything. */
  predicate HeuristicMatches(t: Transform, text: string) {
    t.rules == [] || exists j :: 0 <= j < |t.rules| && t.rules[j].isInflected(text)
  }

  predicate RuleMatches(rule: Rule, r: TransformedText) {
    ConditionsMatch(r.conditions, rule.conditionsIn) && rule.isInflected(r.text)
  }

  /** Rule `j` of `t` extends `r`: it matches, and the same step was not taken before. */
  predicate Extends(t: Transform, j: nat, r: TransformedText)
    requires j < |t.rules|
  {
    RuleMatches(t.rules[j], r) && Frame(t.id, j, r.text) !in r.trace
  }

  function Extension(t: Transform, j: nat, r: TransformedText): TransformedText
    requires j < |t.rules|
  {
    TransformedText(t.rules[j].deinflect(r.text), t.rules[j].conditionsOut, [Frame(t.id, j, r.text)] + r.trace)
  }

  function RuleChildren(t: Transform, r: TransformedText, n: nat): seq<TransformedText>
    requires n <= |t.rules|
  {
    if n == 0 then []
    else RuleChildren(t, r, n - 1) + if Extends(t, n - 1, r) then [Extension(t, n - 1, r)] else []
  }

  /** The texts one step away from `r`, in the order of the transforms and their rules. */
  function Children(ts: seq<Transform>, r: TransformedText): seq<TransformedText> {
    if ts == [] then []
    else Children(ts[..|ts| - 1], r) + RuleChildren(ts[|ts| - 1], r, |ts[|ts| - 1].rules|)
  }

  function AllChildren(ts: seq<Transform>, rs: seq<TransformedText>): seq<TransformedText> {
    if rs == [] then [] else AllChildren(ts, rs[..|rs| - 1]) + Children(ts, rs[|rs| - 1])
  }

  function Root(sourceText: string): TransformedText { TransformedText(sourceText, 0, []) }

  /** The equation that breadth-first search solves. */
  ghost predicate IsSearch(ts: seq<Transform>, sourceText: string, results: seq<TransformedText>) {
    results == [Root(sourceText)] + AllChildren(ts, results)
  }

  /** Skipping a transform on the heuristic removes nothing. */
  lemma {:induction false} HeuristicLosesNothing(t: Transform, r: TransformedText, n: nat)
    requires !HeuristicMatches(t, r.text) && n <= |t.rules|
    ensures RuleChildren(t, r, n) == []
  {
    if n > 0 {
      HeuristicLosesNothing(t, r, n - 1);
    }
  }

  // ---------------------------------------------------------------- where a child comes from

  lemma {:induction false} RuleChildAt(t: Transform, r: TransformedText, n: nat, c: nat) returns (j: nat)
    requires n <= |t.rules| && c < |RuleChildren(t, r, n)|
    ensures j < n && Extends(t, j, r) && RuleChildren(t, r, n)[c] == Extension(t, j, r)
    ensures c == |RuleChildren(t, r, j)|
  {
    if c < |RuleChildren(t, r, n - 1)| {
      j := RuleChildAt(t, r, n - 1, c);
    } else {
      j := n - 1;
    }
  }

  lemma {:induction false} RuleChildrenGrow(t: Transform, r: TransformedText, i: nat, j: nat)
    requires i <= j <= |t.rules|
    ensures RuleChildren(t, r, i) <= RuleChildren(t, r, j)
  {
    if i < j {
      RuleChildrenGrow(t, r, i, j - 1);
    }
  }

  /** Child `c` of `r` is made by one rule of one transform. */
  lemma {:induction false} ChildAt(ts: seq<Transform>, r: TransformedText, c: nat) returns (a: nat, j: nat)
    requires c < |Children(ts, r)|
    ensures a < |ts| && j < |ts[a].rules| && Extends(ts[a], j, r)
    ensures Children(ts, r)[c] == Extension(ts[a], j, r)
    ensures c == |Children(ts[..a], r)| + |RuleChildren(ts[a], r, j)|
  {
    var n := |ts| - 1;
    var before := Children(ts[..n], r);
    if c < |before| {
      a, j := ChildAt(ts[..n], r, c);
      assert ts[..n][..a] == ts[..a] && ts[..n][a] == ts[a];
    } else {
      a := n;
      j := RuleChildAt(ts[n], r, |ts[n].rules|, c - |before|);
    }
  }

  /** A rule that extends `r` makes one of its children. */
  lemma {:induction false} ExtensionIsChild(ts: seq<Transform>, r: TransformedText, a: nat, j: nat) returns (c: nat)
    requires a < |ts| && j < |ts[a].rules| && Extends(ts[a], j, r)
    ensures c < |Children(ts, r)| && Children(ts, r)[c] == Extension(ts[a], j, r)
  {
    var n := |ts| - 1;
    if a < n {
      c := ExtensionIsChild(ts[..n], r, a, j);
    } else {
      RuleChildrenGrow(ts[n], r, j + 1, |ts[n].rules|);
      var k := |RuleChildren(ts[n], r, j)|;
      assert RuleChildren(ts[n], r, j + 1)[k] == Extension(ts[a], j, r);
      c := |Children(ts[..n], r)| + k;
    }
  }

  /** Result `q` of the search, the root aside, is child `c` of the earlier result `k`. */
  lemma {:induction false} ParentOf(ts: seq<Transform>, rs: seq<TransformedText>, q: nat) returns (k: nat, c: nat)
    requires q < |AllChildren(ts, rs)|
    ensures k < |rs| && c < |Children(ts, rs[k])| && AllChildren(ts, rs)[q] == Children(ts, rs[k])[c]
    ensures q == |AllChildren(ts, rs[..k])| + c
  {
    var n := |rs| - 1;
    var before := AllChildren(ts, rs[..n]);
    if q < |before| {
      k, c := ParentOf(ts, rs[..n], q);
      assert rs[..n][..k] == rs[..k] && rs[..n][k] == rs[k];
    } else {
      k, c := n, q - |before|;
    }
  }

  lemma {:induction false} ChildIsResult(ts: seq<Transform>, rs: seq<TransformedText>, k: nat, c: nat) returns (q: nat)
    requires k < |rs| && c < |Children(ts, rs[k])|
    ensures q < |AllChildren(ts, rs)| && AllChildren(ts, rs)[q] == Children(ts, rs[k])[c]
  {
    hide Children;
    var n := |rs| - 1;
    if k < n {
      q := ChildIsResult(ts, rs[..n], k, c);
    } else {
      q := |AllChildren(ts, rs[..n])| + c;
    }
  }

  // ---------------------------------------------------------------- derivation chains

  ghost predicate DistinctIds(ts: seq<Transform>) {
    forall a, b :: 0 <= a < b < |ts| ==> ts[a].id != ts[b].id
  }

  /** The rule that a frame names. */
  ghost function RuleFor(ts: seq<Transform>, f: Frame): Option<Rule> {
    if a :| 0 <= a < |ts| && ts[a].id == f.transform && f.ruleIndex < |ts[a].rules|
    then Some(ts[a].rules[f.ruleIndex]) else None
  }

  lemma RuleForAt(ts: seq<Transform>, a: nat, j: nat, text: string)
    requires DistinctIds(ts) && a < |ts| && j < |ts[a].rules|
    ensures RuleFor(ts, Frame(ts[a].id, j, text)) == Some(ts[a].rules[j])
  {
  }

  /** Taking the steps of a trace again, oldest first: the text and conditions they lead to. */
  ghost function Replay(ts: seq<Transform>, sourceText: string, trace: Trace): Option<(string, Flags)> {
    if trace == [] then Some((sourceText, 0))
    else
      match Replay(ts, sourceText, trace[1..])
      case None => None
      case Some((text, conditions)) =>
        match RuleFor(ts, trace[0])
        case None => None
        case Some(rule) =>
          if trace[0].text == text && ConditionsMatch(conditions, rule.conditionsIn) && rule.isInflected(text)
          then Some((rule.deinflect(text), rule.conditionsOut)) else None
  }

  ghost predicate NoRepeat(trace: Trace) {
    forall i, j :: 0 <= i < j < |trace| ==> trace[i] != trace[j]
  }

  /** A chain of steps that a rule allows, never the same step twice. */
  ghost predicate IsChain(ts: seq<Transform>, sourceText: string, trace: Trace) {
    NoRepeat(trace) && Replay(ts, sourceText, trace).Some?
  }

  ghost predicate IsChainTo(ts: seq<Transform>, sourceText: string, r: TransformedText) {
    NoRepeat(r.trace) && Replay(ts, sourceText, r.trace) == Some((r.text, r.conditions))
  }

  lemma ExtensionIsChain(ts: seq<Transform>, sourceText: string, r: TransformedText, a: nat, j: nat)
    requires DistinctIds(ts) && a < |ts| && j < |ts[a].rules|
    requires IsChainTo(ts, sourceText, r) && Extends(ts[a], j, r)
    ensures IsChainTo(ts, sourceText, Extension(ts[a], j, r))
  {
    var f := Frame(ts[a].id, j, r.text);
    RuleForAt(ts, a, j, r.text);
    assert ([f] + r.trace)[1..] == r.trace;
  }

  /** Every result but the root extends the trace of another one. */
  lemma Parent(ts: seq<Transform>, sourceText: string, results: seq<TransformedText>, p: nat)
      returns (k: nat, a: nat, j: nat)
    requires IsSearch(ts, sourceText, results) && 0 < p < |results|
    ensures k < |results| && a < |ts| && j < |ts[a].rules| && Extends(ts[a], j, results[k])
    ensures results[p] == Extension(ts[a], j, results[k])
    ensures p - 1
         == |AllChildren(ts, results[..k])| + |Children(ts[..a], results[k])| + |RuleChildren(ts[a], results[k], j)|
  {
    var c;
    k, c := ParentOf(ts, results, p - 1);
    a, j := ChildAt(ts, results[k], c);
  }

  /** Soundness: every result is a chain, and replaying its trace gives its text and conditions. */
  lemma {:induction false} ResultIsChain(ts: seq<Transform>, sourceText: string, results: seq<TransformedText>, p: nat)
    requires DistinctIds(ts) && IsSearch(ts, sourceText, results) && p < |results|
    ensures IsChainTo(ts, sourceText, results[p])
    decreases |results[p].trace|
  {
    if p > 0 {
      var k, a, j := Parent(ts, sourceText, results, p);
      ResultIsChain(ts, sourceText, results, k);
      ExtensionIsChain(ts, sourceText, results[k], a, j);
    }
  }

  /** Completeness: every chain is the trace of some result. */
  lemma {:induction false} ChainIsResult(ts: seq<Transform>, sourceText: string,
      results: seq<TransformedText>, trace: Trace)
      returns (p: nat)
    requires DistinctIds(ts) && IsSearch(ts, sourceText, results) && IsChain(ts, sourceText, trace)
    ensures p < |results| && results[p].trace == trace
  {
    if trace == [] {
      p := 0;
    } else {
      var f, rest := trace[0], trace[1..];
      forall i, j | 0 <= i < j < |rest| ensures rest[i] != rest[j] {
        assert trace[i + 1] != trace[j + 1];
      }
      var k := ChainIsResult(ts, sourceText, results, rest);
      ResultIsChain(ts, sourceText, results, k);
      var a: nat :| a < |ts| && ts[a].id == f.transform && f.ruleIndex < |ts[a].rules|;
      RuleForAt(ts, a, f.ruleIndex, f.text);
      assert trace == [f] + rest && f !in rest;
      var c := ExtensionIsChild(ts, results[k], a, f.ruleIndex);
      var q := ChildIsResult(ts, results, k, c);
      p := q + 1;
    }
  }

  /** Each chain is found once. */
  lemma {:induction false} ResultsAreDistinct(ts: seq<Transform>, sourceText: string,
      results: seq<TransformedText>, p: nat, q: nat)
    requires DistinctIds(ts) && IsSearch(ts, sourceText, results) && p < |results| && q < |results|
    requires results[p].trace == results[q].trace
    ensures p == q
    decreases |results[p].trace|
  {
    if p > 0 && q > 0 {
      var k, a, j := Parent(ts, sourceText, results, p);
      var l, b, i := Parent(ts, sourceText, results, q);
      assert results[p].trace[1..] == results[k].trace && results[q].trace[1..] == results[l].trace;
      assert results[p].trace[0] == results[q].trace[0];
      ResultsAreDistinct(ts, sourceText, results, k, l);
    } else {
      if p > 0 { var k, a, j := Parent(ts, sourceText, results, p); }
      if q > 0 { var k, a, j := Parent(ts, sourceText, results, q); }
    }
  }

  lemma {:induction false} AllChildrenGrow(ts: seq<Transform>, rs: seq<TransformedText>, i: nat, j: nat)
    requires i < j <= |rs|
    ensures |AllChildren(ts, rs[..i])| + |Children(ts, rs[i])| <= |AllChildren(ts, rs[..j])|
  {
    assert rs[..j][..j - 1] == rs[..j - 1];
    if i < j - 1 {
      AllChildrenGrow(ts, rs, i, j - 1);
    }
  }

  lemma {:induction false} ChildrenGrow(ts: seq<Transform>, r: TransformedText, a: nat, b: nat)
    requires a < b <= |ts|
    ensures |Children(ts[..a], r)| + |RuleChildren(ts[a], r, |ts[a].rules|)| <= |Children(ts[..b], r)|
  {
    assert ts[..b][..b - 1] == ts[..b - 1];
    if a < b - 1 {
      ChildrenGrow(ts, r, a, b - 1);
    }
  }

  lemma RuleChildrenPast(t: Transform, r: TransformedText, j: nat)
    requires j < |t.rules| && Extends(t, j, r)
    ensures |RuleChildren(t, r, j)| < |RuleChildren(t, r, |t.rules|)|
  {
    RuleChildrenGrow(t, r, j + 1, |t.rules|);
    assert |RuleChildren(t, r, j + 1)| == |RuleChildren(t, r, j)| + 1;
  }

  /** Step `(a, j)` comes before step `(b, i)` in the rule tables. */
  predicate RuleBefore(a: nat, j: nat, b: nat, i: nat) { a < b || (a == b && j < i) }

  lemma ChildOrder(ts: seq<Transform>, r: TransformedText, a: nat, j: nat, b: nat, i: nat)
    requires a < |ts| && j < |ts[a].rules| && Extends(ts[a], j, r)
    requires b < |ts| && i < |ts[b].rules| && Extends(ts[b], i, r)
    requires |Children(ts[..a], r)| + |RuleChildren(ts[a], r, j)| < |Children(ts[..b], r)| + |RuleChildren(ts[b], r, i)|
    ensures RuleBefore(a, j, b, i)
  {
    hide Extension, Extends, Children, RuleChildren;
    if b < a {
      ChildrenGrow(ts, r, b, a);
      RuleChildrenPast(ts[b], r, i);
    } else if a == b && i <= j {
      RuleChildrenGrow(ts[a], r, i, j);
    }
  }

  /** The order of the results: by parent, and the children of one parent by rule. */
  lemma ResultOrder(ts: seq<Transform>, sourceText: string, results: seq<TransformedText>, p: nat, q: nat)
      returns (k: nat, a: nat, j: nat, l: nat, b: nat, i: nat)
    requires IsSearch(ts, sourceText, results) && 0 < p < q < |results|
    ensures k < |results| && a < |ts| && j < |ts[a].rules| && results[p] == Extension(ts[a], j, results[k])
    ensures l < |results| && b < |ts| && i < |ts[b].rules| && results[q] == Extension(ts[b], i, results[l])
    ensures k < l || (k == l && RuleBefore(a, j, b, i))
  {
    hide Children, RuleChildren, AllChildren, Extends, Extension, IsSearch;
    k, a, j := Parent(ts, sourceText, results, p);
    l, b, i := Parent(ts, sourceText, results, q);
    ChildCount(ts, results[k], a, j);
    ChildCount(ts, results[l], b, i);
    if l < k {
      AllChildrenGrow(ts, results, l, k);
    } else if k == l {
      ChildOrder(ts, results[k], a, j, b, i);
    }
  }

  lemma ChildCount(ts: seq<Transform>, r: TransformedText, a: nat, j: nat)
    requires a < |ts| && j < |ts[a].rules| && Extends(ts[a], j, r)
    ensures |Children(ts[..a], r)| + |RuleChildren(ts[a], r, j)| < |Children(ts, r)|
  {
    hide Extension, Extends, Children, RuleChildren;
    RuleChildrenPast(ts[a], r, j);
    ChildrenGrow(ts, r, a, |ts|);
    assert ts[..|ts|] == ts;
  }

  /** Breadth first: no result is shorter than one before it. */
  lemma {:induction false} ShortestFirst(ts: seq<Transform>, sourceText: string,
      results: seq<TransformedText>, p: nat, q: nat)
    requires IsSearch(ts, sourceText, results) && p < q < |results|
    ensures |results[p].trace| <= |results[q].trace|
    decreases |results[q].trace|
  {
    hide AllChildren;
    if p > 0 {
      var k, a, j, l, b, i := ResultOrder(ts, sourceText, results, p, q);
      if k < l {
        ShortestFirst(ts, sourceText, results, k, l);
      }
    }
  }

  // ---------------------------------------------------------------- which rules apply

  /** Some flag is in both words. */
  ghost predicate ShareFlag(f: Flags, g: Flags) { exists k :: 0 <= k < 32 && Has(f, k) && Has(g, k) }

  lemma MatchMeansFlag(f: Flags, g: Flags)
    ensures ConditionsMatch(f, g) <==> f == 0 || ShareFlag(f, g)
  {
    hide Has, And;
    if And(f, g) != 0 {
      var k := SomeFlag(And(f, g));
      HasAnd(f, g, k);
    }
    if k :| 0 <= k < 32 && Has(f, k) && Has(g, k) {
      HasAnd(f, g, k);
      HasNothing(k);
    }
  }

  lemma ExtensionIsResult(ts: seq<Transform>, sourceText: string, results: seq<TransformedText>,
      p: nat, a: nat, j: nat)
      returns (q: nat)
    requires IsSearch(ts, sourceText, results) && p < |results| && a < |ts| && j < |ts[a].rules|
    requires Extends(ts[a], j, results[p])
    ensures q < |results| && results[q] == Extension(ts[a], j, results[p])
  {
    var c := ExtensionIsChild(ts, results[p], a, j);
    q := ChildIsResult(ts, results, p, c);
    q := q + 1;
  }

  /** A step that a result does not have in its trace is taken exactly when its rule matches the text and,
      unless the result has no conditions, shares one with it. */
  lemma AppliesExactly(ts: seq<Transform>, sourceText: string, results: seq<TransformedText>, p: nat, a: nat, j: nat)
    requires DistinctIds(ts) && IsSearch(ts, sourceText, results) && p < |results| && a < |ts| && j < |ts[a].rules|
    requires Frame(ts[a].id, j, results[p].text) !in results[p].trace
    ensures TransformedText(ts[a].rules[j].deinflect(results[p].text), ts[a].rules[j].conditionsOut,
                            [Frame(ts[a].id, j, results[p].text)] + results[p].trace) in results
       <==> && ts[a].rules[j].isInflected(results[p].text)
            && (results[p].conditions == 0 || ShareFlag(results[p].conditions, ts[a].rules[j].conditionsIn))
  {
    var r, child := results[p], Extension(ts[a], j, results[p]);
    MatchMeansFlag(r.conditions, ts[a].rules[j].conditionsIn);
    hide ShareFlag, ConditionsMatch, IsSearch;
    if Extends(ts[a], j, r) {
      var q := ExtensionIsResult(ts, sourceText, results, p, a, j);
    }
    if child in results {
      var q: nat :| q < |results| && results[q] == child;
      RootIsFirst(ts, sourceText, results);
      var k, b, i := Parent(ts, sourceText, results, q);
      assert child.trace[0] == Frame(ts[b].id, i, results[k].text) && child.trace[1..] == r.trace;
      assert results[q].trace[1..] == results[k].trace;
      ResultsAreDistinct(ts, sourceText, results, k, p);
    }
  }

  lemma RootIsFirst(ts: seq<Transform>, sourceText: string, results: seq<TransformedText>)
    requires IsSearch(ts, sourceText, results)
    ensures |results| > 0 && results[0] == Root(sourceText)
  {
  }

  /** Every rule that matches the source text is applied to it, whatever it asks for. */
  lemma EveryRuleStarts(ts: seq<Transform>, sourceText: string, results: seq<TransformedText>, a: nat, j: nat)
    requires IsSearch(ts, sourceText, results) && a < |ts| && j < |ts[a].rules|
    requires ts[a].rules[j].isInflected(sourceText)
    ensures TransformedText(ts[a].rules[j].deinflect(sourceText), ts[a].rules[j].conditionsOut,
                            [Frame(ts[a].id, j, sourceText)]) in results
  {
    MatchMeansFlag(0, ts[a].rules[j].conditionsIn);
    RootIsFirst(ts, sourceText, results);
    var q := ExtensionIsResult(ts, sourceText, results, 0, a, j);
    assert [Frame(ts[a].id, j, sourceText)] + [] == [Frame(ts[a].id, j, sourceText)];
  }

  // ---------------------------------------------------------------- termination

  /** A finite set of texts with conditions that no rule leads out of. */
  ghost predicate IsClosed(ts: seq<Transform>, universe: set<(string, Flags)>) {
    forall x, a, j | x in universe && 0 <= a < |ts| && 0 <= j < |ts[a].rules| :: StaysIn(ts[a].rules[j], x, universe)
  }

  ghost predicate StaysIn(rule: Rule, x: (string, Flags), universe: set<(string, Flags)>) {
    ConditionsMatch(x.1, rule.conditionsIn) && rule.isInflected(x.0) ==>
      (rule.deinflect(x.0), rule.conditionsOut) in universe
  }

  ghost function Texts(universe: set<(string, Flags)>): set<string> { set x | x in universe :: x.0 }

  /** Every step that can be taken inside the universe. */
  ghost function Frames(ts: seq<Transform>, universe: set<(string, Flags)>): set<Frame> {
    set a, j, x | 0 <= a < |ts| && 0 <= j < |ts[a].rules| && x in universe :: Frame(ts[a].id, j, x.0)
  }

  ghost predicate IsInside(ts: seq<Transform>, universe: set<(string, Flags)>, r: TransformedText) {
    && (r.text, r.conditions) in universe
    && NoRepeat(r.trace)
    && forall i :: 0 <= i < |r.trace| ==> r.trace[i] in Frames(ts, universe)
  }

  lemma {:induction false} NoRepeatFits(trace: Trace, frames: set<Frame>)
    requires NoRepeat(trace) && forall i :: 0 <= i < |trace| ==> trace[i] in frames
    ensures |trace| <= |frames|
    decreases trace
  {
    if trace != [] {
      var f, rest := trace[0], trace[1..];
      forall i, j | 0 <= i < j < |rest| ensures rest[i] != rest[j] {
        assert trace[i + 1] != trace[j + 1];
      }
      forall i | 0 <= i < |rest| ensures rest[i] in frames - {f} {
        assert trace[i + 1] in frames && trace[0] != trace[i + 1];
      }
      NoRepeatFits(rest, frames - {f});
    }
  }

  lemma ExtensionIsInside(ts: seq<Transform>, universe: set<(string, Flags)>, r: TransformedText, a: nat, j: nat)
    requires IsClosed(ts, universe) && IsInside(ts, universe, r)
    requires a < |ts| && j < |ts[a].rules| && Extends(ts[a], j, r)
    ensures IsInside(ts, universe, Extension(ts[a], j, r))
    ensures |r.trace| < |Frames(ts, universe)|
  {
    var r' := Extension(ts[a], j, r);
    var x := (r.text, r.conditions);
    assert x in universe;
    assert Frame(ts[a].id, j, x.0) in Frames(ts, universe);
    NoRepeatFits(r'.trace, Frames(ts, universe));
  }

  function RuleCount(ts: seq<Transform>): nat {
    if ts == [] then 0 else RuleCount(ts[..|ts| - 1]) + |ts[|ts| - 1].rules|
  }

  lemma {:induction false} RuleChildrenCount(t: Transform, r: TransformedText, n: nat)
    requires n <= |t.rules|
    ensures |RuleChildren(t, r, n)| <= n
  {
    if n > 0 {
      RuleChildrenCount(t, r, n - 1);
    }
  }

  lemma {:induction false} ChildrenCount(ts: seq<Transform>, r: TransformedText)
    ensures |Children(ts, r)| <= RuleCount(ts)
  {
    if ts != [] {
      ChildrenCount(ts[..|ts| - 1], r);
      RuleChildrenCount(ts[|ts| - 1], r, |ts[|ts| - 1].rules|);
    }
  }

  /** How large a subtree can still grow below a result with `room` unused frames. */
  function Weight(rules: nat, room: nat): nat {
    if room == 0 then 1 else 1 + rules * Weight(rules, room - 1)
  }

  ghost function WeightOf(rules: nat, frames: nat, r: TransformedText): nat {
    if |r.trace| <= frames then Weight(rules, frames - |r.trace|) else 0
  }

  /** The weight of the results from index `i` on. */
  ghost function WeightFrom(rules: nat, frames: nat, rs: seq<TransformedText>, i: nat): nat
    requires i <= |rs|
    decreases |rs| - i
  {
    if i == |rs| then 0 else WeightOf(rules, frames, rs[i]) + WeightFrom(rules, frames, rs, i + 1)
  }

  lemma {:induction false} WeightOfAppend(rules: nat, frames: nat, rs: seq<TransformedText>,
      cs: seq<TransformedText>, i: nat)
    requires i <= |rs|
    ensures WeightFrom(rules, frames, rs + cs, i)
        == WeightFrom(rules, frames, rs, i) + WeightFrom(rules, frames, rs + cs, |rs|)
    decreases |rs| - i
  {
    if i < |rs| {
      WeightOfAppend(rules, frames, rs, cs, i + 1);
    }
  }

  lemma {:induction false} WeightOfChildren(rules: nat, frames: nat, rs: seq<TransformedText>, i: nat, w: nat)
    requires i <= |rs| && forall k :: i <= k < |rs| ==> WeightOf(rules, frames, rs[k]) <= w
    ensures WeightFrom(rules, frames, rs, i) <= (|rs| - i) * w
    decreases |rs| - i
  {
    if i < |rs| {
      WeightOfChildren(rules, frames, rs, i + 1, w);
      assert (|rs| - i) * w == w + (|rs| - (i + 1)) * w;
    }
  }

  lemma ChildIsInside(ts: seq<Transform>, universe: set<(string, Flags)>, r: TransformedText, c: nat)
    requires IsClosed(ts, universe) && IsInside(ts, universe, r) && c < |Children(ts, r)|
    ensures IsInside(ts, universe, Children(ts, r)[c])
    ensures |Children(ts, r)[c].trace| == |r.trace| + 1 <= |Frames(ts, universe)|
  {
    var a, j := ChildAt(ts, r, c);
    ExtensionIsInside(ts, universe, r, a, j);
  }

  /** Expanding a result replaces its weight by less. */
  lemma ExpandingLosesWeight(ts: seq<Transform>, universe: set<(string, Flags)>, rs: seq<TransformedText>, i: nat)
    requires IsClosed(ts, universe) && i < |rs| && IsInside(ts, universe, rs[i])
    ensures var rules, frames := RuleCount(ts), |Frames(ts, universe)|;
            WeightFrom(rules, frames, rs + Children(ts, rs[i]), i + 1) < WeightFrom(rules, frames, rs, i)
  {
    hide Children, IsInside, IsClosed, Frames, RuleCount;
    var rules, frames := RuleCount(ts), |Frames(ts, universe)|;
    var r := rs[i];
    var cs := Children(ts, r);
    InsideFits(ts, universe, r);
    WeightOfAppend(rules, frames, rs, cs, i + 1);
    ChildrenCount(ts, r);
    if cs == [] {
      assert rs + cs == rs;
    } else {
      ChildIsInside(ts, universe, r, 0);
      var w := Weight(rules, frames - |r.trace| - 1);
      var all := rs + cs;
      forall k | |rs| <= k < |all| ensures WeightOf(rules, frames, all[k]) <= w {
        ChildIsInside(ts, universe, r, k - |rs|);
        assert all[k] == cs[k - |rs|];
      }
      WeightOfChildren(rules, frames, all, |rs|, w);
      Monotone(|cs|, rules, w);
    }
  }

  lemma InsideFits(ts: seq<Transform>, universe: set<(string, Flags)>, r: TransformedText)
    requires IsInside(ts, universe, r)
    ensures |r.trace| <= |Frames(ts, universe)|
  {
    NoRepeatFits(r.trace, Frames(ts, universe));
  }

  lemma Monotone(x: nat, y: nat, w: nat)
    requires x <= y
    ensures x * w <= y * w
  {
  }

  // ---------------------------------------------------------------- the transformer

  /** A rule as a descriptor gives it, with condition names instead of flags. */
  datatype RuleSpec = RuleSpec(isInflected: string -> bool, deinflect: string -> string,
                               conditionsIn: seq<string>, conditionsOut: seq<string>)

  datatype TransformSpec = TransformSpec(id: string, name: string, rules: seq<RuleSpec>)

  datatype Descriptor = Descriptor(conditions: seq<Entry>, transforms: seq<TransformSpec>)

  ghost predicate AllIn(types: seq<string>, names: set<string>) { forall t :: t in types ==> t in names }

  ghost predicate RuleIsNamed(rule: RuleSpec, names: set<string>) {
    AllIn(rule.conditionsIn, names) && AllIn(rule.conditionsOut, names)
  }

  ghost predicate IsNamed(t: TransformSpec, names: set<string>) {
    forall j :: 0 <= j < |t.rules| ==> RuleIsNamed(t.rules[j], names)
  }

  /** `rule` is `spec` with its condition names looked up in `m`. */
  ghost predicate IsCompiledRule(m: FlagsMap, spec: RuleSpec, rule: Rule) {
    && RuleIsNamed(spec, m.Keys)
    && rule == Rule(spec.isInflected, spec.deinflect, UnionOf(m, spec.conditionsIn), UnionOf(m, spec.conditionsOut))
  }

  ghost predicate AreCompiledRules(m: FlagsMap, specs: seq<RuleSpec>, rules: seq<Rule>) {
    |rules| == |specs| && forall j :: 0 <= j < |specs| ==> IsCompiledRule(m, specs[j], rules[j])
  }

  ghost predicate IsCompiled(m: FlagsMap, spec: TransformSpec, t: Transform) {
    t.id == spec.id && t.name == spec.name && AreCompiledRules(m, spec.rules, t.rules)
  }

  ghost predicate AreCompiled(m: FlagsMap, specs: seq<TransformSpec>, ts: seq<Transform>) {
    |ts| == |specs| && forall a :: 0 <= a < |specs| ==> IsCompiled(m, specs[a], ts[a])
  }

  /** When a descriptor is accepted. */
  ghost predicate IsAcceptable(d: Descriptor, nextFlagIndex: nat) {
    && AllDefined(d.conditions) && Acyclic(d.conditions) && nextFlagIndex + LeafCount(d.conditions) <= 32
    && forall a :: 0 <= a < |d.transforms| ==> IsNamed(d.transforms[a], Names(d.conditions))
  }

  /** `_extendTrace` */
  function ExtendTrace(trace: Trace, newFrame: Frame): Trace { [newFrame] + trace }

  lemma RootIsInside(ts: seq<Transform>, universe: set<(string, Flags)>, sourceText: string)
    requires (sourceText, 0) in universe
    ensures IsInside(ts, universe, Root(sourceText))
  {
  }

  lemma NoChildren(ts: seq<Transform>, r: TransformedText)
    ensures Children(ts[..0], r) == []
  {
  }

  lemma NoRuleChildren(t: Transform, r: TransformedText)
    ensures RuleChildren(t, r, 0) == []
  {
  }

  lemma ChildrenSnoc(ts: seq<Transform>, a: nat, r: TransformedText)
    requires a < |ts|
    ensures Children(ts[..a + 1], r) == Children(ts[..a], r) + RuleChildren(ts[a], r, |ts[a].rules|)
  {
    assert ts[..a + 1][..a] == ts[..a];
  }

  lemma RuleChildrenSnoc(t: Transform, r: TransformedText, j: nat)
    requires j < |t.rules|
    ensures RuleChildren(t, r, j + 1)
         == RuleChildren(t, r, j)
            + if RuleMatches(t.rules[j], r) && Frame(t.id, j, r.text) !in r.trace then [Extension(t, j, r)] else []
    ensures Extension(t, j, r) == TransformedText(t.rules[j].deinflect(r.text), t.rules[j].conditionsOut,
                                                  ExtendTrace(r.trace, Frame(t.id, j, r.text)))
  {
  }

  class Transformer {
    var nextFlagIndex: nat
    var transforms: seq<Transform>
    var conditionTypeFlags: FlagsMap
    var partOfSpeechFlags: FlagsMap

    ghost predicate Valid()
      reads this
    {
      nextFlagIndex <= 32
    }

    constructor ()
      ensures Valid() && nextFlagIndex == 0 && transforms == [] && conditionTypeFlags == map[]
          && partOfSpeechFlags == map[]
    {
      nextFlagIndex := 0;
      transforms := [];
      conditionTypeFlags := map[];
      partOfSpeechFlags := map[];
    }

    method Clear()
      modifies this
      ensures Valid() && nextFlagIndex == 0 && transforms == [] && conditionTypeFlags == map[]
          && partOfSpeechFlags == map[]
    {
      nextFlagIndex := 0;
      transforms := [];
      conditionTypeFlags := map[];
      partOfSpeechFlags := map[];
    }

    /** The rules of one transform, or the message of the error that `addDescriptor` throws. */
    static method CompileRules(m: FlagsMap, rules: seq<RuleSpec>) returns (r: Result<seq<Rule>>)
      ensures r.Success? <==> forall j :: 0 <= j < |rules| ==> RuleIsNamed(rules[j], m.Keys)
      ensures r.Success? ==> AreCompiledRules(m, rules, r.value)
    {
      var rules2: seq<Rule> := [];
      for j := 0 to |rules|
        invariant AreCompiledRules(m, rules[..j], rules2)
      {
        var rule := rules[j];
        var conditionFlagsIn := GetConditionFlagsStrict(m, rule.conditionsIn);
        if conditionFlagsIn.None? {
          assert !RuleIsNamed(rules[j], m.Keys);
          return Failure("Invalid conditionsIn");
        }
        var conditionFlagsOut := GetConditionFlagsStrict(m, rule.conditionsOut);
        if conditionFlagsOut.None? {
          assert !RuleIsNamed(rules[j], m.Keys);
          return Failure("Invalid conditionsOut");
        }
        rules2 := rules2 + [Rule(rule.isInflected, rule.deinflect, conditionFlagsIn.value, conditionFlagsOut.value)];
        assert IsCompiledRule(m, rules[j], rules2[j]);
      }
      assert rules[..|rules|] == rules;
      assert forall j :: 0 <= j < |rules| ==> IsCompiledRule(m, rules[j], rules2[j]);
      return Success(rules2);
    }

    /** `addDescriptor`: all or nothing. */
    method AddDescriptor(d: Descriptor) returns (r: Result<()>, ghost m: FlagsMap, ghost order: seq<int>)
      requires Valid() && DistinctNames(d.conditions)
      modifies this
      ensures Valid()
      ensures r.Success? <==> IsAcceptable(d, old(nextFlagIndex))
      ensures r.Failure? ==> unchanged(this)
      ensures r.Success? ==>
        && IsResolved(d.conditions, old(nextFlagIndex), m, order) && IsFull(d.conditions, order)
        && nextFlagIndex == old(nextFlagIndex) + LeafCount(d.conditions)
        && |old(transforms)| <= |transforms| && transforms[..|old(transforms)|] == old(transforms)
        && AreCompiled(m, d.transforms, transforms[|old(transforms)|..])
        && conditionTypeFlags == old(conditionTypeFlags) + m
        && partOfSpeechFlags == old(partOfSpeechFlags) + DictionaryForms(d.conditions, m)
    {
      hide IsResolved, IsFull, AllDefined, Acyclic, LeafCount, DistinctNames, AreCompiledRules;
      var resolved;
      resolved, order := GetConditionFlagsMap(d.conditions, nextFlagIndex);
      m := map[];
      if resolved.Failure? {
        return Failure(resolved.message), m, order;
      }
      var (conditionFlagsMap, nextFlagIndex2) := resolved.value;
      m := conditionFlagsMap;
      var transforms2: seq<Transform> := [];
      for a := 0 to |d.transforms|
        invariant unchanged(this)
        invariant AreCompiled(m, d.transforms[..a], transforms2)
        invariant forall b :: 0 <= b < a ==> IsNamed(d.transforms[b], m.Keys)
      {
        var t := d.transforms[a];
        var rules2 := CompileRules(conditionFlagsMap, t.rules);
        if rules2.Failure? {
          assert !IsNamed(d.transforms[a], Names(d.conditions));
          return Failure(rules2.message), m, order;
        }
        transforms2 := transforms2 + [Transform(t.id, t.name, rules2.value)];
      }
      assert d.transforms[..|d.transforms|] == d.transforms;
      nextFlagIndex := nextFlagIndex2;
      transforms := transforms + transforms2;
      RegisterConditions(d.conditions, conditionFlagsMap);
      r := Success(());
    }

    /** `transform`: the worklist grows while it is read. */
    method TransformText(sourceText: string, ghost universe: set<(string, Flags)>)
        returns (results: seq<TransformedText>)
      requires IsClosed(transforms, universe) && (sourceText, 0) in universe
      ensures IsSearch(transforms, sourceText, results)
      ensures forall p :: 0 <= p < |results| ==> IsInside(transforms, universe, results[p])
    {
      hide IsInside, IsClosed, Frames, Children, RuleChildren, Extends, Extension, WeightFrom, RuleCount;
      results := [Root(sourceText)];
      RootIsInside(transforms, universe, sourceText);
      ghost var rules, frames := RuleCount(transforms), |Frames(transforms, universe)|;
      var i := 0;
      assert results[..0] == [];
      while i < |results|
        invariant 0 <= i <= |results| && |results| > 0
        invariant results == [Root(sourceText)] + AllChildren(transforms, results[..i])
        invariant forall p :: 0 <= p < |results| ==> IsInside(transforms, universe, results[p])
        decreases WeightFrom(rules, frames, results, i)
      {
        ghost var before := results;
        var current := results[i];
        ExpandingLosesWeight(transforms, universe, results, i);
        ghost var children: seq<TransformedText> := [];
        NoChildren(transforms, current);
        for a := 0 to |transforms|
          invariant children == Children(transforms[..a], current)
          invariant results == before + children
        {
          var t := transforms[a];
          ChildrenSnoc(transforms, a, current);
          if !HeuristicMatches(t, current.text) {
            HeuristicLosesNothing(t, current, |t.rules|);
            assert children + [] == children;
            continue;
          }
          ghost var earlier := children;
          NoRuleChildren(t, current);
          assert earlier + [] == earlier;
          for j := 0 to |t.rules|
            invariant children == earlier + RuleChildren(t, current, j)
            invariant results == before + children
          {
            var rule := t.rules[j];
            RuleChildrenSnoc(t, current, j);
            if !ConditionsMatch(current.conditions, rule.conditionsIn) {
              continue;
            }
            if !rule.isInflected(current.text) {
              continue;
            }
            var isCycle := Frame(t.id, j, current.text) in current.trace;
            if isCycle {
              continue;
            }
            var child := TransformedText(rule.deinflect(current.text), rule.conditionsOut,
                                         ExtendTrace(current.trace, Frame(t.id, j, current.text)));
            results := results + [child];
            children := children + [child];
          }
        }
        assert transforms[..|transforms|] == transforms;
        forall p | 0 <= p < |results| ensures IsInside(transforms, universe, results[p]) {
          if p >= |before| {
            ChildIsInside(transforms, universe, current, p - |before|);
          }
        }
        assert before[..i + 1] == results[..i + 1] && results[..i + 1][..i] == before[..i];
        i := i + 1;
      }
      assert results[..i] == results;
    }

    /** The last loop of `addDescriptor`. */
    method RegisterConditions(conditions: seq<Entry>, flagsMap: FlagsMap)
      requires flagsMap.Keys == Names(conditions)
      modifies this`conditionTypeFlags, this`partOfSpeechFlags
      ensures conditionTypeFlags == old(conditionTypeFlags) + flagsMap
      ensures partOfSpeechFlags == old(partOfSpeechFlags) + DictionaryForms(conditions, flagsMap)
      ensures forall t :: t in partOfSpeechFlags <==>
                t in old(partOfSpeechFlags) || exists i :: IsDictionaryFormAt(conditions, i, t)
    {
      DictionaryFormsAre(conditions, flagsMap);
      hide Names, DictionaryNames, Restrict;
      NoNames(conditions);
      RestrictNone(conditionTypeFlags, flagsMap);
      RestrictNone(partOfSpeechFlags, flagsMap);
      for i := 0 to |conditions|
        invariant conditionTypeFlags == old(conditionTypeFlags) + Restrict(flagsMap, Names(conditions[..i]))
        invariant partOfSpeechFlags == old(partOfSpeechFlags) + DictionaryForms(conditions[..i], flagsMap)
      {
        var e := conditions[i];
        NamesSnoc(conditions, i);
        var flags := flagsMap[e.name];
        RestrictMore(old(conditionTypeFlags), flagsMap, Names(conditions[..i]), e.name);
        RestrictMore(old(partOfSpeechFlags), flagsMap, DictionaryNames(conditions[..i]), e.name);
        conditionTypeFlags := conditionTypeFlags[e.name := flags];
        if e.condition.isDictionaryForm {
          partOfSpeechFlags := partOfSpeechFlags[e.name := flags];
        }
      }
      assert conditions[..|conditions|] == conditions;
      RestrictAll(flagsMap);
    }
  }

  /** Condition `i` is a dictionary form named `t`. */
  predicate IsDictionaryFormAt(conditions: seq<Entry>, i: int, t: string) {
    0 <= i < |conditions| && conditions[i].condition.isDictionaryForm && conditions[i].name == t
  }

  lemma DictionaryFormsAre(cs: seq<Entry>, m: FlagsMap)
    requires m.Keys == Names(cs)
    ensures forall t :: t in DictionaryForms(cs, m) <==> exists i :: IsDictionaryFormAt(cs, i, t)
  {
    forall t ensures t in DictionaryForms(cs, m) <==> exists i :: IsDictionaryFormAt(cs, i, t) {
      if i :| IsDictionaryFormAt(cs, i, t) {
        assert t in DictionaryNames(cs) && t in Names(cs);
      }
      if t in DictionaryForms(cs, m) {
        var i :| 0 <= i < |cs| && cs[i].condition.isDictionaryForm && cs[i].name == t;
        assert IsDictionaryFormAt(cs, i, t);
      }
    }
  }

  ghost function Restrict(m: FlagsMap, names: set<string>): FlagsMap { map t | t in m && t in names :: m[t] }

  lemma NoNames(cs: seq<Entry>)
    ensures Names(cs[..0]) == {} && DictionaryNames(cs[..0]) == {}
  {
  }

  lemma RestrictNone(base: FlagsMap, m: FlagsMap)
    ensures base + Restrict(m, {}) == base
  {
  }

  lemma RestrictAll(m: FlagsMap)
    ensures Restrict(m, m.Keys) == m
  {
  }

  lemma RestrictMore(base: FlagsMap, m: FlagsMap, names: set<string>, t: string)
    requires t in m
    ensures base + Restrict(m, names + {t}) == (base + Restrict(m, names))[t := m[t]]
  {
  }

  ghost function DictionaryNames(cs: seq<Entry>): set<string> {
    set i | 0 <= i < |cs| && cs[i].condition.isDictionaryForm :: cs[i].name
  }

  ghost function DictionaryForms(cs: seq<Entry>, m: FlagsMap): FlagsMap { Restrict(m, DictionaryNames(cs)) }

  lemma NamesSnoc(cs: seq<Entry>, i: nat)
    requires i < |cs|
    ensures Names(cs[..i + 1]) == Names(cs[..i]) + {cs[i].name}
    ensures cs[i].condition.isDictionaryForm ==> DictionaryNames(cs[..i + 1]) == DictionaryNames(cs[..i]) + {cs[i].name}
    ensures !cs[i].condition.isDictionaryForm ==> DictionaryNames(cs[..i + 1]) == DictionaryNames(cs[..i])
    ensures cs[i].name in Names(cs)
  {
    var r, r' := cs[..i], cs[..i + 1];
    assert r'[i] == cs[i];
    forall j | 0 <= j < i ensures r[j] == r'[j] {
    }
    assert forall j :: 0 <= j < |r| ==>
      r[j].name in Names(r') && (r[j].condition.isDictionaryForm ==> r[j].name in DictionaryNames(r'));
  }

  // ---------------------------------------------------------------- bounds on traces

  ghost function Image(id: string, j: nat, texts: set<string>): set<Frame> {
    set x | x in texts :: Frame(id, j, x)
  }

  lemma {:induction false} ImageIsSmall(id: string, j: nat, texts: set<string>)
    ensures |Image(id, j, texts)| <= |texts|
  {
    if texts != {} {
      var x :| x in texts;
      ImageIsSmall(id, j, texts - {x});
      assert Image(id, j, texts) == Image(id, j, texts - {x}) + {Frame(id, j, x)};
    }
  }

  ghost function FramesOf(id: string, n: nat, texts: set<string>): set<Frame> {
    set j, x | 0 <= j < n && x in texts :: Frame(id, j, x)
  }

  lemma {:induction false} FramesOfCount(id: string, n: nat, texts: set<string>)
    ensures |FramesOf(id, n, texts)| <= n * |texts|
  {
    if n == 0 {
      assert FramesOf(id, n, texts) == {};
    } else {
      FramesOfCount(id, n - 1, texts);
      ImageIsSmall(id, n - 1, texts);
      var last := Image(id, n - 1, texts);
      var others := FramesOf(id, n - 1, texts);
      assert FramesOf(id, n, texts) == others + last;
      MulSucc(n - 1, |texts|);
    }
  }

  lemma {:induction false} FramesCount(ts: seq<Transform>, universe: set<(string, Flags)>)
    ensures |Frames(ts, universe)| <= RuleCount(ts) * |Texts(universe)|
  {
    var texts := Texts(universe);
    if ts == [] {
      assert Frames(ts, universe) == {};
    } else {
      var n := |ts| - 1;
      FramesCount(ts[..n], universe);
      var last := FramesOf(ts[n].id, |ts[n].rules|, texts);
      FramesOfCount(ts[n].id, |ts[n].rules|, texts);
      SplitFrames(ts, universe);
      Distribute(RuleCount(ts[..n]), |ts[n].rules|, |texts|);
    }
  }

  lemma SplitFrames(ts: seq<Transform>, universe: set<(string, Flags)>)
    requires ts != []
    ensures var n := |ts| - 1;
            Frames(ts, universe) == Frames(ts[..n], universe) + FramesOf(ts[n].id, |ts[n].rules|, Texts(universe))
  {
    var n := |ts| - 1;
    forall f | f in Frames(ts, universe)
      ensures f in Frames(ts[..n], universe) + FramesOf(ts[n].id, |ts[n].rules|, Texts(universe))
    {
      var a, j, x :| 0 <= a < |ts| && 0 <= j < |ts[a].rules| && x in universe && f == Frame(ts[a].id, j, x.0);
      if a < n {
        assert ts[..n][a] == ts[a];
      } else {
        assert x.0 in Texts(universe);
      }
    }
    forall f | f in Frames(ts[..n], universe) ensures f in Frames(ts, universe) {
      var a, j, x :| 0 <= a < n && 0 <= j < |ts[..n][a].rules| && x in universe && f == Frame(ts[..n][a].id, j, x.0);
      assert ts[..n][a] == ts[a];
    }
  }

  lemma Distribute(x: nat, y: nat, z: nat)
    ensures (x + y) * z == x * z + y * z
  {
  }

  /** Every trace is at most rules times texts long. */
  lemma TraceIsShort(ts: seq<Transform>, universe: set<(string, Flags)>, r: TransformedText)
    requires IsInside(ts, universe, r)
    ensures |r.trace| <= RuleCount(ts) * |Texts(universe)|
  {
    InsideFits(ts, universe, r);
    FramesCount(ts, universe);
  }

  // ---------------------------------------------------------------- rules that shorten every text

  ghost predicate Shortens(ts: seq<Transform>) {
    forall a, j, text: string | 0 <= a < |ts| && 0 <= j < |ts[a].rules| && ts[a].rules[j].isInflected(text) ::
      |ts[a].rules[j].deinflect(text)| < |text|
  }

  /** With strictly shortening rules every step pays with a character of the source. */
  lemma {:induction false} ShorteningTrace(ts: seq<Transform>, sourceText: string, trace: Trace)
    requires Shortens(ts) && Replay(ts, sourceText, trace).Some?
    ensures |trace| + |Replay(ts, sourceText, trace).value.0| <= |sourceText|
    ensures forall i :: 0 <= i < |trace| ==> |trace[i].text| > |Replay(ts, sourceText, trace).value.0|
  {
    if trace != [] {
      ShorteningTrace(ts, sourceText, trace[1..]);
      var f := trace[0];
      var a :| 0 <= a < |ts| && ts[a].id == f.transform && f.ruleIndex < |ts[a].rules|
               && RuleFor(ts, f) == Some(ts[a].rules[f.ruleIndex]);
      forall i | 0 <= i < |trace| ensures |trace[i].text| > |Replay(ts, sourceText, trace).value.0| {
        if i > 0 { assert trace[i] == trace[1..][i - 1]; }
      }
    }
  }

  /** Then the cycle guard never fires: a step that matches is always new. */
  lemma GuardNeverFires(ts: seq<Transform>, sourceText: string, r: TransformedText, a: nat, j: nat)
    requires Shortens(ts) && IsChainTo(ts, sourceText, r) && a < |ts| && j < |ts[a].rules|
    ensures Extends(ts[a], j, r) <==> RuleMatches(ts[a].rules[j], r)
    ensures |r.trace| <= |sourceText|
  {
    ShorteningTrace(ts, sourceText, r.trace);
  }
}
