/** Exactly which texts assembling gives back after disassembling them. */
module HangulRoundTrip {

  import opened Hangul
  import opened Utf16
  import opened Wrappers

  /** Between two groups nothing moves: the second is a syllable, which takes its consonant with it, or
      its first unit is no vowel behind a consonant and cannot be added to the first. */
  predicate StaysApart(g: seq<CodeUnit>, h: seq<CodeUnit>)
    requires g != [] && h != []
  {
    || (|h| >= 2 && IsCho(h[0]) && IsJung(h[1]))
    || (!(IsJung(h[0]) && IsCho(g[|g| - 1])) && !IsGroup(g + [h[0]]))
  }

  /** No NUL, and every two neighbours stay apart. */
  predicate IsStable(s: seq<CodeUnit>) {
    && (forall i :: 0 <= i < |s| ==> s[i] != 0)
    && forall i :: 0 < i < |s| ==> StaysApart(Parts(s[i - 1]), Parts(s[i]))
  }

  function Again(s: seq<CodeUnit>): seq<CodeUnit>
    requires AllBasic(Disassemble(s))
  {
    Reassemble(Disassemble(s))
  }

  // ---------------------------------------------------------------- one unit is one group

  lemma CompoundUnit(c: CodeUnit)
    requires !IsHangul(c) && !Basic(c) && c != 0
    ensures var g := Parts(c); |g| == 2 && ((JongJoin(g[0], g[1]) == c) || (JungJoin(g[0], g[1]) == c))
  {
  }

  lemma UnitIsGroup(c: CodeUnit)
    requires c != 0
    ensures var g := Parts(c); g != [] && IsGroup(g) && AllBasic(g) && Compose(g) == c
  {
    PartsAreBasic(c);
    if IsHangul(c) {
      HangulGroup(c);
    } else if Basic(c) {
      BasicParts(c);
    } else {
      CompoundUnit(c);
      var g := Parts(c);
      JoinKinds(g[0], g[1], 0);
      hide Parts, Basic, IsHangul;
    }
  }

  /** What the parts of a unit are. */
  lemma UnitShape(c: CodeUnit)
    requires c != 0
    ensures var g := Parts(c);
            || (|g| == 1 && !IsJamo(g[0]) && !IsOpen(g))
            || (|g| == 1 && IsJamo(g[0]) && IsOpen(g))
            || (|g| == 2 && JongJoin(g[0], g[1]) != 0 && IsOpen(g))
            || (|g| == 2 && JungJoin(g[0], g[1]) != 0 && !IsOpen(g))
            || (IsSyllableGroup(g) && IsOpen(g) && IsCho(g[0]))
  {
    PartsAreBasic(c);
    UnitIsGroup(c);
    if IsHangul(c) {
      HangulGroup(c);
    } else if Basic(c) {
      BasicParts(c);
    } else {
      CompoundUnit(c);
      var g := Parts(c);
      JoinKinds(g[0], g[1], 0);
      if JongJoin(g[0], g[1]) != 0 { JongSpelling(g[0], g[1]); }
      hide Parts, Basic, IsHangul;
    }
  }

  // ---------------------------------------------------------------- neighbours that stay apart

  /** What is pending behind a unit with parts `g`. */
  function PendingOf(g: seq<CodeUnit>): seq<CodeUnit> { if IsOpen(g) then g else [] }

  /** A unit that is not added to the pending group starts the next one. */
  lemma FeedApart(t: Tokens, c: CodeUnit)
    requires IsOpen(t.pending) && Basic(c) && IsJamo(c)
    requires t.pending == [] || (!(IsJung(c) && IsCho(t.pending[|t.pending| - 1])) && !IsGroup(t.pending + [c]))
    ensures Feed(t, c) == Tokens(t.out + Flush(t.pending), [c])
  {
    hide Compose, IsJamo, IsCho, IsJung, IsJong, JungJoin, JongJoin, Basic, IsSyllableGroup;
    if t.pending == [] {
      FlushNothing(t.out);
      assert t.pending + [c] == [c];
    }
  }

  /** The second unit of a compound jamo joins the first. */
  lemma FeedPair(out: seq<CodeUnit>, a: CodeUnit, b: CodeUnit)
    requires Basic(a) && Basic(b) && (JongJoin(a, b) != 0 || JungJoin(a, b) != 0)
    ensures IsOpen([a]) && IsGroup([a, b])
    ensures Feed(Tokens(out, [a]), b)
         == if JungJoin(a, b) != 0 then Tokens(out + [Compose([a, b])], []) else Tokens(out, [a, b])
  {
    JoinKinds(a, b, 0);
    hide Compose, IsCho, IsJung, IsJong, JungJoin, JongJoin, Basic, IsSyllableGroup;
    assert [a] + [b] == [a, b];
  }

  lemma FeedTwo(t: Tokens, a: CodeUnit, b: CodeUnit)
    requires IsOpen(t.pending) && Basic(a) && Basic(b)
    ensures AllBasic([a]) && FeedAll(t, [a]) == Feed(t, a)
    ensures AllBasic([a, b]) && FeedAll(t, [a, b]) == Feed(Feed(t, a), b)
  {
    FeedOne(t, a);
    assert Basic(b) && IsOpen(Feed(t, a).pending);
    hide Basic, Feed, FeedAll, IsOpen;
    FeedAllSnoc(t, [a], b);
    assert [a] + [b] == [a, b];
  }

  lemma FeedOne(t: Tokens, a: CodeUnit)
    requires IsOpen(t.pending) && Basic(a)
    ensures AllBasic([a]) && FeedAll(t, [a]) == Feed(t, a)
  {
    hide Basic, Feed, FeedAll, IsOpen;
    FeedNothing(t);
    FeedAllSnoc(t, [], a);
    assert [] + [a] == [a];
  }

  /** Feeding a unit that stays apart closes what was pending and leaves the unit. */
  lemma FeedUnit(t: Tokens, g: seq<CodeUnit>, c: CodeUnit)
    requires c != 0 && IsOpen(t.pending)
    requires t.pending == [] || (t.pending == g && StaysApart(g, Parts(c)))
    ensures AllBasic(Parts(c)) && FeedAll(t, Parts(c)) == AfterUnit(t, c, Parts(c))
  {
    hide Parts, Compose, IsJamo, JungJoin, JongJoin, IsGroup, IsOpen, IsCho, IsJung, Basic, Feed, FeedAll, StaysApart;
    var h := Parts(c);
    UnitShape(c);
    UnitIsGroup(c);
    OpenIsGroup(t.pending);
    if |h| == 1 && !IsJamo(h[0]) {
      FeedTwo(t, h[0], h[0]);
      FeedPlain(t, h[0]);
      assert h == [h[0]];
    } else if IsSyllableGroup(h) && IsOpen(h) && IsCho(h[0]) {
      SyllableGroupLength(h);
      assert h[..|h|] == h;
      FeedSyllable(t, h, |h|);
      FlushNothing(t.out + Flush(t.pending));
      NothingMore(t.out + Flush(t.pending));
    } else {
      FeedJamo(t, g, c, h);
    }
  }

  lemma OpenIsGroup(g: seq<CodeUnit>)
    requires IsOpen(g)
    ensures g == [] || IsGroup(g)
  {
  }

  /** What was pending is closed, and the unit is pending unless it is closed itself. */
  function AfterUnit(t: Tokens, c: CodeUnit, h: seq<CodeUnit>): Tokens
    requires IsOpen(t.pending)
  {
    Tokens(t.out + Flush(t.pending) + (if IsOpen(h) then [] else [c]), PendingOf(h))
  }

  lemma NothingMore(out: seq<CodeUnit>)
    ensures out + [] == out
  {
  }

  lemma FeedJamo(t: Tokens, g: seq<CodeUnit>, c: CodeUnit, h: seq<CodeUnit>)
    requires IsOpen(t.pending) && h != [] && AllBasic(h) && IsGroup(h) && Compose(h) == c
    requires t.pending == [] || (t.pending == g && StaysApart(g, h))
    requires || (|h| == 1 && IsJamo(h[0]) && IsOpen(h))
             || (|h| == 2 && JongJoin(h[0], h[1]) != 0 && IsOpen(h))
             || (|h| == 2 && JungJoin(h[0], h[1]) != 0 && !IsOpen(h))
    ensures FeedAll(t, h) == AfterUnit(t, c, h)
  {
    hide Compose, IsSyllableGroup, Basic, ChoHash, JungHash, JongHash, IsCho, IsJung, IsJong, JungJoin, JongJoin, Feed,
        FeedAll, IsOpen, IsGroup;
    OpenIsGroup(t.pending);
    var out := t.out + Flush(t.pending);
    NothingMore(out);
    if |h| == 1 {
      FeedTwo(t, h[0], h[0]);
      assert h == [h[0]];
      FeedApart(t, h[0]);
    } else {
      FeedTwo(t, h[0], h[1]);
      assert h == [h[0], h[1]];
      JoinKinds(h[0], h[1], 0);
      FeedApart(t, h[0]);
      FeedPair(out, h[0], h[1]);
    }
  }

  // ---------------------------------------------------------------- stable texts come back

  /** The text up to `n` has been read back: its last unit is pending unless it is closed. */
  ghost predicate IsReadBack(s: seq<CodeUnit>, t: Tokens) {
    && IsOpen(t.pending) && t.out + Flush(t.pending) == s
    && t.pending == if s == [] then [] else PendingOf(Parts(s[|s| - 1]))
  }

  function TokensOf(s: seq<CodeUnit>): (t: Tokens)
    requires AllBasic(Disassemble(s))
    ensures IsOpen(t.pending)
  {
    FeedAll(Tokens([], []), Disassemble(s))
  }

  lemma TokensSnoc(s: seq<CodeUnit>, c: CodeUnit)
    ensures AllBasic(Disassemble(s)) && AllBasic(Parts(c)) && AllBasic(Disassemble(s + [c]))
    ensures TokensOf(s + [c]) == FeedAll(TokensOf(s), Parts(c))
  {
    DisassembledIsBasic(s);
    DisassembledIsBasic(s + [c]);
    PartsAreBasic(c);
    DisassembleSnoc(s, c);
    hide Disassemble, Parts, FeedAll;
    FeedAllAppend(Tokens([], []), Disassemble(s), Parts(c));
  }

  lemma TokensOfNothing()
    ensures AllBasic(Disassemble([])) && TokensOf([]) == Tokens([], [])
  {
  }

  lemma ReadOne(s: seq<CodeUnit>, c: CodeUnit)
    requires AllBasic(Disassemble(s)) && c != 0 && IsReadBack(s, TokensOf(s))
    requires s == [] || StaysApart(Parts(s[|s| - 1]), Parts(c))
    ensures AllBasic(Disassemble(s + [c])) && IsReadBack(s + [c], TokensOf(s + [c]))
  {
    hide TokensOf, Parts, FeedAll, StaysApart, AfterUnit, Disassemble, IsOpen, IsGroup, Compose, Flush, Basic, AllBasic;
    TokensSnoc(s, c);
    var t := TokensOf(s);
    var g := if s == [] then [] else Parts(s[|s| - 1]);
    UnitIsGroup(c);
    LastPart(s, c);
    FeedUnit(t, g, c);
    hide IsReadBack;
    ReadNext(s, c, t);
  }

  lemma LastPart(s: seq<CodeUnit>, c: CodeUnit)
    ensures s != [] ==> Parts(s[|s| - 1]) != []
  {
  }

  lemma ReadNext(s: seq<CodeUnit>, c: CodeUnit, t: Tokens)
    requires IsReadBack(s, t) && IsGroup(Parts(c)) && Compose(Parts(c)) == c && Parts(c) != []
    ensures IsReadBack(s + [c], AfterUnit(t, c, Parts(c)))
  {
    NothingMore(s);
    var h := Parts(c);
    assert (s + [c])[|s + [c]| - 1] == c;
    PendingIsOpen(h);
    hide Parts, Compose, IsOpen, IsGroup;
  }

  lemma PendingIsOpen(h: seq<CodeUnit>)
    ensures IsOpen(PendingOf(h)) && IsOpen([])
  {
  }

  lemma {:induction false} StableIsReadBack(s: seq<CodeUnit>)
    requires IsStable(s)
    ensures AllBasic(Disassemble(s)) && IsReadBack(s, TokensOf(s))
  {
    hide TokensOf, StaysApart, Disassemble, Parts, IsReadBack, IsStable, Basic;
    ReadNothing();
    if s != [] {
      var r, c := s[..|s| - 1], s[|s| - 1];
      StablePrefix(s);
      StableIsReadBack(r);
      ReadOne(r, c);
      assert s == r + [c];
    }
  }

  lemma ReadNothing()
    ensures AllBasic(Disassemble([])) && IsReadBack([], TokensOf([]))
  {
    TokensOfNothing();
  }

  lemma StablePrefix(s: seq<CodeUnit>)
    requires IsStable(s) && s != []
    ensures var r, c := s[..|s| - 1], s[|s| - 1];
            IsStable(r) && c != 0 && (r == [] || StaysApart(Parts(r[|r| - 1]), Parts(c)))
  {
    hide StaysApart, Parts;
    var r := s[..|s| - 1];
    forall i | 0 < i < |r| ensures StaysApart(Parts(r[i - 1]), Parts(r[i])) {
      assert r[i - 1] == s[i - 1] && r[i] == s[i];
    }
    if r != [] { assert r[|r| - 1] == s[(|s| - 1) - 1]; }
  }

  lemma ReadBackIsAgain(s: seq<CodeUnit>)
    requires AllBasic(Disassemble(s))
    ensures Again(s) == TokensOf(s).out + Flush(TokensOf(s).pending)
  {
  }

  // ---------------------------------------------------------------- nothing else comes back

  lemma FeedGrows(t: Tokens, c: CodeUnit)
    requires IsOpen(t.pending) && Basic(c)
    ensures t.out <= Feed(t, c).out
  {
    hide Compose, IsJamo, IsCho, IsJung, JungJoin, Basic, IsGroup;
  }

  lemma {:induction false} FeedAllGrows(t: Tokens, a: seq<CodeUnit>)
    requires IsOpen(t.pending) && AllBasic(a)
    ensures t.out <= FeedAll(t, a).out
  {
    if a != [] {
      FeedAllGrows(t, a[..|a| - 1]);
      FeedGrows(FeedAll(t, a[..|a| - 1]), a[|a| - 1]);
      hide Feed, Basic;
    }
  }

  /** The text read once the rest of the units has come in. */
  function Finish(t: Tokens, a: seq<CodeUnit>): seq<CodeUnit>
    requires IsOpen(t.pending) && AllBasic(a)
  {
    var u := FeedAll(t, a);
    u.out + Flush(u.pending)
  }

  lemma FinishGrows(t: Tokens, a: seq<CodeUnit>)
    requires IsOpen(t.pending) && AllBasic(a)
    ensures t.out <= Finish(t, a)
  {
    hide Basic, FeedAll, Flush;
    FeedAllGrows(t, a);
  }

  lemma FinishFirst(t: Tokens, c: CodeUnit, a: seq<CodeUnit>)
    requires IsOpen(t.pending) && AllBasic(a) && Basic(c)
    ensures AllBasic([c] + a) && IsOpen(Feed(t, c).pending) && Finish(t, [c] + a) == Finish(Feed(t, c), a)
  {
    assert IsOpen(Feed(t, c).pending);
    FeedOne(t, c);
    hide Basic, Feed, FeedAll, IsOpen, Flush;
    FeedAllAppend(t, [c], a);
  }

  /** What one unit does to a pending group. */
  lemma FeedCases(t: Tokens, c: CodeUnit)
    requires IsOpen(t.pending) && t.pending != [] && Basic(c)
    ensures var p, u := t.pending, Feed(t, c); var n := |p| - 1;
            // the group is closed
            || (IsGroup(p) && t.out + [Compose(p)] <= u.out)
            // it loses its last consonant to a vowel
            || (IsJung(c) && IsCho(p[n]) && n > 0 && IsGroup(p[..n]) && t.out + [Compose(p[..n])] <= u.out)
            // it grows
            || (IsGroup(p + [c]) && u == Tokens(t.out, p + [c]))
            || (IsGroup(p + [c]) && t.out + [Compose(p + [c])] <= u.out)
  {
    var n := |t.pending| - 1;
    if IsJamo(c) && IsJung(c) && IsCho(t.pending[n]) {
      FeedVowel(t, c);
      if n == 0 { assert t.pending[..0] == [] && t.pending + [c] == [t.pending[0], c]; FlushNothing(t.out); }
      hide Feed, Compose, IsCho, IsJung, Basic, JungJoin, JongJoin, IsSyllableGroup;
    } else {
      hide Compose, IsJamo, IsCho, IsJung, JungJoin, JongJoin, Basic, IsSyllableGroup;
    }
  }

  /** One when the next unit is a vowel that takes the last consonant of the pending group. */
  function Loss(p: seq<CodeUnit>, a: seq<CodeUnit>): nat
    requires p != []
  {
    if a != [] && IsJung(a[0]) && IsCho(p[|p| - 1]) then 1 else 0
  }

  /** The pending group ends up in one unit, all of it but for the consonant that the next unit takes. */
  lemma {:induction false} FirstUnit(t: Tokens, a: seq<CodeUnit>)
    requires IsOpen(t.pending) && t.pending != [] && AllBasic(a)
    ensures |t.out| < |Finish(t, a)|
    ensures |Parts(Finish(t, a)[|t.out|])| + Loss(t.pending, a) >= |t.pending|
    decreases |a|
  {
    OpenIsAllBasic(t.pending);
    hide Parts, Compose, IsGroup, Basic, Feed, FeedAll, IsOpen, IsCho, IsJung;
    var p, n := t.pending, |t.pending| - 1;
    if a == [] {
      FinishNow(t);
      ComposeParts(p);
    } else {
      var c, rest := a[0], a[1..];
      assert a == [c] + rest;
      FinishFirst(t, c, rest);
      FeedCases(t, c);
      var u := Feed(t, c);
      FinishGrows(u, rest);
      hide Finish, AllBasic;
      if IsGroup(p) && t.out + [Compose(p)] <= u.out {
        ComposeParts(p);
        UnitAt(t.out, Compose(p), u.out, Finish(t, a));
      } else if IsJung(c) && IsCho(p[n]) && n > 0 && IsGroup(p[..n]) && t.out + [Compose(p[..n])] <= u.out {
        BasicPrefix(p);
        ComposeParts(p[..n]);
        UnitAt(t.out, Compose(p[..n]), u.out, Finish(t, a));
      } else if u == Tokens(t.out, p + [c]) {
        FirstUnit(u, rest);
      } else {
        BasicSnoc(p, c);
        ComposeParts(p + [c]);
        UnitAt(t.out, Compose(p + [c]), u.out, Finish(t, a));
      }
    }
  }

  lemma UnitAt(out: seq<CodeUnit>, c: CodeUnit, longer: seq<CodeUnit>, all: seq<CodeUnit>)
    requires out + [c] <= longer <= all
    ensures |out| < |all| && all[|out|] == c && all[..|out|] == out
  {
    assert c == (out + [c])[|out|] == longer[|out|] == all[|out|];
    assert forall k :: 0 <= k < |out| ==> all[k] == longer[k] == (out + [c])[k] == out[k];
  }

  lemma BasicPrefix(p: seq<CodeUnit>)
    requires AllBasic(p) && p != []
    ensures AllBasic(p[..|p| - 1]) && AllBasic(p[1..]) && Basic(p[0])
  {
    hide Basic;
  }

  lemma BasicSnoc(p: seq<CodeUnit>, c: CodeUnit)
    requires AllBasic(p) && Basic(c)
    ensures AllBasic(p + [c]) && AllBasic([c] + p)
  {
    hide Basic;
  }

  lemma OpenIsAllBasic(p: seq<CodeUnit>)
    requires IsOpen(p)
    ensures AllBasic(p) && (p != [] ==> IsGroup(p))
  {
    hide Basic;
  }

  lemma FinishNow(t: Tokens)
    requires IsOpen(t.pending) && t.pending != []
    ensures IsGroup(t.pending) && Finish(t, []) == t.out + [Compose(t.pending)]
  {
    FeedNothing(t);
  }

  /** Only a group that is still pending can be disturbed. */
  lemma DisturbedIsOpen(c: CodeUnit, h: seq<CodeUnit>)
    requires c != 0 && h != [] && AllBasic(h) && Parts(c) != [] && !StaysApart(Parts(c), h)
    ensures IsOpen(Parts(c))
  {
    var g := Parts(c);
    UnitShape(c);
    hide Parts;
    if |g| == 1 && !IsJamo(g[0]) {
      NotJamo(g[0], h[0]);
    } else if |g| == 2 && JungJoin(g[0], g[1]) != 0 {
      JoinKinds(g[0], g[1], h[0]);
      JungSpelling(g[0], g[1]);
    }
  }

  lemma NotJamo(x: CodeUnit, y: CodeUnit)
    requires !IsJamo(x)
    ensures JongJoin(x, y) == 0 && JungJoin(x, y) == 0 && !IsCho(x)
  {
  }

  /** After a disturbed pair the two units do not come back both. */
  lemma Disturbed(t: Tokens, c: CodeUnit, d: CodeUnit, a: seq<CodeUnit>)
    requires c != 0 && d != 0 && IsOpen(t.pending) && t.pending == Parts(c) && AllBasic(Parts(d) + a)
    requires Parts(c) != [] && Parts(d) != [] && !StaysApart(Parts(c), Parts(d))
    requires |Finish(t, Parts(d) + a)| >= |t.out| + 2
    ensures Finish(t, Parts(d) + a)[|t.out|..|t.out| + 2] != [c, d]
  {
    hide Parts, Compose, IsGroup, IsJamo, Basic, Feed, FeedAll, IsOpen, IsCho, IsJung, JungJoin, JongJoin,
        StaysApart, IsSyllableGroup;
    var g, h := Parts(c), Parts(d);
    var v, rest := h[0], h[1..] + a;
    assert h + a == [v] + rest;
    SplitBasic(v, rest);
    FinishFirst(t, v, rest);
    var all := Finish(t, h + a);
    if all[|t.out|..|t.out| + 2] == [c, d] {
      assert all[|t.out|] == c && all[|t.out| + 1] == d;
      BothBasic(h, a);
      FeedDisturbed(t, c, d);
      var u := Feed(t, v);
      FinishGrows(u, rest);
      if u != Tokens(t.out, g + [v]) {
        SpoiledUnit(t.out, g, u.out, all);
      } else {
        FirstUnit(u, rest);
        assert Loss(u.pending, rest) == 1;
        SyllableStaysApart(g, h);
        assert |h| == 1 && rest == a;
        TakenAway(u, g, v, a, all);
      }
    }
  }

  lemma SpoiledUnit(out: seq<CodeUnit>, g: seq<CodeUnit>, longer: seq<CodeUnit>, all: seq<CodeUnit>)
    requires longer <= all && exists e: CodeUnit :: out + [e] <= longer && Parts(e) != g
    ensures |out| < |all| && Parts(all[|out|]) != g
  {
    hide Parts;
    var e: CodeUnit :| out + [e] <= longer && Parts(e) != g;
    UnitAt(out, e, longer, all);
  }

  /** When the next vowel takes `v` from the group, the unit behind it has at least two jamo. */
  lemma TakenAway(u: Tokens, g: seq<CodeUnit>, v: CodeUnit, a: seq<CodeUnit>, all: seq<CodeUnit>)
    requires IsOpen(u.pending) && g != [] && u.pending == g + [v] && AllBasic(a) && all == Finish(u, a)
        && Loss(u.pending, a) == 1
    ensures |u.out| + 1 < |all| && |Parts(all[|u.out| + 1])| >= 2
  {
    hide Parts, Compose, IsGroup, IsJamo, Basic, Feed, FeedAll, IsOpen, IsCho, IsJung, JungJoin,
        JongJoin, IsSyllableGroup;
    var w, last := a[0], a[1..];
    assert a == [w] + last;
    SplitBasic(w, last);
    FinishFirst(u, w, last);
    FeedVowel(u, w);
    assert u.pending[..|g|] == g;
    BasicIsNotNul(w);
    JamoAreApart(w);
    FirstUnit(Feed(u, w), last);
  }

  lemma BasicIsNotNul(c: CodeUnit)
    requires Basic(c)
    ensures c != 0
  {
  }

  lemma BothBasic(h: seq<CodeUnit>, a: seq<CodeUnit>)
    requires AllBasic(h + a)
    ensures AllBasic(h) && AllBasic(a)
  {
    assert forall i :: 0 <= i < |h| ==> h[i] == (h + a)[i];
    assert forall i :: 0 <= i < |a| ==> a[i] == (h + a)[|h| + i];
    hide Basic;
  }

  lemma SplitBasic(c: CodeUnit, a: seq<CodeUnit>)
    requires AllBasic([c] + a)
    ensures Basic(c) && AllBasic(a)
  {
    assert ([c] + a)[0] == c && forall i :: 0 <= i < |a| ==> a[i] == ([c] + a)[i + 1];
    hide Basic;
  }

  /** The first unit behind a disturbed group joins it, or spoils it at once. */
  lemma FeedDisturbed(t: Tokens, c: CodeUnit, d: CodeUnit)
    requires c != 0 && d != 0 && IsOpen(t.pending) && t.pending == Parts(c) && t.pending != [] && Parts(d) != []
        && AllBasic(Parts(d))
    requires !StaysApart(Parts(c), Parts(d))
    ensures var v := Parts(d)[0];
            Basic(v) && (Feed(t, v) == Tokens(t.out, t.pending + [v])
                || exists e: CodeUnit :: t.out + [e] <= Feed(t, v).out && Parts(e) != t.pending)
  {
    hide Parts, Compose, Basic, Feed, IsOpen, IsGroup, IsJamo, IsCho, IsJung, JungJoin, JongJoin, IsSyllableGroup;
    var g, h := Parts(c), Parts(d);
    var n, v := |g| - 1, h[0];
    OpenIsAllBasic(g);
    if IsJung(v) && IsCho(g[n]) {
      FeedVowel(t, v);
      if n == 0 {
        assert t.pending[..0] == [] && g + [v] == [g[0], v];
        FlushNothing(t.out);
      } else {
        BasicPrefix(g);
        OpenIsAllBasic(g[..n]);
        ComposeParts(g[..n]);
        assert t.out + [Compose(g[..n])] <= Feed(t, v).out;
      }
    } else {
      assert IsGroup(g + [v]);
      FeedGroup(t, v);
      BasicSnoc(g, v);
      ComposeParts(g + [v]);
    }
  }

  lemma FeedGroup(t: Tokens, v: CodeUnit)
    requires IsOpen(t.pending) && t.pending != [] && Basic(v) && IsGroup(t.pending + [v])
    requires !(IsJung(v) && IsCho(t.pending[|t.pending| - 1]))
    ensures Feed(t, v) == Tokens(t.out, t.pending + [v]) || t.out + [Compose(t.pending + [v])] <= Feed(t, v).out
  {
    MemberIsJamo(t.pending, v);
    hide Compose, Basic, IsOpen, IsGroup, IsJamo, IsCho, IsJung, JungJoin, JongJoin;
  }

  lemma MemberIsJamo(g: seq<CodeUnit>, v: CodeUnit)
    requires g != [] && IsGroup(g + [v])
    ensures IsJamo(v)
  {
    var h, n := g + [v], |g|;
    assert h[n] == v;
    if JongJoin(h[n - 1], v) != 0 { JongSpelling(h[n - 1], v); }
    if JungJoin(h[n - 1], v) != 0 { JungSpelling(h[n - 1], v); }
    hide ChoHash, JungHash, JongHash, IsCho, IsJung, IsJong, JungJoin, JongJoin;
  }

  lemma SyllableStaysApart(g: seq<CodeUnit>, h: seq<CodeUnit>)
    requires g != [] && h != [] && !StaysApart(g, h)
    ensures |h| >= 2 ==> !(IsCho(h[0]) && IsJung(h[1]))
  {
    hide IsGroup, IsCho, IsJung;
  }

  // ---------------------------------------------------------------- NUL never comes back

  predicate NoNul(s: seq<CodeUnit>) { forall i :: 0 <= i < |s| ==> s[i] != 0 }

  lemma ComposeIsNotNul(g: seq<CodeUnit>)
    requires IsGroup(g) && AllBasic(g)
    ensures Compose(g) != 0
  {
    ComposeParts(g);
    NulParts();
    hide Compose, Parts, IsGroup;
  }

  lemma NulParts()
    ensures Parts(0) == [0x3131] && Compose([0x3131]) == 0x3131
  {
  }

  lemma {:induction false} NoNulIsRead(a: seq<CodeUnit>)
    requires AllBasic(a)
    ensures NoNul(FeedAll(Tokens([], []), a).out) && NoNul(Reassemble(a))
  {
    PendingIsOpen([]);
    hide Compose, Parts, Basic, Feed, IsOpen, IsGroup;
    if a != [] {
      var t := FeedAll(Tokens([], []), a[..|a| - 1]);
      NoNulIsRead(a[..|a| - 1]);
      NoNulStep(t, a[|a| - 1]);
    }
    var u := FeedAll(Tokens([], []), a);
    OpenIsAllBasic(u.pending);
    if u.pending != [] { ComposeIsNotNul(u.pending); }
  }

  lemma NoNulStep(t: Tokens, c: CodeUnit)
    requires IsOpen(t.pending) && Basic(c) && NoNul(t.out)
    ensures NoNul(Feed(t, c).out)
  {
    OpenIsAllBasic(t.pending);
    BasicIsNotNul(c);
    BasicSnoc(t.pending, c);
    if t.pending != [] {
      BasicPrefix(t.pending);
      ComposeIsNotNul(t.pending);
      if IsGroup(t.pending + [c]) { ComposeIsNotNul(t.pending + [c]); }
      if IsJung(c) && IsCho(t.pending[|t.pending| - 1]) {
        FeedVowel(t, c);
        if |t.pending| > 1 {
          OpenIsAllBasic(t.pending[..|t.pending| - 1]);
          ComposeIsNotNul(t.pending[..|t.pending| - 1]);
        }
      }
    }
    hide Compose, IsJamo, IsCho, IsJung, JungJoin, Basic, IsGroup;
  }

  // ---------------------------------------------------------------- exactly the stable texts

  lemma {:induction false} DisassembleAppend(a: seq<CodeUnit>, b: seq<CodeUnit>)
    ensures Disassemble(a + b) == Disassemble(a) + Disassemble(b)
  {
    hide Parts;
    if b == [] {
      assert a + b == a;
    } else {
      var c, x := b[..|b| - 1], b[|b| - 1];
      DisassembleAppend(a, c);
      assert a + b == (a + c) + [x] && b == c + [x];
      DisassembleSnoc(a + c, x);
      DisassembleSnoc(c, x);
      hide Disassemble;
      Associate(Disassemble(a), Disassemble(c), Parts(x));
    }
  }

  /** What is read when the text goes on. */
  lemma FinishRest(s: seq<CodeUnit>, c: CodeUnit, rest: seq<CodeUnit>)
    ensures AllBasic(Disassemble(s)) && AllBasic(Parts(c) + Disassemble(rest)) && AllBasic(Disassemble(s + [c] + rest))
    ensures Again(s + [c] + rest) == Finish(TokensOf(s), Parts(c) + Disassemble(rest))
  {
    hide Parts, Basic, FeedAll, Flush;
    DisassembledIsBasic(s + [c] + rest);
    DisassembledIsBasic(s);
    DisassembleAppend(s + [c], rest);
    DisassembleSnoc(s, c);
    hide Disassemble;
    Associate(Disassemble(s), Parts(c), Disassemble(rest));
    BothBasic(Disassemble(s), Parts(c) + Disassemble(rest));
    FeedAllAppend(Tokens([], []), Disassemble(s), Parts(c) + Disassemble(rest));
  }

  ghost predicate ComesBack(s: seq<CodeUnit>) { NoNul(s) && AllBasic(Disassemble(s)) && Again(s) == s }

  /** A text that comes back keeps every pair apart, one after the other. */
  lemma {:induction false} ComesBackApart(r: seq<CodeUnit>, rest: seq<CodeUnit>)
    requires ComesBack(r + rest)
    ensures IsStable(r)
    decreases |r|
  {
    hide ComesBack, StaysApart, IsStable, Parts;
    if r == [] {
      NothingIsStable();
    } else {
      var q, d := r[..|r| - 1], r[|r| - 1];
      assert r == q + [d];
      Associate(q, [d], rest);
      ComesBackApart(q, [d] + rest);
      MemberIsNotNul(q, d, rest);
      if q != [] { PairStaysApart(q, d, rest); }
      StableSnoc(q, d);
    }
  }

  lemma NothingIsStable()
    ensures IsStable([])
  {
  }

  lemma MemberIsNotNul(q: seq<CodeUnit>, d: CodeUnit, rest: seq<CodeUnit>)
    requires ComesBack(q + [d] + rest)
    ensures d != 0 && forall i :: 0 <= i < |q| ==> q[i] != 0
  {
    var s := q + [d] + rest;
    assert s[|q|] == d && forall i :: 0 <= i < |q| ==> s[i] == q[i];
    hide Again, Disassemble, Basic;
  }

  lemma StableSnoc(r: seq<CodeUnit>, c: CodeUnit)
    requires IsStable(r) && c != 0 && (r == [] || StaysApart(Parts(r[|r| - 1]), Parts(c)))
    ensures IsStable(r + [c])
  {
    hide StaysApart, Parts;
  }

  lemma PairStaysApart(q: seq<CodeUnit>, d: CodeUnit, rest: seq<CodeUnit>)
    requires ComesBack(q + [d] + rest) && q != [] && IsStable(q)
    ensures StaysApart(Parts(q[|q| - 1]), Parts(d))
  {
    hide Disassemble, Parts, FeedAll, Basic, AllBasic, TokensOf, Again, IsStable, IsReadBack, Finish, StaysApart, NoNul;
    MemberIsNotNul(q, d, rest);
    StableIsReadBack(q);
    FinishRest(q, d, rest);
    DisassembledIsBasic(rest);
    PairAt(q, q[|q| - 1], d, rest, TokensOf(q));
  }

  lemma PairAt(r: seq<CodeUnit>, c: CodeUnit, d: CodeUnit, rest: seq<CodeUnit>, t: Tokens)
    requires c != 0 && d != 0 && r != [] && r[|r| - 1] == c && IsReadBack(r, t) && AllBasic(Disassemble(rest))
    requires AllBasic(Parts(d) + Disassemble(rest)) && Finish(t, Parts(d) + Disassemble(rest)) == r + [d] + rest
    ensures StaysApart(Parts(c), Parts(d))
  {
    hide Disassemble, Parts, Basic, AllBasic, Finish, StaysApart, IsGroup, IsOpen, Compose, Flush, IsReadBack;
    UnitIsGroup(c);
    UnitIsGroup(d);
    ReadIsOpen(r, t);
    TwoInTheMiddle(r, d, rest);
    BothBasic(Parts(d), Disassemble(rest));
    if !StaysApart(Parts(c), Parts(d)) {
      DisturbedIsOpen(c, Parts(d));
      PendingLast(r, t, c);
      Disturbed(t, c, d, Disassemble(rest));
    }
  }

  lemma ReadIsOpen(r: seq<CodeUnit>, t: Tokens)
    requires IsReadBack(r, t)
    ensures IsOpen(t.pending)
  {
  }

  lemma TwoInTheMiddle(r: seq<CodeUnit>, d: CodeUnit, rest: seq<CodeUnit>)
    requires r != []
    ensures var all := r + [d] + rest; |r| + 1 <= |all| && all[|r| - 1..|r| + 1] == [r[|r| - 1], d]
  {
  }

  lemma PendingLast(r: seq<CodeUnit>, t: Tokens, c: CodeUnit)
    requires IsReadBack(r, t) && r != [] && c == r[|r| - 1] && IsOpen(Parts(c)) && Parts(c) != []
    ensures t.pending == Parts(c) && |t.out| == |r| - 1
  {
    hide Parts, Compose, IsGroup;
  }

  /** Assembling gives back exactly the texts without NUL whose neighbours stay apart. */
  lemma ComesBackExactly(s: seq<CodeUnit>)
    ensures AllBasic(Disassemble(s)) && (Again(s) == s <==> IsStable(s))
  {
    DisassembledIsBasic(s);
    hide Disassemble, StaysApart, Parts, Basic;
    if IsStable(s) {
      StableIsReadBack(s);
      ReadBackIsAgain(s);
    }
    if Again(s) == s {
      NoNulIsRead(Disassemble(s));
      NothingMore(s);
      ComesBackApart(s, []);
    }
  }

  /** `assemble` of a text, which disassembles it first: the text comes back exactly when it is stable. */
  method AssembleAgain(text: seq<CodeUnit>) returns (joined: seq<CodeUnit>)
    ensures joined == text <==> IsStable(text)
    ensures Disassemble(joined) == Disassemble(text)
  {
    hide IsStable, Disassemble, Basic, IsWhole;
    joined := Assemble(text);
    ComesBackExactly(text);
  }

  /** The condition is local: a text comes back when its units and its pairs of neighbours do. */
  lemma PairsDecide(s: seq<CodeUnit>)
    ensures (forall i :: 0 <= i < |s| ==> IsStable([s[i]])) && (forall i :: 0 < i < |s| ==> IsStable([s[i - 1], s[i]]))
            <==> IsStable(s)
  {
    hide StaysApart, Parts;
    forall i | 0 <= i < |s| ensures IsStable([s[i]]) <==> s[i] != 0 {
      assert [s[i]][0] == s[i];
    }
    forall i | 0 < i < |s|
      ensures IsStable([s[i - 1], s[i]]) <==> s[i - 1] != 0 && s[i] != 0 && StaysApart(Parts(s[i - 1]), Parts(s[i]))
    {
      PairIsStable(s[i - 1], s[i]);
    }
  }

  lemma PairIsStable(a: CodeUnit, b: CodeUnit)
    ensures IsStable([a, b]) <==> a != 0 && b != 0 && StaysApart(Parts(a), Parts(b))
  {
    hide StaysApart, Parts;
    var s := [a, b];
    assert s[0] == a && s[1] == b;
  }

  /** Text of complete syllables and other characters is stable. */
  lemma WholeIsStable(s: seq<CodeUnit>)
    requires forall i :: 0 <= i < |s| ==> IsWhole(s[i])
    ensures IsStable(s)
  {
    hide IsStable, Disassemble, Basic, IsWhole;
    WholeTextRoundTrip(s);
    ComesBackExactly(s);
  }

  /** A loose consonant and a loose vowel come back as the syllable that they spell. */
  lemma LooseJamoJoin()
    ensures AllBasic(Disassemble([0x3131, 0x314F])) && Again([0x3131, 0x314F]) == [0xAC00]
  {
    var s: seq<CodeUnit> := [0x3131, 0x314F];
    BasicParts(0x3131);
    BasicParts(0x314F);
    assert Disassemble([]) == [];
    DisassembleSnoc([], 0x3131);
    DisassembleSnoc([0x3131], 0x314F);
    assert [] + [0x3131] == [0x3131] && [0x3131] + [0x314F] == s;
    assert Disassemble(s) == s;
    hide Disassemble, Parts;
    var t := Tokens([], []);
    FeedTwo(t, 0x3131, 0x314F);
    FeedConsonant(t, 0x3131);
    assert [] + [0x3131] == [0x3131];
    FeedVowel(Tokens([], [0x3131]), 0x314F);
    FlushNothing([]);
  }

  /** NUL comes back as the first consonant. */
  lemma NulBecomesConsonant()
    ensures AllBasic(Disassemble([0])) && Again([0]) == [0x3131]
  {
    DisassembleSnoc([], 0);
    NulParts();
    assert Disassemble([]) == [] && [] + [0] == [0] && [] + [0x3131] == [0x3131];
    hide Disassemble, Parts;
    FeedOne(Tokens([], []), 0x3131);
    FeedConsonant(Tokens([], []), 0x3131);
  }

  /** A single loose jamo comes back although it is no complete syllable. */
  lemma LooseJamoAlone()
    ensures !IsWhole(0x314B) && AllBasic(Disassemble([0x314B])) && Again([0x314B]) == [0x314B]
  {
    ComesBackExactly([0x314B]);
    assert IsStable([0x314B]);
  }
}
