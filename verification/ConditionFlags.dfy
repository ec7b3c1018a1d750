/** The condition hierarchy of a language: which 32-bit flags each condition type gets. */
module ConditionFlags {
  import opened Bits
  import opened Wrappers

  /** A condition type of a descriptor; a leaf has no list of sub-conditions at all. */
  datatype Condition = Condition(isDictionaryForm: bool, subConditions: Option<seq<string>>)

  datatype Entry = Entry(name: string, condition: Condition)

  type FlagsMap = map<string, Flags>

  /** `Object.entries` never repeats a key. */
  ghost predicate DistinctNames(cs: seq<Entry>) {
    forall i, j :: 0 <= i < j < |cs| ==> cs[i].name != cs[j].name
  }

  predicate IsLeaf(e: Entry) { e.condition.subConditions.None? }

  function LeafCount(cs: seq<Entry>): nat {
    if cs == [] then 0 else LeafCount(cs[..|cs| - 1]) + if IsLeaf(cs[|cs| - 1]) then 1 else 0
  }

  // ---------------------------------------------------------------- the hierarchy as a graph

  ghost function Names(cs: seq<Entry>): set<string> { set i | 0 <= i < |cs| :: cs[i].name }

  /** Type `t` lists `u` among its sub-conditions. */
  ghost predicate Lists(cs: seq<Entry>, t: string, u: string) {
    exists i :: 0 <= i < |cs| && cs[i].name == t && !IsLeaf(cs[i]) && u in cs[i].condition.subConditions.value
  }

  ghost predicate IsPath(cs: seq<Entry>, p: seq<string>) {
    forall k :: 0 <= k < |p| - 1 ==> Lists(cs, p[k], p[k + 1])
  }

  /** `u` is `t`, or below it. */
  ghost predicate Reaches(cs: seq<Entry>, t: string, u: string) {
    exists p: seq<string> :: |p| > 0 && p[0] == t && p[|p| - 1] == u && IsPath(cs, p)
  }

  ghost predicate Acyclic(cs: seq<Entry>) {
    forall p: seq<string> :: |p| > 1 && IsPath(cs, p) ==> p[0] != p[|p| - 1]
  }

  ghost predicate AllDefined(cs: seq<Entry>) {
    forall t, u :: Lists(cs, t, u) ==> u in Names(cs)
  }

  // ---------------------------------------------------------------- flags of a list of types

  function UnionOf(m: FlagsMap, types: seq<string>): Flags
    requires forall t :: t in types ==> t in m
  {
    if types == [] then 0 else Or(UnionOf(m, types[..|types| - 1]), m[types[|types| - 1]])
  }

  lemma {:induction false} UnionHas(m: FlagsMap, types: seq<string>, k: nat)
    requires (forall t :: t in types ==> t in m) && k < 32
    ensures Has(UnionOf(m, types), k) <==> exists t :: t in types && Has(m[t], k)
  {
    hide Has, Bit, Or;
    if types == [] {
      HasNothing(k);
    } else {
      var r, t := types[..|types| - 1], types[|types| - 1];
      assert types == r + [t];
      UnionHas(m, r, k);
      HasOr(UnionOf(m, r), m[t], k);
    }
  }

  /** `_getConditionFlagsStrict`: null as soon as a type is missing. */
  method GetConditionFlagsStrict(m: FlagsMap, types: seq<string>) returns (r: Option<Flags>)
    ensures r.None? <==> exists t :: t in types && t !in m
    ensures r.Some? ==> r.value == UnionOf(m, types)
  {
    var flags: Flags := 0;
    for i := 0 to |types|
      invariant forall t :: t in types[..i] ==> t in m
      invariant flags == UnionOf(m, types[..i])
    {
      if types[i] !in m {
        return None;
      }
      assert types[..i + 1] == types[..i] + [types[i]] && types[..i + 1][..i] == types[..i];
      flags := Or(flags, m[types[i]]);
    }
    assert types[..|types|] == types;
    return Some(flags);
  }

  /** `_getConditionFlags`: missing types count as no flags. */
  method GetConditionFlags(m: FlagsMap, types: seq<string>) returns (flags: Flags)
    ensures forall k: nat :: k < 32 ==> (Has(flags, k) <==> exists t :: t in types && t in m && Has(m[t], k))
  {
    hide Has, Bit, Or;
    flags := 0;
    forall k: nat | k < 32 ensures !Has(0, k) { HasNothing(k); }
    for i := 0 to |types|
      invariant forall k: nat :: k < 32 ==>
        (Has(flags, k) <==> exists t :: t in types[..i] && t in m && Has(m[t], k))
    {
      var flags2: Flags := if types[i] in m then m[types[i]] else 0;
      forall k: nat | k < 32 ensures Has(Or(flags, flags2), k) <==> Has(flags, k) || Has(flags2, k) {
        HasOr(flags, flags2, k);
      }
      assert types[..i + 1] == types[..i] + [types[i]];
      flags := Or(flags, flags2);
    }
    assert types[..|types|] == types;
  }

  // ---------------------------------------------------------------- paths

  lemma PathCons(cs: seq<Entry>, t: string, p: seq<string>)
    requires |p| > 0 && Lists(cs, t, p[0]) && IsPath(cs, p)
    ensures IsPath(cs, [t] + p)
  {
    var q := [t] + p;
    forall k | 0 <= k < |q| - 1 ensures Lists(cs, q[k], q[k + 1]) {
      if k > 0 {
        assert Lists(cs, p[k - 1], p[k - 1 + 1]);
      }
    }
  }

  lemma PathTail(cs: seq<Entry>, p: seq<string>)
    requires |p| > 1 && IsPath(cs, p)
    ensures Lists(cs, p[0], p[1]) && IsPath(cs, p[1..])
  {
    assert Lists(cs, p[0], p[0 + 1]);
    var q := p[1..];
    forall k | 0 <= k < |q| - 1 ensures Lists(cs, q[k], q[k + 1]) {
      assert Lists(cs, p[k + 1], p[k + 1 + 1]);
    }
  }

  lemma ReachesSelf(cs: seq<Entry>, t: string)
    ensures Reaches(cs, t, t)
  {
    var p := [t];
    assert |p| > 0 && p[0] == t && p[|p| - 1] == t && IsPath(cs, p);
  }

  lemma ReachesStep(cs: seq<Entry>, t: string, u: string)
    ensures Reaches(cs, t, u) <==> t == u || exists v :: Lists(cs, t, v) && Reaches(cs, v, u)
  {
    if Reaches(cs, t, u) && t != u {
      var p: seq<string> :| |p| > 0 && p[0] == t && p[|p| - 1] == u && IsPath(cs, p);
      PathTail(cs, p);
      assert p[1..][|p| - 2] == u;
      assert Reaches(cs, p[1], u);
    }
    if t == u {
      ReachesSelf(cs, t);
    } else if v :| Lists(cs, t, v) && Reaches(cs, v, u) {
      var p: seq<string> :| |p| > 0 && p[0] == v && p[|p| - 1] == u && IsPath(cs, p);
      PathCons(cs, t, p);
      var q := [t] + p;
      assert q[0] == t && q[|q| - 1] == u;
    }
  }

  // ---------------------------------------------------------------- the resolved part

  /** The bit of the leaf at index `i`, when bits are handed out from `first` on. */
  function LeafBit(cs: seq<Entry>, first: nat, i: int): nat
    requires 0 <= i <= |cs|
  {
    first + LeafCount(cs[..i])
  }

  /** `order` lists the entries resolved so far; each needs only those before it. */
  ghost predicate IsOrder(cs: seq<Entry>, order: seq<int>) {
    && (forall j :: 0 <= j < |order| ==> 0 <= order[j] < |cs|)
    && (forall j :: 0 <= j < |order| ==> order[j] !in order[..j])
    && (forall j :: 0 <= j < |order| && !IsLeaf(cs[order[j]]) ==>
          forall u :: u in cs[order[j]].condition.subConditions.value ==> Knows(cs, order[..j], u))
  }

  ghost predicate Knows(cs: seq<Entry>, order: seq<int>, t: string) {
    exists j :: 0 <= j < |order| && 0 <= order[j] < |cs| && cs[order[j]].name == t
  }

  ghost predicate IsResolved(cs: seq<Entry>, first: nat, m: FlagsMap, order: seq<int>) {
    && IsOrder(cs, order)
    && (forall t :: t in m <==> Knows(cs, order, t))
    && (forall j :: 0 <= j < |order| ==> HasFlagsOf(cs, first, m, order[j]))
  }

  ghost predicate HasFlagsOf(cs: seq<Entry>, first: nat, m: FlagsMap, i: int) {
    && 0 <= i < |cs| && cs[i].name in m
    && if IsLeaf(cs[i]) then LeafBit(cs, first, i) < 32 && m[cs[i].name] == Bit(LeafBit(cs, first, i))
       else
         var subs := cs[i].condition.subConditions.value;
         (forall u :: u in subs ==> u in m) && m[cs[i].name] == UnionOf(m, subs)
  }

  ghost predicate IsOnlyFlag(f: Flags, k: int) {
    0 <= k < 32 && forall j :: 0 <= j < 32 ==> (Has(f, j) <==> j == k)
  }

  /** A type without a list of sub-conditions has one flag; one with an empty list has none. */
  lemma FlagsOfOneType(cs: seq<Entry>, first: nat, m: FlagsMap, order: seq<int>, i: int)
    requires IsResolved(cs, first, m, order) && i in order
    ensures 0 <= i < |cs| && cs[i].name in m
    ensures cs[i].condition.subConditions == None ==>
              exists k :: IsOnlyFlag(m[cs[i].name], k)
    ensures cs[i].condition.subConditions == Some([]) ==> m[cs[i].name] == 0
  {
    hide Has, Bit, LeafBit;
    var l :| 0 <= l < |order| && order[l] == i;
    assert HasFlagsOf(cs, first, m, order[l]);
    if IsLeaf(cs[i]) {
      var k := LeafBit(cs, first, i);
      forall j | 0 <= j < 32 ensures Has(m[cs[i].name], j) <==> j == k {
        HasBit(k, j);
      }
      assert IsOnlyFlag(m[cs[i].name], k);
    }
  }

  lemma {:induction false} UnionGrows(m: FlagsMap, m': FlagsMap, types: seq<string>)
    requires forall t :: t in types ==> t in m && t in m' && m[t] == m'[t]
    ensures UnionOf(m', types) == UnionOf(m, types)
  {
    if types != [] {
      UnionGrows(m, m', types[..|types| - 1]);
    }
  }

  /** Resolving one more entry keeps everything resolved before it. */
  lemma ResolveOne(cs: seq<Entry>, first: nat, m: FlagsMap, order: seq<int>, i: int, flags: Flags)
    requires DistinctNames(cs) && IsResolved(cs, first, m, order)
    requires 0 <= i < |cs| && i !in order
    requires if IsLeaf(cs[i]) then LeafBit(cs, first, i) < 32 && flags == Bit(LeafBit(cs, first, i))
             else var subs := cs[i].condition.subConditions.value;
                  (forall u :: u in subs ==> u in m) && flags == UnionOf(m, subs)
    ensures IsResolved(cs, first, m[cs[i].name := flags], order + [i])
  {
    hide LeafBit, Bit;
    var m', order' := m[cs[i].name := flags], order + [i];
    assert cs[i].name !in m;
    forall t ensures t in m' <==> Knows(cs, order', t) {
      KnowsMore(cs, order, i, t);
    }
    forall j | 0 <= j < |order'| ensures HasFlagsOf(cs, first, m', order'[j]) {
      if !IsLeaf(cs[order'[j]]) {
        var subs := cs[order'[j]].condition.subConditions.value;
        assert forall u :: u in subs ==> u in m;
        UnionGrows(m, m', subs);
      }
    }
    forall j | 0 <= j < |order'| ensures order'[..j] == order[..j] {
    }
  }

  lemma KnowsMore(cs: seq<Entry>, order: seq<int>, i: int, t: string)
    requires 0 <= i < |cs|
    ensures Knows(cs, order + [i], t) <==> Knows(cs, order, t) || t == cs[i].name
  {
    var order' := order + [i];
    if Knows(cs, order, t) {
      var j :| 0 <= j < |order| && 0 <= order[j] < |cs| && cs[order[j]].name == t;
      assert order'[j] == order[j];
    }
    assert order'[|order|] == i;
  }

  // ---------------------------------------------------------------- a full order means a good hierarchy

  ghost predicate IsFull(cs: seq<Entry>, order: seq<int>) {
    forall i :: 0 <= i < |cs| ==> i in order
  }

  /** A listed type was resolved before the type that lists it. */
  lemma ListedEarlier(cs: seq<Entry>, order: seq<int>, j: int, u: string)
    requires DistinctNames(cs) && IsOrder(cs, order)
    requires 0 <= j < |order| && Lists(cs, cs[order[j]].name, u)
    ensures exists k :: 0 <= k < j && cs[order[k]].name == u
  {
    var i :| 0 <= i < |cs| && cs[i].name == cs[order[j]].name && !IsLeaf(cs[i])
             && u in cs[i].condition.subConditions.value;
    assert i == order[j];
    assert Knows(cs, order[..j], u);
    var k :| 0 <= k < j && cs[order[..j][k]].name == u;
    assert order[..j][k] == order[k];
  }

  /** Along a path the positions in the order go down. */
  lemma {:induction false} PathDescends(cs: seq<Entry>, order: seq<int>, p: seq<string>, j: int) returns (k: int)
    requires DistinctNames(cs) && IsOrder(cs, order)
    requires |p| > 1 && IsPath(cs, p) && 0 <= j < |order| && cs[order[j]].name == p[0]
    ensures 0 <= k < j && cs[order[k]].name == p[|p| - 1]
  {
    PathTail(cs, p);
    ListedEarlier(cs, order, j, p[1]);
    k :| 0 <= k < j && cs[order[k]].name == p[1];
    if |p| > 2 {
      assert p[1..][0] == p[1] && p[1..][|p| - 2] == p[|p| - 1];
      k := PathDescends(cs, order, p[1..], k);
    }
  }

  lemma FullMeansGood(cs: seq<Entry>, order: seq<int>)
    requires DistinctNames(cs) && IsOrder(cs, order) && IsFull(cs, order)
    ensures AllDefined(cs) && Acyclic(cs)
  {
    forall t, u | Lists(cs, t, u) ensures u in Names(cs) {
      var i :| 0 <= i < |cs| && cs[i].name == t && !IsLeaf(cs[i]);
      assert i in order;
      var j :| 0 <= j < |order| && order[j] == i;
      ListedEarlier(cs, order, j, u);
    }
    forall p: seq<string> | |p| > 1 && IsPath(cs, p) ensures p[0] != p[|p| - 1] {
      PathTail(cs, p);
      var i :| 0 <= i < |cs| && cs[i].name == p[0];
      assert i in order;
      var j :| 0 <= j < |order| && order[j] == i;
      var k := PathDescends(cs, order, p, j);
      assert order[k] in order[..j] && order[j] !in order[..j];
    }
  }

  // ---------------------------------------------------------------- a round without progress means a bad one

  ghost predicate IsBlocked(cs: seq<Entry>, m: FlagsMap, q: int) {
    && 0 <= q < |cs| && !IsLeaf(cs[q])
    && exists u :: u in cs[q].condition.subConditions.value && u !in m
  }

  ghost predicate AllBlocked(cs: seq<Entry>, m: FlagsMap, left: seq<int>) {
    forall q :: q in left ==> IsBlocked(cs, m, q)
  }

  /** Every entry that is left lists a type that is not resolved. */
  ghost predicate IsStuck(cs: seq<Entry>, m: FlagsMap, left: seq<int>) {
    && |left| > 0
    && AllBlocked(cs, m, left)
    && (forall i :: 0 <= i < |cs| && i !in left ==> cs[i].name in m)
  }

  lemma {:induction false} StuckPath(cs: seq<Entry>, m: FlagsMap, left: seq<int>, n: nat)
      returns (p: seq<string>, ids: seq<int>)
    requires IsStuck(cs, m, left) && AllDefined(cs)
    ensures |p| == |ids| == n + 1 && IsPath(cs, p)
    ensures forall k :: 0 <= k <= n ==> ids[k] in left && 0 <= ids[k] < |cs| && cs[ids[k]].name == p[k]
  {
    if n == 0 {
      assert left[0] in left;
      ids := [left[0]];
      p := [cs[left[0]].name];
    } else {
      p, ids := StuckPath(cs, m, left, n - 1);
      var q := ids[n - 1];
      var u :| u in cs[q].condition.subConditions.value && u !in m;
      assert Lists(cs, p[n - 1], u);
      assert u in Names(cs);
      var i :| 0 <= i < |cs| && cs[i].name == u;
      assert i in left;
      var p' := p + [u];
      forall k | 0 <= k < |p'| - 1 ensures Lists(cs, p'[k], p'[k + 1]) {
        if k < n - 1 { assert Lists(cs, p[k], p[k + 1]); }
      }
      p, ids := p', ids + [i];
    }
  }

  lemma {:induction false} Pigeonhole(ids: seq<int>, n: nat) returns (i: int, j: int)
    requires |ids| > n && forall k :: 0 <= k < |ids| ==> 0 <= ids[k] < n
    ensures 0 <= i < j < |ids| && ids[i] == ids[j]
    decreases n
  {
    var last := |ids| - 1;
    var x := ids[last];
    if k :| 0 <= k < last && ids[k] == ids[last] {
      i, j := k, last;
    } else {
      // no other id equals the last one: rename n - 1 to it and drop it
      var renamed := seq(last, k requires 0 <= k < last => if ids[k] == n - 1 then ids[last] else ids[k]);
      assert forall k :: 0 <= k < last ==> 0 <= renamed[k] < n - 1 by {
        assert forall k :: 0 <= k < last ==> ids[k] != ids[last];
      }
      i, j := Pigeonhole(renamed, n - 1);
    }
  }

  lemma StuckMeansBad(cs: seq<Entry>, m: FlagsMap, left: seq<int>)
    requires IsStuck(cs, m, left)
    ensures !(AllDefined(cs) && Acyclic(cs))
  {
    if AllDefined(cs) {
      var p, ids := StuckPath(cs, m, left, |cs|);
      var i, j := Pigeonhole(ids, |cs|);
      var cycle := p[i..j + 1];
      forall k | 0 <= k < |cycle| - 1 ensures Lists(cs, cycle[k], cycle[k + 1]) {
        assert Lists(cs, p[i + k], p[i + k + 1]);
      }
      assert |cycle| > 1 && IsPath(cs, cycle) && cycle[0] == cycle[|cycle| - 1];
    }
  }

  // ---------------------------------------------------------------- the resolver

  lemma LeafCountPrefix(cs: seq<Entry>, i: int)
    requires 0 <= i < |cs|
    ensures LeafCount(cs[..i + 1]) == LeafCount(cs[..i]) + (if IsLeaf(cs[i]) then 1 else 0)
    ensures LeafCount(cs[..i + 1]) <= LeafCount(cs)
    decreases |cs| - i
  {
    assert cs[..i + 1][..i] == cs[..i];
    if i + 1 < |cs| {
      LeafCountPrefix(cs, i + 1);
    } else {
      assert cs[..i + 1] == cs;
    }
  }

  /** The entries that one round has still to look at, or has put off. */
  ghost predicate IsSelection(cs: seq<Entry>, ids: seq<int>, targets: seq<Entry>) {
    |ids| == |targets| && forall k :: 0 <= k < |ids| ==> 0 <= ids[k] < |cs| && targets[k] == cs[ids[k]]
  }

  /** Every entry is resolved, put off, or waiting. */
  ghost predicate IsCovered(cs: seq<Entry>, order: seq<int>, later: seq<int>, waiting: seq<int>) {
    && (forall i :: 0 <= i < |cs| ==> i in order || i in later || i in waiting)
    && (forall k :: 0 <= k < |later| ==> later[k] !in order)
    && (forall k :: 0 <= k < |waiting| ==> waiting[k] !in order && waiting[k] !in waiting[..k])
    && (forall k :: 0 <= k < |later| ==> later[k] !in waiting && later[k] !in later[..k])
  }

  lemma NotResolved(cs: seq<Entry>, first: nat, m: FlagsMap, order: seq<int>, left: seq<int>)
    requires IsResolved(cs, first, m, order) && IsCovered(cs, order, left, [])
    ensures forall i :: 0 <= i < |cs| && i !in left ==> cs[i].name in m
  {
    forall i | 0 <= i < |cs| && i !in left ensures cs[i].name in m {
      assert i in order;
      var j :| 0 <= j < |order| && order[j] == i;
      assert Knows(cs, order, cs[i].name);
    }
  }

  lemma KeysAreNames(cs: seq<Entry>, first: nat, m: FlagsMap, order: seq<int>)
    requires IsResolved(cs, first, m, order) && IsFull(cs, order)
    ensures m.Keys == Names(cs)
  {
    NotResolved(cs, first, m, order, []);
  }

  lemma CoverStart(cs: seq<Entry>)
    ensures IsCovered(cs, [], [], seq(|cs|, k => k)) && IsSelection(cs, seq(|cs|, k => k), cs)
  {
    var ids := seq(|cs|, k => k);
    forall i | 0 <= i < |cs| ensures i in ids {
      assert ids[i] == i;
    }
  }

  /** The next waiting entry is resolved, or put off. */
  lemma CoverStep(cs: seq<Entry>, order: seq<int>, later: seq<int>, waiting: seq<int>)
    requires IsCovered(cs, order, later, waiting) && waiting != []
    ensures IsCovered(cs, order + [waiting[0]], later, waiting[1..])
    ensures IsCovered(cs, order, later + [waiting[0]], waiting[1..])
    ensures waiting[0] !in order
  {
    var w, rest := waiting[0], waiting[1..];
    forall k | 0 <= k < |rest| ensures rest[k] == waiting[k + 1] && rest[k] != w && rest[k] !in rest[..k] {
      assert waiting[..k + 1] == [w] + rest[..k];
    }
    assert waiting == [w] + rest;
    assert w in waiting;
  }

  lemma CoverNext(cs: seq<Entry>, order: seq<int>, later: seq<int>)
    requires IsCovered(cs, order, later, [])
    ensures IsCovered(cs, order, [], later)
  {
  }

  lemma SelectMore(cs: seq<Entry>, ids: seq<int>, targets: seq<Entry>, i: int)
    requires IsSelection(cs, ids, targets) && 0 <= i < |cs|
    ensures IsSelection(cs, ids + [i], targets + [cs[i]])
  {
  }

  /** One target of a round. */
  ghost predicate IsRound(first: bool, k: int, ids: seq<int>, waiting: seq<int>) {
    && 0 <= k <= |ids| && waiting == ids[k..]
    && (first ==> forall j :: 0 <= j < |ids| ==> ids[j] == j)
  }

  lemma NextInRound(first: bool, k: int, ids: seq<int>, waiting: seq<int>)
    requires IsRound(first, k, ids, waiting) && k < |ids|
    ensures waiting != [] && waiting[0] == ids[k] && (first ==> ids[k] == k)
    ensures IsRound(first, k + 1, ids, waiting[1..]) && ids[..k] + [ids[k]] == ids[..k + 1]
  {
  }

  /** The state of the resolver between two rounds; `ids` are the positions of the targets. */
  ghost predicate IsBetweenRounds(cs: seq<Entry>, start: nat, first: bool, ids: seq<int>, targets: seq<Entry>,
                                  m: FlagsMap, order: seq<int>, next: nat) {
    && IsSelection(cs, ids, targets) && IsCovered(cs, order, [], ids)
    && IsResolved(cs, start, m, order)
    && (first ==> targets == cs && next == start <= 32 && ids == seq(|cs|, k => k))
    && (!first ==> next == start + LeafCount(cs) <= 32 && forall k :: 0 <= k < |targets| ==> !IsLeaf(targets[k]))
  }

  /** Where a round has got to: the positions still waiting and those put off, and the flags it started with. */
  datatype Round = Round(first: bool, ids: seq<int>, waiting: seq<int>, later: seq<int>, before: FlagsMap)

  ghost predicate IsInRound(cs: seq<Entry>, start: nat, r: Round, targets: seq<Entry>, k: nat, nextTargets: seq<Entry>,
                            m: FlagsMap, order: seq<int>, next: nat) {
    && k <= |targets|
    && IsSelection(cs, r.ids, targets) && IsSelection(cs, r.later, nextTargets) && |nextTargets| <= k
    && IsCovered(cs, order, r.later, r.waiting) && IsRound(r.first, k, r.ids, r.waiting)
    && IsResolved(cs, start, m, order)
    && (r.first ==> k <= |cs| && targets == cs && next == LeafBit(cs, start, k) <= 32)
    && (!r.first ==> next == start + LeafCount(cs) <= 32 && forall j :: 0 <= j < |targets| ==> !IsLeaf(targets[j]))
    && (forall j :: 0 <= j < |nextTargets| ==> !IsLeaf(nextTargets[j]))
    && (|nextTargets| == k ==> m == r.before && r.later == r.ids[..k] && AllBlocked(cs, r.before, r.later))
  }

  method GetConditionFlagsMap(conditions: seq<Entry>, nextFlagIndex: nat)
      returns (r: Result<(FlagsMap, nat)>, ghost order: seq<int>)
    requires DistinctNames(conditions) && nextFlagIndex <= 32
    ensures r.Success? <==> AllDefined(conditions) && Acyclic(conditions)
                            && nextFlagIndex + LeafCount(conditions) <= 32
    ensures r.Success? ==> r.value.1 == nextFlagIndex + LeafCount(conditions)
    ensures r.Success? ==> r.value.0.Keys == Names(conditions)
    ensures r.Success? ==> IsResolved(conditions, nextFlagIndex, r.value.0, order) && IsFull(conditions, order)
  {
    hide IsBetweenRounds, IsInRound, IsResolved, AllDefined, Acyclic, IsFull, DistinctNames, Names, Bit,
        UnionOf, LeafCount;
    var flagsMap: FlagsMap := map[];
    var next := nextFlagIndex;
    var targets := conditions;
    order := [];
    ghost var ids := seq(|conditions|, k => k);
    ghost var first := true;
    FirstRound(conditions, nextFlagIndex);
    while |targets| > 0
      invariant IsBetweenRounds(conditions, nextFlagIndex, first, ids, targets, flagsMap, order, next)
      decreases |targets|
    {
      var nextTargets: seq<Entry> := [];
      ghost var round := Round(first, ids, ids, [], flagsMap);
      RoundBegins(conditions, nextFlagIndex, first, ids, targets, flagsMap, order, next);
      for k := 0 to |targets|
        invariant IsInRound(conditions, nextFlagIndex, round, targets, k, nextTargets, flagsMap, order, next)
      {
        var target := targets[k];
        var flags: Flags := 0;
        TargetAt(conditions, nextFlagIndex, round, targets, k, nextTargets, flagsMap, order, next);
        ghost var i := round.ids[k];
        if target.condition.subConditions.None? {
          if next >= 32 {
            r := Failure("Maximum number of conditions was exceeded");
            return;
          }
          flags := Bit(next);
          next := next + 1;
        } else {
          var multiFlags := GetConditionFlagsStrict(flagsMap, target.condition.subConditions.value);
          if multiFlags.None? {
            TargetWaits(conditions, nextFlagIndex, round, targets, k, nextTargets, flagsMap, order, next);
            nextTargets := nextTargets + [target];
            round := round.(waiting := round.waiting[1..], later := round.later + [i]);
            continue;
          } else {
            flags := multiFlags.value;
          }
        }
        TargetResolved(conditions, nextFlagIndex, round, targets, k, nextTargets, flagsMap, order,
          if target.condition.subConditions.None? then next - 1 else next, flags);
        flagsMap := flagsMap[target.name := flags];
        order := order + [i];
        round := round.(waiting := round.waiting[1..]);
      }
      if |nextTargets| == |targets| {
        RoundIsStuck(conditions, nextFlagIndex, round, targets, nextTargets, flagsMap, order, next);
        r := Failure("Maximum number of conditions was exceeded");
        return;
      }
      RoundEnds(conditions, nextFlagIndex, round, targets, nextTargets, flagsMap, order, next);
      targets := nextTargets;
      ids := round.later;
      first := false;
    }
    NothingIsLeft(conditions, nextFlagIndex, first, ids, targets, flagsMap, order, next);
    r := Success((flagsMap, next));
  }

  lemma FirstRound(cs: seq<Entry>, start: nat)
    requires start <= 32
    ensures IsBetweenRounds(cs, start, true, seq(|cs|, k => k), cs, map[], [], start)
  {
    hide IsCovered, IsResolved, IsSelection, LeafCount;
    CoverStart(cs);
    NothingResolved(cs, start);
  }

  lemma RoundBegins(cs: seq<Entry>, start: nat, first: bool, ids: seq<int>, targets: seq<Entry>, m: FlagsMap,
      order: seq<int>, next: nat)
    requires IsBetweenRounds(cs, start, first, ids, targets, m, order, next)
    ensures IsInRound(cs, start, Round(first, ids, ids, [], m), targets, 0, [], m, order, next)
  {
    hide IsCovered, IsResolved, AllBlocked, LeafBit, LeafCount, IsRound;
    SelectNone(cs, ids, targets);
    RoundStart(first, ids);
    NoneBlocked(cs, m);
    LeafBitStart(cs, start);
  }

  /** The next target is the entry that waits first. */
  lemma TargetAt(cs: seq<Entry>, start: nat, r: Round, targets: seq<Entry>, k: nat, nextTargets: seq<Entry>,
      m: FlagsMap, order: seq<int>, next: nat)
    requires IsInRound(cs, start, r, targets, k, nextTargets, m, order, next) && k < |targets|
    ensures k < |r.ids| && 0 <= r.ids[k] < |cs| && targets[k] == cs[r.ids[k]] && r.waiting != []
    ensures IsLeaf(targets[k]) && next >= 32 ==> start + LeafCount(cs) > 32
    ensures next <= 32
  {
    hide IsCovered, IsResolved, AllBlocked, LeafBit, LeafCount;
    SelectAt(cs, r.ids, targets, k);
    if r.first { LeafBitNext(cs, start, k); }
  }

  /** A target with a missing sub-condition is put off. */
  lemma TargetWaits(cs: seq<Entry>, start: nat, r: Round, targets: seq<Entry>, k: nat, nextTargets: seq<Entry>,
      m: FlagsMap, order: seq<int>, next: nat)
    requires IsInRound(cs, start, r, targets, k, nextTargets, m, order, next) && k < |targets|
    requires !IsLeaf(targets[k]) && exists u :: u in targets[k].condition.subConditions.value && u !in m
    ensures |r.ids| == |targets| && r.waiting != [] &&
      IsInRound(cs, start, r.(waiting := r.waiting[1..], later := r.later + [r.ids[k]]), targets, k + 1,
          nextTargets + [targets[k]], m, order, next)
  {
    hide IsCovered, IsResolved, AllBlocked, IsBlocked, LeafBit, LeafCount, IsRound, IsSelection;
    SelectAt(cs, r.ids, targets, k);
    SelectNone(cs, r.later, nextTargets);
    NextInRound(r.first, k, r.ids, r.waiting);
    CoverStep(cs, order, r.later, r.waiting);
    SelectMore(cs, r.later, nextTargets, r.ids[k]);
    BlockedIs(cs, m, r.ids[k]);
    BlockedMore(cs, m, r.later, r.ids[k]);
    if r.first { LeafBitNext(cs, start, k); }
  }

  /** A leaf takes the next bit, any other target the union of its sub-conditions. */
  lemma TargetResolved(cs: seq<Entry>, start: nat, r: Round, targets: seq<Entry>, k: nat, nextTargets: seq<Entry>,
      m: FlagsMap, order: seq<int>, next: nat, flags: Flags)
    requires DistinctNames(cs) && IsInRound(cs, start, r, targets, k, nextTargets, m, order, next) && k < |targets|
    requires if IsLeaf(targets[k]) then next < 32 && flags == Bit(next)
             else var subs := targets[k].condition.subConditions.value;
                  (forall u :: u in subs ==> u in m) && flags == UnionOf(m, subs)
    ensures |r.ids| == |targets| && r.waiting != [] &&
      IsInRound(cs, start, r.(waiting := r.waiting[1..]), targets, k + 1, nextTargets, m[targets[k].name := flags],
          order + [r.ids[k]], if IsLeaf(targets[k]) then next + 1 else next)
  {
    hide IsCovered, IsResolved, AllBlocked, IsBlocked, LeafBit, LeafCount, IsRound, IsSelection, Bit,
        UnionOf, DistinctNames;
    SelectAt(cs, r.ids, targets, k);
    NextInRound(r.first, k, r.ids, r.waiting);
    CoverStep(cs, order, r.later, r.waiting);
    if r.first { LeafBitNext(cs, start, k); }
    ResolveOne(cs, start, m, order, r.ids[k], flags);
  }

  lemma RoundIsStuck(cs: seq<Entry>, start: nat, r: Round, targets: seq<Entry>, nextTargets: seq<Entry>, m: FlagsMap,
      order: seq<int>, next: nat)
    requires IsInRound(cs, start, r, targets, |targets|, nextTargets, m, order, next) && |nextTargets| == |targets| > 0
    ensures !(AllDefined(cs) && Acyclic(cs))
  {
    hide IsCovered, IsResolved, AllBlocked, IsBlocked, LeafBit, LeafCount, IsRound, IsSelection, AllDefined, Acyclic;
    SelectNone(cs, r.ids, targets);
    RoundEnd(r.first, r.ids, r.waiting);
    NotResolved(cs, start, m, order, r.ids);
    StuckMeansBad(cs, m, r.ids);
  }

  lemma RoundEnds(cs: seq<Entry>, start: nat, r: Round, targets: seq<Entry>, nextTargets: seq<Entry>, m: FlagsMap,
      order: seq<int>, next: nat)
    requires IsInRound(cs, start, r, targets, |targets|, nextTargets, m, order, next)
    ensures |nextTargets| <= |targets| && IsBetweenRounds(cs, start, false, r.later, nextTargets, m, order, next)
  {
    hide IsCovered, IsResolved, AllBlocked, LeafBit, LeafCount, IsRound, IsSelection;
    SelectNone(cs, r.ids, targets);
    RoundEnd(r.first, r.ids, r.waiting);
    LeafBitEnd(cs, start);
    CoverNext(cs, order, r.later);
  }

  lemma NothingIsLeft(cs: seq<Entry>, start: nat, first: bool, ids: seq<int>, targets: seq<Entry>, m: FlagsMap,
      order: seq<int>, next: nat)
    requires DistinctNames(cs) && IsBetweenRounds(cs, start, first, ids, targets, m, order, next) && targets == []
    ensures AllDefined(cs) && Acyclic(cs) && next == start + LeafCount(cs) <= 32
    ensures m.Keys == Names(cs) && IsResolved(cs, start, m, order) && IsFull(cs, order)
  {
    hide IsCovered, IsResolved, LeafBit, LeafCount, IsSelection, AllDefined, Acyclic, IsFull, Names, DistinctNames;
    SelectNone(cs, ids, targets);
    LeafBitStart(cs, start);
    LeafBitEnd(cs, start);
    AllCovered(cs, order);
    ResolvedIsOrder(cs, start, m, order);
    FullMeansGood(cs, order);
    KeysAreNames(cs, start, m, order);
  }

  lemma SelectNone(cs: seq<Entry>, ids: seq<int>, targets: seq<Entry>)
    requires IsSelection(cs, ids, targets)
    ensures |ids| == |targets| && IsSelection(cs, [], [])
  {
  }

  lemma SelectAt(cs: seq<Entry>, ids: seq<int>, targets: seq<Entry>, k: nat)
    requires IsSelection(cs, ids, targets) && k < |targets|
    ensures |ids| == |targets| && 0 <= ids[k] < |cs| && targets[k] == cs[ids[k]]
  {
  }

  lemma LeafBitNext(cs: seq<Entry>, first: nat, k: nat)
    requires k < |cs|
    ensures LeafBit(cs, first, k + 1) == LeafBit(cs, first, k) + (if IsLeaf(cs[k]) then 1 else 0)
    ensures LeafBit(cs, first, k + 1) <= first + LeafCount(cs)
  {
    LeafCountPrefix(cs, k);
  }

  lemma BlockedIs(cs: seq<Entry>, m: FlagsMap, q: int)
    requires 0 <= q < |cs| && !IsLeaf(cs[q])
    requires exists u :: u in cs[q].condition.subConditions.value && u !in m
    ensures IsBlocked(cs, m, q)
  {
  }

  lemma BlockedMore(cs: seq<Entry>, m: FlagsMap, left: seq<int>, q: int)
    requires IsBlocked(cs, m, q)
    ensures AllBlocked(cs, m, left) ==> AllBlocked(cs, m, left + [q])
  {
  }

  lemma NoneBlocked(cs: seq<Entry>, m: FlagsMap)
    ensures AllBlocked(cs, m, [])
  {
  }

  lemma LeafBitStart(cs: seq<Entry>, first: nat)
    ensures LeafBit(cs, first, 0) == first
  {
  }

  lemma LeafBitEnd(cs: seq<Entry>, first: nat)
    ensures LeafBit(cs, first, |cs|) == first + LeafCount(cs)
  {
    assert cs[..|cs|] == cs;
  }

  lemma NothingResolved(cs: seq<Entry>, first: nat)
    ensures IsResolved(cs, first, map[], [])
  {
  }

  lemma RoundStart(first: bool, ids: seq<int>)
    requires first ==> ids == seq(|ids|, k => k)
    ensures IsRound(first, 0, ids, ids) && ids[..0] == []
  {
  }

  lemma RoundEnd(first: bool, ids: seq<int>, waiting: seq<int>)
    requires IsRound(first, |ids|, ids, waiting)
    ensures waiting == [] && ids[..|ids|] == ids
  {
  }

  lemma AllCovered(cs: seq<Entry>, order: seq<int>)
    requires IsCovered(cs, order, [], [])
    ensures IsFull(cs, order)
  {
  }

  lemma ResolvedIsOrder(cs: seq<Entry>, first: nat, m: FlagsMap, order: seq<int>)
    requires IsResolved(cs, first, m, order)
    ensures IsOrder(cs, order)
  {
  }

  // ---------------------------------------------------------------- what the flags mean

  /** Leaf `i` is `t` or below it, and has bit `k`. */
  ghost predicate IsLeafBelow(cs: seq<Entry>, first: nat, t: string, i: int, k: nat) {
    0 <= i < |cs| && IsLeaf(cs[i]) && LeafBit(cs, first, i) == k && Reaches(cs, t, cs[i].name)
  }

  /** A type's flags are exactly the bits of the leaves it reaches. */
  lemma {:induction false} FlagsAreLeaves(cs: seq<Entry>, first: nat, m: FlagsMap, order: seq<int>, j: int, k: nat)
    requires DistinctNames(cs) && IsResolved(cs, first, m, order) && 0 <= j < |order| && k < 32
    ensures var t := cs[order[j]].name;
            Has(m[t], k) <==> exists i :: IsLeafBelow(cs, first, t, i, k)
    decreases j
  {
    hide Has, Bit, Or, Reaches, LeafBit;
    var e := cs[order[j]];
    assert HasFlagsOf(cs, first, m, order[j]);
    if IsLeaf(e) {
      LeafFlags(cs, first, m, order[j], k);
    } else {
      var subs := e.condition.subConditions.value;
      UnionHas(m, subs, k);
      forall u | u in subs ensures Has(m[u], k) <==> exists i :: IsLeafBelow(cs, first, u, i, k) {
        assert Lists(cs, e.name, u);
        ListedEarlier(cs, order, j, u);
        var l :| 0 <= l < j && cs[order[l]].name == u;
        FlagsAreLeaves(cs, first, m, order, l, k);
      }
      LeavesBelowSubs(cs, first, order[j], k);
    }
  }

  lemma LeafFlags(cs: seq<Entry>, first: nat, m: FlagsMap, e: int, k: nat)
    requires DistinctNames(cs) && HasFlagsOf(cs, first, m, e) && IsLeaf(cs[e]) && k < 32
    ensures Has(m[cs[e].name], k) <==> exists i :: IsLeafBelow(cs, first, cs[e].name, i, k)
  {
    hide Has, Bit, Or, Reaches, LeafBit;
    HasBit(LeafBit(cs, first, e), k);
    ReachesSelf(cs, cs[e].name);
    if LeafBit(cs, first, e) == k {
      assert IsLeafBelow(cs, first, cs[e].name, e, k);
    }
    if i :| IsLeafBelow(cs, first, cs[e].name, i, k) {
      ReachesStep(cs, cs[e].name, cs[i].name);
      assert i == e;
    }
  }

  lemma LeavesBelowSubs(cs: seq<Entry>, first: nat, e: int, k: nat)
    requires DistinctNames(cs) && 0 <= e < |cs| && !IsLeaf(cs[e])
    ensures (exists i :: IsLeafBelow(cs, first, cs[e].name, i, k))
            <==> exists u, i :: u in cs[e].condition.subConditions.value && IsLeafBelow(cs, first, u, i, k)
  {
    hide Reaches, LeafBit;
    if i :| IsLeafBelow(cs, first, cs[e].name, i, k) {
      ReachesStep(cs, cs[e].name, cs[i].name);
      var u :| Lists(cs, cs[e].name, u) && Reaches(cs, u, cs[i].name);
      assert IsLeafBelow(cs, first, u, i, k);
    }
    if u, i :| u in cs[e].condition.subConditions.value && IsLeafBelow(cs, first, u, i, k) {
      assert Lists(cs, cs[e].name, u);
      ReachesStep(cs, cs[e].name, cs[i].name);
      assert IsLeafBelow(cs, first, cs[e].name, i, k);
    }
  }

  /** Every leaf has its own bit, not used before. */
  lemma LeafBitsAreFresh(cs: seq<Entry>, first: nat, i: int, j: int)
    requires 0 <= i < j < |cs| && IsLeaf(cs[i])
    ensures first <= LeafBit(cs, first, i) < LeafBit(cs, first, j)
  {
    LeafCountPrefix(cs[..j], i);
    assert cs[..j][..i + 1] == cs[..i + 1] && cs[..j][..i] == cs[..i];
  }

  /** `conditionsMatch`: no current condition, or a shared flag. */
  predicate ConditionsMatch(currentConditions: Flags, nextConditions: Flags) {
    currentConditions == 0 || And(currentConditions, nextConditions) != 0
  }

  /** Leaf `i` is below one of the listed types. */
  ghost predicate LeafUnder(cs: seq<Entry>, types: seq<string>, i: int) {
    0 <= i < |cs| && IsLeaf(cs[i]) && exists t :: t in types && Reaches(cs, t, cs[i].name)
  }

  lemma UnionIsLeaves(cs: seq<Entry>, first: nat, m: FlagsMap, order: seq<int>, types: seq<string>, k: nat)
    requires DistinctNames(cs) && IsResolved(cs, first, m, order) && k < 32
    requires forall t :: t in types ==> t in m
    ensures Has(UnionOf(m, types), k) <==> exists i :: LeafUnder(cs, types, i) && LeafBit(cs, first, i) == k
  {
    hide Has, Bit, Or, Reaches, LeafBit;
    UnionHas(m, types, k);
    forall t | t in types ensures Has(m[t], k) <==> exists i :: IsLeafBelow(cs, first, t, i, k) {
      assert Knows(cs, order, t);
      var j :| 0 <= j < |order| && cs[order[j]].name == t;
      FlagsAreLeaves(cs, first, m, order, j, k);
    }
    if t :| t in types && Has(m[t], k) {
      var i :| IsLeafBelow(cs, first, t, i, k);
      assert LeafUnder(cs, types, i);
    }
    if i :| LeafUnder(cs, types, i) && LeafBit(cs, first, i) == k {
      var t :| t in types && Reaches(cs, t, cs[i].name);
      assert IsLeafBelow(cs, first, t, i, k);
    }
  }

  lemma LeafBitFits(cs: seq<Entry>, first: nat, m: FlagsMap, order: seq<int>, i: int)
    requires IsResolved(cs, first, m, order) && IsFull(cs, order) && 0 <= i < |cs| && IsLeaf(cs[i])
    ensures LeafBit(cs, first, i) < 32
  {
    assert i in order;
    var j :| 0 <= j < |order| && order[j] == i;
    assert HasFlagsOf(cs, first, m, order[j]);
  }

  lemma SameBitSameLeaf(cs: seq<Entry>, first: nat, i: int, j: int)
    requires 0 <= i < |cs| && 0 <= j < |cs| && IsLeaf(cs[i]) && IsLeaf(cs[j])
    requires LeafBit(cs, first, i) == LeafBit(cs, first, j)
    ensures i == j
  {
    if i < j { LeafBitsAreFresh(cs, first, i, j); }
    if j < i { LeafBitsAreFresh(cs, first, j, i); }
  }

  /** Two lists of types match, the first one not being empty of flags, exactly when some leaf is below both. */
  lemma MatchMeansSharedLeaf(cs: seq<Entry>, first: nat, m: FlagsMap, order: seq<int>, xs: seq<string>, ys: seq<string>)
    requires DistinctNames(cs) && IsResolved(cs, first, m, order) && IsFull(cs, order)
    requires (forall t :: t in xs ==> t in m) && (forall t :: t in ys ==> t in m)
    ensures var f, g := UnionOf(m, xs), UnionOf(m, ys);
            f != 0 ==> (ConditionsMatch(f, g) <==> exists i :: LeafUnder(cs, xs, i) && LeafUnder(cs, ys, i))
  {
    hide Has, Bit, Or, And, Reaches, LeafBit, IsResolved;
    var f, g := UnionOf(m, xs), UnionOf(m, ys);
    if And(f, g) != 0 {
      var k := SomeFlag(And(f, g));
      HasAnd(f, g, k);
      UnionIsLeaves(cs, first, m, order, xs, k);
      UnionIsLeaves(cs, first, m, order, ys, k);
      var i :| LeafUnder(cs, xs, i) && LeafBit(cs, first, i) == k;
      var j :| LeafUnder(cs, ys, j) && LeafBit(cs, first, j) == k;
      LeafUnderIsLeaf(cs, xs, i);
      LeafUnderIsLeaf(cs, ys, j);
      SameBitSameLeaf(cs, first, i, j);
    }
    if i :| LeafUnder(cs, xs, i) && LeafUnder(cs, ys, i) {
      LeafUnderIsLeaf(cs, xs, i);
      LeafBitFits(cs, first, m, order, i);
      var k := LeafBit(cs, first, i);
      UnionIsLeaves(cs, first, m, order, xs, k);
      UnionIsLeaves(cs, first, m, order, ys, k);
      HasAnd(f, g, k);
      HasMeansNonzero(And(f, g), k);
    }
  }

  lemma LeafUnderIsLeaf(cs: seq<Entry>, types: seq<string>, i: int)
    requires LeafUnder(cs, types, i)
    ensures 0 <= i < |cs| && IsLeaf(cs[i])
  {
  }

  lemma HasMeansNonzero(f: Flags, k: nat)
    requires k < 32 && Has(f, k)
    ensures f != 0
  {
    HasNothing(k);
  }
}
