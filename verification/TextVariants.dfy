/** Capped compositions of text processors: `getVariants` and `generateDiacriticVariants`. */
module TextVariants {

  /** The ids of the processors that changed a text, in processor order. */
  type Chain = seq<string>

  datatype Processor = Processor(id: string, process: string -> seq<string>)

  /** An entry of the ordered map from texts to the chains that lead to them. */
  datatype Variant = Variant(text: string, chains: seq<Chain>)

  type Variants = seq<Variant>

  function Min(a: nat, b: nat): nat { if a <= b then a else b }

  /** `array.slice(0, n)` */
  function Take<T>(s: seq<T>, n: nat): (r: seq<T>)
    ensures |r| == Min(|s|, n)
  {
    s[..Min(|s|, n)]
  }

  predicate DistinctTexts(vs: Variants) {
    forall i, j :: 0 <= i < j < |vs| ==> vs[i].text != vs[j].text
  }

  ghost function TextsOf(vs: Variants): set<string> { set i | 0 <= i < |vs| :: vs[i].text }

  /** The position of a key, or -1. */
  function IndexOf(vs: Variants, text: string): (i: int)
    ensures -1 <= i < |vs|
    ensures i >= 0 ==> vs[i].text == text
    ensures i < 0 ==> forall j :: 0 <= j < |vs| ==> vs[j].text != text
  {
    if vs == [] then -1
    else if vs[|vs| - 1].text == text then |vs| - 1
    else IndexOf(vs[..|vs| - 1], text)
  }

  /** `map.get(text) || []` */
  function Get(vs: Variants, text: string): seq<Chain> {
    var i := IndexOf(vs, text);
    if i >= 0 then vs[i].chains else []
  }

  /** `map.set(text, chains)`: an old key keeps its place, a new one goes to the end. */
  function Put(vs: Variants, text: string, chains: seq<Chain>): Variants {
    var i := IndexOf(vs, text);
    if i >= 0 then vs[i := Variant(text, chains)] else vs + [Variant(text, chains)]
  }

  function AddId(chain: Chain, id: string): Chain { chain + [id] }

  /** The chains of `processed`, reached from `variant`: longer by one id when the text changed. */
  function NextChains(variant: Variant, processed: string, id: string): seq<Chain> {
    if processed == variant.text then variant.chains
    else seq(|variant.chains|, i requires 0 <= i < |variant.chains| => AddId(variant.chains[i], id))
  }

  /** One step of the innermost loop. */
  function Record(next: Variants, variant: Variant, processed: string, id: string, maxVariants: nat): Variants {
    Put(next, processed, Take(Get(next, processed) + NextChains(variant, processed, id), maxVariants))
  }

  // ---------------------------------------------------------------- what a map of variants keeps

  /** Chain `c` of text `w` comes from a chain of some entry of `vs`. */
  ghost predicate ComesFrom(vs: Variants, processor: Processor, w: string, c: Chain) {
    exists i, k :: 0 <= i < |vs| && 0 <= k < |vs[i].chains| && w in processor.process(vs[i].text)
                   && c == if w == vs[i].text then vs[i].chains[k] else AddId(vs[i].chains[k], processor.id)
  }

  ghost predicate AllComeFrom(vs: Variants, processor: Processor, next: Variants) {
    forall j, k :: 0 <= j < |next| && 0 <= k < |next[j].chains| ==>
      ComesFrom(vs, processor, next[j].text, next[j].chains[k])
  }

  ghost predicate WithinCaps(vs: Variants, maxVariants: nat) {
    && |vs| <= maxVariants
    && DistinctTexts(vs)
    && forall i :: 0 <= i < |vs| ==> 0 < |vs[i].chains| <= maxVariants
  }

  /** The untouched text comes first, with the empty chain first. */
  ghost predicate KeepsSource(vs: Variants, text: string) {
    |vs| > 0 && vs[0].text == text && |vs[0].chains| > 0 && vs[0].chains[0] == []
  }

  lemma RecordKeepsCaps(next: Variants, variant: Variant, w: string, id: string, maxVariants: nat)
    requires WithinCaps(next, maxVariants) && |next| < maxVariants && 0 < |variant.chains|
    ensures WithinCaps(Record(next, variant, w, id, maxVariants), maxVariants)
    ensures TextsOf(Record(next, variant, w, id, maxVariants)) == TextsOf(next) + {w}
    ensures |next| > 0 ==>
              && |Record(next, variant, w, id, maxVariants)| > 0
              && Record(next, variant, w, id, maxVariants)[0].text == next[0].text
  {
    var r := Record(next, variant, w, id, maxVariants);
    var i := IndexOf(next, w);
    forall j | 0 <= j < |next| ensures next[j].text in TextsOf(r) {
      assert r[j].text == next[j].text;
    }
    assert r[if i >= 0 then i else |next|].text == w;
  }

  lemma RecordComesFrom(vs: Variants, processor: Processor, next: Variants, i: nat, w: string, maxVariants: nat)
    requires i < |vs| && w in processor.process(vs[i].text) && AllComeFrom(vs, processor, next)
    ensures AllComeFrom(vs, processor, Record(next, vs[i], w, processor.id, maxVariants))
  {
    var variant := vs[i];
    var r := Record(next, variant, w, processor.id, maxVariants);
    var existing := Get(next, w);
    var added := NextChains(variant, w, processor.id);
    forall k | 0 <= k < |Take(existing + added, maxVariants)|
        ensures ComesFrom(vs, processor, w, (existing + added)[k]) {
      if k < |existing| {
        var j := IndexOf(next, w);
        assert next[j].chains[k] == existing[k];
      } else {
        assert added[k - |existing|] == if w == vs[i].text then vs[i].chains[k - |existing|]
            else AddId(vs[i].chains[k - |existing|], processor.id);
      }
    }
  }

  lemma RecordKeepsSource(next: Variants, variant: Variant, w: string, id: string, maxVariants: nat, text: string)
    requires maxVariants > 0
    requires KeepsSource(next, text) || (next == [] && w == text == variant.text && |variant.chains| > 0
        && variant.chains[0] == [])
    ensures KeepsSource(Record(next, variant, w, id, maxVariants), text)
  {
  }

  /** The texts that a processor makes of a set of texts. */
  ghost function Images(processor: Processor, texts: set<string>): set<string> {
    set v, w | v in texts && w in processor.process(v) :: w
  }

  /** No cap can be hit: every text offers at most `maxVariants` texts, and so do all of them together. */
  ghost predicate NeverCapped(processor: Processor, texts: set<string>, maxVariants: nat) {
    && |Images(processor, texts)| <= maxVariants
    && forall v :: v in texts ==> |processor.process(v)| <= maxVariants
  }

  predicate OffersInputFirst(processor: Processor, text: string) {
    processor.process(text) != [] && processor.process(text)[0] == text
  }

  lemma TextsSnoc(vs: Variants)
    requires vs != []
    ensures TextsOf(vs) == TextsOf(vs[..|vs| - 1]) + {vs[|vs| - 1].text}
  {
    var r := vs[..|vs| - 1];
    forall i | 0 <= i < |r| ensures vs[i].text in TextsOf(r) { assert r[i] == vs[i]; }
    forall i | 0 <= i < |r| ensures r[i].text in TextsOf(vs) { assert r[i] == vs[i]; }
  }

  lemma {:induction false} TextsCount(vs: Variants)
    requires DistinctTexts(vs)
    ensures |TextsOf(vs)| == |vs|
  {
    hide TextsOf;
    if vs == [] {
      NoTexts();
    } else {
      var r, text := vs[..|vs| - 1], vs[|vs| - 1].text;
      TextsCount(r);
      TextsSnoc(vs);
      NotAmong(r, text);
    }
  }

  lemma NoTexts()
    ensures TextsOf([]) == {}
  {
  }

  lemma NotAmong(vs: Variants, text: string)
    requires forall i :: 0 <= i < |vs| ==> vs[i].text != text
    ensures text !in TextsOf(vs)
  {
  }

  /** A full map holds all there is, if no more than that can be made. */
  lemma FullMeansAll(next: Variants, images: set<string>, maxVariants: nat)
    requires DistinctTexts(next) && TextsOf(next) <= images && |images| <= maxVariants <= |next|
    ensures TextsOf(next) == images
  {
    TextsCount(next);
    var rest := images - TextsOf(next);
    assert images == TextsOf(next) + rest;
  }

  ghost predicate KeepsAllSources(vs: Variants, processor: Processor, next: Variants) {
    forall text :: KeepsSource(vs, text) && OffersInputFirst(processor, text) ==> KeepsSource(next, text)
  }

  // ---------------------------------------------------------------- variants without caps

  /** One step of the innermost loop, if nothing is cut off. */
  function RecordFree(next: Variants, variant: Variant, processed: string, id: string): Variants {
    Put(next, processed, Get(next, processed) + NextChains(variant, processed, id))
  }

  function RecordValues(next: Variants, variant: Variant, values: seq<string>, id: string): Variants {
    if values == [] then next
    else RecordFree(RecordValues(next, variant, values[..|values| - 1], id), variant, values[|values| - 1], id)
  }

  /** One processor, if nothing is cut off. */
  function ApplyFree(vs: Variants, processor: Processor): Variants {
    if vs == [] then []
    else
      var n := |vs| - 1;
      RecordValues(ApplyFree(vs[..n], processor), vs[n], processor.process(vs[n].text), processor.id)
  }

  function AllFree(processors: seq<Processor>, text: string): Variants {
    if processors == [] then [Variant(text, [[]])]
    else ApplyFree(AllFree(processors[..|processors| - 1], text), processors[|processors| - 1])
  }

  /** Room for another text, and for every chain. */
  predicate HasRoom(vs: Variants, maxVariants: nat) {
    |vs| < maxVariants && forall i :: 0 <= i < |vs| ==> |vs[i].chains| <= maxVariants
  }

  /** The processor makes too few texts and chains to reach a cap. */
  predicate StaysBelowCaps(vs: Variants, processor: Processor, maxVariants: nat) {
    && (forall i :: 0 <= i < |vs| ==> |processor.process(vs[i].text)| <= maxVariants)
    && HasRoom(ApplyFree(vs, processor), maxVariants)
  }

  lemma FreeStep(next: Variants, variant: Variant, w: string, id: string, maxVariants: nat)
    requires HasRoom(RecordFree(next, variant, w, id), maxVariants)
    ensures HasRoom(next, maxVariants) && Record(next, variant, w, id, maxVariants) == RecordFree(next, variant, w, id)
  {
    var r, i := RecordFree(next, variant, w, id), IndexOf(next, w);
    hide NextChains;
    var chains := Get(next, w) + NextChains(variant, w, id);
    assert if i >= 0 then r[i].chains == chains else r[|next|].chains == chains;
    assert Take(chains, maxVariants) == chains;
    forall j | 0 <= j < |next| ensures |next[j].chains| <= maxVariants {
      assert |next[j].chains| <= |r[j].chains|;
    }
  }

  lemma {:induction false} FreeValues(next: Variants, variant: Variant, values: seq<string>,
      id: string, maxVariants: nat)
    requires HasRoom(RecordValues(next, variant, values, id), maxVariants)
    ensures HasRoom(next, maxVariants)
    ensures forall p :: 0 <= p <= |values| ==> HasRoom(RecordValues(next, variant, values[..p], id), maxVariants)
  {
    hide HasRoom, RecordFree, Record;
    if values == [] {
      assert values[..0] == [];
    } else {
      var front := values[..|values| - 1];
      FreeStep(RecordValues(next, variant, front, id), variant, values[|values| - 1], id, maxVariants);
      FreeValues(next, variant, front, id, maxVariants);
      forall p | 0 <= p <= |values| ensures HasRoom(RecordValues(next, variant, values[..p], id), maxVariants) {
        if p < |values| { assert values[..p] == front[..p]; } else { assert values[..p] == values; }
      }
    }
  }

  lemma {:induction false} FreePrefix(vs: Variants, processor: Processor, maxVariants: nat, i: nat)
    requires HasRoom(ApplyFree(vs, processor), maxVariants) && i <= |vs|
    ensures HasRoom(ApplyFree(vs[..i], processor), maxVariants)
    decreases |vs|
  {
    hide HasRoom, RecordValues;
    if i < |vs| {
      var n := |vs| - 1;
      FreeValues(ApplyFree(vs[..n], processor), vs[n], processor.process(vs[n].text), processor.id, maxVariants);
      FreePrefix(vs[..n], processor, maxVariants, i);
      assert vs[..n][..i] == vs[..i];
    } else {
      assert vs[..i] == vs;
    }
  }

  /** While no cap is near, a step of the loop is a step without caps. */
  lemma NotCapped(vs: Variants, processor: Processor, maxVariants: nat, i: nat, values: seq<string>, p: nat)
    requires StaysBelowCaps(vs, processor, maxVariants) && i < |vs|
    requires values == Take(processor.process(vs[i].text), maxVariants) && p < |values|
    ensures var before := RecordValues(ApplyFree(vs[..i], processor), vs[i], values[..p], processor.id);
            var after := RecordValues(ApplyFree(vs[..i], processor), vs[i], values[..p + 1], processor.id);
            Record(before, vs[i], values[p], processor.id, maxVariants) == after && |after| < maxVariants
  {
    hide HasRoom, RecordValues, Record, RecordFree;
    BelowSoFar(vs, processor, maxVariants, i);
    assert values == processor.process(vs[i].text);
    var next := ApplyFree(vs[..i], processor);
    hide ApplyFree, StaysBelowCaps, Take;
    FreeValues(next, vs[i], values, processor.id, maxVariants);
    ValuesNext(next, vs[i], values, p, processor.id);
    assert HasRoom(RecordValues(next, vs[i], values[..p + 1], processor.id), maxVariants);
    FreeStep(RecordValues(next, vs[i], values[..p], processor.id), vs[i], values[p], processor.id, maxVariants);
    RoomMeans(RecordValues(next, vs[i], values[..p + 1], processor.id), maxVariants);
  }

  lemma RoomMeans(vs: Variants, maxVariants: nat)
    requires HasRoom(vs, maxVariants)
    ensures |vs| < maxVariants
  {
  }

  lemma ValuesNext(next: Variants, variant: Variant, values: seq<string>, p: nat, id: string)
    requires p < |values|
    ensures RecordValues(next, variant, values[..p + 1], id)
        == RecordFree(RecordValues(next, variant, values[..p], id), variant, values[p], id)
  {
    hide RecordFree;
    assert values[..p + 1][..p] == values[..p] && values[..p + 1][p] == values[p];
  }

  lemma BelowSoFar(vs: Variants, processor: Processor, maxVariants: nat, i: nat)
    requires StaysBelowCaps(vs, processor, maxVariants) && i < |vs|
    ensures |processor.process(vs[i].text)| <= maxVariants
    ensures HasRoom(RecordValues(ApplyFree(vs[..i], processor), vs[i], processor.process(vs[i].text), processor.id),
        maxVariants)
  {
    FreePrefix(vs, processor, maxVariants, i + 1);
    hide HasRoom, RecordValues;
    assert vs[..i + 1][..i] == vs[..i] && vs[..i + 1][i] == vs[i];
  }

  lemma BelowMeansRoom(vs: Variants, processor: Processor, maxVariants: nat)
    requires StaysBelowCaps(vs, processor, maxVariants)
    ensures maxVariants > 0
  {
  }

  lemma AllValues(vs: Variants, processor: Processor, maxVariants: nat, i: nat)
    requires StaysBelowCaps(vs, processor, maxVariants) && i < |vs|
    ensures RecordValues(ApplyFree(vs[..i], processor), vs[i],
        Take(processor.process(vs[i].text), maxVariants), processor.id)
         == ApplyFree(vs[..i + 1], processor)
  {
    assert vs[..i + 1][..i] == vs[..i] && vs[..i + 1][i] == vs[i];
    assert Take(processor.process(vs[i].text), maxVariants) == processor.process(vs[i].text);
    hide RecordValues, HasRoom;
  }

  /** The entries before `i` have been processed. */
  ghost predicate IsAppliedTo(vs: Variants, processor: Processor, maxVariants: nat, i: nat, next: Variants)
    requires i <= |vs|
  {
    && WithinCaps(next, maxVariants) && (i > 0 ==> |next| < maxVariants) && (i == 0 ==> next == [])
    && AllComeFrom(vs, processor, next)
    && TextsOf(next) <= Images(processor, TextsOf(vs))
    && (NeverCapped(processor, TextsOf(vs), maxVariants) ==> TextsOf(next) == Images(processor, TextsOf(vs[..i])))
    && (i > 0 ==> KeepsAllSources(vs, processor, next))
    && (StaysBelowCaps(vs, processor, maxVariants) ==> next == ApplyFree(vs[..i], processor))
  }

  /** So have the first `p` values of entry `i`; `before` are the texts that were there already. */
  ghost predicate IsRecordedTo(vs: Variants, processor: Processor, maxVariants: nat, i: nat,
      values: seq<string>, p: nat, before: set<string>, next: Variants)
    requires i < |vs| && p <= |values|
  {
    && values == Take(processor.process(vs[i].text), maxVariants)
    && WithinCaps(next, maxVariants) && (|next| < maxVariants || maxVariants == 0)
    && AllComeFrom(vs, processor, next)
    && TextsOf(next) == before + SetOf(values[..p]) <= Images(processor, TextsOf(vs))
    && (NeverCapped(processor, TextsOf(vs), maxVariants) ==> before == Images(processor, TextsOf(vs[..i])))
    && (i == p == 0 ==> next == [])
    && (i > 0 || p > 0 ==> KeepsAllSources(vs, processor, next))
    && (StaysBelowCaps(vs, processor, maxVariants) ==>
          maxVariants > 0 && next == RecordValues(ApplyFree(vs[..i], processor), vs[i], values[..p], processor.id))
  }

  /** What a processor leaves. */
  ghost predicate IsApplied(vs: Variants, processor: Processor, maxVariants: nat, next: Variants) {
    && WithinCaps(next, maxVariants)
    && AllComeFrom(vs, processor, next)
    && TextsOf(next) <= Images(processor, TextsOf(vs))
    && (NeverCapped(processor, TextsOf(vs), maxVariants) ==> TextsOf(next) == Images(processor, TextsOf(vs)))
    && (vs != [] && maxVariants > 0 ==> KeepsAllSources(vs, processor, next))
    && (StaysBelowCaps(vs, processor, maxVariants) ==> next == ApplyFree(vs, processor))
  }

  // ---------------------------------------------------------------- first come, first served

  /** One text that the processor makes of one entry. */
  datatype Offer = Offer(variant: Variant, text: string)

  ghost function OffersOf(variant: Variant, values: seq<string>): seq<Offer> {
    seq(|values|, k requires 0 <= k < |values| => Offer(variant, values[k]))
  }

  /** What the processor makes of all entries, in order; of each entry no more than the cap. */
  ghost function Offers(vs: Variants, processor: Processor, maxVariants: nat): seq<Offer> {
    if vs == [] then []
    else
      var n := |vs| - 1;
      Offers(vs[..n], processor, maxVariants) + OffersOf(vs[n], Take(processor.process(vs[n].text), maxVariants))
  }

  /** The texts offered, each where it comes first. */
  ghost function Firsts(offers: seq<Offer>): seq<string> {
    if offers == [] then []
    else
      var before, text := Firsts(offers[..|offers| - 1]), offers[|offers| - 1].text;
      if text in before then before else before + [text]
  }

  /** The chains offered for one text, in order. */
  ghost function ChainsFor(offers: seq<Offer>, text: string, id: string): seq<Chain> {
    if offers == [] then []
    else
      var last := offers[|offers| - 1];
      ChainsFor(offers[..|offers| - 1], text, id)
      + if last.text == text then NextChains(last.variant, text, id) else []
  }

  ghost function TextList(vs: Variants): seq<string> { seq(|vs|, i requires 0 <= i < |vs| => vs[i].text) }

  /** The map holds what was offered: the texts in the order in which they first came, each with the first of
      its chains. */
  ghost predicate IsMapOf(next: Variants, offers: seq<Offer>, id: string, maxVariants: nat) {
    && TextList(next) == Firsts(offers)
    && forall w :: Get(next, w) == Take(ChainsFor(offers, w, id), maxVariants)
  }

  /** The first `n` offers are in the map, which is not full yet. */
  ghost predicate HasTaken(offers: seq<Offer>, next: Variants, n: int, id: string, maxVariants: nat) {
    && 0 <= n <= |offers| && IsMapOf(next, offers[..n], id, maxVariants)
    && (n > 0 ==> |next| < maxVariants)
  }

  /** The first `n` offers are in the map, and the last of them has filled it, or it was the last of all. */
  ghost predicate TakesOffers(offers: seq<Offer>, next: Variants, n: int, id: string, maxVariants: nat) {
    && 0 <= n <= |offers| && IsMapOf(next, offers[..n], id, maxVariants)
    && (|next| < maxVariants ==> n == |offers|)
    && (0 < n ==> |Firsts(offers[..n - 1])| < maxVariants)
  }

  /** The offers are taken in order until the map is full. */
  ghost predicate IsFirstCome(vs: Variants, processor: Processor, maxVariants: nat, next: Variants) {
    exists n :: TakesOffers(Offers(vs, processor, maxVariants), next, n, processor.id, maxVariants)
  }

  /** Cutting twice is cutting once, and what is cut off is behind the rest. */
  lemma TakeTwice<T>(a: seq<T>, b: seq<T>, n: nat)
    ensures Take(Take(a, n) + b, n) == Take(a + b, n) && Take(a, n) <= a
  {
  }

  lemma RecordTexts(next: Variants, variant: Variant, w: string, id: string, maxVariants: nat)
    ensures TextList(Record(next, variant, w, id, maxVariants))
         == if w in TextList(next) then TextList(next) else TextList(next) + [w]
  {
    hide NextChains, Take;
    var i := IndexOf(next, w);
    if i >= 0 { assert TextList(next)[i] == w; }
  }

  /** Recording one offer more. */
  lemma RecordOffer(next: Variants, offers: seq<Offer>, o: Offer, id: string, maxVariants: nat)
    requires IsMapOf(next, offers, id, maxVariants)
    ensures IsMapOf(Record(next, o.variant, o.text, id, maxVariants), offers + [o], id, maxVariants)
  {
    var r, all := Record(next, o.variant, o.text, id, maxVariants), offers + [o];
    assert all[..|offers|] == offers;
    RecordTexts(next, o.variant, o.text, id, maxVariants);
    var chains := NextChains(o.variant, o.text, id);
    hide NextChains, TextList, Put, Get;
    TakeTwice(ChainsFor(offers, o.text, id), chains, maxVariants);
    forall w ensures Get(r, w) == Take(ChainsFor(all, w, id), maxVariants) {
      GetPut(next, o.text, Take(Get(next, o.text) + chains, maxVariants), w);
      assert ChainsFor(offers, w, id) + [] == ChainsFor(offers, w, id);
    }
  }

  lemma NothingOffered(id: string, maxVariants: nat)
    ensures IsMapOf([], [], id, maxVariants)
  {
  }

  lemma {:induction false} OffersPrefix(vs: Variants, processor: Processor, maxVariants: nat, i: nat)
    requires i <= |vs|
    ensures Offers(vs[..i], processor, maxVariants) <= Offers(vs, processor, maxVariants)
    decreases |vs|
  {
    if i < |vs| {
      OffersPrefix(vs[..|vs| - 1], processor, maxVariants, i);
      assert vs[..|vs| - 1][..i] == vs[..i];
    } else {
      assert vs[..i] == vs;
    }
  }

  lemma OffersNext(vs: Variants, processor: Processor, maxVariants: nat, i: nat)
    requires i < |vs|
    ensures Offers(vs[..i + 1], processor, maxVariants)
         == Offers(vs[..i], processor, maxVariants)
            + OffersOf(vs[i], Take(processor.process(vs[i].text), maxVariants))
  {
    assert vs[..i + 1][..i] == vs[..i];
  }

  /** Offer number `p` of entry `i`, counted from the first offer of all. */
  lemma OfferAt(vs: Variants, processor: Processor, maxVariants: nat, i: nat, p: nat)
    requires i < |vs| && p < |Take(processor.process(vs[i].text), maxVariants)|
    ensures var n := |Offers(vs[..i], processor, maxVariants)| + p;
            && n < |Offers(vs, processor, maxVariants)|
            && Offers(vs, processor, maxVariants)[n]
               == Offer(vs[i], Take(processor.process(vs[i].text), maxVariants)[p])
  {
    OffersNext(vs, processor, maxVariants, i);
    OffersPrefix(vs, processor, maxVariants, i + 1);
    var upTo := Offers(vs[..i + 1], processor, maxVariants);
    var own := OffersOf(vs[i], Take(processor.process(vs[i].text), maxVariants));
    hide Offers, Take;
    assert upTo[|Offers(vs[..i], processor, maxVariants)| + p] == own[p];
  }

  /** The body of the loop over the processors of `getVariants`. */
  method ApplyProcessor(vs: Variants, processor: Processor, maxVariants: nat) returns (next: Variants)
    requires forall i :: 0 <= i < |vs| ==> 0 < |vs[i].chains|
    ensures WithinCaps(next, maxVariants)
    ensures AllComeFrom(vs, processor, next)
    ensures TextsOf(next) <= Images(processor, TextsOf(vs))
    ensures NeverCapped(processor, TextsOf(vs), maxVariants) ==> TextsOf(next) == Images(processor, TextsOf(vs))
    ensures vs != [] && maxVariants > 0 ==> KeepsAllSources(vs, processor, next)
    ensures StaysBelowCaps(vs, processor, maxVariants) ==> next == ApplyFree(vs, processor)
    ensures IsFirstCome(vs, processor, maxVariants, next)
  {
    hide WithinCaps, AllComeFrom, TextsOf, Images, NeverCapped, KeepsAllSources, StaysBelowCaps, ApplyFree, Record;
    hide IsMapOf, Offers, TakesOffers, HasTaken;
    next := [];
    NothingApplied(vs, processor, maxVariants);
    ghost var offers := Offers(vs, processor, maxVariants);
    NothingTaken(offers, processor.id, maxVariants);
    NoOffers(vs, processor, maxVariants);
    var i := 0;
    ghost var n := 0;
    while i < |vs|
      invariant 0 <= i <= |vs| && IsAppliedTo(vs, processor, maxVariants, i, next)
      invariant HasTaken(offers, next, n, processor.id, maxVariants)
      invariant n == |Offers(vs[..i], processor, maxVariants)|
    {
      hide IsAppliedTo, IsRecordedTo, IsApplied;
      var variant := vs[i];
      var processedValues := Take(processor.process(variant.text), maxVariants);
      ghost var before := TextsOf(next);
      var p := 0;
      NothingRecorded(vs, processor, maxVariants, i, processedValues, next);
      while p < |processedValues|
        invariant 0 <= p <= |processedValues|
        invariant IsRecordedTo(vs, processor, maxVariants, i, processedValues, p, before, next)
        invariant HasTaken(offers, next, n, processor.id, maxVariants)
        invariant n == |Offers(vs[..i], processor, maxVariants)| + p
      {
        var processed := processedValues[p];
        RecordNext(vs, processor, maxVariants, i, processedValues, p, before, next);
        OfferAt(vs, processor, maxVariants, i, p);
        TakeNext(offers, next, n, processor.id, maxVariants);
        next := Record(next, variant, processed, processor.id, maxVariants);
        n := n + 1;
        if |next| >= maxVariants {
          break;
        }
        p := p + 1;
      }
      if |next| >= maxVariants {
        if p == |processedValues| { NothingFits(vs, processor, maxVariants, i, processedValues, before, next); }
        assert IsApplied(vs, processor, maxVariants, next);
        if p == |processedValues| { AllTaken(offers, next, n, processor.id, maxVariants); }
        break;
      }
      EntryApplied(vs, processor, maxVariants, i, processedValues, before, next);
      OffersCount(vs, processor, maxVariants, i);
      i := i + 1;
    }
    if i == |vs| {
      AllApplied(vs, processor, maxVariants, next);
      AllTaken(offers, next, n, processor.id, maxVariants);
    }
    assert TakesOffers(offers, next, n, processor.id, maxVariants);
  }

  lemma NothingTaken(offers: seq<Offer>, id: string, maxVariants: nat)
    ensures HasTaken(offers, [], 0, id, maxVariants)
  {
    NothingOffered(id, maxVariants);
    assert offers[..0] == [];
  }

  lemma TakeNext(offers: seq<Offer>, next: Variants, n: int, id: string, maxVariants: nat)
    requires HasTaken(offers, next, n, id, maxVariants) && n < |offers| && |next| < maxVariants
    ensures var r := Record(next, offers[n].variant, offers[n].text, id, maxVariants);
            if |r| < maxVariants then HasTaken(offers, r, n + 1, id, maxVariants)
            else TakesOffers(offers, r, n + 1, id, maxVariants)
  {
    hide IsMapOf, Record, Firsts;
    assert offers[..n + 1] == offers[..n] + [offers[n]];
    RecordOffer(next, offers[..n], offers[n], id, maxVariants);
    MapLength(next, offers[..n], id, maxVariants);
  }

  lemma MapLength(next: Variants, offers: seq<Offer>, id: string, maxVariants: nat)
    requires IsMapOf(next, offers, id, maxVariants)
    ensures |Firsts(offers)| == |next|
  {
    assert |TextList(next)| == |next|;
  }

  lemma AllTaken(offers: seq<Offer>, next: Variants, n: int, id: string, maxVariants: nat)
    requires HasTaken(offers, next, n, id, maxVariants) && (n == |offers| || |next| >= maxVariants)
    ensures TakesOffers(offers, next, n, id, maxVariants)
  {
    hide IsMapOf;
    if n > 0 {
      FirstsGrow(offers, n - 1, n);
      MapLength(next, offers[..n], id, maxVariants);
    }
  }

  lemma FirstsGrow(offers: seq<Offer>, m: nat, n: nat)
    requires m + 1 == n <= |offers|
    ensures |Firsts(offers[..m])| <= |Firsts(offers[..n])|
  {
    assert offers[..n][..m] == offers[..m];
  }

  lemma OffersCount(vs: Variants, processor: Processor, maxVariants: nat, i: nat)
    requires i < |vs|
    ensures |Offers(vs[..i + 1], processor, maxVariants)|
         == |Offers(vs[..i], processor, maxVariants)| + |Take(processor.process(vs[i].text), maxVariants)|
  {
    OffersNext(vs, processor, maxVariants, i);
    hide Offers, Take;
  }

  lemma NoOffers(vs: Variants, processor: Processor, maxVariants: nat)
    ensures Offers(vs[..0], processor, maxVariants) == [] && vs[..|vs|] == vs
  {
  }

  lemma NothingApplied(vs: Variants, processor: Processor, maxVariants: nat)
    ensures IsAppliedTo(vs, processor, maxVariants, 0, [])
  {
    hide StaysBelowCaps, Record;
    StartsEmpty(vs, processor, maxVariants);
  }

  lemma AllApplied(vs: Variants, processor: Processor, maxVariants: nat, next: Variants)
    requires IsAppliedTo(vs, processor, maxVariants, |vs|, next)
    ensures IsApplied(vs, processor, maxVariants, next)
  {
    hide WithinCaps, AllComeFrom, TextsOf, Images, NeverCapped, KeepsAllSources, StaysBelowCaps, ApplyFree;
    assert vs[..|vs|] == vs;
  }

  lemma NothingRecorded(vs: Variants, processor: Processor, maxVariants: nat, i: nat,
      values: seq<string>, next: Variants)
    requires i < |vs| && IsAppliedTo(vs, processor, maxVariants, i, next)
    requires values == Take(processor.process(vs[i].text), maxVariants)
    ensures IsRecordedTo(vs, processor, maxVariants, i, values, 0, TextsOf(next), next)
  {
    if StaysBelowCaps(vs, processor, maxVariants) { BelowMeansRoom(vs, processor, maxVariants); }
    hide WithinCaps, AllComeFrom, TextsOf, Images, NeverCapped, KeepsAllSources, StaysBelowCaps, ApplyFree;
    assert values[..0] == [];
    assert TextsOf(next) + SetOf([]) == TextsOf(next);
  }

  /** One turn of the inner loop: either it goes on, or the cap is reached. */
  lemma RecordNext(vs: Variants, processor: Processor, maxVariants: nat, i: nat, values: seq<string>, p: nat,
      before: set<string>, next: Variants)
    requires i < |vs| && 0 < |vs[i].chains| && p < |values|
        && IsRecordedTo(vs, processor, maxVariants, i, values, p, before, next)
    ensures var r := Record(next, vs[i], values[p], processor.id, maxVariants);
            if |r| < maxVariants then IsRecordedTo(vs, processor, maxVariants, i, values, p + 1, before, r)
            else IsApplied(vs, processor, maxVariants, r)
  {
    hide WithinCaps, AllComeFrom, TextsOf, Images, NeverCapped, KeepsAllSources, StaysBelowCaps, ApplyFree, Record,
        Take, RecordValues, SetOf;
    var r := Record(next, vs[i], values[p], processor.id, maxVariants);
    TakeMeansRoom(processor.process(vs[i].text), maxVariants, p);
    RecordStep(vs, processor, next, i, values, p, maxVariants);
    if StaysBelowCaps(vs, processor, maxVariants) { NotCapped(vs, processor, maxVariants, i, values, p); }
    TextsAdd(before, SetOf(values[..p]), values[p], Images(processor, TextsOf(vs)));
    if |r| >= maxVariants && NeverCapped(processor, TextsOf(vs), maxVariants) {
      CapsMeanDistinct(r, maxVariants);
      ImagesAreFew(processor, TextsOf(vs), maxVariants);
      FullMeansAll(r, Images(processor, TextsOf(vs)), maxVariants);
    }
  }

  lemma TakeMeansRoom(values: seq<string>, maxVariants: nat, p: nat)
    requires p < |Take(values, maxVariants)|
    ensures maxVariants > 0
  {
  }

  lemma TextsAdd(before: set<string>, recorded: set<string>, w: string, all: set<string>)
    requires before + recorded <= all && w in all
    ensures (before + recorded) + {w} == before + (recorded + {w}) <= all
  {
  }

  lemma CapsMeanDistinct(vs: Variants, maxVariants: nat)
    requires WithinCaps(vs, maxVariants)
    ensures DistinctTexts(vs)
  {
  }

  lemma ImagesAreFew(processor: Processor, texts: set<string>, maxVariants: nat)
    requires NeverCapped(processor, texts, maxVariants)
    ensures |Images(processor, texts)| <= maxVariants
  {
  }

  /** With a cap of nothing, nothing is left. */
  lemma NothingFits(vs: Variants, processor: Processor, maxVariants: nat, i: nat, values: seq<string>,
      before: set<string>, next: Variants)
    requires i < |vs| && IsRecordedTo(vs, processor, maxVariants, i, values, |values|, before, next)
    requires |next| >= maxVariants
    ensures IsApplied(vs, processor, maxVariants, next)
  {
    assert next == [] && maxVariants == 0;
    if StaysBelowCaps(vs, processor, maxVariants) { BelowMeansRoom(vs, processor, maxVariants); }
    hide StaysBelowCaps, ApplyFree, KeepsAllSources, Record, RecordValues;
    if NeverCapped(processor, TextsOf(vs), maxVariants) {
      ImagesAreFew(processor, TextsOf(vs), maxVariants);
      hide Images;
      assert Images(processor, TextsOf(vs)) == {};
    }
  }

  lemma EntryApplied(vs: Variants, processor: Processor, maxVariants: nat, i: nat, values: seq<string>,
      before: set<string>, next: Variants)
    requires i < |vs| && IsRecordedTo(vs, processor, maxVariants, i, values, |values|, before, next)
        && |next| < maxVariants
    ensures IsAppliedTo(vs, processor, maxVariants, i + 1, next)
  {
    assert values[..|values|] == values;
    ImagesMore(vs, processor, i, maxVariants);
    if StaysBelowCaps(vs, processor, maxVariants) { AllValues(vs, processor, maxVariants, i); }
    hide WithinCaps, AllComeFrom, TextsOf, Images, NeverCapped, StaysBelowCaps, ApplyFree, RecordValues, Take;
    if i == 0 && values == [] { hide OffersInputFirst, KeepsSource; assert KeepsAllSources(vs, processor, next); }
  }

  lemma RecordStep(vs: Variants, processor: Processor, next: Variants, i: nat, values: seq<string>,
      p: nat, maxVariants: nat)
    requires i < |vs| && 0 < |vs[i].chains|
    requires values == Take(processor.process(vs[i].text), maxVariants) && p < |values|
    requires WithinCaps(next, maxVariants) && |next| < maxVariants && AllComeFrom(vs, processor, next)
    requires i == p == 0 ==> next == []
    requires i > 0 || p > 0 ==> KeepsAllSources(vs, processor, next)
    ensures var r := Record(next, vs[i], values[p], processor.id, maxVariants);
            && WithinCaps(r, maxVariants) && AllComeFrom(vs, processor, r)
            && KeepsAllSources(vs, processor, r)
            && TextsOf(r) == TextsOf(next) + {values[p]}
    ensures SetOf(values[..p + 1]) == SetOf(values[..p]) + {values[p]}
    ensures values[p] in Images(processor, TextsOf(vs))
  {
    var w := values[p];
    assert values[..p + 1] == values[..p] + [w];
    assert w in processor.process(vs[i].text);
    assert vs[i].text in TextsOf(vs);
    RecordKeepsCaps(next, vs[i], w, processor.id, maxVariants);
    RecordComesFrom(vs, processor, next, i, w, maxVariants);
    forall text | KeepsSource(vs, text) && OffersInputFirst(processor, text)
      ensures KeepsSource(Record(next, vs[i], w, processor.id, maxVariants), text)
    {
      RecordKeepsSource(next, vs[i], w, processor.id, maxVariants, text);
    }
  }

  lemma ImagesMore(vs: Variants, processor: Processor, i: nat, maxVariants: nat)
    requires i < |vs|
    ensures NeverCapped(processor, TextsOf(vs), maxVariants) ==>
      Images(processor, TextsOf(vs[..i + 1]))
      == Images(processor, TextsOf(vs[..i])) + SetOf(Take(processor.process(vs[i].text), maxVariants))
    ensures maxVariants > 0 && i == 0 ==>
      forall text :: KeepsSource(vs, text) && OffersInputFirst(processor, text) ==>
        Take(processor.process(vs[i].text), maxVariants) != []
  {
    if NeverCapped(processor, TextsOf(vs), maxVariants) {
      var v := vs[i].text;
      assert v in TextsOf(vs);
      assert Take(processor.process(v), maxVariants) == processor.process(v);
      assert TextsOf(vs[..i + 1]) == TextsOf(vs[..i]) + {v} by {
        assert vs[..i + 1] == vs[..i] + [vs[i]];
        assert vs[..i + 1][i].text == v;
        forall j | 0 <= j < i ensures vs[..i][j].text in TextsOf(vs[..i + 1]) { assert vs[..i + 1][j] == vs[..i][j]; }
      }
    }
  }

  ghost function SetOf(s: seq<string>): set<string> { set x | x in s }

  lemma StartsEmpty(vs: Variants, processor: Processor, maxVariants: nat)
    ensures WithinCaps([], maxVariants) && AllComeFrom(vs, processor, []) && TextsOf([]) == {}
    ensures Images(processor, TextsOf(vs[..0])) == {}
  {
  }

  // ---------------------------------------------------------------- paths through the processors

  /** `path[k + 1]` is one of the texts that processor `k` makes of `path[k]`. */
  ghost predicate IsPath(processors: seq<Processor>, text: string, path: seq<string>) {
    && |path| == |processors| + 1 && path[0] == text
    && forall k :: 0 <= k < |processors| ==> path[k + 1] in processors[k].process(path[k])
  }

  /** The processors along a path that changed the text. */
  ghost function ChainOf(processors: seq<Processor>, path: seq<string>): Chain
    requires |path| == |processors| + 1
  {
    if processors == [] then []
    else
      var n := |processors| - 1;
      var c := ChainOf(processors[..n], path[..n + 1]);
      if path[n + 1] == path[n] then c else AddId(c, processors[n].id)
  }

  /** The ids of the processors from number `k` on that change the text along a path, first to last. */
  ghost function ChangedFrom(processors: seq<Processor>, path: seq<string>, k: nat): Chain
    requires |path| == |processors| + 1 && k <= |processors|
    decreases |processors| - k
  {
    if k == |processors| then []
    else (if path[k + 1] != path[k] then [processors[k].id] else []) + ChangedFrom(processors, path, k + 1)
  }

  lemma {:induction false} ChangedSnoc(processors: seq<Processor>, path: seq<string>, k: nat)
    requires |path| == |processors| + 1 && k < |processors|
    ensures var n := |processors| - 1;
            ChangedFrom(processors, path, k)
            == ChangedFrom(processors[..n], path[..n + 1], k)
               + if path[n + 1] != path[n] then [processors[n].id] else []
    decreases |processors| - k
  {
    var n := |processors| - 1;
    if k < n {
      ChangedSnoc(processors, path, k + 1);
    } else {
      assert ChangedFrom(processors[..n], path[..n + 1], n) == [];
    }
  }

  /** A chain lists the processors that changed the text, first to last. */
  lemma {:induction false} ChainIsChanges(processors: seq<Processor>, path: seq<string>)
    requires |path| == |processors| + 1
    ensures ChainOf(processors, path) == ChangedFrom(processors, path, 0)
  {
    if processors != [] {
      var n := |processors| - 1;
      ChainIsChanges(processors[..n], path[..n + 1]);
      ChangedSnoc(processors, path, 0);
    }
  }

  ghost predicate IsChainTo(processors: seq<Processor>, text: string, w: string, c: Chain) {
    exists path :: IsPath(processors, text, path) && path[|processors|] == w && ChainOf(processors, path) == c
  }

  ghost predicate AllAreChains(processors: seq<Processor>, text: string, vs: Variants) {
    forall i, k :: 0 <= i < |vs| && 0 <= k < |vs[i].chains| ==> IsChainTo(processors, text, vs[i].text, vs[i].chains[k])
  }

  /** The texts that some path leads to. */
  ghost function Reachable(processors: seq<Processor>, text: string): set<string> {
    if processors == [] then {text}
    else Images(processors[|processors| - 1], Reachable(processors[..|processors| - 1], text))
  }

  lemma {:induction false} ReachableByPath(processors: seq<Processor>, text: string, w: string)
    ensures w in Reachable(processors, text) <==>
        exists path :: IsPath(processors, text, path) && path[|processors|] == w
  {
    if processors == [] {
      assert IsPath(processors, text, [text]);
    } else {
      var n := |processors| - 1;
      var before := processors[..n];
      if w in Reachable(processors, text) {
        var v :| v in Reachable(before, text) && w in processors[n].process(v);
        ReachableByPath(before, text, v);
        var path :| IsPath(before, text, path) && path[n] == v;
        ExtendPath(processors, text, path, w);
      }
      if path :| IsPath(processors, text, path) && path[|processors|] == w {
        assert path[n + 1] in processors[n].process(path[n]);
        assert IsPath(before, text, path[..n + 1]);
        ReachableByPath(before, text, path[n]);
      }
    }
  }

  lemma ExtendPath(processors: seq<Processor>, text: string, path: seq<string>, w: string)
    requires processors != [] && var n := |processors| - 1;
             IsPath(processors[..n], text, path) && w in processors[n].process(path[n])
    ensures IsPath(processors, text, path + [w])
    ensures var n := |processors| - 1;
            ChainOf(processors, path + [w]) == if w == path[n] then ChainOf(processors[..n], path)
                                               else AddId(ChainOf(processors[..n], path), processors[n].id)
  {
    hide ChainOf, AddId, IsPath;
    var n := |processors| - 1;
    var longer := path + [w];
    PathFits(processors[..n], text, path);
    ExtendChain(processors, path, w);
    forall k | 0 <= k < |processors| ensures longer[k + 1] in processors[k].process(longer[k]) {
      if k < n { PathStep(processors[..n], text, path, k); }
    }
    StepsArePath(processors, text, longer);
  }

  lemma PathFits(processors: seq<Processor>, text: string, path: seq<string>)
    requires IsPath(processors, text, path)
    ensures |path| == |processors| + 1 && path[0] == text
  {
  }

  lemma PathStep(processors: seq<Processor>, text: string, path: seq<string>, k: nat)
    requires IsPath(processors, text, path) && k < |processors|
    ensures path[k + 1] in processors[k].process(path[k])
  {
  }

  lemma StepsArePath(processors: seq<Processor>, text: string, path: seq<string>)
    requires |path| == |processors| + 1 && path[0] == text
    requires forall k :: 0 <= k < |processors| ==> path[k + 1] in processors[k].process(path[k])
    ensures IsPath(processors, text, path)
  {
  }

  lemma ExtendChain(processors: seq<Processor>, path: seq<string>, w: string)
    requires processors != [] && |path| == |processors|
    ensures var n := |processors| - 1;
            ChainOf(processors, path + [w]) == if w == path[n] then ChainOf(processors[..n], path)
                                               else AddId(ChainOf(processors[..n], path), processors[n].id)
  {
    hide AddId;
    var n := |processors| - 1;
    assert (path + [w])[..n + 1] == path && (path + [w])[n] == path[n] && (path + [w])[n + 1] == w;
  }

  lemma ChainsExtend(processors: seq<Processor>, text: string, vs: Variants, next: Variants)
    requires processors != [] && AllAreChains(processors[..|processors| - 1], text, vs)
    requires AllComeFrom(vs, processors[|processors| - 1], next)
    ensures AllAreChains(processors, text, next)
  {
    var n := |processors| - 1;
    forall j, l | 0 <= j < |next| && 0 <= l < |next[j].chains|
      ensures IsChainTo(processors, text, next[j].text, next[j].chains[l])
    {
      var w, c := next[j].text, next[j].chains[l];
      assert ComesFrom(vs, processors[n], w, c);
      var i, k :| 0 <= i < |vs| && 0 <= k < |vs[i].chains| && w in processors[n].process(vs[i].text)
                  && c == if w == vs[i].text then vs[i].chains[k] else AddId(vs[i].chains[k], processors[n].id);
      assert IsChainTo(processors[..n], text, vs[i].text, vs[i].chains[k]);
      var path :| IsPath(processors[..n], text, path) && path[n] == vs[i].text
          && ChainOf(processors[..n], path) == vs[i].chains[k];
      ExtendPath(processors, text, path, w);
    }
  }

  // ---------------------------------------------------------------- every path's chain is held

  lemma {:induction false} IndexKept(vs: Variants, i: nat, chains: seq<Chain>, u: string)
    requires i < |vs|
    ensures IndexOf(vs[i := Variant(vs[i].text, chains)], u) == IndexOf(vs, u)
  {
    var n := |vs| - 1;
    var after := vs[i := Variant(vs[i].text, chains)];
    if i < n {
      assert after[..n] == vs[..n][i := Variant(vs[i].text, chains)];
      IndexKept(vs[..n], i, chains, u);
    } else {
      assert after[..n] == vs[..n];
    }
  }

  lemma GetPut(vs: Variants, t: string, chains: seq<Chain>, u: string)
    ensures Get(Put(vs, t, chains), u) == if u == t then chains else Get(vs, u)
  {
    var i := IndexOf(vs, t);
    if i >= 0 {
      IndexKept(vs, i, chains, u);
    } else {
      assert (vs + [Variant(t, chains)])[..|vs|] == vs;
    }
  }

  lemma FreeGrows(next: Variants, variant: Variant, w: string, id: string, u: string)
    ensures Get(next, u) <= Get(RecordFree(next, variant, w, id), u)
    ensures u == w ==> Get(RecordFree(next, variant, w, id), u) == Get(next, u) + NextChains(variant, w, id)
  {
    hide Get, Put, NextChains;
    GetPut(next, w, Get(next, w) + NextChains(variant, w, id), u);
  }

  lemma {:induction false} ValuesGrow(next: Variants, variant: Variant, values: seq<string>, id: string, u: string)
    ensures forall c :: c in Get(next, u) ==> c in Get(RecordValues(next, variant, values, id), u)
    ensures u in values ==> forall c :: c in NextChains(variant, u, id) ==>
        c in Get(RecordValues(next, variant, values, id), u)
  {
    hide Get, NextChains, RecordFree;
    if values != [] {
      var n := |values| - 1;
      var before := RecordValues(next, variant, values[..n], id);
      ValuesGrow(next, variant, values[..n], id, u);
      FreeGrows(before, variant, values[n], id, u);
      if u in values && u != values[n] {
        var k :| 0 <= k < |values| && values[k] == u;
        assert values[..n][k] == u;
      }
    }
  }

  lemma {:induction false} FreeHolds(vs: Variants, processor: Processor, i: nat, w: string)
    requires i < |vs| && w in processor.process(vs[i].text)
    ensures forall c :: c in NextChains(vs[i], w, processor.id) ==> c in Get(ApplyFree(vs, processor), w)
    decreases |vs|
  {
    hide Get, NextChains, RecordValues;
    var n := |vs| - 1;
    ValuesGrow(ApplyFree(vs[..n], processor), vs[n], processor.process(vs[n].text), processor.id, w);
    if i < n {
      FreeHolds(vs[..n], processor, i, w);
      assert vs[..n][i] == vs[i];
    }
  }

  /** Without caps every path through the processors leaves its chain with the text that it leads to. */
  lemma {:induction false} EveryPathIsHeld(processors: seq<Processor>, text: string, path: seq<string>)
    requires IsPath(processors, text, path)
    ensures ChainOf(processors, path) in Get(AllFree(processors, text), path[|processors|])
  {
    if processors == [] {
      assert AllFree(processors, text)[0] == Variant(text, [[]]);
    } else {
      var n := |processors| - 1;
      var before, p := processors[..n], path[..n + 1];
      assert IsPath(before, text, p) by {
        forall k | 0 <= k < n ensures p[k + 1] in before[k].process(p[k]) {
          assert path[k + 1] in processors[k].process(path[k]);
        }
      }
      EveryPathIsHeld(before, text, p);
      assert path[n + 1] in processors[n].process(path[n]);
      StepIsHeld(AllFree(before, text), processors[n], p[n], path[n + 1], ChainOf(before, p));
    }
  }

  lemma StepIsHeld(vs: Variants, processor: Processor, v: string, w: string, c: Chain)
    requires c in Get(vs, v) && w in processor.process(v)
    ensures (if w == v then c else AddId(c, processor.id)) in Get(ApplyFree(vs, processor), w)
  {
    var i := IndexOf(vs, v);
    FreeHolds(vs, processor, i, w);
    var k :| 0 <= k < |vs[i].chains| && vs[i].chains[k] == c;
    hide ApplyFree, Get;
    assert NextChains(vs[i], w, processor.id)[k] == if w == v then c else AddId(c, processor.id);
  }

  /** No cap can be hit anywhere on the way. */
  ghost predicate NeverCappedAnywhere(processors: seq<Processor>, text: string, maxVariants: nat) {
    forall k :: 0 <= k < |processors| ==> NeverCapped(processors[k], Reachable(processors[..k], text), maxVariants)
  }

  lemma FreeAtStart(processors: seq<Processor>, text: string)
    ensures AllFree(processors[..0], text) == [Variant(text, [[]])] && Reachable(processors[..0], text) == {text}
  {
  }

  lemma FreeAt(processors: seq<Processor>, text: string, k: nat)
    requires k < |processors|
    ensures AllFree(processors[..k + 1], text) == ApplyFree(AllFree(processors[..k], text), processors[k])
  {
    assert processors[..k + 1][..k] == processors[..k];
    hide ApplyFree;
  }

  lemma BelowAt(processors: seq<Processor>, text: string, maxVariants: nat, k: nat)
    requires StaysBelowAll(processors, text, maxVariants) && k < |processors|
    ensures StaysBelowCaps(AllFree(processors[..k], text), processors[k], maxVariants)
  {
    hide StaysBelowCaps;
  }

  lemma ReachAt(processors: seq<Processor>, text: string, maxVariants: nat, k: nat)
    requires k < |processors|
    ensures Reachable(processors[..k + 1], text) == Images(processors[k], Reachable(processors[..k], text))
    ensures NeverCappedAnywhere(processors, text, maxVariants) ==>
        NeverCapped(processors[k], Reachable(processors[..k], text), maxVariants)
  {
    assert processors[..k + 1][..k] == processors[..k];
    hide Images;
  }

  /** No processor reaches a cap on the way. */
  ghost predicate StaysBelowAll(processors: seq<Processor>, text: string, maxVariants: nat) {
    forall k :: 0 <= k < |processors| ==> StaysBelowCaps(AllFree(processors[..k], text), processors[k], maxVariants)
  }

  /** `getVariants`; the source always passes a cap of 128. */
  method GetVariants(text: string, processors: seq<Processor>, maxVariants: nat) returns (variants: Variants)
    ensures maxVariants > 0 ==> WithinCaps(variants, maxVariants)
    ensures AllAreChains(processors, text, variants)
    ensures TextsOf(variants) <= Reachable(processors, text)
    ensures NeverCappedAnywhere(processors, text, maxVariants) ==> TextsOf(variants) == Reachable(processors, text)
    ensures maxVariants > 0 && (forall k :: 0 <= k < |processors| ==> OffersInputFirst(processors[k], text)) ==>
              KeepsSource(variants, text)
    ensures StaysBelowAll(processors, text, maxVariants) ==>
              forall path :: IsPath(processors, text, path) ==>
                  ChainOf(processors, path) in Get(variants, path[|processors|])
  {
    hide StaysBelowCaps, StaysBelowAll, ApplyFree, AllFree, NeverCappedAnywhere, Reachable, Get;
    FreeAtStart(processors, text);
    ghost var below := StaysBelowAll(processors, text, maxVariants);
    hide AllAreChains, AllComeFrom, WithinCaps, Images, TextsOf, OffersInputFirst;
    variants := [Variant(text, [[]])];
    StartsWithSource(text, processors, maxVariants);
    var k := 0;
    while k < |processors|
      invariant 0 <= k <= |processors|
      invariant maxVariants > 0 ==> WithinCaps(variants, maxVariants)
      invariant forall i :: 0 <= i < |variants| ==> 0 < |variants[i].chains|
      invariant AllAreChains(processors[..k], text, variants)
      invariant TextsOf(variants) <= Reachable(processors[..k], text)
      invariant NeverCappedAnywhere(processors, text, maxVariants) ==>
          TextsOf(variants) == Reachable(processors[..k], text)
      invariant maxVariants > 0 && (forall j :: 0 <= j < k ==> OffersInputFirst(processors[j], text)) ==>
          KeepsSource(variants, text)
      invariant below ==> variants == AllFree(processors[..k], text)
    {
      if below { BelowAt(processors, text, maxVariants, k); }
      FreeAt(processors, text, k);
      ReachAt(processors, text, maxVariants, k);
      var next := ApplyProcessor(variants, processors[k], maxVariants);
      ghost var done := processors[..k + 1];
      assert done[..k] == processors[..k] && done[k] == processors[k];
      ChainsExtend(done, text, variants, next);
      ImagesMonotone(processors[k], TextsOf(variants), Reachable(processors[..k], text));
      CapsMeanChains(next, maxVariants);
      variants := next;
      k := k + 1;
    }
    assert processors[..|processors|] == processors;
    if below {
      forall path | IsPath(processors, text, path)
          ensures ChainOf(processors, path) in Get(variants, path[|processors|]) {
        EveryPathIsHeld(processors, text, path);
      }
    }
  }

  lemma StartsWithSource(text: string, processors: seq<Processor>, maxVariants: nat)
    ensures var vs := [Variant(text, [[]])];
            && (maxVariants > 0 ==> WithinCaps(vs, maxVariants))
            && AllAreChains(processors[..0], text, vs)
            && TextsOf(vs) == {text} && KeepsSource(vs, text)
  {
    var vs := [Variant(text, [[]])];
    assert vs[0].text == text;
    assert IsPath(processors[..0], text, [text]) && ChainOf(processors[..0], [text]) == [];
    assert IsChainTo(processors[..0], text, text, []);
  }

  lemma ImagesMonotone(processor: Processor, a: set<string>, b: set<string>)
    requires a <= b
    ensures Images(processor, a) <= Images(processor, b)
  {
  }

  lemma CapsMeanChains(vs: Variants, maxVariants: nat)
    requires WithinCaps(vs, maxVariants)
    ensures forall i :: 0 <= i < |vs| ==> 0 < |vs[i].chains|
  {
  }
}
