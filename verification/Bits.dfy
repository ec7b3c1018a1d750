/** Sets of condition flags, as the 32-bit integers of JavaScript. */
module Bits {

  type Flags = bv32

  /** `1 << k` */
  function Bit(k: nat): Flags
    requires k < 32
  {
    (1 as bv32) << k
  }

  function Or(a: Flags, b: Flags): Flags { a | b }

  function And(a: Flags, b: Flags): Flags { a & b }

  predicate Has(f: Flags, k: nat)
    requires k < 32
  {
    And(f, Bit(k)) != 0
  }

  lemma MaskOr(a: Flags, b: Flags, mask: Flags)
    ensures And(Or(a, b), mask) == Or(And(a, mask), And(b, mask))
  {
  }

  lemma OrZero(a: Flags, b: Flags)
    ensures Or(a, b) == 0 <==> a == 0 && b == 0
  {
  }

  lemma HasOr(a: Flags, b: Flags, k: nat)
    requires k < 32
    ensures Has(Or(a, b), k) <==> Has(a, k) || Has(b, k)
  {
    hide Bit, And, Or;
    MaskOr(a, b, Bit(k));
    OrZero(And(a, Bit(k)), And(b, Bit(k)));
  }

  lemma HasNothing(k: nat)
    requires k < 32
    ensures !Has(0, k)
  {
  }

  lemma SingleBit(k: nat)
    requires k < 32
    ensures Bit(k) & (Bit(k) - 1) == 0 && Bit(k) != 0
  {
  }

  lemma HasBit(j: nat, k: nat)
    requires j < 32 && k < 32
    ensures Has(Bit(j), k) <==> j == k
  {
    if j == k {
      SingleBit(k);
      AndSelf(Bit(k));
    }
  }

  lemma AndSelf(a: Flags)
    ensures And(a, a) == a
  {
  }

  lemma MaskAnd(a: Flags, b: Flags, mask: Flags)
    ensures And(And(a, b), mask) == And(And(a, mask), b) == And(And(b, mask), a)
  {
  }

  lemma AndNothing(a: Flags)
    ensures And(0, a) == 0
  {
  }

  lemma BothHave(a: Flags, b: Flags, mask: Flags)
    requires mask & (mask - 1) == 0
    requires And(a, mask) != 0 && And(b, mask) != 0
    ensures And(And(a, b), mask) != 0
  {
  }

  lemma HasAnd(a: Flags, b: Flags, k: nat)
    requires k < 32
    ensures Has(And(a, b), k) <==> Has(a, k) && Has(b, k)
  {
    hide Bit, And;
    SingleBit(k);
    var mask := Bit(k);
    MaskAnd(a, b, mask);
    AndNothing(a);
    AndNothing(b);
    if Has(a, k) && Has(b, k) {
      BothHave(a, b, mask);
    }
  }

  lemma LowHalfZero(f: Flags)
    requires forall k: nat :: k < 16 ==> !Has(f, k)
    ensures f & 0xFFFF == 0
  {
    assert !Has(f, 0) && !Has(f, 1) && !Has(f, 2) && !Has(f, 3);
    assert !Has(f, 4) && !Has(f, 5) && !Has(f, 6) && !Has(f, 7);
    assert !Has(f, 8) && !Has(f, 9) && !Has(f, 10) && !Has(f, 11);
    assert !Has(f, 12) && !Has(f, 13) && !Has(f, 14) && !Has(f, 15);
  }

  lemma HighHalfZero(f: Flags)
    requires forall k: nat :: 16 <= k < 32 ==> !Has(f, k)
    ensures f & 0xFFFF_0000 == 0
  {
    assert !Has(f, 16) && !Has(f, 17) && !Has(f, 18) && !Has(f, 19);
    assert !Has(f, 20) && !Has(f, 21) && !Has(f, 22) && !Has(f, 23);
    assert !Has(f, 24) && !Has(f, 25) && !Has(f, 26) && !Has(f, 27);
    assert !Has(f, 28) && !Has(f, 29) && !Has(f, 30) && !Has(f, 31);
  }

  lemma HalvesZero(f: Flags)
    requires f & 0xFFFF == 0 && f & 0xFFFF_0000 == 0
    ensures f == 0
  {
  }

  /** A word that is not zero has one of its thirty-two flags. */
  lemma SomeFlag(f: Flags) returns (k: nat)
    requires f != 0
    ensures k < 32 && Has(f, k)
  {
    hide Has, Bit;
    if forall i: nat :: i < 32 ==> !Has(f, i) {
      LowHalfZero(f);
      HighHalfZero(f);
      HalvesZero(f);
    }
    k :| k < 32 && Has(f, k);
  }
}
