/**
 The bits of a 64-bit word: setting, clearing and testing one by shifts and
 masks, and bit numbers as shift counts.
 */
module Bits {

  function Shared(w: bv64, m: bv64): (b: bv64) {
    w & m
  }

  /** Two words have a bit in common. */
  predicate Hit(w: bv64, m: bv64) {
    Shared(w, m) != 0
  }

  function With(w: bv64, m: bv64): (w': bv64) {
    w | m
  }

  function Without(w: bv64, m: bv64): (w': bv64) {
    w & !m
  }

  function Bit(j: bv6): (m: bv64) {
    (1 as bv64) << j
  }

  predicate Test(w: bv64, j: bv6) {
    Hit(w, Bit(j))
  }

  function Set(w: bv64, j: bv6): (w': bv64) {
    With(w, Bit(j))
  }

  function Clear(w: bv64, j: bv6): (w': bv64) {
    Without(w, Bit(j))
  }

  lemma BitsDiffer(i: bv6, j: bv6)
    ensures Hit(Bit(i), Bit(j)) <==> i == j
  {
  }

  lemma OrSplits(w: bv64, a: bv64, b: bv64)
    ensures (w | a) & b == (w & b) | (a & b)
  {
  }

  lemma AndSplits(w: bv64, a: bv64, b: bv64)
    ensures w & b == ((w & !a) & b) | (w & (a & b))
  {
  }

  lemma Nothing(x: bv64)
    ensures x | 0 == x && x & 0 == 0
  {
  }

  lemma OrRaw(w: bv64, a: bv64, b: bv64)
    requires a & b == 0
    ensures (w | a) & b == w & b
  {
    OrSplits(w, a, b);
    Nothing(w & b);
  }

  lemma AndRaw(w: bv64, a: bv64, b: bv64)
    requires a & b == 0
    ensures (w & !a) & b == w & b
  {
    AndSplits(w, a, b);
    Nothing(w);
    Nothing((w & !a) & b);
  }

  lemma OrOther(w: bv64, a: bv64, b: bv64)
    requires Shared(a, b) == 0
    ensures Shared(With(w, a), b) == Shared(w, b)
  {
    OrRaw(w, a, b);
  }

  lemma AndOther(w: bv64, a: bv64, b: bv64)
    requires Shared(a, b) == 0
    ensures Shared(Without(w, a), b) == Shared(w, b)
  {
    AndRaw(w, a, b);
  }

  lemma WithOther(w: bv64, a: bv64, b: bv64)
    requires !Hit(a, b)
    ensures Hit(With(w, a), b) == Hit(w, b)
  {
    hide Shared, With;
    OrOther(w, a, b);
  }

  lemma WithoutOther(w: bv64, a: bv64, b: bv64)
    requires !Hit(a, b)
    ensures Hit(Without(w, a), b) == Hit(w, b)
  {
    hide Shared, Without;
    AndOther(w, a, b);
  }

  lemma OwnMask(w: bv64, a: bv64)
    requires Hit(a, a)
    ensures Hit(With(w, a), a) && !Hit(Without(w, a), a)
  {
  }

  /** Setting one bit leaves the others alone. */
  lemma SetLocal(w: bv64, i: bv6, j: bv6)
    ensures Test(Set(w, i), j) == (Test(w, j) || i == j)
  {
    hide Bit, Hit, With;
    BitsDiffer(i, j);
    if i == j {
      OwnMask(w, Bit(i));
    } else {
      WithOther(w, Bit(i), Bit(j));
    }
  }

  /** Clearing one bit leaves the others alone. */
  lemma ClearLocal(w: bv64, i: bv6, j: bv6)
    ensures Test(Clear(w, i), j) == (Test(w, j) && i != j)
  {
    hide Bit, Hit, Without;
    BitsDiffer(i, j);
    if i == j {
      OwnMask(w, Bit(i));
    } else {
      WithoutOther(w, Bit(i), Bit(j));
    }
  }

  lemma BitAlone(j: bv6)
    ensures Bit(j) & (Bit(j) - 1) == 0 && Bit(j) != 0
  {
  }

  lemma Complement(w: bv64, a: bv64)
    requires a & (a - 1) == 0 && a != 0
    ensures Hit(!w, a) == !Hit(w, a)
  {
  }

  lemma NotLocal(w: bv64, j: bv6)
    ensures Test(!w, j) == !Test(w, j)
  {
    hide Bit, Hit;
    BitAlone(j);
    Complement(w, Bit(j));
  }

  lemma NoneInZero(j: bv6)
    ensures !Test(0, j)
  {
  }

  // ---- bit numbers -------------------------------------------------------

  /** A bit number as the shift count it is used as. */
  function Count(i: nat): (b: bv6)
    requires i < 64
  {
    if i == 0 then 0 else Count(i - 1) + 1
  }

  lemma CountNext(b: bv6)
    requires b < 63
    ensures (b + 1) as nat == b as nat + 1
  {
  }

  lemma {:induction false} CountNumber(i: nat)
    requires i < 64
    ensures Count(i) as nat == i
  {
    if i > 0 {
      CountNumber(i - 1);
      CountBelow(Count(i - 1), i - 1);
      CountNext(Count(i - 1));
    }
  }

  lemma CountBelow(b: bv6, i: nat)
    requires b as nat == i && i < 63
    ensures b < 63
  {
  }

  lemma CountsDiffer(i: nat, j: nat)
    requires i < 64 && j < 64
    ensures Count(i) == Count(j) <==> i == j
  {
    hide Count;
    CountNumber(i);
    CountNumber(j);
  }

  /** Bit j is set. */
  predicate HasBit(w: bv64, j: bv6) {
    (w >> j) & 1 == 1
  }

  lemma TestIs(w: bv64, j: bv6)
    ensures Test(w, j) <==> HasBit(w, j)
  {
  }

  /** Setting a bit by number sets the bit with that number, and no other. */
  lemma SetByNumber(w: bv64, i: nat, j: bv6)
    requires i < 64
    ensures HasBit(Set(w, Count(i)), j) <==> HasBit(w, j) || j as nat == i
  {
    hide Test, Set, Count, HasBit;
    CountNumber(i);
    SameNumber(Count(i), j);
    SetLocal(w, Count(i), j);
    TestIs(w, j);
    TestIs(Set(w, Count(i)), j);
  }

  lemma SameNumber(i: bv6, j: bv6)
    ensures i == j <==> i as nat == j as nat
  {
  }
}
