/**
 The descriptor bitmaps as the code keeps them, in 64-bit words: setting,
 clearing and testing a bit by shifts and masks, the comparison of a whole word
 with zero, and the search with `ffs`. The words stand for the table's sequence
 of bits, through every update.
 */
module FdBits {
  import opened Bits
  import opened FdTable

  // ---- the words as a sequence of bits -----------------------------------

  function BitAt(words: seq<bv64>, i: nat): (b: bool)
    requires i < 64 * |words|
  {
    Test(words[i / 64], Count(i % 64))
  }

  /** The words hold these bits. */
  ghost predicate Packs(words: seq<bv64>, bits: seq<bool>) {
    |bits| == 64 * |words| && forall i: nat :: i < |bits| ==> bits[i] == BitAt(words, i)
  }

  /** test_fdbit reads the table's bit. */
  lemma PacksTest(words: seq<bv64>, bits: seq<bool>, i: nat)
    requires Packs(words, bits) && i < |bits|
    ensures Test(words[i / 64], Count(i % 64)) == bits[i]
  {
    hide Test;
    assert bits[i] == BitAt(words, i);
  }

  lemma PacksUpdate(words: seq<bv64>, bits: seq<bool>, i: nat, w: bv64, b: bool)
    requires Packs(words, bits) && i < |bits|
    requires forall j: nat :: j < |bits| && j / 64 == i / 64 ==>
               BitAt(words[i / 64 := w], j) == if j == i then b else BitAt(words, j)
    ensures Packs(words[i / 64 := w], bits[i := b])
  {
    hide Test, Count;
    var words' := words[i / 64 := w];
    forall j: nat | j < |bits|
      ensures bits[i := b][j] == BitAt(words', j)
    {
      assert bits[j] == BitAt(words, j);
    }
  }

  /** set_fdbit, on all words. */
  lemma PacksSet(words: seq<bv64>, bits: seq<bool>, i: nat)
    requires Packs(words, bits) && i < |bits|
    ensures Packs(words[i / 64 := Set(words[i / 64], Count(i % 64))], bits[i := true])
  {
    hide Test, Set, Count;
    var w := Set(words[i / 64], Count(i % 64));
    forall j: nat | j < |bits| && j / 64 == i / 64
      ensures BitAt(words[i / 64 := w], j) == if j == i then true else BitAt(words, j)
    {
      CountsDiffer(i % 64, j % 64);
      SetLocal(words[i / 64], Count(i % 64), Count(j % 64));
    }
    PacksUpdate(words, bits, i, w, true);
  }

  /** clear_fdbit, on all words. */
  lemma PacksClear(words: seq<bv64>, bits: seq<bool>, i: nat)
    requires Packs(words, bits) && i < |bits|
    ensures Packs(words[i / 64 := Clear(words[i / 64], Count(i % 64))], bits[i := false])
  {
    hide Test, Clear, Count;
    var w := Clear(words[i / 64], Count(i % 64));
    forall j: nat | j < |bits| && j / 64 == i / 64
      ensures BitAt(words[i / 64 := w], j) == if j == i then false else BitAt(words, j)
    {
      CountsDiffer(i % 64, j % 64);
      ClearLocal(words[i / 64], Count(i % 64), Count(j % 64));
    }
    PacksUpdate(words, bits, i, w, false);
  }

  /** New words are zero, and stand for closed descriptors. */
  lemma PacksGrown(words: seq<bv64>, bits: seq<bool>, n: nat)
    requires Packs(words, bits)
    ensures Packs(words + seq(n, i => 0), bits + seq(64 * n, i => false))
  {
    hide Test, Count;
    var words', bits' := words + seq(n, i => 0), bits + seq(64 * n, i => false);
    forall i: nat | i < |bits'|
      ensures bits'[i] == BitAt(words', i)
    {
      if i < |bits| {
        assert bits[i] == BitAt(words, i);
      } else {
        NoneInZero(Count(i % 64));
      }
    }
  }

  // ---- whole words -------------------------------------------------------

  function Above(w: bv64, k: bv6): (x: bv64) {
    w >> k
  }

  lemma HigherBit(w: bv64, k: bv6)
    requires Above(w, k) != 0
    ensures if k == 63 then Test(w, k) else Test(w, k) || Above(w, k + 1) != 0
  {
  }

  /** A word that is not zero from bit k on has a bit set from there on. */
  lemma {:induction false} SomeBit(w: bv64, k: nat) returns (j: nat)
    requires k < 64 && Above(w, Count(k)) != 0
    ensures k <= j < 64 && Test(w, Count(j))
    decreases 64 - k
  {
    hide Test, Above;
    j := k;
    HigherBit(w, Count(k));
    if !Test(w, Count(k)) {
      CountNumber(k);
      if k == 63 {
        CountTop(Count(k));
      } else {
        CountBelow(Count(k), k);
        j := SomeBit(w, k + 1);
      }
    }
  }

  lemma CountTop(b: bv6)
    requires b as nat == 63
    ensures b == 63
  {
  }

  /** Comparing word i with zero is asking whether none of its descriptors is in the set. */
  lemma ZeroWord(words: seq<bv64>, bits: seq<bool>, i: nat)
    requires Packs(words, bits) && i < |words|
    ensures words[i] == 0 <==> Zero(bits, i)
  {
    hide Test, Count, Packs, Above;
    BitOf(words, bits, i, 0);
    if words[i] == 0 {
      forall k | WORD * i <= k < WORD * i + WORD
        ensures !bits[k]
      {
        BitOf(words, bits, i, k - WORD * i);
        NoneInZero(Count(k - WORD * i));
      }
    } else {
      CountNumber(0);
      CountZero(Count(0));
      AboveNone(words[i]);
      var j := SomeBit(words[i], 0);
      BitOf(words, bits, i, j);
    }
  }

  lemma CountZero(b: bv6)
    requires b as nat == 0
    ensures b == 0
  {
  }

  lemma AboveNone(w: bv64)
    ensures Above(w, 0) == w
  {
  }

  lemma BitOf(words: seq<bv64>, bits: seq<bool>, i: nat, j: nat)
    requires Packs(words, bits) && i < |words| && j < 64
    ensures WORD * i + WORD <= |bits| && bits[WORD * i + j] == Test(words[i], Count(j))
  {
    hide Test, Count;
    var k := WORD * i + j;
    assert k / 64 == i && k % 64 == j;
    assert bits[k] == BitAt(words, k);
  }

  // ---- the search --------------------------------------------------------

  /** `ffs`, which takes an int: one more than the number of the first bit set among the low 32, or 0. */
  function Ffs(w: bv64, k: nat): (r: nat)
    requires k <= HALF
    decreases HALF - k
  {
    if k == HALF then 0 else if Test(w, Count(k)) then k + 1 else Ffs(w, k + 1)
  }

  lemma {:induction false} FfsIs(w: bv64, k: nat, r: nat)
    requires k <= HALF && (r == 0 || (k < r <= HALF && Test(w, Count(r - 1))))
    requires forall j: nat :: k <= j < (if r == 0 then HALF else r - 1) ==> !Test(w, Count(j))
    ensures Ffs(w, k) == r
    decreases HALF - k
  {
    hide Test, Count;
    if k < HALF && !Test(w, Count(k)) {
      FfsIs(w, k + 1, r);
    }
  }

  /** What the search finds in word i of the table is `ffs` of its complement. */
  lemma SearchIsFfs(words: seq<bv64>, bits: seq<bool>, i: nat, r: nat)
    requires Packs(words, bits) && i < |words| && r <= HALF && WORD * i + WORD <= |bits|
    requires r > 0 ==> !bits[WORD * i + r - 1]
    requires forall k :: WORD * i <= k < WORD * i + (if r == 0 then HALF else r - 1) ==> bits[k]
    ensures Ffs(!words[i], 0) == r
  {
    hide Test, Count, Packs;
    forall j: nat | j < 64
      ensures Test(!words[i], Count(j)) == !bits[WORD * i + j]
    {
      BitOf(words, bits, i, j);
      CountNumber(j);
      NotLocal(words[i], Count(j));
    }
    FfsIs(!words[i], 0, r);
  }
}
