/**
 The bit tricks of the hash table: two flag bits per bucket, sixteen buckets to
 a word, and rounding up to a power of two by smearing the top bit. The flag
 words stand for the table's sequence of flags, through every update, and the
 smearing computes the table's rounding on every 32-bit number.
 */
module HashBits {
  import opened HashTable
  import opened Probing

  /** Where the flags of bucket i are in its word. */
  function Place(i: bv32): (s: bv32)
    ensures s <= 30
  {
    (i & 0xf) << 1
  }

  predicate IsEmpty(w: bv32, i: bv32) {
    (w >> Place(i)) & 2 != 0
  }

  predicate IsDel(w: bv32, i: bv32) {
    (w >> Place(i)) & 1 != 0
  }

  function SetDelTrue(w: bv32, i: bv32): (w': bv32) {
    w | ((1 as bv32) << Place(i))
  }

  function SetEmptyFalse(w: bv32, i: bv32): (w': bv32) {
    w & !((2 as bv32) << Place(i))
  }

  function SetBothFalse(w: bv32, i: bv32): (w': bv32) {
    w & !((3 as bv32) << Place(i))
  }

  /** Marking a bucket deleted touches that one flag. */
  lemma DelTrueLocal(w: bv32, i: bv32, j: bv32)
    requires i < 16 && j < 16
    ensures IsEmpty(SetDelTrue(w, i), j) == IsEmpty(w, j)
    ensures IsDel(SetDelTrue(w, i), j) == (IsDel(w, j) || i == j)
  {
  }

  /** Marking a bucket as not empty touches that one flag. */
  lemma EmptyFalseLocal(w: bv32, i: bv32, j: bv32)
    requires i < 16 && j < 16
    ensures IsEmpty(SetEmptyFalse(w, i), j) == (IsEmpty(w, j) && i != j)
    ensures IsDel(SetEmptyFalse(w, i), j) == IsDel(w, j)
  {
  }

  /** Marking a bucket live touches its two flags. */
  lemma BothFalseLocal(w: bv32, i: bv32, j: bv32)
    requires i < 16 && j < 16
    ensures IsEmpty(SetBothFalse(w, i), j) == (IsEmpty(w, j) && i != j)
    ensures IsDel(SetBothFalse(w, i), j) == (IsDel(w, j) && i != j)
  {
  }

  /** The bytes new flags are filled with mark every bucket empty and not deleted. */
  lemma FreshFlags(j: bv32)
    ensures IsEmpty(0xaaaa_aaaa, j) && !IsDel(0xaaaa_aaaa, j)
  {
  }

  // ---- the flag words as a sequence of flags -----------------------------

  /** A bucket's place among the sixteen of its word. */
  function Slot(i: nat): (b: bv32)
    requires i < 16
  {
    if i == 0 then 0 else Slot(i - 1) + 1
  }

  lemma SlotNext(b: bv32)
    requires b < 15
    ensures (b + 1) as nat == b as nat + 1
  {
  }

  lemma {:induction false} SlotNumber(i: nat)
    requires i < 16
    ensures Slot(i) < 16 && Slot(i) as nat == i
  {
    if i > 0 {
      SlotNumber(i - 1);
      SlotNext(Slot(i - 1));
    }
  }

  lemma SlotsDiffer(i: nat, j: nat)
    requires i < 16 && j < 16
    ensures Slot(i) < 16 && Slot(j) < 16 && (Slot(i) == Slot(j) <==> i == j)
  {
    hide Slot;
    SlotNumber(i);
    SlotNumber(j);
  }

  /** The number of flag words of a table. */
  function FlagWords(n: nat): (k: nat) {
    if n < 16 then 1 else n / 16
  }

  lemma EnoughWords(n: nat)
    requires IsPow2(n)
    ensures 16 * (FlagWords(n) - 1) < n <= 16 * FlagWords(n)
  {
    if n >= 16 {
      assert IsPow2(n / 2) && IsPow2(n / 2 / 2) && IsPow2(n / 2 / 2 / 2) && n / 2 / 2 / 2 % 2 == 0;
    }
  }

  /** The flags of bucket i, as the macros read them. */
  function FlagAt(words: seq<bv32>, i: nat): (f: Flag)
    requires i < 16 * |words|
  {
    Flag(IsEmpty(words[i / 16], Slot(i % 16)), IsDel(words[i / 16], Slot(i % 16)))
  }

  /** The words hold these flags. */
  ghost predicate Packs(words: seq<bv32>, flags: seq<Flag>) {
    |flags| <= 16 * |words| && forall i: nat :: i < |flags| ==> flags[i] == FlagAt(words, i)
  }

  /** One word changes; the flags of one bucket change with it, and no others. */
  lemma PacksUpdate(words: seq<bv32>, flags: seq<Flag>, i: nat, w: bv32, f: Flag)
    requires Packs(words, flags) && i < |flags|
    requires FlagAt(words[i / 16 := w], i) == f
    requires forall j: nat :: j < |flags| && j != i && j / 16 == i / 16 ==>
             FlagAt(words[i / 16 := w], j) == FlagAt(words, j)
    ensures Packs(words[i / 16 := w], flags[i := f])
  {
    hide IsEmpty, IsDel, Slot;
    var words' := words[i / 16 := w];
    forall j: nat | j < |flags|
      ensures flags[i := f][j] == FlagAt(words', j)
    {
      assert flags[j] == FlagAt(words, j);
    }
  }

  /** Marking a bucket deleted, as a deletion and a rehash do. */
  lemma PacksDeleted(words: seq<bv32>, flags: seq<Flag>, i: nat)
    requires Packs(words, flags) && i < |flags|
    ensures Packs(words[i / 16 := SetDelTrue(words[i / 16], Slot(i % 16))], flags[i := Deleted(flags[i])])
  {
    hide IsEmpty, IsDel, SetDelTrue, Slot;
    var w := SetDelTrue(words[i / 16], Slot(i % 16));
    forall j: nat | j < |flags| && j / 16 == i / 16
      ensures FlagAt(words[i / 16 := w], j) == if j == i then Deleted(flags[i]) else FlagAt(words, j)
    {
      SlotsDiffer(i % 16, j % 16);
      DelTrueLocal(words[i / 16], Slot(i % 16), Slot(j % 16));
    }
    PacksUpdate(words, flags, i, w, Deleted(flags[i]));
  }

  /** Marking a bucket as not empty, as a rehash does in the new flags. */
  lemma PacksFilled(words: seq<bv32>, flags: seq<Flag>, i: nat)
    requires Packs(words, flags) && i < |flags|
    ensures Packs(words[i / 16 := SetEmptyFalse(words[i / 16], Slot(i % 16))], flags[i := Filled(flags[i])])
  {
    hide IsEmpty, IsDel, SetEmptyFalse, Slot;
    var w := SetEmptyFalse(words[i / 16], Slot(i % 16));
    forall j: nat | j < |flags| && j / 16 == i / 16
      ensures FlagAt(words[i / 16 := w], j) == if j == i then Filled(flags[i]) else FlagAt(words, j)
    {
      SlotsDiffer(i % 16, j % 16);
      EmptyFalseLocal(words[i / 16], Slot(i % 16), Slot(j % 16));
    }
    PacksUpdate(words, flags, i, w, Filled(flags[i]));
  }

  /** Marking a bucket live, as an insertion does. */
  lemma PacksLive(words: seq<bv32>, flags: seq<Flag>, i: nat)
    requires Packs(words, flags) && i < |flags|
    ensures Packs(words[i / 16 := SetBothFalse(words[i / 16], Slot(i % 16))], flags[i := Flag(false, false)])
  {
    hide IsEmpty, IsDel, SetBothFalse, Slot;
    var w := SetBothFalse(words[i / 16], Slot(i % 16));
    forall j: nat | j < |flags| && j / 16 == i / 16
      ensures FlagAt(words[i / 16 := w], j) == if j == i then Flag(false, false) else FlagAt(words, j)
    {
      SlotsDiffer(i % 16, j % 16);
      BothFalseLocal(words[i / 16], Slot(i % 16), Slot(j % 16));
    }
    assert flags[i] == FlagAt(words, i);
    PacksUpdate(words, flags, i, w, Flag(false, false));
  }

  /** Fresh flag words stand for empty buckets. */
  lemma PacksFresh(words: seq<bv32>, flags: seq<Flag>)
    requires |flags| <= 16 * |words| && forall k :: 0 <= k < |words| ==> words[k] == 0xaaaa_aaaa
    requires forall i :: 0 <= i < |flags| ==> flags[i] == EMPTY
    ensures Packs(words, flags)
  {
    hide IsEmpty, IsDel, Slot;
    forall i: nat | i < |flags|
      ensures flags[i] == FlagAt(words, i)
    {
      FreshFlags(Slot(i % 16));
    }
  }

  // ---- rounding up to a power of two -------------------------------------

  function Kroundup32(x: bv32): (r: bv32) {
    var a := x - 1;
    var b := a | (a >> 1);
    var c := b | (b >> 2);
    var d := c | (c >> 4);
    var e := d | (d >> 8);
    var f := e | (e >> 16);
    f + 1
  }

  /** The least power of two that is not below x. */
  lemma KroundupLeast(x: bv32)
    requires 0 < x <= 0x8000_0000
    ensures var r := Kroundup32(x); r != 0 && r & (r - 1) == 0 && x <= r && (r >> 1) < x
  {
  }

  /** The number that a word stands for. */
  function Num(x: bv32): (n: nat) {
    x as nat
  }

  lemma SmearIs(x: bv32, p: bv32)
    requires p != 0 && p & (p - 1) == 0 && (p >> 1) < x <= p
    ensures Kroundup32(x) == p
  {
  }

  lemma LeastIs(n: nat, q: nat)
    requires IsPow2(q) && n <= q <= MAX_BUCKETS && q < 2 * n
    ensures RoundUp32(n) == q
  {
    hide LeastPow2;
    var r := RoundUp32(n);
    if r < q {
      Pow2Between(r, q);
    } else if q < r {
      Pow2Between(q, r);
    }
  }

  lemma Bracket(x: bv32, p: bv32, q: nat)
    requires p != 0 && p & (p - 1) == 0 && (p >> 1) < x <= p
    requires Num(p) == q && IsPow2(q) && Num(x) <= q <= MAX_BUCKETS && q < 2 * Num(x)
    ensures RoundUp32(Num(x)) == Num(Kroundup32(x))
  {
    hide Kroundup32, RoundUp32, IsPow2, Num;
    SmearIs(x, p);
    LeastIs(Num(x), q);
  }

  lemma WrapsToZero(x: bv32)
    requires x == 0 || x > 0x8000_0000
    ensures RoundUp32(Num(x)) == Num(Kroundup32(x))
  {
    assert Kroundup32(x) == 0;
  }

  lemma Powers0()
    ensures IsPow2(0x1) && IsPow2(0x2) && IsPow2(0x4) && IsPow2(0x8)
    ensures IsPow2(0x10) && IsPow2(0x20) && IsPow2(0x40) && IsPow2(0x80)
  {
    assert IsPow2(1);
    DoublePow2(0x1);
    DoublePow2(0x2);
    DoublePow2(0x4);
    DoublePow2(0x8);
    DoublePow2(0x10);
    DoublePow2(0x20);
    DoublePow2(0x40);
  }

  /** Words and numbers compare with these powers in the same way. */
  lemma Marks0(x: bv32)
    ensures x <= 0 <==> Num(x) <= 0
    ensures (x <= 0x1 <==> Num(x) <= 0x1) && Num(0x1) == 0x1
    ensures (x <= 0x2 <==> Num(x) <= 0x2) && Num(0x2) == 0x2
    ensures (x <= 0x4 <==> Num(x) <= 0x4) && Num(0x4) == 0x4
    ensures (x <= 0x8 <==> Num(x) <= 0x8) && Num(0x8) == 0x8
    ensures (x <= 0x10 <==> Num(x) <= 0x10) && Num(0x10) == 0x10
    ensures (x <= 0x20 <==> Num(x) <= 0x20) && Num(0x20) == 0x20
    ensures (x <= 0x40 <==> Num(x) <= 0x40) && Num(0x40) == 0x40
    ensures (x <= 0x80 <==> Num(x) <= 0x80) && Num(0x80) == 0x80
  {
  }

  lemma Rounds0(x: bv32)
    requires 0 < x <= 0x80
    ensures RoundUp32(Num(x)) == Num(Kroundup32(x))
  {
    hide Kroundup32, RoundUp32, IsPow2, Num;
    Powers0();
    Marks0(x);
    if x <= 0x1 {
      Bracket(x, 0x1, 0x1);
    } else if x <= 0x2 {
      Bracket(x, 0x2, 0x2);
    } else if x <= 0x4 {
      Bracket(x, 0x4, 0x4);
    } else if x <= 0x8 {
      Bracket(x, 0x8, 0x8);
    } else if x <= 0x10 {
      Bracket(x, 0x10, 0x10);
    } else if x <= 0x20 {
      Bracket(x, 0x20, 0x20);
    } else if x <= 0x40 {
      Bracket(x, 0x40, 0x40);
    } else if x <= 0x80 {
      Bracket(x, 0x80, 0x80);
    }
  }

  lemma Powers1()
    ensures IsPow2(0x100) && IsPow2(0x200) && IsPow2(0x400) && IsPow2(0x800)
    ensures IsPow2(0x1000) && IsPow2(0x2000) && IsPow2(0x4000) && IsPow2(0x8000)
  {
    Powers0();
    DoublePow2(0x80);
    DoublePow2(0x100);
    DoublePow2(0x200);
    DoublePow2(0x400);
    DoublePow2(0x800);
    DoublePow2(0x1000);
    DoublePow2(0x2000);
    DoublePow2(0x4000);
  }

  /** Words and numbers compare with these powers in the same way. */
  lemma Marks1(x: bv32)
    ensures (x <= 0x80 <==> Num(x) <= 0x80) && Num(0x80) == 0x80
    ensures (x <= 0x100 <==> Num(x) <= 0x100) && Num(0x100) == 0x100
    ensures (x <= 0x200 <==> Num(x) <= 0x200) && Num(0x200) == 0x200
    ensures (x <= 0x400 <==> Num(x) <= 0x400) && Num(0x400) == 0x400
    ensures (x <= 0x800 <==> Num(x) <= 0x800) && Num(0x800) == 0x800
    ensures (x <= 0x1000 <==> Num(x) <= 0x1000) && Num(0x1000) == 0x1000
    ensures (x <= 0x2000 <==> Num(x) <= 0x2000) && Num(0x2000) == 0x2000
    ensures (x <= 0x4000 <==> Num(x) <= 0x4000) && Num(0x4000) == 0x4000
    ensures (x <= 0x8000 <==> Num(x) <= 0x8000) && Num(0x8000) == 0x8000
  {
  }

  lemma Rounds1(x: bv32)
    requires 0x80 < x <= 0x8000
    ensures RoundUp32(Num(x)) == Num(Kroundup32(x))
  {
    hide Kroundup32, RoundUp32, IsPow2, Num;
    Powers1();
    Marks1(x);
    if x <= 0x100 {
      Bracket(x, 0x100, 0x100);
    } else if x <= 0x200 {
      Bracket(x, 0x200, 0x200);
    } else if x <= 0x400 {
      Bracket(x, 0x400, 0x400);
    } else if x <= 0x800 {
      Bracket(x, 0x800, 0x800);
    } else if x <= 0x1000 {
      Bracket(x, 0x1000, 0x1000);
    } else if x <= 0x2000 {
      Bracket(x, 0x2000, 0x2000);
    } else if x <= 0x4000 {
      Bracket(x, 0x4000, 0x4000);
    } else if x <= 0x8000 {
      Bracket(x, 0x8000, 0x8000);
    }
  }

  lemma Powers2()
    ensures IsPow2(0x1_0000) && IsPow2(0x2_0000) && IsPow2(0x4_0000) && IsPow2(0x8_0000)
    ensures IsPow2(0x10_0000) && IsPow2(0x20_0000) && IsPow2(0x40_0000) && IsPow2(0x80_0000)
  {
    Powers1();
    DoublePow2(0x8000);
    DoublePow2(0x1_0000);
    DoublePow2(0x2_0000);
    DoublePow2(0x4_0000);
    DoublePow2(0x8_0000);
    DoublePow2(0x10_0000);
    DoublePow2(0x20_0000);
    DoublePow2(0x40_0000);
  }

  /** Words and numbers compare with these powers in the same way. */
  lemma Marks2(x: bv32)
    ensures (x <= 0x8000 <==> Num(x) <= 0x8000) && Num(0x8000) == 0x8000
    ensures (x <= 0x1_0000 <==> Num(x) <= 0x1_0000) && Num(0x1_0000) == 0x1_0000
    ensures (x <= 0x2_0000 <==> Num(x) <= 0x2_0000) && Num(0x2_0000) == 0x2_0000
    ensures (x <= 0x4_0000 <==> Num(x) <= 0x4_0000) && Num(0x4_0000) == 0x4_0000
    ensures (x <= 0x8_0000 <==> Num(x) <= 0x8_0000) && Num(0x8_0000) == 0x8_0000
    ensures (x <= 0x10_0000 <==> Num(x) <= 0x10_0000) && Num(0x10_0000) == 0x10_0000
    ensures (x <= 0x20_0000 <==> Num(x) <= 0x20_0000) && Num(0x20_0000) == 0x20_0000
    ensures (x <= 0x40_0000 <==> Num(x) <= 0x40_0000) && Num(0x40_0000) == 0x40_0000
    ensures (x <= 0x80_0000 <==> Num(x) <= 0x80_0000) && Num(0x80_0000) == 0x80_0000
  {
  }

  lemma Rounds2(x: bv32)
    requires 0x8000 < x <= 0x80_0000
    ensures RoundUp32(Num(x)) == Num(Kroundup32(x))
  {
    hide Kroundup32, RoundUp32, IsPow2, Num;
    Powers2();
    Marks2(x);
    if x <= 0x1_0000 {
      Bracket(x, 0x1_0000, 0x1_0000);
    } else if x <= 0x2_0000 {
      Bracket(x, 0x2_0000, 0x2_0000);
    } else if x <= 0x4_0000 {
      Bracket(x, 0x4_0000, 0x4_0000);
    } else if x <= 0x8_0000 {
      Bracket(x, 0x8_0000, 0x8_0000);
    } else if x <= 0x10_0000 {
      Bracket(x, 0x10_0000, 0x10_0000);
    } else if x <= 0x20_0000 {
      Bracket(x, 0x20_0000, 0x20_0000);
    } else if x <= 0x40_0000 {
      Bracket(x, 0x40_0000, 0x40_0000);
    } else if x <= 0x80_0000 {
      Bracket(x, 0x80_0000, 0x80_0000);
    }
  }

  lemma Powers3()
    ensures IsPow2(0x100_0000) && IsPow2(0x200_0000) && IsPow2(0x400_0000) && IsPow2(0x800_0000)
    ensures IsPow2(0x1000_0000) && IsPow2(0x2000_0000) && IsPow2(0x4000_0000) && IsPow2(0x8000_0000)
  {
    Powers2();
    DoublePow2(0x80_0000);
    DoublePow2(0x100_0000);
    DoublePow2(0x200_0000);
    DoublePow2(0x400_0000);
    DoublePow2(0x800_0000);
    DoublePow2(0x1000_0000);
    DoublePow2(0x2000_0000);
    DoublePow2(0x4000_0000);
  }

  /** Words and numbers compare with these powers in the same way. */
  lemma Marks3(x: bv32)
    ensures (x <= 0x80_0000 <==> Num(x) <= 0x80_0000) && Num(0x80_0000) == 0x80_0000
    ensures (x <= 0x100_0000 <==> Num(x) <= 0x100_0000) && Num(0x100_0000) == 0x100_0000
    ensures (x <= 0x200_0000 <==> Num(x) <= 0x200_0000) && Num(0x200_0000) == 0x200_0000
    ensures (x <= 0x400_0000 <==> Num(x) <= 0x400_0000) && Num(0x400_0000) == 0x400_0000
    ensures (x <= 0x800_0000 <==> Num(x) <= 0x800_0000) && Num(0x800_0000) == 0x800_0000
    ensures (x <= 0x1000_0000 <==> Num(x) <= 0x1000_0000) && Num(0x1000_0000) == 0x1000_0000
    ensures (x <= 0x2000_0000 <==> Num(x) <= 0x2000_0000) && Num(0x2000_0000) == 0x2000_0000
    ensures (x <= 0x4000_0000 <==> Num(x) <= 0x4000_0000) && Num(0x4000_0000) == 0x4000_0000
    ensures (x <= 0x8000_0000 <==> Num(x) <= 0x8000_0000) && Num(0x8000_0000) == 0x8000_0000
  {
  }

  lemma Rounds3(x: bv32)
    requires 0x80_0000 < x <= 0x8000_0000
    ensures RoundUp32(Num(x)) == Num(Kroundup32(x))
  {
    hide Kroundup32, RoundUp32, IsPow2, Num;
    Powers3();
    Marks3(x);
    if x <= 0x100_0000 {
      Bracket(x, 0x100_0000, 0x100_0000);
    } else if x <= 0x200_0000 {
      Bracket(x, 0x200_0000, 0x200_0000);
    } else if x <= 0x400_0000 {
      Bracket(x, 0x400_0000, 0x400_0000);
    } else if x <= 0x800_0000 {
      Bracket(x, 0x800_0000, 0x800_0000);
    } else if x <= 0x1000_0000 {
      Bracket(x, 0x1000_0000, 0x1000_0000);
    } else if x <= 0x2000_0000 {
      Bracket(x, 0x2000_0000, 0x2000_0000);
    } else if x <= 0x4000_0000 {
      Bracket(x, 0x4000_0000, 0x4000_0000);
    } else if x <= 0x8000_0000 {
      Bracket(x, 0x8000_0000, 0x8000_0000);
    }
  }

  /** The smearing trick is the table's rounding, for every 32-bit number. */
  lemma KroundupIs(x: bv32)
    ensures RoundUp32(x as nat) == Kroundup32(x) as nat
  {
    hide Kroundup32, RoundUp32;
    if x == 0 || x > 0x8000_0000 {
      WrapsToZero(x);
    } else if x <= 0x80 {
      Rounds0(x);
    } else if x <= 0x8000 {
      Rounds1(x);
    } else if x <= 0x80_0000 {
      Rounds2(x);
    } else {
      Rounds3(x);
    }
  }
}
