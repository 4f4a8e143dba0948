/**
 The allocator of the shared arena: a circular, address-ordered list of free
 blocks with coalescing, above it a break that only moves up. Addresses count
 header-sized units from the list's own header `BASE`; the first block starts
 two units above it. `next` and `size` are the two words of every unit of the
 arena, whether a header is there or not.
 */
module ShmAllocator {
  import opened Common
  import opened Lists

  const NULL: int := -1
  const BASE: int := 0
  const START: int := 2
  const UNIT: int := 16
  const NALLOC: int := 1024

  // ---- blocks tile the arena -------------------------------------------

  ghost predicate Block(size: seq<int>, heads: set<int>, brk: int, h: int)
    requires 0 <= brk <= |size|
  {
    && START <= h < brk && size[h] > 0
    && (h + size[h] == brk || (h + size[h] < brk && h + size[h] in heads))
  }

  ghost predicate Apart(size: seq<int>, h: int, k: int) {
    0 <= h < |size| && h + size[h] <= k
  }

  /** The blocks lie one after the other, without gap or overlap, from START to the break. */
  ghost predicate Tiles(size: seq<int>, heads: set<int>, brk: int) {
    && START <= brk <= |size|
    && (brk == START || START in heads)
    && (forall h {:trigger Block(size, heads, brk, h)} :: h in heads ==> Block(size, heads, brk, h))
    && (forall h, k {:trigger Apart(size, h, k)} :: h in heads && k in heads && h < k ==> Apart(size, h, k))
  }

  /** Every unit below the break is in exactly one block. */
  lemma {:induction false} InOneBlock(size: seq<int>, heads: set<int>, brk: int, u: int, from: int) returns (h: int)
    requires Tiles(size, heads, brk) && from in heads && from <= u < brk
    ensures h in heads && 0 <= h < |size| && h <= u < h + size[h]
    ensures forall k :: k in heads && 0 <= k < |size| && k <= u < k + size[k] ==> k == h
    decreases u - from
  {
    assert Block(size, heads, brk, from);
    if u < from + size[from] {
      h := from;
      forall k | k in heads && 0 <= k < |size| && k <= u < k + size[k]
        ensures k == h
      {
        assert Apart(size, h, k) || Apart(size, k, h) || h == k;
      }
    } else {
      h := InOneBlock(size, heads, brk, u, from + size[from]);
    }
  }

  lemma MergeBlock(size: seq<int>, heads: set<int>, brk: int, h: int, k: int, x: int)
    requires Tiles(size, heads, brk) && h in heads && k in heads && 0 <= h < |size| && 0 <= k < |size|
             && h + size[h] == k
    requires x in heads - {k}
    ensures Block(size[h := size[h] + size[k]], heads - {k}, brk, x)
  {
    assert Block(size, heads, brk, h) && Block(size, heads, brk, k) && Block(size, heads, brk, x);
    if x < h {
      assert Apart(size, x, h);
    } else if h < x {
      assert Apart(size, h, x) && Apart(size, k, x);
    }
  }

  lemma MergeApart(size: seq<int>, heads: set<int>, brk: int, h: int, k: int, x: int, y: int)
    requires Tiles(size, heads, brk) && h in heads && k in heads && 0 <= h < |size| && 0 <= k < |size|
             && h + size[h] == k
    requires x in heads - {k} && y in heads - {k} && x < y
    ensures Apart(size[h := size[h] + size[k]], x, y)
  {
    assert Apart(size, x, y);
    if x == h {
      assert Block(size, heads, brk, k) && Block(size, heads, brk, y) && Apart(size, h, y);
      assert k < y;
      assert Apart(size, k, y);
    }
  }

  /** The second of two neighbours is not the first block of the arena. */
  lemma FirstBlock(size: seq<int>, heads: set<int>, brk: int, h: int, k: int)
    requires Tiles(size, heads, brk) && h in heads && k in heads && 0 <= h < |size| && h + size[h] == k
    ensures k != START
  {
    assert Block(size, heads, brk, h);
  }

  /** Two blocks next to each other become one. */
  lemma MergeTiles(size: seq<int>, heads: set<int>, brk: int, h: int, k: int)
    requires Tiles(size, heads, brk) && h in heads && k in heads && 0 <= h < |size| && 0 <= k < |size|
             && h + size[h] == k
    ensures Tiles(size[h := size[h] + size[k]], heads - {k}, brk)
  {
    hide Block, Apart;
    var size', heads' := size[h := size[h] + size[k]], heads - {k};
    forall x | x in heads'
      ensures Block(size', heads', brk, x)
    {
      MergeBlock(size, heads, brk, h, k, x);
    }
    forall x, y | x in heads' && y in heads' && x < y
      ensures Apart(size', x, y)
    {
      MergeApart(size, heads, brk, h, k, x, y);
    }
    FirstBlock(size, heads, brk, h, k);
  }

  lemma CutBlock(size: seq<int>, heads: set<int>, brk: int, h: int, n: int, x: int)
    requires Tiles(size, heads, brk) && h in heads && 0 <= h < |size| && 0 < n < size[h]
    requires var t := h + size[h] - n; h < t < brk && t !in heads && x in heads + {t}
    ensures var t := h + size[h] - n; Block(size[h := size[h] - n][t := n], heads + {t}, brk, x)
  {
    var t := h + size[h] - n;
    assert Block(size, heads, brk, h);
    assert x != t ==> Block(size, heads, brk, x);
  }

  lemma CutApart(size: seq<int>, heads: set<int>, brk: int, h: int, n: int, x: int, y: int)
    requires Tiles(size, heads, brk) && h in heads && 0 <= h < |size| && 0 < n < size[h]
    requires var t := h + size[h] - n; h < t < brk && t !in heads && x in heads + {t} && y in heads + {t} && x < y
    ensures var t := h + size[h] - n; Apart(size[h := size[h] - n][t := n], x, y)
  {
    var t := h + size[h] - n;
    assert x != t ==> Block(size, heads, brk, x);
    assert x != t && y != t ==> Apart(size, x, y);
    assert y == t && x < h ==> Apart(size, x, h);
    assert y == t && h < x ==> Apart(size, h, x);
    assert x == t && h < y ==> Apart(size, h, y);
  }

  /** A block is cut in two. */
  lemma CutTiles(size: seq<int>, heads: set<int>, brk: int, h: int, n: int)
    requires Tiles(size, heads, brk) && h in heads && 0 <= h < |size| && 0 < n < size[h]
    ensures var t := h + size[h] - n;
            && 0 <= t < |size| && t !in heads
            && Tiles(size[h := size[h] - n][t := n], heads + {t}, brk)
  {
    var t := h + size[h] - n;
    assert Block(size, heads, brk, h);
    assert t in heads ==> Apart(size, h, t);
    var size', heads' := size[h := size[h] - n][t := n], heads + {t};
    hide Block, Apart;
    forall x {:trigger Block(size', heads', brk, x)} | x in heads'
      ensures Block(size', heads', brk, x)
    {
      CutBlock(size, heads, brk, h, n, x);
    }
    forall x, y {:trigger Apart(size', x, y)} | x in heads' && y in heads' && x < y
      ensures Apart(size', x, y)
    {
      CutApart(size, heads, brk, h, n, x, y);
    }
  }

  /** The break moves up over a new block. */
  lemma GrowTiles(size: seq<int>, heads: set<int>, brk: int, n: int)
    requires Tiles(size, heads, brk) && 0 < n && brk + n <= |size|
    ensures brk !in heads && Tiles(size[brk := n], heads + {brk}, brk + n)
  {
    var size', heads', brk' := size[brk := n], heads + {brk}, brk + n;
    assert brk in heads ==> Block(size, heads, brk, brk);
    forall x | x in heads'
      ensures Block(size', heads', brk', x)
    {
      assert x != brk ==> Block(size, heads, brk, x);
    }
    forall x, y | x in heads' && y in heads' && x < y
      ensures Apart(size', x, y)
    {
      assert x != brk ==> Block(size, heads, brk, x);
      assert y != brk ==> Block(size, heads, brk, y);
      assert x != brk && y != brk ==> Apart(size, x, y);
    }
  }

  // ---- the free list ---------------------------------------------------

  function After(fl: seq<int>, i: int): (n: int)
    requires 0 <= i < |fl|
  {
    if i + 1 < |fl| then fl[i + 1] else fl[0]
  }

  /** The free blocks in address order, behind BASE; none ends where the next begins. */
  ghost predicate Rising(size: seq<int>, heads: set<int>, fl: seq<int>) {
    && |fl| > 0 && fl[0] == BASE && |size| > START && size[BASE] == 0
    && (forall i :: 0 < i < |fl| ==> fl[i] in heads && START <= fl[i] < |size|)
    && (forall i, j :: 0 <= i < j < |fl| ==> fl[i] < fl[j])
    && (forall i :: 0 < i < |fl| - 1 ==> fl[i] + size[fl[i]] < fl[i + 1])
  }

  /** The links run through the list in order and back to its start once; the one at index g may be out of date. */
  ghost predicate LinkedBut(next: seq<int>, fl: seq<int>, g: int) {
    forall i :: 0 <= i < |fl| && i != g ==> 0 <= fl[i] < |next| && next[fl[i]] == After(fl, i)
  }

  ghost predicate FreeList(next: seq<int>, size: seq<int>, heads: set<int>, fl: seq<int>) {
    Rising(size, heads, fl) && |next| == |size| && LinkedBut(next, fl, -1)
  }

  ghost function Free(fl: seq<int>): (s: set<int>) {
    set i | 0 < i < |fl| :: fl[i]
  }

  /** bp belongs right behind index g. */
  ghost predicate Gap(fl: seq<int>, g: int, bp: int) {
    0 <= g < |fl| && fl[g] < bp && (g + 1 < |fl| ==> bp < fl[g + 1])
  }

  /** A gap that the links have lost is found by address alone, and there is only one. */
  lemma GapUnique(size: seq<int>, heads: set<int>, fl: seq<int>, g: int, g': int, bp: int)
    requires Rising(size, heads, fl) && Gap(fl, g, bp) && Gap(fl, g', bp)
    ensures g == g'
  {
    assert forall i, j :: 0 <= i <= j < |fl| ==> fl[i] <= fl[j];
  }

  lemma {:induction false} GapExists(size: seq<int>, heads: set<int>, fl: seq<int>, bp: int, n: int) returns (g: int)
    requires Rising(size, heads, fl) && START <= bp && bp !in fl && 0 < n <= |fl|
    requires n < |fl| ==> bp < fl[n]
    ensures Gap(fl, g, bp)
    decreases n
  {
    if fl[n - 1] < bp {
      g := n - 1;
    } else {
      assert fl[n - 1] != bp;
      g := GapExists(size, heads, fl, bp, n - 1);
    }
  }

  /** The block after the gap starts at or above the end of bp, and bp at or above the end of the one before. */
  lemma GapApart(size: seq<int>, heads: set<int>, brk: int, fl: seq<int>, g: int, bp: int)
    requires Tiles(size, heads, brk) && Rising(size, heads, fl) && Gap(fl, g, bp) && bp in heads
    ensures START <= bp < |size| && size[bp] > 0 && bp !in fl
    ensures 0 <= fl[g] < |size| && fl[g] + size[fl[g]] <= bp
    ensures g + 1 < |fl| ==> 0 <= fl[g + 1] < |size| && size[fl[g + 1]] > 0 && bp + size[bp] <= fl[g + 1]
    ensures g > 0 ==> fl[g] in heads
  {
    assert Block(size, heads, brk, bp);
    assert g > 0 ==> Apart(size, fl[g], bp);
    if g + 1 < |fl| {
      assert Apart(size, bp, fl[g + 1]) && Block(size, heads, brk, fl[g + 1]);
    }
    forall i | 0 <= i < |fl|
      ensures fl[i] != bp
    {
      assert i < g ==> fl[i] < fl[g];
      assert i > g + 1 ==> fl[g + 1] < fl[i];
    }
  }

  lemma SizeElsewhere(size: seq<int>, heads: set<int>, fl: seq<int>, w: int, v: int)
    requires Rising(size, heads, fl) && w !in fl && 0 <= w < |size|
    ensures Rising(size[w := v], heads, fl)
  {
  }

  lemma AbsorbLinks(next: seq<int>, fl: seq<int>, g: int, bp: int)
    requires LinkedBut(next, fl, -1) && bp !in fl && 0 <= bp < |next| && 0 <= g < |fl| - 1 && 0 <= fl[g + 1] < |next|
    ensures var next', fl' := next[bp := next[fl[g + 1]]], RemoveAt(fl, g + 1);
            LinkedBut(next', fl', g) && next'[bp] == After(fl', g)
  {
    var next', fl' := next[bp := next[fl[g + 1]]], RemoveAt(fl, g + 1);
    forall i | 0 <= i < |fl'| && i != g
      ensures 0 <= fl'[i] < |next'| && next'[fl'[i]] == After(fl', i)
    {
      var j := if i <= g then i else i + 1;
      assert fl'[i] == fl[j] && next[fl[j]] == After(fl, j) && fl[j] != bp;
    }
    assert next[fl[g + 1]] == After(fl, g + 1);
  }

  /** The gap stays when the block behind it has left the list, and bp with that block ends before the next. */
  lemma AbsorbGap(size: seq<int>, heads: set<int>, brk: int, fl: seq<int>, g: int, bp: int)
    requires Tiles(size, heads, brk) && Rising(size, heads, fl) && Gap(fl, g, bp) && bp in heads
    requires 0 <= bp < |size| && g + 1 < |fl| && 0 <= fl[g + 1] < |size| && bp + size[bp] == fl[g + 1]
    ensures var fl', k := RemoveAt(fl, g + 1), fl[g + 1];
            && 0 <= g && k in heads && Gap(fl', g, bp) && fl'[g] == fl[g] && bp !in fl' && 0 <= fl[g] < |size|
               && fl[g] + size[fl[g]] <= bp
            && START <= bp && size[bp] > 0 && size[k] > 0 && bp !in fl && fl[g] != bp
            && (g + 1 < |fl'| ==> bp + size[bp] + size[k] < fl'[g + 1])
  {
    hide Tiles;
    GapApart(size, heads, brk, fl, g, bp);
    AfterGap(size, heads, fl, g);
    var fl' := RemoveAt(fl, g + 1);
    assert g + 1 < |fl'| ==> fl'[g + 1] == fl[g + 2] && fl[g + 1] < fl[g + 2];
    assert fl'[g] == fl[g];
  }

  lemma AbsorbRising(size: seq<int>, heads: set<int>, fl: seq<int>, g: int, bp: int)
    requires Rising(size, heads, fl) && 0 <= g < |fl| - 1 && 0 <= bp < |size| && bp !in fl
    requires 0 <= fl[g + 1] < |size| && size[fl[g + 1]] > 0 && bp !in RemoveAt(fl, g + 1)
    ensures var k := fl[g + 1]; Rising(size[bp := size[bp] + size[k]], heads - {k}, RemoveAt(fl, g + 1))
    ensures Free(RemoveAt(fl, g + 1)) == Free(fl) - {fl[g + 1]}
  {
    hide Free;
    var k := fl[g + 1];
    RemoveFree(fl, g + 1);
    RemoveRising(size, heads, fl, g + 1);
    SizeElsewhere(size, heads - {k}, RemoveAt(fl, g + 1), bp, size[bp] + size[k]);
  }

  /** Absorbing the block behind bp: it leaves the list, and the link at g is out of date. */
  lemma AbsorbUp(next: seq<int>, size: seq<int>, heads: set<int>, brk: int, fl: seq<int>, g: int, bp: int)
    requires Tiles(size, heads, brk) && FreeList(next, size, heads, fl) && Gap(fl, g, bp) && bp in heads
    requires 0 <= bp < |size| && g + 1 < |fl| && 0 <= fl[g + 1] < |size| && bp + size[bp] == fl[g + 1]
    ensures var k := fl[g + 1];
            Loose(next[bp := next[k]], size[bp := size[bp] + size[k]], heads - {k}, brk, RemoveAt(fl, g + 1), g, bp)
    ensures Free(RemoveAt(fl, g + 1)) == Free(fl) - {fl[g + 1]}
  {
    hide Tiles, Free, LinkedBut, Rising;
    var k := fl[g + 1];
    AbsorbGap(size, heads, brk, fl, g, bp);
    MergeTiles(size, heads, brk, bp, k);
    AbsorbRising(size, heads, fl, g, bp);
    AbsorbLinks(next, fl, g, bp);
  }

  lemma AfterGap(size: seq<int>, heads: set<int>, fl: seq<int>, g: int)
    requires Rising(size, heads, fl) && 0 <= g < |fl| - 1
    ensures g + 2 < |fl| ==> fl[g + 1] + size[fl[g + 1]] < fl[g + 2]
  {
  }

  /** bp is a block about to be linked in behind index g; it knows its successor and does not touch it. */
  ghost predicate Loose(next: seq<int>, size: seq<int>, heads: set<int>, brk: int, fl: seq<int>, g: int, bp: int) {
    && |next| == |size| && Tiles(size, heads, brk) && Rising(size, heads, fl) && LinkedBut(next, fl, g)
    && Gap(fl, g, bp) && bp in heads && bp !in fl && START <= bp < |size| && size[bp] > 0
    && next[bp] == After(fl, g) && (g + 1 < |fl| ==> bp + size[bp] < fl[g + 1])
    && fl[g] + size[fl[g]] <= bp
  }

  /** Nothing to absorb behind bp. */
  lemma KeepUp(next: seq<int>, size: seq<int>, heads: set<int>, brk: int, fl: seq<int>, g: int, bp: int)
    requires Tiles(size, heads, brk) && FreeList(next, size, heads, fl) && Gap(fl, g, bp) && bp in heads
    requires 0 <= bp < |size| && (g + 1 < |fl| ==> bp + size[bp] != fl[g + 1])
    ensures Loose(next[bp := After(fl, g)], size, heads, brk, fl, g, bp)
  {
    hide Tiles;
    GapApart(size, heads, brk, fl, g, bp);
  }

  lemma LinkLinks(next: seq<int>, fl: seq<int>, g: int, bp: int)
    requires LinkedBut(next, fl, g) && 0 <= g < |fl| && bp !in fl && 0 <= fl[g] < |next| && 0 <= bp < |next|
    requires next[bp] == After(fl, g) && forall i, k :: 0 <= i < k < |fl| ==> fl[i] < fl[k]
    ensures LinkedBut(next[fl[g] := bp], InsertAt(fl, g + 1, bp), -1)
  {
    var next', fl' := next[fl[g] := bp], InsertAt(fl, g + 1, bp);
    forall i | 0 <= i < |fl'|
      ensures 0 <= fl'[i] < |next'| && next'[fl'[i]] == After(fl', i)
    {
      if i <= g {
        assert fl'[i] == fl[i];
      } else if i > g + 1 {
        assert fl'[i] == fl[i - 1] && next[fl[i - 1]] == After(fl, i - 1);
      }
    }
  }

  /** Linking bp in behind index g. */
  lemma LinkIn(next: seq<int>, size: seq<int>, heads: set<int>, brk: int, fl: seq<int>, g: int, bp: int)
    requires Loose(next, size, heads, brk, fl, g, bp) && fl[g] + size[fl[g]] != bp
    ensures FreeList(next[fl[g] := bp], size, heads, InsertAt(fl, g + 1, bp))
    ensures Free(InsertAt(fl, g + 1, bp)) == Free(fl) + {bp}
  {
    hide Tiles, Free, LinkedBut;
    InsertFree(fl, g, bp);
    InsertRising(size, heads, fl, g, bp);
    LinkLinks(next, fl, g, bp);
  }

  lemma InsertOrder(fl: seq<int>, g: int, bp: int)
    requires Gap(fl, g, bp) && forall i, j :: 0 <= i < j < |fl| ==> fl[i] < fl[j]
    ensures var fl' := InsertAt(fl, g + 1, bp); forall i, j :: 0 <= i < j < |fl'| ==> fl'[i] < fl'[j]
  {
    var fl' := InsertAt(fl, g + 1, bp);
    forall i, j | 0 <= i < j < |fl'|
      ensures fl'[i] < fl'[j]
    {
      assert i < g ==> fl[i] < fl[g];
      assert g + 1 < j - 1 ==> fl[g + 1] < fl[j - 1];
    }
  }

  lemma InsertRising(size: seq<int>, heads: set<int>, fl: seq<int>, g: int, bp: int)
    requires Rising(size, heads, fl) && Gap(fl, g, bp) && bp in heads && START <= bp < |size|
    requires g + 1 < |fl| ==> bp + size[bp] < fl[g + 1]
    requires fl[g] + size[fl[g]] < bp
    ensures Rising(size, heads, InsertAt(fl, g + 1, bp))
  {
    var fl' := InsertAt(fl, g + 1, bp);
    InsertOrder(fl, g, bp);
    forall i | 0 < i < |fl'|
      ensures fl'[i] in heads && START <= fl'[i] < |size|
      ensures i < |fl'| - 1 ==> fl'[i] + size[fl'[i]] < fl'[i + 1]
    {
      assert i <= g ==> fl'[i] == fl[i];
      assert i < g ==> fl'[i + 1] == fl[i + 1];
      assert i > g + 1 ==> fl'[i] == fl[i - 1] && (i < |fl'| - 1 ==> fl'[i + 1] == fl[i]);
    }
  }

  lemma JoinRising(size: seq<int>, heads: set<int>, fl: seq<int>, g: int, bp: int)
    requires Rising(size, heads, fl) && Gap(fl, g, bp) && START <= bp < |size| && bp !in fl
    requires fl[g] + size[fl[g]] == bp && (g + 1 < |fl| ==> bp + size[bp] < fl[g + 1])
    ensures 0 < g && fl[g] in heads && 0 <= fl[g] < |size|
    ensures Rising(size[fl[g] := size[fl[g]] + size[bp]], heads - {bp}, fl)
  {
  }

  lemma Relink(next: seq<int>, fl: seq<int>, g: int)
    requires LinkedBut(next, fl, g) && 0 <= g < |fl| && 0 <= fl[g] < |next|
    requires forall i, j :: 0 <= i < j < |fl| ==> fl[i] < fl[j]
    ensures LinkedBut(next[fl[g] := After(fl, g)], fl, -1)
  {
  }

  /** Joining bp to the block before it. */
  lemma JoinDown(next: seq<int>, size: seq<int>, heads: set<int>, brk: int, fl: seq<int>, g: int, bp: int)
    requires Loose(next, size, heads, brk, fl, g, bp) && fl[g] + size[fl[g]] == bp
    ensures FreeList(next[fl[g] := next[bp]], size[fl[g] := size[fl[g]] + size[bp]], heads - {bp}, fl)
    ensures Tiles(size[fl[g] := size[fl[g]] + size[bp]], heads - {bp}, brk)
  {
    hide Tiles, Free, LinkedBut;
    JoinRising(size, heads, fl, g, bp);
    Relink(next, fl, g);
    MergeTiles(size, heads, brk, fl[g], bp);
  }

  lemma RemoveFree(fl: seq<int>, j: int)
    requires 0 < j < |fl| && forall i, j :: 0 <= i < j < |fl| ==> fl[i] < fl[j]
    ensures Free(RemoveAt(fl, j)) == Free(fl) - {fl[j]}
  {
    var fl' := RemoveAt(fl, j);
    forall x | x in Free(fl) - {fl[j]}
      ensures x in Free(fl')
    {
      var i :| 0 < i < |fl| && fl[i] == x;
      assert fl'[if i < j then i else i - 1] == x;
    }
    forall x | x in Free(fl')
      ensures x in Free(fl) - {fl[j]}
    {
      var i :| 0 < i < |fl'| && fl'[i] == x;
      assert fl[if i < j then i else i + 1] == x;
    }
  }

  lemma InsertFree(fl: seq<int>, g: int, bp: int)
    requires 0 <= g < |fl|
    ensures Free(InsertAt(fl, g + 1, bp)) == Free(fl) + {bp}
  {
    var fl' := InsertAt(fl, g + 1, bp);
    forall x | x in Free(fl) + {bp}
      ensures x in Free(fl')
    {
      if x == bp {
        assert fl'[g + 1] == bp;
      } else {
        var i :| 0 < i < |fl| && fl[i] == x;
        assert fl'[if i <= g then i else i + 1] == x;
      }
    }
    forall x | x in Free(fl')
      ensures x in Free(fl) + {bp}
    {
      var i :| 0 < i < |fl'| && fl'[i] == x;
      assert i != g + 1 ==> fl[if i <= g then i else i - 1] == x;
    }
  }

  lemma RemoveRising(size: seq<int>, heads: set<int>, fl: seq<int>, j: int)
    requires Rising(size, heads, fl) && 0 < j < |fl| && size[fl[j]] > 0
    ensures Rising(size, heads - {fl[j]}, RemoveAt(fl, j))
  {
    var fl' := RemoveAt(fl, j);
    forall i | 0 < i < |fl'|
      ensures fl'[i] in heads - {fl[j]} && START <= fl'[i] < |size|
    {
      assert fl'[i] == fl[if i < j then i else i + 1];
    }
    forall i | 0 < i < |fl'| - 1
      ensures fl'[i] + size[fl'[i]] < fl'[i + 1]
    {
      assert i < j ==> fl'[i] == fl[i] && fl[i] + size[fl[i]] < fl[i + 1];
      assert i + 1 < j ==> fl'[i + 1] == fl[i + 1];
      assert i + 1 >= j ==> fl'[i + 1] == fl[i + 2];
      assert i >= j ==> fl'[i] == fl[i + 1];
    }
  }

  lemma RisingIn(size: seq<int>, heads: set<int>, heads': set<int>, fl: seq<int>)
    requires Rising(size, heads, fl) && heads <= heads'
    ensures Rising(size, heads', fl)
  {
  }

  lemma TakeLink(next: seq<int>, fl: seq<int>, j: int, i: int)
    requires 0 < j < |fl| && 0 <= i < |fl| - 1 && forall i, k :: 0 <= i < k < |fl| ==> fl[i] < fl[k]
    requires 0 <= fl[j - 1] < |next| && 0 <= fl[j] < |next| && next[fl[j]] == After(fl, j)
    requires var i' := if i < j then i else i + 1; 0 <= fl[i'] < |next| && next[fl[i']] == After(fl, i')
    ensures var next', fl' := next[fl[j - 1] := next[fl[j]]], RemoveAt(fl, j);
            0 <= fl'[i] < |next'| && next'[fl'[i]] == After(fl', i)
  {
    if i < j - 1 {
      assert fl[i] < fl[j - 1];
    } else if i >= j {
      assert fl[j - 1] < fl[i + 1];
    }
  }

  lemma TakeLinks(next: seq<int>, fl: seq<int>, j: int)
    requires LinkedBut(next, fl, -1) && 0 < j < |fl| && forall i, k :: 0 <= i < k < |fl| ==> fl[i] < fl[k]
    ensures 0 <= fl[j - 1] < |next| && 0 <= fl[j] < |next|
    ensures LinkedBut(next[fl[j - 1] := next[fl[j]]], RemoveAt(fl, j), -1)
  {
    assert next[fl[j - 1]] == After(fl, j - 1) && next[fl[j]] == After(fl, j);
    forall i | 0 <= i < |RemoveAt(fl, j)|
      ensures var next', fl' := next[fl[j - 1] := next[fl[j]]], RemoveAt(fl, j);
              0 <= fl'[i] < |next'| && next'[fl'[i]] == After(fl', i)
    {
      TakeLink(next, fl, j, i);
    }
  }

  /** Taking a whole block off the list. */
  lemma TakeWhole(next: seq<int>, size: seq<int>, heads: set<int>, fl: seq<int>, j: int)
    requires FreeList(next, size, heads, fl) && 0 < j < |fl| && size[fl[j]] > 0
    ensures FreeList(next[fl[j - 1] := next[fl[j]]], size, heads, RemoveAt(fl, j))
    ensures Free(RemoveAt(fl, j)) == Free(fl) - {fl[j]}
  {
    hide Free, LinkedBut;
    RemoveFree(fl, j);
    RemoveRising(size, heads, fl, j);
    RisingIn(size, heads - {fl[j]}, heads, RemoveAt(fl, j));
    TakeLinks(next, fl, j);
  }

  /** Cutting the tail end off a free block. */
  lemma TakeTail(next: seq<int>, size: seq<int>, heads: set<int>, brk: int, fl: seq<int>, j: int, n: int)
    requires FreeList(next, size, heads, fl) && Tiles(size, heads, brk) && 0 < j < |fl| && 0 < n < size[fl[j]]
    ensures var p := fl[j];
            var t := p + (size[p] - n);
            && 0 <= t < |size| && t !in heads && t !in fl && p < t < p + size[p]
            && Tiles(size[p := size[p] - n][t := n], heads + {t}, brk)
            && FreeList(next, size[p := size[p] - n][t := n], heads + {t}, fl)
  {
    hide LinkedBut;
    var p := fl[j];
    CutTiles(size, heads, brk, p, n);
    var t := p + size[p] - n;
    hide Tiles;
    assert forall i :: 0 <= i < |fl| ==> fl[i] != t;
  }

  // ---- what an operation leaves alone ----------------------------------

  /** The block at h keeps its size, and every word of its payload. */
  ghost predicate Same(next: seq<int>, size: seq<int>, next': seq<int>, size': seq<int>, h: int) {
    && |next| == |size| == |next'| == |size'| && 0 <= h < |size| && size'[h] == size[h]
    && forall u :: h < u < h + size[h] && u < |size| ==> next'[u] == next[u] && size'[u] == size[u]
  }

  lemma SameChain(next0: seq<int>, size0: seq<int>, next1: seq<int>, size1: seq<int>, next2: seq<int>, size2: seq<int>,
                  h: int)
    requires Same(next0, size0, next1, size1, h) && Same(next1, size1, next2, size2, h)
    ensures Same(next0, size0, next2, size2, h)
  {
  }

  /** The free blocks' headers are outside the block at h. */
  lemma HeadOutside(size: seq<int>, heads: set<int>, brk: int, h: int, w: int)
    requires Tiles(size, heads, brk) && h in heads && (w in heads || w == BASE) && w != h && 0 <= h < |size|
    ensures w < h || h + size[h] <= w
  {
    assert Block(size, heads, brk, h);
    assert w in heads && h < w ==> Apart(size, h, w);
  }

  lemma SameWrites(next: seq<int>, size: seq<int>, next': seq<int>, size': seq<int>, h: int, w1: int, w2: int)
    requires |next| == |size| == |next'| == |size'| && 0 <= h < |size| && size[h] > 0
    requires forall u :: 0 <= u < |size| && u != w1 && u != w2 ==> next'[u] == next[u] && size'[u] == size[u]
    requires (w1 < h || h + size[h] <= w1) && (w2 < h || h + size[h] <= w2)
    ensures Same(next, size, next', size', h)
  {
  }

  function Units(nbytes: int): (n: int)
    requires 0 <= nbytes
    ensures n > 0 && nbytes <= (n - 1) * UNIT < nbytes + UNIT
  {
    (nbytes + UNIT - 1) / UNIT + 1
  }

  function Chunk(nunits: int): (n: int)
    requires 0 < nunits
    ensures nunits <= n < nunits + NALLOC && n % NALLOC == 0
  {
    (nunits + NALLOC - 1) / NALLOC * NALLOC
  }

  /** No free block has n units. */
  ghost predicate TooSmall(size: seq<int>, fl: seq<int>, n: int) {
    forall i :: 0 <= i < |fl| ==> 0 <= fl[i] < |size| && size[fl[i]] < n
  }

  /** The pointers given out and not yet taken back belong to live blocks. */
  ghost predicate PtrsLive(ptrs: seq<Option<int>>, live: set<int>) {
    forall i :: 0 <= i < |ptrs| && ptrs[i].Some? ==> ptrs[i].value - 1 in live
  }

  ghost predicate PtrsOnce(ptrs: seq<Option<int>>) {
    forall i, j :: 0 <= i < j < |ptrs| && ptrs[i].Some? && ptrs[j].Some? ==> ptrs[i] != ptrs[j]
  }

  /** The pointer of every live block is held. */
  ghost predicate LiveHeld(ptrs: seq<Option<int>>, live: set<int>) {
    forall h :: h in live ==> Some(h + 1) in ptrs
  }

  ghost predicate HeldBy(ptrs: seq<Option<int>>, live: set<int>) {
    PtrsLive(ptrs, live) && PtrsOnce(ptrs) && LiveHeld(ptrs, live)
  }

  lemma HeldNone(live: set<int>)
    requires live == {}
    ensures HeldBy([], live)
  {
  }

  lemma LiveMore(ptrs: seq<Option<int>>, live: set<int>, r: Option<int>)
    requires LiveHeld(ptrs, live)
    ensures LiveHeld(ptrs + [r], if r.Some? then live + {r.value - 1} else live)
  {
    forall h | h in live || (r.Some? && h == r.value - 1)
      ensures Some(h + 1) in ptrs + [r]
    {
      assert h in live ==> Some(h + 1) in ptrs;
      assert h !in live ==> (ptrs + [r])[|ptrs|] == Some(h + 1);
    }
  }

  lemma HeldLive(ptrs: seq<Option<int>>, live: set<int>)
    requires HeldBy(ptrs, live)
    ensures PtrsLive(ptrs, live)
  {
  }

  lemma HeldMore(ptrs: seq<Option<int>>, live: set<int>, r: Option<int>)
    requires HeldBy(ptrs, live) && (r.Some? ==> r.value - 1 !in live)
    ensures HeldBy(ptrs + [r], if r.Some? then live + {r.value - 1} else live)
  {
    hide LiveHeld;
    LiveMore(ptrs, live, r);
  }

  lemma LiveLess(ptrs: seq<Option<int>>, live: set<int>, k: nat)
    requires LiveHeld(ptrs, live) && k < |ptrs|
    ensures LiveHeld(ptrs[k := None], live - (if ptrs[k].Some? then {ptrs[k].value - 1} else {}))
  {
    forall h | h in live && ptrs[k] != Some(h + 1)
      ensures Some(h + 1) in ptrs[k := None]
    {
      var i :| 0 <= i < |ptrs| && ptrs[i] == Some(h + 1);
      assert ptrs[k := None][i] == ptrs[i];
    }
  }

  lemma HeldLess(ptrs: seq<Option<int>>, live: set<int>, k: nat)
    requires HeldBy(ptrs, live) && k < |ptrs|
    ensures HeldBy(ptrs[k := None], live - (if ptrs[k].Some? then {ptrs[k].value - 1} else {}))
    ensures ptrs[k].Some? ==> ptrs[k].value - 1 in live
  {
    hide LiveHeld;
    LiveLess(ptrs, live, k);
  }

  /** The last free block below an address; the list starts with the base, below every block. */
  ghost predicate LastBelow(fl: seq<int>, bp: int, f: int) {
    f in fl && f < bp && forall i :: 0 <= i < |fl| && fl[i] < bp ==> fl[i] <= f
  }

  lemma GapIsLast(size: seq<int>, heads: set<int>, fl: seq<int>, g: int, bp: int)
    requires Rising(size, heads, fl) && Gap(fl, g, bp)
    ensures LastBelow(fl, bp, fl[g])
  {
  }

  // ---- runs ----------------------------------------------------------------

  /** The sizes a run asks for, in order. */
  ghost function Requests(ops: seq<Op>): (r: seq<nat>) {
    if ops == [] then [] else
      Requests(ops[..|ops| - 1]) + (if ops[|ops| - 1].DoMalloc? then [ops[|ops| - 1].nbytes] else [])
  }

  lemma RequestsOn(ops: seq<Op>, n: nat)
    requires n < |ops|
    ensures Requests(ops[..n + 1]) == Requests(ops[..n]) + (if ops[n].DoMalloc? then [ops[n].nbytes] else [])
  {
    assert ops[..n + 1][..n] == ops[..n];
  }

  /** The k-th pointer is given up by operation m. */
  ghost predicate Frees(ops: seq<Op>, m: nat, k: nat) {
    m < |ops| && ops[m] == DoFree(k) && k < |Requests(ops[..m])|
  }

  /** Every pointer held has its size, and every freed one is gone. */
  ghost predicate Served(ops: seq<Op>, n: nat, ptrs: seq<Option<int>>, size: seq<int>)
    requires n <= |ops|
  {
    && |ptrs| == |Requests(ops[..n])|
    && (forall k :: 0 <= k < |ptrs| && ptrs[k].Some? ==> HasUnits(size, ptrs[k].value, Requests(ops[..n])[k]))
    && (forall m: nat, k: nat :: m < n && Frees(ops, m, k) && k < |ptrs| ==> ptrs[k] == None)
  }

  /** The block at a pointer is as large as a request for nbytes. */
  ghost predicate HasUnits(size: seq<int>, ptr: int, nbytes: nat) {
    0 < ptr <= |size| && size[ptr - 1] == Units(nbytes)
  }

  lemma {:induction false} RequestsGrow(ops: seq<Op>, m: nat, n: nat)
    requires m <= n <= |ops|
    ensures |Requests(ops[..m])| <= |Requests(ops[..n])|
    decreases n
  {
    if m < n {
      RequestsGrow(ops, m, n - 1);
      RequestsOn(ops, n - 1);
    }
  }

  ghost predicate Stays(size: seq<int>, size': seq<int>, live: set<int>) {
    forall h :: h in live ==> 0 <= h < |size| && h < |size'| && size'[h] == size[h]
  }

  lemma ServedNone(ops: seq<Op>, size: seq<int>)
    ensures Served(ops, 0, [], size)
  {
  }

  lemma UnitsStay(size: seq<int>, size': seq<int>, live: set<int>, ptr: int, nbytes: nat)
    requires Stays(size, size', live) && ptr - 1 in live && HasUnits(size, ptr, nbytes)
    ensures HasUnits(size', ptr, nbytes)
  {
  }

  lemma ServedMore(ops: seq<Op>, n: nat, ptrs: seq<Option<int>>, size: seq<int>, size': seq<int>, live: set<int>,
                   r: Option<int>)
    requires n < |ops| && ops[n].DoMalloc? && Served(ops, n, ptrs, size)
    requires PtrsLive(ptrs, live) && Stays(size, size', live)
    requires r.Some? ==> HasUnits(size', r.value, ops[n].nbytes)
    ensures Served(ops, n + 1, ptrs + [r], size')
  {
    hide HasUnits, Stays;
    RequestsOn(ops, n);
    forall k | 0 <= k < |ptrs| && ptrs[k].Some?
      ensures HasUnits(size', ptrs[k].value, Requests(ops[..n])[k])
    {
      UnitsStay(size, size', live, ptrs[k].value, Requests(ops[..n])[k]);
    }
    forall m: nat, k: nat | m < n + 1 && Frees(ops, m, k) && k < |ptrs| + 1
      ensures (ptrs + [r])[k] == None
    {
      RequestsGrow(ops, m, n);
      assert m < n;
    }
  }

  lemma ServedLess(ops: seq<Op>, n: nat, ptrs: seq<Option<int>>, size: seq<int>, size': seq<int>, live: set<int>,
                   ptrs': seq<Option<int>>)
    requires n < |ops| && ops[n].DoFree? && Served(ops, n, ptrs, size)
    requires ptrs' == if ops[n].k < |ptrs| then ptrs[ops[n].k := None] else ptrs
    requires PtrsLive(ptrs', live) && Stays(size, size', live)
    ensures Served(ops, n + 1, ptrs', size')
  {
    hide HasUnits, Stays;
    RequestsOn(ops, n);
    forall k | 0 <= k < |ptrs'| && ptrs'[k].Some?
      ensures HasUnits(size', ptrs'[k].value, Requests(ops[..n])[k])
    {
      UnitsStay(size, size', live, ptrs[k].value, Requests(ops[..n])[k]);
    }
    forall m: nat, k: nat | m < n + 1 && Frees(ops, m, k) && k < |ptrs'|
      ensures ptrs'[k] == None
    {
      assert m < n || ops[n].k == k;
    }
  }

  class Arena {
    var next: seq<int>
    var size: seq<int>
    var freep: int
    var brk: int
    const limit: int

    ghost var fl: seq<int>
    ghost var heads: set<int>

    ghost predicate Valid()
      reads this
    {
      && |next| == |size| == limit && START < limit && Tiles(size, heads, brk)
      && Rising(size, heads, fl)
      && (freep == NULL ==> brk == START && fl == [BASE])
      && (freep != NULL ==> LinkedBut(next, fl, -1) && freep in fl)
    }

    /** The blocks handed out and not freed yet. */
    ghost function Live(): (s: set<int>)
      reads this
    {
      heads - Free(fl)
    }

    ghost predicate Kept(next0: seq<int>, size0: seq<int>, live: set<int>)
      reads this
    {
      forall h {:trigger Same(next0, size0, next, size, h)} :: h in live ==> Same(next0, size0, next, size, h)
    }

    constructor (n: int)
      requires START < n
      ensures Valid() && Live() == {} && brk == START && limit == n
    {
      limit := n;
      next, size := seq(n, i => 0), seq(n, i => 0);
      freep, brk := NULL, START;
      fl, heads := [BASE], {};
    }

    /** The search of a free: stops at the one gap where the block belongs, wherever it starts. */
    method FindGap(bp: int) returns (p: int, ghost g: int)
      requires Valid() && freep != NULL && bp in Live()
      ensures Gap(fl, g, bp) && fl[g] == p
      ensures LastBelow(fl, bp, p)
    {
      hide IndexOf, LastBelow;
      ghost var s := IndexOf(fl, freep);
      NotListed(size, heads, brk, fl, bp);
      g := GapExists(size, heads, fl, bp, |fl|);
      GapIsLast(size, heads, fl, g, bp);
      p := freep;
      ghost var i := s;
      while !(p < bp && bp < next[p])
        invariant 0 <= i < |fl| && fl[i] == p
        decreases if i <= g then g - i else |fl| - i + g
      {
        assert next[fl[i]] == After(fl, i);
        assert i < g ==> fl[i + 1] <= fl[g];
        assert g < i ==> fl[g + 1] <= fl[i];
        if next[p] <= p && (p < bp || bp < next[p]) {
          GapUnique(size, heads, fl, i, g, bp);
          return p, g;
        }
        p := next[p];
        i := if i + 1 < |fl| then i + 1 else 0;
      }
      assert next[fl[i]] == After(fl, i);
      GapUnique(size, heads, fl, i, g, bp);
    }

    /** First half of a free: bp takes over the block behind it, or points to it. */
    method JoinNext(bp: int, p: int, ghost g: int)
      requires Valid() && freep != NULL && bp in Live() && Gap(fl, g, bp) && fl[g] == p
      modifies this`next, this`size, this`heads, this`fl
      ensures Loose(next, size, heads, brk, fl, g, bp) && |size| == limit && fl[g] == p
      ensures heads - Free(fl) == old(Live()) && bp in heads
      ensures size[bp] >= old(size)[bp]
      ensures forall u :: 0 <= u < limit && u != bp ==> next[u] == old(next)[u] && size[u] == old(size)[u]
    {
      hide Tiles, Rising, LinkedBut, Free;
      GapApart(size, heads, brk, fl, g, bp);
      NextAt(next, size, heads, fl, g);
      if bp + size[bp] == next[p] {
        AbsorbUp(next, size, heads, brk, fl, g, bp);
        ghost var k := fl[g + 1];
        FreeAt(fl, g + 1);
        size, next := size[bp := size[bp] + size[next[p]]], next[bp := next[next[p]]];
        heads, fl := heads - {k}, RemoveAt(fl, g + 1);
      } else {
        KeepUp(next, size, heads, brk, fl, g, bp);
        next := next[bp := next[p]];
      }
    }

    /** Second half of a free: bp joins the block before it, or is linked in behind it. */
    method JoinPrev(bp: int, p: int, ghost g: int)
      requires Loose(next, size, heads, brk, fl, g, bp) && |size| == limit && fl[g] == p
      modifies this`next, this`size, this`heads, this`fl, this`freep
      ensures Valid() && freep == p && Live() == old(Live()) - {bp}
      ensures !TooSmall(size, fl, old(size)[bp])
      ensures forall u :: 0 <= u < limit && u != p ==> next[u] == old(next)[u] && size[u] == old(size)[u]
    {
      hide After, Tiles, LinkedBut, Free;
      assert 0 <= p < limit;
      if p + size[p] == bp {
        JoinDown(next, size, heads, brk, fl, g, bp);
        size, next := size[p := size[p] + size[bp]], next[p := next[bp]];
        heads := heads - {bp};
        assert size[fl[g]] >= old(size)[bp];
      } else {
        LinkIn(next, size, heads, brk, fl, g, bp);
        next := next[p := bp];
        fl := InsertAt(fl, g + 1, bp);
        assert fl[g + 1] == bp && fl[g] == p;
      }
      freep := p;
    }

    /** __shm_free of a block that is live. */
    method Release(bp: int)
      requires Valid() && freep != NULL && bp in Live()
      modifies this`next, this`size, this`heads, this`fl, this`freep
      ensures Valid() && freep != NULL && Live() == old(Live()) - {bp}
      ensures Kept(old(next), old(size), Live())
      ensures 0 <= bp < |old(size)| && !TooSmall(size, fl, old(size)[bp])
      ensures LastBelow(old(fl), bp, freep)
    {
      hide Tiles, Rising, LinkedBut, Free, TooSmall, LastBelow;
      NotListed(size, heads, brk, fl, bp);
      ghost var g;
      var p;
      p, g := FindGap(bp);
      GapApart(size, heads, brk, fl, g, bp);
      AtBase(size, heads, fl, g);
      ghost var next0, size0, heads0, fl0 := next, size, heads, fl;
      JoinNext(bp, p, g);
      ghost var size1, fl1 := size[bp], fl;
      JoinPrev(bp, p, g);
      StillBig(size, fl, size0[bp], size1);
      forall h | h in Live()
        ensures Same(next0, size0, next, size, h)
      {
        LiveApart(size0, heads0, brk, fl0, g, h);
        HeadOutside(size0, heads0, brk, h, bp);
        HeadOutside(size0, heads0, brk, h, p);
        SameWrites(next0, size0, next, size, h, bp, p);
      }
    }

    /** morecore: moves the break up over a new block and frees it; NULL when the arena is used up. */
    method MoreCore(nunits: int) returns (p: int)
      requires Valid() && freep != NULL && 0 < nunits
      modifies this`next, this`size, this`heads, this`fl, this`freep, this`brk
      ensures Valid() && freep != NULL && Live() == old(Live()) && Kept(old(next), old(size), Live())
      ensures p == NULL <==> old(brk) + Chunk(nunits) >= limit
      ensures p == NULL ==> unchanged(this)
      ensures p != NULL ==> p == freep && brk == old(brk) + Chunk(nunits) && !TooSmall(size, fl, nunits)
    {
      hide Tiles, Rising, LinkedBut, Free, TooSmall;
      var n := Chunk(nunits);
      if brk + n >= limit {
        assert Kept(old(next), old(size), Live()) by {
          forall h | h in Live()
            ensures Same(next, size, next, size, h)
          {
            LiveApart(size, heads, brk, fl, 0, h);
          }
        }
        return NULL;
      }
      ghost var next0, size0, heads0, brk0, fl0 := next, size, heads, brk, fl;
      GrowTiles(size, heads, brk, n);
      GrowRising(size, heads, brk, fl, n);
      p := brk;
      brk := brk + n;
      size := size[p := n];
      heads := heads + {p};
      ghost var next1, size1 := next, size;
      Release(p);
      StillBig(size, fl, nunits, n);
      forall h | h in Live()
        ensures Same(next0, size0, next, size, h)
      {
        LiveApart(size0, heads0, brk0, fl0, 0, h);
        InsideTiles(size0, heads0, brk0, h);
        SameWrites(next0, size0, next1, size1, h, brk0, brk0);
        SameChain(next0, size0, next1, size1, next, size, h);
      }
      p := freep;
    }

    /** Once around the list, from the block behind freep to freep itself: the first block that is big enough. */
    method Search(nunits: int) returns (found: bool, p: int, prevp: int, ghost j: int)
      requires Valid() && freep != NULL && 0 < nunits
      ensures found ==> 0 < j < |fl| && fl[j] == p && fl[j - 1] == prevp && 0 <= p < limit && size[p] >= nunits
      ensures !found <==> TooSmall(size, fl, nunits)
      ensures found ==> NextFit(size, fl, freep, nunits, j)
    {
      hide Tiles, Rising, LinkedBut, Seen;
      ghost var s := IndexOf(fl, freep);
      ghost var k := 0;
      NextAt(next, size, heads, fl, s);
      SeenStart(size, fl, s, nunits);
      prevp, p, j := freep, next[freep], Turn(s, 0, |fl|);
      while true
        invariant 0 <= k < |fl| && j == Turn(s, k, |fl|) && 0 <= j < |fl| && fl[j] == p
        invariant fl[if j == 0 then |fl| - 1 else j - 1] == prevp
        invariant Seen(size, fl, s, k, nunits)
        decreases |fl| - k
      {
        NextAt(next, size, heads, fl, j);
        if size[p] >= nunits {
          BigNotBase(size, heads, fl, j);
          FirstSeen(size, fl, s, k, nunits);
          return true, p, prevp, j;
        }
        SameIndex(size, heads, fl, s, j);
        SeenStep(size, fl, s, k, nunits);
        if p == freep {
          SeenAll(size, heads, fl, s, nunits);
          return false, p, prevp, j;
        }
        prevp, p := p, next[p];
        j := if j + 1 < |fl| then j + 1 else 0;
        k := k + 1;
      }
    }

    /** Takes nunits out of the free block at index j: all of it, or its tail end. */
    method Take(p0: int, prevp: int, nunits: int, ghost j: int) returns (p: int)
      requires Valid() && freep != NULL && 0 < nunits && 0 < j < |fl| && fl[j] == p0 && fl[j - 1] == prevp
      requires 0 <= p0 < limit && size[p0] >= nunits
      modifies this`next, this`size, this`heads, this`fl, this`freep
      ensures Valid() && freep != NULL && 0 <= p < limit && p !in old(Live()) && Live() == old(Live()) + {p}
              && size[p] == nunits
      ensures Kept(old(next), old(size), old(Live()))
      ensures p == p0 + old(size)[p0] - nunits && freep == prevp
    {
      hide Tiles, Free, LinkedBut, Rising, Same;
      p := p0;
      ghost var next0, size0, heads0, fl0 := next, size, heads, fl;
      FreeAt(fl, j);
      NextAt(next, size, heads, fl, j);
      NextAt(next, size, heads, fl, j - 1);
      AtBase(size, heads, fl, j);
      AtBase(size, heads, fl, j - 1);
      if size[p] == nunits {
        TakeWhole(next, size, heads, fl, j);
        next := next[prevp := next[p]];
        fl := RemoveAt(fl, j);
        assert fl[j - 1] == prevp;
        forall h | h in heads0 - Free(fl0)
          ensures Same(next0, size0, next, size, h)
        {
          LiveApart(size0, heads0, brk, fl0, j - 1, h);
          HeadOutside(size0, heads0, brk, h, prevp);
          SameWrites(next0, size0, next, size, h, prevp, prevp);
        }
      } else {
        TakeTail(next, size, heads, brk, fl, j, nunits);
        NotFree(fl, p0 + (size[p0] - nunits));
        size := size[p := size[p] - nunits];
        p := p + size[p];
        size := size[p := nunits];
        heads := heads + {p};
        forall h | h in heads0 - Free(fl0)
          ensures Same(next0, size0, next, size, h)
        {
          LiveApart(size0, heads0, brk, fl0, j, h);
          HeadOutside(size0, heads0, brk, h, p0);
          HeadOutside(size0, heads0, brk, p0, h);
          SameWrites(next0, size0, next, size, h, p0, p);
        }
      }
      freep := prevp;
    }

    /** The list of an arena never used before: BASE, linked to itself. */
    method StartList()
      requires Valid() && freep == NULL
      modifies this`next, this`size, this`freep
      ensures Valid() && freep != NULL && size == old(size) && Kept(old(next), old(size), Live())
    {
      hide Tiles;
      ghost var next0 := next;
      next := next[BASE := BASE];
      freep := BASE;
      assert fl[0] == BASE && size[BASE := 0] == size;
      size := size[BASE := 0];
      forall h | h in Live()
        ensures Same(next0, size, next, size, h)
      {
        LiveApart(size, heads, brk, fl, 0, h);
        HeadOutside(size, heads, brk, h, BASE);
        SameWrites(next0, size, next, size, h, BASE, BASE);
      }
    }

    lemma KeptRefl()
      requires Valid()
      ensures Kept(next, size, Live())
    {
      hide Tiles, Rising, LinkedBut, Free;
      forall h | h in Live()
        ensures Same(next, size, next, size, h)
      {
        BaseListed(size, heads, fl);
        LiveApart(size, heads, brk, fl, 0, h);
      }
    }

    lemma KeptChain(next0: seq<int>, size0: seq<int>, next1: seq<int>, size1: seq<int>, live: set<int>)
      requires forall h {:trigger Same(next0, size0, next1, size1, h)} :: h in live ==>
               Same(next0, size0, next1, size1, h)
      requires Kept(next1, size1, live)
      ensures Kept(next0, size0, live)
    {
      forall h | h in live
        ensures Same(next0, size0, next, size, h)
      {
        assert Same(next0, size0, next1, size1, h);
        SameChain(next0, size0, next1, size1, next, size, h);
      }
    }

    /**
     shm_malloc. It fails exactly when no free block is big enough and the arena
     cannot grow, and it grows the arena at most once. Otherwise it takes the tail
     end of the first block behind freep that is big enough, and freep moves to
     the block before that.
     */
    method Malloc(nbytes: int) returns (r: Option<int>)
      requires Valid() && 0 <= nbytes
      modifies this`next, this`size, this`heads, this`fl, this`freep, this`brk
      ensures Valid()
      ensures r.None? <==> TooSmall(old(size), old(fl), Units(nbytes)) && old(brk) + Chunk(Units(nbytes)) >= limit
      ensures r.None? ==> Live() == old(Live())
      ensures r.Some? ==> var h := r.value - 1;
                          && 0 <= h < limit && h !in old(Live()) && Live() == old(Live()) + {h}
                          && size[h] == Units(nbytes) && nbytes <= (size[h] - 1) * UNIT
      ensures Kept(old(next), old(size), old(Live()))
      ensures brk == if r.Some? && TooSmall(old(size), old(fl), Units(nbytes)) then old(brk) + Chunk(Units(nbytes))
              else old(brk)
      ensures !TooSmall(old(size), old(fl), Units(nbytes)) ==>
                r.Some? && TakenNext(old(size), old(fl), old(freep), Units(nbytes), r.value - 1, freep)
    {
      hide Tiles, Rising, LinkedBut, Free, TooSmall, Units, Chunk, Same, NextFit;
      var nunits := Units(nbytes);
      if freep == NULL {
        NothingFree(size, heads, fl, nunits);
        StartList();
      } else {
        KeptRefl();
      }
      ghost var grown := false;
      while true
        invariant Valid() && freep != NULL && Live() == old(Live()) && Kept(old(next), old(size), Live())
        invariant !grown ==> brk == old(brk) && fl == old(fl) && size == old(size)
        invariant !grown ==> freep == old(freep) || TooSmall(old(size), old(fl), nunits)
        invariant grown ==>
                  brk == old(brk) + Chunk(nunits) && TooSmall(old(size), old(fl), nunits) && !TooSmall(size, fl, nunits)
        invariant grown ==> old(brk) + Chunk(nunits) < limit
        decreases !grown
      {
        var found, p, prevp;
        ghost var j;
        found, p, prevp, j := Search(nunits);
        ghost var next1, size1 := next, size;
        if found {
          p := Take(p, prevp, nunits, j);
          KeptChain(old(next), old(size), next1, size1, old(Live()));
          return Some(p + 1);
        }
        p := MoreCore(nunits);
        KeptChain(old(next), old(size), next1, size1, old(Live()));
        if p == NULL {
          return None;
        }
        grown := true;
      }
    }

    /** shm_free of NULL or of a pointer that is live. */
    method FreePtr(ap: Option<int>)
      requires Valid() && (ap.Some? ==> ap.value - 1 in Live())
      modifies this`next, this`size, this`heads, this`fl, this`freep
      ensures Valid() && Live() == old(Live()) - (if ap.Some? then {ap.value - 1} else {})
      ensures Kept(old(next), old(size), Live())
      ensures ap.Some? ==> LastBelow(old(fl), ap.value - 1, freep)
      ensures ap == None ==> next == old(next) && size == old(size) && fl == old(fl) && freep == old(freep)
    {
      hide Tiles, Rising, LinkedBut, Free, TooSmall, Same, LastBelow;
      if ap == None {
        KeptRefl();
        return;
      }
      SomeBlock(size, heads, brk, ap.value - 1);
      Release(ap.value - 1);
    }

    // ---- whole runs ------------------------------------------------------

    /** The pointers a program holds are distinct and are all the live blocks. */
    ghost predicate Held(ptrs: seq<Option<int>>)
      reads this
    {
      HeldBy(ptrs, Live())
    }

    lemma SizesStay(next0: seq<int>, size0: seq<int>, live: set<int>)
      requires Kept(next0, size0, live)
      ensures Stays(size0, size, live)
    {
      forall h | h in live
        ensures 0 <= h < |size0| && h < |size| && size[h] == size0[h]
      {
        assert Same(next0, size0, next, size, h);
      }
    }

    /**
     Any run of mallocs and frees, in which a program gives up a pointer when it
     frees it: the arena stays valid, the live blocks are the pointers held, each
     as large as was asked for, and the freed ones are not among them.
     */
    method Run(ops: seq<Op>) returns (ptrs: seq<Option<int>>)
      requires Valid() && Live() == {}
      modifies this`next, this`size, this`heads, this`fl, this`freep, this`brk
      ensures Valid() && Held(ptrs) && Served(ops, |ops|, ptrs, size)
    {
      hide Tiles, Rising, LinkedBut, Free, TooSmall, Units, Chunk, Same, NextFit, TakenNext, HeldBy, Served, LastBelow,
           Stays, PtrsLive;
      ptrs := [];
      assert Held(ptrs) by { HeldNone(Live()); }
      ServedNone(ops, size);
      for n := 0 to |ops|
        invariant Valid() && Held(ptrs) && Served(ops, n, ptrs, size)
      {
        ghost var next0, size0, live, ptrs0 := next, size, Live(), ptrs;
        match ops[n]
        case DoMalloc(nbytes) =>
          var r := Malloc(nbytes);
          SizesStay(next0, size0, live);
          HeldLive(ptrs, live);
          ServedMore(ops, n, ptrs, size0, size, live, r);
          HeldMore(ptrs, live, r);
          ptrs := ptrs + [r];
        case DoFree(k) =>
          KeptRefl();
          if k < |ptrs| {
            HeldLess(ptrs, Live(), k);
            FreePtr(ptrs[k]);
            ptrs := ptrs[k := None];
          }
          SizesStay(next0, size0, Live());
          HeldLive(ptrs, Live());
          ServedLess(ops, n, ptrs0, size0, size, Live(), ptrs);
      }
    }

    /** Two live blocks do not overlap, and lie between the arena's start and the break. */
    lemma LiveDisjoint(h: int, k: int)
      requires Valid() && h in Live() && k in Live() && h < k
      ensures START <= h && 0 <= h < |size| && 0 <= k < |size| && h + size[h] <= k && k + size[k] <= brk
    {
      InsideTiles(size, heads, brk, h);
      InsideTiles(size, heads, brk, k);
      assert Apart(size, h, k);
    }

    /** What a valid arena is: exact tiling, one address-ordered circle of free blocks, none adjacent. */
    lemma ValidMeans(u: int) returns (h: int)
      requires Valid() && START <= u < brk
      ensures h in heads && 0 <= h < |size| && h <= u < h + size[h]
      ensures forall k :: k in heads && 0 <= k < |size| && k <= u < k + size[k] ==> k == h
      ensures forall i, j :: 0 <= i < j < |fl| ==> fl[i] < fl[j]
      ensures forall i :: 0 <= i < |fl| - 1 ==>
              0 <= fl[i] < |next| && next[fl[i]] == fl[i + 1] && fl[i] + size[fl[i]] != fl[i + 1]
      ensures fl[0] == BASE && 0 <= fl[|fl| - 1] < |next| && next[fl[|fl| - 1]] == BASE
    {
      h := InOneBlock(size, heads, brk, u, START);
    }
  }

  datatype Op = DoMalloc(nbytes: nat) | DoFree(k: nat)

  lemma BaseListed(size: seq<int>, heads: set<int>, fl: seq<int>)
    requires Rising(size, heads, fl)
    ensures |fl| > 0
  {
  }

  lemma SomeBlock(size: seq<int>, heads: set<int>, brk: int, h: int)
    requires Tiles(size, heads, brk) && h in heads
    ensures brk != START
  {
    assert Block(size, heads, brk, h);
  }

  /** The index reached k steps behind s + 1, going around a list of n. */
  function Turn(s: int, k: int, n: int): int {
    if s + 1 + k < n then s + 1 + k else s + 1 + k - n
  }

  /** The k blocks behind index s are all too small. */
  ghost predicate Seen(size: seq<int>, fl: seq<int>, s: int, k: int, n: int) {
    forall i :: 0 <= i < k ==>
        0 <= Turn(s, i, |fl|) < |fl| && 0 <= fl[Turn(s, i, |fl|)] < |size| && size[fl[Turn(s, i, |fl|)]] < n
  }

  lemma SeenStart(size: seq<int>, fl: seq<int>, s: int, n: int)
    ensures Seen(size, fl, s, 0, n)
  {
  }

  lemma SeenStep(size: seq<int>, fl: seq<int>, s: int, k: int, n: int)
    requires Seen(size, fl, s, k, n) && 0 <= Turn(s, k, |fl|) < |fl|
    requires 0 <= fl[Turn(s, k, |fl|)] < |size| && size[fl[Turn(s, k, |fl|)]] < n
    ensures Seen(size, fl, s, k + 1, n)
  {
  }

  lemma SeenAll(size: seq<int>, heads: set<int>, fl: seq<int>, s: int, n: int)
    requires Rising(size, heads, fl) && 0 <= s < |fl| && Seen(size, fl, s, |fl|, n)
    ensures TooSmall(size, fl, n)
  {
    forall i | 0 <= i < |fl|
      ensures 0 <= fl[i] < |size| && size[fl[i]] < n
    {
      var k := if s < i then i - s - 1 else i + |fl| - s - 1;
      assert Turn(s, k, |fl|) == i;
    }
  }

  lemma SameIndex(size: seq<int>, heads: set<int>, fl: seq<int>, i: int, j: int)
    requires Rising(size, heads, fl) && 0 <= i < |fl| && 0 <= j < |fl|
    ensures fl[i] == fl[j] <==> i == j
  {
  }

  lemma BigNotBase(size: seq<int>, heads: set<int>, fl: seq<int>, j: int)
    requires Rising(size, heads, fl) && 0 <= j < |fl| && 0 <= fl[j] < |size| && size[fl[j]] > 0
    ensures j > 0
  {
  }

  /** Block j is the first behind freep, going around, that has n units. */
  ghost predicate NextFit(size: seq<int>, fl: seq<int>, freep: int, n: int, j: int) {
    && 0 < j < |fl| && 0 <= fl[j] < |size| && size[fl[j]] >= n
    && exists s, k ::
       0 <= s < |fl| && fl[s] == freep && 0 <= k < |fl| && j == Turn(s, k, |fl|) && Seen(size, fl, s, k, n)
  }

  /** The tail end of that block is the one handed out. */
  ghost predicate TakenNext(size: seq<int>, fl: seq<int>, freep: int, n: int, h: int, freep': int) {
    exists j :: NextFit(size, fl, freep, n, j) && h == fl[j] + size[fl[j]] - n && freep' == fl[j - 1]
  }

  lemma FirstSeen(size: seq<int>, fl: seq<int>, s: int, k: int, n: int)
    requires 0 <= s < |fl| && 0 <= k < |fl| && Seen(size, fl, s, k, n)
    requires var j := Turn(s, k, |fl|); 0 < j < |fl| && 0 <= fl[j] < |size| && size[fl[j]] >= n
    ensures NextFit(size, fl, fl[s], n, Turn(s, k, |fl|))
  {
  }

  lemma NothingFree(size: seq<int>, heads: set<int>, fl: seq<int>, n: int)
    requires Rising(size, heads, fl) && fl == [BASE] && n > 0
    ensures TooSmall(size, fl, n)
  {
  }

  lemma NotFree(fl: seq<int>, x: int)
    requires x !in fl
    ensures x !in Free(fl)
  {
  }

  lemma InsideTiles(size: seq<int>, heads: set<int>, brk: int, h: int)
    requires Tiles(size, heads, brk) && h in heads
    ensures START <= h && 0 <= h < |size| && h + size[h] <= brk
  {
    assert Block(size, heads, brk, h);
  }

  lemma GrowRising(size: seq<int>, heads: set<int>, brk: int, fl: seq<int>, n: int)
    requires Tiles(size, heads, brk) && Rising(size, heads, fl) && brk < |size|
    ensures START <= brk && brk !in fl && brk !in Free(fl) && Rising(size[brk := n], heads + {brk}, fl)
  {
    forall i | 0 <= i < |fl|
      ensures fl[i] < brk
    {
      if i > 0 {
        InsideTiles(size, heads, brk, fl[i]);
        assert Block(size, heads, brk, fl[i]);
      }
    }
  }

  lemma NextAt(next: seq<int>, size: seq<int>, heads: set<int>, fl: seq<int>, g: int)
    requires LinkedBut(next, fl, -1) && Rising(size, heads, fl) && 0 <= g < |fl|
    ensures 0 <= fl[g] < |next| && next[fl[g]] == After(fl, g) && fl[0] == BASE
  {
  }

  lemma FreeAt(fl: seq<int>, i: int)
    requires 0 < i < |fl|
    ensures fl[i] in Free(fl)
  {
  }

  lemma AtBase(size: seq<int>, heads: set<int>, fl: seq<int>, g: int)
    requires Rising(size, heads, fl) && 0 <= g < |fl|
    ensures if g > 0 then fl[g] in heads else fl[g] == BASE
  {
  }

  lemma StillBig(size: seq<int>, fl: seq<int>, n: int, m: int)
    requires !TooSmall(size, fl, m) && n <= m
    ensures !TooSmall(size, fl, n)
  {
  }

  lemma LiveApart(size: seq<int>, heads: set<int>, brk: int, fl: seq<int>, g: int, h: int)
    requires Tiles(size, heads, brk) && Rising(size, heads, fl) && h in heads - Free(fl) && 0 <= g < |fl|
    ensures 0 <= h < |size| && size[h] > 0 && h != fl[g]
  {
    NotListed(size, heads, brk, fl, h);
  }

  lemma NotListed(size: seq<int>, heads: set<int>, brk: int, fl: seq<int>, bp: int)
    requires Tiles(size, heads, brk) && Rising(size, heads, fl) && bp in heads && bp !in Free(fl)
    ensures bp !in fl && START <= bp < |size| && size[bp] > 0
  {
    assert Block(size, heads, brk, bp);
    forall i | 0 <= i < |fl|
      ensures fl[i] != bp
    {
      assert i > 0 ==> fl[i] in Free(fl);
    }
  }
}
