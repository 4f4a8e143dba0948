/**
 Regions of guest memory and the hypervisor's page map, on values.

 A region maps a page-aligned range of guest addresses to host memory with a
 protection. A page map sends the address of a mapped guest page to its host
 address and protection. `Denotes` says that a page map is exactly the
 translation and protection that a list of regions describes.
 */
module PageMap {
  import opened Common
  import opened Lists

  const PAGE: int := 4096

  predicate Aligned(a: int) {
    a % PAGE == 0
  }

  function RoundUp(x: int): (r: int)
    ensures x <= r < x + PAGE && Aligned(r)
  {
    (x + PAGE - 1) / PAGE * PAGE
  }

  datatype Region = Region(gaddr: int, size: int, haddr: int, prot: bv3, flags: bv32, fd: int, pgoff: int) {
    function End(): int {
      gaddr + size
    }
  }

  datatype Entry = Entry(host: int, prot: bv3)

  type Table = map<int, Entry>

  predicate Covers(r: Region, p: int) {
    r.gaddr <= p < r.End()
  }

  function EntryOf(r: Region, p: int): Entry {
    Entry(r.haddr + (p - r.gaddr), r.prot)
  }

  ghost predicate Sorted(regs: seq<Region>) {
    forall i, j :: 0 <= i < j < |regs| ==> regs[i].End() <= regs[j].gaddr
  }

  predicate OnPages(r: Region) {
    Aligned(r.gaddr) && Aligned(r.size) && r.size >= 0 && Aligned(r.haddr)
  }

  /** In order, disjoint, and on page boundaries; a region may be empty while it is being split. */
  ghost predicate Layout(regs: seq<Region>) {
    Sorted(regs) && forall i :: 0 <= i < |regs| ==> OnPages(regs[i])
  }

  ghost predicate Maps(table: Table, r: Region) {
    forall p :: Aligned(p) && Covers(r, p) ==> p in table && table[p] == EntryOf(r, p)
  }

  ghost predicate Backed(regs: seq<Region>, p: int) {
    exists i :: 0 <= i < |regs| && Covers(regs[i], p)
  }

  ghost predicate Denotes(table: Table, regs: seq<Region>) {
    && (forall i :: 0 <= i < |regs| ==> Maps(table, regs[i]))
    && (forall p :: p in table ==> Aligned(p) && Backed(regs, p))
  }

  /** A list of regions has one page map. */
  lemma DenotesUnique(t1: Table, t2: Table, regs: seq<Region>)
    requires Denotes(t1, regs) && Denotes(t2, regs)
    ensures t1 == t2
  {
    forall p | p in t1
      ensures p in t2 && t1[p] == t2[p]
    {
      var i :| 0 <= i < |regs| && Covers(regs[i], p);
      assert Maps(t1, regs[i]) && Maps(t2, regs[i]);
    }
    forall p | p in t2
      ensures p in t1
    {
      var i :| 0 <= i < |regs| && Covers(regs[i], p);
      assert Maps(t1, regs[i]);
    }
  }

  // ---- the hypervisor's calls ------------------------------------------

  /** hv_vm_unmap. */
  function Unmap(table: Table, a: int, len: int): (t: Table) {
    map p | p in table && !(a <= p < a + len) :: table[p]
  }

  /** hv_vm_map, after unmapping the range. */
  function MapRange(table: Table, a: int, len: int, host: int, prot: bv3): (t: Table) {
    Unmap(table, a, len) + map p | a <= p < a + len && Aligned(p) :: Entry(host + (p - a), prot)
  }

  /** hv_vm_protect. */
  function Protect(table: Table, a: int, len: int, prot: bv3): (t: Table) {
    map p | p in table :: if a <= p < a + len then table[p].(prot := prot) else table[p]
  }

  // ---- list operations -------------------------------------------------

  /** Regions i and i + 1 replace region i, cut at address `at`. */
  ghost function SplitAt(regs: seq<Region>, i: int, at: int): (r: seq<Region>)
    requires 0 <= i < |regs|
  {
    var r := regs[i];
    InsertAt(regs[i := r.(size := at - r.gaddr)], i + 1,
             r.(gaddr := at, size := r.End() - at, haddr := r.haddr + (at - r.gaddr)))
  }

  lemma AlignedDifference(a: int, b: int)
    requires Aligned(a) && Aligned(b)
    ensures Aligned(a - b)
  {
  }

  lemma HeadPiece(table: Table, r: Region, at: int)
    requires Maps(table, r) && OnPages(r) && Aligned(at) && r.gaddr <= at <= r.End()
    ensures var head := r.(size := at - r.gaddr); Maps(table, head) && OnPages(head)
  {
    hide Aligned;
    AlignedDifference(at, r.gaddr);
  }

  lemma TailPiece(table: Table, r: Region, at: int)
    requires Maps(table, r) && OnPages(r) && Aligned(at) && r.gaddr <= at <= r.End()
    ensures var tail := r.(gaddr := at, size := r.End() - at, haddr := r.haddr + (at - r.gaddr));
            Maps(table, tail) && OnPages(tail)
  {
    hide Aligned;
    AlignedDifference(at, r.gaddr);
    AlignedSum(r.haddr, at - r.gaddr);
    AlignedSum(r.gaddr, r.size);
    AlignedDifference(r.End(), at);
  }

  lemma SplitPieces(table: Table, r: Region, at: int)
    requires Maps(table, r) && OnPages(r) && Aligned(at) && r.gaddr <= at <= r.End()
    ensures var head, tail := r.(size := at - r.gaddr), r.(gaddr := at, size := r.End() - at,
            haddr := r.haddr + (at - r.gaddr));
            Maps(table, head) && OnPages(head) && Maps(table, tail) && OnPages(tail)
  {
    hide Aligned, Maps, OnPages;
    HeadPiece(table, r, at);
    TailPiece(table, r, at);
  }

  lemma SplitMaps(table: Table, regs: seq<Region>, i: int, at: int, k: int)
    requires 0 <= i < |regs| && Aligned(at) && regs[i].gaddr <= at <= regs[i].End() && 0 <= k <= |regs|
    requires forall j :: 0 <= j < |regs| ==> Maps(table, regs[j]) && OnPages(regs[j])
    ensures Maps(table, SplitAt(regs, i, at)[k]) && OnPages(SplitAt(regs, i, at)[k])
  {
    hide Maps, OnPages, Aligned;
    SplitPieces(table, regs[i], at);
    var j := if k <= i then k else k - 1;
    assert k != i && k != i + 1 ==> SplitAt(regs, i, at)[k] == regs[j];
  }

  lemma SplitBacked(regs: seq<Region>, i: int, at: int, p: int)
    requires 0 <= i < |regs| && Backed(regs, p)
    ensures Backed(SplitAt(regs, i, at), p)
  {
    var j :| 0 <= j < |regs| && Covers(regs[j], p);
    var k := if j < i then j else if j > i then j + 1 else if p < at then i else i + 1;
    assert Covers(SplitAt(regs, i, at)[k], p);
  }

  /** Splitting a region on a page boundary changes no translation and no protection. */
  lemma SplitDenotes(table: Table, regs: seq<Region>, i: int, at: int)
    requires Layout(regs) && Denotes(table, regs) && 0 <= i < |regs|
    requires Aligned(at) && regs[i].gaddr <= at <= regs[i].End()
    ensures Layout(SplitAt(regs, i, at)) && Denotes(table, SplitAt(regs, i, at))
  {
    forall k | 0 <= k <= |regs|
      ensures Maps(table, SplitAt(regs, i, at)[k]) && OnPages(SplitAt(regs, i, at)[k])
    {
      SplitMaps(table, regs, i, at, k);
    }
    forall p | p in table
      ensures Backed(SplitAt(regs, i, at), p)
    {
      SplitBacked(regs, i, at, p);
    }
    SplitSorted(regs, i, at);
  }

  lemma SplitSorted(regs: seq<Region>, i: int, at: int)
    requires Sorted(regs) && 0 <= i < |regs| && regs[i].gaddr <= at <= regs[i].End()
    ensures Sorted(SplitAt(regs, i, at))
  {
  }

  lemma RemoveMaps(table: Table, regs: seq<Region>, i: int, k: int)
    requires Sorted(regs) && 0 <= i < |regs| && 0 <= k < |regs| - 1
    requires forall j :: 0 <= j < |regs| ==> Maps(table, regs[j]) && OnPages(regs[j])
    ensures Maps(Unmap(table, regs[i].gaddr, regs[i].size), RemoveAt(regs, i)[k]) && OnPages(RemoveAt(regs, i)[k])
  {
    var j := if k < i then k else k + 1;
    assert RemoveAt(regs, i)[k] == regs[j];
    assert Maps(table, regs[j]) && OnPages(regs[j]) && OnPages(regs[i]);
    assert regs[j].End() <= regs[i].gaddr || regs[i].End() <= regs[j].gaddr;
  }

  lemma RemoveBacked(regs: seq<Region>, i: int, p: int)
    requires 0 <= i < |regs| && Backed(regs, p) && !Covers(regs[i], p)
    ensures Backed(RemoveAt(regs, i), p)
  {
    var j :| 0 <= j < |regs| && Covers(regs[j], p);
    assert Covers(RemoveAt(regs, i)[if j < i then j else j - 1], p);
  }

  lemma RemoveSorted(regs: seq<Region>, i: int)
    requires Sorted(regs) && 0 <= i < |regs|
    ensures Sorted(RemoveAt(regs, i))
  {
  }

  /** Dropping a region and unmapping its range. */
  lemma RemoveDenotes(table: Table, regs: seq<Region>, i: int)
    requires Layout(regs) && Denotes(table, regs) && 0 <= i < |regs|
    ensures Layout(RemoveAt(regs, i))
    ensures Denotes(Unmap(table, regs[i].gaddr, regs[i].size), RemoveAt(regs, i))
  {
    var table' := Unmap(table, regs[i].gaddr, regs[i].size);
    forall k | 0 <= k < |regs| - 1
      ensures Maps(table', RemoveAt(regs, i)[k]) && OnPages(RemoveAt(regs, i)[k])
    {
      RemoveMaps(table, regs, i, k);
    }
    forall p | p in table'
      ensures Backed(RemoveAt(regs, i), p)
    {
      RemoveBacked(regs, i, p);
    }
    RemoveSorted(regs, i);
  }

  /** r fits between the regions before position q and those from q on. */
  ghost predicate Fits(regs: seq<Region>, q: int, r: Region) {
    && 0 <= q <= |regs| && OnPages(r)
    && (forall i :: 0 <= i < q ==> regs[i].End() <= r.gaddr)
    && (forall i :: q <= i < |regs| ==> r.End() <= regs[i].gaddr)
  }

  lemma InsertMaps(table: Table, regs: seq<Region>, q: int, r: Region, k: int)
    requires Fits(regs, q, r) && 0 <= k <= |regs|
    requires forall j :: 0 <= j < |regs| ==> Maps(table, regs[j]) && OnPages(regs[j])
    ensures Maps(MapRange(table, r.gaddr, r.size, r.haddr, r.prot), InsertAt(regs, q, r)[k])
    ensures OnPages(InsertAt(regs, q, r)[k])
  {
    if k != q {
      var j := if k < q then k else k - 1;
      assert InsertAt(regs, q, r)[k] == regs[j];
      assert Maps(table, regs[j]) && OnPages(regs[j]);
      assert regs[j].End() <= r.gaddr || r.End() <= regs[j].gaddr;
    }
  }

  lemma InsertBacked(regs: seq<Region>, q: int, r: Region, p: int)
    requires 0 <= q <= |regs| && (Backed(regs, p) || Covers(r, p))
    ensures Backed(InsertAt(regs, q, r), p)
  {
    if Covers(r, p) {
      assert Covers(InsertAt(regs, q, r)[q], p);
    } else {
      var j :| 0 <= j < |regs| && Covers(regs[j], p);
      assert Covers(InsertAt(regs, q, r)[if j < q then j else j + 1], p);
    }
  }

  lemma InsertSorted(regs: seq<Region>, q: int, r: Region)
    requires Sorted(regs) && Fits(regs, q, r)
    ensures Sorted(InsertAt(regs, q, r))
  {
  }

  /** Adding a region in a free place and mapping its range. */
  lemma InsertDenotes(table: Table, regs: seq<Region>, q: int, r: Region)
    requires Layout(regs) && Denotes(table, regs) && Fits(regs, q, r)
    ensures Layout(InsertAt(regs, q, r))
    ensures Denotes(MapRange(table, r.gaddr, r.size, r.haddr, r.prot), InsertAt(regs, q, r))
  {
    var table' := MapRange(table, r.gaddr, r.size, r.haddr, r.prot);
    forall k | 0 <= k <= |regs|
      ensures Maps(table', InsertAt(regs, q, r)[k]) && OnPages(InsertAt(regs, q, r)[k])
    {
      InsertMaps(table, regs, q, r, k);
    }
    forall p | p in table'
      ensures Aligned(p) && Backed(InsertAt(regs, q, r), p)
    {
      InsertBacked(regs, q, r, p);
    }
    InsertSorted(regs, q, r);
  }

  lemma ProtectMaps(table: Table, regs: seq<Region>, i: int, prot: bv3, k: int)
    requires Layout(regs) && 0 <= i < |regs| && 0 <= k < |regs| && Maps(table, regs[k])
    ensures Maps(Protect(table, regs[i].gaddr, regs[i].size, prot), regs[i := regs[i].(prot := prot)][k])
  {
    assert k < i ==> regs[k].End() <= regs[i].gaddr;
    assert i < k ==> regs[i].End() <= regs[k].gaddr;
  }

  lemma ProtectLayout(regs: seq<Region>, i: int, prot: bv3)
    requires Layout(regs) && 0 <= i < |regs|
    ensures Layout(regs[i := regs[i].(prot := prot)])
  {
  }

  lemma UpdateBacked(regs: seq<Region>, regs': seq<Region>, p: int)
    requires |regs| == |regs'| && Backed(regs, p)
    requires forall j :: 0 <= j < |regs| && Covers(regs[j], p) ==> Covers(regs'[j], p)
    ensures Backed(regs', p)
  {
    var j :| 0 <= j < |regs| && Covers(regs[j], p);
    assert Covers(regs'[j], p);
  }

  /** Changing the protection of a region. */
  lemma ProtectDenotes(table: Table, regs: seq<Region>, i: int, prot: bv3)
    requires Layout(regs) && Denotes(table, regs) && 0 <= i < |regs|
    ensures Layout(regs[i := regs[i].(prot := prot)])
    ensures Denotes(Protect(table, regs[i].gaddr, regs[i].size, prot), regs[i := regs[i].(prot := prot)])
  {
    hide Layout, Maps, Backed, Aligned;
    var regs', table' := regs[i := regs[i].(prot := prot)], Protect(table, regs[i].gaddr, regs[i].size, prot);
    ProtectLayout(regs, i, prot);
    forall k | 0 <= k < |regs'|
      ensures Maps(table', regs'[k])
    {
      ProtectMaps(table, regs, i, prot, k);
    }
    forall p | p in table'
      ensures Backed(regs', p)
    {
      UpdateBacked(regs, regs', p);
    }
  }

  lemma ShrinkMaps(table: Table, regs: seq<Region>, i: int, size: int, k: int)
    requires Layout(regs) && 0 <= i < |regs| && 0 <= k < |regs| && Maps(table, regs[k]) && 0 <= size <= regs[i].size
    ensures Maps(Unmap(table, regs[i].gaddr + size, regs[i].size - size), regs[i := regs[i].(size := size)][k])
  {
    assert OnPages(regs[k]);
    assert k < i ==> regs[k].End() <= regs[i].gaddr;
    assert i < k ==> regs[i].End() <= regs[k].gaddr;
  }

  lemma ShrinkLayout(regs: seq<Region>, i: int, size: int)
    requires Layout(regs) && 0 <= i < |regs| && Aligned(size) && 0 <= size <= regs[i].size
    ensures Layout(regs[i := regs[i].(size := size)])
  {
  }

  /** Cutting off the end of a region and unmapping it. */
  lemma ShrinkDenotes(table: Table, regs: seq<Region>, i: int, size: int)
    requires Layout(regs) && Denotes(table, regs) && 0 <= i < |regs|
    requires Aligned(size) && 0 <= size <= regs[i].size
    ensures Layout(regs[i := regs[i].(size := size)])
    ensures Denotes(Unmap(table, regs[i].gaddr + size, regs[i].size - size), regs[i := regs[i].(size := size)])
  {
    hide Layout, Maps, Backed, Aligned;
    var regs', table' := regs[i := regs[i].(size := size)], Unmap(table, regs[i].gaddr + size, regs[i].size - size);
    ShrinkLayout(regs, i, size);
    forall k | 0 <= k < |regs'|
      ensures Maps(table', regs'[k])
    {
      ShrinkMaps(table, regs, i, size, k);
    }
    forall p | p in table'
      ensures Backed(regs', p)
    {
      UpdateBacked(regs, regs', p);
    }
  }

  // ---- the same, for the user's regions followed by the kernel's --------

  /** The page map is that of the regions `regs` and `rest`, in this order. */
  ghost predicate Agrees(table: Table, regs: seq<Region>, rest: seq<Region>) {
    Layout(regs + rest) && Denotes(table, regs + rest)
  }

  lemma EmptyAgrees()
    ensures Agrees(map[], [], [])
  {
    var none: seq<Region> := [];
    assert none + none == none;
  }

  lemma SplitAgrees(table: Table, regs: seq<Region>, rest: seq<Region>, i: int, at: int)
    requires Agrees(table, regs, rest) && 0 <= i < |regs|
    requires Aligned(at) && regs[i].gaddr <= at <= regs[i].End()
    ensures Agrees(table, SplitAt(regs, i, at), rest)
  {
    SplitDenotes(table, regs + rest, i, at);
    SplitPrefix(regs, rest, i, at);
  }

  lemma SplitPrefix(regs: seq<Region>, rest: seq<Region>, i: int, at: int)
    requires 0 <= i < |regs|
    ensures SplitAt(regs + rest, i, at) == SplitAt(regs, i, at) + rest
  {
  }

  lemma RemoveAgrees(table: Table, regs: seq<Region>, rest: seq<Region>, i: int)
    requires Agrees(table, regs, rest) && 0 <= i < |regs|
    ensures Agrees(Unmap(table, regs[i].gaddr, regs[i].size), RemoveAt(regs, i), rest)
  {
    RemoveDenotes(table, regs + rest, i);
    assert RemoveAt(regs + rest, i) == RemoveAt(regs, i) + rest;
  }

  lemma InsertAgrees(table: Table, regs: seq<Region>, rest: seq<Region>, q: int, r: Region)
    requires Agrees(table, regs, rest) && Fits(regs, q, r)
    requires forall i :: 0 <= i < |rest| ==> r.End() <= rest[i].gaddr
    ensures Agrees(MapRange(table, r.gaddr, r.size, r.haddr, r.prot), InsertAt(regs, q, r), rest)
  {
    InsertDenotes(table, regs + rest, q, r);
    assert InsertAt(regs + rest, q, r) == InsertAt(regs, q, r) + rest;
  }

  lemma ProtectAgrees(table: Table, regs: seq<Region>, rest: seq<Region>, i: int, prot: bv3)
    requires Agrees(table, regs, rest) && 0 <= i < |regs|
    ensures Agrees(Protect(table, regs[i].gaddr, regs[i].size, prot), regs[i := regs[i].(prot := prot)], rest)
  {
    ProtectDenotes(table, regs + rest, i, prot);
    assert (regs + rest)[i := regs[i].(prot := prot)] == regs[i := regs[i].(prot := prot)] + rest;
  }

  lemma ShrinkAgrees(table: Table, regs: seq<Region>, rest: seq<Region>, i: int, size: int)
    requires Agrees(table, regs, rest) && 0 <= i < |regs| && Aligned(size) && 0 <= size <= regs[i].size
    ensures Agrees(Unmap(table, regs[i].gaddr + size, regs[i].size - size), regs[i := regs[i].(size := size)], rest)
  {
    ShrinkDenotes(table, regs + rest, i, size);
    assert (regs + rest)[i := regs[i].(size := size)] == regs[i := regs[i].(size := size)] + rest;
  }

  // ---- carving a range out ---------------------------------------------

  const TWO31: int := 0x8000_0000
  const USER_ADDR_MAX: int := 0x7f_c000_0000

  /** A region in use: not empty, and small enough for the 32-bit offsets of a split. */
  predicate Proper(r: Region) {
    0 < r.size <= TWO31
  }

  predicate Meets(r: Region, a: int, b: int) {
    a < r.End() && r.gaddr < b
  }

  function Max(x: int, y: int): int {
    if x < y then y else x
  }

  function Min(x: int, y: int): int {
    if x < y then x else y
  }

  ghost function CutBelow(regs: seq<Region>, p: int, a: int): (r: seq<Region>)
    requires 0 <= p < |regs|
  {
    if regs[p].gaddr < a then SplitAt(regs, p, a) else regs
  }

  ghost function CutAbove(regs: seq<Region>, p: int, b: int): (r: seq<Region>)
    requires 0 <= p < |regs|
  {
    if regs[p].End() > b then SplitAt(regs, p, b) else regs
  }

  /** The position of what is left of region p above a. */
  function Behind(regs: seq<Region>, p: int, a: int): (k: int)
    requires 0 <= p < |regs|
  {
    if regs[p].gaddr < a then p + 1 else p
  }

  /** The regions after the part of region p inside [a, b) has been taken out. */
  ghost function Carved(regs: seq<Region>, p: int, a: int, b: int): (r: seq<Region>)
    requires 0 <= p < |regs|
  {
    RemoveAt(CutAbove(CutBelow(regs, p, a), Behind(regs, p, a), b), Behind(regs, p, a))
  }

  /** The region that is taken out. */
  lemma CutSizes(regs: seq<Region>, p: int, a: int, b: int)
    requires 0 <= p < |regs| && a <= b && Meets(regs[p], a, b + 1) && Proper(regs[p])
    ensures var k := Behind(regs, p, a);
            var c := CutBelow(regs, p, a);
            && k < |c| && c[k].gaddr == Max(a, regs[p].gaddr) <= b && c[k].End() == regs[p].End() && c[k].size <= TWO31
            && k < |CutAbove(c, k, b)| && CutAbove(c, k, b)[k].gaddr == Max(a, regs[p].gaddr)
            && CutAbove(c, k, b)[k].End() == Min(b, regs[p].End())
  {
  }

  lemma SplitMiddle(x: seq<Region>, r: Region, y: seq<Region>, at: int)
    ensures SplitAt(x + [r] + y, |x|, at)
            == x + [r.(size := at - r.gaddr), r.(gaddr := at, size := r.End() - at,
                haddr := r.haddr + (at - r.gaddr))] + y
  {
  }

  lemma RemoveMiddle(x: seq<Region>, r: Region, y: seq<Region>)
    ensures RemoveAt(x + [r] + y, |x|) == x + y
  {
  }

  /** The part of region r below a. */
  function PieceBelow(r: Region, a: int): (s: seq<Region>) {
    if r.gaddr < a then [r.(size := a - r.gaddr)] else []
  }

  /** The part of region r from b on. */
  function PieceAbove(r: Region, b: int): (s: seq<Region>) {
    if r.End() > b then [r.(gaddr := b, size := r.End() - b, haddr := r.haddr + (b - r.gaddr))] else []
  }

  /** The part of region r from a on, if r starts below a. */
  function From(r: Region, a: int): (s: Region) {
    if r.gaddr < a then r.(gaddr := a, size := r.End() - a, haddr := r.haddr + (a - r.gaddr)) else r
  }

  lemma CutBelowPieces(regs: seq<Region>, p: int, a: int)
    requires 0 <= p < |regs|
    ensures Behind(regs, p, a) == |regs[..p] + PieceBelow(regs[p], a)|
    ensures CutBelow(regs, p, a) == (regs[..p] + PieceBelow(regs[p], a)) + [From(regs[p], a)] + regs[p + 1..]
  {
    hide SplitAt;
    assert regs == regs[..p] + [regs[p]] + regs[p + 1..];
    SplitMiddle(regs[..p], regs[p], regs[p + 1..], a);
  }

  lemma CutAbovePieces(x: seq<Region>, r: Region, y: seq<Region>, b: int)
    ensures RemoveAt(CutAbove(x + [r] + y, |x|, b), |x|) == x + PieceAbove(r, b) + y
  {
    hide SplitAt;
    SplitMiddle(x, r, y, b);
    if r.End() > b {
      var h, t := r.(size := b - r.gaddr), PieceAbove(r, b);
      assert x + [h, t[0]] + y == x + [h] + (t + y);
      RemoveMiddle(x, h, t + y);
      assert x + (t + y) == x + t + y;
    } else {
      RemoveMiddle(x, r, y);
      assert x + [] + y == x + y;
    }
  }

  /** Carved, piece by piece. */
  lemma CarvedPieces(regs: seq<Region>, p: int, a: int, b: int)
    requires 0 <= p < |regs|
    ensures Carved(regs, p, a, b)
            == regs[..p] + PieceBelow(regs[p], a) + PieceAbove(From(regs[p], a), b) + regs[p + 1..]
  {
    hide CutBelow, CutAbove, PieceBelow, PieceAbove, From;
    CutBelowPieces(regs, p, a);
    CutAbovePieces(regs[..p] + PieceBelow(regs[p], a), From(regs[p], a), regs[p + 1..], b);
  }

  lemma InhabitedParts(x: seq<Region>, y: seq<Region>, z: seq<Region>, w: seq<Region>)
    requires Inhabited(x) && Inhabited(y) && Inhabited(z) && Inhabited(w)
    ensures Inhabited(x + y + z + w)
  {
  }

  lemma PiecesInhabited(r: Region, a: int, b: int)
    requires Proper(r) && r.End() <= USER_ADDR_MAX && a <= b && Meets(r, a, b + 1)
    ensures Inhabited(PieceBelow(r, a)) && Inhabited(PieceAbove(From(r, a), b))
    ensures From(r, a).gaddr == Max(a, r.gaddr) && From(r, a).End() == r.End()
  {
  }

  /** What is left of a carved region is in use, and so are the other ones. */
  lemma CarvedStaysInhabited(regs: seq<Region>, p: int, a: int, b: int)
    requires Inhabited(regs) && 0 <= p < |regs| && a <= b && Meets(regs[p], a, b + 1)
    ensures Inhabited(Carved(regs, p, a, b))
  {
    hide Carved, PieceBelow, PieceAbove, From;
    CarvedPieces(regs, p, a, b);
    PiecesInhabited(regs[p], a, b);
    InhabitedParts(regs[..p], PieceBelow(regs[p], a), PieceAbove(From(regs[p], a), b), regs[p + 1..]);
  }

  /** The regions before the hole end at or below x0, and the next one starts above the hole. */
  lemma CarvedAround(regs: seq<Region>, p: int, a: int, b: int, x0: int)
    requires Sorted(regs) && 0 <= p < |regs| && a <= b && a <= x0 && Meets(regs[p], a, b)
    requires forall i :: 0 <= i < p ==> regs[i].End() <= x0
    ensures var c, k := Carved(regs, p, a, b), Behind(regs, p, a);
            && 0 <= k <= |c|
            && (forall i :: 0 <= i < k ==> c[i].End() <= x0)
            && (k < |c| ==> Min(b, regs[p].End()) <= c[k].gaddr)
  {
    hide Carved;
    CarvedPieces(regs, p, a, b);
    var front, above, back := regs[..p] + PieceBelow(regs[p], a), PieceAbove(From(regs[p], a), b), regs[p + 1..];
    assert Behind(regs, p, a) == |front|;
    Around(front, above, back, x0, Min(b, regs[p].End()));
  }

  lemma Around(front: seq<Region>, above: seq<Region>, back: seq<Region>, x0: int, e: int)
    requires forall i :: 0 <= i < |front| ==> front[i].End() <= x0
    requires (above != [] ==> e <= above[0].gaddr) && (back != [] ==> e <= back[0].gaddr)
    ensures var c := front + above + back;
            (forall i :: 0 <= i < |front| ==> c[i].End() <= x0) && (|front| < |c| ==> e <= c[|front|].gaddr)
  {
  }

  predicate NothingIn(table: Table, a: int, b: int) {
    forall p :: p in table ==> !(a <= p < b)
  }

  /** Unmapping two ranges with nothing mapped between them is unmapping one. */
  lemma UnmapJoin(table: Table, x: int, cur: int, m: int, n: int)
    requires x <= cur <= m <= n
    requires NothingIn(Unmap(table, x, cur - x), cur, m)
    ensures Unmap(Unmap(table, x, cur - x), m, n - m) == Unmap(table, x, n - x)
  {
  }

  /** Nothing is mapped between the end of the regions before position k and the start of region k. */
  lemma NothingBetween(table: Table, regs: seq<Region>, k: int, cur: int, top: int)
    requires Sorted(regs) && Denotes(table, regs) && 0 <= k <= |regs|
    requires forall i :: 0 <= i < |regs| ==> regs[i].size >= 0
    requires forall i :: 0 <= i < k ==> regs[i].End() <= cur
    requires k < |regs| ==> top <= regs[k].gaddr
    ensures NothingIn(table, cur, top)
  {
    forall p | p in table
      ensures !(cur <= p < top)
    {
      var i :| 0 <= i < |regs| && Covers(regs[i], p);
      assert i >= k ==> regs[k].gaddr <= regs[i].gaddr;
    }
  }

  /** What unmapping [a, b) does when it starts from region p: the part of the range from that region on. */
  function UnmapFrom(table: Table, low: int, a: int, b: int): (t: Table) {
    Unmap(table, Max(a, low), Min(b, USER_ADDR_MAX) - Max(a, low))
  }

  lemma AlignedSum(a: int, b: int)
    requires Aligned(a) && Aligned(b)
    ensures Aligned(a + b)
  {
  }

  lemma RegionMaps(table: Table, regs: seq<Region>, rest: seq<Region>, p: int)
    requires Agrees(table, regs, rest) && 0 <= p < |regs|
    ensures OnPages(regs[p]) && Maps(table, regs[p])
  {
    hide Sorted, OnPages, Maps;
    assert (regs + rest)[p] == regs[p];
  }

  lemma PageInside(table: Table, regs: seq<Region>, rest: seq<Region>, p: int, k: int)
    requires Agrees(table, regs, rest) && 0 <= p < |regs| && 0 <= k < regs[p].size && Aligned(k)
    ensures regs[p].gaddr + k in table
  {
    hide Agrees, Aligned;
    RegionMaps(table, regs, rest, p);
    AlignedSum(regs[p].gaddr, k);
    assert Covers(regs[p], regs[p].gaddr + k);
  }

  /**
   Shrinking a region from len to n bytes by cutting it at n unmaps [n, len) and
   nothing else exactly when the region has no more than len bytes.
   */
  lemma ShrinkExact(table: Table, regs: seq<Region>, rest: seq<Region>, p: int, n: int, len: int)
    requires Agrees(table, regs, rest) && 0 <= p < |regs|
    requires 0 <= n <= len <= regs[p].size && Aligned(len)
    ensures var r := regs[p];
            Unmap(table, r.gaddr + n, r.size - n) == Unmap(table, r.gaddr + n, len - n) <==> r.size == len
  {
    hide Agrees, Aligned;
    var r := regs[p];
    if len < r.size {
      var g := r.gaddr + len;
      PageInside(table, regs, rest, p, len);
      assert g in Unmap(table, r.gaddr + n, len - n) && g !in Unmap(table, r.gaddr + n, r.size - n);
    }
  }

  ghost predicate Inhabited(regs: seq<Region>) {
    forall i :: 0 <= i < |regs| ==> Proper(regs[i]) && regs[i].End() <= USER_ADDR_MAX
  }

  /** The kernel's regions lie above the user's addresses. */
  ghost predicate Above(rest: seq<Region>) {
    forall i :: 0 <= i < |rest| ==> USER_ADDR_MAX <= rest[i].gaddr
  }

  lemma SortedAgrees(table: Table, regs: seq<Region>, rest: seq<Region>)
    requires Agrees(table, regs, rest)
    ensures Sorted(regs)
  {
    hide Denotes, OnPages;
    LayoutPrefix(regs, rest);
  }

  /** If the region before p ends below a, nothing is mapped from there up to p. */
  lemma NothingBefore(table: Table, regs: seq<Region>, rest: seq<Region>, p: int, a: int)
    requires Agrees(table, regs, rest) && 0 <= p < |regs| && (p == 0 || regs[p - 1].End() <= a)
    ensures NothingIn(table, a, regs[p].gaddr)
  {
    hide OnPages, Maps, Aligned;
    var all := regs + rest;
    SizesAgree(all);
    forall i | 0 <= i < p
      ensures all[i].End() <= a
    {
      assert all[i] == regs[i] && all[p - 1] == regs[p - 1];
      assert i < p - 1 ==> all[i].End() <= all[p - 1].gaddr;
    }
    NothingBetween(table, all, p, a, regs[p].gaddr);
  }

  lemma SizesAgree(regs: seq<Region>)
    requires Layout(regs)
    ensures forall i :: 0 <= i < |regs| ==> regs[i].size >= 0
  {
    hide Aligned, Sorted;
  }

  /** If the region before p reaches beyond a, one of its pages from a on is mapped. */
  lemma PageBefore(table: Table, regs: seq<Region>, rest: seq<Region>, p: int, a: int) returns (q: int)
    requires Agrees(table, regs, rest) && 0 < p < |regs| && a < regs[p - 1].End() && regs[p - 1].size > 0 && Aligned(a)
    ensures q in table && a <= q < regs[p].gaddr && q < regs[p - 1].End()
  {
    hide Agrees, Aligned;
    RegionMaps(table, regs, rest, p - 1);
    q := Max(a, regs[p - 1].gaddr);
    assert Covers(regs[p - 1], q);
    SortedAgrees(table, regs, rest);
  }

  /** The range is completely unmapped exactly when the region before the starting one ends below it. */
  lemma CompleteIff(table: Table, regs: seq<Region>, rest: seq<Region>, p: int, a: int, b: int)
    requires Agrees(table, regs, rest) && Inhabited(regs)
    requires Above(rest)
    requires 0 <= p < |regs| && Meets(regs[p], a, b) && Aligned(a)
    ensures NothingIn(UnmapFrom(table, regs[p].gaddr, a, b), a, Min(b, USER_ADDR_MAX))
            <==> (p == 0 || regs[p - 1].End() <= a)
  {
    hide Agrees, Aligned;
    var low, top := regs[p].gaddr, Min(b, USER_ADDR_MAX);
    var t := UnmapFrom(table, low, a, b);
    if p == 0 || regs[p - 1].End() <= a {
      NothingBefore(table, regs, rest, p, a);
    } else {
      var q := PageBefore(table, regs, rest, p, a);
      assert q in t && a <= q < top;
    }
  }

  /**
   The state of the unmapping loop before region k is carved: everything of the
   range from x0 up to `cur` is gone, and region k is the next one above x0.
   */
  ghost predicate Unmapping(table0: Table, table: Table, regs: seq<Region>, rest: seq<Region>,
                            k: int, a: int, b: int, x0: int, cur: int) {
    && Agrees(table, regs, rest) && Inhabited(regs) && 0 <= k <= |regs|
    && Above(rest)
    && (forall i :: 0 <= i < k ==> regs[i].End() <= x0)
    && a <= x0 <= cur <= Min(b, USER_ADDR_MAX)
    && table == Unmap(table0, x0, cur - x0)
    && (k < |regs| ==> cur <= Max(a, regs[k].gaddr) && (regs[k].gaddr < a ==> cur == x0 == a < regs[k].End()))
  }

  lemma LayoutPrefix(regs: seq<Region>, rest: seq<Region>)
    requires Layout(regs + rest)
    ensures Layout(regs)
  {
    forall i | 0 <= i < |regs|
      ensures OnPages(regs[i])
    {
      assert regs[i] == (regs + rest)[i];
    }
    forall i, j | 0 <= i < j < |regs|
      ensures regs[i].End() <= regs[j].gaddr
    {
      assert regs[i] == (regs + rest)[i] && regs[j] == (regs + rest)[j];
    }
  }

  lemma CarvedInhabited(regs: seq<Region>, k: int, a: int, b: int, x0: int)
    requires Sorted(regs) && Inhabited(regs) && 0 <= k < |regs| && a <= b && a <= x0 && Meets(regs[k], a, b)
    requires forall i :: 0 <= i < k ==> regs[i].End() <= x0
    ensures var c, k' := Carved(regs, k, a, b), Behind(regs, k, a);
            && Inhabited(c) && 0 <= k' <= |c|
            && (forall i :: 0 <= i < k' ==> c[i].End() <= x0)
            && (k' < |c| ==> Min(b, regs[k].End()) <= c[k'].gaddr)
  {
    hide Carved, Behind;
    CarvedAround(regs, k, a, b, x0);
    CarvedStaysInhabited(regs, k, a, b);
  }

  lemma UnmappingMeets(table0: Table, table: Table, regs: seq<Region>, rest: seq<Region>,
                       k: int, a: int, b: int, x0: int, cur: int)
    requires Unmapping(table0, table, regs, rest, k, a, b, x0, cur) && k < |regs| && Meets(regs[k], a, b)
    ensures a <= b && Meets(regs[k], a, b + 1) && Proper(regs[k])
  {
  }

  lemma AgreesSorted(table: Table, regs: seq<Region>, rest: seq<Region>)
    requires Agrees(table, regs, rest)
    ensures Sorted(regs)
  {
    LayoutPrefix(regs, rest);
  }

  /** One turn of the loop carries the state on. */
  lemma UnmappingTurn(table0: Table, table: Table, regs: seq<Region>, rest: seq<Region>,
                      k: int, a: int, b: int, x0: int, cur: int, table': Table, regs': seq<Region>)
    requires Unmapping(table0, table, regs, rest, k, a, b, x0, cur) && k < |regs| && Meets(regs[k], a, b)
    requires regs' == Carved(regs, k, a, b) && Agrees(table', regs', rest)
    requires table' == Unmap(table, Max(a, regs[k].gaddr), Min(b, regs[k].End()) - Max(a, regs[k].gaddr))
    ensures Unmapping(table0, table', regs', rest, Behind(regs, k, a), a, b, x0, Min(b, regs[k].End()))
    ensures a <= regs[k].gaddr ==> cur < Min(b, regs[k].End())
    ensures Behind(regs, k, a) < |regs'| ==> a <= regs'[Behind(regs, k, a)].gaddr
    ensures cur <= Min(b, regs[k].End())
  {
    hide Agrees, Inhabited, Above, Carved, Unmap;
    AgreesSorted(table, regs, rest);
    InhabitedAt(regs, k);
    CarvedInhabited(regs, k, a, b, x0);
    TurnTable(table0, table, regs, rest, k, a, b, x0, cur);
  }

  lemma TurnTable(table0: Table, table: Table, regs: seq<Region>, rest: seq<Region>,
                  k: int, a: int, b: int, x0: int, cur: int)
    requires Unmapping(table0, table, regs, rest, k, a, b, x0, cur) && k < |regs| && Meets(regs[k], a, b)
    ensures var m, n := Max(a, regs[k].gaddr), Min(b, regs[k].End());
            Unmap(table, m, n - m) == Unmap(table0, x0, n - x0) && cur <= m <= n
  {
    hide Above;
    NothingBetween(table, regs + rest, k, cur, regs[k].gaddr);
    UnmapJoin(table0, x0, cur, Max(a, regs[k].gaddr), Min(b, regs[k].End()));
  }

  /** The state before the first turn. */
  lemma UnmappingStart(table: Table, regs: seq<Region>, rest: seq<Region>, p: int, a: int, b: int)
    requires Agrees(table, regs, rest) && Inhabited(regs) && 0 <= p < |regs| && a <= b && Meets(regs[p], a, b)
    requires Above(rest)
    ensures var x0 := Max(a, regs[p].gaddr); Unmapping(table, table, regs, rest, p, a, b, x0, x0)
  {
    LayoutPrefix(regs, rest);
    assert Unmap(table, Max(a, regs[p].gaddr), 0) == table;
  }

  lemma NothingLeft(table0: Table, table: Table, regs: seq<Region>, rest: seq<Region>,
                    k: int, a: int, b: int, x0: int, cur: int)
    requires Unmapping(table0, table, regs, rest, k, a, b, x0, cur)
    requires k < |regs| ==> !Meets(regs[k], a, b)
    ensures NothingIn(table, cur, Min(b, USER_ADDR_MAX))
  {
    NothingBetween(table, regs + rest, k, cur, Min(b, USER_ADDR_MAX));
  }

  lemma UnmapUpTo(table0: Table, table: Table, x0: int, cur: int, top: int)
    requires table == Unmap(table0, x0, cur - x0) && x0 <= cur <= top && NothingIn(table, cur, top)
    ensures table == Unmap(table0, x0, top - x0)
  {
  }

  /** When no region from k on meets the range, the range is gone from the starting region on. */
  lemma UnmappingDone(table0: Table, table: Table, regs: seq<Region>, rest: seq<Region>,
                      k: int, a: int, b: int, low: int, cur: int)
    requires Unmapping(table0, table, regs, rest, k, a, b, Max(a, low), cur)
    requires k < |regs| ==> !Meets(regs[k], a, b)
    ensures table == UnmapFrom(table0, low, a, b)
  {
    hide Agrees, Inhabited, Above, NothingIn, Unmap;
    NothingLeft(table0, table, regs, rest, k, a, b, Max(a, low), cur);
    UnmapUpTo(table0, table, Max(a, low), cur, Min(b, USER_ADDR_MAX));
  }

  // ---- mapping over a range --------------------------------------------

  ghost predicate NoneMeets(regs: seq<Region>, a: int, b: int) {
    forall i :: 0 <= i < |regs| ==> !Meets(regs[i], a, b)
  }

  lemma UnmetUnmapped(table: Table, regs: seq<Region>, rest: seq<Region>, a: int, b: int)
    requires Agrees(table, regs, rest) && NoneMeets(regs, a, b) && Above(rest) && b <= USER_ADDR_MAX
    ensures NothingIn(table, a, b)
  {
    hide Layout, Maps, Aligned;
    var all := regs + rest;
    forall p | p in table
      ensures !(a <= p < b)
    {
      var i :| 0 <= i < |all| && Covers(all[i], p);
      assert i < |regs| ==> all[i] == regs[i] && !Meets(regs[i], a, b);
      assert i >= |regs| ==> all[i] == rest[i - |regs|];
    }
  }

  /** A range below the kernel's addresses meets no region exactly when none of its pages is mapped. */
  lemma MeetsMapped(table: Table, regs: seq<Region>, rest: seq<Region>, a: int, b: int)
    requires Agrees(table, regs, rest) && Inhabited(regs) && Above(rest)
    requires Aligned(a) && a < b <= USER_ADDR_MAX
    ensures NoneMeets(regs, a, b) <==> NothingIn(table, a, b)
  {
    hide Agrees, Aligned;
    if NoneMeets(regs, a, b) {
      UnmetUnmapped(table, regs, rest, a, b);
    } else {
      var i :| 0 <= i < |regs| && Meets(regs[i], a, b);
      RegionMaps(table, regs, rest, i);
      assert Covers(regs[i], Max(a, regs[i].gaddr));
    }
  }

  /** Mapping over a range does not depend on how much of it was unmapped first. */
  lemma MapOver(table: Table, low: int, a: int, b: int, host: int, prot: bv3)
    requires a <= b <= USER_ADDR_MAX
    ensures MapRange(UnmapFrom(table, low, a, b), a, b - a, host, prot) == MapRange(table, a, b - a, host, prot)
  {
  }

  lemma InsertInhabited(regs: seq<Region>, q: int, r: Region)
    requires Inhabited(regs) && 0 <= q <= |regs| && Proper(r) && r.End() <= USER_ADDR_MAX
    ensures Inhabited(InsertAt(regs, q, r))
  {
  }

  lemma FitsFree(regs: seq<Region>, q: int, r: Region)
    requires Fits(regs, q, r)
    ensures NoneMeets(regs, r.gaddr, r.End())
  {
  }

  // ---- translation -----------------------------------------------------

  /** The page an address is on. */
  function PageOf(g: int): (p: int)
    ensures Aligned(p) && p <= g < p + PAGE
  {
    g - g % PAGE
  }

  /** What the hypervisor's page map translates an address to. */
  function Translate(table: Table, g: int): (r: Option<int>) {
    if PageOf(g) in table then Some(table[PageOf(g)].host + (g - PageOf(g))) else None
  }

  lemma Covered(table: Table, regs: seq<Region>, i: int, g: int)
    requires Layout(regs) && Denotes(table, regs) && 0 <= i < |regs| && Covers(regs[i], g)
    ensures Translate(table, g) == Some(regs[i].haddr + (g - regs[i].gaddr))
  {
    assert OnPages(regs[i]) && Maps(table, regs[i]) && Covers(regs[i], PageOf(g));
  }

  lemma NotCovered(table: Table, regs: seq<Region>, g: int)
    requires Layout(regs) && Denotes(table, regs)
    requires forall i :: 0 <= i < |regs| ==> !Covers(regs[i], g)
    ensures Translate(table, g) == None
  {
    forall i | 0 <= i < |regs|
      ensures !Covers(regs[i], PageOf(g))
    {
      assert OnPages(regs[i]);
      CoversPage(regs[i], g);
    }
    hide PageOf, Covers;
  }

  /** A region has all of a page or nothing of it. */
  lemma CoversPage(r: Region, g: int)
    requires OnPages(r)
    ensures Covers(r, g) <==> Covers(r, PageOf(g))
  {
    assert Aligned(r.End());
    PageEnd(r.End(), g);
    PageEnd(r.gaddr, g);
  }

  /** An aligned address is above g exactly if it is above the page of g. */
  lemma PageEnd(e: int, g: int)
    requires Aligned(e)
    ensures PageOf(g) < e <==> g < e
  {
    var k, j := e / PAGE, g / PAGE;
    assert e == k * PAGE && PageOf(g) == j * PAGE;
  }

  // ---- shrinking and moving --------------------------------------------

  lemma ResizedInhabited(regs: seq<Region>, p: int, size: int)
    requires Inhabited(regs) && 0 <= p < |regs| && 0 < size <= regs[p].size
    ensures Inhabited(regs[p := regs[p].(size := size)])
  {
  }

  // ---- protecting ------------------------------------------------------

  /** Protecting two ranges, the second of which starts inside the first, is protecting their union. */
  lemma ProtectJoin(table: Table, a: int, x: int, lo: int, hi: int, prot: bv3)
    requires a <= lo <= x && lo <= hi
    ensures Protect(Protect(table, a, x - a, prot), lo, hi - lo, prot) == Protect(table, a, Max(x, hi) - a, prot)
  {
  }

  /** All pages of [a, e) are the user's and mapped. */
  ghost predicate Whole(table: Table, a: int, e: int) {
    forall p :: Aligned(p) && a <= p < e ==> p in table && p < USER_ADDR_MAX
  }

  /** e is the first page from a on that the user has not mapped. */
  ghost predicate Hole(table: Table, a: int, e: int) {
    Aligned(e) && a <= e && Whole(table, a, e) && !(e in table && e < USER_ADDR_MAX)
  }

  lemma HoleBounds(table: Table, a: int, e: int, end: int)
    requires Hole(table, a, e) && a <= end
    ensures Whole(table, a, end + 1) <==> end < e
  {
    assert Aligned(e);
  }

  /** There is a first hole: the page map ends at the user's last address at the latest. */
  lemma {:induction false} FirstHole(table: Table, a: int, b: int) returns (e: int)
    requires Aligned(a) && Aligned(b) && a <= b && Whole(table, a, b)
    ensures Hole(table, a, e)
    decreases USER_ADDR_MAX - b
  {
    if b in table && b < USER_ADDR_MAX {
      NextPage(b);
      assert Whole(table, a, b + PAGE);
      e := FirstHole(table, a, b + PAGE);
    } else {
      e := b;
    }
  }

  lemma NextPage(b: int)
    requires Aligned(b)
    ensures Aligned(b + PAGE) && forall p :: Aligned(p) && b <= p < b + PAGE ==> p == b
  {
  }

  /** There is a first hole up to some page exactly when not all the pages up to it are mapped. */
  lemma HoleOrWhole(table: Table, a: int, end: int)
    requires Aligned(a) && a <= end
    ensures !Whole(table, a, end + 1) <==> exists e :: Hole(table, a, e) && e <= end
  {
    var e := FirstHole(table, a, a);
    HoleBounds(table, a, e, end);
    forall e' | Hole(table, a, e')
      ensures e' <= end <==> !Whole(table, a, end + 1)
    {
      HoleBounds(table, a, e', end);
    }
  }

  /** With one page mapped, all of its range is mapped, and yet the first hole is not beyond its end. */
  lemma EndPageCounts(e: Entry)
    ensures var table := map[PAGE := e]; Whole(table, PAGE, 2 * PAGE) && Hole(table, PAGE, 2 * PAGE)
  {
    var table: Table := map[PAGE := e];
    forall p | Aligned(p) && PAGE <= p < 2 * PAGE
      ensures p in table && p < USER_ADDR_MAX
    {
      assert p == PAGE;
    }
  }

  lemma OnePageHole(e: Entry, hole: int, prot: bv3)
    ensures var table := map[PAGE := e];
            && !Whole(table, PAGE, 2 * PAGE + 1)
            && (Hole(table, PAGE, hole) ==> hole == 2 * PAGE)
            && Protect(table, PAGE, PAGE, prot) == map[PAGE := e.(prot := prot)]
  {
    var table: Table := map[PAGE := e];
    EndPageCounts(e);
    HoleBounds(table, PAGE, 2 * PAGE, 2 * PAGE);
    if Hole(table, PAGE, hole) {
      HoleBounds(table, PAGE, 2 * PAGE, Min(hole, 2 * PAGE));
      HoleBounds(table, PAGE, hole, Min(hole, 2 * PAGE));
    }
  }

  /** How far a split at `addr` protects before the loop starts: to the end of the cut region. */
  function TailEnd(r: Region, addr: int): (e: int) {
    if r.gaddr < addr then r.End() else addr
  }

  /**
   The state of the protection loop before region k: everything from `addr` up
   to region k, or to h if that is further, has the new protection.
   */
  ghost predicate Protecting(table0: Table, table: Table, regs: seq<Region>, rest: seq<Region>,
                             k: int, addr: int, end: int, h: int, prot: bv3) {
    && Agrees(table, regs, rest) && Inhabited(regs) && Above(rest)
    && 0 <= k < |regs| && addr <= regs[k].gaddr <= end && h <= regs[k].End() && addr <= h
    && table == Protect(table0, addr, Max(h, regs[k].gaddr) - addr, prot)
    && Whole(table0, addr, regs[k].gaddr)
  }

  /** Region k's pages are mapped and the user's. */
  lemma WholeRegion(table: Table, regs: seq<Region>, rest: seq<Region>, k: int)
    requires Agrees(table, regs, rest) && Inhabited(regs) && 0 <= k < |regs|
    ensures Whole(table, regs[k].gaddr, regs[k].End()) && OnPages(regs[k])
  {
    assert (regs + rest)[k] == regs[k];
    assert Maps(table, regs[k]) && OnPages((regs + rest)[k]);
  }

  lemma NotAfter(regs: seq<Region>, rest: seq<Region>, k: int, i: int)
    requires Layout(regs + rest) && Inhabited(regs) && 0 <= k < |regs| && 0 <= i < |regs|
    requires k + 1 < |regs| ==> regs[k + 1].gaddr != regs[k].End()
    ensures !Covers(regs[i], regs[k].End())
  {
    LayoutPrefix(regs, rest);
    assert i < k ==> regs[i].End() <= regs[k].gaddr;
    assert i > k + 1 ==> regs[k + 1].End() <= regs[i].gaddr;
  }

  /** The page after region k is not the user's if the next region does not start there. */
  lemma HoleAfter(table: Table, regs: seq<Region>, rest: seq<Region>, k: int)
    requires Agrees(table, regs, rest) && Inhabited(regs) && Above(rest) && 0 <= k < |regs|
    requires k + 1 < |regs| ==> regs[k + 1].gaddr != regs[k].End()
    ensures var e := regs[k].End(); !(e in table && e < USER_ADDR_MAX)
  {
    forall i | 0 <= i < |regs|
      ensures !Covers(regs[i], regs[k].End())
    {
      NotAfter(regs, rest, k, i);
    }
    hide Layout;
  }

  lemma WholeJoin(table0: Table, table: Table, a: int, m: int, e: int)
    requires Whole(table0, a, m) && Whole(table, m, e) && table.Keys == table0.Keys
    ensures Whole(table0, a, e)
  {
    forall p | Aligned(p) && a <= p < e
      ensures p in table0 && p < USER_ADDR_MAX
    {
      assert p in table0.Keys <==> p in table.Keys;
    }
  }

  lemma WholePart(table: Table, a: int, e: int, e': int)
    requires Whole(table, a, e) && e' <= e
    ensures Whole(table, a, e')
  {
  }

  lemma ProtectKeys(table: Table, a: int, len: int, prot: bv3)
    ensures Protect(table, a, len, prot).Keys == table.Keys
  {
  }

  lemma InhabitedAt(regs: seq<Region>, k: int)
    requires Inhabited(regs) && 0 <= k < |regs|
    ensures Proper(regs[k]) && regs[k].End() <= USER_ADDR_MAX
  {
  }

  lemma ProtectedInhabited(regs: seq<Region>, k: int, prot: bv3)
    requires Inhabited(regs) && 0 <= k < |regs|
    ensures Inhabited(regs[k := regs[k].(prot := prot)])
  {
  }

  lemma SplitInhabited(regs: seq<Region>, k: int, at: int)
    requires Inhabited(regs) && 0 <= k < |regs| && regs[k].gaddr < at < regs[k].End()
    ensures Inhabited(SplitAt(regs, k, at))
  {
  }

  /** The state before the protection loop, when no cut is needed. */
  lemma ProtectingUncut(table: Table, regs: seq<Region>, rest: seq<Region>, p: int, addr: int, end: int, prot: bv3)
    requires Agrees(table, regs, rest) && Inhabited(regs) && Above(rest) && 0 <= p < |regs|
    requires regs[p].gaddr == addr <= end
    ensures Protecting(table, table, regs, rest, p, addr, end, addr, prot)
  {
    assert Protect(table, addr, 0, prot) == table;
  }

  /** The state before the protection loop, after a cut at `addr` and the protection of everything behind it. */
  lemma ProtectingCut(table: Table, regs: seq<Region>, rest: seq<Region>, p: int, addr: int, end: int, prot: bv3)
    requires Agrees(table, regs, rest) && Inhabited(regs) && Above(rest) && 0 <= p < |regs|
    requires Aligned(addr) && regs[p].gaddr < addr < regs[p].End() && addr <= end
    ensures var e := regs[p].End();
            var cut := SplitAt(regs, p, addr);
            && p + 1 < |cut| && cut[p + 1].gaddr == addr && cut[p + 1].size == e - addr
            && Protecting(table, Protect(table, addr, e - addr, prot), cut[p + 1 := cut[p + 1].(prot := prot)], rest,
                          p + 1, addr, end, e, prot)
  {
    hide Agrees, Inhabited, Above, Protect;
    SplitAgrees(table, regs, rest, p, addr);
    SplitInhabited(regs, p, addr);
    var cut := SplitAt(regs, p, addr);
    ProtectAgrees(table, cut, rest, p + 1, prot);
    ProtectedInhabited(cut, p + 1, prot);
  }

  /** One turn of the protection loop. */
  lemma ProtectingTurn(table0: Table, table: Table, regs: seq<Region>, rest: seq<Region>,
                       k: int, addr: int, end: int, h: int, prot: bv3)
    requires Protecting(table0, table, regs, rest, k, addr, end, h, prot) && regs[k].End() <= end
    ensures var regs', table' := regs[k := regs[k].(prot := prot)], Protect(table, regs[k].gaddr, regs[k].size, prot);
            var e := regs[k].End();
            && Agrees(table', regs', rest) && Inhabited(regs')
            && table' == Protect(table0, addr, e - addr, prot)
            && (if k + 1 < |regs| && regs[k + 1].gaddr == e
                then Protecting(table0, table', regs', rest, k + 1, addr, end, h, prot)
                else Hole(table0, addr, e))
  {
    hide Agrees, Inhabited, Above, Protect, Whole;
    var e := regs[k].End();
    ProtectAgrees(table, regs, rest, k, prot);
    ProtectedInhabited(regs, k, prot);
    InhabitedAt(regs, k);
    ProtectKeys(table0, addr, Max(h, regs[k].gaddr) - addr, prot);
    ProtectJoin(table0, addr, Max(h, regs[k].gaddr), regs[k].gaddr, e, prot);
    WholeRegion(table, regs, rest, k);
    WholeJoin(table0, table, addr, regs[k].gaddr, e);
    if k + 1 < |regs| && regs[k + 1].gaddr == e {
      InhabitedAt(regs, k + 1);
    } else {
      HoleAfter(table, regs, rest, k);
    }
  }

  /** The end of the protection loop: region k reaches beyond `end`, where it is cut if it starts below. */
  lemma ProtectingEnd(table0: Table, table: Table, regs: seq<Region>, rest: seq<Region>,
                      k: int, addr: int, end: int, h: int, prot: bv3)
    requires Protecting(table0, table, regs, rest, k, addr, end, h, prot) && end < regs[k].End() && Aligned(end)
    ensures Whole(table0, addr, end + 1)
    ensures regs[k].gaddr == end ==> table == Protect(table0, addr, Max(h, end) - addr, prot)
    ensures regs[k].gaddr < end ==>
              var cut := SplitAt(regs, k, end);
              && cut[k].gaddr == regs[k].gaddr && cut[k].End() == end
              && Agrees(table, cut, rest) && Inhabited(cut[k := cut[k].(prot := prot)])
              && Protect(table, regs[k].gaddr, end - regs[k].gaddr, prot)
                 == Protect(table0, addr, Max(h, end) - addr, prot)
  {
    hide Agrees, Inhabited, Above, Protect, Whole;
    WholeRegion(table, regs, rest, k);
    ProtectKeys(table0, addr, Max(h, regs[k].gaddr) - addr, prot);
    WholePart(table, regs[k].gaddr, regs[k].End(), end + 1);
    WholeJoin(table0, table, addr, regs[k].gaddr, end + 1);
    if regs[k].gaddr < end {
      SplitAgrees(table, regs, rest, k, end);
      SplitInhabited(regs, k, end);
      ProtectedInhabited(SplitAt(regs, k, end), k, prot);
      ProtectJoin(table0, addr, Max(h, regs[k].gaddr), regs[k].gaddr, end, prot);
    }
  }

  /**
   What a protection reaches: no translation changes, the pages of [addr, end)
   get the new protection, those below keep theirs, and those from `end` on keep
   theirs unless the region that holds `addr` strictly contains the range.
   */
  lemma ProtectReach(table: Table, r: Region, addr: int, end: int, prot: bv3, p: int)
    requires Covers(r, addr) && addr <= end && p in table
    ensures var t := Protect(table, addr, Max(TailEnd(r, addr), end) - addr, prot);
            && t.Keys == table.Keys && t[p].host == table[p].host
            && (addr <= p < end ==> t[p].prot == prot)
            && (p < addr ==> t[p] == table[p])
            && (end <= p && !(r.gaddr < addr && end < r.End()) ==> t[p] == table[p])
            && (end <= p && r.gaddr < addr && end < r.End() ==>
               t[p].prot == if p < r.End() then prot else table[p].prot)
  {
  }

  // ---- the kernel's regions, teardown and rebuilding --------------------

  /** The end of the kernel's regions. */
  function KernEnd(rest: seq<Region>): (e: int) {
    if rest == [] then USER_ADDR_MAX else rest[|rest| - 1].End()
  }

  /** All regions end below the place of the kernel's next one. */
  lemma BelowKernEnd(regs: seq<Region>, rest: seq<Region>, i: int)
    requires Layout(regs + rest) && Inhabited(regs) && Above(rest) && 0 <= i < |regs + rest|
    ensures (regs + rest)[i].End() <= KernEnd(rest)
  {
    var all := regs + rest;
    assert i < |regs| ==> all[i] == regs[i];
    if rest != [] {
      var n := |all| - 1;
      assert all[n] == rest[|rest| - 1] && OnPages(all[n]);
      assert i < n ==> all[i].End() <= all[n].gaddr;
    }
  }

  lemma AppendAgrees(table: Table, regs: seq<Region>, rest: seq<Region>, r: Region)
    requires Agrees(table, regs, rest) && Inhabited(regs) && Above(rest)
    requires OnPages(r) && r.gaddr == KernEnd(rest)
    ensures Agrees(MapRange(table, r.gaddr, r.size, r.haddr, r.prot), regs, rest + [r]) && Above(rest + [r])
  {
    hide Layout, Denotes, Inhabited, Above, MapRange, OnPages, KernEnd;
    var all := regs + rest;
    forall i | 0 <= i < |all|
      ensures all[i].End() <= r.gaddr
    {
      BelowKernEnd(regs, rest, i);
    }
    assert Fits(all, |all|, r);
    InsertDenotes(table, all, |all|, r);
    AppendLast(regs, rest, r);
    AppendAbove(regs, rest, r);
  }

  lemma AppendLast(regs: seq<Region>, rest: seq<Region>, r: Region)
    ensures InsertAt(regs + rest, |regs + rest|, r) == regs + (rest + [r])
  {
  }

  lemma AppendAbove(regs: seq<Region>, rest: seq<Region>, r: Region)
    requires Layout(regs + rest) && Above(rest) && r.gaddr == KernEnd(rest)
    ensures Above(rest + [r])
  {
    if rest != [] {
      var all := regs + rest;
      assert all[|all| - 1] == rest[|rest| - 1] && OnPages(all[|all| - 1]);
    }
  }

  /** No page is mapped where a region fits. */
  lemma FitsNothing(table: Table, regs: seq<Region>, q: int, r: Region)
    requires Denotes(table, regs) && Fits(regs, q, r)
    ensures NothingIn(table, r.gaddr, r.End())
  {
    forall p | p in table
      ensures !(r.gaddr <= p < r.End())
    {
      var i :| 0 <= i < |regs| && Covers(regs[i], p);
    }
  }

  /** The next of the kernel's regions can be mapped. */
  lemma RebuildKernel(t: Table, rest: seq<Region>, n: int)
    requires Layout(rest) && 0 <= n < |rest| && Agrees(t, [], rest[..n])
    ensures NothingIn(t, rest[n].gaddr, rest[n].End())
    ensures Agrees(MapRange(t, rest[n].gaddr, rest[n].size, rest[n].haddr, rest[n].prot), [], rest[..n + 1])
  {
    var none: seq<Region> := [];
    assert none + rest[..n] == rest[..n];
    assert Fits(rest[..n], n, rest[n]);
    FitsNothing(t, rest[..n], n, rest[n]);
    InsertDenotes(t, rest[..n], n, rest[n]);
    assert InsertAt(rest[..n], n, rest[n]) == rest[..n + 1] == none + rest[..n + 1];
  }

  /** The next of the user's regions can be mapped. */
  lemma RebuildUser(t: Table, regs: seq<Region>, rest: seq<Region>, n: int)
    requires Layout(regs + rest) && 0 <= n < |regs| && Agrees(t, regs[..n], rest)
    ensures NothingIn(t, regs[n].gaddr, regs[n].End())
    ensures Agrees(MapRange(t, regs[n].gaddr, regs[n].size, regs[n].haddr, regs[n].prot), regs[..n + 1], rest)
  {
    var some := regs[..n] + rest;
    var r := regs[n];
    UserFits(regs, rest, n);
    FitsNothing(t, some, n, r);
    InsertDenotes(t, some, n, r);
    assert InsertAt(some, n, r) == regs[..n + 1] + rest;
  }

  lemma UserFits(regs: seq<Region>, rest: seq<Region>, n: int)
    requires Layout(regs + rest) && 0 <= n < |regs|
    ensures Fits(regs[..n] + rest, n, regs[n])
  {
    var all, some := regs + rest, regs[..n] + rest;
    assert all[n] == regs[n];
    forall i | 0 <= i < |some|
      ensures if i < n then some[i].End() <= regs[n].gaddr else regs[n].End() <= some[i].gaddr
    {
      assert some[i] == all[if i < n then i else i + |regs| - n];
    }
  }

  lemma AgreesUnique(t1: Table, t2: Table, regs: seq<Region>, rest: seq<Region>)
    requires Agrees(t1, regs, rest) && Agrees(t2, regs, rest)
    ensures t1 == t2
  {
    DenotesUnique(t1, t2, regs + rest);
  }

  lemma LayoutSuffix(regs: seq<Region>, rest: seq<Region>)
    requires Layout(regs + rest)
    ensures Layout(rest)
  {
    var all := regs + rest;
    forall i | 0 <= i < |rest|
      ensures OnPages(rest[i])
    {
      assert rest[i] == all[|regs| + i];
    }
    forall i, j | 0 <= i < j < |rest|
      ensures rest[i].End() <= rest[j].gaddr
    {
      assert rest[i] == all[|regs| + i] && rest[j] == all[|regs| + j];
    }
  }
}
