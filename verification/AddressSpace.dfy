/**
 The guest address space: one set of regions held as a red-black tree, as an
 address-ordered list, and as the hypervisor's page map. Every operation keeps
 the three equal. A panic is a halting step.
 */
module AddressSpace {
  import opened Common
  import opened Lists
  import opened PageMap
  import TreeColour
  import TreeShape
  import RB = RedBlackTree

  const NULL: int := TreeShape.NULL

  const EINVAL: int := 22
  const ENOMEM: int := 12
  const EFAULT: int := 14

  const MREMAP_MAYMOVE: bv32 := 1
  const MREMAP_FIXED: bv32 := 2

  const PROT_RW: bv3 := 3

  const MMAP_BASE: int := 0xc000_0000

  const MAP_SHARED: bv32 := 0x1
  const MAP_PRIVATE: bv32 := 0x2
  const MAP_FIXED: bv32 := 0x10
  const MAP_ANON: bv32 := 0x20
  const MAP_DENYWRITE: bv32 := 0x800
  const MAP_EXECUTABLE: bv32 := 0x1000
  const MAP_NORESERVE: bv32 := 0x4000
  const MAP_STACK: bv32 := 0x2_0000
  const MAP_HUGETLB: bv32 := 0x4_0000

  /** The flags of a mapping once the ignored ones are dropped. */
  function Kept(flags: bv32): (f: bv32) {
    flags & !(MAP_DENYWRITE | MAP_EXECUTABLE | MAP_NORESERVE | MAP_STACK)
  }

  /** do_mmap gives up on an address off a page boundary and on flags it does not know. */
  predicate Refused(addr: int, flags: bv32) {
    || !Aligned(addr)
    || Kept(flags) & !(MAP_SHARED | MAP_PRIVATE | MAP_FIXED | MAP_ANON | MAP_HUGETLB) != 0
  }

  /** What the host's mmap answers: an error number, or the page where fresh memory starts. */
  datatype Host = Failed(errno: Errno) | Fresh(page: int)

  type Errno = e: int | 0 < e witness EINVAL

  function HostPage(page: int): (ptr: int)
    ensures Aligned(ptr)
  {
    page * PAGE
  }

  /** The host never maps an empty range. */
  predicate Granted(host: Host, length: int) {
    host.Fresh? && RoundUp(length) > 0
  }

  /** What a new mapping is recorded as; an anonymous one has no file. */
  function NewData(ptr: int, prot: bv3, flags: bv32, fd: int, offset: int): (d: Data) {
    if Kept(flags) & MAP_ANON != 0 then Data(ptr, prot, Kept(flags), -1, 0)
        else Data(ptr, prot, Kept(flags), fd, offset)
  }

  function HostError(host: Host): (ret: int)
    ensures ret < 0
  {
    if host.Failed? then -(host.errno as int) else -EINVAL
  }

  /** Bits 11, 12, 14 and 17 of the flags make no difference, and every other bit is kept. */
  lemma KeptIs(flags: bv32, other: bv32)
    requires flags & 0xfffd_a7ff == other & 0xfffd_a7ff
    ensures Kept(flags) == Kept(other)
    ensures Kept(flags) & 0x2_5800 == 0 && Kept(flags) & 0xfffd_a7ff == flags & 0xfffd_a7ff
  {
  }

  /** do_mmap goes on exactly at a page boundary with flags among the nine known ones. */
  lemma RefusedIs(addr: int, flags: bv32)
    ensures Refused(addr, flags) <==> addr % 4096 != 0 || flags | 0x6_5833 != 0x6_5833
  {
    KnownBits(flags);
  }

  lemma KnownBits(flags: bv32)
    ensures Kept(flags) & !(MAP_SHARED | MAP_PRIVATE | MAP_FIXED | MAP_ANON | MAP_HUGETLB) != 0
       <==> flags | 0x6_5833 != 0x6_5833
  {
  }

  /** Bit 5 makes a mapping anonymous, and then neither the descriptor nor the offset matters. */
  lemma NewDataIs(ptr: int, prot: bv3, flags: bv32, fd: int, offset: int)
    ensures var d := NewData(ptr, prot, flags, fd, offset);
            && d.haddr == ptr && d.prot == prot && d.flags == Kept(flags)
            && d.fd == (if flags & 0x20 != 0 then -1 else fd)
            && d.pgoff == (if flags & 0x20 != 0 then 0 else offset)
  {
    AnonBit(flags);
  }

  /** The heap is private and anonymous memory. */
  lemma BrkData(ptr: int)
    ensures NewData(ptr, PROT_RW, MAP_PRIVATE | MAP_FIXED | MAP_ANON, -1, 0) == Data(ptr, PROT_RW, 0x32, -1, 0)
  {
  }

  lemma AnonBit(flags: bv32)
    ensures Kept(flags) & MAP_ANON == flags & 0x20
  {
  }

  /** The flags mremap accepts: it must be allowed to move. */
  predicate Movable(flags: bv32) {
    flags == MREMAP_MAYMOVE || flags == MREMAP_MAYMOVE | MREMAP_FIXED
  }

  /** Region p starts at a and has at least n bytes. */
  predicate StartsAt(regs: seq<Region>, p: int, a: int, n: int) {
    0 <= p < |regs| && regs[p].gaddr == a && n <= regs[p].size
  }

  /** What a region's cell holds besides its range and its links. */
  datatype Data = Data(haddr: int, prot: bv3, flags: bv32, fd: int, pgoff: int)

  function RegionOf(gaddr: int, size: int, d: Data): (r: Region) {
    Region(gaddr, size, d.haddr, d.prot, d.flags, d.fd, d.pgoff)
  }

  ghost predicate Cells(nodes: seq<int>, gaddr: seq<int>, size: seq<int>, data: seq<Data>) {
    |gaddr| == |size| == |data| && forall i :: 0 <= i < |nodes| ==> 0 <= nodes[i] < |data|
  }

  /** The regions in list order, as values. */
  ghost function Regions(nodes: seq<int>, gaddr: seq<int>, size: seq<int>, data: seq<Data>): (r: seq<Region>)
    requires Cells(nodes, gaddr, size, data)
    ensures |r| == |nodes|
    ensures forall i :: 0 <= i < |nodes| ==> r[i] == RegionOf(gaddr[nodes[i]], size[nodes[i]], data[nodes[i]])
  {
    seq(|nodes|, i requires 0 <= i < |nodes| => RegionOf(gaddr[nodes[i]], size[nodes[i]], data[nodes[i]]))
  }

  /** The C conversion to a 32-bit int. */
  function ToInt32(x: int): (r: int)
    ensures -TWO31 <= r < TWO31
    ensures -TWO31 <= x < TWO31 ==> r == x
  {
    (x + TWO31) % (2 * TWO31) - TWO31
  }

  /** A split keeps its offset exactly when it is below 2^31. */
  lemma OffsetKept(x: int)
    requires 0 <= x
    ensures ToInt32(x) == x <==> x < TWO31
  {
  }

  lemma IndexUnique(s: seq<int>, i: int)
    requires Distinct(s) && 0 <= i < |s|
    ensures IndexOf(s, s[i]) == i
  {
    assert s[IndexOf(s, s[i])] == s[i];
  }

  /** The cells after a split, read as regions. */
  lemma SplitRegions(nodes: seq<int>, gaddr: seq<int>, size: seq<int>, data: seq<Data>, p: int, at: int, e: int)
    requires Cells(nodes, gaddr, size, data) && Distinct(nodes) && 0 <= p < |nodes| && e == |data|
    ensures var nodes' := InsertAt(nodes, p + 1, e);
            |nodes'| == |nodes| + 1 && nodes'[p] == nodes[p] && nodes'[p + 1] == e
    ensures var n := nodes[p];
            var off := at - gaddr[n];
            var nodes' := InsertAt(nodes, p + 1, e);
            var data' := data + [data[n].(haddr := data[n].haddr + off)];
            && Cells(nodes', gaddr + [at], (size + [size[n] - off])[n := off], data')
            && Regions(nodes', gaddr + [at], (size + [size[n] - off])[n := off], data')
               == SplitAt(Regions(nodes, gaddr, size, data), p, at)
  {
    var n := nodes[p];
    var off := at - gaddr[n];
    var nodes' := InsertAt(nodes, p + 1, e);
    var gaddr', size', data' := gaddr + [at], (size + [size[n] - off])[n := off],
                                data + [data[n].(haddr := data[n].haddr + off)];
    var a := Regions(nodes', gaddr', size', data');
    var b := SplitAt(Regions(nodes, gaddr, size, data), p, at);
    forall k | 0 <= k < |nodes'|
      ensures a[k] == b[k]
    {
      if k < p {
        assert nodes'[k] == nodes[k];
      } else if k > p + 1 {
        assert nodes'[k] == nodes[k - 1];
      }
    }
  }

  lemma EmptyRegions()
    ensures Cells([], [], [], []) && Regions([], [], [], []) == []
  {
  }

  /** The cells after one region's data changed, read as regions. */
  lemma UpdateRegions(nodes: seq<int>, gaddr: seq<int>, size: seq<int>, data: seq<Data>, p: int, sz: int, d: Data)
    requires Cells(nodes, gaddr, size, data) && Distinct(nodes) && 0 <= p < |nodes|
    ensures var n := nodes[p];
            && Cells(nodes, gaddr, size[n := sz], data[n := d])
            && Regions(nodes, gaddr, size[n := sz], data[n := d])
               == Regions(nodes, gaddr, size, data)[p := RegionOf(gaddr[n], sz, d)]
  {
  }

  lemma NoneStartsAt(regs: seq<Region>, a: int, n: int)
    requires Inhabited(regs) && forall i :: 0 <= i < |regs| ==> !Covers(regs[i], a)
    ensures forall q :: !StartsAt(regs, q, a, n)
  {
  }

  /** Only the region that holds an address can start there. */
  lemma OnlyStartsAt(table: Table, regs: seq<Region>, rest: seq<Region>, p: int, a: int, n: int)
    requires Agrees(table, regs, rest) && Inhabited(regs) && 0 <= p < |regs| && Covers(regs[p], a)
    requires !StartsAt(regs, p, a, n)
    ensures forall q :: !StartsAt(regs, q, a, n)
  {
    LayoutPrefix(regs, rest);
    forall q | 0 <= q < |regs|
      ensures !StartsAt(regs, q, a, n)
    {
      assert q < p ==> regs[q].End() <= regs[p].gaddr;
      assert p < q ==> regs[p].End() <= regs[q].gaddr;
    }
  }

  lemma AgreesLayout(table: Table, regs: seq<Region>, rest: seq<Region>, p: int)
    requires Agrees(table, regs, rest) && 0 <= p < |regs|
    ensures Sorted(regs) && OnPages(regs[p])
  {
    LayoutPrefix(regs, rest);
  }

  /** An address in no region is the first hole from there on. */
  lemma NotMapped(table: Table, regs: seq<Region>, rest: seq<Region>, a: int, prot: bv3)
    requires Agrees(table, regs, rest) && Above(rest) && Aligned(a)
    requires forall i :: 0 <= i < |regs| ==> !Covers(regs[i], a)
    ensures Hole(table, a, a) && Protect(table, a, 0, prot) == table
  {
    forall i | 0 <= i < |regs + rest|
      ensures Covers((regs + rest)[i], a) ==> USER_ADDR_MAX <= a
    {
      assert (regs + rest)[i] == if i < |regs| then regs[i] else rest[i - |regs|];
    }
  }

  lemma NoneLeft(table: Table, regs: seq<Region>, rest: seq<Region>)
    requires Agrees(table, regs, rest) && regs == []
    ensures Agrees(table, [], rest) && Inhabited([]) && Denotes(table, rest)
  {
    assert regs + rest == rest;
  }

  lemma KernEndAligned(table: Table, regs: seq<Region>, rest: seq<Region>)
    requires Agrees(table, regs, rest)
    ensures Aligned(KernEnd(rest))
  {
    if rest != [] {
      var all := regs + rest;
      assert all[|all| - 1] == rest[|rest| - 1] && OnPages(all[|all| - 1]);
    }
  }

  lemma AgreesBoth(table: Table, regs: seq<Region>, rest: seq<Region>)
    requires Agrees(table, regs, rest)
    ensures Layout(regs + rest) && Layout(rest)
  {
    LayoutSuffix(regs, rest);
  }

  lemma CoveredUser(table: Table, regs: seq<Region>, rest: seq<Region>, p: int, g: int)
    requires Agrees(table, regs, rest) && 0 <= p < |regs| && Covers(regs[p], g)
    ensures Translate(table, g) == Some(regs[p].haddr + (g - regs[p].gaddr))
  {
    hide Translate, Layout, Denotes;
    assert (regs + rest)[p] == regs[p];
    Covered(table, regs + rest, p, g);
  }

  lemma CoveredKernel(table: Table, regs: seq<Region>, rest: seq<Region>, i: int, g: int)
    requires Agrees(table, regs, rest) && 0 <= i < |rest| && Covers(rest[i], g)
    ensures Translate(table, g) == Some(rest[i].haddr + (g - rest[i].gaddr))
  {
    hide Translate, Layout, Denotes;
    assert (regs + rest)[|regs| + i] == rest[i];
    Covered(table, regs + rest, |regs| + i, g);
  }

  lemma CoveredNowhere(table: Table, regs: seq<Region>, rest: seq<Region>, g: int)
    requires Agrees(table, regs, rest)
    requires forall i :: 0 <= i < |regs| ==> !Covers(regs[i], g)
    requires forall i :: 0 <= i < |rest| ==> !Covers(rest[i], g)
    ensures Translate(table, g) == None
  {
    hide Translate, Layout, Denotes;
    NotCovered(table, regs + rest, g);
  }

  lemma RoundUpSame(len: int)
    requires Aligned(len)
    ensures RoundUp(len) == len
  {
  }

  lemma MeetsAt(regs: seq<Region>, nodes: seq<int>, gaddr: seq<int>, size: seq<int>, data: seq<Data>, r: int, g: int,
                sz: int)
    requires Cells(nodes, gaddr, size, data) && regs == Regions(nodes, gaddr, size, data)
    requires r in nodes && RB.Compare(g, sz, gaddr[r], size[r]) == 0
    ensures !NoneMeets(regs, g, g + sz)
  {
    var i :| 0 <= i < |nodes| && nodes[i] == r;
    assert Meets(regs[i], g, g + sz);
  }

  /** The cells after an insertion, read as regions. */
  lemma InsertRegions(nodes: seq<int>, gaddr: seq<int>, size: seq<int>, data: seq<Data>, q: int, g: int, sz: int,
                      d: Data)
    requires Cells(nodes, gaddr, size, data) && 0 <= q <= |nodes|
    ensures Cells(nodes, gaddr + [g], size + [sz], data + [d])
    ensures Regions(nodes, gaddr + [g], size + [sz], data + [d]) == Regions(nodes, gaddr, size, data)
    ensures Cells(InsertAt(nodes, q, |data|), gaddr + [g], size + [sz], data + [d])
    ensures Regions(InsertAt(nodes, q, |data|), gaddr + [g], size + [sz], data + [d])
            == InsertAt(Regions(nodes, gaddr, size, data), q, RegionOf(g, sz, d))
  {
    var nodes' := InsertAt(nodes, q, |data|);
    var a := Regions(nodes', gaddr + [g], size + [sz], data + [d]);
    var b := InsertAt(Regions(nodes, gaddr, size, data), q, RegionOf(g, sz, d));
    forall k | 0 <= k < |nodes'|
      ensures a[k] == b[k]
    {
      if k < q {
        assert nodes'[k] == nodes[k];
      } else if k > q {
        assert nodes'[k] == nodes[k - 1];
      }
    }
  }

  lemma RemoveRegions(nodes: seq<int>, gaddr: seq<int>, size: seq<int>, data: seq<Data>, p: int)
    requires Cells(nodes, gaddr, size, data) && 0 <= p < |nodes|
    ensures Cells(RemoveAt(nodes, p), gaddr, size, data)
    ensures Regions(RemoveAt(nodes, p), gaddr, size, data) == RemoveAt(Regions(nodes, gaddr, size, data), p)
  {
  }

  ghost function MunmapResult(regs: seq<Region>, a: int, b: int): (ret: int) {
    if !Aligned(a) then -EINVAL else if NoneMeets(regs, a, b) then -ENOMEM else 0
  }

  /** The pages of [a, b) from region p on are gone, no others; so the range is gone iff region p - 1 ends below it. */
  ghost predicate UnmappedFrom(before: Table, after: Table, regs: seq<Region>, p: int, a: int, b: int) {
    && 0 <= p < |regs| && Meets(regs[p], a, b)
    && after == UnmapFrom(before, regs[p].gaddr, a, b)
    && (NothingIn(after, a, Min(b, USER_ADDR_MAX)) <==> p == 0 || regs[p - 1].End() <= a)
  }

  lemma SomeMeets(regs: seq<Region>, p: int, a: int, b: int)
    requires 0 <= p < |regs| && Meets(regs[p], a, b)
    ensures !NoneMeets(regs, a, b)
  {
  }

  lemma MunmapDone(table: Table, regs: seq<Region>, rest: seq<Region>, p: int, a: int, b: int)
    requires Agrees(table, regs, rest) && Inhabited(regs)
    requires Above(rest)
    requires 0 <= p < |regs| && Meets(regs[p], a, b) && Aligned(a)
    ensures UnmappedFrom(table, UnmapFrom(table, regs[p].gaddr, a, b), regs, p, a, b)
  {
    CompleteIff(table, regs, rest, p, a, b);
  }

  lemma UnmapsInside(table: Table, a: int, len: int, p: int)
    requires a <= p < a + len
    ensures p !in Unmap(table, a, len)
  {
  }

  lemma ThirdPage(table: Table, regs: seq<Region>, rest: seq<Region>, q: int)
    requires Agrees(table, regs, rest) && 0 <= q < |regs| && regs[q].gaddr == PAGE && regs[q].size == 3 * PAGE
    ensures 3 * PAGE in table && StartsAt(regs, q, PAGE, 2 * PAGE)
    ensures forall p :: StartsAt(regs, p, PAGE, 2 * PAGE) ==> p == q
  {
    hide Agrees, Denotes, OnPages;
    PageInside(table, regs, rest, q, 2 * PAGE);
    SortedAgrees(table, regs, rest);
  }

  /** The second and the third page of a region: they are mapped, and no other region has the second. */
  lemma InsideThree(table: Table, regs: seq<Region>, rest: seq<Region>, q: int)
    requires Agrees(table, regs, rest) && 0 <= q < |regs| && regs[q].gaddr == PAGE && regs[q].size == 3 * PAGE
    ensures 3 * PAGE in table && Whole(table, 2 * PAGE, 3 * PAGE + 1)
    ensures forall p :: 0 <= p < |regs| && Covers(regs[p], 2 * PAGE) ==> p == q
  {
    hide Agrees, Denotes, OnPages;
    PageInside(table, regs, rest, q, PAGE);
    PageInside(table, regs, rest, q, 2 * PAGE);
    SortedAgrees(table, regs, rest);
    NextPage(2 * PAGE);
  }

  /** A region of one page, at page k. */
  function OnePage(k: int): (r: Region) {
    Region(k * PAGE, PAGE, 0, 0, 0, -1, 0)
  }

  function FourPagesTable(): (t: Table) {
    map[PAGE := EntryOf(OnePage(1), PAGE), 2 * PAGE := EntryOf(OnePage(2), 2 * PAGE),
        3 * PAGE := EntryOf(OnePage(3), 3 * PAGE), 4 * PAGE := EntryOf(OnePage(4), 4 * PAGE)]
  }

  /** The page at p is the one page k. */
  lemma OnlyPage(k: int, p: int)
    ensures Aligned(p) && Covers(OnePage(k), p) <==> p == k * PAGE
    ensures OnPages(OnePage(k))
  {
  }

  lemma FourPagesMaps(k: int)
    requires 1 <= k <= 4
    ensures Maps(FourPagesTable(), OnePage(k))
  {
    forall p | Aligned(p) && Covers(OnePage(k), p)
      ensures p in FourPagesTable() && FourPagesTable()[p] == EntryOf(OnePage(k), p)
    {
      OnlyPage(k, p);
    }
  }

  lemma FourPagesAgree()
    ensures var regs := [OnePage(1), OnePage(2), OnePage(3), OnePage(4)];
            Agrees(FourPagesTable(), regs, []) && Inhabited(regs) && Above([])
  {
    hide Aligned, Covers, Maps, EntryOf, OnPages;
    var regs := [OnePage(1), OnePage(2), OnePage(3), OnePage(4)];
    assert regs + [] == regs;
    forall i | 0 <= i < 4
      ensures Maps(FourPagesTable(), regs[i]) && OnPages(regs[i])
    {
      FourPagesMaps(i + 1);
      OnlyPage(i + 1, 0);
    }
    forall p | p in FourPagesTable()
      ensures Aligned(p) && Backed(regs, p)
    {
      var k := if p == PAGE then 1 else if p == 2 * PAGE then 2 else if p == 3 * PAGE then 3 else 4;
      OnlyPage(k, p);
      assert Covers(regs[k - 1], p);
    }
  }

  /**
   Pages 2 and 3 are neighbouring regions. An unmapping of both whose search ends
   on page 3 unmaps that one and leaves page 2.
   */
  lemma PageLeftBehind(table: Table, regs: seq<Region>, rest: seq<Region>)
    requires Agrees(table, regs, rest) && |regs| == 4
    requires regs[1].gaddr == 2 * PAGE && regs[1].size == PAGE && regs[2].gaddr == 3 * PAGE
    ensures 2 * PAGE in UnmapFrom(table, regs[2].gaddr, 2 * PAGE, 4 * PAGE)
    ensures 3 * PAGE !in UnmapFrom(table, regs[2].gaddr, 2 * PAGE, 4 * PAGE)
  {
    assert (regs + rest)[1] == regs[1];
    assert Maps(table, regs[1]);
  }

  /**
   The key to the inside of the region store. `Stored` is kept under it, so that
   the operations on the whole address space carry it along without unfolding it.
   */
  ghost predicate Key(k: int) {
    true
  }

  datatype Op =
    | DoMmap(addr: int, length: int, prot: bv3, flags: bv32, fd: int, offset: int, host: Host)
    | DoMunmap(gaddr: int, size: int)
    | DoMremap(oldAddr: int, oldLen: int, newLen: int, mflags: bv32, host: Host)
    | DoMprotect(addr: int, length: int, prot: bv3)
    | DoBrk(b: int, host: Host)
    | DoExec(brk: int)
    | DoKmap(ptr: int, size: int, prot: bv3)

  /** What of the address space a run is told by. */
  datatype Shot = Shot(table: Table, regs: seq<Region>, kern: seq<Region>, top: int, start: int, brk: int, halted: bool)

  /** Where a new mapping goes. */
  function PlaceIn(s: Shot, addr: int, flags: bv32): (g: int) {
    if flags & MAP_FIXED == 0 then s.top else addr
  }

  /** Pages are unmapped from the region that the search found, or there is nothing to unmap. */
  ghost predicate Unmaps(s: Shot, s': Shot, a: int, b: int) {
    if NoneMeets(s.regs, a, b) then s'.table == s.table && s'.regs == s.regs
    else exists p :: UnmappedFrom(s.table, s'.table, s.regs, p, a, b)
  }

  ghost predicate DidMmap(s: Shot, s': Shot, addr: int, length: int, prot: bv3, flags: bv32, fd: int, offset: int,
                          host: Host) {
    && s'.kern == s.kern && s'.start == s.start && s'.brk == s.brk
    && (Refused(addr, flags) ==> s'.halted)
    && (!s'.halted ==>
          && s'.top == s.top + (if flags & MAP_FIXED == 0 then RoundUp(length) else 0)
          && if Granted(host, length) then
               var at := PlaceIn(s, addr, flags);
               && s'.table == MapRange(s.table, at, RoundUp(length), HostPage(host.page), prot)
               && RegionOf(at, RoundUp(length), NewData(HostPage(host.page), prot, flags, fd, offset)) in s'.regs
             else s'.table == s.table && s'.regs == s.regs)
  }

  ghost predicate DidMunmap(s: Shot, s': Shot, gaddr: int, size: int) {
    && s'.kern == s.kern && s'.top == s.top && s'.start == s.start && s'.brk == s.brk && !s'.halted
    && if Aligned(gaddr) then Unmaps(s, s', gaddr, gaddr + RoundUp(size)) else s'.table == s.table && s'.regs == s.regs
  }

  /** The region that a move starts from, if the call is good. */
  ghost predicate MovesFrom(s: Shot, q: int, oldAddr: int, oldLen: int, newLen: int, flags: bv32) {
    Movable(flags) && Aligned(oldAddr) && newLen != 0 && StartsAt(s.regs, q, oldAddr, RoundUp(oldLen))
  }

  ghost predicate DidMremap(s: Shot, s': Shot, oldAddr: int, oldLen: int, newLen: int, flags: bv32, host: Host) {
    && s'.kern == s.kern && s'.start == s.start && s'.brk == s.brk
    && (!s'.halted ==>
          if q :| MovesFrom(s, q, oldAddr, oldLen, newLen, flags) then
            if RoundUp(newLen) <= RoundUp(oldLen) then
              && s'.top == s.top && s'.regs == s.regs[q := s.regs[q].(size := RoundUp(newLen))]
              && s'.table == Unmap(s.table, oldAddr + RoundUp(newLen), s.regs[q].size - RoundUp(newLen))
            else
              && host.Fresh? && s'.top == s.top + RoundUp(newLen)
              && s'.table == MapRange(Unmap(s.table, oldAddr, RoundUp(oldLen)), s.top, RoundUp(newLen),
                                      HostPage(host.page), s.regs[q].prot)
          else s'.top == s.top && s'.table == s.table && s'.regs == s.regs)
  }

  ghost predicate DidMprotect(s: Shot, s': Shot, addr: int, length: int, prot: bv3) {
    && s'.kern == s.kern && s'.top == s.top && s'.start == s.start && s'.brk == s.brk && !s'.halted
    && var end := addr + RoundUp(length);
       if !Aligned(addr) || length == 0 then s'.table == s.table && s'.regs == s.regs
       else if Whole(s.table, addr, end + 1) then
         exists p :: 0 <= p < |s.regs| && Covers(s.regs[p], addr)
                     && s'.table == Protect(s.table, addr, Max(TailEnd(s.regs[p], addr), end) - addr, prot)
       else exists hole :: Hole(s.table, addr, hole) && s'.table == Protect(s.table, addr, hole - addr, prot)
  }

  ghost predicate DidBrk(s: Shot, s': Shot, b: int, host: Host) {
    var brk := RoundUp(b);
    && s'.kern == s.kern && s'.start == s.start
    && (!s'.halted ==> s'.top == s.top && s'.brk == if brk < s.start then s.brk else brk)
    && if brk < s.start then s'.table == s.table && !s'.halted
       else if brk < s.brk then !s'.halted && Unmaps(s, s', brk, s.brk)
       else !s'.halted ==>
              s'.table == if Granted(host, brk - s.brk) then
                  MapRange(s.table, s.brk, brk - s.brk, HostPage(host.page), PROT_RW)
                          else s.table
  }

  /** One operation of a run, by what it does to the page map, the regions and the tops. */
  ghost predicate Did(op: Op, s: Shot, s': Shot) {
    match op
    case DoMmap(addr, length, prot, flags, fd, offset, host) => DidMmap(s, s', addr, length, prot, flags, fd, offset,
        host)
    case DoMunmap(gaddr, size) => DidMunmap(s, s', gaddr, size)
    case DoMremap(oldAddr, oldLen, newLen, flags, host) => DidMremap(s, s', oldAddr, oldLen, newLen, flags, host)
    case DoMprotect(addr, length, prot) => DidMprotect(s, s', addr, length, prot)
    case DoBrk(b, host) => DidBrk(s, s', b, host)
    case DoExec(brk) =>
      && s'.regs == [] && Denotes(s'.table, s.kern) && s'.kern == s.kern && s'.top == MMAP_BASE
         && s'.start == s'.brk == brk
      && !s'.halted
    case DoKmap(ptr, size, prot) =>
      && s'.regs == s.regs && s'.top == s.top && s'.start == s.start && s'.brk == s.brk
      && (s'.halted <==> !Aligned(size) || !Aligned(ptr))
      && if s'.halted then s'.table == s.table && s'.kern == s.kern
         else var g := KernEnd(s.kern);
              s'.table == MapRange(s.table, g, size, ptr, prot)
              && s'.kern == s.kern + [Region(g, size, ptr, prot, 0xffff_ffff, -1, 0)]
  }

  /** A run: every step is the next operation. */
  ghost predicate Chain(ops: seq<Op>, shots: seq<Shot>) {
    |shots| == |ops| + 1 && forall i :: 0 <= i < |ops| ==> Did(ops[i], shots[i], shots[i + 1])
  }

  lemma ChainNone(s: Shot)
    ensures Chain([], [s])
  {
  }

  lemma ChainOn(ops: seq<Op>, shots: seq<Shot>, op: Op, s: Shot)
    requires Chain(ops, shots) && Did(op, shots[|ops|], s)
    ensures Chain(ops + [op], shots + [s])
  {
    hide Did;
  }

  /** At most one region starts at an address. */
  lemma OneStart(table: Table, regs: seq<Region>, rest: seq<Region>, a: int, n: int)
    requires Agrees(table, regs, rest) && Inhabited(regs)
    ensures forall p, q :: StartsAt(regs, p, a, n) && StartsAt(regs, q, a, n) ==> p == q
  {
    hide Agrees, Denotes, OnPages;
    SortedAgrees(table, regs, rest);
  }

  class Mm {
    const tree: RB.Tree
    var list: seq<int>
    var data: seq<Data>
    var table: Table
    var kern: seq<Region>
    var mmapTop: int
    var startBrk: int
    var currentBrk: int
    var halted: bool

    ghost var regs: seq<Region>

    /** Tree and list hold the same regions in the same order, and `regs` is what they describe. */
    ghost predicate Stored()
      reads this`list, this`data, this`regs, tree
    {
      && tree.Valid()
      && list == tree.nodes
      && Cells(list, tree.gaddr, tree.size, data)
      && |data| == |tree.pos|
      && regs == Regions(list, tree.gaddr, tree.size, data)
    }

    ghost predicate Linked()
      reads this`list, this`data, this`regs, tree
    {
      |regs| == |list| && forall k {:trigger Key(k)} :: Key(k) ==> Stored()
    }

    /** Tree, list and page map agree; regions are disjoint and on page boundaries. */
    ghost predicate Consistent()
      reads this`list, this`data, this`regs, this`table, this`kern, tree
    {
      Linked() && Agrees(table, regs, kern)
    }

    /** The two bump pointers stay on page boundaries. */
    predicate OnBoundaries()
      reads this
    {
      Aligned(mmapTop) && 0 < mmapTop && Aligned(currentBrk) && 0 < currentBrk && 0 < startBrk
    }

    /** Consistent, and every region is in use and below the kernel's addresses. */
    ghost predicate Valid()
      reads this, tree
    {
      Consistent() && Inhabited(regs) && Above(kern) && OnBoundaries()
    }

    constructor (t: RB.Tree, top: int, brk: int)
      requires t.Valid() && t.nodes == [] && t.pos == [] && t.gaddr == []
      requires Aligned(top) && 0 < top && Aligned(brk) && 0 < brk
      ensures Valid() && regs == [] && table == map[] && kern == [] && !halted
      ensures mmapTop == top && startBrk == currentBrk == brk && tree == t
    {
      hide Agrees, TreeColour.Balanced, RB.InOrder, RB.Ordered, Key;
      tree := t;
      list, data, table, kern := [], [], map[], [];
      mmapTop, startBrk, currentBrk, halted := top, brk, brk, false;
      regs := [];
      new;
      EmptyAgrees();
      EmptyRegions();
    }

    /** An address space whose only regions are pages 1 to 4, in that tree. */
    constructor Four(t: RB.Tree)
      requires t.Valid() && t.View(RB.L) == RB.FourPages && t.nodes == [1, 3, 0, 2]
      requires t.gaddr == [3 * PAGE, PAGE, 4 * PAGE, 2 * PAGE] && t.size == [PAGE, PAGE, PAGE, PAGE]
      ensures Valid() && FourPagesMapped() && tree == t && !halted
    {
      hide TreeColour.Balanced, RB.InOrder, RB.Ordered, Key, Agrees, Above, MapRange;
      tree := t;
      list, kern := [1, 3, 0, 2], [];
      data := seq(4, i => Data(0, 0, 0, -1, 0));
      mmapTop, startBrk, currentBrk, halted := MMAP_BASE, PAGE, PAGE, false;
      table := FourPagesTable();
      regs := [OnePage(1), OnePage(2), OnePage(3), OnePage(4)];
      new;
      FourPagesAgree();
      assert regs == Regions(list, tree.gaddr, tree.size, data);
    }

    // ---- the region store ------------------------------------------------

    /** Where a region is in the list, and what its cell says. */
    lemma Cell(k: int)
      requires Linked() && 0 <= k < |list|
      ensures Stored() && list[k] in tree.mem && 0 <= list[k] < |data| == |tree.gaddr| == |tree.size|
      ensures tree.pos[list[k]] == k && list[k] in list && IndexOf(list, list[k]) == k && Distinct(list)
      ensures regs[k] == RegionOf(tree.gaddr[list[k]], tree.size[list[k]], data[list[k]])
    {
      assert Key(0);
      assert Distinct(list);
      IndexUnique(list, k);
    }

    /** The element after n in the list, or NULL at its end. */
    function Next(n: int): (r: int)
      reads this
      requires n in list
    {
      var i := IndexOf(list, n);
      if i + 1 < |list| then list[i + 1] else NULL
    }

    /** The range of a listed region. */
    method RangeOf(x: int, ghost p: int) returns (g: int, sz: int)
      requires Linked() && 0 <= p < |list| && list[p] == x
      ensures p < |regs| && g == regs[p].gaddr && sz == regs[p].size
    {
      Cell(p);
      g, sz := tree.gaddr[x], tree.size[x];
    }

    method NextOf(x: int, ghost p: int) returns (y: int)
      requires Linked() && 0 <= p < |list| && list[p] == x
      ensures y == if p + 1 < |list| then list[p + 1] else NULL
      ensures p + 1 < |list| ==> y != NULL
    {
      hide Regions;
      Cell(p);
      y := Next(x);
      if p + 1 < |list| {
        Cell(p + 1);
      }
    }

    /** split_region: the part of region x from address `at` on becomes a region of its own. */
    method Split(x: int, at: int, ghost p: int) returns (e: int)
      requires Linked() && 0 <= p < |list| && list[p] == x
      requires Aligned(at) && regs[p].gaddr <= at < regs[p].End() && at - regs[p].gaddr < TWO31
      modifies this`list, this`data, this`regs, tree
      ensures Linked() && regs == SplitAt(old(regs), p, at)
      ensures p + 1 < |list| && list[p] == x && list[p + 1] == e
    {
      hide RB.InOrder, SplitAt, Cells, TreeColour.Balanced, RB.Ordered, InsertAt, Regions, IndexOf;
      Cell(p);
      var offset := ToInt32(at - tree.gaddr[x]);
      var d := data[x];
      var i := IndexOf(list, x);
      SplitRegions(list, tree.gaddr, tree.size, data, i, at, |data|);
      e := tree.CutTail(x, at, offset);
      data := data + [d.(haddr := d.haddr + offset)];
      list := InsertAt(list, i + 1, e);
      regs := SplitAt(regs, p, at);
    }

    /** Unlinks a region from list and tree. */
    method Unlink(x: int, ghost p: int)
      requires Linked() && 0 <= p < |list| && list[p] == x
      modifies this`list, this`regs, tree
      ensures Linked() && regs == RemoveAt(old(regs), p) && list == RemoveAt(old(list), p)
      ensures tree.gaddr == old(tree.gaddr) && tree.size == old(tree.size)
    {
      Cell(p);
      RemoveRegions(list, tree.gaddr, tree.size, data, p);
      list := RemoveAt(list, IndexOf(list, x));
      tree.Remove(x);
      regs := RemoveAt(regs, p);
    }

    /** record_region: enters a region into tree and list, or halts if one is in the way. */
    method Record(g: int, sz: int, d: Data) returns (ghost q: int)
      requires Linked() && sz > 0 && !halted
      modifies this`list, this`data, this`halted, this`regs, tree
      ensures Linked()
      ensures halted ==> regs == old(regs) && !NoneMeets(regs, g, g + sz)
      ensures !halted ==> 0 <= q <= |old(regs)| && regs == InsertAt(old(regs), q, RegionOf(g, sz, d))
      ensures !halted ==> (forall i :: 0 <= i < q ==> old(regs)[i].End() <= g)
      ensures !halted ==> (forall i :: q <= i < |old(regs)| ==> g + sz <= old(regs)[i].gaddr)
    {
      hide Regions, NoneMeets, TreeColour.Balanced, RB.Ordered, InsertAt, Cells;
      assert Key(0);
      ghost var list0, gaddr0, size0, data0 := list, tree.gaddr, tree.size, data;
      var e, r, prev;
      e, r, prev, q := tree.InsertNew(g, sz);
      data := data + [d];
      InsertRegions(list0, gaddr0, size0, data0, if r != NULL then 0 else q, g, sz, d);
      if r != NULL {
        MeetsAt(regs, list, gaddr0, size0, data0, r, g, sz);
        halted := true;
        assert Stored();
      } else {
        LinkAfter(prev, e, q);
        regs := InsertAt(regs, q, RegionOf(g, sz, d));
        assert Stored();
      }
    }

    /** list_add behind the region before position q, or at the head. */
    method LinkAfter(prev: int, e: int, ghost q: int)
      requires 0 <= q <= |list| && Distinct(list) && prev == (if q == 0 then NULL else list[q - 1])
      requires forall i :: 0 <= i < |list| ==> list[i] >= 0
      modifies this`list
      ensures list == InsertAt(old(list), q, e)
    {
      if prev == NULL {
        list := InsertAt(list, 0, e);
      } else {
        IndexUnique(list, q - 1);
        list := InsertAt(list, IndexOf(list, prev) + 1, e);
      }
    }

    /** Changes a region's size, which does not grow, and its protection. */
    method Update(x: int, sz: int, prot: bv3, ghost p: int)
      requires Linked() && 0 <= p < |list| && list[p] == x && 0 <= sz <= regs[p].size
      modifies this`data, this`regs, tree`size
      ensures Linked() && regs == old(regs)[p := old(regs)[p].(size := sz, prot := prot)]
    {
      hide TreeColour.Balanced, RB.Ordered;
      Cell(p);
      UpdateRegions(list, tree.gaddr, tree.size, data, p, sz, data[x].(prot := prot));
      tree.SetSize(x, sz);
      data := data[x := data[x].(prot := prot)];
      regs := regs[p := regs[p].(size := sz, prot := prot)];
    }

    /** find_region: the region an address is in. */
    method FindRegion(g: int) returns (x: int, ghost p: int)
      requires Linked()
      ensures x == NULL ==> forall i :: 0 <= i < |regs| ==> !Covers(regs[i], g)
      ensures x != NULL ==> 0 <= p < |list| && list[p] == x && Covers(regs[p], g)
    {
      assert Key(0);
      ghost var path;
      x, path := tree.Find(g, 1);
      p := 0;
      if x == NULL {
        ghost var q :| tree.Between(g, 1, q, q);
      } else {
        p := tree.pos[x];
        Cell(p);
      }
    }

    /** The search for a range ends on the region at position p. */
    ghost predicate SoughtAt(g: int, sz: int, p: int)
      reads this`list, tree
    {
      0 <= p < |list| && tree.Sought(g, sz, list[p])
    }

    /**
     find_region_range: NULL if nothing meets the range; otherwise a region that
     does, the last one on the way down the left links from the topmost one.
     */
    method FindRange(g: int, sz: int) returns (x: int, ghost p: int)
      requires Linked() && sz >= 0
      ensures x == NULL ==> NoneMeets(regs, g, g + sz)
      ensures x != NULL ==> 0 <= p < |list| && list[p] == x && Meets(regs[p], g, g + sz) && SoughtAt(g, sz, p)
    {
      assert Key(0);
      x := tree.FindLeft(g, sz);
      p := 0;
      if x == NULL {
        ghost var q :| tree.Between(g, sz, q, q);
      } else {
        p := tree.pos[x];
        Cell(p);
      }
    }

    // ---- unmapping -------------------------------------------------------

    /** A split, with the page map: nothing a guest can see changes. */
    method SplitRegion(x: int, at: int, ghost p: int) returns (e: int)
      requires Consistent() && 0 <= p < |list| && list[p] == x
      requires Aligned(at) && regs[p].gaddr <= at < regs[p].End() && at - regs[p].gaddr < TWO31
      modifies this`list, this`data, this`regs, tree
      ensures Consistent() && regs == SplitAt(old(regs), p, at)
      ensures p + 1 < |list| && list[p] == x && list[p + 1] == e
    {
      SplitAgrees(table, regs, kern, p, at);
      e := Split(x, at, p);
    }

    /** Unlinks a region and unmaps its pages. */
    method Drop(x: int, ghost p: int)
      requires Consistent() && 0 <= p < |list| && list[p] == x
      modifies this`list, this`table, this`regs, tree
      ensures Consistent() && regs == RemoveAt(old(regs), p) && list == RemoveAt(old(list), p)
      ensures table == Unmap(old(table), old(regs)[p].gaddr, old(regs)[p].size)
    {
      RemoveAgrees(table, regs, kern, p);
      var g, sz := RangeOf(x, p);
      Unlink(x, p);
      table := Unmap(table, g, sz);
    }

    /** If region p starts below a, cuts it there; returns the part from a on. */
    method CutStart(x: int, a: int, ghost p: int) returns (y: int)
      requires Consistent() && 0 <= p < |list| && list[p] == x && Aligned(a)
      requires a < regs[p].End() && Proper(regs[p])
      modifies this`list, this`data, this`regs, tree
      ensures Consistent() && regs == CutBelow(old(regs), p, a)
      ensures var k := Behind(old(regs), p, a); k < |list| && list[k] == y
    {
      var g, sz := RangeOf(x, p);
      y := x;
      if g < a {
        var e := SplitRegion(x, a, p);
        y := NextOf(x, p);
      }
    }

    /** If region p ends above b, cuts it there. */
    method CutEnd(y: int, b: int, ghost p: int)
      requires Consistent() && 0 <= p < |list| && list[p] == y && Aligned(b)
      requires regs[p].gaddr <= b && regs[p].size <= TWO31
      modifies this`list, this`data, this`regs, tree
      ensures Consistent() && regs == CutAbove(old(regs), p, b) && p < |list| && list[p] == y
    {
      var g, sz := RangeOf(y, p);
      if g + sz > b {
        var e := SplitRegion(y, b, p);
      }
    }

    /** One turn of the unmapping loop: takes the part of region x inside [a, b) out. */
    method Carve(x: int, a: int, b: int, ghost p: int) returns (next: int)
      requires Consistent() && 0 <= p < |list| && list[p] == x && Aligned(a) && Aligned(b) && a <= b
      requires Meets(regs[p], a, b + 1) && Proper(regs[p])
      modifies this`list, this`data, this`table, this`regs, tree
      ensures Consistent() && regs == Carved(old(regs), p, a, b)
      ensures var r := old(regs)[p];
              table == Unmap(old(table), Max(a, r.gaddr), Min(b, r.End()) - Max(a, r.gaddr))
      ensures var k := Behind(old(regs), p, a);
              k <= |list| && next == if k < |list| then list[k] else NULL
      ensures Behind(old(regs), p, a) < |list| ==> next != NULL
    {
      hide Agrees;
      ghost var k := Behind(regs, p, a);
      CutSizes(regs, p, a, b);
      var y := CutStart(x, a, p);
      CutEnd(y, b, k);
      next := NextOf(y, k);
      Drop(y, k);
    }

    /** One turn of the unmapping loop, with what the loop knows. */
    method CarveTurn(y: int, a: int, b: int, ghost table0: Table, ghost k: int, ghost x0: int, ghost cur: int)
      returns (next: int, ghost k': int, ghost cur': int)
      requires Consistent() && Unmapping(table0, table, regs, kern, k, a, b, x0, cur)
      requires k < |list| && list[k] == y && Aligned(a) && Aligned(b) && Meets(regs[k], a, b)
      modifies this`list, this`data, this`table, this`regs, tree
      ensures Consistent() && Unmapping(table0, table, regs, kern, k', a, b, x0, cur')
      ensures k' <= |list| && next == (if k' < |list| then list[k'] else NULL)
      ensures k' < |list| ==> next != NULL
      ensures cur < cur' || (cur == cur' && old(regs)[k].gaddr < a)
      ensures k' < |list| ==> a <= regs[k'].gaddr
    {
      hide Agrees, Inhabited, Above, Unmap, Carved;
      ghost var r, t := regs, table;
      UnmappingMeets(table0, t, r, kern, k, a, b, x0, cur);
      next := Carve(y, a, b, k);
      k', cur' := Behind(r, k, a), Min(b, r[k].End());
      UnmappingTurn(table0, t, r, kern, k, a, b, x0, cur, table, regs);
    }

    /** The loop of an unmapping, from region p on. */
    method CarveAll(x: int, a: int, b: int, ghost p: int)
      requires Valid() && 0 <= p < |list| && list[p] == x && Aligned(a) && Aligned(b) && a <= b
      requires Meets(regs[p], a, b)
      modifies this`list, this`data, this`table, this`regs, tree
      ensures Valid() && UnmappedFrom(old(table), table, old(regs), p, a, b)
    {
      hide Agrees, Inhabited, Above, UnmapFrom, Unmap, NothingIn;
      ghost var table0, low := table, regs[p].gaddr;
      ghost var k, cur := p, Max(a, low);
      UnmappingStart(table, regs, kern, p, a, b);
      MunmapDone(table, regs, kern, p, a, b);
      var y := x;
      var g, sz := RangeOf(y, k);
      while RB.Compare(a, b - a, g, sz) == 0
        invariant Consistent() && Unmapping(table0, table, regs, kern, k, a, b, Max(a, low), cur) && cur <= b
        invariant k < |list| && list[k] == y && g == regs[k].gaddr && sz == regs[k].size
        decreases b - cur, a > g
      {
        var next;
        next, k, cur := CarveTurn(y, a, b, table0, k, Max(a, low), cur);
        if next == NULL {
          break;
        }
        y := next;
        g, sz := RangeOf(y, k);
      }
      UnmappingDone(table0, table, regs, kern, k, a, b, low, cur);
    }

    /**
     do_munmap. On success p is the position of the region the search returned,
     and the pages of the range from that region on are unmapped, no others; so
     the range is unmapped completely if and only if the region before p ends
     below it.
     */
    method Munmap(gaddr: int, size: int) returns (ret: int, ghost p: int)
      requires Valid() && size >= 0
      modifies this`list, this`data, this`table, this`regs, tree
      ensures Valid()
      ensures ret == MunmapResult(old(regs), gaddr, gaddr + RoundUp(size))
      ensures ret != 0 ==> table == old(table) && regs == old(regs)
      ensures ret == 0 ==> UnmappedFrom(old(table), table, old(regs), p, gaddr, gaddr + RoundUp(size))
      ensures ret == 0 ==> old(SoughtAt(gaddr, RoundUp(size), p))
      ensures ret != 0 ==> p == 0
    {
      hide MapRange, UnmapFrom, Unmap;
      ret, p := -EINVAL, 0;
      if Aligned(gaddr) {
        var len := RoundUp(size);
        var x;
        x, p := FindRange(gaddr, len);
        if x == NULL {
          ret, p := -ENOMEM, 0;
        } else {
          SomeMeets(regs, p, gaddr, gaddr + len);
          CarveAll(x, gaddr, gaddr + len, p);
          ret := 0;
        }
      }
    }

    /**
     The regions are pages 1 to 4, and their tree is the one that has page 3 at
     the root, pages 1 and 4 below it, and page 2 to the right of page 1.
     */
    ghost predicate FourPagesMapped()
      reads tree
    {
      && tree.View(RB.L) == RB.FourPages
      && tree.gaddr == [3 * PAGE, PAGE, 4 * PAGE, 2 * PAGE] && tree.size == [PAGE, PAGE, PAGE, PAGE]
    }

    lemma FourRegions()
      requires Valid() && FourPagesMapped()
      ensures |regs| == 4 && regs[2].gaddr == 3 * PAGE && regs[1].gaddr == 2 * PAGE && regs[1].size == PAGE
      ensures |list| == 4 && list[2] == 0
    {
      hide Agrees, Inhabited, TreeColour.Balanced;
      assert Key(0);
      Cell(1);
      Cell(2);
    }

    /** There, the search for pages 2 and 3 ends on page 3, the third region. */
    lemma SearchEndsOnThree(p: int)
      requires Valid() && FourPagesMapped() && SoughtAt(2 * PAGE, 2 * PAGE, p)
      ensures p == 2
    {
      hide Agrees, Inhabited, TreeColour.Balanced;
      var path :| RB.EndsOn(tree.root, tree.left, tree.right, tree.gaddr, tree.size, 2 * PAGE, 2 * PAGE, path)
                  && path[|path| - 1] == list[p];
      assert RB.EndsOn(tree.root, tree.left, tree.right, tree.gaddr, tree.size, 2 * PAGE, 2 * PAGE, [0]);
      RB.OneCourse(tree.root, tree.left, tree.right, tree.gaddr, tree.size, 2 * PAGE, 2 * PAGE, path, [0]);
      FourRegions();
      Cell(p);
      Cell(2);
    }

    /** munmap of pages 2 and 3 succeeds and leaves page 2 mapped. */
    method UnmapLeavesPage() returns (ret: int)
      requires Valid() && FourPagesMapped()
      modifies this`list, this`data, this`table, this`regs, tree
      ensures Valid() && ret == 0
      ensures 2 * PAGE in table && 3 * PAGE !in table
    {
      hide Linked, Agrees, Inhabited, Above, UnmapFrom, SoughtAt, FourPagesMapped;
      FourRegions();
      forall p | SoughtAt(2 * PAGE, 2 * PAGE, p)
        ensures p == 2
      {
        SearchEndsOnThree(p);
      }
      PageLeftBehind(table, regs, kern);
      SomeMeets(regs, 1, 2 * PAGE, 4 * PAGE);
      ghost var p;
      ret, p := Munmap(2 * PAGE, 2 * PAGE);
    }

    /** Such an address space exists: here it is, after the munmap. */
    static method ShowPageLeft() returns (mm: Mm)
      ensures mm.Valid() && 2 * PAGE in mm.table && 3 * PAGE !in mm.table
    {
      var t := new RB.Tree.Four(PAGE);
      mm := new Mm.Four(t);
      var ret := mm.UnmapLeavesPage();
    }

    // ---- mapping ---------------------------------------------------------

    method AllocRegion(length: int) returns (g: int)
      requires 0 <= length
      modifies this`mmapTop
      ensures g == old(mmapTop) && mmapTop == g + RoundUp(length)
    {
      mmapTop := mmapTop + RoundUp(length);
      g := mmapTop - RoundUp(length);
    }

    /** record_region followed by the mapping of its pages. */
    method Install(g: int, sz: int, d: Data)
      requires Valid() && !halted && 0 < sz <= TWO31 && g + sz <= USER_ADDR_MAX
      requires Aligned(g) && Aligned(sz) && Aligned(d.haddr)
      modifies this`list, this`data, this`table, this`halted, this`regs, tree
      ensures Valid()
      ensures halted <==> g == 0 || !NoneMeets(old(regs), g, g + sz)
      ensures halted ==> table == old(table) && regs == old(regs)
      ensures !halted ==> table == MapRange(old(table), g, sz, d.haddr, d.prot)
      ensures !halted ==> RegionOf(g, sz, d) in regs
    {
      hide Agrees, Inhabited, NoneMeets, MapRange, UnmapFrom, Unmap, Linked, Regions, CutBelow;
      if g == 0 {
        halted := true;
      } else {
        ghost var r := RegionOf(g, sz, d);
        ghost var q := Record(g, sz, d);
        if !halted {
          FitsFree(old(regs), q, r);
          InsertAgrees(old(table), old(regs), kern, q, r);
          InsertInhabited(old(regs), q, r);
          assert regs[q] == r;
          table := MapRange(table, g, sz, d.haddr, d.prot);
        }
      }
    }

    /** Where a mapping goes. */
    function Place(addr: int, flags: bv32): (g: int)
      reads this
    {
      if flags & MAP_FIXED == 0 then mmapTop else addr
    }

    /** The search of an unmapping at g found region p, but the one before it reaches into the range. */
    ghost predicate Blocked(p: int, g: int)
      reads this
    {
      0 < p <= |regs| && g < regs[p - 1].End()
    }

    /** do_mmap once the host has given memory: whatever was there goes, and the range is mapped. */
    method MapFresh(at: int, len: int, d: Data) returns (ghost p: int)
      requires Valid() && !halted && 0 < len <= TWO31 && 0 <= at && at + len <= USER_ADDR_MAX
      requires Aligned(at) && Aligned(len) && Aligned(d.haddr)
      modifies this`list, this`data, this`table, this`halted, this`regs, tree
      ensures Valid()
      ensures halted <==> at == 0 || old(Blocked(p, at))
      ensures !halted ==> table == MapRange(old(table), at, len, d.haddr, d.prot)
      ensures !halted ==> RegionOf(at, len, d) in regs
      ensures if NoneMeets(old(regs), at, at + len) then p == 0 else old(SoughtAt(at, len, p))
    {
      hide Linked, Agrees, Inhabited, Above, MapRange, UnmapFrom, NoneMeets, NothingIn, Aligned;
      RoundUpSame(len);
      var ret;
      ret, p := Munmap(at, len);
      ghost var low := if ret == 0 then old(regs)[p].gaddr else at + len;
      MeetsMapped(table, regs, kern, at, at + len);
      MapOver(old(table), low, at, at + len, d.haddr, d.prot);
      Install(at, len, d);
    }

    method Mmap(addr: int, length: int, prot: bv3, flags: bv32, fd: int, offset: int, host: Host)
      returns (ret: int, ghost p: int)
      requires Valid() && !halted && 0 <= addr && 0 <= length
      requires RoundUp(length) <= TWO31 && Place(addr, flags) + RoundUp(length) <= USER_ADDR_MAX
      modifies this`list, this`data, this`table, this`halted, this`regs, this`mmapTop, tree
      ensures Valid()
      ensures halted <==>
              Refused(addr, flags) || (Granted(host, length)
              && (old(Place(addr, flags)) == 0 || old(Blocked(p, Place(addr, flags)))))
      ensures !halted ==> (ret < 0 <==> !Granted(host, length))
      ensures !halted && !Granted(host, length) ==>
                ret == (if host.Failed? then -(host.errno as int) else -EINVAL) && table == old(table)
                    && regs == old(regs)
      ensures !halted && Granted(host, length) ==>
                && ret == old(Place(addr, flags))
                && table == MapRange(old(table), ret, RoundUp(length), HostPage(host.page), prot)
                && RegionOf(ret, RoundUp(length), NewData(HostPage(host.page), prot, flags, fd, offset)) in regs
      ensures !Refused(addr, flags) && Granted(host, length) ==>
                var at := old(Place(addr, flags));
                if NoneMeets(old(regs), at, at + RoundUp(length)) then p == 0
                    else old(SoughtAt(Place(addr, flags), RoundUp(length), p))
      ensures !halted ==> mmapTop == old(mmapTop) + (if flags & MAP_FIXED == 0 then RoundUp(length) else 0)
    {
      hide Linked, Agrees, Inhabited, Above, MapRange, NoneMeets, SoughtAt, Kept, HostPage;
      ret, p := 0, 0;
      if Refused(addr, flags) {
        halted := true;
        return;
      }
      var len := RoundUp(length);
      var fd', offset' := fd, offset;
      if Kept(flags) & MAP_ANON != 0 {
        fd', offset' := -1, 0;
      }
      var at := addr;
      if flags & MAP_FIXED == 0 {
        at := AllocRegion(len);
      }
      if !Granted(host, length) {
        ret := HostError(host);
        return;
      }
      p := MapFresh(at, len, Data(HostPage(host.page), prot, Kept(flags), fd', offset'));
      ret := at;
    }

    // ---- moving ----------------------------------------------------------

    /** The shrinking half of mremap: everything of the region beyond the new size goes. */
    method Shrink(x: int, sz: int, ghost p: int)
      requires Valid() && 0 <= p < |list| && list[p] == x && Aligned(sz) && 0 < sz <= regs[p].size
      modifies this`data, this`table, this`regs, tree`size
      ensures Valid() && regs == old(regs)[p := old(regs)[p].(size := sz)]
      ensures table == Unmap(old(table), old(regs)[p].gaddr + sz, old(regs)[p].size - sz)
    {
      hide Linked, Agrees, Inhabited, Above, Unmap;
      var g, size := RangeOf(x, p);
      var d := DataOf(x, p);
      ShrinkAgrees(table, regs, kern, p, sz);
      ResizedInhabited(regs, p, sz);
      table := Unmap(table, g + sz, size - sz);
      Update(x, sz, d.prot, p);
    }

    /** A listed region's data. */
    method DataOf(x: int, ghost p: int) returns (d: Data)
      requires Linked() && 0 <= p < |list| && list[p] == x
      ensures p < |regs| && regs[p] == RegionOf(regs[p].gaddr, regs[p].size, d)
    {
      Cell(p);
      d := data[x];
    }

    /** Takes the first n bytes of a region out of the address space. */
    method TakeOut(x: int, n: int, ghost p: int)
      requires Valid() && 0 <= p < |list| && list[p] == x && Aligned(n) && 0 <= n <= regs[p].size
      modifies this`list, this`data, this`table, this`regs, tree
      ensures Valid() && table == Unmap(old(table), old(regs)[p].gaddr, n)
    {
      hide Carved, Inhabited, Above, Sorted, Agrees, Unmap;
      ghost var r := regs;
      InhabitedAt(regs, p);
      AgreesLayout(table, regs, kern, p);
      CarvedStaysInhabited(regs, p, regs[p].gaddr, regs[p].gaddr + n);
      var g, size := RangeOf(x, p);
      var next := Carve(x, g, g + n, p);
      assert regs == Carved(r, p, g, g + n);
    }

    /** The growing half of mremap: the region's pages move to fresh addresses. */
    method Move(x: int, oldSize: int, newSize: int, ptr: int, ghost p: int) returns (at: int)
      requires Valid() && !halted && 0 <= p < |list| && list[p] == x && Aligned(oldSize) && Aligned(newSize)
               && Aligned(ptr)
      requires 0 <= oldSize <= regs[p].size && 0 < newSize <= TWO31 && mmapTop + newSize <= USER_ADDR_MAX
      modifies this`list, this`data, this`table, this`halted, this`regs, this`mmapTop, tree
      ensures Valid() && at == old(mmapTop) && mmapTop == at + newSize
      ensures var rest := Unmap(old(table), old(regs)[p].gaddr, oldSize);
              && (halted <==> !NothingIn(rest, at, at + newSize))
              && (!halted ==> table == MapRange(rest, at, newSize, ptr, old(regs)[p].prot))
              && (!halted ==> old(regs)[p].(gaddr := at, size := newSize, haddr := ptr) in regs)
    {
      hide Linked, Agrees, Inhabited, Above, Unmap, MapRange, NothingIn, NoneMeets;
      var d := DataOf(x, p);
      TakeOut(x, oldSize, p);
      RoundUpSame(newSize);
      at := AllocRegion(newSize);
      MeetsMapped(table, regs, kern, at, at + newSize);
      Install(at, newSize, d.(haddr := ptr));
    }

    /** mremap once the flags are accepted, on page-rounded sizes. */
    method MoveChecked(oldAddr: int, oldSize: int, newSize: int, host: Host) returns (ret: int, ghost p: int)
      requires Valid() && !halted && 0 <= oldAddr && Aligned(oldSize) && Aligned(newSize)
      requires 0 <= oldSize && 0 < newSize <= TWO31 && mmapTop + newSize <= USER_ADDR_MAX
      modifies this`list, this`data, this`table, this`halted, this`regs, this`mmapTop, tree
      ensures Valid()
      ensures ret < 0 ==> ret == -EFAULT && !halted && table == old(table) && regs == old(regs)
      ensures ret < 0 ==> forall q :: !StartsAt(old(regs), q, oldAddr, oldSize)
      ensures ret >= 0 ==> StartsAt(old(regs), p, oldAddr, oldSize)
      ensures ret >= 0 && newSize <= oldSize ==>
                var r := old(regs)[p];
                && !halted && ret == oldAddr && regs == old(regs)[p := r.(size := newSize)]
                && table == Unmap(old(table), oldAddr + newSize, r.size - newSize)
      ensures ret >= 0 && newSize > oldSize ==>
                var at, rest := old(mmapTop), Unmap(old(table), oldAddr, oldSize);
                && (halted <==> host.Failed? || !NothingIn(rest, at, at + newSize))
                && (!halted ==>
                   ret == at && table == MapRange(rest, at, newSize, HostPage(host.page), old(regs)[p].prot))
                && (!halted ==> old(regs)[p].(gaddr := at, size := newSize, haddr := HostPage(host.page)) in regs)
      ensures mmapTop == old(mmapTop) + (if ret >= 0 && newSize > oldSize && host.Fresh? then newSize else 0)
      ensures !halted ==> mmapTop == old(mmapTop) + (if ret >= 0 && newSize > oldSize then newSize else 0)
    {
      hide Agrees, Inhabited, Above, Unmap, MapRange, NothingIn, HostPage;
      var x;
      x, p := FindRegion(oldAddr);
      if x == NULL {
        NoneStartsAt(regs, oldAddr, oldSize);
        return -EFAULT, p;
      }
      var g, size := RangeOf(x, p);
      if g != oldAddr || size < oldSize {
        OnlyStartsAt(table, regs, kern, p, oldAddr, oldSize);
        return -EFAULT, p;
      }
      if newSize <= oldSize {
        Shrink(x, newSize, p);
        ret := oldAddr;
      } else if host.Failed? {
        halted := true;
        ret := 0;
      } else {
        ret := Move(x, oldSize, newSize, HostPage(host.page), p);
      }
    }

    /**
     mremap. A shrinking one unmaps what lies between the new and the old size,
     and no more, exactly when the region is not longer than the old size. A
     growing one takes the addresses it moves to off the mapping top.
     */
    method Mremap(oldAddr: int, oldLen: int, newLen: int, flags: bv32, host: Host) returns (ret: int, ghost p: int)
      requires Valid() && !halted && 0 <= oldAddr && 0 <= oldLen && 0 <= newLen
      requires RoundUp(newLen) <= TWO31 && mmapTop + RoundUp(newLen) <= USER_ADDR_MAX
      modifies this`list, this`data, this`table, this`halted, this`regs, this`mmapTop, tree
      ensures Valid()
      ensures ret == -EINVAL <==> !Movable(flags) || !Aligned(oldAddr) || newLen == 0
      ensures ret == -EFAULT ==> forall q :: !StartsAt(old(regs), q, oldAddr, RoundUp(oldLen))
      ensures ret < 0 ==> !halted && table == old(table) && regs == old(regs)
      ensures ret < 0 ==> ret == -EINVAL || ret == -EFAULT
      ensures ret >= 0 ==> StartsAt(old(regs), p, oldAddr, RoundUp(oldLen))
      ensures ret >= 0 && RoundUp(newLen) <= RoundUp(oldLen) ==>
                var r := old(regs)[p];
                && !halted && ret == oldAddr && regs == old(regs)[p := r.(size := RoundUp(newLen))]
                && table == Unmap(old(table), oldAddr + RoundUp(newLen), r.size - RoundUp(newLen))
                && (table == Unmap(old(table), oldAddr + RoundUp(newLen), RoundUp(oldLen) - RoundUp(newLen)) <==>
                    r.size == RoundUp(oldLen))
      ensures ret >= 0 && RoundUp(newLen) > RoundUp(oldLen) ==>
                var at, rest := old(mmapTop), Unmap(old(table), oldAddr, RoundUp(oldLen));
                && (halted <==> host.Failed? || !NothingIn(rest, at, at + RoundUp(newLen)))
                && (!halted ==>
                   ret == at && table == MapRange(rest, at, RoundUp(newLen), HostPage(host.page), old(regs)[p].prot))
                && (!halted ==>
                   old(regs)[p].(gaddr := at, size := RoundUp(newLen), haddr := HostPage(host.page)) in regs)
      ensures mmapTop == old(mmapTop) +
                (if ret >= 0 && RoundUp(newLen) > RoundUp(oldLen) && host.Fresh? then RoundUp(newLen) else 0)
      ensures !halted ==>
                mmapTop == old(mmapTop) + (if ret >= 0 && RoundUp(newLen) > RoundUp(oldLen) then RoundUp(newLen) else 0)
    {
      hide Linked, Agrees, Inhabited, Above, Unmap, MapRange, NothingIn, HostPage;
      p := 0;
      if flags & !(MREMAP_FIXED | MREMAP_MAYMOVE) != 0 {
        return -EINVAL, 0;
      }
      if flags & MREMAP_FIXED != 0 && flags & MREMAP_MAYMOVE == 0 {
        return -EINVAL, 0;
      }
      if !Aligned(oldAddr) {
        return -EINVAL, 0;
      }
      if flags & MREMAP_MAYMOVE == 0 {
        return -EINVAL, 0;
      }
      if newLen == 0 {
        return -EINVAL, 0;
      }
      ghost var table0, regs0, kern0 := table, regs, kern;
      ret, p := MoveChecked(oldAddr, RoundUp(oldLen), RoundUp(newLen), host);
      if ret >= 0 && RoundUp(newLen) <= RoundUp(oldLen) {
        ShrinkExact(table0, regs0, kern0, p, RoundUp(newLen), RoundUp(oldLen));
      }
    }

    /** In a region of three pages, a shrink of the first two to one loses the third as well. */
    method ShrinkLosesPage(host: Host, ghost q: int) returns (ret: int)
      requires Valid() && !halted && mmapTop + PAGE <= USER_ADDR_MAX
      requires 0 <= q < |regs| && regs[q].gaddr == PAGE && regs[q].size == 3 * PAGE
      modifies this`list, this`data, this`table, this`halted, this`regs, this`mmapTop, tree
      ensures ret == PAGE && 3 * PAGE in old(table) && 3 * PAGE !in table
    {
      hide Linked, Inhabited, Above, Agrees, RoundUp, Unmap, MapRange, NothingIn;
      ThirdPage(table, regs, kern, q);
      UnmapsInside(table, 2 * PAGE, 2 * PAGE, 3 * PAGE);
      RoundUpSame(PAGE);
      RoundUpSame(2 * PAGE);
      ghost var p;
      ret, p := Mremap(PAGE, 2 * PAGE, PAGE, MREMAP_MAYMOVE, host);
    }

    // ---- protecting ------------------------------------------------------

    /** Gives a whole region a protection. */
    method ProtectRegion(x: int, prot: bv3, ghost p: int)
      requires Consistent() && 0 <= p < |list| && list[p] == x && regs[p].size >= 0
      modifies this`data, this`table, this`regs, tree`size
      ensures Consistent() && regs == old(regs)[p := old(regs)[p].(prot := prot)]
      ensures table == Protect(old(table), old(regs)[p].gaddr, old(regs)[p].size, prot)
    {
      hide Linked, Agrees, Protect;
      var g, size := RangeOf(x, p);
      ProtectAgrees(table, regs, kern, p, prot);
      table := Protect(table, g, size, prot);
      Update(x, size, prot, p);
    }

    /** mprotect's first cut: the region that holds `addr` is split there, and all of its tail is protected. */
    method ProtectStart(x: int, addr: int, end: int, prot: bv3, ghost p: int) returns (y: int, ghost k: int)
      requires Valid() && 0 <= p < |list| && list[p] == x && Covers(regs[p], addr) && Aligned(addr) && addr <= end
      modifies this`list, this`data, this`table, this`regs, tree
      ensures Valid() && 0 <= k < |list| && list[k] == y
      ensures Protecting(old(table), table, regs, kern, k, addr, end, TailEnd(old(regs)[p], addr), prot)
    {
      hide Agrees, Inhabited, Above, Protect, Whole;
      InhabitedAt(regs, p);
      var g, size := RangeOf(x, p);
      y, k := x, p;
      if addr > g {
        ProtectingCut(table, regs, kern, p, addr, end, prot);
        var e := SplitRegion(x, addr, p);
        y := NextOf(x, p);
        k := p + 1;
        ProtectRegion(y, prot, k);
      } else {
        ProtectingUncut(table, regs, kern, p, addr, end, prot);
      }
    }

    /** mprotect's last cut, at `end`. */
    method ProtectLast(y: int, end: int, prot: bv3, ghost k: int, ghost table0: Table, ghost addr: int, ghost h: int)
      requires Valid() && 0 <= k < |list| && list[k] == y && Aligned(end) && end < regs[k].End()
      requires Protecting(table0, table, regs, kern, k, addr, end, h, prot)
      modifies this`list, this`data, this`table, this`regs, tree
      ensures Valid() && Whole(table0, addr, end + 1)
      ensures table == Protect(table0, addr, Max(h, end) - addr, prot)
    {
      hide Agrees, Inhabited, Above, Protect, Whole;
      ProtectingEnd(table0, table, regs, kern, k, addr, end, h, prot);
      InhabitedAt(regs, k);
      var g, size := RangeOf(y, k);
      if g < end {
        var e := SplitRegion(y, end, k);
        ProtectRegion(y, prot, k);
      }
    }

    /** mprotect's loop over the regions that end inside the range. */
    method ProtectRun(x: int, addr: int, end: int, prot: bv3, ghost k0: int, ghost table0: Table, ghost h: int)
      returns (ret: int, ghost hole: int)
      requires Valid() && 0 <= k0 < |list| && list[k0] == x && Aligned(end)
      requires Protecting(table0, table, regs, kern, k0, addr, end, h, prot)
      modifies this`list, this`data, this`table, this`regs, tree
      ensures Valid() && (ret == 0 || ret == -ENOMEM)
      ensures ret == 0 ==> Whole(table0, addr, end + 1) && table == Protect(table0, addr, Max(h, end) - addr, prot)
      ensures ret != 0 ==> Hole(table0, addr, hole) && hole <= end && table == Protect(table0, addr, hole - addr, prot)
    {
      hide Agrees, Inhabited, Above, Protect, Whole, Hole;
      hole := end;
      ghost var k := k0;
      var y := x;
      var g, size := RangeOf(y, k);
      while g + size <= end
        invariant Valid() && 0 <= k < |list| && list[k] == y && g == regs[k].gaddr && size == regs[k].size
        invariant Protecting(table0, table, regs, kern, k, addr, end, h, prot)
        decreases |list| - k
      {
        ProtectingTurn(table0, table, regs, kern, k, addr, end, h, prot);
        InhabitedAt(regs, k);
        hole := regs[k].End();
        ProtectRegion(y, prot, k);
        var next := NextOf(y, k);
        if next == NULL {
          return -ENOMEM, hole;
        }
        var g', size' := RangeOf(next, k + 1);
        if g' != g + size {
          return -ENOMEM, hole;
        }
        y, k, g, size := next, k + 1, g', size';
      }
      ProtectLast(y, end, prot, k, table0, addr, h);
      ret := 0;
    }

    /**
     mprotect. It succeeds if and only if all pages of [addr, end] are the
     user's and mapped: the page at `end` counts too. Otherwise the pages up to
     the first hole have been protected.
     */
    method Mprotect(addr: int, length: int, prot: bv3) returns (ret: int, ghost p: int, ghost hole: int)
      requires Valid() && 0 <= length
      modifies this`list, this`data, this`table, this`regs, tree
      ensures Valid()
      ensures ret == -EINVAL <==> !Aligned(addr) || length == 0
      ensures ret == -EINVAL ==> table == old(table) && regs == old(regs)
      ensures ret == 0 || ret == -ENOMEM || ret == -EINVAL
      ensures ret == 0 ==>
                var end := addr + RoundUp(length);
                && 0 <= p < |old(regs)| && Covers(old(regs)[p], addr) && Whole(old(table), addr, end + 1)
                && table == Protect(old(table), addr, Max(TailEnd(old(regs)[p], addr), end) - addr, prot)
      ensures ret == -ENOMEM ==>
                && Hole(old(table), addr, hole) && hole <= addr + RoundUp(length)
                && !Whole(old(table), addr, addr + RoundUp(length) + 1)
                && table == Protect(old(table), addr, hole - addr, prot)
    {
      hide Agrees, Inhabited, Above, Protect, Whole, Hole;
      p, hole := 0, addr;
      if !Aligned(addr) || length == 0 {
        return -EINVAL, p, hole;
      }
      var end := addr + RoundUp(length);
      var x;
      x, p := FindRegion(addr);
      if x == NULL {
        ret := -ENOMEM;
        NotMapped(table, regs, kern, addr, prot);
      } else {
        var y;
        ghost var k;
        y, k := ProtectStart(x, addr, end, prot, p);
        ret, hole := ProtectRun(y, addr, end, prot, k, old(table), TailEnd(old(regs)[p], addr));
      }
      if ret != 0 {
        HoleBounds(old(table), addr, hole, end);
      }
    }

    /** With one page mapped, a change of the protection of just that page fails. */
    method EndPageRefused(prot: bv3, ghost e: Entry) returns (ret: int)
      requires Valid() && table == map[PAGE := e]
      modifies this`list, this`data, this`table, this`regs, tree
      ensures ret == -ENOMEM && table == map[PAGE := e.(prot := prot)]
    {
      hide Linked, Agrees, Inhabited, Above, Whole, Hole, Protect;
      ghost var p, hole;
      ret, p, hole := Mprotect(PAGE, PAGE, prot);
      OnePageHole(e, hole, prot);
    }

    /** In a region of three pages, a change of the protection of the second changes the third as well. */
    method ProtectsBeyond(prot: bv3, ghost q: int) returns (ret: int)
      requires Valid() && 0 <= q < |regs| && regs[q].gaddr == PAGE && regs[q].size == 3 * PAGE
      modifies this`list, this`data, this`table, this`regs, tree
      ensures ret == 0 && 3 * PAGE in table && table[3 * PAGE].prot == prot
    {
      hide Linked, Inhabited, Above, Agrees, Whole, Hole, RoundUp;
      RoundUpSame(PAGE);
      InsideThree(table, regs, kern, q);
      ghost var table0 := table;
      ghost var p, hole;
      ret, p, hole := Mprotect(2 * PAGE, PAGE, prot);
    }

    // ---- brk, exec and the kernel's mappings ------------------------------

    /**
     do_brk. Below the start of the heap nothing changes. Otherwise the heap loses
     its pages from the new break on, as munmap does, or gains those up to it, as
     mmap does: it halts exactly when memory was granted and the search at the old
     break went past a region that reaches beyond it.
     */
    method Brk(b: int, host: Host) returns (ret: int, ghost p: int)
      requires Valid() && !halted && 0 <= b && RoundUp(b) <= USER_ADDR_MAX && RoundUp(b) - currentBrk <= TWO31
      modifies this`list, this`data, this`table, this`halted, this`regs, this`mmapTop, this`currentBrk, tree
      ensures Valid() && (!halted ==> mmapTop == old(mmapTop))
      ensures !halted ==>
              ret == Max(RoundUp(b), startBrk) && currentBrk == if RoundUp(b) < startBrk then old(currentBrk) else ret
      ensures RoundUp(b) < startBrk ==> table == old(table) && regs == old(regs) && !halted
      ensures startBrk <= RoundUp(b) < old(currentBrk) ==>
                && !halted
                && (if NoneMeets(old(regs), RoundUp(b), old(currentBrk)) then table == old(table) && regs == old(regs)
                    else && UnmappedFrom(old(table), table, old(regs), p, RoundUp(b), old(currentBrk))
                         && old(SoughtAt(RoundUp(b), currentBrk - RoundUp(b), p)))
      ensures startBrk <= RoundUp(b) && old(currentBrk) <= RoundUp(b) ==>
                var at, len := old(currentBrk), RoundUp(b) - old(currentBrk);
                && (halted <==> Granted(host, len) && old(Blocked(p, currentBrk)))
                && (Granted(host, len) ==>
                      if NoneMeets(old(regs), at, at + len) then p == 0
                          else old(SoughtAt(currentBrk, RoundUp(b) - currentBrk, p)))
                && (!halted ==>
                      if Granted(host, len)
                      then
                        && table == MapRange(old(table), at, len, HostPage(host.page), PROT_RW)
                        && RegionOf(at, len, Data(HostPage(host.page), PROT_RW, 0x32, -1, 0)) in regs
                      else table == old(table) && regs == old(regs))
    {
      hide Linked, Agrees, Inhabited, Above, MapRange, UnmapFrom, UnmappedFrom, HostPage, NoneMeets, NewData, SoughtAt,
           Blocked, RegionOf;
      p := 0;
      var brk := RoundUp(b);
      if brk < startBrk {
        return startBrk, 0;
      }
      RoundUpSame(currentBrk - brk);
      RoundUpSame(brk - currentBrk);
      var r;
      if brk < currentBrk {
        r, p := Munmap(brk, currentBrk - brk);
      } else {
        r, p := Mmap(currentBrk, brk - currentBrk, PROT_RW, MAP_PRIVATE | MAP_FIXED | MAP_ANON, -1, 0, host);
        if halted {
          return 0, p;
        }
        if host.Fresh? {
          BrkData(HostPage(host.page));
        }
      }
      currentBrk := brk;
      ret := brk;
    }

    /** destroy_mm: unmaps every region, then forgets tree and list. */
    method Destroy()
      requires Valid()
      modifies this`list, this`table, this`regs, tree
      ensures Valid() && regs == [] && Denotes(table, kern)
    {
      hide Agrees, Inhabited, Above, Unmap, TreeColour.Balanced, RB.InOrder, RB.Ordered;
      var i := 0;
      ghost var todo := regs;
      while i < |list|
        invariant 0 <= i <= |list| && Linked() && list == old(list) && regs == old(regs)
        invariant todo == regs[i..] && Agrees(table, todo, kern)
      {
        var g, size := RangeOf(list[i], i);
        RemoveAgrees(table, todo, kern, 0);
        assert RemoveAt(todo, 0) == regs[i + 1..];
        table := Unmap(table, g, size);
        todo := regs[i + 1..];
        i := i + 1;
      }
      NoneLeft(table, todo, kern);
      Forget();
    }

    method Forget()
      requires Linked()
      modifies this`list, this`regs, tree
      ensures Linked() && regs == []
    {
      hide TreeColour.Balanced, RB.InOrder, RB.Ordered;
      assert Key(0);
      tree.Clear();
      list, regs := [], [];
    }

    /** exec: the old image goes, and the bump pointers start over; the new image's break is `brk`. */
    method Exec(brk: int)
      requires Valid() && Aligned(brk) && 0 < brk
      modifies this`list, this`table, this`regs, this`mmapTop, this`startBrk, this`currentBrk, tree
      ensures Valid() && regs == [] && Denotes(table, kern)
      ensures mmapTop == MMAP_BASE && startBrk == currentBrk == brk
    {
      hide Linked, Agrees, Inhabited, Above, Denotes;
      Destroy();
      mmapTop, startBrk, currentBrk := MMAP_BASE, brk, brk;
    }

    /** kmap: the kernel's regions are laid out one after the other above the user's addresses. */
    method Kmap(ptr: int, size: int, prot: bv3) returns (g: int)
      requires Valid() && !halted && 0 <= size
      modifies this`table, this`kern, this`halted
      ensures Valid() && g == KernEnd(old(kern))
      ensures halted <==> !Aligned(size) || !Aligned(ptr)
      ensures halted ==> table == old(table) && kern == old(kern)
      ensures !halted ==> table == MapRange(old(table), g, size, ptr, prot) && KernEnd(kern) == g + size
      ensures !halted ==> kern == old(kern) + [Region(g, size, ptr, prot, 0xffff_ffff, -1, 0)]
    {
      hide Linked, Agrees, Inhabited, MapRange;
      g := KernEnd(kern);
      if !Aligned(size) || !Aligned(ptr) {
        halted := true;
      } else {
        var r := Region(g, size, ptr, prot, 0xffff_ffff, -1, 0);
        KernEndAligned(table, regs, kern);
        AppendAgrees(table, regs, kern, r);
        table := MapRange(table, g, size, ptr, prot);
        kern := kern + [r];
      }
    }

    // ---- lookups ---------------------------------------------------------

    /** guest_to_host is the translation of the hypervisor's page map. */
    method GuestToHost(g: int) returns (r: Option<int>)
      requires Valid()
      ensures r == Translate(table, g)
    {
      hide Linked, Agrees, Inhabited, Above, Translate;
      var x;
      ghost var p;
      x, p := FindRegion(g);
      if x != NULL {
        var g0, size := RangeOf(x, p);
        CoveredUser(table, regs, kern, p, g);
        var d := DataOf(x, p);
        return Some(d.haddr + (g - g0));
      }
      var i := 0;
      while i < |kern|
        invariant 0 <= i <= |kern| && forall j :: 0 <= j < i ==> !Covers(kern[j], g)
      {
        if Covers(kern[i], g) {
          CoveredKernel(table, regs, kern, i, g);
          return Some(kern[i].haddr + (g - kern[i].gaddr));
        }
        i := i + 1;
      }
      CoveredNowhere(table, regs, kern, g);
      r := None;
    }

    /** restore_ept: mapping all regions into an empty page map gives the page map that was there. */
    method RestoreEpt() returns (ok: bool, t: Table)
      requires Valid()
      ensures ok && t == table
    {
      hide Agrees, Inhabited, Above, MapRange, NothingIn;
      AgreesBoth(table, regs, kern);
      t := map[];
      EmptyAgrees();
      var i := 0;
      assert kern[..0] == [];
      while i < |kern|
        invariant 0 <= i <= |kern| && Agrees(t, [], kern[..i])
      {
        RebuildKernel(t, kern, i);
        if !NothingIn(t, kern[i].gaddr, kern[i].End()) {
          return false, t;
        }
        t := MapRange(t, kern[i].gaddr, kern[i].size, kern[i].haddr, kern[i].prot);
        i := i + 1;
      }
      assert kern[..i] == kern;
      i := 0;
      assert regs[..0] == [];
      while i < |list|
        invariant 0 <= i <= |list| && Agrees(t, regs[..i], kern)
      {
        RebuildUser(t, regs, kern, i);
        var g, size := RangeOf(list[i], i);
        var d := DataOf(list[i], i);
        if !NothingIn(t, g, g + size) {
          return false, t;
        }
        t := MapRange(t, g, size, d.haddr, d.prot);
        i := i + 1;
      }
      assert regs[..i] == regs;
      AgreesUnique(t, table, regs, kern);
      ok := true;
    }

    // ---- whole runs ------------------------------------------------------

    /** The inputs of an operation are inside the address space: no overflow, and no region beyond 2^31 bytes. */
    predicate Admissible(op: Op)
      reads this
    {
      match op
      case DoMmap(addr, length, prot, flags, fd, offset, host) =>
        && 0 <= addr && 0 <= length && RoundUp(length) <= TWO31
        && Place(addr, flags) + RoundUp(length) <= USER_ADDR_MAX
      case DoMunmap(gaddr, size) => 0 <= size
      case DoMremap(oldAddr, oldLen, newLen, flags, host) =>
        && 0 <= oldAddr && 0 <= oldLen && 0 <= newLen && RoundUp(newLen) <= TWO31
        && mmapTop + RoundUp(newLen) <= USER_ADDR_MAX
      case DoMprotect(addr, length, prot) => 0 <= length
      case DoBrk(b, host) => 0 <= b && RoundUp(b) <= USER_ADDR_MAX && RoundUp(b) - currentBrk <= TWO31
      case DoExec(brk) => Aligned(brk) && 0 < brk
      case DoKmap(ptr, size, prot) => 0 <= size
    }

    ghost function Now(): (s: Shot)
      reads this`table, this`regs, this`kern, this`mmapTop, this`startBrk, this`currentBrk, this`halted
    {
      Shot(table, regs, kern, mmapTop, startBrk, currentBrk, halted)
    }

    method Step(op: Op)
      requires Valid() && !halted && Admissible(op)
      modifies this, tree
      ensures Valid() && Did(op, old(Now()), Now())
    {
      hide Linked, Agrees, Inhabited, Above, Denotes, MapRange, Unmap, Protect, UnmappedFrom, Whole, Hole, NothingIn,
           NoneMeets, Refused, Blocked, SoughtAt, DidMmap, DidMunmap, DidMremap, DidMprotect, DidBrk;
      match op
      case DoMmap(addr, length, prot, flags, fd, offset, host) =>
        StepMmap(addr, length, prot, flags, fd, offset, host);
      case DoMunmap(gaddr, size) =>
        StepMunmap(gaddr, size);
      case DoMremap(oldAddr, oldLen, newLen, flags, host) =>
        StepMremap(oldAddr, oldLen, newLen, flags, host);
      case DoMprotect(addr, length, prot) =>
        StepMprotect(addr, length, prot);
      case DoBrk(b, host) =>
        StepBrk(b, host);
      case DoExec(brk) =>
        Exec(brk);
      case DoKmap(ptr, size, prot) =>
        var g := Kmap(ptr, size, prot);
    }

    method StepMmap(addr: int, length: int, prot: bv3, flags: bv32, fd: int, offset: int, host: Host)
      requires Valid() && !halted && Admissible(DoMmap(addr, length, prot, flags, fd, offset, host))
      modifies this`list, this`data, this`table, this`halted, this`regs, this`mmapTop, tree
      ensures Valid() && DidMmap(old(Now()), Now(), addr, length, prot, flags, fd, offset, host)
    {
      hide Linked, Agrees, Inhabited, Above, MapRange, NoneMeets, Refused, Blocked, SoughtAt, NewData, HostPage;
      var ret, p := Mmap(addr, length, prot, flags, fd, offset, host);
    }

    method StepMunmap(gaddr: int, size: int)
      requires Valid() && !halted && 0 <= size
      modifies this`list, this`data, this`table, this`regs, tree
      ensures Valid() && DidMunmap(old(Now()), Now(), gaddr, size)
    {
      hide Linked, Agrees, Inhabited, Above, NoneMeets, UnmappedFrom, SoughtAt;
      var ret, p := Munmap(gaddr, size);
    }

    method StepMremap(oldAddr: int, oldLen: int, newLen: int, flags: bv32, host: Host)
      requires Valid() && !halted && Admissible(DoMremap(oldAddr, oldLen, newLen, flags, host))
      modifies this`list, this`data, this`table, this`halted, this`regs, this`mmapTop, tree
      ensures Valid() && DidMremap(old(Now()), Now(), oldAddr, oldLen, newLen, flags, host)
    {
      hide Linked, Inhabited, Above, MapRange, Unmap, NothingIn, HostPage, Agrees;
      OneStart(table, regs, kern, oldAddr, RoundUp(oldLen));
      var ret, p := Mremap(oldAddr, oldLen, newLen, flags, host);
      assert ret >= 0 ==> MovesFrom(old(Now()), p, oldAddr, oldLen, newLen, flags);
    }

    method StepMprotect(addr: int, length: int, prot: bv3)
      requires Valid() && !halted && 0 <= length
      modifies this`list, this`data, this`table, this`regs, tree
      ensures Valid() && DidMprotect(old(Now()), Now(), addr, length, prot)
    {
      hide Linked, Agrees, Inhabited, Above, Protect, Whole, Hole, TailEnd;
      var ret, p, hole := Mprotect(addr, length, prot);
    }

    method StepBrk(b: int, host: Host)
      requires Valid() && !halted && Admissible(DoBrk(b, host))
      modifies this`list, this`data, this`table, this`halted, this`regs, this`mmapTop, this`currentBrk, tree
      ensures Valid() && DidBrk(old(Now()), Now(), b, host)
    {
      hide Linked, Agrees, Inhabited, Above, MapRange, NoneMeets, UnmappedFrom, Blocked, SoughtAt, HostPage;
      var ret, p := Brk(b, host);
    }

    /**
     Any run keeps the three views equal, up to a panic or an input outside the
     address space, and is a chain of steps that do what the operations should.
     */
    method Run(ops: seq<Op>) returns (n: nat, ghost shots: seq<Shot>)
      requires Valid() && !halted
      modifies this, tree
      ensures Valid() && n <= |ops| && (n == |ops| || halted || !Admissible(ops[n]))
      ensures Chain(ops[..n], shots) && shots[0] == old(Now()) && shots[n] == Now()
    {
      hide Linked, Agrees, Inhabited, Above, Admissible, Did, Chain;
      n := 0;
      shots := [Now()];
      ChainNone(Now());
      assert ops[..0] == [];
      while n < |ops| && !halted && Admissible(ops[n])
        invariant n <= |ops| && Valid()
        invariant Chain(ops[..n], shots) && |shots| == n + 1 && shots[0] == old(Now()) && shots[n] == Now()
      {
        ghost var before := shots;
        Step(ops[n]);
        ChainOn(ops[..n], before, ops[n], Now());
        assert ops[..n + 1] == ops[..n] + [ops[n]];
        shots := before + [Now()];
        n := n + 1;
      }
    }

    /** What it means that the three views are equal. */
    lemma ValidMeans()
      requires Valid()
      ensures tree.Valid() && list == tree.nodes && |list| == |regs|
      ensures forall i :: 0 <= i < |regs| ==> OnPages(regs[i]) && 0 < regs[i].size && regs[i].End() <= USER_ADDR_MAX
      ensures forall i, j :: 0 <= i < j < |regs| ==> regs[i].End() <= regs[j].gaddr
      ensures forall p :: p in table <==> Aligned(p) && Backed(regs + kern, p)
      ensures forall i, p :: 0 <= i < |regs + kern| && Aligned(p) && Covers((regs + kern)[i], p) ==>
                p in table && table[p] == EntryOf((regs + kern)[i], p)
    {
      hide TreeColour.Balanced, RB.InOrder, RB.Ordered;
      assert Key(0);
      LayoutPrefix(regs, kern);
      forall i, p | 0 <= i < |regs + kern| && Aligned(p) && Covers((regs + kern)[i], p)
        ensures p in table && table[p] == EntryOf((regs + kern)[i], p)
      {
        assert Maps(table, (regs + kern)[i]);
      }
    }
  }
}
