/**
 The red-black tree of address-space regions, as the pointer algorithm it is:
 one sequence per pointer field, indexed by node address, rewritten step by
 step. The mirror-image branches of the fix-up loops are one branch with a
 side parameter; `View(d)` is the tree seen from side d.
 */
module RedBlackTree {
  import opened Lists
  import opened TreeShape
  import opened TreeColour

  datatype Side = L | R {
    function Other(): Side {
      if L? then R else L
    }
  }

  /** How two address ranges lie: -1 below, 1 above, 0 when they overlap. */
  function Compare(g1: int, s1: int, g2: int, s2: int): (c: int)
    ensures c == -1 || c == 0 || c == 1
  {
    if g1 >= g2 + s2 then 1
    else if g1 + s1 <= g2 then -1
    else 0
  }

  /** The regions of the sequence lie one after the other. */
  ghost predicate Ordered(nodes: seq<int>, gaddr: seq<int>, size: seq<int>) {
    && |gaddr| == |size|
    && (forall i :: 0 <= i < |nodes| ==> 0 <= nodes[i] < |size| && size[nodes[i]] >= 0)
    && (forall i, j :: 0 <= i < j < |nodes| ==> gaddr[nodes[i]] + size[nodes[i]] <= gaddr[nodes[j]])
  }

  /** `pos` numbers the members of the tree in the order of `nodes`. */
  ghost predicate InOrder(nodes: seq<int>, mem: set<int>, pos: seq<int>) {
    && (forall n :: n in mem ==> 0 <= n < |pos| && 0 <= pos[n] < |nodes| && nodes[pos[n]] == n)
    && (forall i :: 0 <= i < |nodes| ==> nodes[i] in mem && pos[nodes[i]] == i)
  }

  /** All regions before i lie below the range, and all from j on above it. */
  ghost predicate Gap(nodes: seq<int>, gaddr: seq<int>, size: seq<int>, g: int, sz: int, i: int, j: int) {
    && Ordered(nodes, gaddr, size)
    && 0 <= i <= j <= |nodes|
    && (forall k :: 0 <= k < i ==> gaddr[nodes[k]] + size[nodes[k]] <= g)
    && (forall k :: j <= k < |nodes| ==> g + sz <= gaddr[nodes[k]])
  }

  lemma GapBefore(nodes: seq<int>, gaddr: seq<int>, size: seq<int>, g: int, sz: int, q: int)
    requires Ordered(nodes, gaddr, size) && Gap(nodes, gaddr + [g], size + [sz], g, sz, q, q)
    ensures Gap(nodes, gaddr, size, g, sz, q, q)
  {
  }

  /** A range that lies below the i-th region lies below all later ones. */
  lemma BelowFrom(nodes: seq<int>, gaddr: seq<int>, size: seq<int>, g: int, s: int, i: int, j: int)
    requires Ordered(nodes, gaddr, size) && 0 <= i <= j < |nodes| && s >= 0
    requires Compare(g, s, gaddr[nodes[i]], size[nodes[i]]) < 0
    ensures Compare(g, s, gaddr[nodes[j]], size[nodes[j]]) < 0
  {
  }

  /** A range that lies above the i-th region lies above all earlier ones. */
  lemma AboveUpTo(nodes: seq<int>, gaddr: seq<int>, size: seq<int>, g: int, s: int, i: int, j: int)
    requires Ordered(nodes, gaddr, size) && 0 <= j <= i < |nodes| && s >= 0
    requires Compare(g, s, gaddr[nodes[i]], size[nodes[i]]) > 0
    ensures Compare(g, s, gaddr[nodes[j]], size[nodes[j]]) > 0
  {
  }

  lemma InsertInOrder(nodes: seq<int>, mem: set<int>, pos: seq<int>, pos': seq<int>, q: int, e: int)
    requires InOrder(nodes, mem, pos) && 0 <= q <= |nodes| && e !in mem && |pos'| == |pos| && 0 <= e < |pos|
    requires pos'[e] == q && forall n :: n in mem ==> pos'[n] == Up(pos[n], q)
    ensures InOrder(InsertAt(nodes, q, e), mem + {e}, pos')
  {
  }

  lemma RemoveInOrder(nodes: seq<int>, mem: set<int>, pos: seq<int>, pos': seq<int>, y: int)
    requires InOrder(nodes, mem, pos) && y in mem && |pos'| == |pos|
    requires forall n :: n in mem && n != y ==> pos'[n] == Down(pos[n], pos[y])
    ensures InOrder(RemoveAt(nodes, pos[y]), mem - {y}, pos')
  {
    var nodes' := RemoveAt(nodes, pos[y]);
    forall n | n in mem - {y}
      ensures 0 <= pos'[n] < |nodes'| && nodes'[pos'[n]] == n
    {
      assert pos[n] != pos[y];
    }
    forall i | 0 <= i < |nodes'|
      ensures nodes'[i] in mem - {y} && pos'[nodes'[i]] == i
    {
      var j := if i < pos[y] then i else i + 1;
      assert nodes'[i] == nodes[j] && pos[nodes[j]] == j;
    }
  }

  lemma ReplaceInOrder(nodes: seq<int>, mem: set<int>, pos: seq<int>, x: int, e: int)
    requires InOrder(nodes, mem, pos) && x in mem && e !in mem && 0 <= e < |pos|
    ensures InOrder(nodes[pos[x] := e], mem - {x} + {e}, pos[e := pos[x]])
  {
    var nodes', pos' := nodes[pos[x] := e], pos[e := pos[x]];
    forall i | 0 <= i < |nodes'|
      ensures nodes'[i] in mem - {x} + {e} && pos'[nodes'[i]] == i
    {
      assert pos[nodes[i]] == i && nodes[i] in mem;
    }
  }

  lemma SplicedOrder(nodes: seq<int>, p: int, e: int)
    requires 0 <= p < |nodes| - 1 && nodes[p + 1] == e
    ensures RemoveAt(nodes, p + 1)[p := e] == RemoveAt(nodes, p)
  {
  }

  lemma EmptyOrder()
    ensures InOrder([], {}, []) && Ordered([], [], [])
  {
  }

  lemma OnlyAtFromOrder(s: Shape, nodes: seq<int>, n: int)
    requires Sizes(s) && InOrder(nodes, s.mem, s.pos) && n in s.mem
    ensures OnlyAt(s, n)
  {
  }

  lemma EmptyTree(s: Shape, nodes: seq<int>)
    requires Linked(s) && InOrder(nodes, s.mem, s.pos) && s.root == NULL && s.first == 0 && s.last == |nodes|
    ensures nodes == [] && s.mem == {}
  {
    forall n | n in s.mem
      ensures false
    {
    }
  }

  lemma InsertOrdered(nodes: seq<int>, gaddr: seq<int>, size: seq<int>, q: int, e: int)
    requires Ordered(nodes, gaddr, size) && 0 <= q <= |nodes| && 0 <= e < |size| && size[e] >= 0
    requires forall i :: 0 <= i < q ==> gaddr[nodes[i]] + size[nodes[i]] <= gaddr[e]
    requires forall i :: q <= i < |nodes| ==> gaddr[e] + size[e] <= gaddr[nodes[i]]
    ensures Ordered(InsertAt(nodes, q, e), gaddr, size)
  {
  }

  lemma RemoveOrdered(nodes: seq<int>, gaddr: seq<int>, size: seq<int>, q: int)
    requires Ordered(nodes, gaddr, size) && 0 <= q < |nodes|
    ensures Ordered(RemoveAt(nodes, q), gaddr, size)
  {
  }

  lemma MoreOrdered(nodes: seq<int>, mem: set<int>, pos: seq<int>, gaddr: seq<int>, size: seq<int>, g: int, sz: int)
    requires InOrder(nodes, mem, pos) && Ordered(nodes, gaddr, size)
    ensures InOrder(nodes, mem, pos + [0]) && Ordered(nodes, gaddr + [g], size + [sz])
  {
  }

  /** Once region p is cut, nothing overlaps its tail, and the place of the tail is right after it. */
  lemma TailFree(nodes: seq<int>, gaddr: seq<int>, size: seq<int>, p: int, at: int, offset: int)
    requires Ordered(nodes, gaddr, size) && 0 <= p < |nodes|
    requires at == gaddr[nodes[p]] + offset && 0 <= offset < size[nodes[p]]
    ensures var n := nodes[p];
            var tail := size[n] - offset;
            Apart(nodes, gaddr + [at], (size + [tail])[n := offset], p, at, tail)
  {
  }

  /** The range lies right after region p and before all later ones. */
  ghost predicate Apart(nodes: seq<int>, gaddr: seq<int>, size: seq<int>, p: int, g: int, sz: int) {
    && 0 <= p < |nodes| && |gaddr| == |size| && sz > 0
    && (forall i :: 0 <= i < |nodes| ==> 0 <= nodes[i] < |size|)
    && (forall i :: 0 <= i <= p ==> gaddr[nodes[i]] + size[nodes[i]] <= g && gaddr[nodes[i]] <= g)
    && (forall i :: p < i < |nodes| ==> g + sz <= gaddr[nodes[i]])
    && (forall n :: n in nodes ==> Compare(g, sz, gaddr[n], size[n]) != 0)
  }

  lemma TailPlace(nodes: seq<int>, gaddr: seq<int>, size: seq<int>, p: int, q: int, g: int, sz: int)
    requires Apart(nodes, gaddr, size, p, g, sz) && Gap(nodes, gaddr, size, g, sz, q, q)
    ensures q == p + 1
  {
    assert 0 <= nodes[p] < |size|;
    assert p + 1 < |nodes| ==> 0 <= nodes[p + 1] < |size|;
  }

  /**
   Where a search for a range goes from node n: towards the range while n does
   not overlap it, then to the left child as long as that one overlaps too.
   NULL where the search stops.
   */
  function Onward(left: seq<int>, right: seq<int>, gaddr: seq<int>, size: seq<int>, g: int, sz: int, n: int): (r: int)
    requires |left| == |right| == |gaddr| == |size| && 0 <= n < |left|
  {
    var c := Compare(g, sz, gaddr[n], size[n]);
    if c > 0 then right[n]
    else if c < 0 then left[n]
    else if 0 <= left[n] < |left| && Compare(g, sz, gaddr[left[n]], size[left[n]]) == 0 then left[n]
    else NULL
  }

  /** The nodes a search for a range visits, from the root on. */
  ghost predicate Visits(root: int, left: seq<int>, right: seq<int>, gaddr: seq<int>, size: seq<int>,
                         g: int, sz: int, path: seq<int>) {
    && |left| == |right| == |gaddr| == |size|
    && (|path| > 0 ==> path[0] == root)
    && (forall i :: 0 <= i < |path| ==> 0 <= path[i] < |left|)
    && (forall i :: 0 < i < |path| ==> path[i] == Onward(left, right, gaddr, size, g, sz, path[i - 1]))
  }

  /** The node such a search ends on. */
  ghost predicate EndsOn(root: int, left: seq<int>, right: seq<int>, gaddr: seq<int>, size: seq<int>,
                         g: int, sz: int, path: seq<int>) {
    && Visits(root, left, right, gaddr, size, g, sz, path) && |path| > 0
    && Onward(left, right, gaddr, size, g, sz, path[|path| - 1]) == NULL
  }

  lemma {:induction false} SameStep(root: int, left: seq<int>, right: seq<int>, gaddr: seq<int>, size: seq<int>,
                                    g: int, sz: int, path: seq<int>, path': seq<int>, i: int)
    requires Visits(root, left, right, gaddr, size, g, sz, path)
    requires EndsOn(root, left, right, gaddr, size, g, sz, path')
    requires 0 <= i < |path|
    ensures i < |path'| && path[i] == path'[i]
  {
    if i > 0 {
      SameStep(root, left, right, gaddr, size, g, sz, path, path', i - 1);
      assert path[i] == Onward(left, right, gaddr, size, g, sz, path[i - 1]);
      assert i < |path'| ==> path'[i] == Onward(left, right, gaddr, size, g, sz, path'[i - 1]);
    }
  }

  /** A search has one course. */
  lemma OneCourse(root: int, left: seq<int>, right: seq<int>, gaddr: seq<int>, size: seq<int>,
                  g: int, sz: int, path: seq<int>, path': seq<int>)
    requires EndsOn(root, left, right, gaddr, size, g, sz, path)
    requires EndsOn(root, left, right, gaddr, size, g, sz, path')
    ensures path == path'
  {
    SameStep(root, left, right, gaddr, size, g, sz, path', path, |path'| - 1);
    forall i | 0 <= i < |path|
      ensures i < |path'| && path[i] == path'[i]
    {
      SameStep(root, left, right, gaddr, size, g, sz, path, path', i);
    }
  }

  /**
   A tree of the pages 1 to 4: 3 at the root, 1 and 4 below it, and 2 (red) to
   the right of 1.
   */
  const FourPages: Shape :=
    Shape({0, 1, 2, 3}, 0, 4, [2, 0, 3, 1], [0, 0, 3, 1], [4, 2, 4, 2],
          0, [1, NULL, NULL, NULL], [2, 3, NULL, NULL], [NULL, 0, 0, 1])

  lemma FourPagesLinked()
    ensures Linked(FourPages)
  {
    assert NodeOk(FourPages, 0) && NodeOk(FourPages, 1) && NodeOk(FourPages, 2) && NodeOk(FourPages, 3);
  }

  lemma FourPagesBalanced()
    ensures Balanced(FourPages, [false, false, false, true], [2, 1, 1, 0])
  {
    FourPagesLinked();
    var red, bh := [false, false, false, true], [2, 1, 1, 0];
    assert HeightAt(FourPages, red, bh, 0) && HeightAt(FourPages, red, bh, 1);
    assert HeightAt(FourPages, red, bh, 2) && HeightAt(FourPages, red, bh, 3);
    assert RedAt(FourPages, red, 0) && RedAt(FourPages, red, 1) && RedAt(FourPages, red, 2) && RedAt(FourPages, red, 3);
  }

  lemma FourPagesOrder()
    ensures InOrder([1, 3, 0, 2], FourPages.mem, FourPages.pos) && Ordered([1, 3, 0, 2], [3, 1, 4, 2], [1, 1, 1, 1])
  {
    assert [1, 3, 0, 2][0] == 1 && [1, 3, 0, 2][1] == 3;
  }

  /**
   A search can miss the lowest overlapping region: in this tree the one for
   pages 2 and 3 ends on page 3, whose left child is page 1, not page 2.
   */
  lemma LowestMissed()
    ensures var s, gaddr, size := FourPages, [3, 1, 4, 2], [1, 1, 1, 1];
            var nodes := [1, 3, 0, 2];
            && Balanced(s, [false, false, false, true], [2, 1, 1, 0])
            && InOrder(nodes, s.mem, s.pos) && Ordered(nodes, gaddr, size)
            && EndsOn(s.root, s.near, s.far, gaddr, size, 2, 2, [0])
            && s.pos[3] < s.pos[0] && Compare(2, 2, gaddr[3], size[3]) == 0
  {
    FourPagesBalanced();
    FourPagesOrder();
  }

  class Tree {
    var root: int
    var left: seq<int>
    var right: seq<int>
    var parent: seq<int>
    var red: seq<bool>
    var gaddr: seq<int>
    var size: seq<int>

    ghost var nodes: seq<int>
    ghost var mem: set<int>
    ghost var pos: seq<int>
    ghost var lo: seq<int>
    ghost var hi: seq<int>
    ghost var bh: seq<int>

    ghost function View(d: Side): (s: Shape)
      reads this`mem, this`nodes, this`pos, this`lo, this`hi, this`root, this`left, this`right, this`parent
    {
      var s := Shape(mem, 0, |nodes|, pos, lo, hi, root, left, right, parent);
      if d.L? then s else Flip(s)
    }

    function Near(d: Side): (s: seq<int>)
      reads this`left, this`right
    {
      if d.L? then left else right
    }

    function Far(d: Side): (s: seq<int>)
      reads this`left, this`right
    {
      if d.L? then right else left
    }

    ghost predicate Valid()
      reads this
    {
      && Balanced(View(L), red, bh)
      && InOrder(nodes, mem, pos)
      && |gaddr| == |size| == |pos|
      && Ordered(nodes, gaddr, size)
    }

    /** The parts of the tree seen from a side. */
    lemma Fields(d: Side)
      ensures View(d).near == Near(d) && View(d).far == Far(d) && View(d).parent == parent && View(d).root == root
      ensures View(d).mem == mem && |View(d).pos| == |pos|
      ensures View(L).lo == lo && View(L).hi == hi && View(L).first == 0 && View(L).last == |nodes|
      ensures Sizes(View(d)) <==> Sizes(View(L))
    {
    }

    lemma ViewOther(d: Side)
      ensures View(d.Other()) == Flip(View(d))
    {
      FlipFlip(View(L));
    }

    method RotateLeft(x: int) returns (y: int)
      requires 0 <= x < |right| && CanRotate(View(L), x, right[x])
      modifies this`root, this`left, this`right, this`parent, this`lo, this`hi
      ensures y == old(right[x])
      ensures Rotated(old(View(L)), View(L), x, y)
    {
      hide CanRotate, Linked, Rotated, Flip;
      y := right[x];
      ghost var s := View(L);
      BeforeRotation(s, x, y);
      right := right[x := left[y]];
      if right[x] != NULL {
        parent := parent[left[y] := x];
      }
      parent := parent[y := parent[x]];
      if parent[y] != NULL {
        if x == left[parent[x]] {
          left := left[parent[x] := y];
        } else {
          right := right[parent[x] := y];
        }
      } else {
        root := y;
      }
      left := left[y := x];
      parent := parent[x := y];
      hi := hi[x := pos[y]];
      lo := lo[y := lo[x]];
      assert View(L) == Rotation(s, x);
    }

    method RotateRight(x: int) returns (y: int)
      requires 0 <= x < |left| && Sizes(View(L)) && CanRotate(View(R), x, left[x])
      modifies this`root, this`left, this`right, this`parent, this`lo, this`hi
      ensures y == old(left[x])
      ensures Rotated(old(View(R)), View(R), x, y)
    {
      hide CanRotate, Linked, Rotated, Flip;
      y := left[x];
      ghost var s := View(L);
      BeforeRotationBack(s, x, y);
      left := left[x := right[y]];
      if left[x] != NULL {
        parent := parent[right[y] := x];
      }
      parent := parent[y := parent[x]];
      if parent[y] != NULL {
        if x == left[parent[x]] {
          left := left[parent[x] := y];
        } else {
          right := right[parent[x] := y];
        }
      } else {
        root := y;
      }
      right := right[y := x];
      parent := parent[x := y];
      lo := lo[x := pos[y] + 1];
      hi := hi[y := hi[x]];
      assert View(L) == RotationBack(s, x);
    }

    /** Rotates x towards side d: its child on the other side takes its place. */
    method Rotate(d: Side, x: int) returns (y: int)
      requires 0 <= x < |left| == |right| && Sizes(View(L)) && CanRotate(View(d), x, Far(d)[x])
      modifies this`root, this`left, this`right, this`parent, this`lo, this`hi
      ensures y == old(Far(d)[x])
      ensures Rotated(old(View(d)), View(d), x, y)
    {
      if d.L? {
        y := RotateLeft(x);
      } else {
        y := RotateRight(x);
      }
    }

    lemma ViewInserting(d: Side, e: int)
      requires Inserting(View(L), red, bh, e)
      ensures Inserting(View(d), red, bh, e)
    {
      FlipInserting(View(L), red, bh, e);
    }

    lemma ViewBalanced(d: Side)
      requires Balanced(View(d), red, bh)
      ensures Balanced(View(L), red, bh)
    {
      FlipBalanced(View(d), red, bh);
      FlipFlip(View(L));
    }

    /** Red uncle: recolour, and go on at the grandparent. */
    method PushUp(e: int, p: int, g: int, u: int)
      requires RedUncle(View(L), red, bh, e, p, g, u)
      modifies this`red, this`bh
      ensures Inserting(View(L), red, bh, g)
    {
      PushRedUp(View(L), red, bh, e, p, g, u);
      red := red[u := false][p := false][g := true];
      bh := bh[u := bh[u] + 1][p := bh[p] + 1];
    }

    /** The inner grandchild e of g is rotated above its parent p, which becomes the violating node. */
    method RotateInner(d: Side, e: int, p: int, g: int)
      requires Inserting(View(d), red, bh, e) && Sizes(View(L))
      requires p == parent[e] && IsRed(red, p) && p in mem && g == parent[p] && g != NULL
      requires Far(d)[p] == e && g in mem && Near(d)[g] == p && e != g
      modifies this`root, this`left, this`right, this`parent, this`lo, this`hi
      ensures Inserting(View(d), red, bh, p) && Sizes(View(L))
      ensures Near(d)[g] == e && Near(d)[e] == p && Far(d)[g] == old(Far(d)[g])
    {
      ghost var s := View(d);
      KidOf(s, g);
      var y := Rotate(d, p);
      InsertInner(s, View(d), red, bh, e, p);
    }

    /** The grandparent g is rotated below p: balance is restored. */
    method RotateOuter(d: Side, e: int, p: int, g: int)
      requires OuterCase(View(d), red, bh, e, p, g) && Sizes(View(L))
      modifies this`root, this`left, this`right, this`parent, this`lo, this`hi, this`red, this`bh
      ensures Balanced(View(d), red, bh) && parent[e] == p && !IsRed(red, p)
    {
      hide View, OuterCase, CanRotate, Rotated, Balanced;
      ghost var s := View(d);
      Fields(d);
      OuterReady(s, red, bh, e, p, g);
      red := red[p := false][g := true];
      var y := Rotate(d, g);
      OuterDone(s, View(d), old(red), bh, e, p, g);
      Fields(d);
      bh := bh[p := bh[p] + 1][g := bh[p]];
    }

    /** The rotations under a black uncle: an inner node is first made an outer one. */
    method InsertRotate(d: Side, e: int, p0: int, g: int) returns (e': int)
      requires Inserting(View(d), red, bh, e) && Sizes(View(L)) && 0 <= e < |parent| && p0 == parent[e] && p0 in mem
               && g in mem
      requires IsRed(red, p0) && 0 <= p0 < |parent| && g == parent[p0] && g != NULL && e != g && e != p0
      requires 0 <= g < |left| == |right| == |parent| && Near(d)[g] == p0 && !IsRed(red, Far(d)[g])
      requires Near(d)[p0] == e || Far(d)[p0] == e
      modifies this`root, this`left, this`right, this`parent, this`lo, this`hi, this`red, this`bh
      ensures Balanced(View(L), red, bh) && e' in mem && 0 <= e' < |parent| && !IsRed(red, parent[e'])
    {
      hide View, Inserting, Balanced, Sizes, NodeOk, Flip;
      Fields(d);
      InsertingNodes(View(d), red, bh, e);
      var p := p0;
      e' := e;
      if Far(d)[p] == e {
        RotateInner(d, e, p, g);
        Fields(d);
        InsertingNodes(View(d), red, bh, p);
        e', p := p, e;
      }
      FlipInserting(View(d), red, bh, e');
      ViewOther(d);
      Fields(d.Other());
      RotateOuter(d.Other(), e', p, g);
      ViewBalanced(d.Other());
      Fields(L);
      BalancedNodes(View(L), red, bh);
    }

    /** One turn of the insertion fix-up; `done` when the loop condition is false afterwards. */
    method InsertTurn(e: int) returns (e': int, ghost done: bool)
      requires Inserting(View(L), red, bh, e) && IsRed(red, parent[e])
      modifies this`root, this`left, this`right, this`parent, this`lo, this`hi, this`red, this`bh
      ensures e' in mem && Sizes(View(L)) && NodeOk(View(L), e') && |red| == |pos|
      ensures done ==> Balanced(View(L), red, bh) && !IsRed(red, parent[e'])
      ensures !done ==> Inserting(View(L), red, bh, e') && hi[e'] - lo[e'] > old(hi[e] - lo[e])
    {
      hide View, Inserting, Balanced, NodeOk;
      Fields(L);
      InsertingNodes(View(L), red, bh, e);
      Grandparent(View(L), red, bh, e);
      var p := parent[e];
      var g := parent[p];
      var d := if p == left[g] then L else R;
      var tmp := Far(d)[g];
      if tmp != NULL && red[tmp] {
        PushUp(e, p, g, tmp);
        InsertingOk(View(L), red, bh, g, g);
        return g, false;
      }
      ViewInserting(d, e);
      e' := InsertRotate(d, e, p, g);
      Fields(L);
      BalancedOk(View(L), red, bh, e');
      done := true;
    }

    method InsertColor(elm: int)
      requires Inserting(View(L), red, bh, elm)
      modifies this`root, this`left, this`right, this`parent, this`lo, this`hi, this`red, this`bh
      ensures Balanced(View(L), red, bh)
    {
      hide View, InOrder, Ordered, Inserting, Balanced, KidOk, UpOk;
      var e := elm;
      ghost var done := false;
      Fields(L);
      InsertingNodes(View(L), red, bh, e);
      InsertingOk(View(L), red, bh, e, e);
      ParentIn(View(L), e);
      while parent[e] != NULL && red[parent[e]]
        invariant e in mem && e in View(L).mem && Sizes(View(L)) && NodeOk(View(L), e) && |red| == |pos|
        invariant 0 <= e < |parent| == |lo| == |hi| && (parent[e] != NULL ==> 0 <= parent[e] < |red|)
        invariant !done ==> Inserting(View(L), red, bh, e)
        invariant done ==> Balanced(View(L), red, bh) && !IsRed(red, parent[e])
        decreases !done, |nodes| - (hi[e] - lo[e])
      {
        Fields(L);
        e, done := InsertTurn(e);
        Fields(L);
        ParentIn(View(L), e);
      }
      Fields(L);
      if done {
        RootAlreadyBlack(View(L), red, bh, e);
      } else {
        BlackenRoot(View(L), red, bh, e);
        InsertingNodes(View(L), red, bh, e);
        bh := if red[root] then bh[root := bh[root] + 1] else bh;
      }
      red := red[root := false];
    }

    // ---- removal fix-up --------------------------------------------------

    /** A red sibling is rotated above p; the new sibling is black. */
    method RaiseSibling(d: Side, p: int) returns (t: int)
      requires NearDeficit(View(d), red, bh, p) && Sizes(View(L)) && IsRed(red, Far(d)[p])
      modifies this`root, this`left, this`right, this`parent, this`lo, this`hi, this`red, this`bh
      ensures NearDeficit(View(d), red, bh, p) && Sizes(View(L))
      ensures t == Far(d)[p] && !IsRed(red, t) && Near(d)[p] == old(Near(d)[p]) && IsRed(red, p)
    {
      hide View, CanRotate, Rotated, NearDeficit, Sizes;
      ghost var s := View(d);
      Fields(d);
      DeficitNodes(s, red, bh, p);
      var tmp := Far(d)[p];
      SiblingReady(s, red, bh, p);
      red := red[tmp := false][p := true];
      var y := Rotate(d, p);
      SiblingDone(s, View(d), old(red), bh, p, tmp);
      Fields(d);
      bh := bh[tmp := bh[p]][p := bh[tmp]];
      t := Far(d)[p];
    }

    /** An inner red nephew is rotated above the sibling t. */
    method RaiseInner(d: Side, p: int, t: int) returns (t': int)
      requires NearDeficit(View(d), red, bh, p) && Sizes(View(L)) && t == Far(d)[p] && t in mem && !IsRed(red, t)
      requires IsRed(red, Near(d)[t]) && !IsRed(red, Far(d)[t])
      modifies this`root, this`left, this`right, this`parent, this`lo, this`hi, this`red, this`bh
      ensures NearDeficit(View(d), red, bh, p) && Sizes(View(L))
      ensures t' == Far(d)[p] && t' in mem && !IsRed(red, t') && Far(d)[t'] in mem && IsRed(red, Far(d)[t'])
    {
      hide View, Flip, CanRotate, Rotated, NearDeficit, FarDeficit, Sizes;
      ghost var s := View(d);
      Fields(d);
      Fields(d.Other());
      ViewOther(d);
      InnerReady(s, red, bh, p, t);
      var o := Near(d)[t];
      if o != NULL {
        red := red[o := false];
      }
      red := red[t := true];
      var y := Rotate(d.Other(), t);
      ViewOther(d);
      InnerDone(s, View(d), old(red), bh, p, t, o);
      Fields(d);
      bh := bh[o := bh[t]][t := bh[o]];
      t' := Far(d)[p];
    }

    /** With a red outer nephew one rotation settles the deficit. */
    method Settle(d: Side, p: int, t: int)
      requires NearDeficit(View(d), red, bh, p) && Sizes(View(L)) && t == Far(d)[p] && t in mem && !IsRed(red, t)
      requires Far(d)[t] in mem && IsRed(red, Far(d)[t])
      modifies this`root, this`left, this`right, this`parent, this`lo, this`hi, this`red, this`bh
      ensures Balanced(View(d), red, bh)
    {
      hide View, CanRotate, Rotated, NearDeficit, Balanced;
      ghost var s := View(d);
      Fields(d);
      DeficitNodes(s, red, bh, p);
      var w := Far(d)[t];
      NephewReady(s, red, bh, p, t, w);
      red := red[t := red[p]];
      red := red[p := false];
      if Far(d)[t] != NULL {
        red := red[Far(d)[t] := false];
      }
      var y := Rotate(d, p);
      OuterNephewUp(s, View(d), old(red), bh, p, t, w);
      bh := bh[t := bh[p]][p := bh[t]][w := bh[w] + 1];
    }

    ghost function Rank(q: int, c: int): (r: int)
      reads this
    {
      if IsRed(red, c) || c == root || !(0 <= q < |hi| && 0 <= q < |lo|) then 0 else 1 + |nodes| - (hi[q] - lo[q])
    }

    lemma ViewDeficit(q: int, c: int) returns (d: Side)
      requires Lacking(View(L), red, bh, q, c) && !IsRed(red, c) && c != root
      ensures 0 <= q < |left| && q in mem && Sizes(View(L)) && d == (if left[q] == c then L else R)
      ensures NearDeficit(View(d), red, bh, q)
      ensures Rank(q, c) >= 1
    {
      EnterTurn(View(L), red, bh, q, c);
      assert NodeOk(View(L), q);
      d := if left[q] == c then L else R;
      if d.R? {
        FlipDeficit(View(L), red, bh, q);
      }
    }

    lemma ViewLacking(d: Side, q: int, c: int)
      requires Lacking(View(d), red, bh, q, c)
      ensures Lacking(View(L), red, bh, q, c)
    {
      FlipLacking(View(d), red, bh, q, c);
      FlipFlip(View(L));
    }

    /** Black nephews: the sibling t is reddened and the deficit moves up to p. */
    lemma RankBelow(p: int)
      requires p in mem && 0 <= p < |parent| && Lacking(View(L), red, bh, parent[p], p)
      ensures 0 <= p < |hi| == |lo| && 0 <= Rank(parent[p], p) <= |nodes| - (hi[p] - lo[p])
      ensures IsRed(red, p) ==> Rank(parent[p], p) == 0
    {
      hide HeightsBut, NoRedRedAround, ShortAt;
      assert NodeOk(View(L), p);
      assert parent[p] != NULL ==> NodeOk(View(L), parent[p]);
    }

    method PushDeficit(d: Side, p: int, t: int)
      requires BlackNephews(View(d), red, bh, p, t) && Sizes(View(L))
      modifies this`red, this`bh
      ensures Lacking(View(L), red, bh, parent[p], p)
      ensures red[p] == old(red[p]) && Rank(parent[p], p) <= |nodes| - (hi[p] - lo[p]) && 0 <= Rank(parent[p], p)
      ensures red[p] ==> Rank(parent[p], p) == 0
    {
      hide View, Lacking, BlackNephews, Rank;
      Fields(d);
      PushReady(View(d), red, bh, p, t);
      PushDeficitUp(View(d), red, bh, p, t);
      red := red[t := true];
      bh := bh[t := bh[t] - 1][p := bh[p] - 1];
      ViewLacking(d, parent[p], p);
      RankBelow(p);
    }

    /** One turn of the removal fix-up, on the side of q where the short subtree c hangs. */
    method RemoveTurn(q: int, c: int) returns (q': int, c': int, ghost done: bool)
      requires Lacking(View(L), red, bh, q, c) && !IsRed(red, c) && c != root
      modifies this`root, this`left, this`right, this`parent, this`lo, this`hi, this`red, this`bh
      ensures done ==> Balanced(View(L), red, bh) && c' == root && c' in mem
      ensures !done ==> Lacking(View(L), red, bh, q', c') && 0 <= Rank(q', c') < old(Rank(q, c))
    {
      hide View, Lacking, NearDeficit, Balanced, Sizes;
      ghost var d0 := ViewDeficit(q, c);
      var d := if left[q] == c then L else R;
      Fields(d);
      DeficitNodes(View(d), red, bh, q);
      Sibling(View(d), red, bh, q);
      var t := Far(d)[q];
      if red[t] {
        t := RaiseSibling(d, q);
        Fields(d);
        DeficitNodes(View(d), red, bh, q);
        Sibling(View(d), red, bh, q);
      }
      if (Near(d)[t] == NULL || !red[Near(d)[t]]) && (Far(d)[t] == NULL || !red[Far(d)[t]]) {
        PushDeficit(d, q, t);
        q', c', done := parent[q], q, false;
      } else {
        SettleTurn(d, q, t);
        q', c', done := NULL, root, true;
      }
    }

    /** The last turn: with a red nephew, at most two rotations end the loop. */
    method SettleTurn(d: Side, q: int, t0: int)
      requires NearDeficit(View(d), red, bh, q) && Sizes(View(L)) && t0 == Far(d)[q] && t0 in mem && !IsRed(red, t0)
      requires IsRed(red, Near(d)[t0]) || IsRed(red, Far(d)[t0])
      modifies this`root, this`left, this`right, this`parent, this`lo, this`hi, this`red, this`bh
      ensures Balanced(View(L), red, bh) && root in mem
    {
      hide View, NearDeficit, Heights, NoRedRed, Linked, Sizes;
      Fields(d);
      DeficitNodes(View(d), red, bh, q);
      Sibling(View(d), red, bh, q);
      var t := t0;
      if Far(d)[t] == NULL || !red[Far(d)[t]] {
        t := RaiseInner(d, q, t);
      }
      Settle(d, q, t);
      ViewBalanced(d);
      Fields(L);
      RootIn(View(L), q);
    }

    /** Repairs the black heights after a black node was taken out above c, under q. */
    method RemoveColor(q0: int, c0: int)
      requires Lacking(View(L), red, bh, q0, c0)
      modifies this`root, this`left, this`right, this`parent, this`lo, this`hi, this`red, this`bh
      ensures Balanced(View(L), red, bh)
    {
      hide Heights, HeightsBut, HeightAt, ShortAt, NoRedRed, NoRedRedAround, RedAt, NodeOk, KidOk, Flip, InOrder,
           Ordered;
      var q, c := q0, c0;
      ghost var done := false;
      while (c == NULL || !red[c]) && c != root
        invariant |red| == |pos| && (c != NULL ==> c in mem && 0 <= c < |pos|)
        invariant !done ==> Lacking(View(L), red, bh, q, c)
        invariant done ==> Balanced(View(L), red, bh) && c == root && c in mem
        decreases !done, if done then 0 else Rank(q, c)
      {
        q, c, done := RemoveTurn(q, c);
      }
      if done {
        RootAlreadyBlack(View(L), red, bh, c);
      } else if c != NULL && red[c] {
        FinishRed(View(L), red, bh, q, c);
        bh := bh[c := bh[c] + 1];
      } else {
        FinishRoot(View(L), red, bh, q, c);
        if c != NULL {
          RootAlreadyBlack(View(L), red, bh, c);
        }
      }
      if c != NULL {
        red := red[c := false];
      }
    }

    // ---- insertion -------------------------------------------------------

    /** A fresh red leaf, not yet linked from its parent. */
    method SetLeaf(e: int, p: int)
      requires 0 <= e < |left| == |right| == |parent| == |red|
      modifies this`left, this`right, this`parent, this`red
      ensures left == old(left)[e := NULL] && right == old(right)[e := NULL]
      ensures parent == old(parent)[e := p] && red == old(red)[e := true]
    {
      parent := parent[e := p];
      left := left[e := NULL];
      right := right[e := NULL];
      red := red[e := true];
    }

    /** Opens a gap in the in-order numbering at q for the new node e. */
    ghost method Renumber(e: int, q: int, bound: int)
      requires |lo| == |hi| == |pos| == |bh| && 0 <= e < |pos| && 0 <= q <= |nodes|
      modifies this`pos, this`lo, this`hi, this`nodes, this`mem, this`bh
      ensures nodes == InsertAt(old(nodes), q, e) && mem == old(mem) + {e} && bh == old(bh)[e := 0]
      ensures |pos| == |lo| == |hi| == |old(pos)|
      ensures pos[e] == lo[e] == q && hi[e] == q + 1
      ensures forall n :: 0 <= n < |pos| && n != e ==>
                pos[n] == Up(old(pos)[n], q) && lo[n] == Up(old(lo)[n], bound) && hi[n] == Up(old(hi)[n], bound)
    {
      var pos0, lo0, hi0 := pos, lo, hi;
      pos := seq(|pos0|, i requires 0 <= i < |pos0| => if i == e then q else Up(pos0[i], q));
      lo := seq(|lo0|, i requires 0 <= i < |lo0| => if i == e then q else Up(lo0[i], bound));
      hi := seq(|hi0|, i requires 0 <= i < |hi0| => if i == e then q + 1 else Up(hi0[i], bound));
      nodes := InsertAt(nodes, q, e);
      mem := mem + {e};
      bh := bh[e := 0];
    }

    /** Hangs e under p as its left child. */
    method AttachLeft(e: int, p: int, ghost q: int)
      requires Balanced(View(L), red, bh) && InOrder(nodes, mem, pos)
      requires 0 <= e < |pos| && e !in mem
      requires p in mem && left[p] == NULL && q == pos[p]
      modifies this`root, this`left, this`right, this`parent, this`red, this`pos, this`lo, this`hi, this`nodes,
               this`mem, this`bh
      ensures Inserting(View(L), red, bh, e) && InOrder(nodes, mem, pos)
      ensures 0 <= q <= |old(nodes)| && nodes == InsertAt(old(nodes), q, e) && |pos| == |old(pos)|
      ensures mem == old(mem) + {e}
    {
      hide Balanced, Inserting, Linked, OnlyAt;
      ghost var s, red0, bh0 := View(L), red, bh;
      BalancedNodes(s, red, bh);
      OnlyAtFromOrder(s, nodes, p);
      SetLeaf(e, p);
      left := left[p := e];
      Renumber(e, q, q + 1);
      assert AddedNear(s, View(L), p, e);
      AddedNearDone(s, View(L), red0, bh0, p, e);
      InsertInOrder(old(nodes), old(mem), old(pos), pos, q, e);
    }

    /** Hangs e under p as its right child. */
    method AttachRight(e: int, p: int, ghost q: int)
      requires Balanced(View(L), red, bh) && InOrder(nodes, mem, pos)
      requires 0 <= e < |pos| && e !in mem
      requires p in mem && right[p] == NULL && q == pos[p] + 1
      modifies this`root, this`left, this`right, this`parent, this`red, this`pos, this`lo, this`hi, this`nodes,
               this`mem, this`bh
      ensures Inserting(View(L), red, bh, e) && InOrder(nodes, mem, pos)
      ensures 0 <= q <= |old(nodes)| && nodes == InsertAt(old(nodes), q, e) && |pos| == |old(pos)|
      ensures mem == old(mem) + {e}
    {
      hide Balanced, Inserting, Linked, OnlyAt;
      ghost var s, red0, bh0 := View(L), red, bh;
      BalancedNodes(s, red, bh);
      OnlyAtFromOrder(s, nodes, p);
      SetLeaf(e, p);
      right := right[p := e];
      Renumber(e, q, q);
      assert AddedFar(s, View(L), p, e);
      AddedFarDone(s, View(L), red0, bh0, p, e);
      InsertInOrder(old(nodes), old(mem), old(pos), pos, q, e);
    }

    /** Makes e the root of an empty tree. */
    method AttachRoot(e: int, ghost q: int)
      requires Balanced(View(L), red, bh) && InOrder(nodes, mem, pos)
      requires 0 <= e < |pos| && e !in mem
      requires root == NULL && q == 0
      modifies this`root, this`left, this`right, this`parent, this`red, this`pos, this`lo, this`hi, this`nodes,
               this`mem, this`bh
      ensures Inserting(View(L), red, bh, e) && InOrder(nodes, mem, pos)
      ensures 0 <= q <= |old(nodes)| && nodes == InsertAt(old(nodes), q, e) && |pos| == |old(pos)|
      ensures mem == old(mem) + {e}
    {
      EmptyTree(View(L), nodes);
      SetLeaf(e, NULL);
      root := e;
      Renumber(e, q, q);
      AloneColours(View(L), red, bh, e);
      InsertInOrder(old(nodes), old(mem), old(pos), pos, q, e);
    }

    ghost predicate Between(g: int, sz: int, i: int, j: int)
      reads this
    {
      Gap(nodes, gaddr, size, g, sz, i, j)
    }

    /** Narrowing the search to one side of node n. */
    lemma Descend(g: int, sz: int, i: int, j: int, n: int)
      requires Valid() && sz >= 0 && n in mem && Between(g, sz, i, j) && i <= pos[n] < j
      requires i == lo[n] && j == hi[n]
      ensures NodeOk(View(L), n) && 0 <= n < |gaddr| && pos[n] < |nodes|
      ensures Compare(g, sz, gaddr[n], size[n]) < 0 ==> Between(g, sz, i, pos[n])
      ensures Compare(g, sz, gaddr[n], size[n]) > 0 ==> Between(g, sz, pos[n] + 1, j)
    {
      assert NodeOk(View(L), n);
      var c := Compare(g, sz, gaddr[n], size[n]);
      forall k | pos[n] <= k < |nodes| && c < 0
        ensures g + sz <= gaddr[nodes[k]]
      {
        BelowFrom(nodes, gaddr, size, g, sz, pos[n], k);
      }
      forall k | 0 <= k <= pos[n] && c > 0
        ensures gaddr[nodes[k]] + size[nodes[k]] <= g
      {
        AboveUpTo(nodes, gaddr, size, g, sz, pos[n], k);
      }
    }

    /** The search of an insertion: an overlapping region, or the free place (p, d) for the range at position q. */
    method Locate(g: int, sz: int) returns (r: int, p: int, d: Side, ghost q: int)
      requires Valid() && sz >= 0
      ensures r != NULL ==> r in mem && 0 <= r < |size| == |gaddr| && Compare(g, sz, gaddr[r], size[r]) == 0
      ensures r == NULL ==> Between(g, sz, q, q)
      ensures r == NULL && p == NULL ==> root == NULL && q == 0
      ensures r == NULL && p != NULL ==>
                p in mem && Near(d)[p] == NULL && q == (if d.L? then pos[p] else pos[p] + 1)
    {
      hide InOrder, Ordered;
      var tmp := root;
      var comp := 0;
      p, d := NULL, L;
      ghost var i, j := 0, |nodes|;
      assert tmp != NULL ==> NodeOk(View(L), tmp);
      while tmp != NULL
        invariant Between(g, sz, i, j)
        invariant tmp != NULL ==> tmp in mem && i == lo[tmp] && j == hi[tmp] && i <= pos[tmp] < j
        invariant tmp == NULL ==> i == j
        invariant p == NULL ==> tmp == root && i == 0 && j == |nodes|
        invariant p != NULL ==> p in mem && tmp == Near(d)[p] && (if d.L? then j == pos[p] else i == pos[p] + 1)
        decreases j - i, tmp != NULL
      {
        p := tmp;
        Descend(g, sz, i, j, p);
        comp := Compare(g, sz, gaddr[p], size[p]);
        if comp < 0 {
          tmp, d := left[tmp], L;
          j := pos[p];
        } else if comp > 0 {
          tmp, d := right[tmp], R;
          i := pos[p] + 1;
        } else {
          return tmp, p, d, 0;
        }
        assert tmp != NULL ==> NodeOk(View(L), tmp);
      }
      r, q := NULL, i;
    }

    /**
     Inserts node e by the range it describes. If a region already overlaps that
     range, one such region is returned and nothing changes; otherwise e takes
     its place in the order, at position q, and NULL is returned.
     */
    method Insert(e: int) returns (r: int, ghost q: int)
      requires Valid() && 0 <= e < |pos| && e !in mem && size[e] >= 0
      modifies this`root, this`left, this`right, this`parent, this`red, this`pos, this`lo, this`hi, this`nodes,
               this`mem, this`bh
      ensures Valid() && |pos| == |old(pos)|
      ensures r != NULL ==> r in mem && 0 <= r < |size| && Compare(gaddr[e], size[e], gaddr[r], size[r]) == 0
      ensures r != NULL ==>
              r in nodes && nodes == old(nodes) && mem == old(mem) && View(L) == old(View(L)) && red == old(red)
      ensures r == NULL ==> 0 <= q <= |old(nodes)| && nodes == InsertAt(old(nodes), q, e) && mem == old(mem) + {e}
      ensures r == NULL ==> old(Between(gaddr[e], size[e], q, q))
    {
      hide Linked, Heights, NoRedRed;
      var p, d;
      r, p, d, q := Locate(gaddr[e], size[e]);
      if r != NULL {
        assert nodes[pos[r]] == r;
        return r, 0;
      }
      InsertOrdered(nodes, gaddr, size, q, e);
      if p == NULL {
        AttachRoot(e, q);
      } else if d.L? {
        AttachLeft(e, p, q);
      } else {
        AttachRight(e, p, q);
      }
      InsertColor(e);
    }

    // ---- removal ---------------------------------------------------------

    /** Closes the gap that the node y leaves in the in-order numbering. */
    ghost method CloseGap(y: int)
      requires |lo| == |hi| == |pos| && y in mem && 0 <= y < |pos| && 0 <= pos[y] < |nodes|
      modifies this`pos, this`lo, this`hi, this`nodes, this`mem
      ensures nodes == RemoveAt(old(nodes), old(pos[y])) && mem == old(mem) - {y}
      ensures |pos| == |lo| == |hi| == |old(pos)|
      ensures forall n :: 0 <= n < |pos| ==>
                && pos[n] == Down(old(pos)[n], old(pos[y]))
                && lo[n] == Down(old(lo)[n], old(pos[y]))
                && hi[n] == Down(old(hi)[n], old(pos[y]))
    {
      var pos0, lo0, hi0, q := pos, lo, hi, pos[y];
      pos := seq(|pos0|, i requires 0 <= i < |pos0| => Down(pos0[i], q));
      lo := seq(|lo0|, i requires 0 <= i < |lo0| => Down(lo0[i], q));
      hi := seq(|hi0|, i requires 0 <= i < |hi0| => Down(hi0[i], q));
      nodes := RemoveAt(nodes, q);
      mem := mem - {y};
    }

    /** The only child c of y takes its place under y's parent. */
    method Bypass(y: int, c: int)
      requires Linked(View(L)) && y in mem && OnlyChild(View(L), y, c)
      modifies this`root, this`left, this`right, this`parent
      ensures |left| == |right| == |parent| == |pos|
      ensures root == (if old(root) == y then c else old(root))
      ensures forall n :: n in mem && n != y ==>
                && left[n] == (if old(left)[n] == y then c else old(left)[n])
                && right[n] == (if old(right)[n] == y then c else old(right)[n])
                && parent[n] == (if n == c then old(parent)[y] else old(parent)[n])
      ensures parent[y] == old(parent)[y] && left[y] == old(left)[y] && right[y] == old(right)[y]
    {
      ghost var s := View(L);
      KidOf(s, y);
      forall n | n in mem && n != y
        ensures left[n] == y || right[n] == y ==> parent[y] == n
      {
        KidOf(s, n);
      }
      var p := parent[y];
      if p != NULL {
        KidOf(s, p);
      }
      if c != NULL {
        parent := parent[c := p];
      }
      if p != NULL {
        if left[p] == y {
          left := left[p := c];
        } else {
          right := right[p := c];
        }
      } else {
        root := c;
      }
    }

    /** Takes a node with at most one child out of the tree; the colours are repaired later. */
    method Unlink(y: int, c: int)
      requires Valid() && y in mem && OnlyChild(View(L), y, c)
      modifies this`root, this`left, this`right, this`parent, this`pos, this`lo, this`hi, this`nodes, this`mem
      ensures InOrder(nodes, mem, pos) && |pos| == |old(pos)| && Linked(View(L))
      ensures nodes == RemoveAt(old(nodes), old(pos[y])) && mem == old(mem) - {y}
      ensures Unlinked(old(View(L)), View(L), y, c)
      ensures IsRed(red, y) ==> Balanced(View(L), red, bh)
      ensures !IsRed(red, y) ==> Lacking(View(L), red, bh, old(parent[y]), c)
    {
      ghost var s := View(L);
      OnlyAtFromOrder(s, nodes, y);
      Bypass(y, c);
      CloseGap(y);
      assert Unlinked(s, View(L), y, c);
      UnlinkedLinked(s, View(L), y, c);
      UnlinkedColours(s, View(L), red, bh, y, c);
      RemoveInOrder(old(nodes), old(mem), old(pos), pos, y);
    }

    /** The links of x are copied to e, and the neighbours of x redirected to e. */
    method CopyLinks(x: int, e: int)
      requires Linked(View(L)) && x in mem && e !in mem && 0 <= e < |pos| && left[x] != NULL
      modifies this`root, this`left, this`right, this`parent
      ensures var s := Takeover(old(View(L)), x, e);
              root == s.root && left == s.near && right == s.far && parent == s.parent
    {
      BeforeTakeover(View(L), x, e);
      var p := parent[x];
      left, right, parent := left[e := left[x]], right[e := right[x]], parent[e := p];
      if p != NULL {
        if left[p] == x {
          left := left[p := e];
        } else {
          right := right[p := e];
        }
      } else {
        root := e;
      }
      parent := parent[left[x] := e];
      if right[x] != NULL {
        parent := parent[right[x] := e];
      }
    }

    /** e takes over the place and the colour of x. */
    method TakeOver(x: int, e: int)
      requires Linked(View(L)) && InOrder(nodes, mem, pos) && x in mem && e !in mem && 0 <= e < |pos|
      requires left[x] != NULL
      requires |red| == |bh| == |pos|
      modifies this`root, this`left, this`right, this`parent, this`red, this`pos, this`lo, this`hi, this`nodes,
               this`mem, this`bh
      ensures Replaced(old(View(L)), View(L), x, e)
      ensures red == old(red)[e := old(red[x])] && bh == old(bh)[e := old(bh[x])]
      ensures nodes == old(nodes)[old(pos[x]) := e] && mem == old(mem) - {x} + {e} && pos == old(pos)[e := old(pos[x])]
    {
      hide Flip, Linked, Heights, NoRedRed;
      ghost var s := View(L);
      BeforeTakeover(s, x, e);
      CopyLinks(x, e);
      red := red[e := red[x]];
      nodes, mem := nodes[pos[x] := e], mem - {x} + {e};
      pos, lo, hi, bh := pos[e := pos[x]], lo[e := lo[x]], hi[e := hi[x]], bh[e := bh[x]];
      assert View(L) == Takeover(s, x, e);
    }

    /**
     Takes node `elm` out of the tree: directly if it has at most one child, and
     otherwise by moving its in-order successor into its place.
     */
    method Remove(elm: int)
      requires Valid() && elm in mem
      modifies this`root, this`left, this`right, this`parent, this`red, this`pos, this`lo, this`hi, this`nodes,
               this`mem, this`bh
      ensures Valid() && |pos| == |old(pos)|
      ensures nodes == RemoveAt(old(nodes), old(pos[elm])) && mem == old(mem) - {elm}
    {
      RemoveOrdered(nodes, gaddr, size, pos[elm]);
      KidOf(View(L), elm);
      if left[elm] == NULL {
        RemoveSimple(elm, right[elm]);
      } else if right[elm] == NULL {
        RemoveSimple(elm, left[elm]);
      } else {
        RemoveInner(elm);
      }
    }

    method RemoveSimple(elm: int, child: int)
      requires Valid() && elm in mem && OnlyChild(View(L), elm, child)
      modifies this`root, this`left, this`right, this`parent, this`red, this`pos, this`lo, this`hi, this`nodes,
               this`mem, this`bh
      ensures Balanced(View(L), red, bh) && InOrder(nodes, mem, pos) && |pos| == |old(pos)|
      ensures nodes == RemoveAt(old(nodes), old(pos[elm])) && mem == old(mem) - {elm}
    {
      var par, isRed := parent[elm], red[elm];
      Unlink(elm, child);
      if !isRed {
        RemoveColor(par, child);
      }
    }

    /** The leftmost node below the right child of n: its in-order successor. */
    method Successor(n: int) returns (e: int)
      requires Valid() && n in mem && right[n] != NULL
      ensures e in mem && left[e] == NULL && pos[e] == pos[n] + 1
      ensures parent[e] != NULL && parent[e] in mem && e != left[n] && right[e] != n && e != n
    {
      assert NodeOk(View(L), n);
      e := right[n];
      assert NodeOk(View(L), e);
      while left[e] != NULL
        invariant e in mem && lo[e] == pos[n] + 1 && lo[e] <= pos[e] < hi[e] && e != root
        decreases hi[e] - lo[e]
      {
        assert NodeOk(View(L), e);
        e := left[e];
        assert NodeOk(View(L), e);
      }
      assert NodeOk(View(L), e);
      assert right[e] != NULL ==> NodeOk(View(L), right[e]);
    }

    method RemoveInner(x: int)
      requires Valid() && x in mem && left[x] != NULL && right[x] != NULL
      modifies this`root, this`left, this`right, this`parent, this`red, this`pos, this`lo, this`hi, this`nodes,
               this`mem, this`bh
      ensures Balanced(View(L), red, bh) && InOrder(nodes, mem, pos) && |pos| == |old(pos)|
      ensures nodes == RemoveAt(old(nodes), old(pos[x])) && mem == old(mem) - {x}
    {
      hide View, Balanced, Lacking, Unlinked, Linked, Ordered;
      ghost var s := View(L);
      Fields(L);
      BalancedNodes(s, red, bh);
      var e := Successor(x);
      var child := right[e];
      var par := parent[e];
      var isRed := red[e];
      ghost var nodes0, p := nodes, pos[x];
      Unlink(e, child);
      Fields(L);
      UnlinkedKeeps(s, View(L), e, child, x);
      Splice(x, e, child, par, isRed);
      SplicedOrder(nodes0, p, e);
    }

    /** The unlinked successor e takes the place of x, and the colours are repaired. */
    method Splice(x: int, e: int, child: int, parent0: int, isRed: bool)
      requires Linked(View(L)) && InOrder(nodes, mem, pos) && |red| == |bh| == |pos|
      requires x in mem && e !in mem && 0 <= e < |pos| && left[x] != NULL && child != x
      requires isRed ==> Balanced(View(L), red, bh)
      requires !isRed ==> Lacking(View(L), red, bh, parent0, child)
      modifies this`root, this`left, this`right, this`parent, this`red, this`pos, this`lo, this`hi, this`nodes,
               this`mem, this`bh
      ensures Balanced(View(L), red, bh) && InOrder(nodes, mem, pos) && |pos| == |old(pos)|
      ensures nodes == old(nodes)[old(pos[x]) := e] && mem == old(mem) - {x} + {e}
    {
      ghost var s, red0, bh0 := View(L), red, bh;
      ReplaceInOrder(nodes, mem, pos, x, e);
      var par := parent0;
      if parent0 == x {
        par := e;
      }
      TakeOver(x, e);
      ReplacedLinked(s, View(L), x, e);
      if isRed {
        ReplacedColours(s, View(L), red0, bh0, x, e);
      } else {
        ReplacedLacking(s, View(L), red0, bh0, x, e, parent0, child);
        RemoveColor(par, child);
      }
    }

    // ---- lookups ---------------------------------------------------------

    /** The nodes from the root on that a search for the range visits. */
    ghost predicate Visited(g: int, sz: int, path: seq<int>)
      reads this
    {
      Visits(root, left, right, gaddr, size, g, sz, path)
    }

    /**
     Finds a region overlapping the range, the one nearest the root. All other
     overlapping regions are in its subtree.
     */
    method Find(g: int, sz: int) returns (r: int, ghost path: seq<int>)
      requires Valid() && sz >= 0
      ensures r == NULL ==> exists q :: Between(g, sz, q, q)
      ensures r != NULL ==> r in mem && 0 <= r < |size| == |gaddr| && Compare(g, sz, gaddr[r], size[r]) == 0
      ensures r != NULL ==> NodeOk(View(L), r) && Between(g, sz, lo[r], hi[r])
      ensures r != NULL ==> Visited(g, sz, path) && |path| > 0 && path[|path| - 1] == r
    {
      hide InOrder, Ordered;
      var tmp := root;
      path := [];
      ghost var i, j := 0, |nodes|;
      assert tmp != NULL ==> NodeOk(View(L), tmp);
      while tmp != NULL
        invariant Between(g, sz, i, j)
        invariant tmp != NULL ==> tmp in mem && i == lo[tmp] && j == hi[tmp] && i <= pos[tmp] < j
        invariant tmp == NULL ==> i == j
        invariant tmp != NULL ==> Visited(g, sz, path + [tmp])
        decreases j - i, tmp != NULL
      {
        path := path + [tmp];
        Descend(g, sz, i, j, tmp);
        var comp := Compare(g, sz, gaddr[tmp], size[tmp]);
        if comp < 0 {
          j := pos[tmp];
          tmp := left[tmp];
        } else if comp > 0 {
          i := pos[tmp] + 1;
          tmp := right[tmp];
        } else {
          return tmp, path;
        }
        assert tmp != NULL ==> NodeOk(View(L), tmp);
      }
      r := NULL;
      assert Between(g, sz, i, i);
    }

    /** A search for the range, continued down the left links, ends on x. */
    ghost predicate Sought(g: int, sz: int, x: int)
      reads this
    {
      exists path :: EndsOn(root, left, right, gaddr, size, g, sz, path) && path[|path| - 1] == x
    }

    /** From an overlapping region down the left links as long as they overlap too. */
    method FindLeft(g: int, sz: int) returns (x: int)
      requires Valid() && sz >= 0
      ensures x == NULL ==> exists q :: Between(g, sz, q, q)
      ensures x != NULL ==> x in mem && 0 <= x < |pos| == |size| == |gaddr| && Compare(g, sz, gaddr[x], size[x]) == 0
      ensures x != NULL ==> Sought(g, sz, x)
    {
      ghost var path;
      x, path := Find(g, sz);
      if x != NULL {
        while left[x] != NULL && Compare(g, sz, gaddr[left[x]], size[left[x]]) == 0
          invariant x in mem && NodeOk(View(L), x)
          invariant Compare(g, sz, gaddr[x], size[x]) == 0
          invariant Visited(g, sz, path) && |path| > 0 && path[|path| - 1] == x
          decreases hi[x] - lo[x]
        {
          x := left[x];
          path := path + [x];
          assert NodeOk(View(L), x);
        }
        assert EndsOn(root, left, right, gaddr, size, g, sz, path) && path[|path| - 1] == x;
      }
    }

    /** The node before n in the order, or NULL for the first one. */
    method Prev(n: int) returns (r: int)
      requires Valid() && n in mem
      ensures 0 <= n < |pos| && 0 <= pos[n] < |nodes|
      ensures r == if pos[n] == 0 then NULL else nodes[pos[n] - 1]
    {
      hide Heights, NoRedRed, Ordered, Flip;
      assert NodeOk(View(L), n);
      if left[n] != NULL {
        r := left[n];
        assert NodeOk(View(L), r);
        while right[r] != NULL
          invariant r in mem && hi[r] == pos[n] && lo[r] <= pos[r] < hi[r]
          decreases hi[r] - lo[r]
        {
          assert NodeOk(View(L), r);
          r := right[r];
          assert NodeOk(View(L), r);
        }
        assert NodeOk(View(L), r);
      } else {
        r := n;
        while parent[r] != NULL && r == left[parent[r]]
          invariant r in mem && lo[r] == pos[n] && NodeOk(View(L), r)
          decreases |nodes| - (hi[r] - lo[r])
        {
          r := parent[r];
          assert NodeOk(View(L), r);
        }
        assert parent[r] != NULL ==> NodeOk(View(L), parent[r]);
        r := parent[r];
      }
    }

    // ---- cells -----------------------------------------------------------

    /** The tree of FourPages, with pages of the given size. */
    constructor Four(page: int)
      requires page > 0
      ensures Valid() && View(L) == FourPages && nodes == [1, 3, 0, 2]
      ensures gaddr == [3 * page, page, 4 * page, 2 * page] && size == [page, page, page, page]
    {
      root, left, right, parent := 0, [1, NULL, NULL, NULL], [2, 3, NULL, NULL], [NULL, 0, 0, 1];
      red, bh := [false, false, false, true], [2, 1, 1, 0];
      gaddr, size := [3 * page, page, 4 * page, 2 * page], [page, page, page, page];
      nodes, mem, pos, lo, hi := [1, 3, 0, 2], {0, 1, 2, 3}, [2, 0, 3, 1], [0, 0, 3, 1], [4, 2, 4, 2];
      new;
      FourPagesBalanced();
      FourPagesOrder();
    }

    constructor ()
      ensures Valid() && nodes == [] && mem == {} && pos == [] && gaddr == []
    {
      hide Balanced, InOrder, Ordered;
      root := NULL;
      left, right, parent, red := [], [], [], [];
      gaddr, size := [], [];
      nodes, mem, pos, lo, hi, bh := [], {}, [], [], [], [];
      new;
      EmptyBalanced(View(L), red, bh);
      EmptyOrder();
    }

    /** RB_INIT: forgets all members; their cells stay behind. */
    method Clear()
      requires Valid()
      modifies this`root, this`nodes, this`mem
      ensures Valid() && nodes == []
    {
      root := NULL;
      nodes, mem := [], {};
      EmptyBalanced(View(L), red, bh);
    }

    /** Allocates a cell for a region; it is not in the tree yet. */
    method Alloc(g: int, sz: int) returns (e: int)
      requires Valid()
      modifies this`left, this`right, this`parent, this`red, this`gaddr, this`size, this`pos, this`lo, this`hi, this`bh
      ensures Valid() && e == |old(pos)| && |pos| == e + 1 && e !in mem
      ensures gaddr == old(gaddr) + [g] && size == old(size) + [sz]
      ensures forall n :: n in mem ==> 0 <= n < |old(pos)| && pos[n] == old(pos)[n]
    {
      hide Flip, InOrder, Ordered, KidOk, IsRed, NodeOk;
      ghost var s := View(L);
      OneMoreBalanced(s, red, bh);
      MoreOrdered(nodes, mem, pos, gaddr, size, g, sz);
      e := |left|;
      left, right, parent, red := left + [NULL], right + [NULL], parent + [NULL], red + [false];
      gaddr, size := gaddr + [g], size + [sz];
      pos, lo, hi, bh := pos + [0], lo + [0], hi + [0], bh + [0];
      assert View(L) == OneMore(s);
    }

    /** Resizing a region that stays clear of its neighbours. */
    method SetSize(n: int, sz: int)
      requires Valid() && n in mem && 0 <= sz <= size[n]
      modifies this`size
      ensures Valid() && size == old(size)[n := sz]
    {
      size := size[n := sz];
    }

    /** Cuts region n: the tail, from `at` on, gets a cell of its own, right after n in the order. */
    method CutTail(n: int, at: int, offset: int) returns (e: int)
      requires Valid() && n in mem && at == gaddr[n] + offset && 0 <= offset < size[n]
      modifies this
      ensures Valid() && e == |old(pos)| && |pos| == e + 1
      ensures gaddr == old(gaddr) + [at] && size == (old(size) + [old(size[n]) - offset])[n := offset]
      ensures 0 <= old(pos[n]) < |old(nodes)| && nodes == InsertAt(old(nodes), old(pos[n]) + 1, e)
    {
      hide NearDeficit, Balanced, Gap, Ordered, InsertAt, Flip, Compare;
      ghost var p := pos[n];
      var tail := size[n] - offset;
      TailFree(nodes, gaddr, size, p, at, offset);
      e := Alloc(at, tail);
      SetSize(n, offset);
      var r, q := Insert(e);
      if r == NULL {
        TailPlace(old(nodes), gaddr, size, p, q, at, tail);
      }
    }

    /** Allocates a cell for a range and inserts it; also reports the region before it. */
    method InsertNew(g: int, sz: int) returns (e: int, r: int, prev: int, ghost q: int)
      requires Valid() && sz >= 0
      modifies this
      ensures Valid() && e == |old(pos)| && |pos| == e + 1
      ensures gaddr == old(gaddr) + [g] && size == old(size) + [sz]
      ensures r != NULL ==> nodes == old(nodes)
      ensures r != NULL ==>
              r in old(nodes) && 0 <= r < |old(size)| == |old(gaddr)|
              && Compare(g, sz, old(gaddr)[r], old(size)[r]) == 0
      ensures r == NULL ==> old(Between(g, sz, q, q)) && nodes == InsertAt(old(nodes), q, e)
      ensures r == NULL ==> prev == if q == 0 then NULL else old(nodes)[q - 1]
    {
      hide NearDeficit, Balanced, Ordered, Gap, Flip, Compare;
      e := Alloc(g, sz);
      r, q := Insert(e);
      prev := NULL;
      if r == NULL {
        GapBefore(old(nodes), old(gaddr), old(size), g, sz, q);
        assert nodes[q] == e;
        prev := Prev(e);
      }
    }
  }
}
