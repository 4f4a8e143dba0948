/**
 The shape of a binary search tree with parent pointers, on values.

 Node addresses are indices and a pointer field is a sequence over them. The
 ghost part records for every node its in-order position and the interval
 [lo, hi) of positions its subtree covers: the near child covers [lo, pos), the
 far child [pos + 1, hi). "Near" is left and "far" is right, or the other way
 round in the mirror image of a tree (`Flip`), where positions are negated; so
 each fact is proved once and serves both sides.
 */
module TreeShape {

  const NULL: int := -1

  datatype Shape = Shape(mem: set<int>, first: int, last: int, pos: seq<int>, lo: seq<int>, hi: seq<int>,
                         root: int, near: seq<int>, far: seq<int>, parent: seq<int>)

  ghost predicate Sizes(s: Shape) {
    && |s.near| == |s.far| == |s.parent| == |s.lo| == |s.hi| == |s.pos|
    && (forall n :: n in s.mem ==> 0 <= n < |s.pos|)
  }

  /** c, as a child of n (or of nothing: the root), covers exactly [lo, hi). */
  ghost predicate KidOk(s: Shape, n: int, c: int, lo: int, hi: int)
    requires Sizes(s)
  {
    && (c == NULL <==> lo == hi)
    && (c != NULL ==> c in s.mem && s.parent[c] == n && s.lo[c] == lo && s.hi[c] == hi)
  }

  /** p, as the parent of n, has n for a child. */
  ghost predicate UpOk(s: Shape, n: int, p: int)
    requires Sizes(s)
  {
    && (p == NULL <==> n == s.root)
    && (p != NULL ==> p in s.mem && (s.near[p] == n || s.far[p] == n))
  }

  ghost predicate NodeOk(s: Shape, n: int)
    requires Sizes(s) && n in s.mem
  {
    && s.first <= s.lo[n] <= s.pos[n] < s.hi[n] <= s.last
    && KidOk(s, n, s.near[n], s.lo[n], s.pos[n])
    && KidOk(s, n, s.far[n], s.pos[n] + 1, s.hi[n])
    && UpOk(s, n, s.parent[n])
  }

  ghost predicate Linked(s: Shape) {
    && Sizes(s)
    && KidOk(s, NULL, s.root, s.first, s.last)
    && (forall n {:trigger NodeOk(s, n)} :: n in s.mem ==> NodeOk(s, n))
  }

  lemma KidOf(s: Shape, n: int)
    requires Linked(s) && n in s.mem
    ensures s.parent[n] == NULL <==> n == s.root
    ensures s.parent[n] != NULL ==> s.parent[n] in s.mem && (s.near[s.parent[n]] == n || s.far[s.parent[n]] == n)
    ensures s.near[n] != NULL ==> s.near[n] in s.mem && s.parent[s.near[n]] == n
    ensures s.far[n] != NULL ==> s.far[n] in s.mem && s.parent[s.far[n]] == n
    ensures s.near[n] != n && s.far[n] != n && s.parent[n] != n
    ensures s.near[n] != NULL ==> s.near[n] != s.far[n]
  {
    assert NodeOk(s, n);
  }

  // ---- mirror image ----------------------------------------------------

  ghost function Flip(s: Shape): Shape
  {
    Shape(s.mem, -s.last, -s.first,
          seq(|s.pos|, i requires 0 <= i < |s.pos| => -1 - s.pos[i]),
          seq(|s.hi|, i requires 0 <= i < |s.hi| => -s.hi[i]),
          seq(|s.lo|, i requires 0 <= i < |s.lo| => -s.lo[i]),
          s.root, s.far, s.near, s.parent)
  }

  lemma FlipLinked(s: Shape)
    requires Linked(s)
    ensures Linked(Flip(s))
  {
    var f := Flip(s);
    forall n | n in f.mem
      ensures NodeOk(f, n)
    {
      assert NodeOk(s, n);
    }
  }

  lemma FlipFlip(s: Shape)
    ensures Flip(Flip(s)) == s
  {
    assert Flip(Flip(s)).pos == s.pos && Flip(Flip(s)).lo == s.lo && Flip(Flip(s)).hi == s.hi;
  }

  // ---- rotation --------------------------------------------------------

  /** s' is s after x has been rotated towards near: its far child y takes its place. */
  ghost predicate Rotated(s: Shape, s': Shape, x: int, y: int)
  {
    && Sizes(s) && Sizes(s') && |s'.pos| == |s.pos| && x in s.mem && y in s.mem
    && s'.mem == s.mem && s'.first == s.first && s'.last == s.last && s'.pos == s.pos
    && s'.root == (if s.parent[x] == NULL then y else s.root)
    && (forall n :: n in s.mem ==>
          && s'.near[n] == (if n == y then x else if s.near[n] == x then y else s.near[n])
          && s'.far[n] == (if n == x then s.near[y] else if s.far[n] == x then y else s.far[n])
          && s'.parent[n] == (if n == x then y else if n == y then s.parent[x]
                              else if n == s.near[y] then x else s.parent[n])
          && s'.lo[n] == (if n == y then s.lo[x] else s.lo[n])
          && s'.hi[n] == (if n == x then s.pos[y] else s.hi[n]))
  }

  ghost predicate CanRotate(s: Shape, x: int, y: int) {
    Linked(s) && x in s.mem && y == s.far[x] && y != NULL
  }

  /** The nodes around a rotation: facts every proof about it starts from. */
  lemma AroundRotation(s: Shape, x: int, y: int)
    requires CanRotate(s, x, y)
    ensures y in s.mem && NodeOk(s, x) && NodeOk(s, y) && s.parent[y] == x && x != y
    ensures s.near[y] != NULL ==> s.near[y] in s.mem && s.near[y] != x && NodeOk(s, s.near[y])
    ensures s.parent[x] != NULL ==> s.parent[x] in s.mem && s.parent[x] != y && NodeOk(s, s.parent[x])
  {
    assert NodeOk(s, x);
    assert NodeOk(s, y);
    assert s.near[y] != NULL ==> NodeOk(s, s.near[y]);
    assert s.parent[x] != NULL ==> NodeOk(s, s.parent[x]);
  }

  /** The field updates of a rotation, as one expression. */
  ghost function Rotation(s: Shape, x: int): (s': Shape)
    requires Linked(s) && x in s.mem && s.far[x] != NULL
  {
    AroundRotation(s, x, s.far[x]);
    var y := s.far[x];
    var b := s.near[y];
    var p := s.parent[x];
    var far := s.far[x := b];
    var parent := if b != NULL then s.parent[b := x] else s.parent;
    Shape(s.mem, s.first, s.last, s.pos, s.lo[y := s.lo[x]], s.hi[x := s.pos[y]],
          if p == NULL then y else s.root,
          (if p != NULL && s.near[p] == x then s.near[p := y] else s.near)[y := x],
          if p != NULL && s.near[p] != x then far[p := y] else far,
          parent[y := p][x := y])
  }

  lemma RotationNode(s: Shape, x: int, y: int, n: int)
    requires CanRotate(s, x, y) && y in s.mem && n in s.mem
    ensures var s' := Rotation(s, x);
            && |s'.near| == |s'.far| == |s'.parent| == |s.pos|
            && s'.near[n] == (if n == y then x else if s.near[n] == x then y else s.near[n])
            && s'.far[n] == (if n == x then s.near[y] else if s.far[n] == x then y else s.far[n])
            && s'.parent[n] == (if n == x then y else if n == y then s.parent[x]
                                else if n == s.near[y] then x else s.parent[n])
  {
    hide KidOk;
    AroundRotation(s, x, y);
    KidOf(s, n);
    if s.parent[x] != NULL {
      KidOf(s, s.parent[x]);
    }
    KidOf(s, x);
  }

  lemma RotationRotates(s: Shape, x: int)
    requires Linked(s) && x in s.mem && s.far[x] != NULL
    ensures Rotated(s, Rotation(s, x), x, s.far[x])
  {
    AroundRotation(s, x, s.far[x]);
    forall n | n in s.mem
      ensures var s' := Rotation(s, x);
        && s'.near[n] == (if n == s.far[x] then x else if s.near[n] == x then s.far[x] else s.near[n])
        && s'.far[n] == (if n == x then s.near[s.far[x]] else if s.far[n] == x then s.far[x] else s.far[n])
        && s'.parent[n] == (if n == x then s.far[x] else if n == s.far[x] then s.parent[x]
                            else if n == s.near[s.far[x]] then x else s.parent[n])
    {
      RotationNode(s, x, s.far[x], n);
    }
  }

  /** The field updates of a rotation the other way, which also looks at the near link of the parent first. */
  ghost function RotationBack(s: Shape, x: int): (s': Shape)
    requires Linked(s) && x in s.mem && s.near[x] != NULL
  {
    KidOf(s, x);
    KidOf(s, s.near[x]);
    var y := s.near[x];
    var b := s.far[y];
    var p := s.parent[x];
    var near := s.near[x := b];
    var parent := if b != NULL then s.parent[b := x] else s.parent;
    Shape(s.mem, s.first, s.last, s.pos, s.lo[x := s.pos[y] + 1], s.hi[y := s.hi[x]],
          if p == NULL then y else s.root,
          if p != NULL && near[p] == x then near[p := y] else near,
          (if p != NULL && near[p] != x then s.far[p := y] else s.far)[y := x],
          parent[y := p][x := y])
  }

  lemma RotationBackFlips(s: Shape, x: int)
    requires Linked(s) && x in s.mem && s.near[x] != NULL
    ensures Linked(Flip(s)) && Flip(RotationBack(s, x)) == Rotation(Flip(s), x)
  {
    FlipLinked(s);
    KidOf(s, x);
    KidOf(s, s.near[x]);
    if s.parent[x] != NULL {
      KidOf(s, s.parent[x]);
    }
    var a, b := Flip(RotationBack(s, x)), Rotation(Flip(s), x);
    assert a.lo == b.lo && a.hi == b.hi;
    assert a.near == b.near && a.far == b.far;
  }

  /** Addresses a rotation touches: in range, and different where the updates rely on it. */
  ghost predicate Touches(s: Shape, x: int, y: int, b: int, p: int) {
    && Sizes(s) && 0 <= x < |s.pos| && 0 <= y < |s.pos| && x != y
    && (b == NULL || 0 <= b < |s.pos|) && (p == NULL || 0 <= p < |s.pos|)
    && b != x && b != y && p != x && p != y
  }

  lemma BeforeRotation(s: Shape, x: int, y: int)
    requires CanRotate(s, x, y)
    ensures Linked(s) && x in s.mem && s.far[x] == y != NULL
    ensures 0 <= y < |s.pos| && Touches(s, x, y, s.near[y], s.parent[x])
    ensures Rotated(s, Rotation(s, x), x, y)
  {
    AroundRotation(s, x, y);
    KidOf(s, x);
    KidOf(s, y);
    RotationRotates(s, x);
  }

  lemma BeforeRotationBack(s: Shape, x: int, y: int)
    requires Sizes(s) && CanRotate(Flip(s), x, y)
    ensures Linked(s) && x in s.mem && s.near[x] == y != NULL
    ensures 0 <= y < |s.pos| && Touches(s, x, y, s.far[y], s.parent[x])
    ensures Rotated(Flip(s), Flip(RotationBack(s, x)), x, y)
  {
    FlipFlip(s);
    FlipLinked(Flip(s));
    BeforeRotation(Flip(s), x, y);
    RotationBackFlips(s, x);
  }

  lemma RotatedNear(s: Shape, s': Shape, x: int, y: int, n: int)
    requires CanRotate(s, x, y) && Rotated(s, s', x, y) && n in s.mem
    ensures KidOk(s', n, s'.near[n], s'.lo[n], s'.pos[n])
  {
    AroundRotation(s, x, y);
    assert NodeOk(s, n);
  }

  lemma RotatedFar(s: Shape, s': Shape, x: int, y: int, n: int)
    requires CanRotate(s, x, y) && Rotated(s, s', x, y) && n in s.mem
    ensures KidOk(s', n, s'.far[n], s'.pos[n] + 1, s'.hi[n])
    ensures s'.first <= s'.lo[n] <= s'.pos[n] < s'.hi[n] <= s'.last
  {
    AroundRotation(s, x, y);
    assert NodeOk(s, n);
  }

  lemma RotatedUp(s: Shape, s': Shape, x: int, y: int, n: int)
    requires CanRotate(s, x, y) && Rotated(s, s', x, y) && n in s.mem
    ensures UpOk(s', n, s'.parent[n])
  {
    AroundRotation(s, x, y);
    KidOf(s, n);
    if n != x && n != y && n != s.near[y] && s.parent[n] != NULL {
      var q := s.parent[n];
      assert s.near[q] == n ==> s'.near[q] == n;
      assert s.far[q] == n ==> s'.far[q] == n;
    }
  }

  /** A rotation keeps the tree well linked; the in-order positions do not change. */
  lemma RotatedLinked(s: Shape, s': Shape, x: int, y: int)
    requires CanRotate(s, x, y) && Rotated(s, s', x, y)
    ensures Linked(s')
  {
    forall n | n in s'.mem
      ensures NodeOk(s', n)
    {
      RotatedNear(s, s', x, y, n);
      RotatedFar(s, s', x, y, n);
      RotatedUp(s, s', x, y, n);
    }
    AroundRotation(s, x, y);
    assert NodeOk(s, s.root);
  }

  /** No other node has p's position. */
  ghost predicate OnlyAt(s: Shape, p: int) {
    Sizes(s) && p in s.mem && forall n :: n in s.mem && s.pos[n] == s.pos[p] ==> n == p
  }

  // ---- a new leaf ------------------------------------------------------

  function Up(i: int, from: int): int { if i >= from then i + 1 else i }

  /** e is the only node. */
  ghost predicate Alone(s: Shape, e: int) {
    && Sizes(s) && s.mem == {e} && s.root == e && s.first == 0 && s.last == 1
    && s.near[e] == s.far[e] == s.parent[e] == NULL && s.pos[e] == s.lo[e] == 0 && s.hi[e] == 1
  }

  lemma AloneLinked(s: Shape, e: int)
    requires Alone(s, e)
    ensures Linked(s)
  {
    assert NodeOk(s, e);
  }

  /** e hangs under p on its empty near side, at position pos[p]. */
  ghost predicate AddedNear(s: Shape, s': Shape, p: int, e: int)
  {
    && Sizes(s) && Sizes(s') && |s'.pos| == |s.pos| && p in s.mem && 0 <= e < |s.pos|
    && s'.mem == s.mem + {e} && s'.first == s.first && s'.last == s.last + 1 && s'.root == s.root
    && s'.near[e] == s'.far[e] == NULL && s'.parent[e] == p
    && s'.pos[e] == s'.lo[e] == s.pos[p] && s'.hi[e] == s.pos[p] + 1
    && (forall n :: n in s.mem ==>
          && s'.near[n] == (if n == p then e else s.near[n]) && s'.far[n] == s.far[n]
          && s'.parent[n] == s.parent[n]
          && s'.pos[n] == Up(s.pos[n], s.pos[p])
          && s'.lo[n] == Up(s.lo[n], s.pos[p] + 1)
          && s'.hi[n] == Up(s.hi[n], s.pos[p] + 1))
  }

  lemma AddedNearNode(s: Shape, s': Shape, p: int, e: int, n: int)
    requires Linked(s) && OnlyAt(s, p) && s.near[p] == NULL && e !in s.mem && AddedNear(s, s', p, e) && n in s'.mem
    ensures NodeOk(s', n)
  {
    assert NodeOk(s, p);
    if n != e {
      assert NodeOk(s, n);
    }
  }

  lemma AddedNearRoot(s: Shape, s': Shape, p: int, e: int)
    requires Linked(s) && p in s.mem && s.near[p] == NULL && AddedNear(s, s', p, e)
    ensures KidOk(s', NULL, s'.root, s'.first, s'.last)
  {
    assert NodeOk(s, p);
    assert NodeOk(s, s.root);
  }

  lemma AddedNearLinked(s: Shape, s': Shape, p: int, e: int)
    requires Linked(s) && OnlyAt(s, p) && s.near[p] == NULL && e !in s.mem
    requires AddedNear(s, s', p, e)
    ensures Linked(s')
  {
    hide NodeOk;
    forall n | n in s'.mem
      ensures NodeOk(s', n)
    {
      AddedNearNode(s, s', p, e, n);
    }
    AddedNearRoot(s, s', p, e);
  }

  /** e hangs under p on its empty far side, at position pos[p] + 1. */
  ghost predicate AddedFar(s: Shape, s': Shape, p: int, e: int)
  {
    && Sizes(s) && Sizes(s') && |s'.pos| == |s.pos| && p in s.mem && 0 <= e < |s.pos|
    && s'.mem == s.mem + {e} && s'.first == s.first && s'.last == s.last + 1 && s'.root == s.root
    && s'.near[e] == s'.far[e] == NULL && s'.parent[e] == p
    && s'.pos[e] == s'.lo[e] == s.pos[p] + 1 && s'.hi[e] == s.pos[p] + 2
    && (forall n :: n in s.mem ==>
          && s'.far[n] == (if n == p then e else s.far[n]) && s'.near[n] == s.near[n]
          && s'.parent[n] == s.parent[n]
          && s'.pos[n] == Up(s.pos[n], s.pos[p] + 1)
          && s'.lo[n] == Up(s.lo[n], s.pos[p] + 1)
          && s'.hi[n] == Up(s.hi[n], s.pos[p] + 1))
  }

  lemma AddedFarNode(s: Shape, s': Shape, p: int, e: int, n: int)
    requires Linked(s) && OnlyAt(s, p) && s.far[p] == NULL && e !in s.mem && AddedFar(s, s', p, e) && n in s'.mem
    ensures NodeOk(s', n)
  {
    assert NodeOk(s, p);
    if n != e {
      assert NodeOk(s, n);
    }
  }

  lemma AddedFarRoot(s: Shape, s': Shape, p: int, e: int)
    requires Linked(s) && p in s.mem && s.far[p] == NULL && AddedFar(s, s', p, e)
    ensures KidOk(s', NULL, s'.root, s'.first, s'.last)
  {
    assert NodeOk(s, p);
    assert NodeOk(s, s.root);
  }

  lemma AddedFarLinked(s: Shape, s': Shape, p: int, e: int)
    requires Linked(s) && OnlyAt(s, p) && s.far[p] == NULL && e !in s.mem
    requires AddedFar(s, s', p, e)
    ensures Linked(s')
  {
    hide NodeOk;
    forall n | n in s'.mem
      ensures NodeOk(s', n)
    {
      AddedFarNode(s, s', p, e, n);
    }
    AddedFarRoot(s, s', p, e);
  }

  // ---- taking a node with at most one child out ------------------------

  function Down(i: int, from: int): int { if i > from then i - 1 else i }

  /** The only child of y, or NULL. */
  ghost predicate OnlyChild(s: Shape, y: int, c: int)
    requires Sizes(s) && y in s.mem
  {
    (s.near[y] == NULL && c == s.far[y]) || (s.far[y] == NULL && c == s.near[y])
  }

  /** y is gone and its only child c hangs in its place. */
  ghost predicate Unlinked(s: Shape, s': Shape, y: int, c: int)
  {
    && Sizes(s) && Sizes(s') && |s'.pos| == |s.pos| && y in s.mem
    && s'.mem == s.mem - {y} && s'.first == s.first && s'.last == s.last - 1
    && s'.root == (if s.root == y then c else s.root)
    && (forall n :: n in s.mem && n != y ==>
          && s'.near[n] == (if s.near[n] == y then c else s.near[n])
          && s'.far[n] == (if s.far[n] == y then c else s.far[n])
          && s'.parent[n] == (if n == c then s.parent[y] else s.parent[n])
          && s'.pos[n] == Down(s.pos[n], s.pos[y])
          && s'.lo[n] == Down(s.lo[n], s.pos[y])
          && s'.hi[n] == Down(s.hi[n], s.pos[y]))
  }

  lemma UnlinkedNear(s: Shape, s': Shape, y: int, c: int, n: int)
    requires Linked(s) && OnlyAt(s, y) && OnlyChild(s, y, c) && Unlinked(s, s', y, c)
    requires n in s'.mem
    ensures KidOk(s', n, s'.near[n], s'.lo[n], s'.pos[n])
    ensures s'.first <= s'.lo[n] <= s'.pos[n] < s'.hi[n] <= s'.last
  {
    hide UpOk;
    assert NodeOk(s, y);
    assert NodeOk(s, n);
    assert s.near[n] != NULL ==> NodeOk(s, s.near[n]);
  }

  lemma UnlinkedFar(s: Shape, s': Shape, y: int, c: int, n: int)
    requires Linked(s) && OnlyAt(s, y) && OnlyChild(s, y, c) && Unlinked(s, s', y, c)
    requires n in s'.mem
    ensures KidOk(s', n, s'.far[n], s'.pos[n] + 1, s'.hi[n])
  {
    hide UpOk;
    assert NodeOk(s, y);
    assert NodeOk(s, n);
    assert s.far[n] != NULL ==> NodeOk(s, s.far[n]);
  }

  lemma UnlinkedUp(s: Shape, s': Shape, y: int, c: int, n: int)
    requires Linked(s) && OnlyAt(s, y) && OnlyChild(s, y, c) && Unlinked(s, s', y, c)
    requires n in s'.mem
    ensures UpOk(s', n, s'.parent[n])
  {
    KidOf(s, y);
    KidOf(s, n);
  }

  lemma UnlinkedLinked(s: Shape, s': Shape, y: int, c: int)
    requires Linked(s) && OnlyAt(s, y) && OnlyChild(s, y, c) && Unlinked(s, s', y, c)
    ensures Linked(s')
  {
    forall n | n in s'.mem
      ensures NodeOk(s', n)
    {
      UnlinkedNear(s, s', y, c, n);
      UnlinkedFar(s, s', y, c, n);
      UnlinkedUp(s, s', y, c, n);
    }
    assert NodeOk(s, y);
    assert NodeOk(s, s.root);
  }

  // ---- one node taking over another's place ----------------------------

  function Swap(n: int, x: int, e: int): int { if n == x then e else n }

  /** e, which was not in the tree, has taken over the place of x. */
  ghost predicate Replaced(s: Shape, s': Shape, x: int, e: int)
  {
    && Sizes(s) && Sizes(s') && |s'.pos| == |s.pos| && x in s.mem && 0 <= e < |s.pos|
    && s'.mem == s.mem - {x} + {e} && s'.first == s.first && s'.last == s.last
    && s'.root == Swap(s.root, x, e)
    && s'.near[e] == s.near[x] && s'.far[e] == s.far[x] && s'.parent[e] == s.parent[x]
    && s'.pos[e] == s.pos[x] && s'.lo[e] == s.lo[x] && s'.hi[e] == s.hi[x]
    && (forall n :: n in s.mem && n != x ==>
          && s'.near[n] == Swap(s.near[n], x, e)
          && s'.far[n] == Swap(s.far[n], x, e)
          && s'.parent[n] == Swap(s.parent[n], x, e)
          && s'.pos[n] == s.pos[n] && s'.lo[n] == s.lo[n] && s'.hi[n] == s.hi[n])
  }

  /** The field updates by which e takes over the place of x, which has a near child. */
  ghost function Takeover(s: Shape, x: int, e: int): (s': Shape)
    requires Linked(s) && x in s.mem && s.near[x] != NULL && 0 <= e < |s.pos|
  {
    KidOf(s, x);
    var p := s.parent[x];
    var near := s.near[e := s.near[x]];
    var far := s.far[e := s.far[x]];
    var parent := s.parent[e := s.parent[x]][near[x] := e];
    Shape(s.mem - {x} + {e}, s.first, s.last, s.pos[e := s.pos[x]], s.lo[e := s.lo[x]], s.hi[e := s.hi[x]],
          if p == NULL then e else s.root,
          if p != NULL && near[p] == x then near[p := e] else near,
          if p != NULL && near[p] != x then far[p := e] else far,
          if s.far[x] != NULL then parent[s.far[x] := e] else parent)
  }

  lemma TakeoverNode(s: Shape, x: int, e: int, n: int)
    requires Linked(s) && x in s.mem && s.near[x] != NULL && 0 <= e < |s.pos| && e !in s.mem
    requires n in s.mem && n != x
    ensures var s' := Takeover(s, x, e);
            && |s'.near| == |s'.far| == |s'.parent| == |s.pos|
            && s'.near[n] == Swap(s.near[n], x, e)
            && s'.far[n] == Swap(s.far[n], x, e)
            && s'.parent[n] == Swap(s.parent[n], x, e)
  {
    KidOf(s, x);
    KidOf(s, n);
    if s.parent[x] != NULL {
      KidOf(s, s.parent[x]);
    }
  }

  lemma TakeoverReplaces(s: Shape, x: int, e: int)
    requires Linked(s) && x in s.mem && s.near[x] != NULL && 0 <= e < |s.pos| && e !in s.mem
    ensures Replaced(s, Takeover(s, x, e), x, e)
  {
    KidOf(s, x);
    forall n | n in s.mem && n != x
      ensures var s' := Takeover(s, x, e);
        |s'.near| == |s'.far| == |s'.parent| == |s.pos| && s'.near[n] == Swap(s.near[n], x, e)
            && s'.far[n] == Swap(s.far[n], x, e) && s'.parent[n] == Swap(s.parent[n], x, e)
    {
      TakeoverNode(s, x, e, n);
    }
  }

  lemma BeforeTakeover(s: Shape, x: int, e: int)
    requires Linked(s) && x in s.mem && s.near[x] != NULL && 0 <= e < |s.pos| && e !in s.mem
    ensures Replaced(s, Takeover(s, x, e), x, e)
    ensures x != e && s.parent[x] != e && s.near[x] != e && s.far[x] != e
    ensures 0 <= s.near[x] < |s.pos| && s.near[x] != x
    ensures s.far[x] == NULL || (0 <= s.far[x] < |s.pos| && s.far[x] != x)
    ensures s.parent[x] == NULL || (0 <= s.parent[x] < |s.pos| && s.parent[x] != x)
  {
    TakeoverReplaces(s, x, e);
    KidOf(s, x);
  }

  lemma ReplacedKids(s: Shape, s': Shape, x: int, e: int, n: int)
    requires Linked(s) && e !in s.mem && Replaced(s, s', x, e) && n in s'.mem
    ensures KidOk(s', n, s'.near[n], s'.lo[n], s'.pos[n])
    ensures KidOk(s', n, s'.far[n], s'.pos[n] + 1, s'.hi[n])
    ensures s'.first <= s'.lo[n] <= s'.pos[n] < s'.hi[n] <= s'.last
  {
    assert NodeOk(s, Swap(n, e, x));
    KidOf(s, Swap(n, e, x));
  }

  lemma ReplacedUp(s: Shape, s': Shape, x: int, e: int, n: int)
    requires Linked(s) && e !in s.mem && Replaced(s, s', x, e) && n in s'.mem
    ensures UpOk(s', n, s'.parent[n])
  {
    KidOf(s, Swap(n, e, x));
  }

  lemma ReplacedLinked(s: Shape, s': Shape, x: int, e: int)
    requires Linked(s) && e !in s.mem && Replaced(s, s', x, e)
    ensures Linked(s')
  {
    forall n | n in s'.mem
      ensures NodeOk(s', n)
    {
      ReplacedKids(s, s', x, e, n);
      ReplacedUp(s, s', x, e, n);
    }
    assert NodeOk(s, x);
  }

  // ---- more memory -----------------------------------------------------

  /** s' has more cells than s and agrees with it on the nodes of the tree. */
  ghost predicate Grown(s: Shape, s': Shape) {
    && Sizes(s) && Sizes(s') && |s'.pos| >= |s.pos|
    && s'.mem == s.mem && s'.first == s.first && s'.last == s.last && s'.root == s.root
    && (forall n :: n in s.mem ==>
          && s'.near[n] == s.near[n] && s'.far[n] == s.far[n] && s'.parent[n] == s.parent[n]
          && s'.pos[n] == s.pos[n] && s'.lo[n] == s.lo[n] && s'.hi[n] == s.hi[n])
  }

  lemma GrownLinked(s: Shape, s': Shape)
    requires Linked(s) && Grown(s, s')
    ensures Linked(s')
  {
    forall n | n in s'.mem
      ensures NodeOk(s', n)
    {
      assert NodeOk(s, n);
    }
  }

  /** One more cell in every field. */
  ghost function OneMore(s: Shape): (s': Shape) {
    s.(pos := s.pos + [0], lo := s.lo + [0], hi := s.hi + [0],
       near := s.near + [NULL], far := s.far + [NULL], parent := s.parent + [NULL])
  }

  lemma OneMoreGrown(s: Shape)
    requires Sizes(s)
    ensures Grown(s, OneMore(s))
  {
  }
}
