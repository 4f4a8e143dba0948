/**
 The balance of a red-black tree, on values: black heights and red-red edges,
 and what each recolouring and rotation of the insertion and removal fix-ups
 does to them. `bh[n]` is the number of black nodes on every path from n down.
 */
module TreeColour {
  import opened TreeShape

  function IsRed(red: seq<bool>, n: int): bool {
    0 <= n < |red| && red[n]
  }

  function H(bh: seq<int>, c: int): int {
    if 0 <= c < |bh| then bh[c] else 0
  }

  function Black(red: seq<bool>, n: int): int {
    if IsRed(red, n) then 0 else 1
  }

  ghost predicate Coloured(s: Shape, red: seq<bool>, bh: seq<int>) {
    Linked(s) && |red| == |bh| == |s.pos|
  }

  /** Both sides of n have the same black height, and bh[n] counts it. */
  ghost predicate HeightAt(s: Shape, red: seq<bool>, bh: seq<int>, n: int)
    requires Sizes(s) && n in s.mem
  {
    0 <= H(bh, s.near[n]) == H(bh, s.far[n]) && H(bh, n) == H(bh, s.near[n]) + Black(red, n)
  }

  ghost predicate Heights(s: Shape, red: seq<bool>, bh: seq<int>)
    requires Sizes(s)
  {
    forall n {:trigger HeightAt(s, red, bh, n)} :: n in s.mem ==> HeightAt(s, red, bh, n)
  }

  /** n and its parent are not both red. */
  ghost predicate RedAt(s: Shape, red: seq<bool>, n: int)
    requires Sizes(s) && n in s.mem
  {
    !(IsRed(red, n) && IsRed(red, s.parent[n]))
  }

  /** No red-red edge, except perhaps above e. */
  ghost predicate NoRedRed(s: Shape, red: seq<bool>, e: int)
    requires Sizes(s)
  {
    forall n {:trigger RedAt(s, red, n)} :: n in s.mem && n != e ==> RedAt(s, red, n)
  }

  /** The red-black invariant. */
  ghost predicate Balanced(s: Shape, red: seq<bool>, bh: seq<int>) {
    && Coloured(s, red, bh) && Heights(s, red, bh) && NoRedRed(s, red, NULL) && !IsRed(red, s.root)
  }

  /** The tree during an insertion: e is red, and its parent may be too. */
  ghost predicate Inserting(s: Shape, red: seq<bool>, bh: seq<int>, e: int) {
    && Coloured(s, red, bh) && Heights(s, red, bh) && NoRedRed(s, red, e)
    && e in s.mem && IsRed(red, e) && (s.root == e || !IsRed(red, s.root))
  }

  // ---- insertion -------------------------------------------------------

  /** Red parent p and red uncle u of e, under the grandparent g. */
  ghost predicate RedUncle(s: Shape, red: seq<bool>, bh: seq<int>, e: int, p: int, g: int, u: int) {
    && Inserting(s, red, bh, e)
    && p == s.parent[e] && IsRed(red, p) && p in s.mem && g == s.parent[p] && IsRed(red, u)
    && g in s.mem && ((s.near[g] == p && s.far[g] == u) || (s.far[g] == p && s.near[g] == u)) && u in s.mem
  }

  lemma RedUncleFacts(s: Shape, red: seq<bool>, bh: seq<int>, e: int, p: int, g: int, u: int)
    requires RedUncle(s, red, bh, e, p, g, u)
    ensures !IsRed(red, g) && p != e && p != u && p != g && u != g && s.parent[p] == s.parent[u] == g
    ensures bh[p] == bh[u] && bh[g] == bh[p] + 1
  {
    KidOf(s, g);
    KidOf(s, e);
    KidOf(s, p);
    assert RedAt(s, red, p);
    assert HeightAt(s, red, bh, g);
  }

  lemma PushRedHeight(s: Shape, red: seq<bool>, bh: seq<int>, e: int, p: int, g: int, u: int, n: int)
    requires RedUncle(s, red, bh, e, p, g, u) && n in s.mem
    ensures HeightAt(s, red[u := false][p := false][g := true], bh[u := bh[u] + 1][p := bh[p] + 1], n)
  {
    RedUncleFacts(s, red, bh, e, p, g, u);
    KidOf(s, n);
    assert HeightAt(s, red, bh, n);
  }

  /** Red parent and red uncle: the black level moves down and the violation up. */
  lemma PushRedUp(s: Shape, red: seq<bool>, bh: seq<int>, e: int, p: int, g: int, u: int)
    requires RedUncle(s, red, bh, e, p, g, u)
    ensures Inserting(s, red[u := false][p := false][g := true], bh[u := bh[u] + 1][p := bh[p] + 1], g)
  {
    var red', bh' := red[u := false][p := false][g := true], bh[u := bh[u] + 1][p := bh[p] + 1];
    forall n | n in s.mem
      ensures HeightAt(s, red', bh', n)
    {
      PushRedHeight(s, red, bh, e, p, g, u, n);
    }
    RedUncleFacts(s, red, bh, e, p, g, u);
    forall n | n in s.mem && n != g
      ensures RedAt(s, red', n)
    {
      KidOf(s, n);
      assert n != e ==> RedAt(s, red, n);
    }
  }

  /** The inner grandchild is rotated to the outside. */
  lemma InsertInner(s: Shape, s': Shape, red: seq<bool>, bh: seq<int>, e: int, p: int)
    requires Inserting(s, red, bh, e)
    requires p == s.parent[e] && IsRed(red, p) && p in s.mem && s.far[p] == e && s.parent[p] != NULL
    requires Rotated(s, s', p, e)
    ensures Inserting(s', red, bh, p)
  {
    AroundRotation(s, p, e);
    RotatedLinked(s, s', p, e);
    assert RedAt(s, red, p);
    assert HeightAt(s, red, bh, p);
    assert HeightAt(s, red, bh, e);
    forall n | n in s'.mem
      ensures HeightAt(s', red, bh, n)
    {
      assert NodeOk(s, n);
      assert HeightAt(s, red, bh, n);
    }
    forall n | n in s'.mem && n != p
      ensures RedAt(s', red, n)
    {
      assert NodeOk(s, n);
      assert n != e ==> RedAt(s, red, n);
    }
  }

  ghost predicate OuterCase(s: Shape, red: seq<bool>, bh: seq<int>, e: int, p: int, g: int) {
    && Inserting(s, red, bh, e)
    && p in s.mem && g in s.mem && s.far[g] == p && s.far[p] == e
    && IsRed(red, p) && !IsRed(red, s.near[g])
  }

  lemma OuterNumbers(s: Shape, red: seq<bool>, bh: seq<int>, e: int, p: int, g: int)
    requires OuterCase(s, red, bh, e, p, g)
    ensures g != p && !IsRed(red, g) && bh[g] == bh[p] + 1 && bh[p] >= 0
    ensures H(bh, s.near[g]) == H(bh, s.near[p]) == H(bh, s.far[p]) == bh[p]
    ensures s.near[g] != p && s.near[g] != g && s.near[p] != g && s.near[p] != p && s.far[p] != g && s.far[p] != p
  {
    AroundRotation(s, g, p);
    assert RedAt(s, red, p);
    assert HeightAt(s, red, bh, p);
    assert HeightAt(s, red, bh, g);
    assert NodeOk(s, e);
  }

  lemma InsertOuterHeight(s: Shape, s': Shape, red: seq<bool>, bh: seq<int>, e: int, p: int, g: int, n: int)
    requires OuterCase(s, red, bh, e, p, g) && Rotated(s, s', g, p) && n in s.mem
    ensures HeightAt(s', red[p := false][g := true], bh[p := bh[p] + 1][g := bh[p]], n)
  {
    OuterNumbers(s, red, bh, e, p, g);
    if n != g && n != p {
      RotatedElsewhere(s, s', g, p, n);
      assert HeightAt(s, red, bh, n);
    }
  }

  lemma OuterReds(s: Shape, red: seq<bool>, bh: seq<int>, e: int, p: int, g: int)
    requires OuterCase(s, red, bh, e, p, g)
    ensures !IsRed(red, g) && !IsRed(red, s.near[p])
  {
    AroundRotation(s, g, p);
    assert NodeOk(s, e);
    assert RedAt(s, red, p);
    assert s.near[p] != NULL ==> RedAt(s, red, s.near[p]);
  }

  lemma InsertOuterRed(s: Shape, s': Shape, red: seq<bool>, bh: seq<int>, e: int, p: int, g: int, n: int)
    requires OuterCase(s, red, bh, e, p, g) && Rotated(s, s', g, p) && n in s.mem
    ensures RedAt(s', red[p := false][g := true], n)
  {
    hide HeightAt, Heights, UpOk, KidOk, NodeOk, Linked;
    OuterReds(s, red, bh, e, p, g);
    OuterNumbers(s, red, bh, e, p, g);
    KidOf(s, p);
    KidOf(s, n);
    assert n != e ==> RedAt(s, red, n);
  }

  /** The grandparent is rotated below the parent, which takes its colour: balance is restored. */
  lemma InsertOuter(s: Shape, s': Shape, red: seq<bool>, bh: seq<int>, e: int, p: int, g: int)
    requires OuterCase(s, red, bh, e, p, g) && Rotated(s, s', g, p)
    ensures Balanced(s', red[p := false][g := true], bh[p := bh[p] + 1][g := bh[p]])
  {
    var red', bh' := red[p := false][g := true], bh[p := bh[p] + 1][g := bh[p]];
    RotatedLinked(s, s', g, p);
    forall n | n in s'.mem
      ensures HeightAt(s', red', bh', n)
    {
      InsertOuterHeight(s, s', red, bh, e, p, g, n);
    }
    forall n | n in s'.mem
      ensures RedAt(s', red', n)
    {
      InsertOuterRed(s, s', red, bh, e, p, g, n);
    }
    AroundRotation(s, g, p);
    assert NodeOk(s, e);
    assert s.root != NULL ==> NodeOk(s, s.root);
  }

  // ---- removal ---------------------------------------------------------

  ghost predicate HeightsBut(s: Shape, red: seq<bool>, bh: seq<int>, p: int)
    requires Sizes(s)
  {
    forall n {:trigger HeightAt(s, red, bh, n)} :: n in s.mem && n != p ==> HeightAt(s, red, bh, n)
  }

  /** The near side of p is one black node short. */
  ghost predicate ShortNear(s: Shape, red: seq<bool>, bh: seq<int>, p: int)
    requires Sizes(s) && p in s.mem
  {
    0 <= H(bh, s.near[p]) && H(bh, s.near[p]) + 1 == H(bh, s.far[p]) && H(bh, p) == H(bh, s.far[p]) + Black(red, p)
  }

  ghost predicate ShortFar(s: Shape, red: seq<bool>, bh: seq<int>, p: int)
    requires Sizes(s) && p in s.mem
  {
    0 <= H(bh, s.far[p]) && H(bh, s.far[p]) + 1 == H(bh, s.near[p]) && H(bh, p) == H(bh, s.near[p]) + Black(red, p)
  }

  /** One turn of the removal fix-up starts here: the near side of p is short, and black at its top. */
  ghost predicate NearDeficit(s: Shape, red: seq<bool>, bh: seq<int>, p: int) {
    && Coloured(s, red, bh) && p in s.mem
    && HeightsBut(s, red, bh, p) && ShortNear(s, red, bh, p)
    && NoRedRed(s, red, NULL) && !IsRed(red, s.root) && !IsRed(red, s.near[p])
  }

  ghost predicate FarDeficit(s: Shape, red: seq<bool>, bh: seq<int>, p: int) {
    && Coloured(s, red, bh) && p in s.mem
    && HeightsBut(s, red, bh, p) && ShortFar(s, red, bh, p)
    && NoRedRed(s, red, NULL) && !IsRed(red, s.root) && !IsRed(red, s.far[p])
  }

  // The red sibling t of a short near side: it is rotated up, so the new sibling is black.

  ghost predicate RedSibling(s: Shape, s': Shape, red: seq<bool>, bh: seq<int>, p: int, t: int) {
    NearDeficit(s, red, bh, p) && s.far[p] == t && t != NULL && IsRed(red, t) && Rotated(s, s', p, t)
  }

  lemma RedSiblingNumbers(s: Shape, s': Shape, red: seq<bool>, bh: seq<int>, p: int, t: int)
    requires RedSibling(s, s', red, bh, p, t)
    ensures t in s.mem && p != t && !IsRed(red, p) && bh[p] == bh[t] + 1
    ensures H(bh, s.near[p]) + 1 == H(bh, s.near[t]) == H(bh, s.far[t]) == bh[t]
    ensures s.near[p] != p && s.near[p] != t && s.near[t] != p && s.near[t] != t && s.far[t] != p && s.far[t] != t
  {
    AroundRotation(s, p, t);
    assert RedAt(s, red, t);
    assert HeightAt(s, red, bh, t);
  }

  lemma RedSiblingHeight(s: Shape, s': Shape, red: seq<bool>, bh: seq<int>, p: int, t: int, n: int)
    requires RedSibling(s, s', red, bh, p, t) && n in s.mem
    ensures t in s.mem
    ensures n != p ==> HeightAt(s', red[t := false][p := true], bh[t := bh[p]][p := bh[t]], n)
    ensures n == p ==> ShortNear(s', red[t := false][p := true], bh[t := bh[p]][p := bh[t]], n)
  {
    RedSiblingNumbers(s, s', red, bh, p, t);
    if n != p && n != t {
      RotatedElsewhere(s, s', p, t, n);
      assert HeightAt(s, red, bh, n);
    }
  }

  /** A node that is not part of a rotation keeps its children up to the exchange of x by y. */
  lemma RotatedElsewhere(s: Shape, s': Shape, x: int, y: int, n: int)
    requires CanRotate(s, x, y) && Rotated(s, s', x, y) && n in s.mem && n != x && n != y
    ensures s'.near[n] == (if s.near[n] == x then y else s.near[n])
    ensures s'.far[n] == (if s.far[n] == x then y else s.far[n])
    ensures s.near[n] != y && s.far[n] != y
    ensures s.near[n] == x ==> s.far[n] != x
  {
    AroundRotation(s, x, y);
    assert NodeOk(s, n);
  }

  lemma RedSiblingRed(s: Shape, s': Shape, red: seq<bool>, bh: seq<int>, p: int, t: int, n: int)
    requires RedSibling(s, s', red, bh, p, t) && n in s.mem
    ensures t in s.mem && RedAt(s', red[t := false][p := true], n)
  {
    RedSiblingNumbers(s, s', red, bh, p, t);
    KidOf(s, p);
    KidOf(s, t);
    KidOf(s, n);
    assert RedAt(s, red, n);
  }

  lemma RedSiblingUp(s: Shape, s': Shape, red: seq<bool>, bh: seq<int>, p: int, t: int)
    requires RedSibling(s, s', red, bh, p, t)
    ensures t in s.mem
    ensures NearDeficit(s', red[t := false][p := true], bh[t := bh[p]][p := bh[t]], p)
    ensures s'.near[p] == s.near[p] && s'.far[p] == s.near[t] && !IsRed(red[t := false][p := true], s'.far[p])
  {
    RedSiblingNumbers(s, s', red, bh, p, t);
    var red', bh' := red[t := false][p := true], bh[t := bh[p]][p := bh[t]];
    RotatedLinked(s, s', p, t);
    forall n | n in s'.mem
      ensures (n != p ==> HeightAt(s', red', bh', n)) && (n == p ==> ShortNear(s', red', bh', n))
      ensures RedAt(s', red', n)
    {
      RedSiblingHeight(s, s', red, bh, p, t, n);
      RedSiblingRed(s, s', red, bh, p, t, n);
    }
    KidOf(s, p);
    KidOf(s, t);
    assert s.near[t] != NULL ==> RedAt(s, red, s.near[t]);
  }

  // A black sibling with black children is reddened: now all of p's subtree is short.

  /** No red-red edge, except perhaps above and below c. */
  ghost predicate NoRedRedAround(s: Shape, red: seq<bool>, c: int)
    requires Sizes(s)
  {
    forall n {:trigger RedAt(s, red, n)} :: n in s.mem && n != c && s.parent[n] != c ==> RedAt(s, red, n)
  }

  ghost predicate ShortAt(s: Shape, red: seq<bool>, bh: seq<int>, q: int, c: int)
    requires Sizes(s) && q in s.mem
  {
    (s.near[q] == c && ShortNear(s, red, bh, q)) || (s.far[q] == c && ShortFar(s, red, bh, q))
  }

  /** The tree during a removal: the side c of q (or the whole tree, if q is NULL) may be one black node short. */
  ghost predicate Lacking(s: Shape, red: seq<bool>, bh: seq<int>, q: int, c: int) {
    && Coloured(s, red, bh)
    && HeightsBut(s, red, bh, q)
    && (q == NULL ==> s.root == c)
    && (q != NULL ==> q in s.mem && ShortAt(s, red, bh, q, c))
    && NoRedRedAround(s, red, c)
    && (s.root == c || !IsRed(red, s.root))
    && (c != NULL ==> c in s.mem && s.parent[c] == q)
  }

  ghost predicate BlackNephews(s: Shape, red: seq<bool>, bh: seq<int>, p: int, t: int) {
    && NearDeficit(s, red, bh, p) && s.far[p] == t && t in s.mem
    && !IsRed(red, t) && !IsRed(red, s.near[t]) && !IsRed(red, s.far[t])
  }

  lemma BlackNephewsFacts(s: Shape, red: seq<bool>, bh: seq<int>, p: int, t: int)
    requires BlackNephews(s, red, bh, p, t)
    ensures p != t && s.near[p] != t && s.near[p] != p && s.parent[t] == p
    ensures H(bh, s.near[p]) + 1 == bh[t] && bh[p] == bh[t] + Black(red, p)
    ensures H(bh, s.near[t]) == H(bh, s.far[t]) == bh[t] - 1 >= 0
    ensures s.near[t] != t && s.far[t] != t && s.near[t] != p && s.far[t] != p
  {
    KidOf(s, p);
    AroundRotation(s, p, t);
    assert HeightAt(s, red, bh, t);
  }

  /** A node that is neither the short one nor its sibling: only its height seen from above may change. */
  lemma PushDeficitOther(s: Shape, red: seq<bool>, bh: seq<int>, p: int, t: int, n: int)
    requires BlackNephews(s, red, bh, p, t) && n in s.mem && n != p && n != t
    ensures n != s.parent[p] ==> HeightAt(s, red[t := true], bh[t := bh[t] - 1][p := bh[p] - 1], n)
    ensures n == s.parent[p] ==> ShortAt(s, red[t := true], bh[t := bh[t] - 1][p := bh[p] - 1], n, p)
  {
    hide NodeOk, NoRedRed;
    BlackNephewsFacts(s, red, bh, p, t);
    KidOf(s, n);
    KidOf(s, p);
    assert HeightAt(s, red, bh, n);
  }

  lemma PushDeficitHeight(s: Shape, red: seq<bool>, bh: seq<int>, p: int, t: int, n: int)
    requires BlackNephews(s, red, bh, p, t) && n in s.mem
    ensures n != s.parent[p] ==> HeightAt(s, red[t := true], bh[t := bh[t] - 1][p := bh[p] - 1], n)
    ensures n == s.parent[p] ==> ShortAt(s, red[t := true], bh[t := bh[t] - 1][p := bh[p] - 1], n, p)
  {
    hide NodeOk, NoRedRed, HeightsBut;
    if n != p && n != t {
      PushDeficitOther(s, red, bh, p, t, n);
    } else {
      BlackNephewsFacts(s, red, bh, p, t);
      KidOf(s, p);
      KidOf(s, t);
    }
  }

  lemma PushDeficitUp(s: Shape, red: seq<bool>, bh: seq<int>, p: int, t: int)
    requires BlackNephews(s, red, bh, p, t)
    ensures Lacking(s, red[t := true], bh[t := bh[t] - 1][p := bh[p] - 1], s.parent[p], p)
  {
    var red', bh' := red[t := true], bh[t := bh[t] - 1][p := bh[p] - 1];
    forall n | n in s.mem
      ensures n != s.parent[p] ==> HeightAt(s, red', bh', n)
      ensures n == s.parent[p] ==> ShortAt(s, red', bh', n, p)
    {
      PushDeficitHeight(s, red, bh, p, t, n);
    }
    BlackNephewsFacts(s, red, bh, p, t);
    KidOf(s, p);
    forall n | n in s.mem && n != p && s.parent[n] != p
      ensures RedAt(s, red', n)
    {
      KidOf(s, n);
      assert RedAt(s, red, n);
    }
    KidOf(s, t);
  }

  // Black sibling t whose inner child o alone is red: o is rotated above t.
  // Stated in the mirror image, where the short side is the far one.

  ghost predicate InnerNephew(s: Shape, s': Shape, red: seq<bool>, bh: seq<int>, p: int, t: int, o: int) {
    && FarDeficit(s, red, bh, p) && s.near[p] == t && t in s.mem && !IsRed(red, t)
    && s.far[t] == o && IsRed(red, o) && o in s.mem && !IsRed(red, s.near[t]) && Rotated(s, s', t, o)
  }

  lemma InnerNephewFacts(s: Shape, s': Shape, red: seq<bool>, bh: seq<int>, p: int, t: int, o: int)
    requires InnerNephew(s, s', red, bh, p, t, o)
    ensures p != t && p != o && t != o && s.parent[t] == p && s.parent[o] == t
    ensures bh[t] == bh[o] + 1 && bh[o] >= 0
    ensures H(bh, s.near[t]) == H(bh, s.near[o]) == H(bh, s.far[o]) == bh[o]
    ensures s.near[t] != t && s.near[t] != o && s.near[o] != t && s.near[o] != o && s.far[o] != t && s.far[o] != o
    ensures !IsRed(red, s.near[o]) && !IsRed(red, s.far[o])
    ensures s.far[p] != t && s.far[p] != o
  {
    KidOf(s, p);
    AroundRotation(s, t, o);
    assert HeightAt(s, red, bh, t);
    assert HeightAt(s, red, bh, o);
    assert s.near[o] != NULL ==> RedAt(s, red, s.near[o]);
    assert s.far[o] != NULL ==> RedAt(s, red, s.far[o]);
  }

  lemma InnerNephewHeight(s: Shape, s': Shape, red: seq<bool>, bh: seq<int>, p: int, t: int, o: int, n: int)
    requires InnerNephew(s, s', red, bh, p, t, o) && n in s.mem
    ensures n != p ==> HeightAt(s', red[o := false][t := true], bh[o := bh[t]][t := bh[o]], n)
    ensures n == p ==> ShortFar(s', red[o := false][t := true], bh[o := bh[t]][t := bh[o]], n)
  {
    hide Linked, KidOk, NoRedRed, AddedFar, AddedNear, Alone, Balanced, BlackNephews, Down, Flip, Grown, Heights,
         Inserting, Lacking, NearDeficit, NoRedRedAround, Node, OneMore, OnlyAt, OnlyChild, OuterCase, OuterNephew,
         RedSibling, RedUncle, Replaced, Rotation, RotationBack, ShortAt, ShortNear, Swap, Takeover, Touches, Unlinked,
         Up, CanRotate, Sizes;
    InnerNephewFacts(s, s', red, bh, p, t, o);
    if n != t && n != o {
      RotatedElsewhere(s, s', t, o, n);
      assert n != p ==> HeightAt(s, red, bh, n);
    }
  }

  lemma InnerNephewRed(s: Shape, s': Shape, red: seq<bool>, bh: seq<int>, p: int, t: int, o: int, n: int)
    requires InnerNephew(s, s', red, bh, p, t, o) && n in s.mem
    ensures RedAt(s', red[o := false][t := true], n)
  {
    InnerNephewFacts(s, s', red, bh, p, t, o);
    KidOf(s, n);
    assert RedAt(s, red, n);
  }

  lemma InnerNephewUp(s: Shape, s': Shape, red: seq<bool>, bh: seq<int>, p: int, t: int, o: int)
    requires InnerNephew(s, s', red, bh, p, t, o)
    ensures FarDeficit(s', red[o := false][t := true], bh[o := bh[t]][t := bh[o]], p)
    ensures s'.near[p] == o && s'.near[o] == t && s'.far[p] == s.far[p]
  {
    InnerNephewFacts(s, s', red, bh, p, t, o);
    var red', bh' := red[o := false][t := true], bh[o := bh[t]][t := bh[o]];
    RotatedLinked(s, s', t, o);
    forall n | n in s'.mem
      ensures (n != p ==> HeightAt(s', red', bh', n)) && (n == p ==> ShortFar(s', red', bh', n))
      ensures RedAt(s', red', n)
    {
      InnerNephewHeight(s, s', red, bh, p, t, o, n);
      InnerNephewRed(s, s', red, bh, p, t, o, n);
    }
    RotatedElsewhere(s, s', t, o, p);
    KidOf(s, t);
  }

  // Black sibling t whose outer child w is red: one rotation restores the balance.

  ghost predicate OuterNephew(s: Shape, s': Shape, red: seq<bool>, bh: seq<int>, p: int, t: int, w: int) {
    && NearDeficit(s, red, bh, p) && s.far[p] == t && t in s.mem && !IsRed(red, t)
    && s.far[t] == w && w in s.mem && IsRed(red, w) && Rotated(s, s', p, t)
  }

  lemma OuterNephewFacts(s: Shape, s': Shape, red: seq<bool>, bh: seq<int>, p: int, t: int, w: int)
    requires OuterNephew(s, s', red, bh, p, t, w)
    ensures p != t && p != w && t != w && s.parent[t] == p && s.parent[w] == t
    ensures bh[t] == bh[w] + 1 && bh[p] == bh[t] + Black(red, p) && bh[w] >= 0
    ensures H(bh, s.near[p]) == H(bh, s.near[t]) == bh[w]
    ensures s.near[t] != t && s.near[t] != w && s.near[t] != p && s.near[p] != t && s.near[p] != w && s.near[p] != p
  {
    AroundRotation(s, p, t);
    KidOf(s, p);
    KidOf(s, t);
    assert HeightAt(s, red, bh, t);
    assert HeightAt(s, red, bh, w);
  }

  lemma OuterNephewDistinct(s: Shape, p: int, t: int, w: int)
    requires Linked(s) && p in s.mem && s.far[p] == t && t in s.mem && s.far[t] == w && w in s.mem
    ensures p != t && t != w && p != w
  {
    AroundRotation(s, p, t);
    KidOf(s, t);
    KidOf(s, p);
  }

  /** The three nodes that the rotation recolours. */
  lemma OuterNephewHere(s: Shape, s': Shape, red: seq<bool>, bh: seq<int>, p: int, t: int, w: int)
    requires OuterNephew(s, s', red, bh, p, t, w)
    ensures var red', bh' := red[t := red[p]][p := false][w := false], bh[t := bh[p]][p := bh[t]][w := bh[w] + 1];
            HeightAt(s', red', bh', p) && HeightAt(s', red', bh', t)
  {
    hide NodeOk, Heights, NoRedRed, HeightsBut;
    OuterNephewFacts(s, s', red, bh, p, t, w);
    assert s'.near[p] == s.near[p] && s'.far[p] == s.near[t];
    assert s'.near[t] == p && s'.far[t] == w;
  }

  lemma OuterNephewThere(s: Shape, s': Shape, red: seq<bool>, bh: seq<int>, p: int, t: int, w: int)
    requires OuterNephew(s, s', red, bh, p, t, w)
    ensures var red', bh' := red[t := red[p]][p := false][w := false], bh[t := bh[p]][p := bh[t]][w := bh[w] + 1];
            HeightAt(s', red', bh', w)
  {
    hide NodeOk, Heights, NoRedRed;
    OuterNephewFacts(s, s', red, bh, p, t, w);
    KidOf(s, w);
    assert HeightAt(s, red, bh, w);
    RotatedElsewhere(s, s', p, t, w);
  }

  lemma OuterNephewHeight(s: Shape, s': Shape, red: seq<bool>, bh: seq<int>, p: int, t: int, w: int, n: int)
    requires OuterNephew(s, s', red, bh, p, t, w) && n in s.mem
    ensures HeightAt(s', red[t := red[p]][p := false][w := false], bh[t := bh[p]][p := bh[t]][w := bh[w] + 1], n)
  {
    hide NodeOk, Heights, NoRedRed, Rotated, Sizes;
    if n == w {
      OuterNephewThere(s, s', red, bh, p, t, w);
    } else if n == p || n == t {
      OuterNephewHere(s, s', red, bh, p, t, w);
    } else {
      OuterNephewFacts(s, s', red, bh, p, t, w);
      KidOf(s, n);
      RotatedElsewhere(s, s', p, t, n);
      assert HeightAt(s, red, bh, n);
    }
  }

  lemma OuterNephewRed(s: Shape, s': Shape, red: seq<bool>, bh: seq<int>, p: int, t: int, w: int, n: int)
    requires OuterNephew(s, s', red, bh, p, t, w) && n in s.mem
    ensures RedAt(s', red[t := red[p]][p := false][w := false], n)
  {
    OuterNephewFacts(s, s', red, bh, p, t, w);
    KidOf(s, p);
    KidOf(s, n);
    assert RedAt(s, red, n);
    assert RedAt(s, red, p);
  }

  lemma OuterNephewUp(s: Shape, s': Shape, red: seq<bool>, bh: seq<int>, p: int, t: int, w: int)
    requires OuterNephew(s, s', red, bh, p, t, w)
    ensures Balanced(s', red[t := red[p]][p := false][w := false], bh[t := bh[p]][p := bh[t]][w := bh[w] + 1])
  {
    OuterNephewFacts(s, s', red, bh, p, t, w);
    var red', bh' := red[t := red[p]][p := false][w := false], bh[t := bh[p]][p := bh[t]][w := bh[w] + 1];
    RotatedLinked(s, s', p, t);
    forall n | n in s'.mem
      ensures HeightAt(s', red', bh', n) && RedAt(s', red', n)
    {
      OuterNephewHeight(s, s', red, bh, p, t, w, n);
      OuterNephewRed(s, s', red, bh, p, t, w, n);
    }
    KidOf(s, p);
  }

  // ---- entering and leaving the removal fix-up --------------------------

  /** While the fix-up loop runs, its current side is black and has a parent. */
  lemma EnterTurn(s: Shape, red: seq<bool>, bh: seq<int>, q: int, c: int)
    requires Lacking(s, red, bh, q, c) && !IsRed(red, c) && c != s.root
    ensures q != NULL && q in s.mem
    ensures s.near[q] == c ==> NearDeficit(s, red, bh, q)
    ensures s.near[q] != c ==> s.far[q] == c && FarDeficit(s, red, bh, q)
    ensures s.near[q] == c ==> s.far[q] != NULL
    ensures s.near[q] != c ==> s.near[q] != NULL
  {
    forall n | n in s.mem
      ensures RedAt(s, red, n)
    {
      if n == c {
      } else if s.parent[n] == c {
        KidOf(s, n);
      }
    }
  }

  /** The loop stops at a red node: blackening it repairs the heights and the edges around it. */
  lemma FinishRed(s: Shape, red: seq<bool>, bh: seq<int>, q: int, c: int)
    requires Lacking(s, red, bh, q, c) && IsRed(red, c)
    ensures Balanced(s, red[c := false], bh[c := bh[c] + 1])
  {
    var red', bh' := red[c := false], bh[c := bh[c] + 1];
    KidOf(s, c);
    forall n | n in s.mem
      ensures HeightAt(s, red', bh', n)
    {
      KidOf(s, n);
      assert n != q ==> HeightAt(s, red, bh, n);
    }
    forall n | n in s.mem
      ensures RedAt(s, red', n)
    {
      assert n != c && s.parent[n] != c ==> RedAt(s, red, n);
    }
  }

  lemma RootIn(s: Shape, n: int)
    requires Linked(s) && n in s.mem
    ensures s.root in s.mem
  {
    assert NodeOk(s, n);
  }

  /** The loop stops at the root: the whole tree is one black node shorter, which is balance. */
  lemma FinishRoot(s: Shape, red: seq<bool>, bh: seq<int>, q: int, c: int)
    requires Lacking(s, red, bh, q, c) && c == s.root && !IsRed(red, c)
    ensures Balanced(s, red, bh)
  {
    if q != NULL {
      RootIn(s, q);
      KidOf(s, s.root);
    }
    forall n | n in s.mem
      ensures RedAt(s, red, n)
    {
      KidOf(s, n);
      assert n != c && s.parent[n] != c ==> RedAt(s, red, n);
    }
  }

  // ---- colours of a new leaf, a removed node and a replacement ----------

  lemma AloneColours(s: Shape, red: seq<bool>, bh: seq<int>, e: int)
    requires Alone(s, e) && |red| == |bh| == |s.pos| && red[e] && bh[e] == 0
    ensures Inserting(s, red, bh, e)
  {
    AloneLinked(s, e);
    assert HeightAt(s, red, bh, e);
  }

  lemma AddedHeight(s: Shape, s': Shape, red: seq<bool>, bh: seq<int>, p: int, e: int, n: int)
    requires Coloured(s, red, bh) && Linked(s') && p in s.mem && e !in s.mem && 0 <= e < |red|
    requires (AddedNear(s, s', p, e) && s.near[p] == NULL) || (AddedFar(s, s', p, e) && s.far[p] == NULL)
    requires n in s'.mem && (n != e ==> HeightAt(s, red, bh, n))
    ensures HeightAt(s', red[e := true], bh[e := 0], n)
  {
    hide Linked;
    if n != e {
      KidOf(s, n);
    }
  }

  lemma AddedRed(s: Shape, s': Shape, red: seq<bool>, bh: seq<int>, p: int, e: int, n: int)
    requires Coloured(s, red, bh) && p in s.mem && e !in s.mem && 0 <= e < |red|
    requires (AddedNear(s, s', p, e) && s.near[p] == NULL) || (AddedFar(s, s', p, e) && s.far[p] == NULL)
    requires n in s'.mem && n != e && RedAt(s, red, n)
    ensures RedAt(s', red[e := true], n)
  {
    hide Linked;
    KidOf(s, n);
  }

  /** A red leaf of height 0 under p, or alone. */
  lemma AddedColours(s: Shape, s': Shape, red: seq<bool>, bh: seq<int>, p: int, e: int)
    requires Balanced(s, red, bh) && Linked(s') && p in s.mem && e !in s.mem
    requires (AddedNear(s, s', p, e) && s.near[p] == NULL) || (AddedFar(s, s', p, e) && s.far[p] == NULL)
    ensures Inserting(s', red[e := true], bh[e := 0], e)
  {
    hide Linked, HeightAt, RedAt;
    var red', bh' := red[e := true], bh[e := 0];
    forall n | n in s'.mem
      ensures HeightAt(s', red', bh', n)
    {
      assert n != e ==> HeightAt(s, red, bh, n);
      AddedHeight(s, s', red, bh, p, e, n);
    }
    forall n | n in s'.mem && n != e
      ensures RedAt(s', red', n)
    {
      assert RedAt(s, red, n);
      AddedRed(s, s', red, bh, p, e, n);
    }
    RootIn(s, p);
  }

  lemma UnlinkedHeight(s: Shape, s': Shape, red: seq<bool>, bh: seq<int>, y: int, c: int, n: int)
    requires Coloured(s, red, bh) && y in s.mem && OnlyChild(s, y, c) && Unlinked(s, s', y, c) && n in s'.mem
    requires HeightAt(s, red, bh, y) && HeightAt(s, red, bh, n)
    ensures n != s.parent[y] || IsRed(red, y) ==> HeightAt(s', red, bh, n)
    ensures n == s.parent[y] && !IsRed(red, y) ==> ShortAt(s', red, bh, n, c)
  {
    hide Linked, Sizes;
    KidOf(s, y);
    KidOf(s, n);
  }

  lemma UnlinkedRed(s: Shape, s': Shape, red: seq<bool>, bh: seq<int>, y: int, c: int, n: int)
    requires Coloured(s, red, bh) && y in s.mem && OnlyChild(s, y, c) && Unlinked(s, s', y, c) && n in s'.mem
    requires RedAt(s, red, y) && RedAt(s, red, n)
    ensures n != c ==> RedAt(s', red, n)
    ensures IsRed(red, y) ==> RedAt(s', red, n)
  {
    hide Linked;
    KidOf(s, y);
    KidOf(s, n);
    if n == c && IsRed(red, y) {
      assert s.parent[n] == y;
    }
  }

  /** The root after an unlinking, and the node that takes the place. */
  lemma UnlinkedRoot(s: Shape, s': Shape, red: seq<bool>, bh: seq<int>, y: int, c: int)
    requires Coloured(s, red, bh) && y in s.mem && OnlyChild(s, y, c) && Unlinked(s, s', y, c)
    requires (c != NULL ==> c in s.mem && RedAt(s, red, c)) && !IsRed(red, s.root)
    ensures s'.root == c || !IsRed(red, s'.root)
    ensures IsRed(red, y) ==> !IsRed(red, s'.root)
    ensures s.parent[y] == NULL ==> s'.root == c
    ensures s.parent[y] != NULL ==> s.parent[y] in s'.mem
    ensures c != NULL ==> c in s'.mem && s'.parent[c] == s.parent[y]
  {
    hide Linked;
    KidOf(s, y);
    if c != NULL {
      KidOf(s, c);
    }
  }

  /** Taking out a red node leaves the balance; a black one leaves its side short. */
  lemma UnlinkedColours(s: Shape, s': Shape, red: seq<bool>, bh: seq<int>, y: int, c: int)
    requires Balanced(s, red, bh) && Linked(s') && y in s.mem && OnlyChild(s, y, c) && Unlinked(s, s', y, c)
    ensures IsRed(red, y) ==> Balanced(s', red, bh)
    ensures !IsRed(red, y) ==> Lacking(s', red, bh, s.parent[y], c)
  {
    hide Linked, HeightAt, RedAt, ShortAt;
    assert HeightAt(s, red, bh, y) && RedAt(s, red, y);
    forall n | n in s'.mem
      ensures n != s.parent[y] || IsRed(red, y) ==> HeightAt(s', red, bh, n)
      ensures n == s.parent[y] && !IsRed(red, y) ==> ShortAt(s', red, bh, n, c)
      ensures n != c ==> RedAt(s', red, n)
      ensures IsRed(red, y) ==> RedAt(s', red, n)
    {
      assert HeightAt(s, red, bh, n) && RedAt(s, red, n);
      UnlinkedHeight(s, s', red, bh, y, c, n);
      UnlinkedRed(s, s', red, bh, y, c, n);
    }
    KidOf(s, y);
    if c != NULL {
      assert RedAt(s, red, c);
    }
    UnlinkedRoot(s, s', red, bh, y, c);
  }

  lemma ReplacedLinks(s: Shape, s': Shape, red: seq<bool>, bh: seq<int>, x: int, e: int, n: int)
    requires Coloured(s, red, bh) && e !in s.mem && Replaced(s, s', x, e) && n in s'.mem
    ensures var m := Swap(n, e, x);
            && m in s.mem
            && s'.near[n] == Swap(s.near[m], x, e) && s'.far[n] == Swap(s.far[m], x, e)
               && s'.parent[n] == Swap(s.parent[m], x, e)
            && s.near[m] != e && s.far[m] != e && s.parent[m] != e
  {
    hide Linked;
    KidOf(s, Swap(n, e, x));
  }

  lemma ReplacedSizes(s: Shape, s': Shape, x: int, e: int)
    requires Replaced(s, s', x, e)
    ensures Sizes(s) && Sizes(s') && |s'.pos| == |s.pos| && x in s.mem && 0 <= e < |s.pos|
    ensures s'.mem == s.mem - {x} + {e}
  {
  }

  lemma SwapBack(n: int, x: int, e: int)
    requires n != x
    ensures Swap(Swap(n, e, x), x, e) == n && (n != e ==> Swap(n, e, x) == n) && Swap(n, e, x) != e
  {
  }

  lemma SwapValues(red: seq<bool>, bh: seq<int>, x: int, e: int, c: int)
    requires 0 <= x < |red| == |bh| && 0 <= e < |red| && c != e
    ensures H(bh[e := bh[x]], Swap(c, x, e)) == H(bh, c) && IsRed(red[e := red[x]], Swap(c, x, e)) == IsRed(red, c)
  {
  }

  lemma ReplacedHeight(s: Shape, s': Shape, red: seq<bool>, bh: seq<int>, x: int, e: int, n: int)
    requires Coloured(s, red, bh) && e !in s.mem && Replaced(s, s', x, e) && n in s'.mem
    ensures var m := Swap(n, e, x);
            && m in s.mem
            && s'.near[n] == Swap(s.near[m], x, e) && s'.far[n] == Swap(s.far[m], x, e)
               && s'.parent[n] == Swap(s.parent[m], x, e)
            && (HeightAt(s, red, bh, m) ==> HeightAt(s', red[e := red[x]], bh[e := bh[x]], n))
            && (ShortNear(s, red, bh, m) ==> ShortNear(s', red[e := red[x]], bh[e := bh[x]], n))
            && (ShortFar(s, red, bh, m) ==> ShortFar(s', red[e := red[x]], bh[e := bh[x]], n))
            && (RedAt(s, red, m) ==> RedAt(s', red[e := red[x]], n))
  {
    hide Linked, H, IsRed, Swap, Replaced;
    ReplacedSizes(s, s', x, e);
    ReplacedLinks(s, s', red, bh, x, e, n);
    var m := Swap(n, e, x);
    SwapBack(n, x, e);
    SwapValues(red, bh, x, e, m);
    SwapValues(red, bh, x, e, s.near[m]);
    SwapValues(red, bh, x, e, s.far[m]);
    SwapValues(red, bh, x, e, s.parent[m]);
  }

  /** e takes over the place and the colour of x. */
  lemma ReplacedColours(s: Shape, s': Shape, red: seq<bool>, bh: seq<int>, x: int, e: int)
    requires Balanced(s, red, bh) && e !in s.mem && Linked(s') && Replaced(s, s', x, e)
    ensures Balanced(s', red[e := red[x]], bh[e := bh[x]])
  {
    var red', bh' := red[e := red[x]], bh[e := bh[x]];
    forall n | n in s'.mem
      ensures HeightAt(s', red', bh', n) && RedAt(s', red', n)
    {
      ReplacedHeight(s, s', red, bh, x, e, n);
      assert HeightAt(s, red, bh, Swap(n, e, x));
      assert RedAt(s, red, Swap(n, e, x));
    }
  }

  lemma ReplacedLacking(s: Shape, s': Shape, red: seq<bool>, bh: seq<int>, x: int, e: int, q: int, c: int)
    requires Lacking(s, red, bh, q, c) && c != x && e !in s.mem && Linked(s') && Replaced(s, s', x, e)
    ensures Lacking(s', red[e := red[x]], bh[e := bh[x]], Swap(q, x, e), c)
  {
    var red', bh' := red[e := red[x]], bh[e := bh[x]];
    var q' := Swap(q, x, e);
    forall n | n in s'.mem
      ensures n != q' ==> HeightAt(s', red', bh', n)
      ensures n == q' ==> ShortAt(s', red', bh', n, c)
      ensures n != c && s'.parent[n] != c ==> RedAt(s', red', n)
    {
      var m := Swap(n, e, x);
      ReplacedHeight(s, s', red, bh, x, e, n);
      assert m != q ==> HeightAt(s, red, bh, m);
      assert m != c && s.parent[m] != c ==> RedAt(s, red, m);
    }
    if c != NULL {
      KidOf(s, c);
    }
  }

  // ---- mirror images ---------------------------------------------------

  lemma FlipBalanced(s: Shape, red: seq<bool>, bh: seq<int>)
    requires Balanced(s, red, bh)
    ensures Balanced(Flip(s), red, bh)
  {
    FlipLinked(s);
    forall n | n in s.mem
      ensures HeightAt(Flip(s), red, bh, n) && RedAt(Flip(s), red, n)
    {
      assert HeightAt(s, red, bh, n) && RedAt(s, red, n);
    }
  }

  lemma FlipInserting(s: Shape, red: seq<bool>, bh: seq<int>, e: int)
    requires Inserting(s, red, bh, e)
    ensures Inserting(Flip(s), red, bh, e)
  {
    FlipLinked(s);
    forall n | n in s.mem
      ensures HeightAt(Flip(s), red, bh, n) && (n != e ==> RedAt(Flip(s), red, n))
    {
      assert HeightAt(s, red, bh, n) && (n != e ==> RedAt(s, red, n));
    }
  }

  lemma FlipLacking(s: Shape, red: seq<bool>, bh: seq<int>, q: int, c: int)
    requires Lacking(s, red, bh, q, c)
    ensures Lacking(Flip(s), red, bh, q, c)
  {
    FlipLinked(s);
    var f := Flip(s);
    forall n | n in s.mem
      ensures n != q ==> HeightAt(f, red, bh, n)
      ensures n == q ==> ShortAt(f, red, bh, n, c)
      ensures n != c && s.parent[n] != c ==> RedAt(f, red, n)
    {
      assert n != q ==> HeightAt(s, red, bh, n);
      assert n != c && s.parent[n] != c ==> RedAt(s, red, n);
    }
  }

  lemma FlipDeficit(s: Shape, red: seq<bool>, bh: seq<int>, p: int)
    requires FarDeficit(s, red, bh, p)
    ensures NearDeficit(Flip(s), red, bh, p)
  {
    FlipLinked(s);
    var f := Flip(s);
    forall n | n in s.mem
      ensures n != p ==> HeightAt(f, red, bh, n)
      ensures RedAt(f, red, n)
    {
      assert n != p ==> HeightAt(s, red, bh, n);
      assert RedAt(s, red, n);
    }
  }

  lemma FlipDeficitBack(s: Shape, red: seq<bool>, bh: seq<int>, p: int)
    requires NearDeficit(s, red, bh, p)
    ensures FarDeficit(Flip(s), red, bh, p)
  {
    FlipLinked(s);
    var f := Flip(s);
    forall n | n in s.mem
      ensures n != p ==> HeightAt(f, red, bh, n)
      ensures RedAt(f, red, n)
    {
      assert n != p ==> HeightAt(s, red, bh, n);
      assert RedAt(s, red, n);
    }
  }

  // ---- before and after the rotations ------------------------------------

  /** A node is a place of every array of the tree. */
  ghost predicate Node(s: Shape, red: seq<bool>, bh: seq<int>, n: int) {
    n in s.mem && 0 <= n < |red| && |red| == |bh| == |s.pos| == |s.parent| == |s.near| == |s.far|
  }

  lemma BalancedNodes(s: Shape, red: seq<bool>, bh: seq<int>)
    requires Balanced(s, red, bh)
    ensures Sizes(s) && Linked(s) && |red| == |bh| == |s.pos| && forall n :: n in s.mem ==> Node(s, red, bh, n)
  {
    hide NodeOk, Heights, NoRedRed;
  }

  /** A node whose near child is not the one unlinked keeps it. */
  lemma UnlinkedKeeps(s: Shape, s': Shape, y: int, c: int, x: int)
    requires Unlinked(s, s', y, c) && x in s.mem && x != y && s.near[x] != y
    ensures Sizes(s') && |s'.pos| == |s.pos| && x in s'.mem && y !in s'.mem && s'.near[x] == s.near[x]
  {
  }

  lemma AddedNearDone(s: Shape, s': Shape, red: seq<bool>, bh: seq<int>, p: int, e: int)
    requires Balanced(s, red, bh) && OnlyAt(s, p) && s.near[p] == NULL && e !in s.mem && AddedNear(s, s', p, e)
    ensures 0 <= e < |red| == |bh| && Inserting(s', red[e := true], bh[e := 0], e)
  {
    hide NodeOk, Heights, NoRedRed;
    AddedNearLinked(s, s', p, e);
    AddedColours(s, s', red, bh, p, e);
  }

  lemma AddedFarDone(s: Shape, s': Shape, red: seq<bool>, bh: seq<int>, p: int, e: int)
    requires Balanced(s, red, bh) && OnlyAt(s, p) && s.far[p] == NULL && e !in s.mem && AddedFar(s, s', p, e)
    ensures 0 <= e < |red| == |bh| && Inserting(s', red[e := true], bh[e := 0], e)
  {
    hide NodeOk, Heights, NoRedRed;
    AddedFarLinked(s, s', p, e);
    AddedColours(s, s', red, bh, p, e);
  }

  lemma InsertingNodes(s: Shape, red: seq<bool>, bh: seq<int>, e: int)
    requires Inserting(s, red, bh, e)
    ensures Sizes(s) && e in s.mem && IsRed(red, e) && |red| == |bh| == |s.pos|
            && (forall n :: n in s.mem ==> Node(s, red, bh, n))
  {
    hide NodeOk, Heights, NoRedRed;
  }

  lemma InsertingOk(s: Shape, red: seq<bool>, bh: seq<int>, e: int, n: int)
    requires Inserting(s, red, bh, e) && n in s.mem
    ensures Sizes(s) && |red| == |s.pos| && NodeOk(s, n)
  {
    hide NodeOk, Heights, NoRedRed;
  }

  lemma ParentIn(s: Shape, n: int)
    requires Sizes(s) && n in s.mem && NodeOk(s, n)
    ensures 0 <= n < |s.parent| == |s.lo| == |s.hi| == |s.pos|
    ensures s.parent[n] != NULL ==> s.parent[n] in s.mem && 0 <= s.parent[n] < |s.pos|
    ensures s.first <= s.lo[n] < s.hi[n] <= s.last
  {
  }

  lemma BalancedOk(s: Shape, red: seq<bool>, bh: seq<int>, n: int)
    requires Balanced(s, red, bh) && n in s.mem
    ensures Sizes(s) && |red| == |s.pos| && NodeOk(s, n)
  {
    hide NodeOk, Heights, NoRedRed;
  }

  lemma PushReady(s: Shape, red: seq<bool>, bh: seq<int>, p: int, t: int)
    requires BlackNephews(s, red, bh, p, t)
    ensures Node(s, red, bh, p) && Node(s, red, bh, t) && p != t
  {
    BlackNephewsFacts(s, red, bh, p, t);
    hide NodeOk, HeightsBut, NoRedRed;
  }

  lemma DeficitNodes(s: Shape, red: seq<bool>, bh: seq<int>, p: int)
    requires NearDeficit(s, red, bh, p)
    ensures p in s.mem && forall n :: n in s.mem ==> Node(s, red, bh, n)
  {
    hide NodeOk, HeightsBut, NoRedRed;
  }

  lemma OuterReady(s: Shape, red: seq<bool>, bh: seq<int>, e: int, p: int, g: int)
    requires OuterCase(s, red, bh, e, p, g)
    ensures Node(s, red, bh, p) && Node(s, red, bh, g) && Node(s, red, bh, e) && p != g && s.far[g] == p
            && CanRotate(s, g, p)
  {
    KidOf(s, g);
    hide NodeOk, Heights, NoRedRed;
  }

  lemma OuterDone(s: Shape, s': Shape, red: seq<bool>, bh: seq<int>, e: int, p: int, g: int)
    requires OuterCase(s, red, bh, e, p, g) && Rotated(s, s', g, p)
    ensures Node(s, red, bh, p) && Node(s, red, bh, g) && e in s.mem && 0 <= e < |s'.parent|
    ensures Balanced(s', red[p := false][g := true], bh[p := bh[p] + 1][g := bh[p]])
    ensures s'.parent[e] == p && !IsRed(red[p := false][g := true], p)
  {
    hide NodeOk, Heights, NoRedRed, Balanced;
    InsertOuter(s, s', red, bh, e, p, g);
    KidOf(s, p);
    KidOf(s, g);
  }

  lemma SiblingReady(s: Shape, red: seq<bool>, bh: seq<int>, p: int)
    requires NearDeficit(s, red, bh, p) && IsRed(red, s.far[p])
    ensures var t := s.far[p]; Node(s, red, bh, p) && Node(s, red, bh, t) && p != t && CanRotate(s, p, t)
  {
    KidOf(s, p);
    hide NodeOk, Heights, NoRedRed;
  }

  lemma SiblingDone(s: Shape, s': Shape, red: seq<bool>, bh: seq<int>, p: int, t: int)
    requires NearDeficit(s, red, bh, p) && t == s.far[p] && IsRed(red, t) && Rotated(s, s', p, t)
    ensures Node(s, red, bh, p) && Node(s, red, bh, t) && 0 <= p < |s'.near| == |s'.far| && p != t
    ensures NearDeficit(s', red[t := false][p := true], bh[t := bh[p]][p := bh[t]], p) && Sizes(s')
    ensures s'.near[p] == s.near[p] && !IsRed(red[t := false][p := true], s'.far[p])
            && IsRed(red[t := false][p := true], p)
  {
    SiblingReady(s, red, bh, p);
    RedSiblingUp(s, s', red, bh, p, t);
    hide NodeOk, Heights, NoRedRed, HeightsBut, ShortNear;
  }

  /** The inner nephew o of a short near side, seen in the mirror image in which it is rotated up. */
  lemma InnerReady(s: Shape, red: seq<bool>, bh: seq<int>, p: int, t: int)
    requires NearDeficit(s, red, bh, p) && t == s.far[p] && t in s.mem && IsRed(red, s.near[t])
    ensures var o := s.near[t];
            && Node(s, red, bh, p) && Node(s, red, bh, t) && Node(s, red, bh, o) && t != o
            && CanRotate(Flip(s), t, o) && FarDeficit(Flip(s), red, bh, p)
  {
    KidOf(s, t);
    FlipDeficitBack(s, red, bh, p);
    hide NodeOk, Heights, NoRedRed, HeightsBut;
  }

  lemma InnerDone(s: Shape, s': Shape, red: seq<bool>, bh: seq<int>, p: int, t: int, o: int)
    requires NearDeficit(s, red, bh, p) && t == s.far[p] && t in s.mem && !IsRed(red, t)
    requires o == s.near[t] && IsRed(red, o) && !IsRed(red, s.far[t]) && Rotated(Flip(s), Flip(s'), t, o)
    ensures Node(s, red, bh, o) && Node(s, red, bh, t) && Node(s, red, bh, p)
    ensures 0 <= p < |s'.far| && 0 <= o < |s'.far|
    ensures var red', bh' := red[o := false][t := true], bh[o := bh[t]][t := bh[o]];
            && NearDeficit(s', red', bh', p) && Sizes(s')
            && s'.far[p] == o && o in s'.mem && !IsRed(red', o) && s'.far[o] == t && t in s'.mem && IsRed(red', t)
  {
    InnerReady(s, red, bh, p, t);
    var red', bh' := red[o := false][t := true], bh[o := bh[t]][t := bh[o]];
    InnerNephewUp(Flip(s), Flip(s'), red, bh, p, t, o);
    FlipDeficit(Flip(s'), red', bh', p);
    FlipFlip(s');
    hide NodeOk, Heights, NoRedRed, HeightsBut, ShortNear, ShortFar;
  }

  lemma NephewReady(s: Shape, red: seq<bool>, bh: seq<int>, p: int, t: int, w: int)
    requires NearDeficit(s, red, bh, p) && t == s.far[p] && t in s.mem && w == s.far[t] && w in s.mem
    ensures Node(s, red, bh, p) && Node(s, red, bh, t) && Node(s, red, bh, w) && p != t && t != w && p != w
    ensures CanRotate(s, p, t) && t != NULL && w != NULL
  {
    OuterNephewDistinct(s, p, t, w);
    KidOf(s, p);
    KidOf(s, t);
    hide NodeOk, Heights, NoRedRed, HeightsBut;
  }

  /** The sibling of a short side exists. */
  lemma Sibling(s: Shape, red: seq<bool>, bh: seq<int>, p: int)
    requires NearDeficit(s, red, bh, p)
    ensures var t := s.far[p];
            && t != NULL && t in s.mem
            && (s.near[t] != NULL ==> s.near[t] in s.mem)
            && (s.far[t] != NULL ==> s.far[t] in s.mem)
  {
    KidOf(s, p);
    KidOf(s, s.far[p]);
  }

  /** A red node with a red parent has a black grandparent; the sibling of the parent may be missing. */
  lemma Grandparent(s: Shape, red: seq<bool>, bh: seq<int>, e: int)
    requires Inserting(s, red, bh, e) && IsRed(red, s.parent[e])
    ensures var p := s.parent[e]; p in s.mem && s.parent[p] in s.mem && !IsRed(red, s.parent[p])
    ensures var p := s.parent[e]; var g := s.parent[p];
            && (s.near[g] == p || s.far[g] == p)
            && (s.near[g] != NULL ==> s.near[g] in s.mem)
            && (s.far[g] != NULL ==> s.far[g] in s.mem)
            && (s.near[p] == e || s.far[p] == e)
            && s.hi[e] - s.lo[e] < s.hi[g] - s.lo[g]
            && e != p && p != g && e != g
            && (s.near[g] == p ==> s.far[g] != p)
  {
    var p := s.parent[e];
    assert NodeOk(s, e);
    assert NodeOk(s, p);
    assert RedAt(s, red, p);
    assert NodeOk(s, s.parent[p]);
  }

  lemma RootAlreadyBlack(s: Shape, red: seq<bool>, bh: seq<int>, n: int)
    requires Balanced(s, red, bh) && n in s.mem
    ensures s.root in s.mem && !red[s.root] && red[s.root := false] == red
  {
    RootIn(s, n);
    assert red[s.root := false] == red;
  }

  /** Blackening a red root is harmless. */
  lemma BlackenRoot(s: Shape, red: seq<bool>, bh: seq<int>, e: int)
    requires Inserting(s, red, bh, e) && !IsRed(red, s.parent[e])
    ensures s.root in s.mem
    ensures Balanced(s, red[s.root := false], if red[s.root] then bh[s.root := bh[s.root] + 1] else bh)
  {
    RootIn(s, e);
    var red', bh' := red[s.root := false], if red[s.root] then bh[s.root := bh[s.root] + 1] else bh;
    KidOf(s, s.root);
    forall n | n in s.mem
      ensures HeightAt(s, red', bh', n) && RedAt(s, red', n)
    {
      KidOf(s, n);
      assert HeightAt(s, red, bh, n);
      assert n != e ==> RedAt(s, red, n);
    }
  }

  lemma GrownBalanced(s: Shape, s': Shape, red: seq<bool>, red': seq<bool>, bh: seq<int>, bh': seq<int>)
    requires Balanced(s, red, bh) && Grown(s, s') && |red'| == |bh'| == |s'.pos|
    requires red <= red' && bh <= bh'
    ensures Balanced(s', red', bh')
  {
    GrownLinked(s, s');
    forall n | n in s'.mem
      ensures HeightAt(s', red', bh', n) && RedAt(s', red', n)
    {
      KidOf(s, n);
      assert HeightAt(s, red, bh, n) && RedAt(s, red, n);
    }
  }

  lemma OneMoreBalanced(s: Shape, red: seq<bool>, bh: seq<int>)
    requires Balanced(s, red, bh)
    ensures Balanced(OneMore(s), red + [false], bh + [0])
  {
    OneMoreGrown(s);
    GrownBalanced(s, OneMore(s), red, red + [false], bh, bh + [0]);
  }

  /** A tree without members, whatever cells there are. */
  lemma EmptyBalanced(s: Shape, red: seq<bool>, bh: seq<int>)
    requires Sizes(s) && s.mem == {} && s.first == s.last && s.root == NULL && |red| == |bh| == |s.pos|
    ensures Balanced(s, red, bh)
  {
  }
}
