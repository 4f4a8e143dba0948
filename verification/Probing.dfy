/**
 The probe sequence of the hash table: from a hash value `h`, step `k` looks at
 bucket `h + k*(k+1)/2` modulo the (power of two) number of buckets.

 The table advances incrementally, `i = (i + ++step) & mask`; the lemmas here
 give the closed form of that walk, show that its first n positions are all
 different (so they are all the buckets), and that it comes back to its
 starting bucket for the first time at step 2n - 1.
 */
module Probing {

  /** n is 1, 2, 4, 8, ... */
  predicate IsPow2(n: nat)
  {
    n == 1 || (n > 1 && n % 2 == 0 && IsPow2(n / 2))
  }

  /** The k-th triangular number, as the sum the walk accumulates. */
  function Tri(k: nat): (t: nat)
  {
    if k == 0 then 0 else Tri(k - 1) + k
  }

  /** The bucket looked at in step k. */
  function Pos(h: nat, k: nat, n: nat): (i: nat)
    requires n > 0
    ensures i < n
  {
    (h + Tri(k)) % n
  }

  lemma PosStart(h: nat, n: nat)
    requires n > 0
    ensures Pos(h, 0, n) == h % n
  {
  }

  lemma {:induction false} TriClosed(k: nat)
    ensures 2 * Tri(k) == k * (k + 1)
  {
    if k > 0 {
      TriClosed(k - 1);
    }
  }

  /** Reducing modulo n early does not change the bucket of the next step. */
  lemma ModStep(a: nat, b: nat, n: nat)
    requires n > 0
    ensures (a % n + b) % n == (a + b) % n
  {
    var q := a / n;
    assert a == q * n + a % n;
    ModShift(a % n + b, q, n);
  }

  lemma {:induction false} ModShift(x: int, q: nat, n: nat)
    requires n > 0
    ensures (x + q * n) % n == x % n
  {
    if q > 0 {
      ModShift(x, q - 1, n);
      assert x + q * n == x + (q - 1) * n + n;
      ModAddOnce(x + (q - 1) * n, n);
    }
  }

  lemma ModAddOnce(x: int, n: nat)
    requires n > 0
    ensures (x + n) % n == x % n
  {
    var q, r := x / n, x % n;
    assert x + n == (q + 1) * n + r;
    ModUnique(x + n, q + 1, r, n);
  }

  /** A multiple of n strictly between -n and n is 0. */
  lemma MultipleSmall(d: int, n: int)
    requires 0 < n && -n < d * n < n
    ensures d == 0
  {
    if d >= 1 {
      MulAtLeast(d, n);
    } else if d <= -1 {
      MulAtLeast(-d, n);
    }
  }

  lemma {:induction false} MulAtLeast(d: int, n: int)
    requires d >= 1 && n >= 0
    ensures d * n >= n
  {
    if d > 1 {
      MulAtLeast(d - 1, n);
      assert d * n == (d - 1) * n + n;
    }
  }

  lemma ModUnique(x: int, q: int, r: int, n: nat)
    requires n > 0 && 0 <= r < n && x == q * n + r
    ensures x % n == r && x / n == q
  {
    var d := q - x / n;
    assert d * n == x % n - r;
    MultipleSmall(d, n);
  }

  /** The incremental update of the walk computes the closed form. */
  lemma PosNext(h: nat, k: nat, n: nat)
    requires n > 0
    ensures Pos(h, k + 1, n) == (Pos(h, k, n) + (k + 1)) % n
  {
    ModStep(h + Tri(k), k + 1, n);
  }

  /** A power of two that divides a*b with b odd divides a. */
  lemma {:induction false} Pow2DividesFactor(p: nat, q: int, a: int, b: int)
    requires IsPow2(p)
    requires a * b == q * p
    requires b % 2 == 1
    ensures a % p == 0
    decreases p
  {
    if p == 1 {
    } else {
      var p' := p / 2;
      assert p == 2 * p';
      assert a * b == 2 * (q * p');
      var c := b / 2;
      assert b == 2 * c + 1;
      assert a == 2 * (q * p' - a * c);
      var a' := q * p' - a * c;
      assert a == 2 * a';
      assert a' * b == q * p' by {
        assert (2 * a') * b == 2 * (a' * b);
      }
      Pow2DividesFactor(p', q, a', b);
      var d := a' / p';
      assert a' == d * p';
      assert a == d * p;
      ModUnique(a, d, 0, p);
    }
  }

  /** No multiple of p lies strictly between 0 and p. */
  lemma NotMultiple(x: int, p: nat)
    requires 0 < x < p
    ensures x % p == x != 0
  {
    ModUnique(x, 0, x, p);
  }

  lemma DoublePow2(n: nat)
    requires IsPow2(n)
    ensures IsPow2(2 * n)
  {
  }

  /** If a*(b) == 2n*q with exactly one odd factor and both factors below 2n, nonsense. */
  lemma ProductNotMultiple(n: nat, q: int, a: int, b: int)
    requires IsPow2(n)
    requires 0 < a < 2 * n && 0 < b < 2 * n
    requires a % 2 != b % 2
    ensures a * b != q * (2 * n)
  {
    if a * b == q * (2 * n) {
      DoublePow2(n);
      if b % 2 == 1 {
        Pow2DividesFactor(2 * n, q, a, b);
        NotMultiple(a, 2 * n);
      } else {
        assert b * a == a * b;
        Pow2DividesFactor(2 * n, q, b, a);
        NotMultiple(b, 2 * n);
      }
    }
  }

  /** Equal residues differ by a multiple. */
  lemma EqualMod(x: int, y: int, n: nat) returns (q: int)
    requires n > 0 && x % n == y % n
    ensures x - y == q * n
  {
    q := x / n - y / n;
    assert x == (x / n) * n + x % n;
    assert y == (y / n) * n + y % n;
  }

  /** The difference of two triangular numbers, as a product of two factors. */
  lemma GapProduct(i: int, j: int, ti: int, tj: int, q: int, n: int)
    requires 2 * ti == i * (i + 1) && 2 * tj == j * (j + 1)
    requires tj - ti == q * n
    ensures (j - i) * (j + i + 1) == q * (2 * n)
  {
    calc {
      (j - i) * (j + i + 1);
      j * (j + 1) - i * (i + 1);
      2 * (q * n);
      q * (2 * n);
    }
  }

  /** Two triangular numbers with indices i < j < n never differ by a multiple of n. */
  lemma NoMultipleGap(i: nat, j: nat, q: int, n: nat)
    requires IsPow2(n) && i < j && i + j + 1 < 2 * n
    ensures Tri(j) - Tri(i) != q * n
  {
    hide Tri, IsPow2;
    if Tri(j) - Tri(i) == q * n {
      TriClosed(i);
      TriClosed(j);
      GapProduct(i, j, Tri(i), Tri(j), q, n);
      ProductNotMultiple(n, q, j - i, j + i + 1);
    }
  }

  /** The first n positions of a walk are pairwise different. */
  lemma PositionsDistinct(h: nat, i: nat, j: nat, n: nat)
    requires IsPow2(n)
    requires i < j < n
    ensures Pos(h, i, n) != Pos(h, j, n)
  {
    if Pos(h, i, n) == Pos(h, j, n) {
      var q := EqualMod(h + Tri(j), h + Tri(i), n);
      NoMultipleGap(i, j, q, n);
    }
  }

  /** A walk is back at its starting bucket at step 2n - 1 and at no earlier step. */
  lemma FirstReturn(h: nat, k: nat, n: nat)
    requires IsPow2(n)
    requires 0 < k <= 2 * n - 1
    ensures Pos(h, k, n) == Pos(h, 0, n) <==> k == 2 * n - 1
  {
    if k == 2 * n - 1 {
      TriClosed(k);
      assert 2 * Tri(k) == (2 * n - 1) * (2 * n);
      assert (2 * n - 1) * (2 * n) == 2 * ((2 * n - 1) * n);
      ModShift(h, 2 * n - 1, n);
    } else if Pos(h, k, n) == Pos(h, 0, n) {
      var q := EqualMod(h + Tri(k), h, n);
      NoMultipleGap(0, k, q, n);
    }
  }

  /** The buckets seen in the first k steps. */
  ghost function Seen(h: nat, k: nat, n: nat): (s: set<nat>)
    requires n > 0
  {
    if k == 0 then {} else Seen(h, k - 1, n) + {Pos(h, k - 1, n)}
  }

  lemma {:induction false} SeenFacts(h: nat, k: nat, n: nat)
    requires IsPow2(n) && k <= n
    ensures |Seen(h, k, n)| == k
    ensures forall i: nat :: i in Seen(h, k, n) ==> i < n
    ensures forall i: nat :: i in Seen(h, k, n) ==> exists j: nat :: j < k && Pos(h, j, n) == i
    decreases k
  {
    if k > 0 {
      SeenFacts(h, k - 1, n);
      if Pos(h, k - 1, n) in Seen(h, k - 1, n) {
        var j: nat :| j < k - 1 && Pos(h, j, n) == Pos(h, k - 1, n);
        PositionsDistinct(h, j, k - 1, n);
      }
    }
  }

  ghost function Below(n: nat): (s: set<nat>)
    ensures |s| == n
    ensures forall i: nat :: i in s <==> i < n
  {
    if n == 0 then {} else Below(n - 1) + {n - 1}
  }

  lemma FullSubset<T>(a: set<T>, b: set<T>)
    requires a <= b && |a| == |b|
    ensures a == b
  {
    if x :| x in b && x !in a {
      assert a <= b - {x};
      SubsetSize(a, b - {x});
    }
  }

  lemma {:induction false} SubsetSize<T>(a: set<T>, b: set<T>)
    requires a <= b
    ensures |a| <= |b|
  {
    if x :| x in a {
      SubsetSize(a - {x}, b - {x});
    }
  }

  /** Every bucket is one of the first n positions, whatever the start. */
  lemma StepOf(h: nat, i: nat, n: nat) returns (k: nat)
    requires IsPow2(n) && i < n
    ensures k < n && Pos(h, k, n) == i
  {
    SeenFacts(h, n, n);
    FullSubset(Seen(h, n, n), Below(n));
    assert i in Seen(h, n, n);
    k :| k < n && Pos(h, k, n) == i;
  }
}
