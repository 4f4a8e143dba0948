/**
 What a wake and a requeue do to a wait queue, on values. Entries are numbers;
 `hit` is the set of those whose bit set a wake matches. A count that starts
 below zero never reaches zero and so does not limit.
 */
module FutexQueues {
  import opened Lists
  import opened Probing

  function Woken(q: seq<int>, hit: set<int>, n: int): (w: seq<int>) {
    if q == [] || n == 0 then []
    else if q[0] in hit then [q[0]] + Woken(q[1..], hit, n - 1)
    else Woken(q[1..], hit, n)
  }

  function Rest(q: seq<int>, hit: set<int>, n: int): (r: seq<int>) {
    if q == [] || n == 0 then q
    else if q[0] in hit then Rest(q[1..], hit, n - 1)
    else [q[0]] + Rest(q[1..], hit, n)
  }

  // ---- bit sets ----------------------------------------------------------

  predicate HasBit(x: bv32, j: bv5) {
    (x >> j) & 1 == 1
  }

  /** Two bit sets have a bit in common. */
  ghost predicate Share(a: bv32, b: bv32) {
    exists j: bv5 :: HasBit(a, j) && HasBit(b, j)
  }

  lemma SomeBit(x: bv32)
    requires x != 0
    ensures HasBit(x, 0) || HasBit(x, 1) || HasBit(x, 2) || HasBit(x, 3) || HasBit(x, 4) || HasBit(x, 5)
            || HasBit(x, 6) || HasBit(x, 7) ||
            HasBit(x, 8) || HasBit(x, 9) || HasBit(x, 10) || HasBit(x, 11) || HasBit(x, 12) || HasBit(x, 13)
                || HasBit(x, 14) || HasBit(x, 15) ||
            HasBit(x, 16) || HasBit(x, 17) || HasBit(x, 18) || HasBit(x, 19) || HasBit(x, 20) || HasBit(x, 21)
                || HasBit(x, 22) || HasBit(x, 23) ||
            HasBit(x, 24) || HasBit(x, 25) || HasBit(x, 26) || HasBit(x, 27) || HasBit(x, 28) || HasBit(x, 29)
                || HasBit(x, 30) || HasBit(x, 31)
  {
  }

  lemma BitOfBoth(a: bv32, b: bv32, j: bv5)
    ensures HasBit(a & b, j) <==> HasBit(a, j) && HasBit(b, j)
  {
  }

  lemma NoBit(j: bv5)
    ensures !HasBit(0, j)
  {
  }

  lemma ABit(x: bv32) returns (j: bv5)
    requires x != 0
    ensures HasBit(x, j)
  {
    SomeBit(x);
    hide HasBit;
    j :| HasBit(x, j);
  }

  /** The test of the code. */
  predicate Overlap(a: bv32, b: bv32) {
    a & b != 0
  }

  /** It holds exactly when there is a common bit. */
  lemma ShareIff(a: bv32, b: bv32)
    ensures Overlap(a, b) <==> Share(a, b)
  {
    hide HasBit;
    if Overlap(a, b) {
      var j := ABit(a & b);
      BitOfBoth(a, b, j);
    } else {
      forall j: bv5
        ensures !(HasBit(a, j) && HasBit(b, j))
      {
        BitOfBoth(a, b, j);
        NoBit(j);
      }
    }
  }

  /** Every bit set but the empty one has a bit in common with the full one. */
  lemma ShareAny(b: bv32)
    ensures Share(0xffff_ffff, b) <==> b != 0
  {
    ShareIff(0xffff_ffff, b);
    AllBits(b);
  }

  lemma AllBits(b: bv32)
    ensures 0xffff_ffff & b == b
  {
  }

  /** The entries of a queue that are in a set, in queue order. */
  function Only(q: seq<int>, s: set<int>): (r: seq<int>) {
    if q == [] then []
    else if q[0] in s then [q[0]] + Only(q[1..], s)
    else Only(q[1..], s)
  }

  /** The entries of a queue that are not in a set, in queue order. */
  function Except(q: seq<int>, s: set<int>): (r: seq<int>) {
    if q == [] then []
    else if q[0] in s then Except(q[1..], s)
    else [q[0]] + Except(q[1..], s)
  }

  /** How many of m a count of n lets through. */
  function Upto(n: int, m: nat): (k: nat)
    ensures k <= m && (n < 0 ==> k == m) && (0 <= n ==> k <= n)
  {
    if 0 <= n < m then n else m
  }

  /** The lesser of the two, unless there is no limit. */
  lemma UptoIs(n: int, m: nat)
    ensures Upto(n, m) == if n < 0 || m <= n then m else n
  {
  }

  /**
   A wake takes the first matching entries, as many as the count allows, and
   leaves the later matching ones and all others in their order.
   */
  lemma {:induction false} WakesFirst(q: seq<int>, hit: set<int>, n: int)
    ensures var k := Upto(n, |Only(q, hit)|);
            && Woken(q, hit, n) == Only(q, hit)[..k]
            && Only(Rest(q, hit, n), hit) == Only(q, hit)[k..]
            && Except(Rest(q, hit, n), hit) == Except(q, hit)
  {
    var k, all := Upto(n, |Only(q, hit)|), Only(q, hit);
    if q == [] || n == 0 {
      assert all[..k] == [] && all[k..] == all;
    } else {
      var t := q[1..];
      var n' := if q[0] in hit then n - 1 else n;
      WakesFirst(t, hit, n');
      var k', all' := Upto(n', |Only(t, hit)|), Only(t, hit);
      if q[0] in hit {
        assert all == [q[0]] + all' && k == k' + 1;
        assert all[..k] == [q[0]] + all'[..k'] && all[k..] == all'[k'..];
      } else {
        OnlySkips(q[0], Rest(t, hit, n), hit);
      }
    }
  }

  lemma OnlySkips(x: int, r: seq<int>, hit: set<int>)
    requires x !in hit
    ensures Only([x] + r, hit) == Only(r, hit) && Except([x] + r, hit) == [x] + Except(r, hit)
  {
    assert ([x] + r)[1..] == r;
  }

  /** All woken entries match, and if the count was not used up, no matching one is left. */
  lemma WakeMeans(q: seq<int>, hit: set<int>, n: int)
    ensures forall i :: 0 <= i < |Woken(q, hit, n)| ==> Woken(q, hit, n)[i] in hit
    ensures n < 0 || |Woken(q, hit, n)| < n ==> forall i :: 0 <= i < |Rest(q, hit, n)| ==> Rest(q, hit, n)[i] !in hit
  {
    hide Woken, Rest, Only, Upto;
    WakesFirst(q, hit, n);
    UptoIs(n, |Only(q, hit)|);
    var w, r := Woken(q, hit, n), Rest(q, hit, n);
    forall i | 0 <= i < |w|
      ensures w[i] in hit
    {
      OnlyIn(q, hit, i);
    }
    if n < 0 || |w| < n {
      assert Only(r, hit) == [];
      NoneOnly(r, hit);
    }
  }

  lemma {:induction false} OnlyIn(q: seq<int>, s: set<int>, i: int)
    requires 0 <= i < |Only(q, s)|
    ensures Only(q, s)[i] in s
  {
    if q != [] {
      if q[0] in s {
        if i > 0 {
          OnlyIn(q[1..], s, i - 1);
        }
      } else {
        OnlyIn(q[1..], s, i);
      }
    }
  }

  lemma {:induction false} NoneOnly(q: seq<int>, s: set<int>)
    requires Only(q, s) == []
    ensures forall i :: 0 <= i < |q| ==> q[i] !in s
  {
    if q != [] {
      NoneOnly(q[1..], s);
      assert q == [q[0]] + q[1..];
    }
  }

  lemma WakeCount(q: seq<int>, hit: set<int>, n: int)
    ensures n >= 0 ==> |Woken(q, hit, n)| <= n
  {
    hide Woken, Only;
    WakesFirst(q, hit, n);
  }

  /** No entry is lost or duplicated. */
  lemma {:induction false} WakeConserves(q: seq<int>, hit: set<int>, n: int)
    ensures multiset(Woken(q, hit, n)) + multiset(Rest(q, hit, n)) == multiset(q)
  {
    if q != [] && n != 0 {
      WakeConserves(q[1..], hit, if q[0] in hit then n - 1 else n);
      assert q == [q[0]] + q[1..];
    }
  }

  /** A wake that every entry matches takes a prefix. */
  lemma {:induction false} WakesPrefix(q: seq<int>, hit: set<int>, n: int)
    requires forall i :: 0 <= i < |q| ==> q[i] in hit
    ensures var k := Upto(n, |q|); Woken(q, hit, n) == q[..k] && Rest(q, hit, n) == q[k..]
  {
    if q != [] && n != 0 {
      WakesPrefix(q[1..], hit, n - 1);
    }
  }

  // ---- a queue requeued onto itself ------------------------------------

  /** The first entry goes to the end, n times. */
  function Rotated(q: seq<int>, n: nat): (r: seq<int>)
    ensures |r| == |q|
    decreases n
  {
    if q == [] || n == 0 then q else Rotated(q[1..] + [q[0]], n - 1)
  }

  lemma {:induction false} RotatedConserves(q: seq<int>, n: nat)
    ensures multiset(Rotated(q, n)) == multiset(q)
    decreases n
  {
    if q != [] && n != 0 {
      RotatedConserves(q[1..] + [q[0]], n - 1);
      assert q == [q[0]] + q[1..];
    }
  }

  lemma Slices(q: seq<int>, w: nat, k: nat)
    requires w + k <= |q|
    ensures q[w..][..k] == q[w..w + k] && q[w..][k..] == q[w + k..]
  {
  }

  /** A queue cut at k, its two parts exchanged. */
  function CutAt(q: seq<int>, k: nat): (r: seq<int>)
    requires k <= |q|
  {
    q[k..] + q[..k]
  }

  lemma CutNext(q: seq<int>, k: nat)
    requires k < |q|
    ensures CutAt(q[1..] + [q[0]], k) == CutAt(q, if k + 1 == |q| then 0 else k + 1)
  {
    CutNone(q);
  }

  lemma NextRemainder(n: nat, m: nat)
    requires m > 0
    ensures (n + 1) % m == if n % m + 1 == m then 0 else n % m + 1
  {
    var q, k := n / m, n % m;
    if k + 1 == m {
      assert n + 1 == (q + 1) * m;
      ModUnique(n + 1, q + 1, 0, m);
    } else {
      assert n + 1 == q * m + (k + 1);
      ModUnique(n + 1, q, k + 1, m);
    }
  }

  /** Only the remainder of n by the length counts: the queue is cut there and its parts change places. */
  lemma {:induction false} RotatedParts(q: seq<int>, n: nat)
    requires q != []
    ensures Rotated(q, n) == CutAt(q, n % |q|)
    decreases n
  {
    hide CutAt;
    if n == 0 {
      CutNone(q);
    } else {
      RotatedParts(q[1..] + [q[0]], n - 1);
      CutNext(q, (n - 1) % |q|);
      NextRemainder(n - 1, |q|);
    }
  }

  lemma CutNone(q: seq<int>)
    ensures CutAt(q, 0) == q
  {
  }

  /**
   How many moves a requeue onto its own list makes. The loop saves the
   successor before it moves an entry: after a single entry that is the head, so
   the loop ends, and with two or more entries only the limit ends it.
   */
  function Turns(q: seq<int>, n: int): (k: nat)
    requires |q| >= 2 ==> n >= 0
  {
    if |q| < 2 then Upto(n, |q|) else n
  }

  // ---- entries occur once ----------------------------------------------

  lemma {:induction false} DistinctCount(q: seq<int>, e: int)
    requires Distinct(q)
    ensures multiset(q)[e] <= 1
  {
    if q != [] {
      DistinctCount(q[1..], e);
      assert q == [q[0]] + q[1..];
      assert q[0] !in q[1..];
      assert q[0] !in multiset(q[1..]);
    }
  }

  lemma TwiceCount(q: seq<int>, i: int, j: int)
    requires 0 <= i < j < |q| && q[i] == q[j]
    ensures multiset(q)[q[i]] >= 2
  {
    assert q == q[..j] + q[j..];
    assert q[..j][i] in multiset(q[..j]) && q[j..][0] in multiset(q[j..]);
  }

  /** A part of a queue without repetition has none either, and only elements of the queue. */
  lemma PartOf(q: seq<int>, part: seq<int>, rest: seq<int>)
    requires Distinct(q) && multiset(rest) + multiset(part) == multiset(q)
    ensures Distinct(part) && forall i :: 0 <= i < |part| ==> part[i] in q
  {
    forall i, j | 0 <= i < j < |part|
      ensures part[i] != part[j]
    {
      if part[i] == part[j] {
        TwiceCount(part, i, j);
        DistinctCount(q, part[i]);
      }
    }
    forall i | 0 <= i < |part|
      ensures part[i] in q
    {
      assert part[i] in multiset(part);
      assert part[i] in multiset(q);
    }
  }
}
