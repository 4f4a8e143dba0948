/**
 The wait queues of private futexes: a hash table from guest addresses to list
 heads, made on demand and never deleted, and the entries threaded on the lists.
 */
module Futex {
  import opened Common
  import opened FutexQueues
  import HashTable
  import opened Lists

  const EINVAL: int := 22
  const EFAULT: int := 14
  const EAGAIN: int := 11

  datatype Entry = Entry(uaddr: int, bitset: bv32)

  /** The head of a list, which is no entry. */
  const HEAD: int := -1

  /** What follows an element or the head on a circular list. */
  function Successor(q: seq<int>, p: int): (n: int)
    requires p == HEAD || p in q
  {
    if p == HEAD then if q == [] then HEAD else q[0]
    else if IndexOf(q, p) + 1 < |q| then q[IndexOf(q, p) + 1]
    else HEAD
  }

  /** The queue of an address, through the table's map and the list heads. */
  function QueueOf(heads: map<int, int>, lists: seq<seq<int>>, u: int): (q: seq<int>) {
    if u in heads && 0 <= heads[u] < |lists| then lists[heads[u]] else []
  }

  /** Every address has a list head of its own. */
  ghost predicate OwnHeads(heads: map<int, int>, lists: seq<seq<int>>) {
    && (forall u :: u in heads ==> 0 <= heads[u] < |lists|)
    && (forall u, v :: u in heads && v in heads && u != v ==> heads[u] != heads[v])
  }

  /** The entries of a queue exist, are those of its address, and occur once. */
  ghost predicate HomeQueue(q: seq<int>, entries: seq<Entry>, u: int) {
    Distinct(q) && forall i :: 0 <= i < |q| ==> 0 <= q[i] < |entries| && entries[q[i]].uaddr == u
  }

  ghost predicate AtHome(heads: map<int, int>, lists: seq<seq<int>>, entries: seq<Entry>) {
    forall u {:trigger QueueOf(heads, lists, u)} :: HomeQueue(QueueOf(heads, lists, u), entries, u)
  }

  lemma HeadsDiffer(heads: map<int, int>, lists: seq<seq<int>>, u: int, v: int)
    requires OwnHeads(heads, lists) && u in heads && v in heads && u != v
    ensures heads[u] != heads[v] && 0 <= heads[u] < |lists| && 0 <= heads[v] < |lists|
  {
  }

  /** Replacing one list changes one queue. */
  lemma OneQueue(heads: map<int, int>, lists: seq<seq<int>>, u: int, l: seq<int>, v: int)
    requires OwnHeads(heads, lists) && u in heads
    ensures OwnHeads(heads, lists[heads[u] := l])
    ensures QueueOf(heads, lists[heads[u] := l], v) == if v == u then l else QueueOf(heads, lists, v)
  {
  }

  /** A new, empty list changes no queue. */
  lemma NewQueue(heads: map<int, int>, lists: seq<seq<int>>, u: int, v: int)
    requires OwnHeads(heads, lists) && u !in heads
    ensures OwnHeads(heads[u := |lists|], lists + [[]])
    ensures QueueOf(heads[u := |lists|], lists + [[]], v) == QueueOf(heads, lists, v)
  {
  }

  predicate Match(entry: Entry, useBitset: bool, bitset: bv32) {
    useBitset ==> Overlap(entry.bitset, bitset)
  }

  /** The entries that a wake matches. */
  ghost function Matching(entries: seq<Entry>, useBitset: bool, bitset: bv32): (hit: set<int>) {
    set e | 0 <= e < |entries| && Match(entries[e], useBitset, bitset)
  }

  /**
   What a match is: with a bit set, a common bit, so that an entry queued without
   one is matched by every bit set but the empty one; without, always.
   */
  lemma MatchingMeans(entries: seq<Entry>, bitset: bv32, e: int)
    requires 0 <= e < |entries|
    ensures e in Matching(entries, true, bitset) <==> Share(entries[e].bitset, bitset)
    ensures entries[e].bitset == MATCH_ANY ==> (e in Matching(entries, true, bitset) <==> bitset != 0)
    ensures e in Matching(entries, false, bitset)
  {
    hide Share, Overlap;
    ShareIff(entries[e].bitset, bitset);
    ShareAny(bitset);
  }

  /** Who is woken and who is left, by the bits. */
  lemma WakeByBits(q: seq<int>, entries: seq<Entry>, bitset: bv32, n: int)
    requires forall i :: 0 <= i < |q| ==> 0 <= q[i] < |entries|
    ensures var hit := Matching(entries, true, bitset);
            && (forall i :: 0 <= i < |Woken(q, hit, n)| ==>
                  var e := Woken(q, hit, n)[i]; 0 <= e < |entries| && Share(entries[e].bitset, bitset))
            && (n < 0 || |Woken(q, hit, n)| < n ==>
                  forall i :: 0 <= i < |Rest(q, hit, n)| ==>
                    var e := Rest(q, hit, n)[i]; 0 <= e < |entries| && !Share(entries[e].bitset, bitset))
  {
    hide Woken, Rest, Share, Match;
    var hit := Matching(entries, true, bitset);
    var w, r := Woken(q, hit, n), Rest(q, hit, n);
    WakeMeans(q, hit, n);
    WakeConserves(q, hit, n);
    forall i | 0 <= i < |w|
      ensures 0 <= w[i] < |entries| && Share(entries[w[i]].bitset, bitset)
    {
      MatchingMeans(entries, bitset, w[i]);
    }
    forall i | 0 <= i < |r|
      ensures 0 <= r[i] < |entries| && (r[i] in hit <==> Share(entries[r[i]].bitset, bitset))
    {
      assert r[i] in multiset(r) && r[i] in multiset(q);
      MatchingMeans(entries, bitset, r[i]);
    }
  }

  /** A wake without a bit set whose count is not used up leaves nobody. */
  lemma WakeAll(q: seq<int>, entries: seq<Entry>, bitset: bv32, n: int)
    requires forall i :: 0 <= i < |q| ==> 0 <= q[i] < |entries|
    ensures var hit := Matching(entries, false, bitset);
            n < 0 || |Woken(q, hit, n)| < n ==> Rest(q, hit, n) == []
  {
    hide Woken, Rest, Match;
    var hit := Matching(entries, false, bitset);
    forall i | 0 <= i < |q|
      ensures q[i] in hit
    {
      MatchingMeans(entries, bitset, q[i]);
    }
    WakesPrefix(q, hit, n);
  }

  class Futexes {
    const table: HashTable.Table<int, int>
    var lists: seq<seq<int>>
    var entries: seq<Entry>
    var signals: seq<int>

    ghost predicate Valid()
      reads this, table, table.flags, table.keys, table.vals
    {
      && table.Valid() && table.NoTombstones()
      && OwnHeads(table.Model(), lists) && AtHome(table.Model(), lists, entries)
    }

    ghost function Queue(u: int): (q: seq<int>)
      reads this, table, table.flags, table.keys, table.vals
      requires table.Valid()
    {
      QueueOf(table.Model(), lists, u)
    }

    constructor (hash: int -> nat)
      ensures Valid() && fresh(table) && fresh(table.flags) && fresh(table.keys) && fresh(table.vals)
      ensures entries == [] && signals == [] && forall u :: Queue(u) == []
    {
      table := new HashTable.Table<int, int>(hash);
      lists, entries, signals := [], [], [];
    }

    /**
     pfutex_get: the list head of an address, made if there is none. Since no
     key is ever deleted, a new key never lands on a tombstone: its assertion on
     the table's return code cannot fail.
     */
    method Head(u: int) returns (l: int)
      requires Valid() && table.nBuckets < HashTable.MAX_BUCKETS
      modifies this`lists, table, table.flags, table.keys, table.vals
      ensures Valid() && table.Model() == old(table.Model())[u := l] && 0 <= l < |lists|
      ensures forall v :: Queue(v) == old(Queue(v))
      ensures table.nBuckets <= 2 * old(table.nBuckets) + 4
      ensures table.flags == old(table.flags) || fresh(table.flags)
      ensures table.keys == old(table.keys) || fresh(table.keys)
      ensures table.vals == old(table.vals) || fresh(table.vals)
    {
      hide QueueOf, HashTable.WellFormed, HashTable.Values, HashTable.NoneDeleted, HashTable.MeetsTombstone,
           HashTable.NewSlot, HashTable.Live;
      ghost var heads0, lists0 := table.Model(), lists;
      var x, ret := table.Put(u);
      assert ret != -1;
      if ret != 0 {
        assert ret == 1;
        l := |lists|;
        lists := lists + [[]];
        table.SetValue(x, l);
        assert table.Model() == heads0[u := l];
        NewHead(heads0, lists0, entries, u);
      }
      l := table.vals[x];
    }

    /** A wake, by the functions of its queue. */
    method WakeQueue(u: int, n: int, useBitset: bool, bitset: bv32) returns (ret: int)
      requires Valid() && table.nBuckets < HashTable.MAX_BUCKETS
      modifies this`lists, this`signals, table, table.flags, table.keys, table.vals
      ensures Valid()
      ensures var hit := Matching(entries, useBitset, bitset);
              && Queue(u) == Rest(old(Queue(u)), hit, n)
              && signals == old(signals) + Woken(old(Queue(u)), hit, n)
              && ret == |Woken(old(Queue(u)), hit, n)|
      ensures forall v :: v != u ==> Queue(v) == old(Queue(v))
      ensures table.nBuckets <= 2 * old(table.nBuckets) + 4
      ensures table.flags == old(table.flags) || fresh(table.flags)
      ensures table.keys == old(table.keys) || fresh(table.keys)
      ensures table.vals == old(table.vals) || fresh(table.vals)
    {
      hide HashTable.WellFormed, HashTable.Values, HashTable.NoneDeleted, AtHome;
      var l := Head(u);
      ghost var lists0, q0 := lists, lists[l];
      ghost var hit := Matching(entries, useBitset, bitset);
      QueueHome(table.Model(), lists, entries, u);
      var list, woken := Scan(lists[l], n, useBitset, bitset);
      WakeConserves(q0, hit, n);
      PartOf(q0, list, woken);
      ReplaceHome(table.Model(), lists, entries, u, list);
      signals := signals + woken;
      lists := lists[l := list];
      ret := |woken|;
      forall v
        ensures Queue(v) == if v == u then list else old(Queue(v))
      {
        OneQueue(table.Model(), lists0, u, list, v);
      }
    }

    /** do_private_futex_wake: takes the first matching entries off the queue, in order, and signals them. */
    method Wake(u: int, n: int, useBitset: bool, bitset: bv32) returns (ret: int)
      requires Valid() && table.nBuckets < HashTable.MAX_BUCKETS
      modifies this`lists, this`signals, table, table.flags, table.keys, table.vals
      ensures Valid()
      ensures var hit := Matching(entries, useBitset, bitset);
              && Queue(u) == Rest(old(Queue(u)), hit, n)
              && signals == old(signals) + Woken(old(Queue(u)), hit, n)
              && ret == |Woken(old(Queue(u)), hit, n)|
      ensures ret == |signals| - |old(signals)| && (n >= 0 ==> ret <= n)
      ensures useBitset ==> forall k :: |old(signals)| <= k < |signals| ==>
                0 <= signals[k] < |entries| && Share(entries[signals[k]].bitset, bitset)
      ensures useBitset && (n < 0 || ret < n) ==> forall i :: 0 <= i < |Queue(u)| ==>
                0 <= Queue(u)[i] < |entries| && !Share(entries[Queue(u)[i]].bitset, bitset)
      ensures !useBitset && (n < 0 || ret < n) ==> Queue(u) == []
      ensures forall v :: v != u ==> Queue(v) == old(Queue(v))
      ensures table.nBuckets <= 2 * old(table.nBuckets) + 4
      ensures table.flags == old(table.flags) || fresh(table.flags)
      ensures table.keys == old(table.keys) || fresh(table.keys)
      ensures table.vals == old(table.vals) || fresh(table.vals)
    {
      hide HashTable.WellFormed, HashTable.Values, HashTable.NoneDeleted, AtHome, OwnHeads, QueueOf, Matching, Woken,
           Rest,
           Share;
      HomeIds(table.Model(), lists, entries, u);
      WakeByBits(Queue(u), entries, bitset, n);
      WakeAll(Queue(u), entries, bitset, n);
      WakeCount(Queue(u), Matching(entries, useBitset, bitset), n);
      ret := WakeQueue(u, n, useBitset, bitset);
    }

    /** The loop of a wake: along the list, unlinking the entry at hand when it matches. */
    method Scan(q: seq<int>, n: int, useBitset: bool, bitset: bv32) returns (list: seq<int>, woken: seq<int>)
      requires forall i :: 0 <= i < |q| ==> 0 <= q[i] < |entries|
      ensures list == Rest(q, Matching(entries, useBitset, bitset), n)
      ensures woken == Woken(q, Matching(entries, useBitset, bitset), n)
    {
      hide Woken, Rest, Match;
      list, woken := q, [];
      var i, count := 0, n;
      ghost var hit := Matching(entries, useBitset, bitset);
      Begin(q, hit, n);
      while i < |list| && count != 0
        invariant 0 <= i <= |list| && forall k :: 0 <= k < |list| ==> 0 <= list[k] < |entries|
        invariant woken + Woken(list[i..], hit, count) == Woken(q, hit, n)
        invariant list[..i] + Rest(list[i..], hit, count) == Rest(q, hit, n)
        decreases |list| - i
      {
        if !Match(entries[list[i]], useBitset, bitset) {
          PassOver(list, i, hit, count);
          i := i + 1;
        } else {
          TakeOff(list, i, hit, count, woken);
          var e := list[i];
          list := RemoveAt(list, i);
          woken := woken + [e];
          count := count - 1;
        }
      }
      NoMore(list, i, hit, count, woken);
    }

    /** do_private_wait up to the point where it blocks: a new entry at the end of the queue. */
    method Enqueue(u: int, useBitset: bool, bitset: bv32) returns (e: int)
      requires Valid() && table.nBuckets < HashTable.MAX_BUCKETS
      modifies this`lists, this`entries, table, table.flags, table.keys, table.vals
      ensures Valid() && e == |old(entries)|
      ensures entries == old(entries) + [Entry(u, if useBitset then bitset else MATCH_ANY)]
      ensures Queue(u) == old(Queue(u)) + [e]
      ensures forall v :: v != u ==> Queue(v) == old(Queue(v))
      ensures table.flags == old(table.flags) || fresh(table.flags)
      ensures table.keys == old(table.keys) || fresh(table.keys)
      ensures table.vals == old(table.vals) || fresh(table.vals)
    {
      hide HashTable.WellFormed, HashTable.Values, HashTable.NoneDeleted, AtHome;
      var l := Head(u);
      e := |entries|;
      ghost var lists0 := lists;
      AppendHome(table.Model(), lists, entries, u, Entry(u, if useBitset then bitset else MATCH_ANY));
      entries := entries + [Entry(u, if useBitset then bitset else MATCH_ANY)];
      lists := lists[l := lists[l] + [e]];
      forall v
        ensures Queue(v) == if v == u then old(Queue(u)) + [e] else old(Queue(v))
      {
        OneQueue(table.Model(), lists0, u, lists0[l] + [e], v);
      }
    }

    /** The loop of a requeue: up to n entries go from the front of one list to the end of the other. */
    method MoveAll(l: int, l2: int, n: int, u2: int) returns (moved: int)
      requires 0 <= l < |lists| && 0 <= l2 < |lists| && l != l2
      requires Distinct(lists[l]) && forall i :: 0 <= i < |lists[l]| ==> 0 <= lists[l][i] < |entries|
      modifies this`lists, this`entries
      ensures var q := old(lists)[l];
              && moved == Upto(n, |q|)
              && lists == old(lists)[l := q[moved..]][l2 := old(lists)[l2] + q[..moved]]
              && Readdressed(old(entries), entries, q[..moved], u2)
    {
      moved := 0;
      var count := n;
      ghost var q, q2 := lists[l], lists[l2];
      assert q[0..] == q && q2 + q[..0] == q2;
      while lists[l] != [] && count != 0
        invariant 0 <= moved <= |q| && count == n - moved && (n >= 0 ==> moved <= n)
        invariant lists == old(lists)[l := q[moved..]][l2 := q2 + q[..moved]]
        invariant Readdressed(old(entries), entries, q[..moved], u2)
        decreases |lists[l]|
      {
        var e := lists[l][0];
        assert q[moved + 1..] == q[moved..][1..] && q[..moved + 1] == q[..moved] + [e];
        lists := lists[l := lists[l][1..]];
        lists := lists[l2 := lists[l2] + [e]];
        ReaddressOne(old(entries), entries, q[..moved], u2, e);
        entries := entries[e := entries[e].(uaddr := u2)];
        count, moved := count - 1, moved + 1;
        assert lists[l] == q[moved..] && lists[l2] == q2 + q[..moved];
      }
    }

    /** The list heads of two addresses; no queue changes. */
    method TwoHeads(u: int, u2: int) returns (l: int, l2: int)
      requires Valid() && table.nBuckets < HashTable.MAX_BUCKETS / 8 && u != u2
      modifies this`lists, table, table.flags, table.keys, table.vals
      ensures Valid() && forall v :: Queue(v) == old(Queue(v))
      ensures u in table.Model() && table.Model()[u] == l && u2 in table.Model() && table.Model()[u2] == l2
      ensures table.flags == old(table.flags) || fresh(table.flags)
      ensures table.keys == old(table.keys) || fresh(table.keys)
      ensures table.vals == old(table.vals) || fresh(table.vals)
    {
      hide HashTable.WellFormed, HashTable.Values, HashTable.NoneDeleted, AtHome, OwnHeads, QueueOf;
      l := Head(u);
      l2 := Head(u2);
    }

    /** The moves of a requeue, once the heads are there. */
    method MoveLists(u: int, u2: int, l: int, l2: int, n: int) returns (moved: int)
      requires Valid() && u != u2
      requires u in table.Model() && table.Model()[u] == l && u2 in table.Model() && table.Model()[u2] == l2
      modifies this`lists, this`entries
      ensures Valid()
      ensures var q := old(Queue(u));
              && moved == Upto(n, |q|) && Queue(u) == q[moved..] && Queue(u2) == old(Queue(u2)) + q[..moved]
              && Readdressed(old(entries), entries, q[..moved], u2)
      ensures forall v :: v != u && v != u2 ==> Queue(v) == old(Queue(v))
    {
      hide HashTable.WellFormed, HashTable.Values, HashTable.NoneDeleted, AtHome, OwnHeads, Readdressed, Upto, QueueOf;
      ghost var heads, lists0, entries0 := table.Model(), lists, entries;
      QueueHome(heads, lists, entries, u);
      QueueHome(heads, lists, entries, u2);
      HeadsDiffer(heads, lists, u, u2);
      moved := MoveAll(l, l2, n, u2);
      MoveHome(heads, lists0, entries0, entries, u, u2, moved);
      assert forall v :: Queue(v) == QueueOf(heads, lists, v) && old(Queue(v)) == QueueOf(heads, lists0, v);
    }

    /** Moves up to n entries from one queue to another. */
    method MoveQueue(u: int, u2: int, n: int) returns (moved: int)
      requires Valid() && table.nBuckets < HashTable.MAX_BUCKETS / 8 && u != u2
      modifies this`lists, this`entries, table, table.flags, table.keys, table.vals
      ensures Valid()
      ensures var q := old(Queue(u));
              && moved == Upto(n, |q|) && Queue(u) == q[moved..] && Queue(u2) == old(Queue(u2)) + q[..moved]
              && Readdressed(old(entries), entries, q[..moved], u2)
      ensures forall v :: v != u && v != u2 ==> Queue(v) == old(Queue(v))
      ensures table.flags == old(table.flags) || fresh(table.flags)
      ensures table.keys == old(table.keys) || fresh(table.keys)
      ensures table.vals == old(table.vals) || fresh(table.vals)
    {
      hide HashTable.WellFormed, HashTable.Values, HashTable.NoneDeleted, AtHome, OwnHeads, Readdressed, Upto, QueueOf;
      var l, l2 := TwoHeads(u, u2);
      moved := MoveLists(u, u2, l, l2, n);
    }

    /** A requeue onto the same list. */
    method Rotate(u: int, n: int) returns (moved: int)
      requires Valid() && table.nBuckets < HashTable.MAX_BUCKETS && (|Queue(u)| >= 2 ==> n >= 0)
      modifies this`lists, table, table.flags, table.keys, table.vals
      ensures Valid() && moved == Turns(old(Queue(u)), n) && Queue(u) == Rotated(old(Queue(u)), moved)
      ensures forall v :: v != u ==> Queue(v) == old(Queue(v))
      ensures table.flags == old(table.flags) || fresh(table.flags)
      ensures table.keys == old(table.keys) || fresh(table.keys)
      ensures table.vals == old(table.vals) || fresh(table.vals)
    {
      hide HashTable.WellFormed, HashTable.Values, HashTable.NoneDeleted, AtHome, Rotated, Turns;
      var l := Head(u);
      ghost var heads, lists1 := table.Model(), lists;
      QueueHome(heads, lists, entries, u);
      var q;
      q, moved := RotateList(lists[l], n);
      RotatedConserves(lists[l], moved);
      assert multiset([]) + multiset(q) == multiset(lists[l]);
      PartOf(lists[l], q, []);
      ReplaceHome(heads, lists, entries, u, q);
      lists := lists[l := q];
      forall v
        ensures Queue(v) == if v == u then q else old(Queue(v))
      {
        OneQueue(heads, lists1, u, q, v);
      }
    }

    /** The loop of a requeue onto the same list: `next`, the successor, is read before the entry p is moved. */
    static method RotateList(list: seq<int>, n: int) returns (q: seq<int>, moved: nat)
      requires Distinct(list) && HEAD !in list && (|list| >= 2 ==> n >= 0)
      ensures moved == Turns(list, n) && q == Rotated(list, moved)
    {
      q, moved := list, 0;
      var count := n;
      var p := Successor(q, HEAD);
      var next := Successor(q, p);
      ghost var k := Turns(list, n);
      while p != HEAD && count != 0
        invariant moved <= k && count == n - moved && |q| == |list| && Distinct(q) && HEAD !in q
        invariant Rotated(q, k - moved) == Rotated(list, k)
        invariant |q| == 0 ==> p == HEAD
        invariant |q| == 1 ==> if moved == 0 then p == q[0] && next == HEAD else p == HEAD
        invariant |q| >= 2 ==> p == q[0] && next == q[1]
        decreases k - moved, p != HEAD
      {
        var q0 := q;
        q := RemoveAt(q, IndexOf(q, p)) + [p];
        assert q == q0[1..] + [q0[0]];
        count, moved := count - 1, moved + 1;
        p := next;
        next := Successor(q, p);
      }
    }

    /** The wake of a requeue: the first entry, if there is one. */
    method WakeOne(u: int) returns (w: nat)
      requires Valid() && table.nBuckets < HashTable.MAX_BUCKETS
      modifies this`lists, this`signals, table, table.flags, table.keys, table.vals
      ensures Valid() && w == Upto(1, |old(Queue(u))|) && Queue(u) == old(Queue(u))[w..]
      ensures signals == old(signals) + old(Queue(u))[..w]
      ensures forall v :: v != u ==> Queue(v) == old(Queue(v))
      ensures table.nBuckets <= 2 * old(table.nBuckets) + 4
      ensures table.flags == old(table.flags) || fresh(table.flags)
      ensures table.keys == old(table.keys) || fresh(table.keys)
      ensures table.vals == old(table.vals) || fresh(table.vals)
    {
      hide HashTable.WellFormed, HashTable.Values, HashTable.NoneDeleted, AtHome, OwnHeads, Woken, Rest, Upto, QueueOf,
           Match;
      HomeRange(table.Model(), lists, entries, u);
      WakesPrefix(Queue(u), Matching(entries, false, 0), 1);
      w := Wake(u, 1, false, 0);
    }

    method RequeueSame(u: int, n2: int) returns (ret: int)
      requires Valid() && table.nBuckets < HashTable.MAX_BUCKETS / 32 && (|Queue(u)| > 2 ==> n2 >= 0)
      modifies this`lists, this`signals, table, table.flags, table.keys, table.vals
      ensures Valid()
      ensures var q := old(Queue(u));
              var w := Upto(1, |q|);
              var k := Turns(q[w..], n2);
              && ret == w + k && Queue(u) == Rotated(q[w..], k) && signals == old(signals) + q[..w]
      ensures forall v :: v != u ==> Queue(v) == old(Queue(v))
      ensures table.flags == old(table.flags) || fresh(table.flags)
      ensures table.keys == old(table.keys) || fresh(table.keys)
      ensures table.vals == old(table.vals) || fresh(table.vals)
    {
      hide HashTable.WellFormed, HashTable.Values, HashTable.NoneDeleted, AtHome, OwnHeads, QueueOf, Rotated, Turns;
      ret := WakeOne(u);
      var moved := Rotate(u, n2);
      ret := ret + moved;
    }

    method RequeueOther(u: int, u2: int, n2: int) returns (ret: int)
      requires Valid() && table.nBuckets < HashTable.MAX_BUCKETS / 32 && u != u2
      modifies this`lists, this`entries, this`signals, table, table.flags, table.keys, table.vals
      ensures Valid()
      ensures Moved(old(Queue(u)), old(Queue(u2)), Queue(u), Queue(u2), old(entries), entries, u2, n2, ret)
      ensures signals == old(signals) + old(Queue(u))[..Upto(1, |old(Queue(u))|)]
      ensures forall v :: v != u && v != u2 ==> Queue(v) == old(Queue(v))
      ensures table.flags == old(table.flags) || fresh(table.flags)
      ensures table.keys == old(table.keys) || fresh(table.keys)
      ensures table.vals == old(table.vals) || fresh(table.vals)
    {
      hide HashTable.WellFormed, HashTable.Values, HashTable.NoneDeleted, AtHome, OwnHeads, QueueOf, Queue,
           Readdressed, Moved, Upto;
      ghost var q, q2, before := Queue(u), Queue(u2), entries;
      var w := WakeOne(u);
      var moved := MoveQueue(u, u2, n2);
      WokenThenMoved(q, q2, Queue(u), Queue(u2), before, entries, u2, n2, w, moved);
      ret := w + moved;
    }

    /**
     FUTEX_CMP_REQUEUE_PI: wakes one entry and moves the next ones, in order,
     losing and duplicating none; returns how many of both. Onto the address
     itself it turns the queue, and with two or more entries left it only ends
     with a limit.
     */
    method Requeue(u: int, val: int, n2: int, u2: int, word: Option<int>, val3: int) returns (ret: int)
      requires Valid() && table.nBuckets < HashTable.MAX_BUCKETS / 32
      requires val == 1 && word == Some(val3) && u == u2 && |Queue(u)| > 2 ==> n2 >= 0
      modifies this`lists, this`entries, this`signals, table, table.flags, table.keys, table.vals
      ensures Valid()
      ensures val != 1 ==> ret == -EINVAL
      ensures val == 1 && word.None? ==> ret == -EFAULT
      ensures val == 1 && word.Some? && word.value != val3 ==> ret == -EAGAIN
      ensures val != 1 || word != Some(val3) ==>
              entries == old(entries) && signals == old(signals) && forall v :: Queue(v) == old(Queue(v))
      ensures val == 1 && word == Some(val3) ==> signals == old(signals) + old(Queue(u))[..Upto(1, |old(Queue(u))|)]
      ensures val == 1 && word == Some(val3) && u != u2 ==>
                var q := old(Queue(u));
                var w := Upto(1, |q|);
                var k := Upto(n2, |q| - w);
                && ret == w + k
                && Queue(u) == q[w + k..]
                && Queue(u2) == old(Queue(u2)) + q[w..w + k]
                && Readdressed(old(entries), entries, q[w..w + k], u2)
                && (forall v :: v != u && v != u2 ==> Queue(v) == old(Queue(v)))
      ensures val == 1 && word == Some(val3) && u == u2 ==>
                var q := old(Queue(u));
                var w := Upto(1, |q|);
                var k := Turns(q[w..], n2);
                && ret == w + k
                && Queue(u) == Rotated(q[w..], k) && entries == old(entries)
                && (forall v :: v != u ==> Queue(v) == old(Queue(v)))
      ensures table.flags == old(table.flags) || fresh(table.flags)
      ensures table.keys == old(table.keys) || fresh(table.keys)
      ensures table.vals == old(table.vals) || fresh(table.vals)
    {
      hide HashTable.WellFormed, HashTable.Values, HashTable.NoneDeleted, AtHome, OwnHeads, QueueOf, Readdressed, Upto,
           Rotated,
           Turns;
      if val != 1 {
        return -EINVAL;
      }
      if word == None {
        return -EFAULT;
      }
      if word.value != val3 {
        return -EAGAIN;
      }
      if u == u2 {
        ret := RequeueSame(u, n2);
      } else {
        ret := RequeueOther(u, u2, n2);
      }
    }
  }

  const MATCH_ANY: bv32 := 0xffff_ffff

  /** The entries of a list got a new address, and nothing else changed. */
  ghost predicate Readdressed(before: seq<Entry>, after: seq<Entry>, q: seq<int>, u: int) {
    && |before| == |after|
    && forall e :: 0 <= e < |before| ==> after[e] == if e in q then before[e].(uaddr := u) else before[e]
  }

  /** A requeue from q to the end of q2: one entry woken, the next ones moved; ret counts both. */
  ghost predicate Moved(q: seq<int>, q2: seq<int>, q': seq<int>, q2': seq<int>,
                        before: seq<Entry>, after: seq<Entry>, u2: int, n2: int, ret: int)
  {
    var w := Upto(1, |q|);
    var k := Upto(n2, |q| - w);
    && ret == w + k && q' == q[w + k..] && q2' == q2 + q[w..w + k] && Readdressed(before, after, q[w..w + k], u2)
  }

  lemma WokenThenMoved(q: seq<int>, q2: seq<int>, q': seq<int>, q2': seq<int>,
                       before: seq<Entry>, after: seq<Entry>, u2: int, n2: int, w: int, k: int)
    requires w == Upto(1, |q|)
    requires var r := q[w..];
             k == Upto(n2, |r|) && q' == r[k..] && q2' == q2 + r[..k] && Readdressed(before, after, r[..k], u2)
    ensures Moved(q, q2, q', q2', before, after, u2, n2, w + k)
  {
    hide Readdressed;
    Slices(q, w, k);
  }

  lemma ReaddressOne(before: seq<Entry>, after: seq<Entry>, q: seq<int>, u: int, e: int)
    requires Readdressed(before, after, q, u) && 0 <= e < |after|
    ensures Readdressed(before, after[e := after[e].(uaddr := u)], q + [e], u)
  {
    forall x | 0 <= x < |before|
      ensures x in q + [e] <==> x in q || x == e
    {
    }
  }

  lemma HomeIds(heads: map<int, int>, lists: seq<seq<int>>, entries: seq<Entry>, u: int)
    requires AtHome(heads, lists, entries)
    ensures forall i :: 0 <= i < |QueueOf(heads, lists, u)| ==> 0 <= QueueOf(heads, lists, u)[i] < |entries|
  {
    assert HomeQueue(QueueOf(heads, lists, u), entries, u);
  }

  lemma HomeRange(heads: map<int, int>, lists: seq<seq<int>>, entries: seq<Entry>, u: int)
    requires AtHome(heads, lists, entries)
    ensures forall i :: 0 <= i < |QueueOf(heads, lists, u)| ==>
            QueueOf(heads, lists, u)[i] in Matching(entries, false, 0)
  {
    assert HomeQueue(QueueOf(heads, lists, u), entries, u);
  }

  lemma AppendHome(heads: map<int, int>, lists: seq<seq<int>>, entries: seq<Entry>, u: int, x: Entry)
    requires OwnHeads(heads, lists) && AtHome(heads, lists, entries) && u in heads && x.uaddr == u
    ensures var lists' := lists[heads[u] := lists[heads[u]] + [|entries|]];
            OwnHeads(heads, lists') && AtHome(heads, lists', entries + [x])
  {
    var l := lists[heads[u]] + [|entries|];
    var lists' := lists[heads[u] := l];
    OneQueue(heads, lists, u, l, u);
    QueueHome(heads, lists, entries, u);
    forall v {:trigger QueueOf(heads, lists', v)}
      ensures HomeQueue(QueueOf(heads, lists', v), entries + [x], v)
    {
      OneQueue(heads, lists, u, l, v);
      assert HomeQueue(QueueOf(heads, lists, v), entries, v);
    }
  }

  /** The queues after entries moved from the front of one to the end of another. */
  lemma MoveHome(heads: map<int, int>, lists: seq<seq<int>>, entries: seq<Entry>, entries': seq<Entry>, u: int,
                 u2: int, k: int)
    requires OwnHeads(heads, lists) && AtHome(heads, lists, entries) && u in heads && u2 in heads && u != u2
    requires 0 <= k <= |lists[heads[u]]| && Readdressed(entries, entries', lists[heads[u]][..k], u2)
    ensures var q := lists[heads[u]];
            var lists' := lists[heads[u] := q[k..]][heads[u2] := lists[heads[u2]] + q[..k]];
            && OwnHeads(heads, lists') && AtHome(heads, lists', entries')
            && QueueOf(heads, lists', u) == q[k..] && QueueOf(heads, lists', u2) == lists[heads[u2]] + q[..k]
            && forall v :: v != u && v != u2 ==> QueueOf(heads, lists', v) == QueueOf(heads, lists, v)
  {
    var q := lists[heads[u]];
    var lists1 := lists[heads[u] := q[k..]];
    var lists' := lists1[heads[u2] := lists[heads[u2]] + q[..k]];
    QueueHome(heads, lists, entries, u);
    QueueHome(heads, lists, entries, u2);
    OneQueue(heads, lists, u, q[k..], u);
    forall v {:trigger QueueOf(heads, lists', v)}
      ensures HomeQueue(QueueOf(heads, lists', v), entries', v)
      ensures QueueOf(heads, lists', v) == if v == u then q[k..] else if v == u2 then lists[heads[u2]] + q[..k]
              else QueueOf(heads, lists, v)
    {
      OneQueue(heads, lists, u, q[k..], v);
      OneQueue(heads, lists1, u2, lists[heads[u2]] + q[..k], v);
      assert HomeQueue(QueueOf(heads, lists, v), entries, v);
      MovedHome(q, lists[heads[u2]], entries, entries', u, u2, k, v, QueueOf(heads, lists, v));
    }
  }

  lemma MovedHome(q: seq<int>, q2: seq<int>, entries: seq<Entry>, entries': seq<Entry>, u: int, u2: int, k: int,
                  v: int, r: seq<int>)
    requires HomeQueue(q, entries, u) && HomeQueue(q2, entries, u2) && HomeQueue(r, entries, v) && u != u2
    requires 0 <= k <= |q| && Readdressed(entries, entries', q[..k], u2)
    ensures HomeQueue(q[k..], entries', u) && HomeQueue(q2 + q[..k], entries', u2)
    ensures v != u ==> HomeQueue(r, entries', v)
  {
    forall i | 0 <= i < |q|
      ensures q[i] in q[..k] <==> i < k
    {
      assert i < k ==> q[..k][i] == q[i];
    }
    forall i | 0 <= i < |q2|
      ensures q2[i] !in q[..k]
    {
      assert entries[q2[i]].uaddr == u2;
    }
    forall i | 0 <= i < |r| && v != u
      ensures r[i] !in q[..k]
    {
      assert entries[r[i]].uaddr == v;
    }
  }

  lemma PassOver(list: seq<int>, i: int, hit: set<int>, n: int)
    requires 0 <= i < |list| && n != 0 && list[i] !in hit
    ensures Woken(list[i + 1..], hit, n) == Woken(list[i..], hit, n)
    ensures list[..i + 1] + Rest(list[i + 1..], hit, n) == list[..i] + Rest(list[i..], hit, n)
  {
    assert list[i..][1..] == list[i + 1..] && list[..i + 1] == list[..i] + [list[i]];
  }

  lemma TakeOff(list: seq<int>, i: int, hit: set<int>, n: int, woken: seq<int>)
    requires 0 <= i < |list| && n != 0 && list[i] in hit
    ensures var list' := RemoveAt(list, i);
            && woken + [list[i]] + Woken(list'[i..], hit, n - 1) == woken + Woken(list[i..], hit, n)
            && list'[..i] + Rest(list'[i..], hit, n - 1) == list[..i] + Rest(list[i..], hit, n)
  {
    var list' := RemoveAt(list, i);
    assert list[i..][1..] == list'[i..] && list'[..i] == list[..i];
  }

  lemma NoMore(list: seq<int>, i: int, hit: set<int>, n: int, woken: seq<int>)
    requires 0 <= i <= |list| && (i == |list| || n == 0)
    ensures woken + Woken(list[i..], hit, n) == woken && list[..i] + Rest(list[i..], hit, n) == list
  {
  }

  lemma Begin(q: seq<int>, hit: set<int>, n: int)
    ensures [] + Woken(q[0..], hit, n) == Woken(q, hit, n) && q[..0] + Rest(q[0..], hit, n) == Rest(q, hit, n)
  {
    assert q[0..] == q;
  }

  lemma QueueHome(heads: map<int, int>, lists: seq<seq<int>>, entries: seq<Entry>, u: int)
    requires OwnHeads(heads, lists) && AtHome(heads, lists, entries) && u in heads
    ensures QueueOf(heads, lists, u) == lists[heads[u]] && HomeQueue(lists[heads[u]], entries, u)
  {
    assert QueueOf(heads, lists, u) == lists[heads[u]];
  }

  lemma ReplaceHome(heads: map<int, int>, lists: seq<seq<int>>, entries: seq<Entry>, u: int, l: seq<int>)
    requires OwnHeads(heads, lists) && AtHome(heads, lists, entries) && u in heads
    requires Distinct(l) && forall i :: 0 <= i < |l| ==> l[i] in lists[heads[u]]
    ensures OwnHeads(heads, lists[heads[u] := l]) && AtHome(heads, lists[heads[u] := l], entries)
  {
    OneQueue(heads, lists, u, l, u);
    var lists' := lists[heads[u] := l];
    QueueHome(heads, lists, entries, u);
    forall v {:trigger QueueOf(heads, lists', v)}
      ensures HomeQueue(QueueOf(heads, lists', v), entries, v)
    {
      OneQueue(heads, lists, u, l, v);
      assert HomeQueue(QueueOf(heads, lists, v), entries, v);
    }
  }

  lemma NewHead(heads: map<int, int>, lists: seq<seq<int>>, entries: seq<Entry>, u: int)
    requires OwnHeads(heads, lists) && AtHome(heads, lists, entries) && u !in heads
    ensures OwnHeads(heads[u := |lists|], lists + [[]]) && AtHome(heads[u := |lists|], lists + [[]], entries)
    ensures forall v :: QueueOf(heads[u := |lists|], lists + [[]], v) == QueueOf(heads, lists, v)
  {
    forall v
      ensures QueueOf(heads[u := |lists|], lists + [[]], v) == QueueOf(heads, lists, v)
    {
      NewQueue(heads, lists, u, v);
    }
    NewQueue(heads, lists, u, u);
    var heads', lists' := heads[u := |lists|], lists + [[]];
    forall v {:trigger QueueOf(heads', lists', v)}
      ensures HomeQueue(QueueOf(heads', lists', v), entries, v)
    {
      assert HomeQueue(QueueOf(heads, lists, v), entries, v);
    }
  }
}
