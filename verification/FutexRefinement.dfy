/**
 The table-based wait queues carry out the protocol: every operation on them is
 one step of the state machine, so what holds of its runs holds of theirs. Waits
 are numbered in the order in which they are queued, and the task of the state
 machine is the number of its entry.
 */
module FutexRefinement {
  import opened Common
  import opened FutexQueues
  import F = Futex
  import HashTable
  import P = FutexProtocol

  ghost function Queues(heads: map<int, int>, lists: seq<seq<int>>): int -> seq<int> {
    u => F.QueueOf(heads, lists, u)
  }

  /** What the task of an entry is doing. */
  ghost predicate TaskAgrees(k: P.Task, entry: F.Entry, signalled: bool) {
    if signalled then k.Running? || (k.Blocked? && k.signalled)
    else k.Blocked? && !k.signalled && k.uaddr == entry.uaddr && k.bits == entry.bitset
  }

  /** The queues are the same, an entry without a signal has its task waiting, and nobody else waits. */
  ghost predicate Represents(queues: int -> seq<int>, entries: seq<F.Entry>, signals: seq<int>, s: P.State) {
    && (forall u :: queues(u) == P.Queue(s, u))
    && (forall i :: 0 <= i < |signals| ==> 0 <= signals[i] < |entries|)
    && (forall e {:trigger P.TaskOf(s, e)} ::
          if 0 <= e < |entries| then TaskAgrees(P.TaskOf(s, e), entries[e], e in signals) else !P.TaskOf(s, e).Blocked?)
  }

  /** The entries in a queue are those of its waiting tasks. */
  lemma QueuedWait(queues: int -> seq<int>, entries: seq<F.Entry>, signals: seq<int>, s: P.State, u: int, e: int)
    requires P.Inv(s) && Represents(queues, entries, signals, s) && e in P.Queue(s, u)
    ensures P.Waits(s, e, u) && 0 <= e < |entries| && e !in signals && e in s.task
  {
    P.CountIn(P.Queue(s, u), e);
    assert P.Count(s, u, e) == 1;
    assert P.TaskOf(s, e).Blocked?;
  }

  lemma {:induction false} SameHits(q: seq<int>, a: set<int>, b: set<int>, n: int)
    requires forall i :: 0 <= i < |q| ==> (q[i] in a <==> q[i] in b)
    ensures Woken(q, a, n) == Woken(q, b, n) && Rest(q, a, n) == Rest(q, b, n)
  {
    if q != [] && n != 0 {
      SameHits(q[1..], a, b, if q[0] in a then n - 1 else n);
    }
  }

  lemma WokenQueued(q: seq<int>, hit: set<int>, n: int, e: int)
    requires e in Woken(q, hit, n)
    ensures e in q
  {
    WakeConserves(q, hit, n);
    assert e in multiset(Woken(q, hit, n));
    assert e in multiset(q);
  }

  lemma WakeRefines(queues: int -> seq<int>, queues': int -> seq<int>, entries: seq<F.Entry>, signals: seq<int>,
                    s: P.State, u: int, hit: set<int>, n: int)
    requires P.Inv(s) && Represents(queues, entries, signals, s)
    requires queues'(u) == Rest(queues(u), hit, n) && forall v :: v != u ==> queues'(v) == queues(v)
    ensures Represents(queues', entries, signals + Woken(queues(u), hit, n), P.WakeSome(s, u, hit, n))
  {
    hide Woken, Rest, P.Inv, TaskAgrees;
    var w := Woken(queues(u), hit, n);
    var s' := P.WakeSome(s, u, hit, n);
    forall e | e in w
      ensures P.Waits(s, e, u) && 0 <= e < |entries| && e !in signals && e in s.task
    {
      WokenQueued(queues(u), hit, n, e);
      QueuedWait(queues, entries, signals, s, u, e);
    }
    forall i | 0 <= i < |signals + w|
      ensures 0 <= (signals + w)[i] < |entries|
    {
      assert i >= |signals| ==> w[i - |signals|] in w;
    }
    forall e
      ensures if 0 <= e < |entries| then TaskAgrees(P.TaskOf(s', e), entries[e], e in signals + w)
              else !P.TaskOf(s', e).Blocked?
    {
      WokenTask(s, u, hit, n, e);
      if 0 <= e < |entries| {
        WakeAgrees(P.TaskOf(s, e), entries[e], e in signals, e in w);
      }
    }
  }

  lemma WokenTask(s: P.State, u: int, hit: set<int>, n: int, e: int)
    ensures var w := Woken(P.Queue(s, u), hit, n);
            P.TaskOf(P.WakeSome(s, u, hit, n), e) == if e in w then P.Signal(P.TaskOf(s, e)) else P.TaskOf(s, e)
  {
  }

  lemma WakeAgrees(k: P.Task, entry: F.Entry, signalled: bool, woken: bool)
    requires TaskAgrees(k, entry, signalled) && (woken ==> k.Blocked?)
    ensures TaskAgrees(if woken then P.Signal(k) else k, entry, signalled || woken)
  {
  }

  lemma MoveRefines(queues: int -> seq<int>, queues': int -> seq<int>, entries: seq<F.Entry>, entries': seq<F.Entry>,
                    signals: seq<int>, s: P.State, u: int, u2: int, n: int)
    requires P.Inv(s) && Represents(queues, entries, signals, s) && u != u2
    requires var q := queues(u);
             var k := Upto(n, |q|);
             && queues'(u) == q[k..] && queues'(u2) == queues(u2) + q[..k]
             && (forall v :: v != u && v != u2 ==> queues'(v) == queues(v))
             && F.Readdressed(entries, entries', q[..k], u2)
    ensures Represents(queues', entries', signals, P.MoveSome(s, u, u2, n))
  {
    hide Upto, P.Inv;
    var q := queues(u);
    var k := Upto(n, |q|);
    var s' := P.MoveSome(s, u, u2, n);
    forall e | e in q[..k]
      ensures P.Waits(s, e, u) && 0 <= e < |entries| && e !in signals && e in s.task
    {
      QueuedWait(queues, entries, signals, s, u, e);
    }
    forall e
      ensures if 0 <= e < |entries'| then TaskAgrees(P.TaskOf(s', e), entries'[e], e in signals)
              else !P.TaskOf(s', e).Blocked?
    {
      var old' := P.TaskOf(s, e);
      assert P.TaskOf(s', e) == if e in q[..k] then P.Move(old', u2) else old';
    }
  }

  lemma TurnRefines(queues: int -> seq<int>, queues': int -> seq<int>, entries: seq<F.Entry>, signals: seq<int>,
                    s: P.State, u: int, n: int)
    requires Represents(queues, entries, signals, s) && (|queues(u)| >= 2 ==> n >= 0)
    requires queues'(u) == Rotated(queues(u), Turns(queues(u), n)) && forall v :: v != u ==> queues'(v) == queues(v)
    ensures Represents(queues', entries, signals, P.Turn(s, u, n))
  {
    assert forall e :: P.TaskOf(P.Turn(s, u, n), e) == P.TaskOf(s, e);
  }

  lemma BlockRefines(queues: int -> seq<int>, queues': int -> seq<int>, entries: seq<F.Entry>, signals: seq<int>,
                     s: P.State, u: int, expects: Option<int>, bits: bv32)
    requires Represents(queues, entries, signals, s)
    requires queues'(u) == queues(u) + [|entries|] && forall v :: v != u ==> queues'(v) == queues(v)
    ensures Represents(queues', entries + [F.Entry(u, bits)], signals, P.Block(s, |entries|, u, expects, bits))
  {
    var s' := P.Block(s, |entries|, u, expects, bits);
    forall e
      ensures P.TaskOf(s', e) == if e == |entries| then P.Blocked(u, expects, bits, false) else P.TaskOf(s, e)
    {
    }
  }

  /** A step that leaves all queues and does not change who is blocked, except for a signalled task. */
  lemma TaskRefines(queues: int -> seq<int>, entries: seq<F.Entry>, signals: seq<int>, s: P.State, s': P.State, t: int)
    requires Represents(queues, entries, signals, s) && s'.queue == s.queue
    requires forall e :: e != t ==> P.TaskOf(s', e) == P.TaskOf(s, e)
    requires P.TaskOf(s', t) == P.TaskOf(s, t) || (t == |entries| && P.TaskOf(s', t).Checked?)
             || (P.TaskOf(s, t).Blocked? && P.TaskOf(s, t).signalled && P.TaskOf(s', t) == P.Running)
    ensures Represents(queues, entries, signals, s')
  {
  }

  /** The queues after the wake of a requeue. */
  ghost function OneWoken(queues: int -> seq<int>, u: int): int -> seq<int> {
    v => if v == u then queues(u)[Upto(1, |queues(u)|)..] else queues(v)
  }

  lemma OneWokenRefines(queues: int -> seq<int>, entries: seq<F.Entry>, signals: seq<int>, s: P.State, u: int)
    requires P.Inv(s) && Represents(queues, entries, signals, s)
    ensures var s1 := P.WakeSome(s, u, P.Elements(P.Queue(s, u)), 1);
            && P.Inv(s1)
            && Represents(OneWoken(queues, u), entries, signals + queues(u)[..Upto(1, |queues(u)|)], s1)
  {
    hide P.Inv, Woken, Rest, P.WakeSome, TaskAgrees;
    var q := P.Queue(s, u);
    assert q == queues(u);
    WakesPrefix(q, P.Elements(q), 1);
    WakeRefines(queues, OneWoken(queues, u), entries, signals, s, u, P.Elements(q), 1);
    P.WakePlaced(s, u, P.Elements(q), 1);
  }

  /** What a granted requeue does to the queues and the entries. */
  ghost predicate Requeued(queues: int -> seq<int>, queues': int -> seq<int>, entries: seq<F.Entry>,
                           entries': seq<F.Entry>,
                           u: int, u2: int, n2: int)
    requires u == u2 && |queues(u)| > 2 ==> n2 >= 0
  {
    var q := queues(u);
    var w := Upto(1, |q|);
    if u == u2 then
      && queues'(u) == Rotated(q[w..], Turns(q[w..], n2)) && entries' == entries
      && (forall v :: v != u ==> queues'(v) == queues(v))
    else
      var k := Upto(n2, |q| - w);
      && queues'(u) == q[w + k..] && queues'(u2) == queues(u2) + q[w..w + k]
      && F.Readdressed(entries, entries', q[w..w + k], u2)
      && (forall v :: v != u && v != u2 ==> queues'(v) == queues(v))
  }

  lemma TurnedMid(queues: int -> seq<int>, queues': int -> seq<int>, entries: seq<F.Entry>, entries': seq<F.Entry>,
                  signals: seq<int>, s1: P.State, u: int, n2: int)
    requires |queues(u)| > 2 ==> n2 >= 0
    requires Requeued(queues, queues', entries, entries', u, u, n2)
             && Represents(OneWoken(queues, u), entries, signals, s1)
    ensures |P.Queue(s1, u)| >= 2 ==> n2 >= 0
    ensures Represents(queues', entries', signals, P.Turn(s1, u, n2))
  {
    hide Rotated, Turns, TaskAgrees, P.Turn;
    assert OneWoken(queues, u)(u) == P.Queue(s1, u);
    TurnRefines(OneWoken(queues, u), queues', entries, signals, s1, u, n2);
  }

  lemma MovedMid(queues: int -> seq<int>, queues': int -> seq<int>, entries: seq<F.Entry>, entries': seq<F.Entry>,
                 signals: seq<int>, s1: P.State, u: int, u2: int, n2: int)
    requires u != u2 && P.Inv(s1)
    requires Requeued(queues, queues', entries, entries', u, u2, n2)
             && Represents(OneWoken(queues, u), entries, signals, s1)
    ensures Represents(queues', entries', signals, P.MoveSome(s1, u, u2, n2))
  {
    hide Represents, F.Readdressed, P.Inv, P.MoveSome;
    var q := queues(u);
    var w := Upto(1, |q|);
    var k := Upto(n2, |q| - w);
    assert q[w..][..k] == q[w..w + k] && q[w..][k..] == q[w + k..];
    assert OneWoken(queues, u)(u) == q[w..] && |q[w..]| == |q| - w;
    assert forall v :: v != u ==> OneWoken(queues, u)(v) == queues(v);
    MoveRefines(OneWoken(queues, u), queues', entries, entries', signals, s1, u, u2, n2);
  }

  /** A requeue whose comparison succeeds: its wake, and then its moves. */
  lemma RequeueRefines(queues: int -> seq<int>, queues': int -> seq<int>, entries: seq<F.Entry>, entries': seq<F.Entry>,
                       signals: seq<int>, s: P.State, u: int, u2: int, n2: int, v3: int)
    requires P.Inv(s) && Represents(queues, entries, signals, s)
    requires P.Enabled(s, P.Requeue(u, u2, n2, v3)) && u in s.word && s.word[u] == v3
    requires (u == u2 && |queues(u)| > 2 ==> n2 >= 0) && Requeued(queues, queues', entries, entries', u, u2, n2)
    ensures Represents(queues', entries', signals + queues(u)[..Upto(1, |queues(u)|)],
            P.Apply(s, P.Requeue(u, u2, n2, v3)))
  {
    hide Represents, Requeued, P.Inv, P.WakeSome, P.Turn, P.MoveSome, Upto;
    OneWokenRefines(queues, entries, signals, s, u);
    var s1 := P.WakeSome(s, u, P.Elements(P.Queue(s, u)), 1);
    var signals' := signals + queues(u)[..Upto(1, |queues(u)|)];
    if u == u2 {
      TurnedMid(queues, queues', entries, entries', signals', s1, u, n2);
    } else {
      MovedMid(queues, queues', entries, entries', signals', s1, u, u2, n2);
    }
  }

  lemma SameQueue(queues: int -> seq<int>, entries: seq<F.Entry>, signals: seq<int>, s: P.State, u: int)
    requires Represents(queues, entries, signals, s)
    ensures queues(u) == P.Queue(s, u)
  {
  }

  /** On the entries of one queue, the code's match is the protocol's. */
  lemma SameMatch(queues: int -> seq<int>, entries: seq<F.Entry>, signals: seq<int>, s: P.State, u: int, bits: bv32)
    requires P.Inv(s) && Represents(queues, entries, signals, s)
    ensures forall i :: 0 <= i < |queues(u)| ==>
              (queues(u)[i] in F.Matching(entries, true, bits) <==> queues(u)[i] in P.Matching(s, u, bits))
    ensures forall i :: 0 <= i < |queues(u)| ==>
              (queues(u)[i] in F.Matching(entries, false, 0) <==> queues(u)[i] in P.Elements(queues(u)))
  {
    forall i | 0 <= i < |queues(u)|
      ensures var e := queues(u)[i]; P.Waits(s, e, u) && 0 <= e < |entries| && P.TaskOf(s, e).bits == entries[e].bitset
      ensures queues(u)[i] in P.Elements(queues(u))
    {
      var e := queues(u)[i];
      QueuedWait(queues, entries, signals, s, u, e);
    }
  }

  // ---- the operations as steps ------------------------------------------

  ghost predicate Agrees(f: F.Futexes, s: P.State)
    reads f, f.table, f.table.flags, f.table.keys, f.table.vals
    requires f.table.Valid()
  {
    Represents(Queues(f.table.Model(), f.lists), f.entries, f.signals, s)
  }

  /** A wait has the number that its entry will get. */
  predicate Numbered(step: P.Step, n: nat) {
    (step.Wait? || step.Enqueue? || step.WaitBits?) ==> step.t == n
  }

  method WakeStep(f: F.Futexes, ghost s: P.State, u: int, n: int, useBitset: bool, bits: bv32)
    requires f.Valid() && f.table.nBuckets < HashTable.MAX_BUCKETS && P.Inv(s) && Agrees(f, s)
    modifies f`lists, f`signals, f.table, f.table.flags, f.table.keys, f.table.vals
    ensures f.Valid()
    ensures var hit := if useBitset then P.Matching(s, u, bits) else P.Elements(P.Queue(s, u));
            Agrees(f, P.WakeSome(s, u, hit, n))
    ensures f.table.flags == old(f.table.flags) || fresh(f.table.flags)
    ensures f.table.keys == old(f.table.keys) || fresh(f.table.keys)
    ensures f.table.vals == old(f.table.vals) || fresh(f.table.vals)
  {
    hide HashTable.WellFormed, HashTable.Values, HashTable.NoneDeleted, F.AtHome, F.OwnHeads, F.Match, F.Matching,
         P.Inv,
         P.Matching, P.Elements, P.WakeSome, Represents, Woken, Rest;
    ghost var queues := Queues(f.table.Model(), f.lists);
    ghost var hit := F.Matching(f.entries, useBitset, if useBitset then bits else 0);
    ghost var hit' := if useBitset then P.Matching(s, u, bits) else P.Elements(P.Queue(s, u));
    SameQueue(queues, f.entries, f.signals, s, u);
    SameMatch(queues, f.entries, f.signals, s, u, bits);
    SameHits(queues(u), hit, hit', n);
    ghost var signals := f.signals;
    var ret := f.Wake(u, n, useBitset, if useBitset then bits else 0);
    ghost var queues' := Queues(f.table.Model(), f.lists);
    assert queues'(u) == f.Queue(u) && forall v :: queues'(v) == f.Queue(v);
    WakeRefines(queues, queues', f.entries, signals, s, u, hit', n);
  }

  /** The requeue of the code, in terms of all queues at once. */
  method RequeueAll(f: F.Futexes, u: int, u2: int, n2: int, word: Option<int>, v3: int)
    requires f.Valid() && f.table.nBuckets < HashTable.MAX_BUCKETS / 32
    requires word == Some(v3) && u == u2 && |f.Queue(u)| > 2 ==> n2 >= 0
    modifies f`lists, f`entries, f`signals, f.table, f.table.flags, f.table.keys, f.table.vals
    ensures f.Valid() && |f.entries| == |old(f.entries)|
    ensures var queues, queues' := Queues(old(f.table.Model()), old(f.lists)), Queues(f.table.Model(), f.lists);
            if word == Some(v3) then
              && (u == u2 && |queues(u)| > 2 ==> n2 >= 0)
              && Requeued(queues, queues', old(f.entries), f.entries, u, u2, n2)
              && f.signals == old(f.signals) + queues(u)[..Upto(1, |queues(u)|)]
            else f.entries == old(f.entries) && f.signals == old(f.signals) && forall v :: queues'(v) == queues(v)
    ensures f.table.flags == old(f.table.flags) || fresh(f.table.flags)
    ensures f.table.keys == old(f.table.keys) || fresh(f.table.keys)
    ensures f.table.vals == old(f.table.vals) || fresh(f.table.vals)
  {
    hide HashTable.WellFormed, HashTable.Values, HashTable.NoneDeleted, F.AtHome, F.OwnHeads, F.QueueOf, F.Readdressed,
         Rotated, Turns, Upto, Requeued, Queues;
    ghost var heads, lists, entries := f.table.Model(), f.lists, f.entries;
    QueuesAt(heads, lists);
    var ret := f.Requeue(u, 1, n2, u2, word, v3);
    QueuesAt(f.table.Model(), f.lists);
    assert forall v ::
        F.QueueOf(f.table.Model(), f.lists, v) == f.Queue(v) && F.QueueOf(heads, lists, v) == old(f.Queue(v));
    if word == Some(v3) {
      if u == u2 {
        TurnedQueues(heads, lists, f.table.Model(), f.lists, entries, u, n2);
      } else {
        MovedQueues(heads, lists, f.table.Model(), f.lists, entries, f.entries, u, u2, n2);
      }
    }
  }

  lemma QueuesAt(heads: map<int, int>, lists: seq<seq<int>>)
    ensures forall v :: Queues(heads, lists)(v) == F.QueueOf(heads, lists, v)
  {
    hide F.QueueOf;
  }

  lemma TurnedQueues(heads: map<int, int>, lists: seq<seq<int>>, heads': map<int, int>, lists': seq<seq<int>>,
                     entries: seq<F.Entry>, u: int, n2: int)
    requires var q := F.QueueOf(heads, lists, u);
             var w := Upto(1, |q|);
             && (|q| > 2 ==> n2 >= 0) && F.QueueOf(heads', lists', u) == Rotated(q[w..], Turns(q[w..], n2))
    requires forall v :: v != u ==> F.QueueOf(heads', lists', v) == F.QueueOf(heads, lists, v)
    ensures |Queues(heads, lists)(u)| > 2 ==> n2 >= 0
    ensures Requeued(Queues(heads, lists), Queues(heads', lists'), entries, entries, u, u, n2)
  {
    hide F.QueueOf, Rotated, Turns;
  }

  lemma MovedQueues(heads: map<int, int>, lists: seq<seq<int>>, heads': map<int, int>, lists': seq<seq<int>>,
                    entries: seq<F.Entry>, entries': seq<F.Entry>, u: int, u2: int, n2: int)
    requires u != u2
    requires var q := F.QueueOf(heads, lists, u);
             var w := Upto(1, |q|);
             var k := Upto(n2, |q| - w);
             && F.QueueOf(heads', lists', u) == q[w + k..] && F.QueueOf(heads', lists', u2)
                == F.QueueOf(heads, lists, u2) + q[w..w + k]
             && F.Readdressed(entries, entries', q[w..w + k], u2)
    requires forall v :: v != u && v != u2 ==> F.QueueOf(heads', lists', v) == F.QueueOf(heads, lists, v)
    ensures Requeued(Queues(heads, lists), Queues(heads', lists'), entries, entries', u, u2, n2)
    ensures |entries'| == |entries|
  {
    hide F.QueueOf, Upto;
  }

  method RequeueStep(f: F.Futexes, s: P.State, u: int, u2: int, n2: int, v3: int)
    requires f.Valid() && f.table.nBuckets < HashTable.MAX_BUCKETS / 32 && P.Inv(s) && Agrees(f, s)
    requires P.Enabled(s, P.Requeue(u, u2, n2, v3))
    modifies f`lists, f`entries, f`signals, f.table, f.table.flags, f.table.keys, f.table.vals
    ensures f.Valid() && |f.entries| == |old(f.entries)| && Agrees(f, P.Apply(s, P.Requeue(u, u2, n2, v3)))
    ensures f.table.flags == old(f.table.flags) || fresh(f.table.flags)
    ensures f.table.keys == old(f.table.keys) || fresh(f.table.keys)
    ensures f.table.vals == old(f.table.vals) || fresh(f.table.vals)
  {
    hide HashTable.WellFormed, HashTable.Values, HashTable.NoneDeleted, F.AtHome, F.OwnHeads, P.Inv,
         P.Elements, P.WakeSome, P.MoveSome, P.Turn, Represents, Requeued, Upto;
    ghost var queues := Queues(f.table.Model(), f.lists);
    ghost var entries, signals := f.entries, f.signals;
    SameQueue(queues, entries, signals, s, u);
    RequeueAll(f, u, u2, n2, if u in s.word then Some(s.word[u]) else None, v3);
    ghost var queues' := Queues(f.table.Model(), f.lists);
    if u in s.word && s.word[u] == v3 {
      RequeueRefines(queues, queues', entries, f.entries, signals, s, u, u2, n2, v3);
    } else {
      SameRefines(queues, queues', entries, signals, s);
    }
  }

  lemma SameRefines(queues: int -> seq<int>, queues': int -> seq<int>, entries: seq<F.Entry>, signals: seq<int>,
                    s: P.State)
    requires Represents(queues, entries, signals, s) && forall v :: queues'(v) == queues(v)
    ensures Represents(queues', entries, signals, s)
  {
  }

  method BlockStep(f: F.Futexes, ghost s: P.State, u: int, ghost expects: Option<int>, useBitset: bool, bits: bv32)
    requires f.Valid() && f.table.nBuckets < HashTable.MAX_BUCKETS && Agrees(f, s)
    modifies f`lists, f`entries, f.table, f.table.flags, f.table.keys, f.table.vals
    ensures f.Valid() && |f.entries| == |old(f.entries)| + 1
    ensures Agrees(f, P.Block(s, |old(f.entries)|, u, expects, if useBitset then bits else P.ANY))
    ensures f.table.flags == old(f.table.flags) || fresh(f.table.flags)
    ensures f.table.keys == old(f.table.keys) || fresh(f.table.keys)
    ensures f.table.vals == old(f.table.vals) || fresh(f.table.vals)
  {
    hide HashTable.WellFormed, HashTable.Values, HashTable.NoneDeleted, F.AtHome, F.OwnHeads, P.Block, Represents;
    ghost var queues, entries := Queues(f.table.Model(), f.lists), f.entries;
    var e := f.Enqueue(u, useBitset, bits);
    ghost var queues' := Queues(f.table.Model(), f.lists);
    assert forall v :: queues'(v) == f.Queue(v);
    BlockRefines(queues, queues', entries, f.signals, s, u, expects, if useBitset then bits else P.ANY);
  }

  /** One step of the protocol, carried out on the table and its lists. */
  method Perform(f: F.Futexes, s: P.State, step: P.Step)
    requires f.Valid() && f.table.nBuckets < HashTable.MAX_BUCKETS / 32 && P.Inv(s) && Agrees(f, s)
    requires P.Enabled(s, step) && Numbered(step, |f.entries|)
    modifies f`lists, f`entries, f`signals, f.table, f.table.flags, f.table.keys, f.table.vals
    ensures f.Valid() && Agrees(f, P.Apply(s, step))
    ensures |f.entries| == |old(f.entries)| + if step.Enqueue? || step.WaitBits? then 1 else 0
    ensures f.table.flags == old(f.table.flags) || fresh(f.table.flags)
    ensures f.table.keys == old(f.table.keys) || fresh(f.table.keys)
    ensures f.table.vals == old(f.table.vals) || fresh(f.table.vals)
  {
    hide HashTable.WellFormed, HashTable.Values, HashTable.NoneDeleted, F.AtHome, F.OwnHeads, P.Inv,
         P.Elements, P.Matching, P.WakeSome, P.MoveSome, P.Turn, P.Block, Represents;
    ghost var queues := Queues(f.table.Model(), f.lists);
    match step
    case Store(u, v) =>
      TaskRefines(queues, f.entries, f.signals, s, P.Apply(s, step), 0);
    case Wait(t, u, v) =>
      TaskRefines(queues, f.entries, f.signals, s, P.Apply(s, step), t);
    case Enqueue(t) =>
      BlockStep(f, s, s.task[t].uaddr, Some(s.task[t].val), false, 0);
    case WaitBits(t, u, v, bits) =>
      BlockStep(f, s, u, None, true, bits);
    case Wake(u, n) =>
      WakeStep(f, s, u, n, false, 0);
    case WakeBits(u, n, bits) =>
      WakeStep(f, s, u, n, true, bits);
    case Requeue(u, u2, n2, v3) =>
      RequeueStep(f, s, u, u2, n2, v3);
    case Return(t) =>
      TaskRefines(queues, f.entries, f.signals, s, P.Apply(s, step), t);
  }

  /** Every wait of a run has the number of its entry, counting on from n entries. */
  predicate NumberedRun(steps: seq<P.Step>, n: nat)
    decreases |steps|
  {
    || steps == []
    || (&& Numbered(steps[0], n)
        && NumberedRun(steps[1..], n + if steps[0].Enqueue? || steps[0].WaitBits? then 1 else 0))
  }

  /** A run and one step more. */
  lemma {:induction false} OneMore(s: P.State, run: seq<P.Step>, step: P.Step)
    requires P.Runs(s, run) && P.Enabled(P.After(s, run), step)
    ensures P.Runs(s, run + [step]) && P.After(s, run + [step]) == P.Apply(P.After(s, run), step)
    decreases |run|
  {
    hide P.Apply, P.Enabled;
    if run == [] {
      assert (run + [step])[1..] == [];
    } else {
      OneMore(P.Apply(s, run[0]), run[1..], step);
      assert (run + [step])[1..] == run[1..] + [step] && (run + [step])[0] == run[0];
    }
  }

  /**
   A run of the protocol, carried out on the table and its lists to its end or
   until the table has more buckets than its 32-bit arithmetic is good for.
   */
  method Run(f: F.Futexes, s0: P.State, steps: seq<P.Step>) returns (s: P.State, done: nat)
    requires f.Valid() && P.Inv(s0) && Agrees(f, s0) && P.Runs(s0, steps) && NumberedRun(steps, |f.entries|)
    modifies f`lists, f`entries, f`signals, f.table, f.table.flags, f.table.keys, f.table.vals
    ensures done <= |steps| && (done < |steps| ==> f.table.nBuckets >= HashTable.MAX_BUCKETS / 32)
    ensures P.Runs(s0, steps[..done]) && s == P.After(s0, steps[..done])
    ensures f.Valid() && P.Inv(s) && Agrees(f, s)
  {
    hide HashTable.WellFormed, HashTable.Values, HashTable.NoneDeleted, F.AtHome, F.OwnHeads, P.Inv, P.Enabled, P.Apply,
         Represents, Numbered;
    s, done := s0, 0;
    assert steps[0..] == steps;
    while done < |steps| && f.table.nBuckets < HashTable.MAX_BUCKETS / 32
      invariant done <= |steps| && f.Valid() && P.Inv(s) && Agrees(f, s)
      invariant P.Runs(s, steps[done..]) && NumberedRun(steps[done..], |f.entries|)
      invariant P.Runs(s0, steps[..done]) && s == P.After(s0, steps[..done])
      invariant f.table.flags == old(f.table.flags) || fresh(f.table.flags)
      invariant f.table.keys == old(f.table.keys) || fresh(f.table.keys)
      invariant f.table.vals == old(f.table.vals) || fresh(f.table.vals)
    {
      assert steps[done..][0] == steps[done] && steps[done..][1..] == steps[done + 1..];
      assert steps[..done + 1] == steps[..done] + [steps[done]];
      Perform(f, s, steps[done]);
      P.StepKeeps(s, steps[done]);
      OneMore(s0, steps[..done], steps[done]);
      s := P.Apply(s, steps[done]);
      done := done + 1;
    }
  }

  /** The empty table stands for the state before any wait. */
  lemma InitiallyAgrees(f: F.Futexes, word: map<int, int>)
    requires f.table.Valid() && f.entries == [] && f.signals == [] && forall u :: f.Queue(u) == []
    ensures var s := P.State(word, map[], map[], None); P.Inv(s) && Agrees(f, s)
  {
    P.StartInv(word);
    var queues := Queues(f.table.Model(), f.lists);
    assert forall u :: queues(u) == f.Queue(u);
  }

  /** A run from the start of a process, with no waiter yet and an empty table. */
  method RunFromStart(hash: int -> nat, word: map<int, int>, steps: seq<P.Step>)
    returns (f: F.Futexes, s: P.State, done: nat)
    requires P.Runs(P.State(word, map[], map[], None), steps) && NumberedRun(steps, 0)
    ensures done <= |steps| && (done < |steps| ==> f.table.nBuckets >= HashTable.MAX_BUCKETS / 32)
    ensures var s0 := P.State(word, map[], map[], None);
            P.Runs(s0, steps[..done]) && s == P.After(s0, steps[..done])
    ensures f.Valid() && P.Inv(s) && Agrees(f, s)
  {
    f := new F.Futexes(hash);
    InitiallyAgrees(f, word);
    s, done := Run(f, P.State(word, map[], map[], None), steps);
  }

  /**
   No lost wakeup, on the table: whoever is in a queue of the table after the
   word left v, a covering wake and a further run is not waiting for v.
   */
  lemma NoLostWakeup(f: F.Futexes, s: P.State, u: int, v: int, n: int, steps: seq<P.Step>, e: int)
    requires P.Inv(s) && P.Enabled(s, P.Wake(u, n)) && !(u in s.word && s.word[u] == v)
    requires n < 0 || |P.Queue(s, u)| <= n
    requires P.Runs(P.Apply(s, P.Wake(u, n)), steps) && forall i :: 0 <= i < |steps| ==> P.Leaves(steps[i], u, v)
    requires f.table.Valid() && Agrees(f, P.After(P.Apply(s, P.Wake(u, n)), steps)) && e in f.Queue(u)
    ensures 0 <= e < |f.entries| && e !in f.signals && f.entries[e].uaddr == u
    ensures P.TaskOf(P.After(P.Apply(s, P.Wake(u, n)), steps), e).expects != Some(v)
  {
    hide HashTable.WellFormed, HashTable.Values, P.Inv, P.Apply, P.Enabled, P.Leaves;
    var queues := Queues(f.table.Model(), f.lists);
    var s1 := P.Apply(s, P.Wake(u, n));
    var s2 := P.After(s1, steps);
    assert queues(u) == f.Queue(u);
    P.NoLostWakeup(s, u, v, n, steps, e);
    P.StepKeeps(s, P.Wake(u, n));
    P.RunKeeps(s1, steps);
    QueuedWait(queues, f.entries, f.signals, s2, u, e);
    assert TaskAgrees(P.TaskOf(s2, e), f.entries[e], e in f.signals);
  }
}
