/**
 The private futex protocol as a state machine. Every operation runs under one
 mutex, but guest stores happen at any time: a waiter that has compared the word
 still holds the mutex when the word changes under it. A blocked waiter returns
 only after a signal.
 */
module FutexProtocol {
  import opened Common
  import opened FutexQueues

  datatype Task =
    | Running
    | Checked(uaddr: int, val: int)
    | Blocked(uaddr: int, expects: Option<int>, bits: bv32, signalled: bool)

  datatype State = State(word: map<int, int>, queue: map<int, seq<int>>, task: map<int, Task>, holder: Option<int>)

  datatype Step =
    | Store(u: int, v: int)
    | Wait(t: int, u: int, v: int)
    | Enqueue(t: int)
    | WaitBits(t: int, u: int, v: int, bits: bv32)
    | Wake(u: int, n: int)
    | WakeBits(u: int, n: int, bits: bv32)
    | Requeue(u: int, u2: int, n2: int, v3: int)
    | Return(t: int)

  const ANY: bv32 := 0xffff_ffff

  function Queue(s: State, u: int): (q: seq<int>) {
    if u in s.queue then s.queue[u] else []
  }

  function TaskOf(s: State, t: int): (k: Task) {
    if t in s.task then s.task[t] else Running
  }

  /** t is blocked on the entry of address u and nobody has signalled it. */
  predicate Waits(s: State, t: int, u: int) {
    TaskOf(s, t).Blocked? && TaskOf(s, t).uaddr == u && !TaskOf(s, t).signalled
  }

  /** The entries of a queue that a wake with these bits matches. */
  function Matching(s: State, u: int, bits: bv32): (hit: set<int>) {
    set t | t in Queue(s, u) && TaskOf(s, t).Blocked? && Overlap(TaskOf(s, t).bits, bits)
  }

  /** What a match is: a bit in common; WAIT's entries have them all. */
  lemma MatchingMeans(s: State, u: int, bits: bv32, t: int)
    ensures t in Matching(s, u, bits) <==>
            t in Queue(s, u) && TaskOf(s, t).Blocked? && Share(TaskOf(s, t).bits, bits)
    ensures t in Queue(s, u) && TaskOf(s, t).Blocked? && TaskOf(s, t).bits == ANY ==>
            (t in Matching(s, u, bits) <==> bits != 0)
  {
    hide Share, Overlap;
    if TaskOf(s, t).Blocked? {
      ShareIff(TaskOf(s, t).bits, bits);
      ShareAny(bits);
    }
  }

  function Signal(k: Task): (k': Task) {
    if k.Blocked? then k.(signalled := true) else k
  }

  function Move(k: Task, u: int): (k': Task) {
    if k.Blocked? then k.(uaddr := u) else k
  }

  function WakeSome(s: State, u: int, hit: set<int>, n: int): (s': State) {
    var w := Woken(Queue(s, u), hit, n);
    s.(queue := s.queue[u := Rest(Queue(s, u), hit, n)],
       task := map t | t in s.task :: if t in w then Signal(s.task[t]) else s.task[t])
  }

  function MoveSome(s: State, u: int, u2: int, n: int): (s': State) {
    var q := Queue(s, u);
    var k := Upto(n, |q|);
    s.(queue := s.queue[u := q[k..]][u2 := Queue(s, u2) + q[..k]],
       task := map t | t in s.task :: if t in q[..k] then Move(s.task[t], u2) else s.task[t])
  }

  /** A requeue onto the same address turns the queue. */
  function Turn(s: State, u: int, n: int): (s': State)
    requires |Queue(s, u)| >= 2 ==> n >= 0
  {
    s.(queue := s.queue[u := Rotated(Queue(s, u), Turns(Queue(s, u), n))])
  }

  function Elements(q: seq<int>): (s: set<int>) {
    set i | 0 <= i < |q| :: q[i]
  }

  predicate Enabled(s: State, step: Step) {
    match step
    case Store(u, v) => true
    case Wait(t, u, v) => s.holder == None && TaskOf(s, t) == Running
    case Enqueue(t) => s.holder == Some(t) && TaskOf(s, t).Checked?
    case WaitBits(t, u, v, bits) => s.holder == None && TaskOf(s, t) == Running
    case Wake(u, n) => s.holder == None
    case WakeBits(u, n, bits) => s.holder == None
    case Requeue(u, u2, n2, v3) =>
      s.holder == None && (u == u2 && u in s.word && s.word[u] == v3 && |Queue(s, u)| > 2 ==> n2 >= 0)
    case Return(t) => s.holder == None && TaskOf(s, t).Blocked? && TaskOf(s, t).signalled
  }

  function Block(s: State, t: int, u: int, expects: Option<int>, bits: bv32): (s': State) {
    s.(queue := s.queue[u := Queue(s, u) + [t]], task := s.task[t := Blocked(u, expects, bits, false)], holder := None)
  }

  /** One step; WAIT_BITSET is given a value like WAIT, but never looks at the word. */
  function Apply(s: State, step: Step): (s': State)
    requires Enabled(s, step)
  {
    match step
    case Store(u, v) => s.(word := s.word[u := v])
    case Wait(t, u, v) =>
      if u in s.word && s.word[u] == v then s.(task := s.task[t := Checked(u, v)], holder := Some(t)) else s
    case Enqueue(t) => Block(s, t, s.task[t].uaddr, Some(s.task[t].val), ANY)
    case WaitBits(t, u, v, bits) => Block(s, t, u, None, bits)
    case Wake(u, n) => WakeSome(s, u, Elements(Queue(s, u)), n)
    case WakeBits(u, n, bits) => WakeSome(s, u, Matching(s, u, bits), n)
    case Requeue(u, u2, n2, v3) =>
      if u !in s.word || s.word[u] != v3 then s
      else if u == u2 then
        WakesPrefix(Queue(s, u), Elements(Queue(s, u)), 1);
        Turn(WakeSome(s, u, Elements(Queue(s, u)), 1), u, n2)
      else MoveSome(WakeSome(s, u, Elements(Queue(s, u)), 1), u, u2, n2)
    case Return(t) => s.(task := s.task[t := Running])
  }

  predicate Runs(s: State, steps: seq<Step>)
    decreases |steps|
  {
    steps == [] || (Enabled(s, steps[0]) && Runs(Apply(s, steps[0]), steps[1..]))
  }

  function After(s: State, steps: seq<Step>): (s': State)
    requires Runs(s, steps)
    decreases |steps|
  {
    if steps == [] then s else After(Apply(s, steps[0]), steps[1..])
  }

  // ---- a blocked waiter is in exactly one queue ------------------------

  function Count(s: State, u: int, t: int): (n: nat) {
    multiset(Queue(s, u))[t]
  }

  /** Every task is in the queue of an address once if it waits there, and not at all otherwise. */
  ghost predicate Placed(s: State) {
    forall u, t {:trigger Count(s, u, t)} :: Count(s, u, t) == if Waits(s, t, u) then 1 else 0
  }

  /** The mutex is held by the one task that has compared its word and not yet queued. */
  ghost predicate Held(s: State) {
    forall t {:trigger TaskOf(s, t)} :: TaskOf(s, t).Checked? <==> s.holder == Some(t)
  }

  ghost predicate Inv(s: State) {
    Placed(s) && Held(s)
  }

  lemma CountIn(q: seq<int>, t: int)
    ensures t in q <==> multiset(q)[t] > 0
  {
    assert t in q <==> t in multiset(q);
  }

  lemma WakePlaced(s: State, u: int, hit: set<int>, n: int)
    requires Inv(s)
    ensures Inv(WakeSome(s, u, hit, n))
  {
    hide Held;
    var s', q := WakeSome(s, u, hit, n), Queue(s, u);
    var w, r := Woken(q, hit, n), Rest(q, hit, n);
    WakeConserves(q, hit, n);
    forall u', t
      ensures Count(s', u', t) == if Waits(s', t, u') then 1 else 0
    {
      assert Count(s, u', t) == if Waits(s, t, u') then 1 else 0;
      assert Count(s, u, t) == if Waits(s, t, u) then 1 else 0;
      CountIn(w, t);
      assert Count(s, u, t) == multiset(w)[t] + multiset(r)[t];
      assert t !in w ==> TaskOf(s', t) == TaskOf(s, t);
      assert t in w ==> t in s.task;
    }
    WakeHeld(s, u, hit, n);
  }

  lemma WakeHeld(s: State, u: int, hit: set<int>, n: int)
    requires Held(s)
    ensures Held(WakeSome(s, u, hit, n))
  {
    forall t
      ensures TaskOf(WakeSome(s, u, hit, n), t).Checked? <==> s.holder == Some(t)
    {
      assert TaskOf(s, t).Checked? <==> s.holder == Some(t);
    }
  }

  /** Where the entries of two queues are after some moved from u to u2. */
  lemma MoveCounts(s: State, u: int, u2: int, n: int, t: int)
    requires u != u2
    ensures var q := Queue(s, u);
            var k := Upto(n, |q|);
            var s' := MoveSome(s, u, u2, n);
            && Count(s, u, t) == multiset(q[..k])[t] + multiset(q[k..])[t]
            && Count(s', u, t) == multiset(q[k..])[t]
            && Count(s', u2, t) == Count(s, u2, t) + multiset(q[..k])[t]
            && (t in q[..k] <==> multiset(q[..k])[t] > 0)
  {
    var q := Queue(s, u);
    var k := Upto(n, |q|);
    assert q == q[..k] + q[k..];
    CountIn(q[..k], t);
  }

  lemma MoveTask(s: State, u: int, u2: int, n: int, u': int, t: int)
    requires u != u2
    ensures var s', q := MoveSome(s, u, u2, n), Queue(s, u);
            TaskOf(s', t) == if t in q[..Upto(n, |q|)] then Move(TaskOf(s, t), u2) else TaskOf(s, t)
    ensures u' != u && u' != u2 ==> Count(MoveSome(s, u, u2, n), u', t) == Count(s, u', t)
  {
    hide Upto;
  }

  lemma MoveAt(s: State, u: int, u2: int, n: int, u': int, t: int)
    requires Placed(s) && u != u2
    ensures Count(MoveSome(s, u, u2, n), u', t) == if Waits(MoveSome(s, u, u2, n), t, u') then 1 else 0
  {
    hide MoveSome, Count, Queue, TaskOf, Upto;
    assert Count(s, u', t) == if Waits(s, t, u') then 1 else 0;
    assert Count(s, u, t) == if Waits(s, t, u) then 1 else 0;
    assert Count(s, u2, t) == if Waits(s, t, u2) then 1 else 0;
    MoveCounts(s, u, u2, n, t);
    MoveTask(s, u, u2, n, u', t);
  }

  lemma MovePlaced(s: State, u: int, u2: int, n: int)
    requires Inv(s) && u != u2
    ensures Inv(MoveSome(s, u, u2, n))
  {
    hide Count, Waits, MoveSome;
    forall u', t
      ensures Count(MoveSome(s, u, u2, n), u', t) == if Waits(MoveSome(s, u, u2, n), t, u') then 1 else 0
    {
      MoveAt(s, u, u2, n, u', t);
    }
    MoveHeld(s, u, u2, n);
  }

  lemma MoveHeld(s: State, u: int, u2: int, n: int)
    requires Held(s)
    ensures Held(MoveSome(s, u, u2, n))
  {
    forall t
      ensures TaskOf(MoveSome(s, u, u2, n), t).Checked? <==> s.holder == Some(t)
    {
      assert TaskOf(s, t).Checked? <==> s.holder == Some(t);
    }
  }

  lemma BlockCount(s: State, t: int, u: int, expects: Option<int>, bits: bv32, u': int, t': int)
    ensures Count(Block(s, t, u, expects, bits), u', t') == Count(s, u', t') + if u' == u && t' == t then 1 else 0
  {
    var s' := Block(s, t, u, expects, bits);
    if u' == u {
      assert multiset(Queue(s, u) + [t]) == multiset(Queue(s, u)) + multiset([t]);
    }
  }

  lemma BlockAt(s: State, t: int, u: int, expects: Option<int>, bits: bv32, u': int, t': int)
    requires Count(s, u', t') == if Waits(s, t', u') then 1 else 0
    requires !TaskOf(s, t).Blocked?
    ensures var s' := Block(s, t, u, expects, bits);
            Count(s', u', t') == if Waits(s', t', u') then 1 else 0
  {
    hide Count;
    BlockCount(s, t, u, expects, bits, u', t');
  }

  lemma BlockPlaced(s: State, t: int, u: int, expects: Option<int>, bits: bv32)
    requires Placed(s) && (s.holder == None || s.holder == Some(t)) && Held(s) && !TaskOf(s, t).Blocked?
    ensures Inv(Block(s, t, u, expects, bits))
  {
    hide Count, Waits;
    var s' := Block(s, t, u, expects, bits);
    forall u', t'
      ensures Count(s', u', t') == if Waits(s', t', u') then 1 else 0
    {
      assert Count(s, u', t') == if Waits(s, t', u') then 1 else 0;
      BlockAt(s, t, u, expects, bits, u', t');
    }
    forall t'
      ensures TaskOf(s', t').Checked? <==> s'.holder == Some(t')
    {
      assert TaskOf(s, t').Checked? <==> s.holder == Some(t');
    }
  }

  /** A task that is not queued anywhere may change to another state in which it is not. */
  lemma TaskPlaced(s: State, t: int, k: Task, holder: Option<int>)
    requires Inv(s) && (forall u :: !Waits(s, t, u)) && (k.Blocked? ==> k.signalled)
    requires holder == if k.Checked? then Some(t) else None
    requires s.holder == None
    ensures Inv(s.(task := s.task[t := k], holder := holder))
  {
    var s' := s.(task := s.task[t := k], holder := holder);
    forall u', t'
      ensures Count(s', u', t') == if Waits(s', t', u') then 1 else 0
    {
      assert Count(s, u', t') == if Waits(s, t', u') then 1 else 0;
    }
    forall t'
      ensures TaskOf(s', t').Checked? <==> s'.holder == Some(t')
    {
      assert TaskOf(s, t').Checked? <==> s.holder == Some(t');
    }
  }

  lemma StepKeeps(s: State, step: Step)
    requires Inv(s) && Enabled(s, step)
    ensures Inv(Apply(s, step))
  {
    match step
    case Store(u, v) =>
      StorePlaced(s, u, v);
    case Wait(t, u, v) =>
      TaskPlaced(s, t, Checked(u, v), Some(t));
    case Enqueue(t) =>
      BlockPlaced(s, t, s.task[t].uaddr, Some(s.task[t].val), ANY);
    case WaitBits(t, u, v, bits) =>
      BlockPlaced(s, t, u, None, bits);
    case Wake(u, n) =>
      WakePlaced(s, u, Elements(Queue(s, u)), n);
    case WakeBits(u, n, bits) =>
      WakePlaced(s, u, Matching(s, u, bits), n);
    case Requeue(u, u2, n2, v3) =>
      WakePlaced(s, u, Elements(Queue(s, u)), 1);
      WakesPrefix(Queue(s, u), Elements(Queue(s, u)), 1);
      if u !in s.word || s.word[u] != v3 {
      } else if u == u2 {
        TurnPlaced(WakeSome(s, u, Elements(Queue(s, u)), 1), u, n2);
      } else {
        MovePlaced(WakeSome(s, u, Elements(Queue(s, u)), 1), u, u2, n2);
      }
    case Return(t) =>
      TaskPlaced(s, t, Running, None);
      assert s.(task := s.task[t := Running]) == s.(task := s.task[t := Running], holder := None);
  }

  lemma TurnPlaced(s: State, u: int, n: int)
    requires Inv(s) && (|Queue(s, u)| >= 2 ==> n >= 0)
    ensures Inv(Turn(s, u, n))
  {
    hide Rotated, Turns;
    var s' := Turn(s, u, n);
    RotatedConserves(Queue(s, u), Turns(Queue(s, u), n));
    assert forall t :: TaskOf(s', t) == TaskOf(s, t);
    forall u', t
      ensures Count(s', u', t) == if Waits(s', t, u') then 1 else 0
    {
      assert Count(s, u', t) == if Waits(s, t, u') then 1 else 0;
      assert multiset(Queue(s', u')) == multiset(Queue(s, u'));
    }
  }

  lemma StorePlaced(s: State, u: int, v: int)
    requires Inv(s)
    ensures Inv(s.(word := s.word[u := v]))
  {
    var s' := s.(word := s.word[u := v]);
    assert forall u, t :: Count(s', u, t) == Count(s, u, t) && (Waits(s', t, u) <==> Waits(s, t, u));
    assert forall t :: TaskOf(s', t) == TaskOf(s, t);
  }

  /** In every state of every run, each blocked waiter is in exactly one queue: that of its entry's address. */
  lemma {:induction false} RunKeeps(s: State, steps: seq<Step>)
    requires Inv(s) && Runs(s, steps)
    ensures Inv(After(s, steps))
    decreases |steps|
  {
    if steps != [] {
      StepKeeps(s, steps[0]);
      RunKeeps(Apply(s, steps[0]), steps[1..]);
    }
  }

  lemma StartInv(word: map<int, int>)
    ensures Inv(State(word, map[], map[], None))
  {
  }

  // ---- no lost wakeup --------------------------------------------------

  /** Nobody who expects v is queued at u, or about to be, and the word is not v. */
  ghost predicate Quiet(s: State, u: int, v: int) {
    && !(u in s.word && s.word[u] == v)
    && (forall t {:trigger TaskOf(s, t)} :: TaskOf(s, t) != Checked(u, v))
    && (forall t {:trigger TaskOf(s, t)} :: Waits(s, t, u) ==> TaskOf(s, t).expects != Some(v))
  }

  /** A step that neither stores v to u nor moves waiters onto u. */
  predicate Leaves(step: Step, u: int, v: int) {
    step != Store(u, v) && !(step.Requeue? && step.u2 == u)
  }

  lemma QuietWake(s: State, u: int, v: int, u': int, hit: set<int>, n: int)
    requires Quiet(s, u, v)
    ensures Quiet(WakeSome(s, u', hit, n), u, v)
  {
    hide Rest;
    var s' := WakeSome(s, u', hit, n);
    forall t
      ensures TaskOf(s', t) != Checked(u, v) && (Waits(s', t, u) ==> TaskOf(s', t).expects != Some(v))
    {
      assert TaskOf(s, t) != Checked(u, v);
      assert Waits(s, t, u) ==> TaskOf(s, t).expects != Some(v);
    }
  }

  lemma QuietMove(s: State, u: int, v: int, u': int, u2: int, n: int)
    requires Quiet(s, u, v) && u2 != u
    ensures Quiet(MoveSome(s, u', u2, n), u, v)
  {
    var s' := MoveSome(s, u', u2, n);
    forall t
      ensures TaskOf(s', t) != Checked(u, v) && (Waits(s', t, u) ==> TaskOf(s', t).expects != Some(v))
    {
      assert TaskOf(s, t) != Checked(u, v);
      assert Waits(s, t, u) ==> TaskOf(s, t).expects != Some(v);
    }
  }

  lemma QuietTask(s: State, s': State, u: int, v: int, t0: int)
    requires Quiet(s, u, v) && s'.word == s.word
    requires forall t {:trigger TaskOf(s', t)} :: t != t0 ==> TaskOf(s', t) == TaskOf(s, t)
    requires TaskOf(s', t0) != Checked(u, v) && (Waits(s', t0, u) ==> TaskOf(s', t0).expects != Some(v))
    ensures Quiet(s', u, v)
  {
    forall t
      ensures TaskOf(s', t) != Checked(u, v) && (Waits(s', t, u) ==> TaskOf(s', t).expects != Some(v))
    {
      assert TaskOf(s, t) != Checked(u, v);
      assert Waits(s, t, u) ==> TaskOf(s, t).expects != Some(v);
    }
  }

  lemma QuietStep(s: State, step: Step, u: int, v: int)
    requires Quiet(s, u, v) && Enabled(s, step) && Leaves(step, u, v)
    ensures Quiet(Apply(s, step), u, v)
  {
    match step
    case Store(u', v') =>
      var s' := Apply(s, step);
      assert forall t :: TaskOf(s', t) == TaskOf(s, t);
    case Wait(t, u', v') =>
      QuietTask(s, Apply(s, step), u, v, t);
    case Enqueue(t) =>
      assert TaskOf(s, t) != Checked(u, v);
      QuietTask(s, Apply(s, step), u, v, t);
    case WaitBits(t, u', v', bits) =>
      QuietTask(s, Apply(s, step), u, v, t);
    case Wake(u', n) =>
      QuietWake(s, u, v, u', Elements(Queue(s, u')), n);
    case WakeBits(u', n, bits) =>
      QuietWake(s, u, v, u', Matching(s, u', bits), n);
    case Requeue(u', u2, n2, v3) =>
      QuietWake(s, u, v, u', Elements(Queue(s, u')), 1);
      if u' == u2 {
        assert forall t ::
            TaskOf(Apply(s, step), t) == TaskOf(WakeSome(s, u', Elements(Queue(s, u')), 1), t) || Apply(s, step) == s;
      } else {
        QuietMove(WakeSome(s, u', Elements(Queue(s, u')), 1), u, v, u', u2, n2);
      }
    case Return(t) =>
      QuietTask(s, Apply(s, step), u, v, t);
  }

  lemma {:induction false} QuietRun(s: State, steps: seq<Step>, u: int, v: int)
    requires Quiet(s, u, v) && Runs(s, steps) && forall i :: 0 <= i < |steps| ==> Leaves(steps[i], u, v)
    ensures Quiet(After(s, steps), u, v)
    decreases |steps|
  {
    if steps != [] {
      QuietStep(s, steps[0], u, v);
      QuietRun(Apply(s, steps[0]), steps[1..], u, v);
    }
  }

  /** A wake whose count covers the whole queue leaves nobody there. */
  lemma WakeEmpties(s: State, u: int, n: int)
    requires n < 0 || |Queue(s, u)| <= n
    ensures Queue(WakeSome(s, u, Elements(Queue(s, u)), n), u) == []
  {
    WakesPrefix(Queue(s, u), Elements(Queue(s, u)), n);
  }

  /**
   No lost wakeup: once the word has left v and a wake that covers the queue has
   run, then through every run without a store of v there and without a requeue
   onto the address, no waiter expecting v is queued there.
   */
  lemma NoLostWakeup(s: State, u: int, v: int, n: int, steps: seq<Step>, t: int)
    requires Inv(s) && Enabled(s, Wake(u, n)) && !(u in s.word && s.word[u] == v)
    requires n < 0 || |Queue(s, u)| <= n
    requires Runs(Apply(s, Wake(u, n)), steps) && forall i :: 0 <= i < |steps| ==> Leaves(steps[i], u, v)
    requires t in Queue(After(Apply(s, Wake(u, n)), steps), u)
    ensures TaskOf(After(Apply(s, Wake(u, n)), steps), t).Blocked?
    ensures TaskOf(After(Apply(s, Wake(u, n)), steps), t).expects != Some(v)
  {
    var s1 := Apply(s, Wake(u, n));
    StepKeeps(s, Wake(u, n));
    WakeEmpties(s, u, n);
    forall t
      ensures TaskOf(s1, t) != Checked(u, v) && !Waits(s1, t, u)
    {
      assert Count(s1, u, t) == 0;
      assert TaskOf(s1, t).Checked? <==> s1.holder == Some(t);
    }
    QuietRun(s1, steps, u, v);
    RunKeeps(s1, steps);
    var s2 := After(s1, steps);
    CountIn(Queue(s2, u), t);
    assert Count(s2, u, t) == if Waits(s2, t, u) then 1 else 0;
  }

  /**
   A bit-set wake signals only waiters that share a bit with it. If its count is
   not used up, whoever is left in the queue shares none.
   */
  lemma WakeBitsMeans(s: State, u: int, n: int, bits: bv32, t: int)
    requires Inv(s) && Enabled(s, WakeBits(u, n, bits))
    ensures var s' := Apply(s, WakeBits(u, n, bits));
            && (Waits(s, t, u) && !Waits(s', t, u) ==> TaskOf(s', t).signalled && Share(TaskOf(s, t).bits, bits))
            && (t in Queue(s', u) && (n < 0 || |Queue(s, u)| - |Queue(s', u)| < n) ==>
                  TaskOf(s', t).Blocked? && !Share(TaskOf(s', t).bits, bits))
  {
    var hit, q := Matching(s, u, bits), Queue(s, u);
    var s' := WakeSome(s, u, hit, n);
    WakePlaced(s, u, hit, n);
    WakeMeans(q, hit, n);
    WakeConserves(q, hit, n);
    MatchingMeans(s, u, bits, t);
    assert |multiset(Woken(q, hit, n)) + multiset(Rest(q, hit, n))| == |multiset(q)|;
    CountIn(Queue(s', u), t);
    CountIn(q, t);
    CountIn(Woken(q, hit, n), t);
    assert Count(s', u, t) == if Waits(s', t, u) then 1 else 0;
    assert Count(s, u, t) == if Waits(s, t, u) then 1 else 0;
    hide Woken, Rest, Share, Overlap;
  }

  // ---- where the code falls short --------------------------------------

  /** The machine is never stuck: a mutex that is held can be given back, and without it every operation can run. */
  lemma NeverStuck(s: State, t: int, u: int, u2: int, n: int, v: int, bits: bv32)
    requires Inv(s)
    ensures Enabled(s, Store(u, v))
    ensures s.holder.Some? ==>
              Enabled(s, Enqueue(s.holder.value)) && Apply(s, Enqueue(s.holder.value)).holder == None
    ensures s.holder == None ==> Enabled(s, Wake(u, n)) && Enabled(s, WakeBits(u, n, bits))
    ensures s.holder == None && (n >= 0 || u != u2 || |Queue(s, u)| <= 2) ==> Enabled(s, Requeue(u, u2, n, v))
    ensures s.holder == None && TaskOf(s, t) == Running ==>
            Enabled(s, Wait(t, u, v)) && Enabled(s, WaitBits(t, u, v, bits))
    ensures s.holder == None && TaskOf(s, t).Blocked? && TaskOf(s, t).signalled ==> Enabled(s, Return(t))
  {
  }

  /** The step neither wakes nor requeues the waiters of the address. */
  predicate NoWake(step: Step, u: int) {
    step.Wake? || step.WakeBits? || step.Requeue? ==> step.u != u
  }

  /** A task that waits on one address is in no other queue, so that address's wakes pass it by. */
  lemma WakeElsewhere(s: State, t: int, u: int, u': int, hit: set<int>, n: int)
    requires Inv(s) && Waits(s, t, u) && u' != u
    ensures TaskOf(WakeSome(s, u', hit, n), t) == TaskOf(s, t)
  {
    assert Count(s, u', t) == 0;
    CountIn(Queue(s, u'), t);
    WakeConserves(Queue(s, u'), hit, n);
    CountIn(Woken(Queue(s, u'), hit, n), t);
  }

  lemma SleepStep(s: State, step: Step, t: int, u: int)
    requires Inv(s) && Waits(s, t, u) && Enabled(s, step) && NoWake(step, u)
    ensures Waits(Apply(s, step), t, u)
  {
    match step
    case Wake(u', n) =>
      WakeElsewhere(s, t, u, u', Elements(Queue(s, u')), n);
    case WakeBits(u', n, bits) =>
      WakeElsewhere(s, t, u, u', Matching(s, u', bits), n);
    case Requeue(u', u2, n2, v3) =>
      var hit := Elements(Queue(s, u'));
      WakeElsewhere(s, t, u, u', hit, 1);
      WakePlaced(s, u', hit, 1);
      assert Count(WakeSome(s, u', hit, 1), u', t) == 0;
      CountIn(Queue(WakeSome(s, u', hit, 1), u'), t);
    case Store(_, _) =>
    case Wait(_, _, _) =>
    case Enqueue(_) =>
    case WaitBits(_, _, _, _) =>
    case Return(_) =>
  }

  lemma {:induction false} SleepsOn(s: State, steps: seq<Step>, t: int, u: int)
    requires Inv(s) && Waits(s, t, u) && Runs(s, steps) && forall i :: 0 <= i < |steps| ==> NoWake(steps[i], u)
    ensures Waits(After(s, steps), t, u)
    decreases |steps|
  {
    if steps != [] {
      SleepStep(s, steps[0], t, u);
      StepKeeps(s, steps[0]);
      SleepsOn(Apply(s, steps[0]), steps[1..], t, u);
    }
  }

  /**
   The guarantee of NoLostWakeup fails for WAIT_BITSET, whose comparison is
   missing. After a wake that covered the queue, WAIT for v returns at once exactly
   when the word is not v. WAIT_BITSET for v blocks whatever the word is, and stays
   in the queue through every run that does not wake there again.
   */
  lemma BitsetLosesWakeup(s: State, t: int, u: int, v: int, n: int, bits: bv32, steps: seq<Step>)
    requires Inv(s) && s.holder == None && TaskOf(s, t) == Running
    requires n < 0 || |Queue(s, u)| <= n
    requires Runs(s, [Wake(u, n), WaitBits(t, u, v, bits)] + steps)
    requires forall i :: 0 <= i < |steps| ==> NoWake(steps[i], u)
    ensures var s1 := Apply(s, Wake(u, n));
            Enabled(s1, Wait(t, u, v)) && (Apply(s1, Wait(t, u, v)) == s1 <==> !(u in s.word && s.word[u] == v))
    ensures Queue(Apply(s, Wake(u, n)), u) == []
    ensures t in Queue(After(s, [Wake(u, n), WaitBits(t, u, v, bits)] + steps), u)
  {
    var run := [Wake(u, n), WaitBits(t, u, v, bits)] + steps;
    var s1 := Apply(s, run[0]);
    assert run[1..][0] == run[1] && run[1..][1..] == steps;
    var s2 := Apply(s1, run[1]);
    assert After(s, run) == After(s2, steps);
    StepKeeps(s, run[0]);
    StepKeeps(s1, run[1]);
    WakeEmpties(s, u, n);
    if u in s.word && s.word[u] == v {
      assert Apply(s1, Wait(t, u, v)).holder == Some(t);
    }
    SleepsOn(s2, steps, t, u);
    RunKeeps(s2, steps);
    var s3 := After(s2, steps);
    assert Count(s3, u, t) == 1;
    CountIn(Queue(s3, u), t);
  }

  /** A waiter that returns without a signal: it frees its entry but does not unlink it. */
  function Abandon(s: State, t: int): (s': State) {
    s.(task := s.task[t := Running])
  }

  /**
   Such a return leaves the freed entry in the queue of its address, with a task
   that is no longer blocked, exactly when the waiter had not been signalled.
   */
  lemma AbandonDangles(s: State, t: int)
    requires Inv(s) && s.holder == None && TaskOf(s, t).Blocked?
    ensures !TaskOf(Abandon(s, t), t).Blocked?
    ensures t in Queue(Abandon(s, t), TaskOf(s, t).uaddr) <==> !TaskOf(s, t).signalled
    ensures (exists u :: t in Queue(Abandon(s, t), u)) <==> !TaskOf(s, t).signalled
    ensures Inv(Abandon(s, t)) <==> TaskOf(s, t).signalled
  {
    var s' := Abandon(s, t);
    forall u
      ensures t in Queue(s', u) <==> Waits(s, t, u)
    {
      assert Count(s, u, t) == if Waits(s, t, u) then 1 else 0;
      CountIn(Queue(s', u), t);
    }
    var u := TaskOf(s, t).uaddr;
    if TaskOf(s, t).signalled {
      TaskPlaced(s, t, Running, None);
      assert s' == s.(task := s.task[t := Running], holder := None);
    } else {
      assert Waits(s, t, u) && t in Queue(s', u);
      assert Count(s, u, t) == 1;
      assert Queue(s', u) == Queue(s, u) && TaskOf(s', t) == Running;
      assert Count(s', u, t) == 1 && !Waits(s', t, u);
    }
  }
}
