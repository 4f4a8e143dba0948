/**
 Which pending signal is delivered. Signal sets are sets of the numbers 1 to 64.
 The search for the lowest one looks at an int, the low half of the 64-bit word,
 and then insists on a signal below 32.
 */
module PendingSignals {

  predicate SignalSet(s: set<int>) {
    forall x :: x in s ==> 1 <= x <= 64
  }

  ghost predicate Lowest(s: set<int>, x: int) {
    x in s && forall y :: y in s ==> x <= y
  }

  /** The signals of a set up to k. */
  function UpTo(s: set<int>, k: int): (r: set<int>) {
    set x | x in s && x <= k
  }

  /** What is known once everything up to k is gone and the lowest of the rest is sig. */
  lemma PoppedNext(d: set<int>, handled: set<int>, k: int, sig: int)
    requires Lowest(d - UpTo(d, k), sig) && forall x :: x in d * handled ==> k < x
    ensures k < sig && sig in d && UpTo(d, sig) == UpTo(d, k) + {sig}
    ensures forall x :: x in d * handled ==> sig <= x
  {
    forall x | x in d
      ensures k < x ==> sig <= x
    {
      assert k < x ==> x in d - UpTo(d, k);
    }
  }

  lemma Rest(d: set<int>, handled: set<int>, k: int)
    requires forall x :: x in d * handled ==> k < x
    ensures d - UpTo(d, k) == {} ==> d * handled == {} && UpTo(d, k) == d
    ensures (forall x :: x in d - UpTo(d, k) ==> x >= 32) ==> (forall x :: x in d * handled ==> x >= 32)
    ensures d - UpTo(d, k) != {} && (forall x :: x in d - UpTo(d, k) ==> x >= 32) ==> exists x :: x in d && x >= 32
  {
    var r := d - UpTo(d, k);
    forall x | x in d
      ensures x in r || x <= k
    {
    }
    if r != {} {
      var x :| x in r;
      assert x in d;
    }
  }

  class Task {
    var pending: set<int>
    var mask: set<int>
    var halted: bool

    /** __builtin_ffs on the low half of a signal word: its lowest signal, or 0. */
    static method Ffs(s: set<int>) returns (r: int)
      requires SignalSet(s)
      ensures 0 <= r <= 32
      ensures r == 0 <==> forall x :: x in s ==> x > 32
      ensures r != 0 ==> Lowest(s, r)
    {
      r := 1;
      while r <= 32 && r !in s
        invariant 1 <= r <= 33 && forall x :: x in s ==> r <= x
      {
        r := r + 1;
      }
      if r > 32 {
        r := 0;
      }
    }

    /**
     pop_signal: takes the lowest deliverable signal, 0 if there is none. Its
     assertion fails exactly when signals are deliverable, but none below 32.
     */
    method Pop() returns (sig: int)
      requires !halted && SignalSet(pending)
      modifies this`pending, this`halted
      ensures SignalSet(pending)
      ensures halted <==> old(pending) - mask != {} && forall x :: x in old(pending) - mask ==> x >= 32
      ensures sig == 0 && !halted <==> old(pending) - mask == {}
      ensures sig == 0 || halted ==> pending == old(pending)
      ensures !halted && sig != 0 ==> Lowest(old(pending) - mask, sig) && sig < 32 && pending == old(pending) - {sig}
    {
      var p := pending - mask;
      if p == {} {
        return 0;
      }
      sig := Ffs(p);
      if !(0 < sig < 32) {
        halted := true;
      } else {
        pending := pending - {sig};
      }
    }

    /** With signal 40 pending and nothing blocked, there is a signal to deliver and the assertion fails. */
    method PopFails() returns (sig: int)
      requires !halted && pending == {40} && mask == {}
      modifies this`pending, this`halted
      ensures halted
    {
      assert pending - mask == {40} && 40 in pending - mask;
      sig := Pop();
    }

    /**
     wake_sighandler: pops signals until one has a handler, which is the one to
     deliver; those below it have none and are dropped. It comes to the failing
     assertion exactly when no signal below 32 is to be delivered and a higher
     one is pending.
     */
    method Wake(handled: set<int>) returns (sig: int)
      requires !halted && SignalSet(pending)
      modifies this`pending, this`halted
      ensures SignalSet(pending)
      ensures var d := old(pending) - mask;
              && (halted <==> (forall x :: x in d * handled ==> x >= 32) && (exists x :: x in d && x >= 32))
              && (!halted && sig != 0 ==> Lowest(d * handled, sig) && pending == old(pending) - UpTo(d, sig))
              && (!halted && sig == 0 ==> d * handled == {} && pending == old(pending) - d)
    {
      ghost var d, k := pending - mask, 0;
      while true
        invariant !halted && SignalSet(pending) && 0 <= k < 32
        invariant pending == old(pending) - UpTo(d, k) && d == old(pending) - mask
        invariant forall x :: x in d * handled ==> k < x
        decreases 32 - k
      {
        assert pending - mask == d - UpTo(d, k);
        Rest(d, handled, k);
        sig := Pop();
        if halted || sig == 0 {
          assert !halted ==> forall x :: x in d ==> x <= k;
          return;
        }
        PoppedNext(d, handled, k, sig);
        if sig in handled {
          assert sig in d * handled;
          return;
        }
        k := sig;
      }
    }
  }
}
