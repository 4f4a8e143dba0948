/**
 File-descriptor tables. A table's bitmaps of open and close-on-exec descriptors
 are sequences of bits, 64 to a word, and grow by whole words.
 */
module FdTable {
  import opened Common

  const WORD: int := 64
  const HALF: int := 32

  const EBADF: int := 9
  const EMFILE: int := 24

  /** The sets a table stands for. */
  datatype Fds = Fds(open: set<int>, cloexec: set<int>)

  function Members(bits: seq<bool>, start: int): (s: set<int>) {
    set i | 0 <= i < |bits| && bits[i] :: start + i
  }

  lemma InMembers(bits: seq<bool>, start: int, fd: int)
    ensures fd in Members(bits, start) <==> 0 <= fd - start < |bits| && bits[fd - start]
  {
    if 0 <= fd - start < |bits| && bits[fd - start] {
      assert start + (fd - start) == fd;
    }
  }

  lemma SetMember(bits: seq<bool>, start: int, fd: int, b: bool)
    requires 0 <= fd - start < |bits|
    ensures Members(bits[fd - start := b], start) ==
            if b then Members(bits, start) + {fd} else Members(bits, start) - {fd}
  {
    var bits' := bits[fd - start := b];
    forall x
      ensures x in Members(bits', start) <==>
              x in if b then Members(bits, start) + {fd} else Members(bits, start) - {fd}
    {
      InMembers(bits', start, x);
      InMembers(bits, start, x);
    }
  }

  lemma MoreBits(bits: seq<bool>, start: int, n: nat)
    ensures Members(bits + seq(n, i => false), start) == Members(bits, start)
  {
    var bits' := bits + seq(n, i => false);
    forall x
      ensures x in Members(bits', start) <==> x in Members(bits, start)
    {
      InMembers(bits', start, x);
      InMembers(bits, start, x);
    }
  }

  /** Word i of a bitmap is zero. */
  predicate Zero(bits: seq<bool>, i: int)
    requires 0 <= i && WORD * i + WORD <= |bits|
  {
    forall k :: WORD * i <= k < WORD * i + WORD ==> !bits[k]
  }

  function RoundUp64(n: int): (r: int)
    ensures n <= r < n + WORD && r % WORD == 0
  {
    (n + WORD - 1) / WORD * WORD
  }

  class Table {
    const start: int
    var size: int
    var files: seq<int>
    var open: seq<bool>
    var cloexec: seq<bool>

    ghost predicate Valid()
      reads this
    {
      && 0 <= size && size % WORD == 0
      && |files| == |open| == |cloexec| == size
      && (forall i :: 0 <= i < size && cloexec[i] ==> open[i])
      && (forall i :: 0 <= i < size && open[i] ==> files[i] == start + i)
    }

    ghost function View(): (v: Fds)
      reads this
    {
      Fds(Members(open, start), Members(cloexec, start))
    }

    constructor (first: int, n: int)
      requires 0 <= n
      ensures Valid() && start == first && View() == Fds({}, {}) && size == RoundUp64(n)
    {
      start := first;
      size := RoundUp64(n);
      files := seq(RoundUp64(n), i => 0);
      open := seq(RoundUp64(n), i => false);
      cloexec := seq(RoundUp64(n), i => false);
    }

    /** alloc_fdtable: never shrinks, and opens nothing. */
    method Alloc(n: int)
      requires Valid()
      modifies this`size, this`files, this`open, this`cloexec
      ensures Valid() && View() == old(View())
      ensures size == if RoundUp64(n) <= old(size) then old(size) else RoundUp64(n)
      ensures forall i :: 0 <= i < old(size) ==> files[i] == old(files)[i]
    {
      var newsize := RoundUp64(n);
      if newsize > size {
        MoreBits(open, start, newsize - size);
        MoreBits(cloexec, start, newsize - size);
        files := files + seq(newsize - size, i => 0);
        open := open + seq(newsize - size, i => false);
        cloexec := cloexec + seq(newsize - size, i => false);
        size := newsize;
      }
    }

    /** Marks a descriptor open and fills in its file. */
    method Enter(fd: int, isCloexec: bool)
      requires Valid() && start <= fd < start + size
      modifies this`files, this`open, this`cloexec
      ensures Valid()
      ensures View() == Opened(old(View()), fd, isCloexec)
      ensures fd in View().open && (fd in View().cloexec <==> isCloexec)
      ensures forall x :: x != fd ==>
                (x in View().open <==> x in old(View()).open) && (x in View().cloexec <==> x in old(View()).cloexec)
    {
      SetMember(open, start, fd, true);
      SetMember(cloexec, start, fd, isCloexec);
      open := open[fd - start := true];
      cloexec := cloexec[fd - start := isCloexec];
      files := files[fd - start := fd];
    }

    /** do_get_file: the file of an open descriptor, which carries that descriptor. */
    method GetFile(fd: int) returns (f: Option<int>)
      requires Valid() && start <= fd < start + size
      ensures f == if fd in View().open then Some(fd) else None
    {
      InMembers(open, start, fd);
      if !open[fd - start] {
        return None;
      }
      f := Some(files[fd - start]);
    }

    /** do_close; `n` is what closing the file on the host gives. */
    method Close(fd: int, n: int) returns (ret: int)
      requires Valid()
      modifies this`open, this`cloexec
      ensures Valid()
      ensures ret == if fd in old(View()).open then n else -EBADF
      ensures View() == Closed(old(View()), {fd})
      ensures fd !in View().open && fd !in View().cloexec
      ensures forall x :: x != fd ==>
                (x in View().open <==> x in old(View()).open) && (x in View().cloexec <==> x in old(View()).cloexec)
      ensures fd in old(View()).open ==>
                && 0 <= fd - start < size
                && open == old(open)[fd - start := false] && cloexec == old(cloexec)[fd - start := false]
    {
      InMembers(open, start, fd);
      InMembers(cloexec, start, fd);
      if fd < start || fd >= start + size || !open[fd - start] {
        return -EBADF;
      }
      SetMember(open, start, fd, false);
      SetMember(cloexec, start, fd, false);
      open := open[fd - start := false];
      cloexec := cloexec[fd - start := false];
      ret := n;
    }

    /** fcntl F_SETFD; `n` is what the host's fcntl answers, and a negative answer changes nothing. */
    method SetCloexec(fd: int, on: bool, n: int) returns (ret: int)
      requires Valid()
      modifies this`cloexec
      ensures Valid()
      ensures ret == if fd in old(View()).open then n else -EBADF
      ensures View() == if fd in old(View()).open && n >= 0 then Opened(old(View()), fd, on) else old(View())
      ensures ret >= 0 ==> (fd in View().cloexec <==> on)
      ensures View().open == old(View()).open
      ensures forall x :: x != fd ==> (x in View().cloexec <==> x in old(View()).cloexec)
    {
      InMembers(open, start, fd);
      if fd < start || fd >= start + size || !open[fd - start] {
        return -EBADF;
      }
      if n >= 0 {
        SetMember(cloexec, start, fd, on);
        cloexec := cloexec[fd - start := on];
      }
      ret := n;
    }

    /**
     close_cloexec: word by word, leaving a word as soon as it is zero. It closes
     exactly the close-on-exec descriptors.
     */
    method CloseCloexec(n: int)
      requires Valid() && start == 0
      modifies this`open, this`cloexec
      ensures Valid() && View() == Closed(old(View()), old(View()).cloexec)
      ensures View().cloexec == {}
      ensures forall x :: x in View().open <==> x in old(View()).open && x !in old(View()).cloexec
    {
      hide Swept, Members;
      ghost var open0, cloexec0 := open, cloexec;
      SweptNone(open, cloexec);
      var i := 0;
      while i < size / WORD
        invariant 0 <= i <= size / WORD && Valid() && Swept(open0, cloexec0, open, cloexec, WORD * i)
      {
        var j := 0;
        while j < WORD && !Zero(cloexec, i)
          invariant 0 <= j <= WORD && Valid() && Swept(open0, cloexec0, open, cloexec, WORD * i + j)
        {
          SweptBit(open0, cloexec0, open, cloexec, WORD * i + j);
          if cloexec[WORD * i + j] {
            InMembers(open, start, WORD * i + j);
            var r := Close(j + i * WORD, n);
          }
          j := j + 1;
        }
        SweptWord(open0, cloexec0, open, cloexec, i, j);
        i := i + 1;
      }
      SweptAll(open0, cloexec0, open, cloexec);
    }

    /**
     find_emptyfd: the first free descriptor in the low half of a word; the high
     halves are never looked at.
     */
    method FindEmpty() returns (fd: int)
      requires Valid() && 0 <= start
      ensures fd == -1 <==> forall k :: 0 <= k < size && Low(k) ==> open[k]
      ensures fd != -1 ==> 0 <= fd - start < size && Low(fd - start) && fd !in View().open
      ensures fd != -1 ==> forall k :: 0 <= k < fd - start && Low(k) ==> open[k]
      ensures fd == FirstFree(View().open, start, size, 0)
    {
      var i := 0;
      while i < size / WORD
        invariant 0 <= i <= size / WORD && forall k :: 0 <= k < WORD * i && Low(k) ==> open[k]
      {
        var ret := FirstClear(WORD * i);
        if ret > 0 {
          fd := start + ret - 1 + i * WORD;
          InMembers(open, start, fd);
          LowIn(i, ret - 1);
          FreeSearch(open, start, fd);
          return;
        }
        LowHalf(open, i);
        i := i + 1;
      }
      fd := -1;
      FreeSearch(open, start, fd);
    }

    /** ffs of the complement of the low half of a word: one more than the index of its first clear bit, or 0. */
    method FirstClear(from: int) returns (ret: int)
      requires Valid() && 0 <= from && from + WORD <= size
      ensures 0 <= ret <= HALF
      ensures ret == 0 ==> forall k :: from <= k < from + HALF ==> open[k]
      ensures ret > 0 ==> !open[from + ret - 1] && forall k :: from <= k < from + ret - 1 ==> open[k]
    {
      var k := 0;
      while k < HALF
        invariant 0 <= k <= HALF && forall j :: from <= j < from + k ==> open[j]
      {
        if !open[from + k] {
          return k + 1;
        }
        k := k + 1;
      }
      ret := 0;
    }
  }

  /** Bit k is in the low half of its word. */
  predicate Low(k: int) {
    k % WORD < HALF
  }

  lemma LowIn(i: int, k: int)
    requires 0 <= k < WORD
    ensures Low(WORD * i + k) <==> k < HALF
  {
    assert (WORD * i + k) % WORD == k;
  }

  lemma LowHalf(open: seq<bool>, i: int)
    requires 0 <= i && WORD * i + WORD <= |open|
    requires forall k :: WORD * i <= k < WORD * i + HALF ==> open[k]
    requires forall k :: 0 <= k < WORD * i && Low(k) ==> open[k]
    ensures forall k :: 0 <= k < WORD * (i + 1) && Low(k) ==> open[k]
  {
    forall k | WORD * i <= k < WORD * (i + 1) && Low(k)
      ensures open[k]
    {
      LowIn(i, k - WORD * i);
    }
  }

  /** The close-on-exec descriptors below m are closed, and nothing else has changed. */
  ghost predicate Swept(open0: seq<bool>, cloexec0: seq<bool>, open: seq<bool>, cloexec: seq<bool>, m: int) {
    && |open0| == |cloexec0| == |open| == |cloexec|
    && (forall k :: 0 <= k < |open| ==> open[k] == (open0[k] && !(k < m && cloexec0[k])))
    && (forall k :: 0 <= k < |open| ==> cloexec[k] == (cloexec0[k] && k >= m))
  }

  lemma SweptNone(open: seq<bool>, cloexec: seq<bool>)
    requires |open| == |cloexec|
    ensures Swept(open, cloexec, open, cloexec, 0)
  {
  }

  lemma SweptBit(open0: seq<bool>, cloexec0: seq<bool>, open: seq<bool>, cloexec: seq<bool>, m: int)
    requires Swept(open0, cloexec0, open, cloexec, m) && 0 <= m < |open| == |cloexec|
    ensures if cloexec[m] then Swept(open0, cloexec0, open[m := false], cloexec[m := false], m + 1)
            else Swept(open0, cloexec0, open, cloexec, m + 1)
  {
  }

  /** A word that is done, or is zero, is swept to its end. */
  lemma SweptWord(open0: seq<bool>, cloexec0: seq<bool>, open: seq<bool>, cloexec: seq<bool>, i: int, j: int)
    requires Swept(open0, cloexec0, open, cloexec, WORD * i + j) && 0 <= i && 0 <= j <= WORD
             && WORD * i + WORD <= |open|
    requires j == WORD || Zero(cloexec, i)
    ensures Swept(open0, cloexec0, open, cloexec, WORD * (i + 1))
  {
    if j < WORD {
      forall k | WORD * i + j <= k < WORD * i + WORD
        ensures !cloexec0[k]
      {
        assert !cloexec[k];
      }
    }
  }

  lemma SweptAll(open0: seq<bool>, cloexec0: seq<bool>, open: seq<bool>, cloexec: seq<bool>)
    requires Swept(open0, cloexec0, open, cloexec, |open|)
    ensures Members(open, 0) == Members(open0, 0) - Members(cloexec0, 0) && Members(cloexec, 0) == {}
  {
    forall x
      ensures x in Members(open, 0) <==> x in Members(open0, 0) - Members(cloexec0, 0)
      ensures x !in Members(cloexec, 0)
    {
      InMembers(open, 0, x);
      InMembers(open0, 0, x);
      InMembers(cloexec, 0, x);
      InMembers(cloexec0, 0, x);
    }
  }

  function Opened(v: Fds, fd: int, isCloexec: bool): (v': Fds) {
    Fds(v.open + {fd}, if isCloexec then v.cloexec + {fd} else v.cloexec - {fd})
  }

  function Closed(v: Fds, s: set<int>): (v': Fds) {
    Fds(v.open - s, v.cloexec - s)
  }

  /** A word whose low half is full looks full, although half of it is free. */
  lemma HighHalfUnseen()
    ensures var open := seq(64, i => i < 32);
            (forall k :: 0 <= k < |open| && Low(k) ==> open[k]) && !open[40]
  {
  }

  // ---- both tables -----------------------------------------------------

  datatype Op =
    | DoRegister(newFd: nat, isCloexec: bool)
    | DoClose(fd: int, n: int)
    | DoSetCloexec(fd: int, on: bool, n: int)
    | DoCloseCloexec(n: int)
    | DoKernelDup(isCloexec: bool)
    | DoKernelClose(fd: int, n: int)

  /** The first free descriptor of a table of this size, from bit k on, among the low halves of its words. */
  function FirstFree(open: set<int>, start: int, size: int, k: nat): (fd: int)
    decreases size - k
  {
    if k >= size then -1
    else if Low(k) && start + k !in open then start + k
    else FirstFree(open, start, size, k + 1)
  }

  lemma {:induction false} FirstFreeIs(open: set<int>, start: int, size: int, k: nat, fd: int)
    requires fd == -1 || (k <= fd - start < size && Low(fd - start) && fd !in open)
    requires forall j: nat :: k <= j < (if fd == -1 then size else fd - start) && Low(j) ==> start + j in open
    ensures FirstFree(open, start, size, k) == fd
    decreases size - k
  {
    if k < size && !(Low(k) && start + k !in open) {
      FirstFreeIs(open, start, size, k + 1, fd);
    }
  }

  /** The same on the bits of a table. */
  lemma FreeSearch(bits: seq<bool>, start: int, fd: int)
    requires fd == -1 || (0 <= fd - start < |bits| && Low(fd - start) && !bits[fd - start])
    requires forall k :: 0 <= k < (if fd == -1 then |bits| else fd - start) && Low(k) ==> bits[k]
    ensures FirstFree(Members(bits, start), start, |bits|, 0) == fd
  {
    hide Members, Low;
    InMembers(bits, start, fd);
    forall j: nat | j < (if fd == -1 then |bits| else fd - start) && Low(j)
      ensures start + j in Members(bits, start)
    {
      InMembers(bits, start, start + j);
    }
    FirstFreeIs(Members(bits, start), start, |bits|, 0, fd);
  }

  /** The user's and the kernel's descriptors, as sets. */
  datatype Both = Both(user: Fds, kern: Fds)

  /** A kernel descriptor is wanted and the search finds none. */
  predicate Stuck(v: Both, op: Op, limit: int, size: int) {
    op.DoKernelDup? && FirstFree(v.kern.open, limit, size, 0) == -1
  }

  /** What an operation does to both, as sets; the kernel's descriptors are `size` many and begin at `limit`. */
  function Effect(v: Both, op: Op, limit: int, size: int): (v': Both) {
    match op
    case DoRegister(fd, isCloexec) => if fd < limit then v.(user := Opened(v.user, fd, isCloexec)) else v
    case DoClose(fd, n) => v.(user := Closed(v.user, {fd}))
    case DoSetCloexec(fd, on, n) => if fd in v.user.open && n >= 0 then v.(user := Opened(v.user, fd, on)) else v
    case DoCloseCloexec(n) => v.(user := Closed(v.user, v.user.cloexec))
    case DoKernelDup(isCloexec) =>
      if Stuck(v, op, limit, size) then v
      else v.(kern := Opened(v.kern, FirstFree(v.kern.open, limit, size, 0), isCloexec))
    case DoKernelClose(fd, n) => v.(kern := Closed(v.kern, {fd}))
  }

  function Effects(v: Both, ops: seq<Op>, limit: int, size: int): (v': Both) {
    if ops == [] then v else Effect(Effects(v, ops[..|ops| - 1], limit, size), ops[|ops| - 1], limit, size)
  }

  /** The effect on the user's descriptors, one by one. */
  lemma EffectOnUser(v: Both, op: Op, limit: int, size: int, x: int)
    ensures var v' := Effect(v, op, limit, size).user;
            match op
            case DoRegister(fd, isCloexec) =>
              && (x in v'.open <==> x in v.user.open || (x == fd && fd < limit))
              && (x in v'.cloexec <==> if x == fd && fd < limit then isCloexec else x in v.user.cloexec)
            case DoClose(fd, n) =>
              && (x in v'.open <==> x in v.user.open && x != fd)
              && (x in v'.cloexec <==> x in v.user.cloexec && x != fd)
            case DoSetCloexec(fd, on, n) =>
              && (x in v'.open <==> x in v.user.open)
              && (x in v'.cloexec <==> if x == fd && x in v.user.open && n >= 0 then on else x in v.user.cloexec)
            case DoCloseCloexec(n) => (x in v'.open <==> x in v.user.open && x !in v.user.cloexec) && x !in v'.cloexec
            case DoKernelDup(isCloexec) => v' == v.user
            case DoKernelClose(fd, n) => v' == v.user
  {
  }

  /** The effect on the kernel's: a new one is free, the lowest in a low half, and the user's operations change none. */
  lemma EffectOnKernel(v: Both, op: Op, limit: int, size: int, x: int)
    requires 0 <= limit
    ensures var v' := Effect(v, op, limit, size).kern;
            match op
            case DoKernelDup(isCloexec) =>
              var fd := FirstFree(v.kern.open, limit, size, 0);
              if fd == -1 then v' == v.kern && (0 <= x - limit < size && (x - limit) % 64 < 32 ==> x in v.kern.open)
              else
                && fd !in v.kern.open && 0 <= fd - limit < size && (fd - limit) % 64 < 32
                && (0 <= x - limit < fd - limit && (x - limit) % 64 < 32 ==> x in v.kern.open)
                && (x in v'.open <==> x in v.kern.open || x == fd)
                && (x in v'.cloexec <==> if x == fd then isCloexec else x in v.kern.cloexec)
            case DoKernelClose(fd, n) =>
              && (x in v'.open <==> x in v.kern.open && x != fd)
              && (x in v'.cloexec <==> x in v.kern.cloexec && x != fd)
            case DoRegister(_, _) => v' == v.kern
            case DoClose(_, _) => v' == v.kern
            case DoSetCloexec(_, _, _) => v' == v.kern
            case DoCloseCloexec(_) => v' == v.kern
  {
    FirstFreeMeans(v.kern.open, limit, size, 0, x);
  }

  lemma {:induction false} FirstFreeMeans(open: set<int>, start: int, size: int, k: nat, x: int)
    requires 0 <= start
    ensures var fd := FirstFree(open, start, size, k);
            && (fd == -1 ==> (k <= x - start < size && (x - start) % 64 < 32 ==> x in open))
            && (fd != -1 ==> fd !in open && k <= fd - start < size && (fd - start) % 64 < 32)
            && (fd != -1 ==> (k <= x - start < fd - start && (x - start) % 64 < 32 ==> x in open))
    decreases size - k
  {
    if k < size && !(Low(k) && start + k !in open) {
      FirstFreeMeans(open, start, size, k + 1, x);
    }
  }

  class FileInfo {
    const user: Table
    const kern: Table
    var halted: bool

    ghost predicate Valid()
      reads this, user, kern
    {
      && user != kern && user.Valid() && kern.Valid() && user.start == 0 && 0 <= kern.start
      && forall fd :: fd in user.View().open ==> fd < kern.start
    }

    ghost function View(): (v: Both)
      reads this, user, kern
    {
      Both(user.View(), kern.View())
    }

    /** The tables of a fresh process whose descriptors end at `limit`: the kernel has the last 64. */
    constructor (limit: int)
      requires 64 <= limit
      ensures Valid() && !halted && kern.start == limit - 64 && fresh(user) && fresh(kern)
      ensures View() == Both(Fds({}, {}), Fds({}, {})) && kern.size == 64 && user.size == 64
    {
      kern := new Table(limit - 64, 64);
      user := new Table(0, 64);
      halted := false;
    }

    /** The user's and the kernel's descriptors are different ones, and close-on-exec ones are open. */
    lemma Disjoint()
      requires Valid()
      ensures user.View().open !! kern.View().open
      ensures user.View().cloexec <= user.View().open && kern.View().cloexec <= kern.View().open
    {
      forall fd
        ensures fd in kern.View().open ==> kern.start <= fd
        ensures fd in user.View().cloexec ==> fd in user.View().open
        ensures fd in kern.View().cloexec ==> fd in kern.View().open
      {
        InMembers(kern.open, kern.start, fd);
        InMembers(kern.cloexec, kern.start, fd);
        InMembers(user.open, user.start, fd);
        InMembers(user.cloexec, user.start, fd);
      }
    }

    method Register(fd: nat, isCloexec: bool) returns (ret: int)
      requires Valid()
      modifies user
      ensures Valid() && (ret == 0 || ret == -EMFILE) && (ret == 0 <==> fd < kern.start)
      ensures View() == Effect(old(View()), DoRegister(fd, isCloexec), kern.start, kern.size)
      ensures ret == 0 ==> fd in user.View().open && (fd in user.View().cloexec <==> isCloexec)
      ensures ret != 0 ==> user.View() == old(user.View())
      ensures user.size == if ret == 0 && old(user.size) <= fd then RoundUp64(fd + 1) else old(user.size)
      ensures forall x :: x != fd ==>
                && (x in user.View().open <==> x in old(user.View()).open)
                && (x in user.View().cloexec <==> x in old(user.View()).cloexec)
    {
      hide Members;
      if fd >= kern.start {
        return -EMFILE;
      }
      if user.size <= fd {
        user.Alloc(fd + 1);
      }
      user.Enter(fd, isCloexec);
      ret := 0;
    }

    /** vkern_dup_fd: panics when the search finds nothing. */
    method KernelDup(isCloexec: bool) returns (fd: int)
      requires Valid() && !halted
      modifies this`halted, kern`files, kern`open, kern`cloexec
      ensures Valid()
      ensures halted <==> forall k :: 0 <= k < |old(kern.open)| && Low(k) ==> old(kern.open)[k]
      ensures halted <==> Stuck(old(View()), DoKernelDup(isCloexec), kern.start, kern.size)
      ensures halted ==> kern.View() == old(kern.View())
      ensures !halted ==>
                && kern.start <= fd && fd !in old(kern.View()).open
                && fd == FirstFree(old(kern.View()).open, kern.start, kern.size, 0)
                && kern.View() == Opened(old(kern.View()), fd, isCloexec)
                && fd in kern.View().open && (fd in kern.View().cloexec <==> isCloexec)
      ensures !halted ==> forall x :: x != fd ==>
                && (x in kern.View().open <==> x in old(kern.View()).open)
                && (x in kern.View().cloexec <==> x in old(kern.View()).cloexec)
    {
      hide Members;
      fd := kern.FindEmpty();
      if fd == -1 {
        halted := true;
      } else {
        kern.Enter(fd, isCloexec);
      }
    }

    method Step(op: Op)
      requires Valid() && !halted
      modifies this`halted, user, kern`files, kern`open, kern`cloexec
      ensures Valid() && View() == Effect(old(View()), op, kern.start, kern.size)
      ensures halted <==> Stuck(old(View()), op, kern.start, kern.size)
    {
      hide Members, FirstFree;
      match op
      case DoRegister(fd, isCloexec) =>
        var r := Register(fd, isCloexec);
      case DoClose(fd, n) =>
        var r := user.Close(fd, n);
      case DoSetCloexec(fd, on, n) =>
        var r := user.SetCloexec(fd, on, n);
        assert fd in old(user.View()).open ==> fd < kern.start;
      case DoCloseCloexec(n) =>
        user.CloseCloexec(n);
      case DoKernelDup(isCloexec) =>
        var fd := KernelDup(isCloexec);
      case DoKernelClose(fd, n) =>
        var r := kern.Close(fd, n);
    }

    /**
     After any run, the bitmaps of both tables are the sets the operations make; a
     run stops early exactly at an operation for which the search finds nothing.
     */
    method Run(ops: seq<Op>) returns (n: nat)
      requires Valid() && !halted
      modifies this`halted, user, kern`files, kern`open, kern`cloexec
      ensures Valid() && n <= |ops| && (n == |ops| || halted)
      ensures View() == Effects(old(View()), ops[..n], kern.start, kern.size)
      ensures halted <==>
              n > 0 && Stuck(Effects(old(View()), ops[..n - 1], kern.start, kern.size), ops[n - 1], kern.start,
              kern.size)
    {
      hide Members, Effect, Stuck;
      n := 0;
      while n < |ops| && !halted
        invariant Valid() && n <= |ops| && View() == Effects(old(View()), ops[..n], kern.start, kern.size)
        invariant halted <==>
                  n > 0 && Stuck(Effects(old(View()), ops[..n - 1], kern.start, kern.size), ops[n - 1], kern.start,
                      kern.size)
      {
        Step(ops[n]);
        assert ops[..n + 1][..n] == ops[..n];
        n := n + 1;
      }
    }
  }
}
