/**
 The initial stack of a process: strings, auxiliary vector, environment and
 argument pointers and the argument count, pushed downwards from the top.
 `StackImage` is the same stack read upwards from the final stack pointer, as
 the process's start-up code reads it (section 3.4.1 of the System V AMD64 ABI).
 */
module UserStack {
  import opened Common
  import opened GuestMemory

  const STACK_TOP: int := 0x7f_c000_0000
  const STACK_SIZE: int := 0x20_0000
  const BOTTOM: int := STACK_TOP - STACK_SIZE

  const AT_NULL: nat := 0
  const AT_PHDR: nat := 3
  const AT_PHENT: nat := 4
  const AT_PHNUM: nat := 5
  const AT_PAGESZ: nat := 6
  const AT_BASE: nat := 7
  const AT_ENTRY: nat := 9
  const AT_RANDOM: nat := 25

  type CString = seq<byte>

  predicate NulFree(s: CString) {
    forall i :: 0 <= i < |s| ==> s[i] != 0
  }

  predicate AllNulFree(ss: seq<CString>) {
    forall i :: 0 <= i < |ss| ==> NulFree(ss[i])
  }

  function RoundUp8(n: int): (r: int)
    ensures n <= r < n + 8 && r % 8 == 0
  {
    (n + 7) / 8 * 8
  }

  // ---- reading ---------------------------------------------------------

  ghost predicate WordAt(mem: Memory, a: int, w: nat) {
    Mapped(mem, a, 8) && LeValue(Load(mem, a, 8)) == w
  }

  ghost predicate StringAt(mem: Memory, a: int, s: CString) {
    Mapped(mem, a, |s| + 1) && NulFree(s) && Load(mem, a, |s| + 1) == s + [0]
  }

  /** A pointer at address p to a string; not NULL. */
  ghost predicate PointerTo(mem: Memory, p: int, s: CString) {
    exists a: nat :: a != 0 && WordAt(mem, p, a) && StringAt(mem, a, s)
  }

  /** The process's view of its stack. */
  ghost predicate StackImage(mem: Memory, rsp: int, argv: seq<CString>, envp: seq<CString>) {
    && WordAt(mem, rsp, |argv|)
    && (forall i :: 0 <= i < |argv| ==> PointerTo(mem, rsp + 8 * (1 + i), argv[i]))
    && WordAt(mem, rsp + 8 * (1 + |argv|), 0)
    && (forall i :: 0 <= i < |envp| ==> PointerTo(mem, rsp + 8 * (2 + |argv| + i), envp[i]))
    && WordAt(mem, rsp + 8 * (2 + |argv| + |envp|), 0)
  }

  /** A string's bytes are those of memory, up to its NUL. */
  lemma StringBytes(mem: Memory, a: int, s: CString)
    requires StringAt(mem, a, s)
    ensures Mapped(mem, a, |s| + 1) && mem[a + |s|] == 0
    ensures forall i :: 0 <= i < |s| ==> a + i in mem && mem[a + i] == s[i] && s[i] != 0
  {
    var x := Load(mem, a, |s| + 1);
    assert x[|s|] == 0;
    assert forall i :: 0 <= i < |s| ==> x[i] == s[i];
  }

  lemma StringUnique(mem: Memory, a: int, s: CString, t: CString)
    requires StringAt(mem, a, s) && StringAt(mem, a, t)
    ensures s == t
  {
    StringBytes(mem, a, s);
    StringBytes(mem, a, t);
    NotNul(mem, a, s, |t|);
    NotNul(mem, a, t, |s|);
    hide StringAt;
  }

  lemma NotNul(mem: Memory, a: int, s: CString, i: int)
    requires StringAt(mem, a, s)
    ensures 0 <= i < |s| ==> a + i in mem && mem[a + i] != 0
  {
    StringBytes(mem, a, s);
    assert 0 <= i < |s| ==> s[i] != 0;
  }

  lemma PointerUnique(mem: Memory, p: int, s: CString, t: CString)
    requires PointerTo(mem, p, s) && PointerTo(mem, p, t)
    ensures s == t
  {
    var a: nat :| a != 0 && WordAt(mem, p, a) && StringAt(mem, a, s);
    var b: nat :| b != 0 && WordAt(mem, p, b) && StringAt(mem, b, t);
    StringUnique(mem, a, s, t);
  }

  /** Reading is unambiguous: a stack is the image of one argument list and one environment. */
  lemma ImageUnique(mem: Memory, rsp: int, argv: seq<CString>, envp: seq<CString>, argv': seq<CString>,
                    envp': seq<CString>)
    requires StackImage(mem, rsp, argv, envp) && StackImage(mem, rsp, argv', envp')
    ensures argv == argv' && envp == envp'
  {
    hide WordAt, StringAt, PointerTo;
    SameWord(mem, rsp, |argv|, |argv'|);
    forall i | 0 <= i < |argv|
      ensures argv[i] == argv'[i]
    {
      PointerUnique(mem, rsp + 8 * (1 + i), argv[i], argv'[i]);
    }
    if |envp| < |envp'| {
      NotNull(mem, rsp + 8 * (2 + |argv| + |envp|), envp'[|envp|]);
    } else if |envp'| < |envp| {
      NotNull(mem, rsp + 8 * (2 + |argv| + |envp'|), envp[|envp'|]);
    }
    forall i | 0 <= i < |envp|
      ensures envp[i] == envp'[i]
    {
      PointerUnique(mem, rsp + 8 * (2 + |argv| + i), envp[i], envp'[i]);
    }
  }

  lemma SameWord(mem: Memory, a: int, v: nat, w: nat)
    requires WordAt(mem, a, v) && WordAt(mem, a, w)
    ensures v == w
  {
  }

  lemma NotNull(mem: Memory, p: int, s: CString)
    requires PointerTo(mem, p, s)
    ensures !WordAt(mem, p, 0)
  {
  }

  // ---- the strings, one after the other --------------------------------

  function Flat(ss: seq<CString>): (b: seq<byte>) {
    if ss == [] then [] else Flat(ss[..|ss| - 1]) + ss[|ss| - 1] + [0]
  }

  /** Where the i-th string starts. */
  function Offset(ss: seq<CString>, i: nat): (o: nat)
    requires i <= |ss|
  {
    |Flat(ss[..i])|
  }

  lemma {:induction false} FlatPrefix(ss: seq<CString>, i: nat)
    requires i <= |ss|
    ensures Offset(ss, i) <= |Flat(ss)| && Flat(ss)[..Offset(ss, i)] == Flat(ss[..i])
    decreases |ss|
  {
    if i < |ss| {
      var init := ss[..|ss| - 1];
      FlatPrefix(init, i);
      assert init[..i] == ss[..i];
      assert Flat(ss)[..|Flat(init)|] == Flat(init);
    } else {
      assert ss[..i] == ss;
    }
  }

  /** The i-th string is where its offset says, with its NUL. */
  lemma FlatAt(ss: seq<CString>, i: nat)
    requires i < |ss|
    ensures Offset(ss, i) + |ss[i]| + 1 == Offset(ss, i + 1) <= |Flat(ss)|
    ensures Flat(ss)[Offset(ss, i)..Offset(ss, i + 1)] == ss[i] + [0]
  {
    FlatPrefix(ss, i + 1);
    var some := ss[..i + 1];
    assert some[..i] == ss[..i] && some[i] == ss[i];
    assert Flat(some) == Flat(ss[..i]) + ss[i] + [0];
    assert Flat(ss)[Offset(ss, i)..Offset(ss, i + 1)] == Flat(some)[Offset(ss, i)..];
  }

  // ---- pushing ---------------------------------------------------------

  lemma {:induction false} WordsSplit(ws: seq<nat>, i: nat)
    requires i <= |ws|
    ensures Words(ws) == Words(ws[..i]) + Words(ws[i..])
  {
    hide WordBytes;
    if i == 0 {
      assert ws[..0] == [] && ws[0..] == ws;
    } else {
      WordsSplit(ws[1..], i - 1);
      assert ws[1..][..i - 1] == ws[..i][1..] && ws[1..][i - 1..] == ws[i..];
      var x, y, z := WordBytes(ws[0]), Words(ws[1..][..i - 1]), Words(ws[i..]);
      assert x + (y + z) == (x + y) + z;
    }
  }

  /** These bytes are at this place. */
  ghost predicate PartAt(s: seq<byte>, o: int, b: seq<byte>) {
    0 <= o && o + |b| <= |s| && s[o..o + |b|] == b
  }

  lemma WordsFirst(ws: seq<nat>)
    requires ws != []
    ensures |Words(ws)| >= 8 && Words(ws)[..8] == WordBytes(ws[0])
  {
    hide WordBytes;
  }

  lemma PartBehind(x: seq<byte>, y: seq<byte>, b: seq<byte>)
    requires |b| <= |y| && y[..|b|] == b
    ensures PartAt(x + y, |x|, b)
  {
  }

  /** The i-th of packed words is where it should be. */
  lemma WordsAt(ws: seq<nat>, i: nat)
    requires i < |ws|
    ensures PartAt(Words(ws), 8 * i, WordBytes(ws[i]))
  {
    hide WordBytes, Words, PartAt;
    WordsSplit(ws, i);
    WordsFirst(ws[i..]);
    PartBehind(Words(ws[..i]), Words(ws[i..]), WordBytes(ws[i]));
  }

  /** The stack, from the stack pointer up, holds these bytes. */
  ghost predicate Holds(mem: Memory, rsp: int, image: seq<byte>) {
    Mapped(mem, BOTTOM, STACK_SIZE) && BOTTOM <= rsp <= STACK_TOP && rsp + |image| == STACK_TOP
    && forall i :: 0 <= i < |image| ==> rsp + i in mem && mem[rsp + i] == image[i]
  }

  class Loader {
    var rsp: int
    var mem: Memory

    /** push: the data goes below what is there, at a multiple of 8; returns the bytes of padding too. */
    method Push(data: seq<byte>, ghost image: seq<byte>) returns (a: int, ghost pad: seq<byte>)
      requires Holds(mem, rsp, image) && BOTTOM <= rsp - RoundUp8(|data|)
      modifies this
      ensures a == rsp == old(rsp) - RoundUp8(|data|) && |pad| == RoundUp8(|data|) - |data|
      ensures Holds(mem, rsp, data + pad + image)
    {
      hide RoundUp8;
      var size := RoundUp8(|data|);
      rsp := rsp - size;
      pad := Load(mem, rsp + |data|, size - |data|);
      mem := Save(mem, rsp, data);
      a := rsp;
    }

    method PushWord(w: nat, ghost ws: seq<nat>, ghost rest: seq<byte>)
      requires Holds(mem, rsp, Words(ws) + rest) && BOTTOM <= rsp - 8 && w < TWO64
      modifies this
      ensures rsp == old(rsp) - 8 && Holds(mem, rsp, Words([w] + ws) + rest)
    {
      hide Holds;
      ghost var pad;
      var a;
      assert RoundUp8(8) == 8;
      a, pad := Push(WordBytes(w), Words(ws) + rest);
      assert ([w] + ws)[1..] == ws;
      assert WordBytes(w) + pad + (Words(ws) + rest) == Words([w] + ws) + rest;
    }

    /**
     The pointers to some strings, last one first, while `end` walks down over
     the strings in the buffer. Each string is found where its pointer points.
     */
    method PushPointers(ss: seq<CString>, end: int, buf: seq<byte>, start: int, ghost ws: seq<nat>,
                        ghost rest: seq<byte>)
      returns (ghost ps: seq<nat>)
      requires Holds(mem, rsp, Words(ws) + rest) && BOTTOM <= rsp - 8 * |ss| && BOTTOM <= start && end <= STACK_TOP
      requires var o := end - |Flat(ss)| - start;
               0 <= o && o + |Flat(ss)| <= |buf| && buf[o..o + |Flat(ss)|] == Flat(ss)
      modifies this
      ensures rsp == old(rsp) - 8 * |ss| && Holds(mem, rsp, Words(ps + ws) + rest)
      ensures Points(ps, ss, end - |Flat(ss)|) && |ps| == |ss|
    {
      hide Holds, Words;
      ghost var first := end - |Flat(ss)|;
      var i, ptr := |ss|, end;
      ps := [];
      assert ss[..i] == ss && ps + ws == ws;
      while i > 0
        invariant 0 <= i <= |ss| && ptr == first + Offset(ss, i)
        invariant rsp == old(rsp) - 8 * (|ss| - i) && Holds(mem, rsp, Words(ps + ws) + rest)
        invariant |ps| == |ss| - i && forall k :: i <= k < |ss| ==> ps[k - i] == first + Offset(ss, k)
      {
        i := i - 1;
        FlatAt(ss, i);
        ptr := ptr - (|ss[i]| + 1);
        PushWord(ptr, ps + ws, rest);
        assert [ptr] + (ps + ws) == ([ptr] + ps) + ws;
        ps := [ptr] + ps;
        assert StrcmpEqual(buf, ptr - start, ss[i]) by {
          StillThere(buf, first - start, ss, i);
        }
      }
    }

    /** The strings, behind 16 random bytes. */
    method PushStrings(argv: seq<CString>, envp: seq<CString>, random: seq<byte>)
      returns (buf: seq<byte>, start: int, randPtr: int, ghost back: seq<byte>)
      requires Mapped(mem, BOTTOM, STACK_SIZE) && |random| == 16 && Need(argv, envp) <= STACK_SIZE
      modifies this
      ensures buf == Flat(argv + envp) && rsp == start == STACK_TOP - 16 - RoundUp8(|buf|)
      ensures Holds(mem, rsp, buf + back) && randPtr == STACK_TOP - 16
      ensures |back| >= 16 && back[|back| - 16..] == random
    {
      hide Flat, RoundUp8;
      rsp := STACK_TOP;
      assert RoundUp8(16) == 16 by {
        SixteenFits();
      }
      ghost var pad;
      randPtr, pad := Push(random, []);
      assert random + pad + [] == random;
      buf := Gather(argv + envp);
      start, pad := Push(buf, random);
      back := pad + random;
      assert buf + pad + random == buf + back;
    }

    /** The pushes of init_userstack, from the strings down to the argument count. */
    method PushAll(argv: seq<CString>, envp: seq<CString>, random: seq<byte>,
                   interp: nat, entry: nat, phdr: nat, phent: nat, phnum: nat)
      returns (randPtr: int)
      requires Mapped(mem, BOTTOM, STACK_SIZE) && |random| == 16 && AllNulFree(argv) && AllNulFree(envp)
      requires interp < TWO64 && entry < TWO64 && phdr < TWO64 && phent < TWO64 && phnum < TWO64
      requires Need(argv, envp) <= STACK_SIZE
      modifies this
      ensures rsp == STACK_TOP - Need(argv, envp)
      ensures StackImage(mem, rsp, argv, envp)
      ensures 0 <= randPtr && AuxAt(mem, rsp + 8 * (3 + |argv| + |envp|),
              Aux(interp, entry, phdr, phent, phnum, randPtr))
      ensures BytesAt(mem, randPtr, random)
    {
      hide Flat, RoundUp8, BytesAt, Holds, Words, StackImage, AuxAt, Points, Mapped, AllNulFree;
      var buf, start;
      ghost var back;
      buf, start, randPtr, back := PushStrings(argv, envp, random);
      FlatBoth(argv, envp);
      var argsEnd, envEnd := start + |Flat(argv)|, start + |buf|;
      var aux := Aux(interp, entry, phdr, phent, phnum, randPtr);
      PushAux(aux, buf + back);
      PushWord(0, aux, buf + back);
      ghost var eps, aps;
      assert buf[|Flat(argv)|..|Flat(argv)| + |Flat(envp)|] == Flat(envp);
      eps := PushPointers(envp, envEnd, buf, start, [0] + aux, buf + back);
      PushWord(0, eps + ([0] + aux), buf + back);
      assert buf[0..0 + |Flat(argv)|] == Flat(argv);
      aps := PushPointers(argv, argsEnd, buf, start, [0] + (eps + ([0] + aux)), buf + back);
      PushWord(|argv|, aps + ([0] + (eps + ([0] + aux))), buf + back);
      RandomThere(mem, rsp, Words(AllWords(|argv|, aps, eps, aux)), buf, back, random);
      Finished(mem, rsp, argv, envp, aux, aps, eps, buf, back, start);
    }

    /**
     init_userstack: reading the finished stack upwards from the stack pointer
     gives the arguments and the environment back, then the auxiliary vector.
     */
    method InitUserstack(argv: seq<CString>, envp: seq<CString>, random: seq<byte>,
                         interp: nat, entry: nat, phdr: nat, phent: nat, phnum: nat)
      returns (randPtr: int)
      requires Mapped(mem, BOTTOM, STACK_SIZE) && |random| == 16 && AllNulFree(argv) && AllNulFree(envp)
      requires interp < TWO64 && entry < TWO64 && phdr < TWO64 && phent < TWO64 && phnum < TWO64
      requires Need(argv, envp) <= STACK_SIZE
      modifies this
      ensures rsp == STACK_TOP - Need(argv, envp)
      ensures StackImage(mem, rsp, argv, envp)
      ensures 0 <= randPtr
      ensures var a := rsp + 8 * (3 + |argv| + |envp|);
              && Finds(mem, a, AT_BASE, interp) && Finds(mem, a, AT_ENTRY, entry)
              && Finds(mem, a, AT_PHDR, phdr) && Finds(mem, a, AT_PHENT, phent) && Finds(mem, a, AT_PHNUM, phnum)
              && Finds(mem, a, AT_PAGESZ, 4096) && Finds(mem, a, AT_RANDOM, randPtr) && Finds(mem, a, AT_NULL, 0)
      ensures BytesAt(mem, randPtr, random)
    {
      hide StackImage, AuxAt, Finds, BytesAt, Mapped, Aux, AllNulFree, Need;
      randPtr := PushAll(argv, envp, random, interp, entry, phdr, phent, phnum);
      AuxFound(mem, rsp + 8 * (3 + |argv| + |envp|), interp, entry, phdr, phent, phnum, randPtr);
    }

    method PushAux(aux: seq<nat>, ghost rest: seq<byte>)
      requires Holds(mem, rsp, rest) && BOTTOM <= rsp - 128 && |aux| == 16
      modifies this
      ensures rsp == old(rsp) - 128 && Holds(mem, rsp, Words(aux) + rest)
    {
      hide Holds, Words;
      ghost var pad;
      var a;
      assert RoundUp8(128) == 128;
      a, pad := Push(Words(aux), rest);
      assert Words(aux) + pad + rest == Words(aux) + rest;
    }
  }

  lemma SixteenFits()
    ensures RoundUp8(16) == 16
  {
  }

  lemma RandomThere(mem: Memory, rsp: int, front: seq<byte>, buf: seq<byte>, back: seq<byte>, random: seq<byte>)
    requires Holds(mem, rsp, front + (buf + back)) && |random| == 16 <= |back| && back[|back| - 16..] == random
    ensures BytesAt(mem, STACK_TOP - 16, random)
  {
    hide Mapped, Load;
    var image := front + (buf + back);
    HoldsLoad(mem, rsp, image, |image| - 16, 16);
    assert image[|image| - 16..|image|] == back[|back| - 16..];
  }

  ghost predicate AuxAt(mem: Memory, a: int, aux: seq<nat>) {
    forall i :: 0 <= i < |aux| ==> WordAt(mem, a + 8 * i, aux[i])
  }

  /** All the words of the finished stack, from the argument count to the end of the auxiliary vector. */
  ghost function AllWords(argc: nat, aps: seq<nat>, eps: seq<nat>, aux: seq<nat>): (ws: seq<nat>)
    ensures |ws| == 3 + |aps| + |eps| + |aux| && ws[0] == argc
    ensures forall i :: 0 <= i < |aps| ==> ws[1 + i] == aps[i]
    ensures ws[1 + |aps|] == 0
    ensures forall i :: 0 <= i < |eps| ==> ws[2 + |aps| + i] == eps[i]
    ensures ws[2 + |aps| + |eps|] == 0
    ensures forall i :: 0 <= i < |aux| ==> ws[3 + |aps| + |eps| + i] == aux[i]
  {
    [argc] + (aps + ([0] + (eps + ([0] + aux))))
  }

  lemma ReadPointer(mem: Memory, rsp: int, ws: seq<nat>, buf: seq<byte>, back: seq<byte>, k: nat, o: int, s: CString)
    requires Holds(mem, rsp, Words(ws) + (buf + back)) && k < |ws| && StrcmpEqual(buf, o, s) && NulFree(s)
    requires ws[k] == rsp + 8 * |ws| + o && 0 < ws[k] < TWO64
    ensures PointerTo(mem, rsp + 8 * k, s)
  {
    hide Holds, Words, WordAt, StringAt, StrcmpEqual;
    ReadWord(mem, rsp, ws, buf + back, k);
    ReadString(mem, rsp, Words(ws), buf, back, o, s);
  }

  /** What the finished stack is made of. */
  ghost predicate Parts(argv: seq<CString>, envp: seq<CString>, aux: seq<nat>, aps: seq<nat>, eps: seq<nat>,
                        buf: seq<byte>, start: int) {
    && Points(aps, argv, start) && Points(eps, envp, start + |Flat(argv)|) && buf == Flat(argv) + Flat(envp)
    && AllNulFree(argv) && AllNulFree(envp) && |argv| < TWO64
    && (forall i :: 0 <= i < |aux| ==> aux[i] < TWO64)
  }

  lemma FinishedArg(mem: Memory, rsp: int, argv: seq<CString>, envp: seq<CString>, aux: seq<nat>,
                    aps: seq<nat>, eps: seq<nat>, buf: seq<byte>, back: seq<byte>, start: int, i: nat)
    requires Holds(mem, rsp, Words(AllWords(|argv|, aps, eps, aux)) + (buf + back))
    requires Parts(argv, envp, aux, aps, eps, buf, start) && start == rsp + 8 * (3 + |aps| + |eps| + |aux|)
             && i < |argv|
    ensures PointerTo(mem, rsp + 8 * (1 + i), argv[i])
  {
    hide Holds, Words, PointerTo, AllWords, NulFree, StrcmpEqual, Flat, Offset;
    var ws, o := AllWords(|argv|, aps, eps, aux), Offset(argv, i);
    assert buf[0..0 + |Flat(argv)|] == Flat(argv);
    StillThere(buf, 0, argv, i);
    Bounded(mem, rsp, ws, buf, back, o, argv[i]);
    ReadPointer(mem, rsp, ws, buf, back, 1 + i, o, argv[i]);
  }

  lemma FinishedEnv(mem: Memory, rsp: int, argv: seq<CString>, envp: seq<CString>, aux: seq<nat>,
                    aps: seq<nat>, eps: seq<nat>, buf: seq<byte>, back: seq<byte>, start: int, i: nat)
    requires Holds(mem, rsp, Words(AllWords(|argv|, aps, eps, aux)) + (buf + back))
    requires Parts(argv, envp, aux, aps, eps, buf, start) && start == rsp + 8 * (3 + |aps| + |eps| + |aux|)
             && i < |envp|
    ensures PointerTo(mem, rsp + 8 * (2 + |argv| + i), envp[i])
  {
    hide Holds, Words, PointerTo, AllWords, NulFree, StrcmpEqual, Flat, Offset;
    var ws, o := AllWords(|argv|, aps, eps, aux), |Flat(argv)| + Offset(envp, i);
    assert buf[|Flat(argv)|..|Flat(argv)| + |Flat(envp)|] == Flat(envp);
    StillThere(buf, |Flat(argv)|, envp, i);
    Bounded(mem, rsp, ws, buf, back, o, envp[i]);
    ReadPointer(mem, rsp, ws, buf, back, 2 + |argv| + i, o, envp[i]);
  }

  lemma Finished(mem: Memory, rsp: int, argv: seq<CString>, envp: seq<CString>, aux: seq<nat>,
                 aps: seq<nat>, eps: seq<nat>, buf: seq<byte>, back: seq<byte>, start: int)
    requires Holds(mem, rsp, Words(AllWords(|argv|, aps, eps, aux)) + (buf + back))
    requires Parts(argv, envp, aux, aps, eps, buf, start) && start == rsp + 8 * (3 + |aps| + |eps| + |aux|)
    ensures StackImage(mem, rsp, argv, envp) && AuxAt(mem, rsp + 8 * (3 + |argv| + |envp|), aux)
  {
    hide Holds, Words, WordAt, PointerTo, AllWords, AllNulFree, Flat, Offset;
    var ws, a, e := AllWords(|argv|, aps, eps, aux), |argv|, |envp|;
    ReadWord(mem, rsp, ws, buf + back, 0);
    ReadWord(mem, rsp, ws, buf + back, 1 + a);
    ReadWord(mem, rsp, ws, buf + back, 2 + a + e);
    forall i | 0 <= i < a
      ensures PointerTo(mem, rsp + 8 * (1 + i), argv[i])
    {
      FinishedArg(mem, rsp, argv, envp, aux, aps, eps, buf, back, start, i);
    }
    forall i | 0 <= i < e
      ensures PointerTo(mem, rsp + 8 * (2 + a + i), envp[i])
    {
      FinishedEnv(mem, rsp, argv, envp, aux, aps, eps, buf, back, start, i);
    }
    forall i | 0 <= i < |aux|
      ensures WordAt(mem, rsp + 8 * (3 + a + e) + 8 * i, aux[i])
    {
      assert ws[3 + |aps| + |eps| + i] == aux[i];
      ReadWord(mem, rsp, ws, buf + back, 3 + a + e + i);
    }
  }

  lemma Bounded(mem: Memory, rsp: int, ws: seq<nat>, buf: seq<byte>, back: seq<byte>, o: int, s: CString)
    requires Holds(mem, rsp, Words(ws) + (buf + back)) && StrcmpEqual(buf, o, s)
    ensures 0 < rsp + 8 * |ws| + o < TWO64
  {
    hide Words;
  }

  /** The pointers of some strings that lie one after the other from `first` on. */
  ghost predicate Points(ps: seq<nat>, ss: seq<CString>, first: int) {
    |ps| == |ss| && forall i :: 0 <= i < |ss| ==> ps[i] == first + Offset(ss, i)
  }

  /** strcmp finds the string at this place of the buffer. */
  predicate StrcmpEqual(buf: seq<byte>, o: int, s: CString) {
    0 <= o && o + |s| + 1 <= |buf| && buf[o..o + |s|] == s && buf[o + |s|] == 0
  }

  lemma StillThere(buf: seq<byte>, o: int, ss: seq<CString>, i: nat)
    requires 0 <= o && o + |Flat(ss)| <= |buf| && buf[o..o + |Flat(ss)|] == Flat(ss) && i < |ss|
    ensures StrcmpEqual(buf, o + Offset(ss, i), ss[i])
  {
    hide Flat, Offset;
    FlatAt(ss, i);
    var a, b := Offset(ss, i), Offset(ss, i + 1);
    SliceSlice(buf, o, |Flat(ss)|, a, b);
    StringInSlice(buf, o + a, ss[i]);
  }

  lemma SliceSlice(s: seq<byte>, o: int, n: int, a: int, b: int)
    requires 0 <= o <= o + n <= |s| && 0 <= a <= b <= n
    ensures s[o..o + n][a..b] == s[o + a..o + b]
  {
    var x, y := s[o..o + n][a..b], s[o + a..o + b];
    assert |x| == |y|;
    forall k | 0 <= k < b - a
      ensures x[k] == y[k]
    {
      assert x[k] == s[o..o + n][a + k] == s[o + (a + k)];
    }
  }

  lemma StringInSlice(buf: seq<byte>, o: int, s: CString)
    requires 0 <= o && o + |s| + 1 <= |buf| && buf[o..o + |s| + 1] == s + [0]
    ensures StrcmpEqual(buf, o, s)
  {
    var x := buf[o..o + |s| + 1];
    assert x[..|s|] == buf[o..o + |s|] && x[|s|] == buf[o + |s|];
  }

  /** All strings of a list, with their NULs, in one buffer. */
  method Gather(ss: seq<CString>) returns (buf: seq<byte>)
    ensures buf == Flat(ss)
  {
    buf := [];
    for i := 0 to |ss|
      invariant buf == Flat(ss[..i])
    {
      assert ss[..i + 1][..i] == ss[..i];
      buf := buf + ss[i] + [0];
    }
    assert ss[..|ss|] == ss;
  }

  /** The auxiliary vector, as words. */
  function Aux(interp: nat, entry: nat, phdr: nat, phent: nat, phnum: nat, random: nat): (ws: seq<nat>) {
    [AT_BASE, interp, AT_ENTRY, entry, AT_PHDR, phdr, AT_PHENT, phent, AT_PHNUM, phnum,
     AT_PAGESZ, 4096, AT_RANDOM, random, AT_NULL, 0]
  }

  /** Entry j of an auxiliary vector is neither the sought one nor the last. */
  ghost predicate Passed(mem: Memory, a: int, j: nat, tag: nat) {
    Mapped(mem, a + 16 * j, 16) && !WordAt(mem, a + 16 * j, tag) && !WordAt(mem, a + 16 * j, AT_NULL)
  }

  ghost predicate FoundAt(mem: Memory, a: int, tag: nat, v: nat, n: nat) {
    && WordAt(mem, a + 16 * n, tag) && WordAt(mem, a + 16 * n + 8, v)
    && forall j: nat :: j < n ==> Passed(mem, a, j, tag)
  }

  /** A process that looks through its auxiliary vector for a tag finds the value. */
  ghost predicate Finds(mem: Memory, a: int, tag: nat, v: nat) {
    exists n: nat :: FoundAt(mem, a, tag, v, n)
  }

  lemma FindsOne(mem: Memory, a: int, tag: nat, v: nat, w: nat)
    requires Finds(mem, a, tag, v) && Finds(mem, a, tag, w)
    ensures v == w
  {
    hide WordAt;
    var n: nat :| FoundAt(mem, a, tag, v, n);
    var m: nat :| FoundAt(mem, a, tag, w, m);
    assert !Passed(mem, a, n, tag) && !Passed(mem, a, m, tag);
    SameWord(mem, a + 16 * n + 8, v, w);
  }

  /** The pairs of an auxiliary vector, by tag and value. */
  ghost predicate PairAt(mem: Memory, a: int, j: nat, tag: nat, v: nat) {
    WordAt(mem, a + 16 * j, tag) && WordAt(mem, a + 16 * j + 8, v)
  }

  lemma PairRead(mem: Memory, a: int, aux: seq<nat>, j: nat)
    requires AuxAt(mem, a, aux) && 2 * j + 1 < |aux|
    ensures PairAt(mem, a, j, aux[2 * j], aux[2 * j + 1])
  {
    hide WordAt;
    assert WordAt(mem, a + 8 * (2 * j), aux[2 * j]);
    assert WordAt(mem, a + 8 * (2 * j + 1), aux[2 * j + 1]);
  }

  lemma PairPassed(mem: Memory, a: int, j: nat, tag: nat, v: nat, sought: nat)
    requires PairAt(mem, a, j, tag, v) && tag != sought && tag != AT_NULL
    ensures Passed(mem, a, j, sought)
  {
  }

  /** No tag comes twice, so that each entry is the one found under its tag. */
  lemma EntryFound(mem: Memory, a: int, aux: seq<nat>, n: nat)
    requires AuxAt(mem, a, aux) && 2 * n + 1 < |aux|
    requires forall j: nat :: j < n ==> aux[2 * j] != aux[2 * n] && aux[2 * j] != AT_NULL
    ensures Finds(mem, a, aux[2 * n], aux[2 * n + 1])
  {
    hide AuxAt, Passed, WordAt;
    PairRead(mem, a, aux, n);
    forall j: nat | j < n
      ensures Passed(mem, a, j, aux[2 * n])
    {
      PairRead(mem, a, aux, j);
      PairPassed(mem, a, j, aux[2 * j], aux[2 * j + 1], aux[2 * n]);
    }
    assert FoundAt(mem, a, aux[2 * n], aux[2 * n + 1], n);
  }

  /** What a process finds under each tag of the vector. */
  lemma AuxFound(mem: Memory, a: int, interp: nat, entry: nat, phdr: nat, phent: nat, phnum: nat, random: nat)
    requires AuxAt(mem, a, Aux(interp, entry, phdr, phent, phnum, random))
    ensures Finds(mem, a, 7, interp) && Finds(mem, a, 9, entry)
    ensures Finds(mem, a, 3, phdr) && Finds(mem, a, 4, phent) && Finds(mem, a, 5, phnum)
    ensures Finds(mem, a, 6, 4096) && Finds(mem, a, 25, random) && Finds(mem, a, 0, 0)
  {
    hide AuxAt, Finds;
    var aux := Aux(interp, entry, phdr, phent, phnum, random);
    EntryFound(mem, a, aux, 0);
    EntryFound(mem, a, aux, 1);
    EntryFound(mem, a, aux, 2);
    EntryFound(mem, a, aux, 3);
    EntryFound(mem, a, aux, 4);
    EntryFound(mem, a, aux, 5);
    EntryFound(mem, a, aux, 6);
    EntryFound(mem, a, aux, 7);
  }

  /** What the stack must have room for. */
  function Need(argv: seq<CString>, envp: seq<CString>): (n: int) {
    16 + RoundUp8(|Flat(argv + envp)|) + 128 + 8 * (|argv| + |envp| + 3)
  }

  lemma FlatStep(ss: seq<CString>)
    requires ss != []
    ensures Flat(ss) == Flat(ss[..|ss| - 1]) + ss[|ss| - 1] + [0]
  {
  }

  lemma {:induction false} FlatBoth(argv: seq<CString>, envp: seq<CString>)
    ensures Flat(argv + envp) == Flat(argv) + Flat(envp)
    decreases |envp|
  {
    var all := argv + envp;
    if envp == [] {
      assert all == argv && Flat(argv) + Flat(envp) == Flat(argv);
    } else {
      var init, last := envp[..|envp| - 1], envp[|envp| - 1];
      FlatBoth(argv, init);
      assert all[..|all| - 1] == argv + init && all[|all| - 1] == last;
      FlatStep(all);
      FlatStep(envp);
      hide Flat;
      assert (Flat(argv) + Flat(init)) + last + [0] == Flat(argv) + (Flat(init) + last + [0]);
    }
  }

  /** Memory holds each part of the image. */
  lemma HoldsLoad(mem: Memory, rsp: int, image: seq<byte>, o: int, n: nat)
    requires Holds(mem, rsp, image) && 0 <= o && o + n <= |image|
    ensures Mapped(mem, rsp + o, n) && Load(mem, rsp + o, n) == image[o..o + n]
  {
    forall p | rsp + o <= p < rsp + o + n
      ensures p in mem
    {
      assert rsp + (p - rsp) in mem;
    }
    var x := Load(mem, rsp + o, n);
    forall k | 0 <= k < n
      ensures x[k] == image[o..o + n][k]
    {
      assert mem[rsp + (o + k)] == image[o + k];
    }
  }

  lemma SlicePrefix(s: seq<byte>, t: seq<byte>, a: int, b: int)
    requires 0 <= a <= b <= |s|
    ensures (s + t)[a..b] == s[a..b]
  {
  }

  ghost predicate BytesAt(mem: Memory, a: int, b: seq<byte>) {
    Mapped(mem, a, |b|) && Load(mem, a, |b|) == b
  }

  lemma LoadedWord(mem: Memory, a: int, w: nat)
    requires w < TWO64 && BytesAt(mem, a, WordBytes(w))
    ensures WordAt(mem, a, w)
  {
    hide WordBytes, LeValue, Load, Mapped;
    WordRoundTrip(w);
  }

  lemma ReadWordAt(mem: Memory, rsp: int, front: seq<byte>, rest: seq<byte>, o: int, w: nat)
    requires Holds(mem, rsp, front + rest) && w < TWO64 && PartAt(front, o, WordBytes(w))
    ensures WordAt(mem, rsp + o, w)
  {
    hide WordBytes, Holds, WordAt, PartAt;
    WordIn(mem, rsp, front, rest, o, WordBytes(w), w);
  }

  /** A word of the image is read back. */
  lemma ReadWord(mem: Memory, rsp: int, ws: seq<nat>, rest: seq<byte>, i: nat)
    requires Holds(mem, rsp, Words(ws) + rest) && i < |ws| && ws[i] < TWO64
    ensures WordAt(mem, rsp + 8 * i, ws[i])
  {
    hide *;
    WordsAt(ws, i);
    ReadWordAt(mem, rsp, Words(ws), rest, 8 * i, ws[i]);
  }

  lemma WordIn(mem: Memory, rsp: int, front: seq<byte>, rest: seq<byte>, o: int, b: seq<byte>, w: nat)
    requires Holds(mem, rsp, front + rest) && w < TWO64 && b == WordBytes(w)
    requires PartAt(front, o, b)
    ensures WordAt(mem, rsp + o, w)
  {
    hide WordBytes, LeValue, Holds, Words, BytesAt, WordAt, PartAt;
    ReadBytes(mem, rsp, front, rest, o, b);
    LoadedWord(mem, rsp + o, w);
  }

  lemma ReadBytes(mem: Memory, rsp: int, front: seq<byte>, rest: seq<byte>, o: int, b: seq<byte>)
    requires Holds(mem, rsp, front + rest) && PartAt(front, o, b)
    ensures BytesAt(mem, rsp + o, b)
  {
    hide Holds, Load, Mapped;
    SlicePrefix(front, rest, o, o + |b|);
    HoldsLoad(mem, rsp, front + rest, o, |b|);
  }

  /** A string of the buffer is read back. */
  lemma ReadString(mem: Memory, rsp: int, front: seq<byte>, buf: seq<byte>, back: seq<byte>, o: int, s: CString)
    requires Holds(mem, rsp, front + (buf + back)) && StrcmpEqual(buf, o, s) && NulFree(s)
    ensures StringAt(mem, rsp + |front| + o, s)
  {
    hide Holds, Load, Mapped;
    var image := front + (buf + back);
    var n := |s| + 1;
    assert image[|front| + o..|front| + o + n] == buf[o..o + n];
    assert buf[o..o + n] == s + [0];
    HoldsLoad(mem, rsp, image, |front| + o, n);
  }
}
